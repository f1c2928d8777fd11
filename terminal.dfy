/**
  `POST /terminal/execute`: a stub that answers a command with a canned or
  templated string and never runs anything. `root` is the server root path
  (the process's working directory at start-up).
 */
module Terminal {
  import opened FileSystem

  const LsOutput := "index.ts\npackage.json\nignore.ts\ntest"
  const EchoPrefix := "Command '"
  const EchoSuffix := "' executed successfully"

  /** The recognised commands and their fixed answers. */
  function Canned(root: string): (m: map<string, string>)
    ensures m.Keys == {"pwd", "ls", "whoami"}
  {
    map["pwd" := root, "ls" := LsOutput, "whoami" := "user"]
  }

  /** The command quoted in a templated "executed successfully" answer, if
      `output` is one. */
  function EchoedCommand(output: string): Option<string>
  {
    if |output| >= |EchoPrefix| + |EchoSuffix|
       && output[..|EchoPrefix|] == EchoPrefix
       && output[|output| - |EchoSuffix|..] == EchoSuffix
    then Some(output[|EchoPrefix|..|output| - |EchoSuffix|])
    else None
  }

  /** The `output` field answered for `command`: a recognised command gets
      its canned answer; any other command is quoted back, so that the command
      can be read off the answer again. */
  function Execute(root: string, command: string): (output: string)
    ensures command in Canned(root) ==> output == Canned(root)[command]
    ensures command !in Canned(root) ==> EchoedCommand(output) == Some(command)
  {
    if command == "pwd" then root
    else if command == "ls" then LsOutput
    else if command == "whoami" then "user"
    else
      var output := EchoPrefix + command + EchoSuffix;
      assert output[..|EchoPrefix|] == EchoPrefix;
      assert output[|output| - |EchoSuffix|..] == EchoSuffix;
      assert output[|EchoPrefix|..|output| - |EchoSuffix|] == command;
      output
  }

  /** Two different unrecognised commands never get the same answer. */
  lemma UnknownCommandsDistinct(root: string, c1: string, c2: string)
    requires c1 !in Canned(root) && c2 !in Canned(root) && c1 != c2
    ensures Execute(root, c1) != Execute(root, c2)
  {
  }

  /** The root path reaches the answer only through `pwd`. */
  lemma RootOnlyThroughPwd(root1: string, root2: string, command: string)
    requires command != "pwd"
    ensures Execute(root1, command) == Execute(root2, command)
  {
  }
}
