/**
  An abstract, finite and acyclic model of the part of the host filesystem the
  server reads: a directory is a named, ordered listing of child nodes, a file
  is a name and its text. The order of a directory's children is the order the
  directory-listing primitive yields them; nothing here sorts.
 */
module FileSystem {

  datatype Option<T> = None | Some(value: T)

  datatype Node =
    | File(name: string, contents: string)
    | Dir(name: string, children: seq<Node>)

  /** A base name as a directory listing yields it: never empty, never `.` or
      `..`, and without a path separator. */
  predicate ValidName(s: string) {
    s != "" && s != "." && s != ".." && '/' !in s
  }

  /** No two children of one directory share a name. */
  predicate UniqueNames(listing: seq<Node>) {
    forall i, j :: 0 <= i < j < |listing| ==> listing[i].name != listing[j].name
  }

  /** What a real filesystem guarantees below a node: every child of every
      directory has a valid base name, and siblings have distinct names. The
      node's own name is not constrained (the root may be `/`). */
  predicate WellFormed(n: Node)
    decreases n
  {
    match n
    case File(_, _) => true
    case Dir(_, children) =>
      && UniqueNames(children)
      && (forall i :: 0 <= i < |children| ==> ValidName(children[i].name))
      && (forall i :: 0 <= i < |children| ==> WellFormed(children[i]))
  }

  /** The child of a listing that a path segment names: the first one with
      that name, or nothing. */
  function FindChild(listing: seq<Node>, name: string): (r: Option<Node>)
    ensures r.Some? ==> r.value in listing && r.value.name == name
    ensures r.None? <==> forall i :: 0 <= i < |listing| ==> listing[i].name != name
  {
    if listing == [] then None
    else if listing[0].name == name then Some(listing[0])
    else FindChild(listing[1..], name)
  }

  /** In a listing with distinct names, looking up a child's name finds that child. */
  lemma FindChildUnique(listing: seq<Node>, i: nat)
    requires UniqueNames(listing)
    requires i < |listing|
    ensures FindChild(listing, listing[i].name) == Some(listing[i])
  {
  }

  /** The node that a path of segments names, starting from node `n`: the
      empty path names `n` itself; a segment descends into the child of that
      name; a path that runs through a file or a missing name names nothing. */
  function Resolve(n: Node, path: seq<string>): (r: Option<Node>)
    decreases path
    ensures path == [] ==> r == Some(n)
    ensures r.Some? && path != [] ==> r.value.name == path[|path| - 1]
    ensures r.Some? && path != [] ==> n.Dir?
  {
    if path == [] then Some(n)
    else
      match n
      case File(_, _) => None
      case Dir(_, children) =>
        match FindChild(children, path[0])
        case None => None
        case Some(c) => Resolve(c, path[1..])
  }

  /** Resolving a longer path is resolving its first part, then the rest from there. */
  lemma {:induction false} ResolveAppend(n: Node, p: seq<string>, q: seq<string>)
    ensures Resolve(n, p + q) == match Resolve(n, p) case None => None case Some(m) => Resolve(m, q)
    decreases p
  {
    if p == [] {
      assert p + q == q;
    } else if n.Dir? {
      assert (p + q)[0] == p[0];
      assert (p + q)[1..] == p[1..] + q;
      match FindChild(n.children, p[0])
      case None =>
      case Some(c) => ResolveAppend(c, p[1..], q);
    }
  }

  /** Everything a path reaches inside a well-formed tree is itself well-formed,
      and every segment it went through is a valid base name. */
  lemma {:induction false} ResolveWellFormed(n: Node, path: seq<string>)
    requires WellFormed(n)
    requires Resolve(n, path).Some?
    ensures WellFormed(Resolve(n, path).value)
    ensures forall k :: 0 <= k < |path| ==> ValidName(path[k])
    decreases path
  {
    if path != [] {
      var c := FindChild(n.children, path[0]).value;
      var i :| 0 <= i < |n.children| && n.children[i] == c;
      ResolveWellFormed(c, path[1..]);
      forall k | 0 <= k < |path| ensures ValidName(path[k]) {
        if k > 0 { assert path[k] == path[1..][k - 1]; }
      }
    }
  }
}
