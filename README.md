# PocketSWE server core, modelled in Dafny

The server is a small HTTP API that lets a remote client look at the machine's
filesystem below a fixed root (the process's working directory). It has three
handlers with any logic in them, and this project models all three:

- `GET /tree` walks the root directory recursively. Names on an ignore list are
  skipped. Every other child becomes an object `{name, type, path}`, where
  `type` is `"file"` or `"dir"` and `path` is relative to the root. A directory
  object also gets `children`, the walk of that directory.
- `GET /file/:path` returns `{path, contents}` for a file below the root. It
  answers 404 `Not found` when the path is empty, names nothing, or names a
  directory.
- `POST /terminal/execute` is a stub. It answers `pwd`, `ls` and `whoami` with
  canned strings, and quotes any other command back as "executed
  successfully". Nothing is ever run.

The real filesystem is replaced by a finite tree (`FileSystem.Node`). A
directory is a name plus its children, in the order the listing yields them; a
file is a name plus its text. Paths are sequences of base-name segments. The
root's own path is `[]`, so a top-level entry's path is `[name]`. The ignore
list and the root path are parameters.

Modules:

- `FileSystem` (file_system.dfy): the tree, well-formedness (valid, distinct
  sibling names), and the lookup of a path segment by segment.
- `Walker` (walker.dfy): the emitted `Entry` objects, the walk as a pure
  recursive function `Walk`, and the walk as the server runs it, `WalkDir`. That
  method is a loop that appends one object per kept child, proved equal to
  `Walk`. The lemmas cover exclusion, classification, order and paths at every
  depth.
- `Routes` (routes.dfy): the `/tree` and `/file/:path` handlers, and the lemma
  that the two agree.
- `Terminal` (terminal.dfy): the command stub.

`Walk` terminates on every tree because each recursive call is on a proper
part of the listing or on a child directory. Dafny checks this from the
`decreases` clauses of `Walk`, `EntryFor` and `WalkDir`.

A file entry has no `children` field at all, which is not the same as an empty
one. The model keeps this distinction with two constructors: `FileEntry` has
no children and `DirEntry` has them. `kind` is the object's `type` string,
kept as a separate field. The model then proves that the string and the
constructor agree.

## Model

| member | source | states |
|---|---|---|
| `FileSystem.FindChild` | index.ts:53-55 | The child found for a name is in the listing and has that name. Nothing is found exactly when no child has the name. |
| `FileSystem.FindChildUnique` | index.ts:53-55 | When sibling names are distinct, looking up a child's name finds that very child. |
| `FileSystem.Resolve` | index.ts:53-55 | The empty path names the start node. A non-empty path that resolves names a node whose name is the last segment, and it starts at a directory. |
| `FileSystem.ResolveAppend` | index.ts:53 | Resolving `p + q` is resolving `p`, then `q` from the node reached. |
| `FileSystem.ResolveWellFormed` | index.ts:53-55 | In a well-formed tree, whatever a path reaches is well-formed, and every segment of that path is a valid base name. |
| `Walker.Walk` | index.ts:11-29 | A walk emits no more entries than the listing has. No emitted entry has an ignored name. Each entry's path is the directory's path extended by the entry's name. |
| `Walker.WalkAppend` | index.ts:13-27 | Walking two listings in turn gives the concatenation of the two walks, so the per-child loop builds the walk piece by piece. |
| `Walker.WalkDir` | index.ts:11-29 | The loop that skips ignored names and pushes one object per remaining child, recursing into directories, returns exactly `Walk` of the directory's listing. |
| `Walker.KeptMembers` | index.ts:15-17 | A child is kept exactly when it is listed and its name is not on the ignore list. |
| `Walker.WalkMirrorsKept` | index.ts:13-28 | The walk has one entry per kept child, in listing order, so its length is the number of non-ignored children. Each entry has the child's name and the path `dirPath + [name]`. A directory child gives `type "dir"` with `children` equal to the walk of its own listing. Any other child gives `type "file"` and no `children`. |
| `Walker.Unignored` | index.ts:15-17 | A name survives the filter exactly when it is in the input and not on the ignore list, and the result is never longer than the input. |
| `Walker.WalkNames` | index.ts:13-28 | The emitted names are the listed names with the ignored ones filtered out, in listing order. |
| `Walker.WalkExcludesIgnored` | index.ts:15-25 | No entry at any depth has an ignored name. Every path extends the directory's path, and no segment below it is ignored, so nothing beneath an ignored directory appears. |
| `Walker.WalkKindMatchesChildren` | index.ts:23-25 | At any depth, `type` is `"dir"` exactly when the entry has `children`, and `"file"` exactly when it has none. |
| `Walker.WalkChildPaths` | index.ts:19-25 | At any depth, each child of a directory entry has the directory's path extended by the child's name. |
| `Walker.WalkEntriesResolve` | index.ts:19-25 | In a well-formed tree, every entry at any depth has a path of valid segments. That path resolves to a real node with the entry's name, and the node is a directory exactly when the entry is one. |
| `Routes.GetTree` | index.ts:37-43 | `/tree` answers with the root's base name and the walk of the root directory, with paths relative to the root. |
| `Routes.ServeFile` | index.ts:46-60 | An empty path gives 404 `Not found`, and so does a path that names nothing or names a directory. A path naming a file gives the requested path back unchanged, with exactly that file's stored text. |
| `Routes.TreeEntriesServe` | index.ts:37-59 | In a well-formed tree, requesting a file entry's path from `/file` returns that path and the stored text, and a directory entry's path gets 404 `Not found`. This holds for every entry that `/tree` lists, at any depth. |
| `Terminal.Canned` | index.ts:68-73 | The recognised commands are exactly `pwd`, `ls` and `whoami`. |
| `Terminal.Execute` | index.ts:67-76 | `pwd` answers the root path, `ls` answers the fixed four-line listing and `whoami` answers `user`. Any other command is quoted inside `Command '…' executed successfully`, and it can be read back out of that answer. |
| `Terminal.UnknownCommandsDistinct` | index.ts:74-75 | Two different unrecognised commands never get the same answer. |
| `Terminal.RootOnlyThroughPwd` | index.ts:67-76 | The root path affects only the answer to `pwd`. |

## Left out

- HTTP routing, the server start-up and its log line, `GET /health`, and JSON
  encoding of requests and replies (index.ts:1-2, 7, 32-34, 84-86). They are
  transport with no logic. Replies are modelled as datatypes.
- The real `readdirSync`, `statSync`, `existsSync` and `readFileSync` calls are
  replaced by the finite tree. UTF-8 decoding of file contents is not modelled:
  a file's text is stored as a string.
- `path.join` and `path.relative` normalisation. This covers `.` and `..`,
  repeated or leading separators and platform separators. Paths are sequences
  of segments, and rendering them as separator-joined strings is not modelled.
- Routes.ServeFile: requires every requested segment to be a valid base name
  (not empty, not `.` or `..`, no `/`). So the model does not capture what
  `path.join` makes of other segments, including a `..` that climbs out of the
  root.
- Symbolic links and cycles: the tree is finite and acyclic by construction.
  Every node that is not a directory is a `File`.
- Filesystem errors and races between listing and stat: the tree cannot fail.
  The handlers let such errors abort the request and skip nothing, so no
  skip-and-continue path is modelled.
- The contents of the ignore list: it comes from a module that is not part of
  this model, so it is a parameter.
- A malformed or missing JSON body on `/terminal/execute`: the handler does no
  validation, so `command` is modelled as a given string.
- `/file/:path` does not consult the ignore list. Files below ignored
  directories can still be read; the model keeps this, since `ServeFile` takes
  no ignore list.
- The model follows the code, not a hardened variant of it. Errors are not
  skipped during the walk, the `/file` path is not checked against escaping
  the root, and there is no bound on depth or size.
