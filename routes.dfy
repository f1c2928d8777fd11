/**
  The two read-only HTTP handlers over the filesystem: `GET /tree`, which walks
  the whole tree below the server root, and `GET /file/:path`, which returns one
  file's text. The filesystem is the root directory node `fsRoot`; its name
  stands for the base name of the root path.
 */
module Routes {
  import opened FileSystem
  import opened Walker

  /** The JSON body of `GET /tree`. */
  datatype TreeReply = TreeReply(root: string, tree: seq<Entry>)

  /** `GET /tree`: the root's base name and the walk of the root directory. */
  method GetTree(ignore: seq<string>, fsRoot: Node) returns (reply: TreeReply)
    requires fsRoot.Dir?
    ensures reply.root == fsRoot.name
    ensures reply.tree == Walk(ignore, [], fsRoot.children)
  {
    var tree := WalkDir(ignore, [], fsRoot);
    reply := TreeReply(fsRoot.name, tree);
  }

  /** A reply of `GET /file/:path`: plain text with a status, or the JSON
      object `{path, contents}` sent with status 200. */
  datatype FileReply =
    | TextReply(status: nat, body: string)
    | FileJson(path: seq<string>, contents: string)

  const NotFound := TextReply(404, "Not found")

  /** `GET /file/:path` for the requested path `relPath`, given as its
      segments below the root. An empty path, a path that names nothing and a
      path that names a directory all give 404 "Not found"; a path that names a
      file gives that path back, unchanged, with the file's stored text. */
  function ServeFile(fsRoot: Node, relPath: seq<string>): (r: FileReply)
    requires forall k :: 0 <= k < |relPath| ==> ValidName(relPath[k])
    ensures relPath == [] ==> r == NotFound
    ensures r.FileJson? <==> relPath != [] && Resolve(fsRoot, relPath).Some? && Resolve(fsRoot, relPath).value.File?
    ensures r.FileJson? ==> r.path == relPath && r.contents == Resolve(fsRoot, relPath).value.contents
    ensures r.TextReply? ==> r == NotFound
  {
    if relPath == [] then NotFound
    else
      match Resolve(fsRoot, relPath)
      case None => NotFound
      case Some(n) => if n.Dir? then NotFound else FileJson(relPath, n.contents)
  }

  /** The two handlers agree: in a well-formed tree, every entry `GET /tree`
      lists, at any depth, has a path of valid segments; requesting a file
      entry's path from `GET /file/:path` returns that path and the text stored
      at it, and requesting a directory entry's path returns 404 "Not found". */
  lemma TreeEntriesServe(ignore: seq<string>, fsRoot: Node)
    requires fsRoot.Dir? && WellFormed(fsRoot)
    ensures forall e :: e in Flatten(Walk(ignore, [], fsRoot.children)) ==>
      && (forall k :: 0 <= k < |e.path| ==> ValidName(e.path[k]))
      && Resolve(fsRoot, e.path).Some?
      && (e.FileEntry? <==> Resolve(fsRoot, e.path).value.File?)
      && (e.FileEntry? ==> ServeFile(fsRoot, e.path) == FileJson(e.path, Resolve(fsRoot, e.path).value.contents))
      && (e.DirEntry? ==> ServeFile(fsRoot, e.path) == NotFound)
  {
    WalkEntriesResolve(ignore, [], fsRoot, fsRoot.children);
    forall e | e in Flatten(Walk(ignore, [], fsRoot.children))
      ensures e.path[0..] == e.path
    {
    }
  }
}
