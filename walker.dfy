/**
  The tree walker behind `GET /tree`: lists a directory, drops ignored names,
  classifies each remaining child as "file" or "dir", records its path relative
  to the server root and recurses into directories.

  A directory's location below the root is given as `dirPath`, a sequence of
  path segments; the root itself is `[]`. The ignore list is a parameter and is
  checked by exact membership of a child's base name.
 */
module Walker {
  import opened FileSystem

  /** One object of the emitted tree. A file entry carries no `children` field
      at all; a directory entry carries one. `kind` is the object's `type`
      string, "file" or "dir". */
  datatype Entry =
    | FileEntry(name: string, kind: string, path: seq<string>)
    | DirEntry(name: string, kind: string, path: seq<string>, children: seq<Entry>)

  /** The object emitted for one non-ignored child `n` of the directory at `dirPath`. */
  function EntryFor(ignore: seq<string>, dirPath: seq<string>, n: Node): Entry
    decreases n
  {
    var path := dirPath + [n.name];
    match n
    case File(_, _) => FileEntry(n.name, "file", path)
    case Dir(_, children) => DirEntry(n.name, "dir", path, Walk(ignore, path, children))
  }

  /** The entries emitted for a directory listing, in listing order. */
  function Walk(ignore: seq<string>, dirPath: seq<string>, listing: seq<Node>): (r: seq<Entry>)
    decreases listing
    ensures |r| <= |listing|
    ensures forall i :: 0 <= i < |r| ==> r[i].name !in ignore && r[i].path == dirPath + [r[i].name]
  {
    if listing == [] then []
    else if listing[0].name in ignore then Walk(ignore, dirPath, listing[1..])
    else [EntryFor(ignore, dirPath, listing[0])] + Walk(ignore, dirPath, listing[1..])
  }

  /** Walking two listings one after the other gives the two walks one after the other. */
  lemma {:induction false} WalkAppend(ignore: seq<string>, dirPath: seq<string>, a: seq<Node>, b: seq<Node>)
    ensures Walk(ignore, dirPath, a + b) == Walk(ignore, dirPath, a) + Walk(ignore, dirPath, b)
    decreases a
  {
    if a == [] {
      assert a + b == b;
    } else {
      assert (a + b)[0] == a[0];
      assert (a + b)[1..] == a[1..] + b;
      WalkAppend(ignore, dirPath, a[1..], b);
    }
  }

  /** The walk, as the server runs it: a loop over the listing that skips
      ignored names and appends one entry per remaining child, recursing into
      directories. `dir` is the directory at `dirPath`. */
  method WalkDir(ignore: seq<string>, dirPath: seq<string>, dir: Node) returns (result: seq<Entry>)
    requires dir.Dir?
    ensures result == Walk(ignore, dirPath, dir.children)
    decreases dir
  {
    result := [];
    var listing := dir.children;
    for i := 0 to |listing|
      invariant result == Walk(ignore, dirPath, listing[..i])
    {
      var child := listing[i];
      assert listing[..i + 1] == listing[..i] + [child];
      WalkAppend(ignore, dirPath, listing[..i], [child]);
      if child.name in ignore {
        continue;
      }
      var full := dirPath + [child.name];
      var entry: Entry;
      if child.Dir? {
        var children := WalkDir(ignore, full, child);
        entry := DirEntry(child.name, "dir", full, children);
      } else {
        entry := FileEntry(child.name, "file", full);
      }
      result := result + [entry];
    }
    assert listing[..|listing|] == listing;
  }

  /** Every entry of a tree, at any depth, each directory before its contents. */
  function Flatten(es: seq<Entry>): (r: seq<Entry>)
    decreases es
    ensures |r| >= |es|
  {
    if es == [] then []
    else FlattenOne(es[0]) + Flatten(es[1..])
  }

  function FlattenOne(e: Entry): (r: seq<Entry>)
    decreases e
    ensures r != [] && r[0] == e
  {
    match e
    case FileEntry(_, _, _) => [e]
    case DirEntry(_, _, _, children) => [e] + Flatten(children)
  }

  /** The listing's children that are not ignored, in listing order. */
  function Kept(ignore: seq<string>, listing: seq<Node>): seq<Node>
  {
    if listing == [] then []
    else if listing[0].name in ignore then Kept(ignore, listing[1..])
    else [listing[0]] + Kept(ignore, listing[1..])
  }

  /** Kept children are exactly the listed children whose names are not ignored. */
  lemma {:induction false} KeptMembers(ignore: seq<string>, listing: seq<Node>)
    ensures forall n :: n in Kept(ignore, listing) <==> n in listing && n.name !in ignore
  {
    if listing != [] {
      KeptMembers(ignore, listing[1..]);
      assert listing == [listing[0]] + listing[1..];
    }
  }

  /** The walk emits one entry per kept child, in the same order: same name,
      path one segment below `dirPath`, "dir" with the walk of its children for
      a directory, "file" with no children for anything else. */
  lemma {:induction false} WalkMirrorsKept(ignore: seq<string>, dirPath: seq<string>, listing: seq<Node>)
    ensures var r, k := Walk(ignore, dirPath, listing), Kept(ignore, listing);
      && |r| == |k|
      && forall i :: 0 <= i < |r| ==>
        && r[i].name == k[i].name
        && r[i].path == dirPath + [k[i].name]
        && (r[i].kind == "dir" <==> k[i].Dir?)
        && (r[i].kind == "file" <==> k[i].File?)
        && (k[i].Dir? ==> r[i] == DirEntry(k[i].name, "dir", r[i].path, Walk(ignore, r[i].path, k[i].children)))
        && (k[i].File? ==> r[i] == FileEntry(k[i].name, "file", r[i].path))
  {
    if listing != [] {
      WalkMirrorsKept(ignore, dirPath, listing[1..]);
    }
  }

  function ChildNames(listing: seq<Node>): (r: seq<string>)
    ensures |r| == |listing| && forall i :: 0 <= i < |r| ==> r[i] == listing[i].name
  {
    if listing == [] then [] else [listing[0].name] + ChildNames(listing[1..])
  }

  function EntryNames(es: seq<Entry>): (r: seq<string>)
    ensures |r| == |es| && forall i :: 0 <= i < |r| ==> r[i] == es[i].name
  {
    if es == [] then [] else [es[0].name] + EntryNames(es[1..])
  }

  /** The names of a sequence with the ignored ones removed, order kept. */
  function Unignored(ignore: seq<string>, names: seq<string>): (r: seq<string>)
    ensures |r| <= |names|
    ensures forall x :: x in r <==> x in names && x !in ignore
  {
    if names == [] then []
    else if names[0] in ignore then Unignored(ignore, names[1..])
    else [names[0]] + Unignored(ignore, names[1..])
  }

  /** The names the walk emits are the listed names with the ignored ones
      filtered out, in listing order. */
  lemma {:induction false} WalkNames(ignore: seq<string>, dirPath: seq<string>, listing: seq<Node>)
    ensures EntryNames(Walk(ignore, dirPath, listing)) == Unignored(ignore, ChildNames(listing))
  {
    if listing != [] {
      WalkNames(ignore, dirPath, listing[1..]);
      assert ChildNames(listing)[1..] == ChildNames(listing[1..]);
      var r := Walk(ignore, dirPath, listing);
      if listing[0].name !in ignore {
        assert r[1..] == Walk(ignore, dirPath, listing[1..]);
        assert EntryNames(r) == [r[0].name] + EntryNames(r[1..]);
      }
    }
  }

  /** No entry at any depth has an ignored name, and no entry lies beneath an
      ignored directory: no segment of an emitted path below `dirPath` is ignored. */
  lemma {:induction false} WalkExcludesIgnored(ignore: seq<string>, dirPath: seq<string>, listing: seq<Node>)
    ensures forall e :: e in Flatten(Walk(ignore, dirPath, listing)) ==>
      && e.name !in ignore
      && |dirPath| < |e.path|
      && e.path[..|dirPath|] == dirPath
      && forall k :: |dirPath| <= k < |e.path| ==> e.path[k] !in ignore
    decreases listing
  {
    if listing != [] {
      WalkExcludesIgnored(ignore, dirPath, listing[1..]);
      var n := listing[0];
      if n.name !in ignore {
        var path := dirPath + [n.name];
        var top := EntryFor(ignore, dirPath, n);
        assert Flatten(Walk(ignore, dirPath, listing)) == FlattenOne(top) + Flatten(Walk(ignore, dirPath, listing[1..]));
        if n.Dir? {
          WalkExcludesIgnored(ignore, path, n.children);
          forall e | e in Flatten(Walk(ignore, path, n.children))
            ensures e.path[..|dirPath|] == dirPath
            ensures forall k :: |dirPath| <= k < |e.path| ==> e.path[k] !in ignore
          {
            assert e.path[..|path|] == path;
            assert e.path[..|dirPath|] == path[..|dirPath|];
            forall k | |dirPath| <= k < |e.path| ensures e.path[k] !in ignore {
              if k == |dirPath| { assert e.path[k] == path[k]; }
            }
          }
        }
      }
    }
  }

  /** At any depth, an entry's `type` is "dir" exactly when it has a
      `children` field, and "file" exactly when it has none. */
  lemma {:induction false} WalkKindMatchesChildren(ignore: seq<string>, dirPath: seq<string>, listing: seq<Node>)
    ensures forall e :: e in Flatten(Walk(ignore, dirPath, listing)) ==>
      && (e.kind == "dir" <==> e.DirEntry?)
      && (e.kind == "file" <==> e.FileEntry?)
    decreases listing
  {
    if listing != [] {
      WalkKindMatchesChildren(ignore, dirPath, listing[1..]);
      var n := listing[0];
      if n.name !in ignore {
        var top := EntryFor(ignore, dirPath, n);
        assert Flatten(Walk(ignore, dirPath, listing)) == FlattenOne(top) + Flatten(Walk(ignore, dirPath, listing[1..]));
        if n.Dir? {
          WalkKindMatchesChildren(ignore, dirPath + [n.name], n.children);
        }
      }
    }
  }

  /** At any depth, a directory entry's children sit one segment below it:
      each child's path is the directory's path extended by the child's name. */
  lemma {:induction false} WalkChildPaths(ignore: seq<string>, dirPath: seq<string>, listing: seq<Node>)
    ensures forall e :: e in Flatten(Walk(ignore, dirPath, listing)) && e.DirEntry? ==>
      forall c :: c in e.children ==> c.path == e.path + [c.name]
    decreases listing
  {
    if listing != [] {
      WalkChildPaths(ignore, dirPath, listing[1..]);
      var n := listing[0];
      if n.name !in ignore {
        var top := EntryFor(ignore, dirPath, n);
        assert Flatten(Walk(ignore, dirPath, listing)) == FlattenOne(top) + Flatten(Walk(ignore, dirPath, listing[1..]));
        if n.Dir? {
          WalkChildPaths(ignore, dirPath + [n.name], n.children);
        }
      }
    }
  }

  /** Entry `e`, emitted by walking directory `d` located at `dirPath`, names
      a real node: its path below `dirPath` consists of valid base names and
      resolves from `d` to a node with the entry's name, which is a directory
      exactly when the entry is one. */
  ghost predicate NamesNodeBelow(d: Node, dirPath: seq<string>, e: Entry) {
    && |dirPath| < |e.path|
    && e.path[..|dirPath|] == dirPath
    && (forall k :: |dirPath| <= k < |e.path| ==> ValidName(e.path[k]))
    && Resolve(d, e.path[|dirPath|..]).Some?
    && Resolve(d, e.path[|dirPath|..]).value.name == e.name
    && (e.DirEntry? <==> Resolve(d, e.path[|dirPath|..]).value.Dir?)
  }

  /** What an entry names below child directory `n` it also names below `n`'s parent `d`. */
  lemma LiftToParent(d: Node, dirPath: seq<string>, n: Node, e: Entry)
    requires d.Dir? && UniqueNames(d.children)
    requires n in d.children && ValidName(n.name)
    requires NamesNodeBelow(n, dirPath + [n.name], e)
    ensures NamesNodeBelow(d, dirPath, e)
  {
    var path := dirPath + [n.name];
    var i :| 0 <= i < |d.children| && d.children[i] == n;
    FindChildUnique(d.children, i);
    assert e.path[..|path|] == path;
    assert e.path[..|dirPath|] == path[..|dirPath|];
    forall k | |dirPath| <= k < |e.path| ensures ValidName(e.path[k]) {
      if k == |dirPath| { assert e.path[k] == path[k]; }
    }
    var rest := e.path[|path|..];
    assert e.path == path + rest by {
      assert e.path == e.path[..|path|] + rest;
    }
    assert e.path[|dirPath|..] == [n.name] + rest by {
      assert path + rest == dirPath + ([n.name] + rest);
    }
    ResolveAppend(d, [n.name], rest);
    assert Resolve(d, [n.name]) == Some(n) by {
      assert [n.name][1..] == [];
    }
  }

  /** Inside a well-formed tree, every entry the walk of directory `d` emits,
      at any depth, names a real node below `d`. `listing` is any sequence of
      `d`'s children (the lemma is used with `d.children`). */
  lemma {:induction false} WalkEntriesResolve(ignore: seq<string>, dirPath: seq<string>, d: Node, listing: seq<Node>)
    requires d.Dir? && WellFormed(d)
    requires forall i :: 0 <= i < |listing| ==> listing[i] in d.children
    ensures forall e :: e in Flatten(Walk(ignore, dirPath, listing)) ==> NamesNodeBelow(d, dirPath, e)
    decreases d, |listing|
  {
    if listing != [] {
      WalkEntriesResolve(ignore, dirPath, d, listing[1..]);
      var n := listing[0];
      if n.name !in ignore {
        var path := dirPath + [n.name];
        var top := EntryFor(ignore, dirPath, n);
        assert Flatten(Walk(ignore, dirPath, listing)) == FlattenOne(top) + Flatten(Walk(ignore, dirPath, listing[1..]));
        var i :| 0 <= i < |d.children| && d.children[i] == n;
        assert ValidName(n.name) && WellFormed(n);
        FindChildUnique(d.children, i);
        assert Resolve(d, [n.name]) == Some(n) by {
          assert [n.name][1..] == [];
        }
        assert top.path[|dirPath|..] == [n.name];
        assert NamesNodeBelow(d, dirPath, top);
        if n.Dir? {
          WalkEntriesResolve(ignore, path, n, n.children);
          forall e | e in Flatten(Walk(ignore, path, n.children)) ensures NamesNodeBelow(d, dirPath, e) {
            LiftToParent(d, dirPath, n, e);
          }
        }
      }
    }
  }
}
