/** The PSF2 filesystem as a tree of paths: subtrees, overlays and lookup. */
module VfsTree {
  import opened Machine
  import opened Wrappers

  const SLASH: u8 := 0x2f

  type Name = seq<u8>

  /** Components from the root down; the root itself is the empty path. */
  type Path = seq<Name>

  predicate ValidName(name: Name) { name != [] && SLASH !in name }

  predicate ValidPath(path: Path) { forall k :: 0 <= k < |path| ==> ValidName(path[k]) }

  // ----- Paths as strings

  /** The string under which a path is stored. */
  function Joined(path: Path): seq<u8>
  {
    if path == [] then [] else if |path| == 1 then path[0] else path[0] + [SLASH] + Joined(path[1..])
  }

  /** Length of the first component of a path string. */
  function FirstSlash(s: seq<u8>): (n: nat)
    ensures n <= |s| && SLASH !in s[..n]
    ensures n < |s| ==> s[n] == SLASH
  {
    if s == [] || s[0] == SLASH then 0 else
      assert s[..1 + FirstSlash(s[1..])] == [s[0]] + s[1..][..FirstSlash(s[1..])];
      1 + FirstSlash(s[1..])
  }

  lemma {:induction false} FirstSlashIs(name: Name, rest: seq<u8>)
    requires SLASH !in name && (rest == [] || rest[0] == SLASH)
    ensures FirstSlash(name + rest) == |name|
  {
    if name == [] {
      assert name + rest == rest;
    } else {
      FirstSlashIs(name[1..], rest);
      assert (name + rest)[1..] == name[1..] + rest;
    }
  }

  lemma JoinedStart(path: Path)
    requires ValidPath(path) && path != []
    ensures Joined(path) != [] && FirstSlash(Joined(path)) == |path[0]|
    ensures Joined(path)[..|path[0]|] == path[0]
    ensures |path| > 1 ==> |Joined(path)| > |path[0]| && Joined(path)[|path[0]| + 1..] == Joined(path[1..])
    ensures |path| == 1 ==> |Joined(path)| == |path[0]|
  {
    if |path| == 1 {
      FirstSlashIs(path[0], []);
      assert path[0] + [] == path[0];
    } else {
      FirstSlashIs(path[0], [SLASH] + Joined(path[1..]));
      assert path[0] + ([SLASH] + Joined(path[1..])) == Joined(path);
    }
  }

  /** Different paths are stored under different strings. */
  lemma {:induction false} JoinedInjective(p: Path, q: Path)
    requires ValidPath(p) && ValidPath(q) && Joined(p) == Joined(q)
    ensures p == q
  {
    if p != [] {
      JoinedStart(p);
    }
    if q != [] {
      JoinedStart(q);
    }
    if p != [] && q != [] {
      if |p| > 1 {
        JoinedInjective(p[1..], q[1..]);
      }
      assert p == [p[0]] + p[1..] && q == [q[0]] + q[1..];
    }
  }

  predicate IsPrefix(a: seq<u8>, b: seq<u8>) { |a| <= |b| && b[..|a|] == a }

  /** The string test for a subtree, a path followed by a slash, is exactly the proper-prefix test on components. */
  lemma {:induction false} SubtreeIsPrefix(p: Path, q: Path)
    requires ValidPath(p) && ValidPath(q) && p != []
    ensures IsPrefix(Joined(p) + [SLASH], Joined(q)) <==> p < q
  {
    JoinedStart(p);
    if q != [] {
      JoinedStart(q);
      var s, t := Joined(p) + [SLASH], Joined(q);
      if p[0] == q[0] && |p| > 1 && |q| > 1 {
        SubtreeIsPrefix(p[1..], q[1..]);
        PrefixTail(s, t, |p[0]| + 1);
        assert s[|p[0]| + 1..] == Joined(p[1..]) + [SLASH];
        assert s[..|p[0]| + 1] == p[0] + [SLASH] == t[..|p[0]| + 1];
        TailPrefix(p, q);
      } else {
        FirstComponents(p, q);
      }
    }
  }

  lemma PrefixTail(s: seq<u8>, t: seq<u8>, n: nat)
    requires n <= |s| && n <= |t| && s[..n] == t[..n]
    ensures IsPrefix(s, t) <==> IsPrefix(s[n..], t[n..])
  {
  }

  lemma TailPrefix(p: Path, q: Path)
    requires p != [] && q != [] && p[0] == q[0]
    ensures p < q <==> p[1..] < q[1..]
  {
  }

  /** The cases the first components decide. */
  lemma FirstComponents(p: Path, q: Path)
    requires ValidPath(p) && ValidPath(q) && p != [] && q != [] && (p[0] != q[0] || |p| == 1 || |q| == 1)
    ensures IsPrefix(Joined(p) + [SLASH], Joined(q)) <==> p < q
  {
    JoinedStart(p);
    JoinedStart(q);
    var s, t, n := Joined(p) + [SLASH], Joined(q), |p[0]|;
    assert s[n] == SLASH && s[..n] == p[0];
    if IsPrefix(s, t) {
      assert t[n] == s[n] && t[..n] == s[..n];
      FirstSlashIs(p[0], t[n..]);
      assert t == p[0] + t[n..];
    }
    if |p| == 1 && p < q {
      assert t[..n + 1] == s;
    }
  }

  // ----- Trees

  type Data = seq<u8>

  datatype Node = File(data: Data) | Directory

  datatype Tree = Tree(files: map<Path, Data>, directories: set<Path>) {
    /** Files and directories are disjoint, the root is a directory, and so is every path's parent. */
    ghost predicate Ok()
    {
      && [] in directories
      && (forall p :: p in files ==> p !in directories && p != [] && p[..|p| - 1] in directories)
      && (forall p :: p in directories && p != [] ==> p[..|p| - 1] in directories)
    }

    function At(path: Path): Option<Node>
    {
      if path in files then Some(File(files[path])) else if path in directories then Some(Directory) else None
    }
  }

  /** In a tree every proper ancestor of a node is a directory, so no file lies above another node. */
  lemma {:induction false} AncestorsAreDirectories(t: Tree, p: Path, q: Path)
    requires t.Ok() && q < p && (p in t.files || p in t.directories)
    ensures q in t.directories && q !in t.files
    decreases |p|
  {
    var parent := p[..|p| - 1];
    assert parent in t.directories;
    if |q| == |parent| {
      assert q == parent;
    } else {
      assert q < parent;
      AncestorsAreDirectories(t, parent, q);
    }
  }

  /** Trees with the same nodes are the same. */
  lemma SameNodes(a: Tree, b: Tree)
    requires a.Ok() && b.Ok() && forall p :: a.At(p) == b.At(p)
    ensures a == b
  {
    forall p
      ensures p in a.files <==> p in b.files
      ensures p in a.directories <==> p in b.directories
      ensures p in a.files ==> a.files[p] == b.files[p]
    {
      assert a.At(p) == b.At(p);
    }
  }

  predicate Under(p: Path, top: Path) { top < p }

  predicate AtOrUnder(p: Path, top: Path) { top <= p }

  /** `remove_subtree`: the path itself and everything below it. */
  function RemoveSubtree(t: Tree, path: Path): Tree
  {
    Tree(map p | p in t.files && !AtOrUnder(p, path) :: t.files[p], set p | p in t.directories && !AtOrUnder(p, path))
  }

  function InsertFile(t: Tree, path: Path, data: Data): Tree
  {
    var cleared := RemoveSubtree(t, path);
    cleared.(files := cleared.files[path := data])
  }

  function InsertDirectory(t: Tree, path: Path): Tree
  {
    Tree(t.files - {path}, t.directories + {path})
  }

  lemma InsertFileOk(t: Tree, path: Path, data: Data)
    requires t.Ok() && path != [] && path[..|path| - 1] in t.directories
    ensures InsertFile(t, path, data).Ok()
    ensures forall p :: InsertFile(t, path, data).At(p) ==
                        if p == path then Some(File(data)) else if AtOrUnder(p, path) then None else t.At(p)
  {
    var r := InsertFile(t, path, data);
    forall p | p in r.files || p in r.directories
      ensures p != [] ==> p[..|p| - 1] in r.directories
    {
      if p != [] {
        var parent := p[..|p| - 1];
        assert parent in t.directories;
        assert path <= parent ==> path <= p;
      }
    }
  }

  lemma InsertDirectoryOk(t: Tree, path: Path)
    requires t.Ok() && path != [] && path[..|path| - 1] in t.directories
    ensures InsertDirectory(t, path).Ok()
    ensures forall p :: InsertDirectory(t, path).At(p) == if p == path then Some(Directory) else t.At(p)
  {
  }

  // ----- Overlay

  /** Some file of `t` lies at a proper ancestor of `p`. */
  ghost predicate Covered(t: Tree, p: Path) { exists f :: f in t.files && f < p }

  /** Looking `p` up in `layer` over `base`. */
  ghost function OverlayAt(base: Option<Node>, layer: Tree, p: Path): Option<Node>
  {
    if layer.At(p).Some? then layer.At(p) else if Covered(layer, p) then None else base
  }

  /** What the layers, applied in order to an empty filesystem, leave at `p`. */
  ghost function LayeredAt(layers: seq<Tree>, p: Path): Option<Node>
  {
    if layers == [] then if p == [] then Some(Directory) else None
    else OverlayAt(LayeredAt(layers[..|layers| - 1], p), layers[|layers| - 1], p)
  }

  /** The last layer that says anything about `p`, by a node there or a file above it, decides. */
  lemma {:induction false} LastLayerWins(layers: seq<Tree>, i: nat, p: Path)
    requires i < |layers|
    requires forall j :: i < j < |layers| ==> layers[j].At(p).None? && !Covered(layers[j], p)
    ensures layers[i].At(p).Some? ==> LayeredAt(layers, p) == layers[i].At(p)
    ensures layers[i].At(p).None? && Covered(layers[i], p) ==> LayeredAt(layers, p).None?
  {
    var last := |layers| - 1;
    if i < last {
      LastLayerWins(layers[..last], i, p);
    }
  }

  /** A path that no layer mentions does not exist. */
  lemma {:induction false} UnmentionedAbsent(layers: seq<Tree>, p: Path)
    requires p != [] && forall j :: 0 <= j < |layers| ==> layers[j].At(p).None?
    ensures LayeredAt(layers, p).None?
  {
    if layers != [] {
      UnmentionedAbsent(layers[..|layers| - 1], p);
    }
  }

  /** Layers cannot be merged beforehand: a directory over a file over a directory loses its first contents. */
  lemma OverlayNotAssociative(x: Name, y: Name, data: Data)
    requires ValidName(x) && ValidName(y)
    ensures var below := Tree(map[[x, y] := data], {[], [x]});
            var middle, above := Tree(map[[x] := data], {[]}), Tree(map[], {[], [x]});
            && below.Ok() && middle.Ok() && above.Ok()
            && (forall p :: LayeredAt([middle, above], p) == LayeredAt([above], p))
            && LayeredAt([below, middle, above], [x, y]).None?
            && LayeredAt([below, above], [x, y]) == Some(File(data))
  {
    var below := Tree(map[[x, y] := data], {[], [x]});
    var middle, above := Tree(map[[x] := data], {[]}), Tree(map[], {[], [x]});
    assert [x, y][..1] == [x] && [x][..0] == [];
    assert [x] in middle.files && [x] < [x, y];
    assert Covered(middle, [x, y]);
    LastLayerWins([below, middle, above], 1, [x, y]);
    LastLayerWins([below, above], 0, [x, y]);
    forall p
      ensures LayeredAt([middle, above], p) == LayeredAt([above], p)
    {
      assert [middle, above][..1] == [middle] && [middle][..0] == [] && [above][..0] == [];
    }
  }
}
