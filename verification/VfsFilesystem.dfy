/** The assembled PSF2 filesystem and its lookups. */
module VfsFilesystem {
  import opened Machine
  import opened Wrappers
  import opened VfsTree
  import opened Vfs
  import opened VfsBuilder

  datatype PlanLayer = PlanLayer(isPsf2: bool, reserved: seq<u8>)

  /** What all layers together consume. */
  function TotalUsage(lists: seq<seq<Entry>>): Usage
  {
    if lists == [] then NO_USAGE else TotalUsage(lists[..|lists| - 1]).Plus(UsageOf(lists[|lists| - 1]))
  }

  const EMPTY_ROOT := Tree(map[], {[]})

  function LayerTree(list: seq<Entry>): Tree
  {
    InsertEntries(EMPTY_ROOT, [], list)
  }

  function LayerTrees(lists: seq<seq<Entry>>): (r: seq<Tree>)
    ensures |r| == |lists|
    ensures forall k :: 0 <= k < |r| ==> r[k] == LayerTree(lists[k])
  {
    seq(|lists|, k requires 0 <= k < |lists| => LayerTree(lists[k]))
  }

  /** The layers decode to these entry lists, within bounds that cover all layers together. */
  ghost predicate Decoded(layers: seq<PlanLayer>, lists: seq<seq<Entry>>, limits: VfsLimits, inflate: Inflate)
  {
    && |lists| == |layers|
    && (forall k :: 0 <= k < |layers| ==> layers[k].isPsf2 && DirectoryAt(layers[k].reserved, 0, lists[k], inflate))
    && (forall k, j :: 0 <= k < |lists| && 0 <= j < |lists[k]| ==> Bounded(limits, lists[k][j], [], 0))
    && TotalUsage(lists).Within(limits)
  }

  /** Every path holds what the last layer to decide it says. */
  ghost predicate Assembled(t: Tree, lists: seq<seq<Entry>>)
  {
    t.Ok() && forall p :: t.At(p) == LayeredAt(LayerTrees(lists), p)
  }

  /** Builds the filesystem of a resolved load plan; there is one exactly if all layers decode within the limits. */
  method FromLoadPlan(layers: seq<PlanLayer>, limits: VfsLimits, inflate: Inflate)
    returns (r: Result<Tree, VfsError>, ghost lists: seq<seq<Entry>>)
    ensures r.Ok? ==> Decoded(layers, lists, limits, inflate) && Assembled(r.value, lists)
    ensures r.Ok? <==> exists all :: Decoded(layers, all, limits, inflate)
  {
    hide Loaded, Decoded, Assembled, DirectoryAt, UsageOf, TotalUsage, Builder.Expected;
    var builder := new Builder(limits, inflate);
    lists := [];
    ghost var all: seq<seq<Entry>>, hoped := [], false;
    if x :| Decoded(layers, x, limits, inflate) {
      all, hoped := x, true;
      DecodedLength(layers, x, limits, inflate);
    }
    NoLayers(limits, inflate);
    assert layers[..0] == [];
    for k := 0 to |layers|
      invariant builder.limits == limits && builder.inflate == inflate && fresh(builder) && fresh(builder.tree)
      invariant builder.WithinLimits() && |lists| == k
      invariant Loaded(builder.tree.View(), builder.Spent(), layers[..k], lists, limits, inflate)
      invariant hoped ==> lists == all[..k]
    {
      if hoped {
        NextLayer(layers, all, builder, k);
      }
      if !layers[k].isPsf2 {
        return Err(WrongVersion), lists;
      }
      var loaded, list := LoadLayer(builder, layers[k], layers[..k], lists, if hoped then Some(all[k]) else None);
      if loaded.Err? {
        return Err(loaded.error), lists;
      }
      if hoped {
        SameDirectory(layers[k].reserved, 0, list, all[k], inflate);
      }
      assert layers[..k + 1] == layers[..k] + [layers[k]];
      lists := lists + [list];
    }
    assert layers[..|layers|] == layers;
    LoadedAll(builder.tree.View(), builder.Spent(), layers, lists, limits, inflate);
    return Ok(Tree(builder.tree.files, builder.tree.directories)), lists;
  }

  /** The layers so far decode to `lists`, and `t` is their overlay; one fact, so compared with `true`. */
  ghost predicate Loaded(t: Tree, spent: Usage, layers: seq<PlanLayer>, lists: seq<seq<Entry>>, limits: VfsLimits,
                         inflate: Inflate)
  {
    (Decoded(layers, lists, limits, inflate) && Assembled(t, lists) && spent == TotalUsage(lists)) == true
  }

  lemma LoadedAll(t: Tree, spent: Usage, layers: seq<PlanLayer>, lists: seq<seq<Entry>>, limits: VfsLimits,
                  inflate: Inflate)
    requires Loaded(t, spent, layers, lists, limits, inflate)
    ensures Decoded(layers, lists, limits, inflate) && Assembled(t, lists)
  {
    hide Decoded, Assembled;
  }

  lemma DecodedLength(layers: seq<PlanLayer>, lists: seq<seq<Entry>>, limits: VfsLimits, inflate: Inflate)
    requires Decoded(layers, lists, limits, inflate)
    ensures |lists| == |layers|
  {
  }

  /** The layers decode in one way only, so they fix the filesystem. */
  lemma OneFilesystem(layers: seq<PlanLayer>, a: seq<seq<Entry>>, b: seq<seq<Entry>>, limits: VfsLimits,
                      inflate: Inflate, t: Tree, u: Tree)
    requires Decoded(layers, a, limits, inflate) && Assembled(t, a)
    requires Decoded(layers, b, limits, inflate) && Assembled(u, b)
    ensures a == b && t == u
  {
    hide Tree.Ok, DirectoryAt, Bounded, TotalUsage, LayeredAt;
    forall k | 0 <= k < |layers|
      ensures a[k] == b[k]
    {
      SameDirectory(layers[k].reserved, 0, a[k], b[k], inflate);
    }
    assert a == b;
    SameNodes(t, u);
  }

  /** Parses one layer and applies it. */
  method LoadLayer(builder: Builder, layer: PlanLayer, ghost below: seq<PlanLayer>, ghost lists: seq<seq<Entry>>,
                   ghost hope: Option<seq<Entry>>)
    returns (r: Result<(), VfsError>, ghost list: seq<Entry>)
    requires builder.WithinLimits() && layer.isPsf2
    requires Loaded(builder.tree.View(), builder.Spent(), below, lists, builder.limits, builder.inflate)
    modifies builder, builder.tree
    ensures r.Ok? ==> builder.WithinLimits() && DirectoryAt(layer.reserved, 0, list, builder.inflate)
    ensures r.Ok? ==>
              Loaded(builder.tree.View(), builder.Spent(), below + [layer], lists + [list], builder.limits,
                     builder.inflate)
    ensures hope.Some? && old(builder.Expected(hope.value, layer.reserved, 0, [], 0)) ==> r.Ok?
  {
    hide Tree.Ok, Decoded, DirectoryAt, Bounded, UsageOf, TotalUsage, InsertEntries, Builder.Expected;
    RootOk();
    var parsed := new Layer();
    assert Rooted(parsed.View(), []) == EMPTY_ROOT;
    r, list := builder.ParseDirectory(layer.reserved, 0, [], 0, parsed, hope);
    if r.Err? {
      return;
    }
    EntriesStayBelow(EMPTY_ROOT, [], list);
    builder.Apply(parsed);
    forall p
      ensures builder.tree.View().At(p) == LayeredAt(LayerTrees(lists + [list]), p)
    {
      LayerOnTop(lists, list, p);
    }
    AddLayer(below, lists, layer, list, builder.limits, builder.inflate);
  }

  lemma NoLayers(limits: VfsLimits, inflate: Inflate)
    ensures Loaded(EMPTY_ROOT, NO_USAGE, [], [], limits, inflate)
  {
  }

  /** What a complete decoding says of the next layer. */
  lemma NextLayer(layers: seq<PlanLayer>, lists: seq<seq<Entry>>, builder: Builder, k: nat)
    requires Decoded(layers, lists, builder.limits, builder.inflate) && k < |layers| == |lists|
    requires Loaded(builder.tree.View(), builder.Spent(), layers[..k], lists[..k], builder.limits, builder.inflate)
    ensures layers[k].isPsf2 && DirectoryAt(layers[k].reserved, 0, lists[k], builder.inflate)
    ensures builder.Expected(lists[k], layers[k].reserved, 0, [], 0)
    ensures lists[..k + 1] == lists[..k] + [lists[k]]
  {
    hide DirectoryAt, Bounded, UsageOf;
    LayersUsage(lists, k + 1);
    assert lists[..k + 1][..k] == lists[..k];
  }

  lemma {:induction false} LayersUsage(lists: seq<seq<Entry>>, k: nat)
    requires k <= |lists|
    ensures var (part, whole) := (TotalUsage(lists[..k]), TotalUsage(lists));
            part.entries <= whole.entries && part.blocks <= whole.blocks && part.bytes <= whole.bytes
  {
    if k < |lists| {
      LayersUsage(lists[..|lists| - 1], k);
      assert lists[..|lists| - 1][..k] == lists[..k];
    } else {
      assert lists[..k] == lists;
    }
  }

  lemma RootOk()
    ensures EMPTY_ROOT.Ok()
  {
  }

  lemma LayerOnTop(lists: seq<seq<Entry>>, list: seq<Entry>, p: Path)
    ensures LayeredAt(LayerTrees(lists + [list]), p) == OverlayAt(LayeredAt(LayerTrees(lists), p), LayerTree(list), p)
  {
    var trees := LayerTrees(lists + [list]);
    assert trees[..|lists|] == LayerTrees(lists);
  }

  lemma AddLayer(layers: seq<PlanLayer>, lists: seq<seq<Entry>>, layer: PlanLayer, list: seq<Entry>, limits: VfsLimits,
                 inflate: Inflate)
    requires Decoded(layers, lists, limits, inflate) && layer.isPsf2 && DirectoryAt(layer.reserved, 0, list, inflate)
    requires forall j :: 0 <= j < |list| ==> Bounded(limits, list[j], [], 0)
    requires TotalUsage(lists).Plus(UsageOf(list)).Within(limits)
    ensures Decoded(layers + [layer], lists + [list], limits, inflate)
    ensures TotalUsage(lists + [list]) == TotalUsage(lists).Plus(UsageOf(list))
  {
    hide DirectoryAt, Bounded, UsageOf;
    assert (lists + [list])[..|lists|] == lists;
  }

  // ----- Lookup by string

  predicate Separator(b: u8) { b == 0x2f || b == 0x5c }

  function FirstSeparator(s: seq<u8>): (n: nat)
    ensures n <= |s| && (n < |s| ==> Separator(s[n]))
  {
    if s == [] || Separator(s[0]) then 0 else 1 + FirstSeparator(s[1..])
  }

  /** The nonempty pieces between separators. */
  function Components(s: seq<u8>): Path
  {
    if s == [] then []
    else
      var n := FirstSeparator(s);
      (if n == 0 then [] else [s[..n]]) + if n == |s| then [] else Components(s[n + 1..])
  }

  /** A path string without separators is its own component, */
  lemma {:induction false} OneComponent(c: seq<u8>)
    requires forall k :: 0 <= k < |c| ==> c[k] != '/' as int && c[k] != '\\' as int
    ensures Components(c) == if c == [] then [] else [c]
  {
    if c != [] {
      NoneFound(c, []);
      assert c + [] == c && c[..|c|] == c;
    }
  }

  lemma {:induction false} NoneFound(c: seq<u8>, rest: seq<u8>)
    requires (forall k :: 0 <= k < |c| ==> !Separator(c[k])) && (rest == [] || Separator(rest[0]))
    ensures FirstSeparator(c + rest) == |c|
  {
    if c == [] {
      assert c + rest == rest;
    } else {
      assert (c + rest)[1..] == c[1..] + rest;
      NoneFound(c[1..], rest);
    }
  }

  /** and a separator of either kind, wherever it stands and however often, only ever splits. */
  lemma {:induction false} SeparatorSplits(a: seq<u8>, separator: u8, b: seq<u8>)
    requires separator == '/' as int || separator == '\\' as int
    ensures Components(a + [separator] + b) == Components(a) + Components(b)
    decreases |a|
  {
    hide Components;
    var n := FirstSeparator(a);
    FoundBefore(a, n);
    if n == |a| {
      OneComponent(a);
      FirstSplits(a, separator, b);
    } else {
      var x, y := a[..n], a[n + 1..];
      assert a == x + [a[n]] + y;
      FirstSplits(x, a[n], y);
      SeparatorSplits(y, separator, b);
      assert a + [separator] + b == x + [a[n]] + (y + [separator] + b);
      FirstSplits(x, a[n], y + [separator] + b);
    }
  }

  lemma FirstSplits(x: seq<u8>, separator: u8, y: seq<u8>)
    requires (forall k :: 0 <= k < |x| ==> !Separator(x[k])) && Separator(separator)
    ensures Components(x + [separator] + y) == (if x == [] then [] else [x]) + Components(y)
  {
    var s := x + [separator] + y;
    NoneFound(x, [separator] + y);
    assert s == x + ([separator] + y) && s[..|x|] == x && s[|x| + 1..] == y;
  }

  lemma {:induction false} FoundBefore(s: seq<u8>, n: nat)
    requires n == FirstSeparator(s)
    ensures forall k :: 0 <= k < n ==> !Separator(s[k])
  {
    if s != [] && !Separator(s[0]) {
      FoundBefore(s[1..], n - 1);
      assert forall k :: 1 <= k < n ==> s[k] == s[1..][k - 1];
    }
  }

  /** A lookup does not tell upper from lower case. */
  lemma CaseIgnored(s: seq<u8>)
    ensures Normalize(LowerAll(s)) == Normalize(s)
  {
    hide Components;
    LowerComponents(s);
    var c, l := Components(s), Components(LowerAll(s));
    assert forall k :: 0 <= k < |s| ==> (s[k] >= 0x80 <==> LowerAll(s)[k] >= 0x80);
    forall k | 0 <= k < |c|
      ensures LookupComponent(l[k]) <==> LookupComponent(c[k])
      ensures LowerAll(l[k]) == LowerAll(c[k])
    {
      LowerComponent(c[k]);
    }
    assert LowerPath(l) == LowerPath(c);
  }

  lemma LowerComponent(c: Name)
    ensures LookupComponent(LowerAll(c)) <==> LookupComponent(c)
    ensures LowerAll(LowerAll(c)) == LowerAll(c)
  {
    assert Relative(LowerAll(c)) <==> Relative(c) by {
      if Relative(LowerAll(c)) {
        LowerKeepsDots(c);
      }
      if Relative(c) {
        assert LowerAll(c) == c;
      }
    }
    assert forall k :: 0 <= k < |c| ==>
      (32 <= c[k] <= 126 && c[k] != 0x3a <==> 32 <= LowerAll(c)[k] <= 126 && LowerAll(c)[k] != 0x3a);
  }

  lemma {:induction false} LowerComponents(s: seq<u8>)
    ensures Components(LowerAll(s)) == LowerPath(Components(s))
  {
    if s != [] {
      SameSeparator(s);
      var n := FirstSeparator(s);
      assert LowerAll(s)[..n] == LowerAll(s[..n]);
      if n < |s| {
        assert LowerAll(s)[n + 1..] == LowerAll(s[n + 1..]);
        LowerComponents(s[n + 1..]);
      }
    }
  }

  lemma {:induction false} SameSeparator(s: seq<u8>)
    ensures FirstSeparator(LowerAll(s)) == FirstSeparator(s)
  {
    if s != [] {
      assert LowerAll(s)[1..] == LowerAll(s[1..]);
      SameSeparator(s[1..]);
    }
  }

  predicate Relative(c: Name) { c == [0x2e] || c == [0x2e, 0x2e] }

  predicate LookupComponent(c: Name)
  {
    !Relative(c) && |c| <= NAME_BYTES && forall k :: 0 <= k < |c| ==> 32 <= c[k] <= 126 && c[k] != 0x3a
  }

  function LowerPath(path: Path): (r: Path)
    ensures |r| == |path| && forall k :: 0 <= k < |r| ==> r[k] == LowerAll(path[k])
  {
    seq(|path|, k requires 0 <= k < |path| => LowerAll(path[k]))
  }

  function Normalize(path: seq<u8>): (r: Result<Path, VfsError>)
    ensures r.Err? ==> r.error == InvalidPath
  {
    if |path| > SPEC_MAX_PATH_BYTES || exists k :: 0 <= k < |path| && path[k] >= 0x80 then Err(InvalidPath)
    else if exists k :: 0 <= k < |Components(path)| && !LookupComponent(Components(path)[k]) then Err(InvalidPath)
    else Ok(LowerPath(Components(path)))
  }

  function NodeKind(t: Tree, path: seq<u8>): Result<Option<Node>, VfsError>
  {
    match Normalize(path)
    case Err(e) => Err(e)
    case Ok(p) => Ok(t.At(p))
  }

  function FileData(t: Tree, path: seq<u8>): (r: Result<Data, VfsError>)
    ensures r.Ok? <==> Normalize(path).Ok? && Normalize(path).value in t.files
  {
    match Normalize(path)
    case Err(e) => Err(e)
    case Ok(p) =>
      match t.At(p)
      case Some(File(data)) => Ok(data)
      case Some(Directory) => Err(IsDirectory)
      case None => Err(NotFound)
  }

  /** What one read of `capacity` bytes copies from `offset` on. */
  function Piece(data: Data, offset: nat, capacity: nat): Data
  {
    if offset > |data| then [] else data[offset..offset + Min(|data| - offset, capacity)]
  }

  /** One read: exactly the part of the file's contents that lies in the window, so nothing beyond its end. */
  function ReadAt(t: Tree, path: seq<u8>, offset: nat, capacity: nat): (r: Result<Data, VfsError>)
    ensures r.Ok? <==> Normalize(path).Ok? && Normalize(path).value in t.files
    ensures r.Ok? ==>
              var data := t.files[Normalize(path).value];
              |r.value| <= capacity && forall k :: 0 <= k < capacity ==>
                (k < |r.value| <==> offset + k < |data|) && (k < |r.value| ==> r.value[k] == data[offset + k])
  {
    match FileData(t, path)
    case Err(e) => Err(e)
    case Ok(data) => Ok(Piece(data, offset, capacity))
  }

  /** Bytes that reads of the given capacities copy, each going on where the one before stopped. */
  function ReadOn(data: Data, offset: nat, capacities: seq<nat>): Data
    decreases |capacities|
  {
    if capacities == [] then []
    else
      var piece := Piece(data, offset, capacities[0]);
      piece + ReadOn(data, offset + |piece|, capacities[1..])
  }

  function Total(capacities: seq<nat>): nat
  {
    if capacities == [] then 0 else capacities[0] + Total(capacities[1..])
  }

  /** However a file is read in consecutive pieces, the reads yield its contents in order, up to its end. */
  lemma {:induction false} ReadInPieces(data: Data, offset: nat, capacities: seq<nat>)
    requires offset <= |data|
    ensures ReadOn(data, offset, capacities) == data[offset..Min(offset + Total(capacities), |data|)]
    decreases |capacities|
  {
    hide Piece;
    if capacities != [] {
      var first, rest := capacities[0], Total(capacities[1..]);
      var middle := Min(offset + first, |data|);
      OnePiece(data, offset, first, rest);
      ReadInPieces(data, middle, capacities[1..]);
      assert ReadOn(data, offset, capacities) == Piece(data, offset, first) + ReadOn(data, middle, capacities[1..]);
    }
  }

  lemma OnePiece(data: Data, offset: nat, first: nat, rest: nat)
    requires offset <= |data|
    ensures var middle := Min(offset + first, |data|);
            && |Piece(data, offset, first)| == middle - offset
            && Piece(data, offset, first) + data[middle..Min(middle + rest, |data|)]
                 == data[offset..Min(offset + (first + rest), |data|)]
  {
  }

  /** A name as the parser produces it. */
  predicate ParsedName(c: Name)
  {
    c != [] && |c| <= NAME_BYTES && forall k :: 0 <= k < |c| ==> NameByte(c[k]) && Lower(c[k]) == c[k]
  }

  lemma {:induction false} NoSeparatorIn(c: Name, rest: seq<u8>)
    requires forall k :: 0 <= k < |c| ==> !Separator(c[k])
    requires rest == [] || Separator(rest[0])
    ensures FirstSeparator(c + rest) == |c|
  {
    if c == [] {
      assert c + rest == rest;
    } else {
      NoSeparatorIn(c[1..], rest);
      assert (c + rest)[1..] == c[1..] + rest;
    }
  }

  lemma {:induction false} ComponentsJoined(p: Path)
    requires forall k :: 0 <= k < |p| ==> ParsedName(p[k])
    ensures Components(Joined(p)) == p
  {
    if |p| == 1 {
      NoSeparatorIn(p[0], []);
      assert p[0] + [] == p[0];
      assert p == [p[0]];
    } else if |p| > 1 {
      var rest := [SLASH] + Joined(p[1..]);
      NoSeparatorIn(p[0], rest);
      assert Joined(p) == p[0] + rest && (p[0] + rest)[|p[0]| + 1..] == Joined(p[1..]);
      ComponentsJoined(p[1..]);
      assert p == [p[0]] + p[1..];
    }
  }

  lemma {:induction false} JoinedBytes(p: Path)
    requires forall k :: 0 <= k < |p| ==> ParsedName(p[k])
    ensures forall k :: 0 <= k < |Joined(p)| ==> Joined(p)[k] < 0x80
  {
    if |p| > 1 {
      JoinedBytes(p[1..]);
    }
  }

  /** No lookup, whatever the string, leads to a path with a component `.` or `..`, */
  lemma NoRelativeLookup(s: seq<u8>, k: nat)
    requires Normalize(s).Ok? && k < |Normalize(s).value|
    ensures !Relative(Normalize(s).value[k])
  {
    var c := Components(s)[k];
    assert LookupComponent(c) && Normalize(s).value[k] == LowerAll(c);
    if Relative(LowerAll(c)) {
      LowerKeepsDots(c);
    }
  }

  lemma LowerKeepsDots(c: Name)
    requires Relative(LowerAll(c))
    ensures Relative(c)
  {
    assert LowerAll(c)[0] == 0x2e == c[0];
    if |c| == 2 {
      assert LowerAll(c)[1] == 0x2e == c[1];
    }
  }

  /** though the parser accepts such a component. */
  lemma DotIsParsed()
    ensures ParseName([0x2e] + seq(35, _ => 0)) == Ok([0x2e]) && Relative([0x2e])
  {
    PaddedName([0x2e], 35);
    assert LowerAll([0x2e]) == [0x2e];
  }

  /**
   * A parsed path can be looked up by its stored string exactly if none of its components is `.` or
   * `..`: the parser accepts such names, but lookup rejects them.
   */
  lemma StoredPathsResolve(p: Path)
    requires forall k :: 0 <= k < |p| ==> ParsedName(p[k])
    requires |Joined(p)| <= SPEC_MAX_PATH_BYTES
    ensures Normalize(Joined(p)).Ok? <==> forall k :: 0 <= k < |p| ==> !Relative(p[k])
    ensures Normalize(Joined(p)).Ok? ==> Normalize(Joined(p)) == Ok(p)
    ensures forall t :: Normalize(Joined(p)).Ok? ==> NodeKind(t, Joined(p)) == Ok(t.At(p))
  {
    ComponentsJoined(p);
    JoinedBytes(p);
    assert LowerPath(p) == p by {
      forall k | 0 <= k < |p|
        ensures LowerPath(p)[k] == p[k]
      {
        assert LowerAll(p[k]) == p[k];
      }
    }
  }
}
