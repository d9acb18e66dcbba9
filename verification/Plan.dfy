/** Dependency planning: the tree of references, its traversal, and the resulting layer order. */
module Plan {
  import opened Wrappers
  import opened Tags
  import opened Container
  import opened LibraryKeys

  type Origin = Bytes

  datatype RefreshRate = Hz50 | Hz60

  datatype Metadata = Metadata(refresh: Option<RefreshRate>, rest: Bytes)

  datatype DependencyLimits = DependencyLimits(maxDepth: nat, maxFiles: nat, maxAggregateBytes: nat)

  datatype ResolvedFile = ResolvedFile(origin: Origin, bytes: Bytes)

  datatype LoadError =
    | Parse(error: ParseError) | BadMetadata | Unresolved | VersionMismatch | Cycle(chain: seq<Origin>) | ResourceLimit

  datatype PlanLayer = PlanLayer(origin: Origin, container: PsfContainer)

  /**
   * The outside world: the answer to the `n`-th resolution, container parsing, and metadata parsing.
   * A resolver may answer the same reference differently each time.
   */
  datatype World = World(
    resolve: (nat, Origin, Bytes) -> Option<ResolvedFile>,
    parse: (Origin, Bytes) -> Result<PsfContainer, ParseError>,
    metadata: seq<Tag> -> Option<Metadata>)

  // ----- The tree of references a traversal discovers

  /** A file with what its references resolved to; the first child is the `_lib` one if there is such a tag. */
  datatype RefTree = RefTree(origin: Origin, container: PsfContainer, size: nat, hasPrimary: bool,
                             children: seq<RefTree>) {
    function Layer(): PlanLayer { PlanLayer(origin, container) }
  }

  /** PSF1 order: the `_lib` subtree, the file itself, then the numbered subtrees. */
  function Order1(t: RefTree): seq<PlanLayer>
    decreases t, 0
  {
    if t.hasPrimary && t.children != [] then Order1(t.children[0]) + [t.Layer()] + Orders1(t.children[1..])
    else [t.Layer()] + Orders1(t.children)
  }

  function Orders1(ts: seq<RefTree>): seq<PlanLayer>
    decreases ts, 1
  {
    if ts == [] then [] else Orders1(ts[..|ts| - 1]) + Order1(ts[|ts| - 1])
  }

  /** PSF2 order: all libraries, then the file itself. */
  function Order2(t: RefTree): seq<PlanLayer>
    decreases t, 0
  {
    Orders2(t.children) + [t.Layer()]
  }

  function Orders2(ts: seq<RefTree>): seq<PlanLayer>
    decreases ts, 1
  {
    if ts == [] then [] else Orders2(ts[..|ts| - 1]) + Order2(ts[|ts| - 1])
  }

  function Count(t: RefTree): nat
    decreases t, 0
  {
    1 + Counts(t.children)
  }

  function Counts(ts: seq<RefTree>): nat
    decreases ts, 1
  {
    if ts == [] then 0 else Counts(ts[..|ts| - 1]) + Count(ts[|ts| - 1])
  }

  /** Source bytes of a file and all files below it. */
  function Size(t: RefTree): nat
    decreases t, 0
  {
    t.size + Sizes(t.children)
  }

  function Sizes(ts: seq<RefTree>): nat
    decreases ts, 1
  {
    if ts == [] then 0 else Sizes(ts[..|ts| - 1]) + Size(ts[|ts| - 1])
  }

  /** The file whose executable supplies PC and SP: down the `_lib` chain. */
  function Initial(t: RefTree): Origin
  {
    if t.hasPrimary && t.children != [] then Initial(t.children[0]) else t.origin
  }

  function RefreshOf(t: RefTree, w: World): Option<RefreshRate>
  {
    var m := w.metadata(t.container.tags);
    if m.Some? then m.value.refresh else None
  }

  function Or(a: Option<RefreshRate>, b: Option<RefreshRate>): Option<RefreshRate> { if a.Some? then a else b }

  /** First refresh override in pre-order. */
  function FirstRefresh(t: RefTree, w: World): Option<RefreshRate>
    decreases t, 0
  {
    Or(RefreshOf(t, w), FirstRefreshes(t.children, w))
  }

  function FirstRefreshes(ts: seq<RefTree>, w: World): Option<RefreshRate>
    decreases ts, 1
  {
    if ts == [] then None else Or(FirstRefreshes(ts[..|ts| - 1], w), FirstRefresh(ts[|ts| - 1], w))
  }

  /** Files in the order in which a traversal meets them: each before the files it refers to, siblings in order. */
  function Met(t: RefTree): seq<RefTree>
    decreases t, 0
  {
    [t] + AllMet(t.children)
  }

  function AllMet(ts: seq<RefTree>): seq<RefTree>
    decreases ts, 1
  {
    if ts == [] then [] else AllMet(ts[..|ts| - 1]) + Met(ts[|ts| - 1])
  }

  /** `refresh` is what the first of the files to override says; none of them does if it is `None`. */
  ghost predicate FirstToOverride(refresh: Option<RefreshRate>, files: seq<RefTree>, w: World)
  {
    if refresh.None? then forall k :: 0 <= k < |files| ==> RefreshOf(files[k], w).None?
    else
      exists k :: && 0 <= k < |files| && RefreshOf(files[k], w) == refresh
                  && forall j :: 0 <= j < k ==> RefreshOf(files[j], w).None?
  }

  lemma OverrideJoins(a: Option<RefreshRate>, b: Option<RefreshRate>, xs: seq<RefTree>, ys: seq<RefTree>, w: World)
    requires FirstToOverride(a, xs, w) && FirstToOverride(b, ys, w)
    ensures FirstToOverride(if a.Some? then a else b, xs + ys, w)
  {
    var all := xs + ys;
    if a.Some? {
      var k :| && 0 <= k < |xs| && RefreshOf(xs[k], w) == a && forall j :: 0 <= j < k ==> RefreshOf(xs[j], w).None?;
      assert all[k] == xs[k] && forall j :: 0 <= j < k ==> all[j] == xs[j];
    } else if b.Some? {
      var k :| && 0 <= k < |ys| && RefreshOf(ys[k], w) == b && forall j :: 0 <= j < k ==> RefreshOf(ys[j], w).None?;
      assert all[|xs| + k] == ys[k];
      forall j | 0 <= j < |xs| + k
        ensures RefreshOf(all[j], w).None?
      {
        assert all[j] == if j < |xs| then xs[j] else ys[j - |xs|];
      }
    }
  }

  /** The plan's override is that of the first file met that has one. */
  lemma {:induction false} FirstRefreshIsFirst(t: RefTree, w: World)
    ensures FirstToOverride(FirstRefresh(t, w), Met(t), w)
    decreases t, 0
  {
    hide FirstToOverride, RefreshOf;
    FirstRefreshesAreFirst(t.children, w);
    OneFile(t, w);
    OverrideJoins(RefreshOf(t, w), FirstRefreshes(t.children, w), [t], AllMet(t.children), w);
  }

  lemma OneFile(t: RefTree, w: World)
    ensures FirstToOverride(RefreshOf(t, w), [t], w)
  {
    assert [t][0] == t;
  }

  lemma {:induction false} FirstRefreshesAreFirst(ts: seq<RefTree>, w: World)
    ensures FirstToOverride(FirstRefreshes(ts, w), AllMet(ts), w)
    decreases ts, 1
  {
    hide RefreshOf;
    if ts != [] {
      FirstRefreshesAreFirst(ts[..|ts| - 1], w);
      FirstRefreshIsFirst(ts[|ts| - 1], w);
      OverrideJoins(FirstRefreshes(ts[..|ts| - 1], w), FirstRefresh(ts[|ts| - 1], w), AllMet(ts[..|ts| - 1]),
                    Met(ts[|ts| - 1]), w);
    }
  }

  /** No origin repeats on a path from the root. */
  ghost predicate Acyclic(t: RefTree, above: seq<Origin>)
    decreases t
  {
    t.origin !in above && forall k :: 0 <= k < |t.children| ==> Acyclic(t.children[k], above + [t.origin])
  }

  ghost predicate NoDeeper(t: RefTree, depth: nat, maxDepth: nat)
    decreases t
  {
    depth <= maxDepth && forall k :: 0 <= k < |t.children| ==> NoDeeper(t.children[k], depth + 1, maxDepth)
  }

  /** Resolution number `n` answers this reference with this file. */
  ghost predicate ResolvesTo(w: World, n: nat, containing: Origin, reference: Bytes, child: RefTree)
  {
    && w.resolve(n, containing, reference).Some?
    && w.resolve(n, containing, reference).value.origin == child.origin
    && |w.resolve(n, containing, reference).value.bytes| == child.size
    && w.parse(child.origin, w.resolve(n, containing, reference).value.bytes) == Ok(child.container)
  }

  /**
   * Every reference of every file is followed, depth first and in order, to a file of the root's version with
   * sound metadata; `n` resolutions were made before the first one below `t`.
   */
  ghost predicate Faithful(t: RefTree, w: World, version: PsfVersion, n: nat)
    decreases t
  {
    && t.container.version == version && w.metadata(t.container.tags).Some?
    && (exists references :: |references| == |t.children|
                             && AreReferences(t.container.tags, t.hasPrimary, references)
                             && Follows(w, t.origin, references, t.children, n))
    && forall k :: 0 <= k < |t.children| ==> Faithful(t.children[k], w, version, Before(t.children, k, n) + 1)
  }

  /** Resolutions made before the `k`-th child is resolved. */
  function Before(children: seq<RefTree>, k: nat, n: nat): nat
    requires k <= |children|
  {
    n + Counts(children[..k])
  }

  ghost predicate Follows(w: World, origin: Origin, references: seq<Bytes>, children: seq<RefTree>, n: nat)
  {
    && |children| <= |references|
    && forall k :: 0 <= k < |children| ==> ResolvesTo(w, Before(children, k, n), origin, references[k], children[k])
  }

  // ----- The tree is determined

  lemma Present(tags: seq<Tag>, libraries: seq<Bytes>, k: nat)
    requires AreNumbered(tags, libraries) && k < |libraries|
    ensures Get(tags, Key(k + 2)) == Some(libraries[k])
  {
  }

  lemma NotLonger(tags: seq<Tag>, a: seq<Bytes>, b: seq<Bytes>)
    requires AreNumbered(tags, a) && AreNumbered(tags, b)
    ensures |b| <= |a|
  {
    hide AreNumbered, Get, Key;
    if |a| < |b| {
      Present(tags, b, |a|);
      Ended(tags, a);
    }
  }

  lemma Ended(tags: seq<Tag>, libraries: seq<Bytes>)
    requires AreNumbered(tags, libraries)
    ensures Get(tags, Key(|libraries| + 2)).None?
  {
  }

  /** What a file's tags refer to is determined, */
  lemma SameReferences(tags: seq<Tag>, hasPrimary: bool, a: seq<Bytes>, primary: bool, b: seq<Bytes>)
    requires AreReferences(tags, hasPrimary, a) && AreReferences(tags, primary, b)
    ensures hasPrimary == primary && a == b
  {
    hide AreNumbered, Get, Key;
    var x, y := if hasPrimary then a[1..] else a, if hasPrimary then b[1..] else b;
    NotLonger(tags, x, y);
    NotLonger(tags, y, x);
    forall k | 0 <= k < |x|
      ensures x[k] == y[k]
    {
      Present(tags, x, k);
      Present(tags, y, k);
    }
    assert x == y;
    if hasPrimary {
      assert a == [a[0]] + x && b == [b[0]] + y;
    }
  }

  /** and so is everything below it. */
  lemma {:induction false} SameTree(a: RefTree, b: RefTree, w: World, version: PsfVersion, n: nat)
    requires a.origin == b.origin && a.container == b.container && a.size == b.size
    requires Faithful(a, w, version, n) && Faithful(b, w, version, n)
    ensures a == b
    decreases a, 1, 0
  {
    hide AreReferences, Follows, Counts, ResolvesTo;
    var x :| |x| == |a.children| && AreReferences(a.container.tags, a.hasPrimary, x)
             && Follows(w, a.origin, x, a.children, n);
    var y :| |y| == |b.children| && AreReferences(b.container.tags, b.hasPrimary, y)
             && Follows(w, b.origin, y, b.children, n);
    SameReferences(a.container.tags, a.hasPrimary, x, b.hasPrimary, y);
    SameChildren(a, b, x, |x|, w, version, n);
    assert a.children[..|x|] == a.children && b.children[..|x|] == b.children;
  }

  lemma {:induction false} SameChildren(a: RefTree, b: RefTree, references: seq<Bytes>, k: nat, w: World,
                                        version: PsfVersion, n: nat)
    requires a.origin == b.origin && |a.children| == |b.children| == |references| && k <= |references|
    requires Follows(w, a.origin, references, a.children, n) && Follows(w, b.origin, references, b.children, n)
    requires Faithful(a, w, version, n) && Faithful(b, w, version, n)
    ensures a.children[..k] == b.children[..k]
    decreases a, 0, k
  {
    hide Follows, Faithful, ResolvesTo, Before;
    if k > 0 {
      SameChildren(a, b, references, k - 1, w, version, n);
      BeforeSame(a.children, b.children, k - 1, n);
      FollowsAt(w, a.origin, references, a.children, n, k - 1);
      FollowsAt(w, b.origin, references, b.children, n, k - 1);
      FaithfulAt(a, w, version, n, k - 1);
      FaithfulAt(b, w, version, n, k - 1);
      var before, c, d := Before(a.children, k - 1, n), a.children[k - 1], b.children[k - 1];
      SameAnswer(w, before, a.origin, references[k - 1], c, d);
      SameTree(c, d, w, version, before + 1);
      assert a.children[..k] == a.children[..k - 1] + [c] && b.children[..k] == b.children[..k - 1] + [d];
    }
  }

  lemma BeforeSame(a: seq<RefTree>, b: seq<RefTree>, k: nat, n: nat)
    requires k <= |a| && k <= |b| && a[..k] == b[..k]
    ensures Before(a, k, n) == Before(b, k, n)
  {
  }

  lemma FollowsAt(w: World, origin: Origin, references: seq<Bytes>, children: seq<RefTree>, n: nat, k: nat)
    requires Follows(w, origin, references, children, n) && k < |children|
    ensures k < |references| && ResolvesTo(w, Before(children, k, n), origin, references[k], children[k])
  {
  }

  lemma FaithfulAt(t: RefTree, w: World, version: PsfVersion, n: nat, k: nat)
    requires Faithful(t, w, version, n) && k < |t.children|
    ensures Faithful(t.children[k], w, version, Before(t.children, k, n) + 1)
  {
  }

  lemma SameAnswer(w: World, n: nat, origin: Origin, reference: Bytes, a: RefTree, b: RefTree)
    requires ResolvesTo(w, n, origin, reference, a) && ResolvesTo(w, n, origin, reference, b)
    ensures a.origin == b.origin && a.container == b.container && a.size == b.size
  {
  }

  // ----- Properties of the order

  /** Every visited file contributes exactly one layer. */
  lemma {:induction false} OneLayerEach(t: RefTree)
    ensures |Order1(t)| == Count(t) && |Order2(t)| == Count(t)
    decreases t, 0
  {
    LayersCounted(t.children);
    if t.hasPrimary && t.children != [] {
      OneLayerEach(t.children[0]);
      LayersCounted(t.children[1..]);
      FirstCounted(t.children);
    }
  }

  lemma {:induction false} LayersCounted(ts: seq<RefTree>)
    ensures |Orders1(ts)| == Counts(ts) && |Orders2(ts)| == Counts(ts)
    decreases ts, 1
  {
    if ts != [] {
      LayersCounted(ts[..|ts| - 1]);
      OneLayerEach(ts[|ts| - 1]);
    }
  }

  lemma {:induction false} FirstCounted(ts: seq<RefTree>)
    requires ts != []
    ensures Counts(ts) == Count(ts[0]) + Counts(ts[1..])
  {
    if |ts| > 1 {
      FirstCounted(ts[..|ts| - 1]);
      assert ts[..|ts| - 1][1..] == ts[1..][..|ts| - 2];
    }
  }

  /** The layers of earlier references come before those of later ones. */
  lemma {:induction false} SplitAt(ts: seq<RefTree>, k: nat)
    requires k < |ts|
    ensures Orders1(ts) == Orders1(ts[..k]) + Order1(ts[k]) + Orders1(ts[k + 1..])
    ensures Orders2(ts) == Orders2(ts[..k]) + Order2(ts[k]) + Orders2(ts[k + 1..])
    decreases |ts|
  {
    hide Order1, Order2, Orders1, Orders2;
    var init, last := ts[..|ts| - 1], ts[|ts| - 1];
    LastAdded(init, last);
    assert init + [last] == ts;
    if k < |ts| - 1 {
      SplitAt(init, k);
      var rest := init[k + 1..];
      LastAdded(rest, last);
      assert init[..k] == ts[..k] && init[k] == ts[k] && rest + [last] == ts[k + 1..];
    } else {
      LastAdded([], last);
      assert ts[k + 1..] == [] && ts[..k] == init;
    }
  }

  lemma LastAdded(ts: seq<RefTree>, t: RefTree)
    ensures Orders1(ts + [t]) == Orders1(ts) + Order1(t) && Orders2(ts + [t]) == Orders2(ts) + Order2(t)
    ensures Orders1([]) == [] && Orders2([]) == []
  {
    assert (ts + [t])[..|ts|] == ts;
  }

  /** The layers of lower-numbered references come before those of higher-numbered ones. */
  lemma ReferencesInOrder(ts: seq<RefTree>, j: nat, k: nat)
    requires j < k < |ts|
    ensures Orders1(ts)
            == Orders1(ts[..j]) + Order1(ts[j]) + Orders1(ts[j + 1..k]) + Order1(ts[k]) + Orders1(ts[k + 1..])
    ensures Orders2(ts)
            == Orders2(ts[..j]) + Order2(ts[j]) + Orders2(ts[j + 1..k]) + Order2(ts[k]) + Orders2(ts[k + 1..])
  {
    hide Order1, Order2, Orders1, Orders2;
    SplitAt(ts, k);
    SplitAt(ts[..k], j);
    assert ts[..k][..j] == ts[..j] && ts[..k][j + 1..] == ts[j + 1..k];
  }

  /** PSF1: the layers of `_lib`, the file's own, then those of the numbered references; PSF2: the file's own last. */
  lemma OwnLayer(t: RefTree)
    ensures t.hasPrimary && t.children != [] ==>
              Order1(t) == Order1(t.children[0]) + [PlanLayer(t.origin, t.container)] + Orders1(t.children[1..])
    ensures !t.hasPrimary ==> Order1(t) == [PlanLayer(t.origin, t.container)] + Orders1(t.children)
    ensures Order2(t) == Orders2(t.children) + [PlanLayer(t.origin, t.container)]
  {
  }

  /** The first PSF1 layer is the one whose executable supplies the initial state. */
  lemma {:induction false} InitialIsFirst(t: RefTree)
    ensures Order1(t) != [] && Order1(t)[0].origin == Initial(t)
  {
    if t.hasPrimary && t.children != [] {
      InitialIsFirst(t.children[0]);
    }
  }

  /** PSF2's last layer is the root. */
  lemma RootIsLast(t: RefTree)
    ensures Order2(t)[|Order2(t)| - 1] == t.Layer()
  {
  }

  /** Origins already on the path never occur below. */
  lemma {:induction false} AboveNotBelow(t: RefTree, above: seq<Origin>, x: Origin)
    requires Acyclic(t, above) && x in above
    ensures forall l :: l in Order1(t) ==> l.origin != x
    ensures forall l :: l in Order2(t) ==> l.origin != x
    decreases t, 0
  {
    forall k | 0 <= k < |t.children|
      ensures Acyclic(t.children[k], above + [t.origin])
    {
    }
    AllNotBelow(t.children, above + [t.origin], x);
    if t.hasPrimary && t.children != [] {
      AboveNotBelow(t.children[0], above + [t.origin], x);
      AllNotBelow(t.children[1..], above + [t.origin], x);
    }
  }

  lemma {:induction false} AllNotBelow(ts: seq<RefTree>, above: seq<Origin>, x: Origin)
    requires (forall k :: 0 <= k < |ts| ==> Acyclic(ts[k], above)) && x in above
    ensures forall l :: l in Orders1(ts) ==> l.origin != x
    ensures forall l :: l in Orders2(ts) ==> l.origin != x
    decreases ts, 1
  {
    if ts != [] {
      AllNotBelow(ts[..|ts| - 1], above, x);
      AboveNotBelow(ts[|ts| - 1], above, x);
    }
  }

  /** The root's origin occurs exactly once among the layers. */
  lemma RootOnce(t: RefTree)
    requires Acyclic(t, [])
    ensures forall j, k :: 0 <= j < k < |Order1(t)| ==>
              Order1(t)[j].origin != t.origin || Order1(t)[k].origin != t.origin
    ensures t.Layer() in Order1(t)
  {
    var above := [] + [t.origin];
    AllNotBelow(t.children, above, t.origin);
    if t.hasPrimary && t.children != [] {
      AboveNotBelow(t.children[0], above, t.origin);
      AllNotBelow(t.children[1..], above, t.origin);
      RootBetween(Order1(t.children[0]), t.Layer(), Orders1(t.children[1..]));
    } else {
      RootBetween([], t.Layer(), Orders1(t.children));
      assert [] + [t.Layer()] + Orders1(t.children) == Order1(t);
    }
  }

  lemma RootBetween(before: seq<PlanLayer>, root: PlanLayer, after: seq<PlanLayer>)
    requires forall l :: l in before || l in after ==> l.origin != root.origin
    ensures var all := before + [root] + after;
            && root in all
            && forall j, k :: 0 <= j < k < |all| ==> all[j].origin != root.origin || all[k].origin != root.origin
  {
  }
}
