/** The recursive planner and its running state. */
module PlanLoader {
  import opened Wrappers
  import opened Tags
  import opened Container
  import opened LibraryKeys
  import opened Plan

  datatype LoadPlan =
    | Psf1Plan(
        rootOrigin: Origin, layers: seq<PlanLayer>, initialStateOrigin: Origin, refresh: Option<RefreshRate>,
        metadata: Metadata)
    | Psf2Plan(rootOrigin: Origin, layers: seq<PlanLayer>, refresh: Option<RefreshRate>, metadata: Metadata)

  /** Resolutions made, files and source bytes accounted for. */
  datatype Spent = Spent(calls: nat, files: nat, bytes: nat) {
    function Plus(resolved: nat, size: nat): Spent { Spent(calls + resolved, files + resolved, bytes + size) }
  }

  class LoadState {
    const world: World
    const limits: DependencyLimits
    const version: PsfVersion
    var resolutions: nat
    var fileCount: nat
    var aggregateBytes: nat
    var active: seq<Origin>
    var refreshOverride: Option<RefreshRate>

    constructor (world: World, limits: DependencyLimits, version: PsfVersion)
      ensures this.world == world && this.limits == limits && this.version == version
      ensures resolutions == 0 && fileCount == 0 && aggregateBytes == 0 && active == [] && refreshOverride == None
              && WithinLimits()
    {
      this.world, this.limits, this.version := world, limits, version;
      resolutions, fileCount, aggregateBytes, active, refreshOverride := 0, 0, 0, [], None;
    }

    predicate WithinLimits()
      reads this
    {
      fileCount <= limits.maxFiles && aggregateBytes <= limits.maxAggregateBytes
    }

    /** The limits leave room for so many more files and source bytes. */
    predicate Room(files: nat, bytes: nat)
      reads this
    {
      fileCount + files <= limits.maxFiles && aggregateBytes + bytes <= limits.maxAggregateBytes
    }

    function View(): Spent
      reads this
    {
      Spent(resolutions, fileCount, aggregateBytes)
    }

    method Account(bytes: nat) returns (r: Result<(), LoadError>)
      requires WithinLimits()
      modifies this`fileCount, this`aggregateBytes
      ensures r.Ok? ==>
                WithinLimits() && View() == old(View()).(files := old(fileCount) + 1, bytes :=
                                                           old(aggregateBytes) + bytes)
      ensures r.Ok? <==> old(Room(1, bytes))
      ensures r.Err? ==> r.error == ResourceLimit
    {
      fileCount := fileCount + 1;
      if fileCount > limits.maxFiles {
        return Err(ResourceLimit);
      }
      aggregateBytes := aggregateBytes + bytes;
      return if aggregateBytes > limits.maxAggregateBytes then Err(ResourceLimit) else Ok(());
    }

    /** Keeps the first refresh override met. */
    method ObserveMetadata(container: PsfContainer) returns (r: Result<(), LoadError>)
      modifies this`refreshOverride
      ensures r.Ok? <==> world.metadata(container.tags).Some?
      ensures r.Ok? ==> refreshOverride == Or(old(refreshOverride), world.metadata(container.tags).value.refresh)
      ensures old(refreshOverride).Some? ==> refreshOverride == old(refreshOverride)
      ensures r.Ok? && old(refreshOverride).None? ==>
                refreshOverride == world.metadata(container.tags).value.refresh
      ensures r.Err? ==> r.error == BadMetadata
    {
      var parsed := world.metadata(container.tags);
      if parsed.None? {
        return Err(BadMetadata);
      }
      if refreshOverride.None? {
        refreshOverride := parsed.value.refresh;
      }
      return Ok(());
    }

    /** Resolves, accounts for, and parses a dependency that is not already being loaded. */
    method Resolve(containing: Origin, reference: Bytes, depth: nat)
      returns (r: Result<(Origin, PsfContainer), LoadError>, ghost size: nat)
      requires WithinLimits()
      modifies this`resolutions, this`fileCount, this`aggregateBytes
      ensures r.Ok? ==>
                WithinLimits() && depth <= limits.maxDepth && r.value.0 !in active && r.value.1.version == version
      ensures r.Ok? ==> ResolvesTo(world, old(resolutions), containing, reference, Found(r.value, size))
      ensures r.Ok? ==> View() == old(View()).Plus(1, size)
      ensures forall c: RefTree :: (&& ResolvesTo(world, old(resolutions), containing, reference, c)
                                    && old(Room(1, c.size))
                                    && depth <= limits.maxDepth && c.origin !in active
                                    && c.container.version == version) ==> r.Ok?
      ensures r.Err? && r.error.Cycle? ==>
                r.error.chain != [] && exists k :: 0 <= k < |active| && r.error.chain == active[k..] + [active[k]]
    {
      size := 0;
      if depth > limits.maxDepth {
        return Err(ResourceLimit), size;
      }
      var file := world.resolve(resolutions, containing, reference);
      resolutions := resolutions + 1;
      if file.None? {
        return Err(Unresolved), size;
      }
      size := |file.value.bytes|;
      var accounted := Account(|file.value.bytes|);
      if accounted.Err? {
        return Err(accounted.error), size;
      }
      var origin := file.value.origin;
      if origin in active {
        var position := IndexOf(active, origin);
        return Err(Cycle(active[position..] + [origin])), size;
      }
      var container := world.parse(origin, file.value.bytes);
      if container.Err? {
        return Err(Parse(container.error)), size;
      }
      if container.value.version != version {
        return Err(VersionMismatch), size;
      }
      return Ok((origin, container.value)), size;
    }

    /** All references of a file in traversal order. */
    method References(container: PsfContainer) returns (hasPrimary: bool, references: seq<Bytes>)
      ensures AreReferences(container.tags, hasPrimary, references)
    {
      var primary := Get(container.tags, LIB);
      var numbered := NumberedLibraries(container.tags);
      hasPrimary := primary.Some?;
      references := if primary.Some? then [primary.value] + numbered else numbered;
      assert hasPrimary ==> references[1..] == numbered;
    }

    // ----- PSF1

    /** Layers of a file and its libraries: the `_lib` subtree, the file, the numbered subtrees. */
    method Psf1Node(origin: Origin, container: PsfContainer, depth: nat, ghost above: seq<Origin>, ghost size: nat,
                    ghost hope: Option<RefTree>)
      returns (r: Result<(seq<PlanLayer>, Origin), LoadError>, ghost t: RefTree)
      requires WithinLimits() && active == above + [origin] && origin !in above
      requires depth <= limits.maxDepth && container.version == version
      modifies this
      ensures active == old(active)
      ensures r.Ok? ==> t.origin == origin && t.container == container && t.size == size
      ensures r.Ok? ==> Planned(t, world, version, above, depth, limits.maxDepth, old(resolutions))
      ensures r.Ok? ==> r.value == (Order1(t), Initial(t))
      ensures r.Ok? ==> WithinLimits() && View() == old(View()).Plus(Counts(t.children), Sizes(t.children))
      ensures r.Ok? ==> refreshOverride == Or(old(refreshOverride), FirstRefresh(t, world))
      ensures hope.Some? && old(Expected(hope.value, origin, container, above, depth)) ==> r.Ok?
      decreases limits.maxDepth + 1 - depth, 0, 1
    {
      hide AreReferences, Planned, Order1, Orders1, FirstRefresh, FirstRefreshes, Count, Counts, Size, Sizes, Follows,
           AllPlanned, ResolvesTo;
      hide Get, Acyclic, Before, NoDeeper, Faithful, Or;
      t := RefTree(origin, container, size, false, []);
      var observed := ObserveMetadata(container);
      var hasPrimary, references := References(container);
      ghost var hoped := hope.Some? && Expected(hope.value, origin, container, above, depth);
      if hoped {
        NodeReferences(hope.value, world, version, above, depth, limits.maxDepth, resolutions, hasPrimary, references);
      }
      if observed.Err? {
        return Err(observed.error), t;
      }
      var layers: seq<PlanLayer>, initial := [], origin;
      ghost var primary: seq<RefTree> := [];
      NoChildren(world);
      if hasPrimary {
        HasFirst(container, references);
        if hoped {
          NodeSplit(hope.value, world, version, above, depth, limits.maxDepth, resolutions, references);
        }
        var result, child := Psf1Dependency(origin, references[0], depth + 1, active,
                                            if hoped then Some(hope.value.children[0]) else None);
        if result.Err? {
          return result, t;
        }
        if hoped {
          SameChild(child, hope.value.children[0], origin, references[0], world, version, active, depth + 1,
                    limits.maxDepth, old(resolutions));
        }
        layers, initial := result.value.0, result.value.1;
        primary := [child];
      }
      layers := layers + [PlanLayer(origin, container)];
      var additional, others := Psf1Additional(origin, references[if hasPrimary then 1 else 0..], depth,
                                               if hoped then Some(hope.value.children[|primary|..]) else None);
      if additional.Err? {
        return Err(additional.error), t;
      }
      t := RefTree(origin, container, size, hasPrimary, primary + others);
      OrChain(old(refreshOverride), RefreshOf(t, world), if hasPrimary then FirstRefresh(primary[0], world) else None,
              FirstRefreshes(others, world));
      if hasPrimary {
        WithPrimary(t, primary[0], others, references, world, version, above, depth, limits.maxDepth, old(resolutions));
      } else {
        assert t.children == others && references[0..] == references && layers == [t.Layer()];
        PlannedNode(t, world, version, above, depth, limits.maxDepth, references, old(resolutions));
        NodeOrder(t, world);
      }
      return Ok((layers + additional.value, initial)), t;
    }

    /** The numbered libraries of a file, in order. */
    method Psf1Additional(origin: Origin, references: seq<Bytes>, depth: nat, ghost hope: Option<seq<RefTree>>)
      returns (r: Result<seq<PlanLayer>, LoadError>, ghost others: seq<RefTree>)
      requires WithinLimits() && depth <= limits.maxDepth
      modifies this
      ensures active == old(active)
      ensures r.Ok? ==> |others| == |references| && Follows(world, origin, references, others, old(resolutions))
      ensures r.Ok? ==> AllPlanned(others, world, version, active, depth + 1, limits.maxDepth, old(resolutions))
      ensures r.Ok? ==> r.value == Orders1(others)
      ensures r.Ok? ==> WithinLimits() && View() == old(View()).Plus(Counts(others), Sizes(others))
      ensures r.Ok? ==> refreshOverride == Or(old(refreshOverride), FirstRefreshes(others, world))
      ensures hope.Some? && old(Promised(hope.value, origin, references, depth)) ==> r.Ok?
      decreases limits.maxDepth + 1 - depth, 0, 0
    {
      hide Planned, Order1, Orders1, FirstRefresh, FirstRefreshes, Count, Counts, Size, Sizes, Follows, AllPlanned;
      hide AreReferences, ResolvesTo, Get, Acyclic, Before, RefTree.Layer;
      others := [];
      var layers: seq<PlanLayer> := [];
      ghost var n := resolutions;
      ghost var hoped := hope.Some? && Promised(hope.value, origin, references, depth);
      NoChildren(world);
      NothingFollowed(world, origin, references, version, active, depth + 1, limits.maxDepth, n);
      for k := 0 to |references|
        invariant WithinLimits() && active == old(active) && |others| == k
        invariant layers == Orders1(others) && View() == old(View()).Plus(Counts(others), Sizes(others))
        invariant refreshOverride == Or(old(refreshOverride), FirstRefreshes(others, world))
        invariant Follows(world, origin, references, others, n)
        invariant AllPlanned(others, world, version, active, depth + 1, limits.maxDepth, n)
        invariant hoped ==> others == hope.value[..k]
      {
        if hoped {
          NextChild(hope.value, origin, references, world, version, active, depth + 1, limits.maxDepth, n, k);
        }
        var result, child := Psf1Dependency(origin, references[k], depth + 1, active,
                                            if hoped then Some(hope.value[k]) else None);
        if result.Err? {
          return Err(result.error), others;
        }
        if hoped {
          SameChild(child, hope.value[k], origin, references[k], world, version, active, depth + 1, limits.maxDepth,
                    n + Counts(others));
        }
        layers := layers + result.value.0;
        ChildAdded(others, child, world);
        ChildFollows(others, child, origin, references, world, version, active, depth + 1, limits.maxDepth, n);
        others := others + [child];
      }
      return Ok(layers), others;
    }

    /** This subtree would be found, and the limits leave room for it. */
    ghost predicate Expected(t: RefTree, origin: Origin, container: PsfContainer, above: seq<Origin>, depth: nat)
      reads this
    {
      && t.origin == origin && t.container == container
      && Planned(t, world, version, above, depth, limits.maxDepth, resolutions)
      && Room(Counts(t.children), Sizes(t.children))
    }

    /** These children would answer all references, and the limits leave room for them. */
    ghost predicate Promised(children: seq<RefTree>, origin: Origin, references: seq<Bytes>, depth: nat)
      reads this
    {
      && |children| == |references| && Follows(world, origin, references, children, resolutions)
      && AllPlanned(children, world, version, active, depth + 1, limits.maxDepth, resolutions)
      && Room(Counts(children), Sizes(children))
    }

    method Psf1Dependency(containing: Origin, reference: Bytes, depth: nat, ghost above: seq<Origin>,
                          ghost hope: Option<RefTree>)
      returns (r: Result<(seq<PlanLayer>, Origin), LoadError>, ghost t: RefTree)
      requires WithinLimits() && active == above && 0 < depth <= limits.maxDepth + 1
      modifies this
      ensures active == old(active)
      ensures r.Ok? ==> ResolvesTo(world, old(resolutions), containing, reference, t)
      ensures r.Ok? ==> Planned(t, world, version, above, depth, limits.maxDepth, old(resolutions) + 1)
      ensures r.Ok? ==> r.value == (Order1(t), Initial(t))
      ensures r.Ok? ==> WithinLimits() && View() == old(View()).Plus(Count(t), Size(t))
      ensures r.Ok? ==> refreshOverride == Or(old(refreshOverride), FirstRefresh(t, world))
      ensures (&& hope.Some? && ResolvesTo(world, old(resolutions), containing, reference, hope.value)
               && Planned(hope.value, world, version, above, depth, limits.maxDepth, old(resolutions) + 1)
               && old(Room(Count(hope.value), Size(hope.value)))) ==> r.Ok?
      decreases limits.maxDepth + 1 - depth, 1, 0
    {
      hide Planned, Order1, FirstRefresh, Counts, Sizes;
      t := RefTree([], PsfContainer(version, [], [], [], []), 0, false, []);
      if hope.Some? && Planned(hope.value, world, version, above, depth, limits.maxDepth, resolutions + 1) {
        PlannedFacts(hope.value, world, version, above, depth, limits.maxDepth, resolutions + 1);
      }
      var resolved, size := Resolve(containing, reference, depth);
      if resolved.Err? {
        return Err(resolved.error), t;
      }
      var (origin, container) := resolved.value;
      active := active + [origin];
      r, t := Psf1Node(origin, container, depth, above, size, hope);
      active := active[..|active| - 1];
    }

    // ----- PSF2

    /** Layers of a file and its libraries: all libraries in order, then the file. */
    method Psf2Node(origin: Origin, container: PsfContainer, depth: nat, ghost above: seq<Origin>, ghost size: nat,
                    ghost hope: Option<RefTree>)
      returns (r: Result<seq<PlanLayer>, LoadError>, ghost t: RefTree)
      requires WithinLimits() && active == above + [origin] && origin !in above
      requires depth <= limits.maxDepth && container.version == version
      modifies this
      ensures active == old(active)
      ensures r.Ok? ==> t.origin == origin && t.container == container && t.size == size
      ensures r.Ok? ==> Planned(t, world, version, above, depth, limits.maxDepth, old(resolutions))
      ensures r.Ok? ==> r.value == Order2(t)
      ensures r.Ok? ==> WithinLimits() && View() == old(View()).Plus(Counts(t.children), Sizes(t.children))
      ensures r.Ok? ==> refreshOverride == Or(old(refreshOverride), FirstRefresh(t, world))
      ensures hope.Some? && old(Expected(hope.value, origin, container, above, depth)) ==> r.Ok?
      decreases limits.maxDepth + 1 - depth, 0, 1
    {
      hide AreReferences, Planned, Order2, Orders2, FirstRefresh, FirstRefreshes, Count, Counts, Size, Sizes, Follows,
           AllPlanned;
      t := RefTree(origin, container, size, false, []);
      var observed := ObserveMetadata(container);
      var hasPrimary, references := References(container);
      ghost var hoped := hope.Some? && Expected(hope.value, origin, container, above, depth);
      if hoped {
        NodeReferences(hope.value, world, version, above, depth, limits.maxDepth, resolutions, hasPrimary, references);
      }
      if observed.Err? {
        return Err(observed.error), t;
      }
      var libraries, children :=
        Psf2Libraries(origin, references, depth, if hoped then Some(hope.value.children) else None);
      if libraries.Err? {
        return libraries, t;
      }
      t := RefTree(origin, container, size, hasPrimary, children);
      PlannedNode(t, world, version, above, depth, limits.maxDepth, references, old(resolutions));
      NodeOrder(t, world);
      return Ok(libraries.value + [PlanLayer(origin, container)]), t;
    }

    /** All libraries of a file, in order. */
    method Psf2Libraries(origin: Origin, references: seq<Bytes>, depth: nat, ghost hope: Option<seq<RefTree>>)
      returns (r: Result<seq<PlanLayer>, LoadError>, ghost children: seq<RefTree>)
      requires WithinLimits() && depth <= limits.maxDepth
      modifies this
      ensures active == old(active)
      ensures r.Ok? ==> |children| == |references| && Follows(world, origin, references, children, old(resolutions))
      ensures r.Ok? ==> AllPlanned(children, world, version, active, depth + 1, limits.maxDepth, old(resolutions))
      ensures r.Ok? ==> r.value == Orders2(children)
      ensures r.Ok? ==> WithinLimits() && View() == old(View()).Plus(Counts(children), Sizes(children))
      ensures r.Ok? ==> refreshOverride == Or(old(refreshOverride), FirstRefreshes(children, world))
      ensures hope.Some? && old(Promised(hope.value, origin, references, depth)) ==> r.Ok?
      decreases limits.maxDepth + 1 - depth, 0, 0
    {
      hide Planned, Order2, Orders2, FirstRefresh, FirstRefreshes, Count, Counts, Size, Sizes, Follows, AllPlanned;
      children := [];
      var layers: seq<PlanLayer> := [];
      ghost var n := resolutions;
      ghost var hoped := hope.Some? && Promised(hope.value, origin, references, depth);
      NoChildren(world);
      NothingFollowed(world, origin, references, version, active, depth + 1, limits.maxDepth, n);
      for k := 0 to |references|
        invariant WithinLimits() && active == old(active) && |children| == k
        invariant layers == Orders2(children) && View() == old(View()).Plus(Counts(children), Sizes(children))
        invariant refreshOverride == Or(old(refreshOverride), FirstRefreshes(children, world))
        invariant Follows(world, origin, references, children, n)
        invariant AllPlanned(children, world, version, active, depth + 1, limits.maxDepth, n)
        invariant hoped ==> children == hope.value[..k]
      {
        if hoped {
          NextChild(hope.value, origin, references, world, version, active, depth + 1, limits.maxDepth, n, k);
        }
        var result, child := Psf2Dependency(origin, references[k], depth + 1, active,
                                            if hoped then Some(hope.value[k]) else None);
        if result.Err? {
          return result, children;
        }
        if hoped {
          SameChild(child, hope.value[k], origin, references[k], world, version, active, depth + 1, limits.maxDepth,
                    n + Counts(children));
        }
        layers := layers + result.value;
        ChildAdded(children, child, world);
        ChildFollows(children, child, origin, references, world, version, active, depth + 1, limits.maxDepth, n);
        children := children + [child];
      }
      return Ok(layers), children;
    }

    method Psf2Dependency(containing: Origin, reference: Bytes, depth: nat, ghost above: seq<Origin>,
                          ghost hope: Option<RefTree>)
      returns (r: Result<seq<PlanLayer>, LoadError>, ghost t: RefTree)
      requires WithinLimits() && active == above && 0 < depth <= limits.maxDepth + 1
      modifies this
      ensures active == old(active)
      ensures r.Ok? ==> ResolvesTo(world, old(resolutions), containing, reference, t)
      ensures r.Ok? ==> Planned(t, world, version, above, depth, limits.maxDepth, old(resolutions) + 1)
      ensures r.Ok? ==> r.value == Order2(t)
      ensures r.Ok? ==> WithinLimits() && View() == old(View()).Plus(Count(t), Size(t))
      ensures r.Ok? ==> refreshOverride == Or(old(refreshOverride), FirstRefresh(t, world))
      ensures (&& hope.Some? && ResolvesTo(world, old(resolutions), containing, reference, hope.value)
               && Planned(hope.value, world, version, above, depth, limits.maxDepth, old(resolutions) + 1)
               && old(Room(Count(hope.value), Size(hope.value)))) ==> r.Ok?
      decreases limits.maxDepth + 1 - depth, 1, 0
    {
      hide Planned, Order2, FirstRefresh, Counts, Sizes;
      t := RefTree([], PsfContainer(version, [], [], [], []), 0, false, []);
      if hope.Some? && Planned(hope.value, world, version, above, depth, limits.maxDepth, resolutions + 1) {
        PlannedFacts(hope.value, world, version, above, depth, limits.maxDepth, resolutions + 1);
      }
      var resolved, size := Resolve(containing, reference, depth);
      if resolved.Err? {
        return Err(resolved.error), t;
      }
      var (origin, container) := resolved.value;
      active := active + [origin];
      r, t := Psf2Node(origin, container, depth, above, size, hope);
      active := active[..|active| - 1];
    }
  }

  function Found(file: (Origin, PsfContainer), size: nat): RefTree { RefTree(file.0, file.1, size, false, []) }

  lemma NoChildren(w: World)
    ensures Orders1([]) == [] && Orders2([]) == [] && Counts([]) == 0 && Sizes([]) == 0 && FirstRefreshes([], w) == None
  {
  }

  lemma NothingFollowed(w: World, origin: Origin, references: seq<Bytes>, version: PsfVersion, above: seq<Origin>,
                        depth: nat, maxDepth: nat, n: nat)
    ensures Follows(w, origin, references, [], n) && AllPlanned([], w, version, above, depth, maxDepth, n)
  {
  }

  /** The `_lib` child in front of the numbered ones. */
  lemma FirstAndRest(child: RefTree, others: seq<RefTree>, references: seq<Bytes>, origin: Origin, w: World,
                     version: PsfVersion, above: seq<Origin>, depth: nat, maxDepth: nat, n: nat)
    requires references != [] && |others| == |references| - 1
    ensures var all := [child] + others;
            && (&& Follows(w, origin, references, all, n) && AllPlanned(all, w, version, above, depth, maxDepth, n)
                <==>
                && ResolvesTo(w, n, origin, references[0], child)
                && Planned(child, w, version, above, depth, maxDepth, n + 1)
                && Follows(w, origin, references[1..], others, n + Count(child))
                && AllPlanned(others, w, version, above, depth, maxDepth, n + Count(child)))
            && Counts(all) == Count(child) + Counts(others) && Sizes(all) == Size(child) + Sizes(others)
            && FirstRefreshes(all, w) == Or(FirstRefresh(child, w), FirstRefreshes(others, w))
            && all[0] == child && all[1..] == others
  {
    hide Planned, ResolvesTo, Counts, Sizes, FirstRefreshes, Before;
    var all := [child] + others;
    assert all[1..] == others;
    FirstCounted(all);
    FirstSized(all);
    FirstRefreshed(all, w);
    forall k | 0 <= k < |all|
      ensures Before(all, k, n) == if k == 0 then n else Before(others, k - 1, n + Count(child))
      ensures k > 0 ==> all[k] == others[k - 1] && references[k] == references[1..][k - 1]
    {
      BeforeRest(child, others, k, n);
    }
    forall k | 0 <= k < |others|
      ensures others[k] == all[k + 1] && references[1..][k] == references[k + 1]
      ensures Before(others, k, n + Count(child)) == Before(all, k + 1, n)
    {
      BeforeRest(child, others, k + 1, n);
    }
  }

  lemma BeforeRest(child: RefTree, others: seq<RefTree>, k: nat, n: nat)
    requires k <= |others|
    ensures Before([child] + others, k, n) == if k == 0 then n else Before(others, k - 1, n + Count(child))
  {
    hide Count;
    if k > 0 {
      var front := ([child] + others)[..k];
      FirstCounted(front);
      assert front[1..] == others[..k - 1];
    }
  }

  lemma {:induction false} FirstRefreshed(ts: seq<RefTree>, w: World)
    requires ts != []
    ensures FirstRefreshes(ts, w) == Or(FirstRefresh(ts[0], w), FirstRefreshes(ts[1..], w))
  {
    if |ts| > 1 {
      FirstRefreshed(ts[..|ts| - 1], w);
      assert ts[..|ts| - 1][1..] == ts[1..][..|ts| - 2];
    }
  }

  lemma {:induction false} FirstSized(ts: seq<RefTree>)
    requires ts != []
    ensures Sizes(ts) == Size(ts[0]) + Sizes(ts[1..])
  {
    if |ts| > 1 {
      FirstSized(ts[..|ts| - 1]);
      assert ts[..|ts| - 1][1..] == ts[1..][..|ts| - 2];
    }
  }

  /** Totals of a prefix never exceed those of the whole. */
  lemma {:induction false} PrefixTotals(ts: seq<RefTree>, k: nat)
    requires k <= |ts|
    ensures Counts(ts[..k]) <= Counts(ts) && Sizes(ts[..k]) <= Sizes(ts)
  {
    if k < |ts| {
      PrefixTotals(ts[..|ts| - 1], k);
      assert ts[..|ts| - 1][..k] == ts[..k];
    } else {
      assert ts[..k] == ts;
    }
  }

  /** What a promised list of children says of the next one. */
  lemma NextChild(ts: seq<RefTree>, origin: Origin, references: seq<Bytes>, w: World, version: PsfVersion,
                  above: seq<Origin>, depth: nat, maxDepth: nat, n: nat, k: nat)
    requires k < |ts| == |references| && Follows(w, origin, references, ts, n)
    requires AllPlanned(ts, w, version, above, depth, maxDepth, n)
    ensures ResolvesTo(w, n + Counts(ts[..k]), origin, references[k], ts[k])
    ensures Planned(ts[k], w, version, above, depth, maxDepth, n + Counts(ts[..k]) + 1)
    ensures Counts(ts[..k]) + Count(ts[k]) <= Counts(ts) && Sizes(ts[..k]) + Size(ts[k]) <= Sizes(ts)
    ensures ts[..k + 1] == ts[..k] + [ts[k]]
  {
    hide Planned, ResolvesTo, Follows, AllPlanned, Count, Size, Counts, Sizes;
    PrefixTotals(ts, k + 1);
    assert ts[..k + 1] == ts[..k] + [ts[k]];
    Totals(ts[..k], ts[k]);
    FollowsAt(w, origin, references, ts, n, k);
    PlannedAt(ts, w, version, above, depth, maxDepth, n, k);
  }

  lemma Totals(ts: seq<RefTree>, t: RefTree)
    ensures Counts(ts + [t]) == Counts(ts) + Count(t) && Sizes(ts + [t]) == Sizes(ts) + Size(t)
  {
    assert (ts + [t])[..|ts|] == ts;
  }

  lemma PlannedAt(ts: seq<RefTree>, w: World, version: PsfVersion, above: seq<Origin>, depth: nat, maxDepth: nat,
                  n: nat, k: nat)
    requires AllPlanned(ts, w, version, above, depth, maxDepth, n) && k < |ts|
    ensures Planned(ts[k], w, version, above, depth, maxDepth, Before(ts, k, n) + 1)
  {
  }

  lemma SameChild(a: RefTree, b: RefTree, origin: Origin, reference: Bytes, w: World, version: PsfVersion,
                  above: seq<Origin>, depth: nat, maxDepth: nat, n: nat)
    requires ResolvesTo(w, n, origin, reference, a) && ResolvesTo(w, n, origin, reference, b)
    requires Planned(a, w, version, above, depth, maxDepth, n + 1)
             && Planned(b, w, version, above, depth, maxDepth, n + 1)
    ensures a == b
  {
    hide Faithful, Acyclic, NoDeeper;
    SameTree(a, b, w, version, n + 1);
  }

  /** One more reference followed. */
  lemma ChildFollows(ts: seq<RefTree>, t: RefTree, origin: Origin, references: seq<Bytes>, w: World,
                     version: PsfVersion, above: seq<Origin>, depth: nat, maxDepth: nat, n: nat)
    requires |ts| < |references| && Follows(w, origin, references, ts, n)
             && AllPlanned(ts, w, version, above, depth, maxDepth, n)
    requires ResolvesTo(w, n + Counts(ts), origin, references[|ts|], t)
    requires Planned(t, w, version, above, depth, maxDepth, n + Counts(ts) + 1)
    ensures Follows(w, origin, references, ts + [t], n) && AllPlanned(ts + [t], w, version, above, depth, maxDepth, n)
  {
    hide Planned, ResolvesTo, Follows, AllPlanned, Counts, Before;
    var all := ts + [t];
    forall k | 0 <= k < |all|
      ensures ResolvesTo(w, Before(all, k, n), origin, references[k], all[k])
      ensures Planned(all[k], w, version, above, depth, maxDepth, Before(all, k, n) + 1)
    {
      BeforeLonger(ts, t, k, n);
      if k < |ts| {
        FollowsAt(w, origin, references, ts, n, k);
        PlannedAt(ts, w, version, above, depth, maxDepth, n, k);
      }
    }
    FollowsAll(w, origin, references, all, n);
    PlannedAll(all, w, version, above, depth, maxDepth, n);
  }

  lemma BeforeLonger(ts: seq<RefTree>, t: RefTree, k: nat, n: nat)
    requires k <= |ts|
    ensures Before(ts + [t], k, n) == if k < |ts| then Before(ts, k, n) else n + Counts(ts)
  {
    hide Counts;
    assert (ts + [t])[..k] == ts[..k];
    assert ts[..|ts|] == ts;
  }

  lemma FollowsAll(w: World, origin: Origin, references: seq<Bytes>, ts: seq<RefTree>, n: nat)
    requires |ts| <= |references|
    requires forall k :: 0 <= k < |ts| ==> ResolvesTo(w, Before(ts, k, n), origin, references[k], ts[k])
    ensures Follows(w, origin, references, ts, n)
  {
  }

  lemma PlannedAll(ts: seq<RefTree>, w: World, version: PsfVersion, above: seq<Origin>, depth: nat, maxDepth: nat,
                   n: nat)
    requires forall k :: 0 <= k < |ts| ==> Planned(ts[k], w, version, above, depth, maxDepth, Before(ts, k, n) + 1)
    ensures AllPlanned(ts, w, version, above, depth, maxDepth, n)
  {
  }

  lemma PlannedFacts(t: RefTree, w: World, version: PsfVersion, above: seq<Origin>, depth: nat, maxDepth: nat, n: nat)
    requires Planned(t, w, version, above, depth, maxDepth, n)
    ensures t.origin !in above && depth <= maxDepth && t.container.version == version
            && w.metadata(t.container.tags).Some?
    ensures Count(t) == 1 + Counts(t.children) && Size(t) == t.size + Sizes(t.children)
  {
  }

  /** The children of a planned file answer the references its tags make, */
  lemma NodeReferences(t: RefTree, w: World, version: PsfVersion, above: seq<Origin>, depth: nat, maxDepth: nat, n: nat,
                       hasPrimary: bool, references: seq<Bytes>)
    requires Planned(t, w, version, above, depth, maxDepth, n)
             && AreReferences(t.container.tags, hasPrimary, references)
    ensures w.metadata(t.container.tags).Some? && t.hasPrimary == hasPrimary && |t.children| == |references|
    ensures Follows(w, t.origin, references, t.children, n)
    ensures AllPlanned(t.children, w, version, above + [t.origin], depth + 1, maxDepth, n)
  {
    hide AreReferences, Follows, Before, Acyclic, NoDeeper, Faithful;
    NodeParts(t, w, version, above, depth, maxDepth, n);
    var x :| |x| == |t.children| && AreReferences(t.container.tags, t.hasPrimary, x)
             && Follows(w, t.origin, x, t.children, n);
    SameReferences(t.container.tags, hasPrimary, references, t.hasPrimary, x);
  }

  lemma NodeParts(t: RefTree, w: World, version: PsfVersion, above: seq<Origin>, depth: nat, maxDepth: nat, n: nat)
    requires Planned(t, w, version, above, depth, maxDepth, n)
    ensures w.metadata(t.container.tags).Some?
    ensures exists x :: |x| == |t.children| && AreReferences(t.container.tags, t.hasPrimary, x)
                        && Follows(w, t.origin, x, t.children, n)
    ensures AllPlanned(t.children, w, version, above + [t.origin], depth + 1, maxDepth, n)
  {
    hide AreReferences, Follows, Before;
  }

  /** the first of them the `_lib` reference, the rest the numbered ones. */
  lemma NodeSplit(t: RefTree, w: World, version: PsfVersion, above: seq<Origin>, depth: nat, maxDepth: nat, n: nat,
                  references: seq<Bytes>)
    requires Planned(t, w, version, above, depth, maxDepth, n) && AreReferences(t.container.tags, true, references)
    ensures |t.children| == |references| > 0
    ensures ResolvesTo(w, n, t.origin, references[0], t.children[0])
    ensures Planned(t.children[0], w, version, above + [t.origin], depth + 1, maxDepth, n + 1)
    ensures Follows(w, t.origin, references[1..], t.children[1..], n + Count(t.children[0]))
    ensures AllPlanned(t.children[1..], w, version, above + [t.origin], depth + 1, maxDepth, n + Count(t.children[0]))
    ensures Counts(t.children) == Count(t.children[0]) + Counts(t.children[1..])
    ensures Sizes(t.children) == Size(t.children[0]) + Sizes(t.children[1..])
  {
    hide Planned, ResolvesTo, Follows, AllPlanned, Counts, Count, Sizes, Size, AreReferences;
    NodeReferences(t, w, version, above, depth, maxDepth, n, true, references);
    HasFirst(t.container, references);
    assert t.children == [t.children[0]] + t.children[1..];
    FirstAndRest(t.children[0], t.children[1..], references, t.origin, w, version, above + [t.origin], depth + 1,
                 maxDepth, n);
  }

  lemma HasFirst(container: PsfContainer, references: seq<Bytes>)
    requires AreReferences(container.tags, true, references)
    ensures references != []
  {
  }

  /** A node's order, count and refresh from its children's. */
  lemma NodeOrder(t: RefTree, w: World)
    ensures Order1(t) == if t.hasPrimary && t.children != [] then
              Order1(t.children[0]) + [t.Layer()] + Orders1(t.children[1..])
                         else [t.Layer()] + Orders1(t.children)
    ensures Order2(t) == Orders2(t.children) + [t.Layer()]
    ensures Count(t) == 1 + Counts(t.children)
    ensures FirstRefresh(t, w) == Or(RefreshOf(t, w), FirstRefreshes(t.children, w))
  {
  }

  function IndexOf(s: seq<Origin>, x: Origin): (k: nat)
    requires x in s
    ensures k < |s| && s[k] == x
    ensures forall j :: 0 <= j < k ==> s[j] != x
  {
    if s[0] == x then 0 else 1 + IndexOf(s[1..], x)
  }

  /** What a finished subtree guarantees. */
  ghost predicate Planned(t: RefTree, w: World, version: PsfVersion, above: seq<Origin>, depth: nat, maxDepth: nat,
                          n: nat)
  {
    Faithful(t, w, version, n) && Acyclic(t, above) && NoDeeper(t, depth, maxDepth)
  }

  ghost predicate AllPlanned(ts: seq<RefTree>, w: World, version: PsfVersion, above: seq<Origin>, depth: nat,
                             maxDepth: nat, n: nat)
  {
    forall k :: 0 <= k < |ts| ==> Planned(ts[k], w, version, above, depth, maxDepth, Before(ts, k, n) + 1)
  }

  /** A file and its planned children make a planned subtree. */
  lemma PlannedNode(t: RefTree, w: World, version: PsfVersion, above: seq<Origin>, depth: nat, maxDepth: nat,
                    references: seq<Bytes>, n: nat)
    requires t.container.version == version && w.metadata(t.container.tags).Some?
    requires t.origin !in above && depth <= maxDepth && |references| == |t.children|
    requires AreReferences(t.container.tags, t.hasPrimary, references)
             && Follows(w, t.origin, references, t.children, n)
    requires AllPlanned(t.children, w, version, above + [t.origin], depth + 1, maxDepth, n)
    ensures Planned(t, w, version, above, depth, maxDepth, n)
  {
    hide AreReferences, Follows, Acyclic, NoDeeper, Faithful, Counts;
    forall k | 0 <= k < |t.children|
      ensures Faithful(t.children[k], w, version, Before(t.children, k, n) + 1)
      ensures Acyclic(t.children[k], above + [t.origin]) && NoDeeper(t.children[k], depth + 1, maxDepth)
    {
    }
    FaithfulNode(t, w, version, references, n);
    AcyclicNode(t, above);
    ShallowNode(t, depth, maxDepth);
  }

  /** A PSF1 file from its `_lib` subtree and the numbered ones. */
  lemma WithPrimary(t: RefTree, child: RefTree, others: seq<RefTree>, references: seq<Bytes>, w: World,
                    version: PsfVersion, above: seq<Origin>, depth: nat, maxDepth: nat, n: nat)
    requires t.container.version == version && w.metadata(t.container.tags).Some? && t.hasPrimary
             && t.children == [child] + others
    requires t.origin !in above && depth <= maxDepth && |references| == |others| + 1
    requires AreReferences(t.container.tags, true, references)
    requires ResolvesTo(w, n, t.origin, references[0], child)
    requires Planned(child, w, version, above + [t.origin], depth + 1, maxDepth, n + 1)
    requires Follows(w, t.origin, references[1..], others, n + Count(child))
    requires AllPlanned(others, w, version, above + [t.origin], depth + 1, maxDepth, n + Count(child))
    ensures Planned(t, w, version, above, depth, maxDepth, n)
    ensures Order1(t) == Order1(child) + [t.Layer()] + Orders1(others) && Initial(t) == Initial(child)
    ensures Counts(t.children) == Count(child) + Counts(others) && Sizes(t.children) == Size(child) + Sizes(others)
    ensures FirstRefresh(t, w) == Or(RefreshOf(t, w), Or(FirstRefresh(child, w), FirstRefreshes(others, w)))
  {
    hide AreReferences, Planned, Order1, Orders1, FirstRefresh, FirstRefreshes, Count, Counts, Size, Sizes, Follows,
         AllPlanned, ResolvesTo;
    FirstAndRest(child, others, references, t.origin, w, version, above + [t.origin], depth + 1, maxDepth, n);
    PlannedNode(t, w, version, above, depth, maxDepth, references, n);
    NodeOrder(t, w);
  }

  lemma FaithfulNode(t: RefTree, w: World, version: PsfVersion, references: seq<Bytes>, n: nat)
    requires t.container.version == version && w.metadata(t.container.tags).Some? && |references| == |t.children|
    requires AreReferences(t.container.tags, t.hasPrimary, references)
             && Follows(w, t.origin, references, t.children, n)
    requires forall k :: 0 <= k < |t.children| ==> Faithful(t.children[k], w, version, Before(t.children, k, n) + 1)
    ensures Faithful(t, w, version, n)
  {
  }

  lemma AcyclicNode(t: RefTree, above: seq<Origin>)
    requires t.origin !in above && forall k :: 0 <= k < |t.children| ==> Acyclic(t.children[k], above + [t.origin])
    ensures Acyclic(t, above)
  {
  }

  lemma ShallowNode(t: RefTree, depth: nat, maxDepth: nat)
    requires depth <= maxDepth && forall k :: 0 <= k < |t.children| ==> NoDeeper(t.children[k], depth + 1, maxDepth)
    ensures NoDeeper(t, depth, maxDepth)
  {
  }

  lemma OrChain(a: Option<RefreshRate>, b: Option<RefreshRate>, c: Option<RefreshRate>, d: Option<RefreshRate>)
    ensures Or(Or(Or(a, b), c), d) == Or(a, Or(b, Or(c, d)))
    ensures Or(Or(a, b), None) == Or(a, b) && Or(None, d) == d
  {
  }

  /** One more child. */
  lemma ChildAdded(ts: seq<RefTree>, t: RefTree, w: World)
    ensures Orders1(ts + [t]) == Orders1(ts) + Order1(t)
    ensures Orders2(ts + [t]) == Orders2(ts) + Order2(t)
    ensures Counts(ts + [t]) == Counts(ts) + Count(t) && Sizes(ts + [t]) == Sizes(ts) + Size(t)
    ensures FirstRefreshes(ts + [t], w) == Or(FirstRefreshes(ts, w), FirstRefresh(t, w))
  {
  }

  /** The files a root reaches, all of them sound and within the limits. */
  ghost predicate Reached(t: RefTree, w: World, limits: DependencyLimits, origin: Origin, bytes: Bytes)
  {
    && t.origin == origin && t.size == |bytes| && w.parse(origin, bytes) == Ok(t.container)
    && Planned(t, w, t.container.version, [], 0, limits.maxDepth, 0)
    && Count(t) <= limits.maxFiles && Size(t) <= limits.maxAggregateBytes
  }

  /** A finished plan: the layers of the discovered tree in the format's order. */
  ghost predicate IsPlan(plan: LoadPlan, t: RefTree, w: World)
  {
    && t.origin == plan.rootOrigin
    && w.metadata(t.container.tags) == Some(plan.metadata)
    && plan.refresh == FirstRefresh(t, w)
    && |plan.layers| == Count(t)
    && (plan.Psf1Plan? <==> t.container.version == Psf1)
    && (plan.Psf1Plan? ==> plan.layers == Order1(t) && plan.initialStateOrigin == Initial(t))
    && (plan.Psf2Plan? ==> plan.layers == Order2(t))
  }

  /** Parses a root and resolves its complete plan: there is one exactly if the files the root reaches allow it. */
  method MakePlan(rootOrigin: Origin, rootBytes: Bytes, world: World, limits: DependencyLimits)
    returns (r: Result<LoadPlan, LoadError>, ghost t: RefTree)
    ensures r.Ok? ==> Reached(t, world, limits, rootOrigin, rootBytes) && IsPlan(r.value, t, world)
    ensures r.Ok? ==> FirstToOverride(r.value.refresh, Met(t), world)
    ensures r.Ok? <==> exists u :: Reached(u, world, limits, rootOrigin, rootBytes)
  {
    hide Planned, Order1, Order2, FirstRefresh, Counts, Sizes, FirstToOverride, Met;
    t := RefTree(rootOrigin, PsfContainer(Psf1, [], [], [], []), |rootBytes|, false, []);
    ghost var hope: Option<RefTree> := None;
    if u :| Reached(u, world, limits, rootOrigin, rootBytes) {
      hope := Some(u);
      PlannedFacts(u, world, u.container.version, [], 0, limits.maxDepth, 0);
    }
    var root := world.parse(rootOrigin, rootBytes);
    if root.Err? {
      return Err(Parse(root.error)), t;
    }
    var metadata := world.metadata(root.value.tags);
    if metadata.None? {
      return Err(BadMetadata), t;
    }
    var state := new LoadState(world, limits, root.value.version);
    var accounted := state.Account(|rootBytes|);
    if accounted.Err? {
      return Err(accounted.error), t;
    }
    state.active := state.active + [rootOrigin];
    if root.value.version == Psf1 {
      var node, tree := state.Psf1Node(rootOrigin, root.value, 0, [], |rootBytes|, hope);
      t := tree;
      if node.Err? {
        return Err(node.error), t;
      }
      OneLayerEach(t);
      FirstRefreshIsFirst(t, world);
      return Ok(Psf1Plan(rootOrigin, node.value.0, node.value.1, state.refreshOverride, metadata.value)), t;
    } else {
      var node, tree := state.Psf2Node(rootOrigin, root.value, 0, [], |rootBytes|, hope);
      t := tree;
      if node.Err? {
        return Err(node.error), t;
      }
      OneLayerEach(t);
      FirstRefreshIsFirst(t, world);
      return Ok(Psf2Plan(rootOrigin, node.value, state.refreshOverride, metadata.value)), t;
    }
  }

  /** A root reaches its files in one way only, so at most one plan exists for it. */
  lemma OnePlan(p: LoadPlan, t: RefTree, q: LoadPlan, u: RefTree, w: World, limits: DependencyLimits, origin: Origin,
                bytes: Bytes)
    requires Reached(t, w, limits, origin, bytes) && IsPlan(p, t, w)
    requires Reached(u, w, limits, origin, bytes) && IsPlan(q, u, w)
    ensures t == u && p == q
  {
    hide Faithful, Acyclic, NoDeeper, Order1, Order2, FirstRefresh, Count, Size, Initial;
    SameTree(t, u, w, t.container.version, 0);
  }

  /** What a PSF1 plan guarantees its consumer: initial state first, the root exactly once. */
  lemma Psf1PlanShape(plan: LoadPlan, t: RefTree, w: World, limits: DependencyLimits, origin: Origin, bytes: Bytes)
    requires Reached(t, w, limits, origin, bytes) && IsPlan(plan, t, w) && plan.Psf1Plan?
    ensures plan.layers != [] && plan.layers[0].origin == plan.initialStateOrigin
    ensures t.Layer() in plan.layers
    ensures forall j, k :: 0 <= j < k < |plan.layers| ==>
                             plan.layers[j].origin != plan.rootOrigin || plan.layers[k].origin != plan.rootOrigin
  {
    hide Faithful, NoDeeper, Order1, Order2, Initial, FirstRefresh, Count;
    InitialIsFirst(t);
    RootOnce(t);
  }
}
