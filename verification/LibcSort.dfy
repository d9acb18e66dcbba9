/** Guest-driven `qsort`: whatever the comparator does to registers, the outcome is the stable sort. */
module LibcSort {
  import opened Machine
  import opened Wrappers
  import opened Libc

  type Bytes = seq<u8>

  type Comparator = (Bytes, Bytes) -> int

  /** Comparator results fit the signed result register. */
  ghost predicate Returnable(compare: Comparator)
  {
    forall a, b :: -0x8000_0000 <= compare(a, b) < 0x8000_0000
  }

  ghost predicate TotalPreorder(compare: Comparator)
  {
    && (forall a, b :: compare(a, b) > 0 <==> compare(b, a) < 0)
    && (forall a, b, c :: compare(a, b) <= 0 && compare(b, c) <= 0 ==> compare(a, c) <= 0)
  }

  // ----- Reference: stable insertion of one element after another

  function Insert(sorted: seq<Bytes>, x: Bytes, compare: Comparator): (r: seq<Bytes>)
    ensures |r| == |sorted| + 1
  {
    if sorted == [] || compare(sorted[|sorted| - 1], x) <= 0 then sorted + [x]
    else Insert(sorted[..|sorted| - 1], x, compare) + [sorted[|sorted| - 1]]
  }

  function StableSort(s: seq<Bytes>, compare: Comparator): (r: seq<Bytes>)
    ensures |r| == |s|
  {
    if s == [] then [] else Insert(StableSort(s[..|s| - 1], compare), s[|s| - 1], compare)
  }

  predicate Sorted(s: seq<Bytes>, compare: Comparator)
  {
    forall i, j :: 0 <= i < j < |s| ==> compare(s[i], s[j]) <= 0
  }

  /** The elements equivalent to `x`, in order of appearance. */
  function EquivalentTo(s: seq<Bytes>, x: Bytes, compare: Comparator): seq<Bytes>
  {
    if s == [] then []
    else
      EquivalentTo(s[..|s| - 1], x, compare) + if compare(s[|s| - 1], x) == 0 then [s[|s| - 1]] else []
  }

  lemma {:induction false} InsertPermutes(sorted: seq<Bytes>, x: Bytes, compare: Comparator)
    ensures multiset(Insert(sorted, x, compare)) == multiset(sorted) + multiset{x}
  {
    if sorted != [] && compare(sorted[|sorted| - 1], x) > 0 {
      InsertPermutes(sorted[..|sorted| - 1], x, compare);
      assert sorted == sorted[..|sorted| - 1] + [sorted[|sorted| - 1]];
    }
  }

  lemma Transitive(compare: Comparator, a: Bytes, b: Bytes, c: Bytes)
    requires TotalPreorder(compare) && compare(a, b) <= 0 && compare(b, c) <= 0
    ensures compare(a, c) <= 0
  {
  }

  lemma Reverse(compare: Comparator, a: Bytes, b: Bytes)
    requires TotalPreorder(compare)
    ensures compare(a, b) > 0 <==> compare(b, a) < 0
  {
  }

  lemma {:induction false} InsertSorted(sorted: seq<Bytes>, x: Bytes, compare: Comparator)
    requires Sorted(sorted, compare) && TotalPreorder(compare)
    ensures Sorted(Insert(sorted, x, compare), compare)
  {
    hide TotalPreorder;
    var r := Insert(sorted, x, compare);
    if sorted != [] {
      var init, last := sorted[..|sorted| - 1], sorted[|sorted| - 1];
      if compare(last, x) > 0 {
        InsertSorted(init, x, compare);
        InsertPermutes(init, x, compare);
        Reverse(compare, last, x);
        forall i | 0 <= i < |r| - 1
          ensures compare(r[i], last) <= 0
        {
          assert r[i] in multiset(Insert(init, x, compare));
        }
      } else {
        forall i | 0 <= i < |init|
          ensures compare(sorted[i], x) <= 0
        {
          Transitive(compare, sorted[i], last, x);
        }
      }
    }
  }

  lemma {:induction false} InsertStable(sorted: seq<Bytes>, x: Bytes, y: Bytes, compare: Comparator)
    requires TotalPreorder(compare)
    ensures EquivalentTo(Insert(sorted, x, compare), y, compare) == EquivalentTo(sorted + [x], y, compare)
  {
    assert (sorted + [x])[..|sorted|] == sorted;
    if sorted != [] && compare(sorted[|sorted| - 1], x) > 0 {
      var init, last := sorted[..|sorted| - 1], sorted[|sorted| - 1];
      InsertStable(init, x, y, compare);
      assert (init + [x])[..|init|] == init;
      assert (Insert(init, x, compare) + [last])[..|sorted|] == Insert(init, x, compare);
    }
  }

  /** The reference is a sort, */
  lemma {:induction false} StableSortSorts(s: seq<Bytes>, compare: Comparator)
    ensures multiset(StableSort(s, compare)) == multiset(s)
    ensures TotalPreorder(compare) ==> Sorted(StableSort(s, compare), compare)
  {
    hide TotalPreorder, Sorted;
    if s != [] {
      var init, last := s[..|s| - 1], s[|s| - 1];
      StableSortSorts(init, compare);
      assert s == init + [last];
      InsertPermutes(StableSort(init, compare), last, compare);
      if TotalPreorder(compare) {
        InsertSorted(StableSort(init, compare), last, compare);
      }
    } else {
      SortedEmpty(compare);
    }
  }

  lemma SortedEmpty(compare: Comparator)
    ensures Sorted([], compare)
  {
  }

  /** and it keeps equivalent elements in their order of appearance. */
  lemma {:induction false} StableSortStable(s: seq<Bytes>, y: Bytes, compare: Comparator)
    requires TotalPreorder(compare)
    ensures EquivalentTo(StableSort(s, compare), y, compare) == EquivalentTo(s, y, compare)
  {
    hide TotalPreorder, Insert;
    if s != [] {
      var init, last := s[..|s| - 1], s[|s| - 1];
      var sorted := StableSort(init, compare);
      StableSortStable(init, y, compare);
      InsertStable(sorted, last, y, compare);
      assert (sorted + [last])[..|sorted|] == sorted;
    }
  }

  // ----- Elements of a guest array

  function Slice(mem: seq<u8>, at: nat, width: nat): Bytes
    requires at + width <= |mem|
  {
    mem[at..at + width]
  }

  function Elements(mem: seq<u8>, base: nat, count: nat, width: nat): (r: seq<Bytes>)
    requires At(base, count, width) <= |mem|
    ensures |r| == count
  {
    if count == 0 then []
    else
      InOrder(base, count - 1, count, width);
      Elements(mem, base, count - 1, width) + [Slice(mem, At(base, count - 1, width), width)]
  }

  lemma {:induction false} ElementAt(mem: seq<u8>, base: nat, count: nat, width: nat, k: nat)
    requires At(base, count, width) <= |mem| && k < count
    ensures base <= At(base, k, width) && At(base, k, width) + width <= At(base, count, width)
    ensures Elements(mem, base, count, width)[k] == Slice(mem, At(base, k, width), width)
  {
    hide At, Slice;
    InOrder(base, k, count, width);
    InOrder(base, count - 1, count, width);
    if k < count - 1 {
      ElementAt(mem, base, count - 1, width, k);
    }
  }

  /** What the guest comparator sees: RAM, and from its end on whatever `beyond` says of an address. */
  function Seen(mem: seq<u8>, beyond: nat -> u8, extent: int): (r: seq<u8>)
    ensures |r| == Max(|mem|, extent) && mem <= r
  {
    mem + seq(Max(0, extent - |mem|), i requires 0 <= i => beyond(|mem| + i))
  }

  /** The elements after one comparison result has been acted on. */
  function Moved(e: seq<Bytes>, inner: nat, result: int): seq<Bytes>
    requires 1 <= inner < |e|
  {
    if result > 0 then e[inner - 1 := e[inner]][inner := e[inner - 1]] else e
  }

  lemma ExchangedAt(before: seq<u8>, after: seq<u8>, left: nat, right: nat, width: nat, at: nat)
    requires left + width <= right && right + width <= |before| && at + width <= |before|
    requires Exchanged(before, after, left, right, width)
    requires at == left || at == right || at + width <= left || right + width <= at
    ensures |after| == |before|
    ensures Slice(after, at, width) ==
            if at == left then Slice(before, right, width)
            else if at == right then Slice(before, left, width)
            else Slice(before, at, width)
  {
  }

  /** Element `j` after neighbours `k` and `k + 1` changed places. */
  lemma NeighbourAt(before: seq<u8>, after: seq<u8>, base: nat, count: nat, width: nat, k: nat, left: nat, right: nat,
                    j: nat)
    requires width > 0 && At(base, count, width) <= |before| == |after| && k + 1 < count && j < count
    requires left == At(base, k, width) && right == At(base, k + 1, width)
    requires left + width <= right && right + width <= |before| && Exchanged(before, after, left, right, width)
    ensures Elements(after, base, count, width)[j]
            == Elements(before, base, count, width)[if j == k then k + 1 else if j == k + 1 then k else j]
  {
    hide Exchanged, Elements, At, Slice;
    ElementAt(before, base, count, width, if j == k then k + 1 else if j == k + 1 then k else j);
    ElementAt(after, base, count, width, j);
    if j < k {
      InOrder(base, j, k, width);
      ExchangedAt(before, after, left, right, width, At(base, j, width));
    } else if j > k + 1 {
      InOrder(base, k + 1, j, width);
      ExchangedAt(before, after, left, right, width, At(base, j, width));
    } else if j == k {
      ExchangedAt(before, after, left, right, width, left);
    } else {
      ExchangedAt(before, after, left, right, width, right);
    }
  }

  /** Exchanging two neighbours exchanges them in the list of elements and nothing else. */
  lemma ExchangeNeighbours(before: seq<u8>, after: seq<u8>, base: nat, count: nat, width: nat, k: nat, left: nat,
                           right: nat)
    requires width > 0 && At(base, count, width) <= |before| == |after| && k + 1 < count
    requires left == At(base, k, width) && right == At(base, k + 1, width)
    requires left + width <= right && right + width <= |before| && Exchanged(before, after, left, right, width)
    ensures Elements(after, base, count, width) == Moved(Elements(before, base, count, width), k + 1, 1)
  {
    hide Exchanged, Elements, At;
    forall j | 0 <= j < count
      ensures Elements(after, base, count, width)[j]
              == Elements(before, base, count, width)[if j == k then k + 1 else if j == k + 1 then k else j]
    {
      NeighbourAt(before, after, base, count, width, k, left, right, j);
    }
  }

  // ----- The suspended sort as a state of the reference sort

  /**
   * Elements before `outer` are sorted except that element `outer` has moved down to `inner`, past
   * elements that are all greater.
   */
  ghost predicate SortState(e0: seq<Bytes>, e: seq<Bytes>, outer: nat, inner: nat, compare: Comparator)
  {
    && 1 <= inner <= outer < |e0| == |e|
    && var p := StableSort(e0[..outer], compare);
    && e[..inner] == p[..inner]
    && e[inner] == e0[outer]
    && e[inner + 1..outer + 1] == p[inner..]
    && e[outer + 1..] == e0[outer + 1..]
    && forall j :: inner <= j < outer ==> compare(p[j], e0[outer]) > 0
  }

  lemma SortStarts(e0: seq<Bytes>, compare: Comparator)
    requires |e0| >= 2
    ensures SortState(e0, e0, 1, 1, compare)
  {
  }

  /** Elements greater than `x` at the end do not affect where it is inserted. */
  lemma {:induction false} InsertBelow(p: seq<Bytes>, x: Bytes, i: nat, compare: Comparator)
    requires i <= |p| && forall j :: i <= j < |p| ==> compare(p[j], x) > 0
    ensures Insert(p, x, compare) == Insert(p[..i], x, compare) + p[i..]
  {
    if i < |p| {
      var init, last := p[..|p| - 1], p[|p| - 1];
      InsertBelow(init, x, i, compare);
      assert init[..i] == p[..i];
      assert p[i..] == init[i..] + [last];
    } else {
      assert p[..i] == p;
    }
  }

  lemma SortStep(e0: seq<Bytes>, outer: nat, compare: Comparator)
    requires outer < |e0|
    ensures StableSort(e0[..outer + 1], compare) == Insert(StableSort(e0[..outer], compare), e0[outer], compare)
  {
    assert e0[..outer + 1][..outer] == e0[..outer];
  }

  /** Where the moving element comes to rest is where the reference inserts it. */
  lemma SettledAt(e0: seq<Bytes>, e: seq<Bytes>, outer: nat, at: nat, compare: Comparator)
    requires at <= outer < |e0| == |e|
    requires var p := StableSort(e0[..outer], compare);
             && e[..at] == p[..at] && e[at] == e0[outer] && e[at + 1..outer + 1] == p[at..]
             && (forall j :: at <= j < outer ==> compare(p[j], e0[outer]) > 0)
             && (at > 0 ==> compare(p[at - 1], e0[outer]) <= 0)
    ensures e[..outer + 1] == StableSort(e0[..outer + 1], compare)
  {
    hide StableSort;
    var p, x := StableSort(e0[..outer], compare), e0[outer];
    InsertBelow(p, x, at, compare);
    SortStep(e0, outer, compare);
    assert e[..outer + 1] == e[..at] + [e[at]] + e[at + 1..outer + 1];
  }

  lemma NextRound(e0: seq<Bytes>, e: seq<Bytes>, outer: nat, compare: Comparator)
    requires 0 < outer < |e0| == |e| && e[..outer] == StableSort(e0[..outer], compare) && e[outer..] == e0[outer..]
    ensures SortState(e0, e, outer, outer, compare)
  {
  }

  /** Acting on one comparison keeps the pattern, with the moving element one lower if it was smaller. */
  lemma MovePattern(e: seq<Bytes>, p: seq<Bytes>, x: Bytes, outer: nat, inner: nat)
    requires 1 <= inner <= outer == |p| < |e|
    requires e[..inner] == p[..inner] && e[inner] == x && e[inner + 1..outer + 1] == p[inner..]
    ensures e[inner - 1] == p[inner - 1]
    ensures var e' := Moved(e, inner, 1);
            && e'[..inner - 1] == p[..inner - 1] && e'[inner - 1] == x && e'[inner..outer + 1] == p[inner - 1..]
            && e'[outer + 1..] == e[outer + 1..]
  {
  }

  lemma StepDown(e0: seq<Bytes>, e: seq<Bytes>, outer: nat, inner: nat, compare: Comparator)
    requires SortState(e0, e, outer, inner, compare) && inner > 1 && compare(e[inner - 1], e[inner]) > 0
    ensures SortState(e0, Moved(e, inner, 1), outer, inner - 1, compare)
  {
    hide StableSort;
    MovePattern(e, StableSort(e0[..outer], compare), e0[outer], outer, inner);
    hide Moved;
  }

  lemma StepSettles(e0: seq<Bytes>, e: seq<Bytes>, outer: nat, inner: nat, compare: Comparator)
    requires SortState(e0, e, outer, inner, compare)
    requires inner == 1 || compare(e[inner - 1], e[inner]) <= 0
    ensures var e' := Moved(e, inner, compare(e[inner - 1], e[inner]));
            if outer + 1 < |e0| then SortState(e0, e', outer + 1, outer + 1, compare) else e' == StableSort(e0, compare)
  {
    hide StableSort;
    var result := compare(e[inner - 1], e[inner]);
    MovePattern(e, StableSort(e0[..outer], compare), e0[outer], outer, inner);
    SettledAt(e0, Moved(e, inner, result), outer, if result > 0 then 0 else inner, compare);
    RoundEnds(e0, Moved(e, inner, result), outer, compare);
  }

  lemma SortAdvances(e0: seq<Bytes>, e: seq<Bytes>, kind: LibcKind, compare: Comparator)
    requires kind.Valid() && kind.Qsort? && kind.elements == |e0|
    requires SortState(e0, e, kind.outer, kind.inner, compare) && 1 <= kind.inner < |e|
    ensures var result := compare(e[kind.inner - 1], e[kind.inner]);
            var e' := Moved(e, kind.inner, result);
            match After(kind, result)
            case Continue(next) => next.Qsort? && SortState(e0, e', next.outer, next.inner, compare)
            case Finished(_) => e' == StableSort(e0, compare)
  {
    hide StableSort, SortState, Moved, At;
    if kind.inner > 1 && compare(e[kind.inner - 1], e[kind.inner]) > 0 {
      StepDown(e0, e, kind.outer, kind.inner, compare);
      AnyRise(e, kind.inner, compare(e[kind.inner - 1], e[kind.inner]));
    } else {
      StepSettles(e0, e, kind.outer, kind.inner, compare);
    }
  }

  lemma AnyRise(e: seq<Bytes>, inner: nat, result: int)
    requires 1 <= inner < |e| && result > 0
    ensures Moved(e, inner, result) == Moved(e, inner, 1)
  {
  }

  lemma RoundEnds(e0: seq<Bytes>, e: seq<Bytes>, outer: nat, compare: Comparator)
    requires outer < |e0| == |e|
    requires e[..outer + 1] == StableSort(e0[..outer + 1], compare) && e[outer + 1..] == e0[outer + 1..]
    ensures if outer + 1 < |e0| then SortState(e0, e, outer + 1, outer + 1, compare) else e == StableSort(e0, compare)
  {
    if outer + 1 < |e0| {
      NextRound(e0, e, outer + 1, compare);
    } else {
      assert e0[..outer + 1] == e0 && e[..outer + 1] == e;
    }
  }

  // ----- Driving a sort through its callbacks

  /** Comparisons of an insertion sort of `n` elements at most: every pair once. */
  function Pairs(n: nat): nat
  {
    if n == 0 then 0 else Pairs(n - 1) + (n - 1)
  }

  /** That is half of `n * (n - 1)`. */
  lemma {:induction false} PairsClosed(n: nat)
    ensures 2 * Pairs(n) == n * (n - 1)
  {
    if n > 0 {
      PairsClosed(n - 1);
    }
  }

  lemma {:induction false} PairsGrow(m: nat, n: nat)
    requires m <= n
    ensures Pairs(m) <= Pairs(n)
  {
    if m < n {
      PairsGrow(m, n - 1);
    }
  }

  function ToWord(x: int): (w: u32)
    requires -0x8000_0000 <= x < 0x8000_0000
    ensures Signed(w) == x && w == if x < 0 then x + 0x1_0000_0000 else x
  {
    if x < 0 then x + U32_LIMIT else x
  }

  /** Bytes outside `[lo, hi)` are untouched. */
  ghost predicate OnlyWithin(before: seq<u8>, after: seq<u8>, lo: int, hi: int)
  {
    |after| == |before| && forall a :: 0 <= a < |before| && !(lo <= a < hi) ==> after[a] == before[a]
  }

  /** A suspended sort between two callbacks. */
  ghost predicate Sorting(op: LibcOperation, context: CpuContext, e0: seq<Bytes>, mem: seq<u8>, calls: nat,
                          compare: Comparator)
    requires context.Valid()
  {
    var kind := op.kind;
    && kind.Qsort? && kind.Valid() && kind.Extent() <= |mem|
    && op == LibcOperation(context, context.Argument(3), calls + 1, kind)
    && kind.base == context.Argument(0) && kind.elements == context.Argument(1) == |e0|
    && kind.width == context.Argument(2)
    && SortState(e0, Elements(mem, kind.base, kind.elements, kind.width), kind.outer, kind.inner, compare)
    && calls <= Pairs(kind.outer) + (kind.outer - kind.inner)
  }

  lemma SortingStarts(op: LibcOperation, context: CpuContext, mem: seq<u8>, compare: Comparator)
    requires context.Valid() && op.kind.Qsort? && op.kind.Valid() && op.kind.Extent() <= |mem|
    requires op == LibcOperation(context, context.Argument(3), 1, op.kind)
    requires op.kind == Qsort(context.Argument(0), context.Argument(1), context.Argument(2), 1, 1)
    ensures Sorting(op, context, Elements(mem, op.kind.base, op.kind.elements, op.kind.width), mem, 0, compare)
  {
    SortStarts(Elements(mem, op.kind.base, op.kind.elements, op.kind.width), compare);
  }

  lemma CallOperands(op: LibcOperation)
    requires op.kind.Valid() && op.savedContext.Valid()
    ensures |CallContext(op).registers| == 32
    ensures CallContext(op).registers[A0] == Comparands(op.kind).value.0
    ensures CallContext(op).registers[A0 + 1] == Comparands(op.kind).value.1
    ensures CallContext(op).pc == op.callback && CallContext(op).registers[31] == 0xffff_ff00
  {
    CallStands(op);
  }

  /** The comparator is handed the two elements the sort is about to compare. */
  lemma OperandsAre(kind: LibcKind, mem: seq<u8>)
    requires kind.Qsort? && kind.Valid() && kind.Extent() <= |mem|
    ensures var (left, right) := Comparands(kind).value;
            && left + kind.width <= |mem| && right + kind.width <= |mem|
            && Slice(mem, left, kind.width) == Elements(mem, kind.base, kind.elements, kind.width)[kind.inner - 1]
            && Slice(mem, right, kind.width) == Elements(mem, kind.base, kind.elements, kind.width)[kind.inner]
  {
    hide Elements, Comparands, At, Slice;
    ElementAt(mem, kind.base, kind.elements, kind.width, Compared(kind).0);
    ElementAt(mem, kind.base, kind.elements, kind.width, Compared(kind).1);
  }

  lemma EffectMoves(kind: LibcKind, result: int, before: seq<u8>, after: seq<u8>)
    requires kind.Qsort? && kind.Valid() && kind.Extent() <= |before|
    requires Effect(kind, result, before, after)
    ensures |after| == |before| && OnlyWithin(before, after, kind.base, kind.Extent())
    ensures Elements(after, kind.base, kind.elements, kind.width)
            == Moved(Elements(before, kind.base, kind.elements, kind.width), kind.inner, result)
  {
    hide Elements, At, Comparands;
    if result > 0 {
      var (left, right) := Comparands(kind).value;
      ElementAt(before, kind.base, kind.elements, kind.width, Compared(kind).0);
      ExchangeNeighbours(before, after, kind.base, kind.elements, kind.width, Compared(kind).0, left, right);
    }
  }

  /** Every comparison is of a new pair. */
  lemma CountAdvances(kind: LibcKind, result: int, calls: nat)
    requires kind.Qsort? && kind.Valid() && calls <= Pairs(kind.outer) + (kind.outer - kind.inner)
    ensures match After(kind, result)
            case Continue(next) =>
              && next.Qsort? && next.Valid()
              && calls + 1 <= Pairs(next.outer) + (next.outer - next.inner)
              && calls + 2 <= Pairs(kind.elements)
            case Finished(value) => value.None? && calls + 1 <= Pairs(kind.elements)
  {
    PairsGrow(kind.outer + 1, kind.elements);
    if After(kind, result).Continue? {
      PairsGrow(After(kind, result).kind.outer + 1, kind.elements);
    }
  }

  /** One comparator result takes a suspended sort to the next one, or to the sorted array. */
  lemma SortingAdvances(op: LibcOperation, context: CpuContext, e0: seq<Bytes>, before: seq<u8>, after: seq<u8>,
                        calls: nat, compare: Comparator, result: int)
    requires context.Valid() && Sorting(op, context, e0, before, calls, compare)
    requires var e := Elements(before, op.kind.base, op.kind.elements, op.kind.width);
             result == compare(e[op.kind.inner - 1], e[op.kind.inner])
    requires Effect(op.kind, result, before, after)
    ensures |after| == |before| && OnlyWithin(before, after, op.kind.base, op.kind.Extent())
    ensures After(op.kind, result).Continue? ==>
              && Sorting(op.(calls := op.calls + 1, kind := After(op.kind, result).kind), context, e0, after,
                         calls + 1, compare)
              && calls + 2 <= Pairs(|e0|)
    ensures After(op.kind, result).Finished? ==>
              SortFinished(op.kind, After(op.kind, result), e0, after, calls + 1, compare)
  {
    hide SortState, Elements, StableSort, Effect, Moved, Pairs, At, After, OnlyWithin;
    var kind := op.kind;
    EffectMoves(kind, result, before, after);
    SortAdvances(e0, Elements(before, kind.base, kind.elements, kind.width), kind, compare);
    CountAdvances(kind, result, calls);
    if After(kind, result).Continue? {
      AfterValid(kind, result);
      AfterShape(kind, result);
    }
  }

  ghost predicate SortFinished(kind: LibcKind, verdict: Verdict, e0: seq<Bytes>, mem: seq<u8>, calls: nat,
                               compare: Comparator)
    requires kind.Qsort? && kind.Valid() && kind.Extent() <= |mem|
  {
    && verdict == Finished(None) && calls <= Pairs(|e0|)
    && Elements(mem, kind.base, kind.elements, kind.width) == StableSort(e0, compare)
  }

  lemma AfterShape(kind: LibcKind, result: int)
    requires kind.Valid() && kind.Qsort? && After(kind, result).Continue?
    ensures var next := After(kind, result).kind;
            next.Qsort? && next.base == kind.base && next.elements == kind.elements && next.width == kind.width
  {
  }

  /** What a resumption does to RAM it does to what the comparator sees. */
  lemma SeenEffect(kind: LibcKind, result: int, before: seq<u8>, after: seq<u8>, beyond: nat -> u8, extent: int)
    requires kind.Valid() && Reaches(kind, result, |before|) && Effect(kind, result, before, after)
    ensures |after| == |before| && Reaches(kind, result, |Seen(before, beyond, extent)|)
    ensures Effect(kind, result, Seen(before, beyond, extent), Seen(after, beyond, extent))
  {
    hide Comparands;
    if kind.Qsort? && result > 0 {
      var left, right, width := Comparands(kind).value.0, Comparands(kind).value.1, kind.width;
      var all, all' := Seen(before, beyond, extent), Seen(after, beyond, extent);
      assert all'[left..left + width] == after[left..left + width]
             && all[left..left + width] == before[left..left + width];
      assert all'[right..right + width] == after[right..right + width]
             && all[right..right + width] == before[right..right + width];
    }
  }

  /** RAM outside the array is untouched if what the comparator sees outside it is. */
  lemma SeenWithin(before: seq<u8>, after: seq<u8>, beyond: nat -> u8, extent: int, lo: int)
    requires |after| == |before| && OnlyWithin(Seen(before, beyond, extent), Seen(after, beyond, extent), lo, extent)
    ensures OnlyWithin(before, after, lo, extent)
  {
    forall a | 0 <= a < |before| && !(lo <= a < extent)
      ensures after[a] == before[a]
    {
      assert Seen(after, beyond, extent)[a] == after[a] && Seen(before, beyond, extent)[a] == before[a];
    }
  }

  lemma BrokenWithin(kind: LibcKind, result: int, before: seq<u8>, after: seq<u8>)
    requires kind.Qsort? && kind.Valid() && !Reaches(kind, result, |before|) && Broken(kind, before, after)
    ensures OnlyWithin(before, after, kind.base, kind.Extent())
  {
    hide At;
    ghost var inner := kind.inner;
    InOrder(kind.base, inner - 1, inner, kind.width);
  }

  /**
   * Runs `qsort` to completion. `code` says how the guest routine at an address compares; each time the
   * routine runs that the program counter names. It may leave anything in the registers (`clobber`) but its
   * result, and does not write to memory. Where the array reaches beyond RAM it sees what `beyond` says, and
   * the first exchange there ends the call.
   */
  method RunQsort(bios: BiosHle, context: CpuContext, memory: array<u8>, code: u32 -> Comparator,
                  clobber: nat -> CpuContext, beyond: nat -> u8)
    returns (r: Result<CpuContext, BiosError>, calls: nat)
    requires bios.Valid() && bios.operation.None? && context.Valid() && Returnable(code(context.registers[7]))
    requires forall k :: clobber(k).Valid()
    modifies bios`operation, memory
    ensures bios.Valid() && bios.operation.None?
    ensures OnlyWithin(old(memory[..]), memory[..], context.Argument(0), ArrayEnd(context))
    ensures calls <= Pairs(context.Argument(1))
    ensures r.Ok? ==> BackAtCaller(r.value, context, None)
    ensures r.Ok? ==>
              ArrayOf(context, memory[..], beyond)
              == StableSort(ArrayOf(context, old(memory[..]), beyond), code(context.registers[7]))
    ensures r.Ok? ==> bios.CheckArray(context.Argument(0), context.Argument(1), context.Argument(2)).Ok?
    ensures bios.CheckArray(context.Argument(0), context.Argument(1), context.Argument(2)).Ok? ==>
              (ArrayEnd(context) <= memory.Length && Pairs(context.Argument(1)) <= bios.limits.libcCallbackCalls ==>
                 r.Ok?)
  {
    hide Elements, StableSort, Sorting, Effect, Broken, Reaches, After, CallContext, At, Slice, Seen, OnlyWithin;
    hide Returnable, AtComparator, BackAtCaller, GoesOn;
    calls := 0;
    ReturnsBack(context);
    ghost var compare := code(context.registers[7]);
    ghost var n, end := context.Argument(1), ArrayEnd(context);
    ghost var e0 := ArrayOf(context, memory[..], beyond);
    ghost var start := memory[..];
    NothingChanged(start, context.Argument(0), end);
    if n >= 2 {
      assert Pairs(2) == 1;
      PairsGrow(2, n);
    }
    var started := bios.StartQsort(context);
    if started.Err? {
      return Err(started.error), calls;
    }
    if started.value.None? {
      TriviallySorted(Seen(memory[..], beyond, end), context.Argument(0), n, context.Argument(2), compare);
      return Ok(context.Returned()), calls;
    }
    var current := started.value.value;
    SortingStarts(bios.operation.value, context, Seen(memory[..], beyond, end), compare);
    while true
      invariant bios.Valid() && bios.operation.Some? && current == CallContext(bios.operation.value)
      invariant Sorting(bios.operation.value, context, e0, Seen(memory[..], beyond, end), calls, compare)
      invariant OnlyWithin(start, memory[..], context.Argument(0), end)
      invariant calls + 1 <= Pairs(n)
      decreases Pairs(n) - calls
    {
      ghost var before := memory[..];
      var resumed := CompareNext(bios, current, memory, code, clobber(calls), beyond, context, e0, calls);
      calls := calls + 1;
      OnlyWithinOnwards(start, before, memory[..], context.Argument(0), end);
      if resumed.Err? {
        return Err(resumed.error), calls;
      }
      if resumed.value.0 == Return {
        return Ok(resumed.value.1), calls;
      }
      current := resumed.value.1;
    }
  }

  /** One comparison by the routine that the program counter names, and what the sort makes of it. */
  method CompareNext(bios: BiosHle, current: CpuContext, memory: array<u8>, code: u32 -> Comparator, left: CpuContext,
                     beyond: nat -> u8, context: CpuContext, ghost e0: seq<Bytes>, ghost calls: nat)
    returns (resumed: Result<(HleAction, CpuContext), BiosError>)
    requires bios.Valid() && left.Valid() && context.Valid() && Returnable(code(context.registers[7]))
    requires bios.operation.Some? && current == CallContext(bios.operation.value)
    requires Sorting(bios.operation.value, context, e0, Seen(memory[..], beyond, ArrayEnd(context)), calls,
                     code(context.registers[7]))
    modifies bios`operation, memory
    ensures bios.Valid() && OnlyWithin(old(memory[..]), memory[..], context.Argument(0), ArrayEnd(context))
    ensures calls + 1 <= Pairs(context.Argument(1))
    ensures resumed.Ok? && resumed.value.0 == Call ==>
              && bios.operation.Some? && resumed.value.1 == CallContext(bios.operation.value)
              && calls + 2 <= Pairs(context.Argument(1))
              && Sorting(bios.operation.value, context, e0, Seen(memory[..], beyond, ArrayEnd(context)), calls + 1,
                         code(context.registers[7]))
    ensures resumed.Ok? && resumed.value.0 == Return ==>
              && bios.operation.None? && BackAtCaller(resumed.value.1, context, None)
              && ArrayOf(context, memory[..], beyond) == StableSort(e0, code(context.registers[7]))
    ensures resumed.Err? ==> bios.operation.None?
    ensures resumed.Err? ==>
              ArrayEnd(context) > memory.Length || Pairs(context.Argument(1)) > bios.limits.libcCallbackCalls
  {
    hide Elements, StableSort, Sorting, Effect, Broken, Reaches, After, CallContext, At, Slice, Seen, OnlyWithin;
    hide Returnable, AtComparator, BackAtCaller, GoesOn, Pairs;
    ghost var compare, end := code(context.registers[7]), ArrayEnd(context);
    ghost var op, before := bios.operation.value, memory[..];
    var view := Seen(memory[..], beyond, ArrayEnd(context));
    SortingIs(op, context, e0, view, calls, compare);
    CallOperands(op);
    OperandsAre(op.kind, view);
    assert current.pc == context.registers[7] && current.registers[31] == CALLBACK_RETURN_PC;
    var x := Slice(view, current.registers[A0], context.Argument(2));
    var y := Slice(view, current.registers[A0 + 1], context.Argument(2));
    var result := code(current.pc)(x, y);
    InRange(compare, x, y);
    resumed := bios.ResumeCallback(left.WithResult(ToWord(result)), memory);
    ReturnsBack(context);
    if Reaches(op.kind, result, memory.Length) {
      SeenEffect(op.kind, result, before, memory[..], beyond, end);
      SortingAdvances(op, context, e0, view, Seen(memory[..], beyond, end), calls, compare, result);
      SeenWithin(before, memory[..], beyond, end, context.Argument(0));
    } else {
      CountAdvances(op.kind, result, calls);
      BrokenWithin(op.kind, result, before, memory[..]);
      ReachesAll(op.kind, result);
    }
  }

  /** One past the last byte of the array that a call names. */
  function ArrayEnd(context: CpuContext): int
    requires context.Valid()
  {
    At(context.Argument(0), context.Argument(1), context.Argument(2))
  }

  /** Its elements as the comparator sees them. */
  function ArrayOf(context: CpuContext, mem: seq<u8>, beyond: nat -> u8): (e: seq<Bytes>)
    requires context.Valid()
    ensures |e| == context.Argument(1)
  {
    Elements(Seen(mem, beyond, ArrayEnd(context)), context.Argument(0), context.Argument(1), context.Argument(2))
  }

  lemma NothingChanged(mem: seq<u8>, lo: int, hi: int)
    ensures OnlyWithin(mem, mem, lo, hi)
  {
  }

  lemma OnlyWithinOnwards(a: seq<u8>, b: seq<u8>, c: seq<u8>, lo: int, hi: int)
    requires OnlyWithin(a, b, lo, hi) && OnlyWithin(b, c, lo, hi)
    ensures OnlyWithin(a, c, lo, hi)
  {
  }

  lemma InRange(compare: Comparator, a: Bytes, b: Bytes)
    requires Returnable(compare)
    ensures -0x8000_0000 <= compare(a, b) < 0x8000_0000
  {
  }

  /** An exchange inside the array needs no more RAM than the array. */
  lemma ReachesAll(kind: LibcKind, result: int)
    requires kind.Valid()
    ensures forall length: nat :: kind.Extent() <= length ==> Reaches(kind, result, length)
  {
  }

  lemma ReturnsBack(context: CpuContext)
    requires context.Valid()
    ensures BackAtCaller(context.Returned(), context, None)
  {
  }

  lemma SortingIs(op: LibcOperation, context: CpuContext, e0: seq<Bytes>, mem: seq<u8>, calls: nat, compare: Comparator)
    requires context.Valid() && Sorting(op, context, e0, mem, calls, compare)
    ensures op.kind.Qsort? && op.kind.Valid() && op.kind.Extent() <= |mem|
    ensures op == LibcOperation(context, context.Argument(3), calls + 1, op.kind)
    ensures op.kind.base == context.Argument(0) && op.kind.elements == context.Argument(1) == |e0|
    ensures op.kind.width == context.Argument(2)
    ensures op.kind.inner <= op.kind.outer && calls <= Pairs(op.kind.outer) + (op.kind.outer - op.kind.inner)
  {
  }

  /** Fewer than two elements, or elements of no width, are sorted as they stand. */
  lemma TriviallySorted(mem: seq<u8>, base: nat, count: nat, width: nat, compare: Comparator)
    requires At(base, count, width) <= |mem| && (count < 2 || width == 0)
    ensures Elements(mem, base, count, width) == StableSort(Elements(mem, base, count, width), compare)
  {
    hide Insert;
    var e := Elements(mem, base, count, width);
    if width == 0 {
      NoBytes(mem, base, count);
      SortAlike(e, [], compare);
    } else if count == 1 {
      assert e == [e[0]];
      assert Insert([], e[0], compare) == [e[0]] by { InsertOne(e[0], compare); }
    }
  }

  lemma InsertOne(x: Bytes, compare: Comparator)
    ensures Insert([], x, compare) == [x]
  {
  }

  lemma {:induction false} NoBytes(mem: seq<u8>, base: nat, count: nat)
    requires base <= |mem|
    ensures forall k :: 0 <= k < count ==> Elements(mem, base, count, 0)[k] == []
  {
    if count > 0 {
      NoBytes(mem, base, count - 1);
    }
  }

  lemma SortAlike(e: seq<Bytes>, x: Bytes, compare: Comparator)
    requires forall k :: 0 <= k < |e| ==> e[k] == x
    ensures StableSort(e, compare) == e
  {
    var s := StableSort(e, compare);
    StableSortSorts(e, compare);
    forall k | 0 <= k < |e|
      ensures s[k] == x
    {
      assert s[k] in multiset(e);
    }
  }
}
