/** Value-level view of allocated blocks: layout, free ranges and placement. */
module BlockLayout {
  import opened Machine
  import opened Wrappers
  import opened Alignment
  import opened Slots

  const SYSMEM_QUANTUM: u32 := 256

  datatype Allocation = Allocation(address: u32, size: u32, requestedSize: u32, alignment: u32) {
    function End(): int { address + size }

    predicate Contains(x: int) { address <= x < End() }
  }

  predicate Apart(a: Allocation, b: Allocation)
  {
    a.End() <= b.address || b.End() <= a.address
  }

  /** A live block: in the arena, quantum-sized and aligned as requested. */
  predicate WellFormed(b: Allocation, start: u32, end: u32)
  {
    && start <= b.address && b.End() <= end
    && b.address % SYSMEM_QUANTUM == 0
    && b.size % SYSMEM_QUANTUM == 0
    && 0 < b.requestedSize <= b.size < b.requestedSize + SYSMEM_QUANTUM
    && SYSMEM_QUANTUM <= b.alignment && IsPowerOfTwo(b.alignment)
    && Aligned(b.address, b.alignment)
  }

  predicate Live(slots: seq<Option<Allocation>>, b: Allocation)
  {
    Some(b) in slots
  }

  /** The allocator invariant over its slot table. */
  predicate Disjoint(slots: seq<Option<Allocation>>, start: u32, end: u32)
  {
    && (forall i :: 0 <= i < |slots| && slots[i].Some? ==> WellFormed(slots[i].value, start, end))
    && (forall i, j :: 0 <= i < j < |slots| && slots[i].Some? && slots[j].Some? ==>
                         Apart(slots[i].value, slots[j].value))
  }

  /** `[address, address + size)` lies in the arena and meets no live block. */
  predicate IsFreeRange(slots: seq<Option<Allocation>>, start: u32, end: u32, address: int, size: int)
  {
    && start <= address && address + size <= end
    && forall i :: 0 <= i < |slots| && slots[i].Some? ==>
                     address + size <= slots[i].value.address || slots[i].value.End() <= address
  }

  predicate Fits(slots: seq<Option<Allocation>>, start: u32, end: u32, address: int, size: int, alignment: u32)
    requires alignment > 0
  {
    Aligned(address, alignment) && IsFreeRange(slots, start, end, address, size)
  }

  // ----- Blocks in address order

  function InsertByAddress(bs: seq<Allocation>, b: Allocation): (r: seq<Allocation>)
    ensures multiset(r) == multiset(bs) + multiset{b}
  {
    if bs == [] || b.address <= bs[0].address then [b] + bs
    else
      assert bs == [bs[0]] + bs[1..];
      [bs[0]] + InsertByAddress(bs[1..], b)
  }

  /** `sort_unstable_by_key(address)`. */
  function SortByAddress(bs: seq<Allocation>): (r: seq<Allocation>)
    ensures multiset(r) == multiset(bs)
  {
    if bs == [] then []
    else
      assert bs == bs[..|bs| - 1] + [bs[|bs| - 1]];
      InsertByAddress(SortByAddress(bs[..|bs| - 1]), bs[|bs| - 1])
  }

  function Values(items: seq<(int, Allocation)>): (r: seq<Allocation>)
    ensures |r| == |items|
    ensures forall k :: 0 <= k < |items| ==> r[k] == items[k].1
  {
    seq(|items|, k requires 0 <= k < |items| => items[k].1)
  }

  /** Live blocks in ascending address order. */
  function Blocks(slots: seq<Option<Allocation>>): seq<Allocation>
  {
    SortByAddress(Values(Items(slots, 1)))
  }

  /** Non-overlapping, non-empty blocks laid out left to right inside `[start, end)`. */
  predicate Layout(bs: seq<Allocation>, start: int, end: int)
  {
    && start <= end
    && (forall k :: 0 <= k < |bs| ==> start <= bs[k].address && bs[k].End() <= end && bs[k].size > 0)
    && (forall j, k :: 0 <= j < k < |bs| ==> bs[j].End() <= bs[k].address)
  }

  predicate PairwiseApart(bs: seq<Allocation>)
  {
    && (forall k :: 0 <= k < |bs| ==> bs[k].size > 0)
    && (forall j, k :: 0 <= j < k < |bs| ==> Apart(bs[j], bs[k]))
  }

  /** Each block ends before every later one starts. */
  predicate LeftToRight(bs: seq<Allocation>)
  {
    bs == [] || ((forall x :: x in bs[1..] ==> bs[0].End() <= x.address) && LeftToRight(bs[1..]))
  }

  lemma {:induction false} LeftToRightAt(bs: seq<Allocation>, j: nat, k: nat)
    requires LeftToRight(bs) && j < k < |bs|
    ensures bs[j].End() <= bs[k].address
  {
    if j == 0 {
      assert bs[k] == bs[1..][k - 1];
    } else {
      LeftToRightAt(bs[1..], j - 1, k - 1);
    }
  }

  lemma InsertMembers(bs: seq<Allocation>, b: Allocation)
    ensures forall x :: x in InsertByAddress(bs, b) <==> x in bs || x == b
  {
  }

  lemma {:induction false} InsertKeepsOrder(bs: seq<Allocation>, b: Allocation)
    requires LeftToRight(bs)
    requires b.size > 0
    requires forall x :: x in bs ==> Apart(x, b) && x.size > 0
    ensures LeftToRight(InsertByAddress(bs, b))
  {
    if bs == [] {
    } else if b.address <= bs[0].address {
      assert bs[0] in bs;
      assert ([b] + bs)[1..] == bs;
      forall x | x in bs
        ensures b.End() <= x.address
      {
        if x != bs[0] {
          assert x in bs[1..];
        }
      }
    } else {
      InsertKeepsOrder(bs[1..], b);
      InsertMembers(bs[1..], b);
      var tail := InsertByAddress(bs[1..], b);
      assert ([bs[0]] + tail)[1..] == tail;
      assert bs[0] in bs && bs[0].End() <= b.address;
    }
  }

  lemma InMultiset(xs: seq<Allocation>, ys: seq<Allocation>, x: Allocation)
    requires multiset(xs) == multiset(ys)
    ensures x in xs <==> x in ys
  {
    assert x in xs <==> x in multiset(xs);
    assert x in ys <==> x in multiset(ys);
  }

  lemma {:induction false} SortOrders(bs: seq<Allocation>)
    requires PairwiseApart(bs)
    ensures LeftToRight(SortByAddress(bs))
  {
    if bs != [] {
      var init, last := bs[..|bs| - 1], bs[|bs| - 1];
      SortOrders(init);
      var sorted := SortByAddress(init);
      forall x | x in sorted
        ensures Apart(x, last) && x.size > 0
      {
        InMultiset(sorted, init, x);
        var i :| 0 <= i < |init| && init[i] == x;
        assert Apart(bs[i], bs[|bs| - 1]);
      }
      InsertKeepsOrder(sorted, last);
    }
  }

  lemma LiveAt(slots: seq<Option<Allocation>>, start: u32, end: u32, i: nat)
    requires Disjoint(slots, start, end) && i < |slots| && slots[i].Some?
    ensures slots[i].value.size > 0 && Live(slots, slots[i].value)
  {
  }

  lemma ApartAt(slots: seq<Option<Allocation>>, start: u32, end: u32, i: nat, j: nat)
    requires Disjoint(slots, start, end) && i < j < |slots| && slots[i].Some? && slots[j].Some?
    ensures Apart(slots[i].value, slots[j].value)
  {
  }

  lemma ValuesSpec(slots: seq<Option<Allocation>>, start: u32, end: u32)
    requires Disjoint(slots, start, end)
    ensures PairwiseApart(Values(Items(slots, 1)))
    ensures forall b :: b in Values(Items(slots, 1)) <==> Live(slots, b)
  {
    hide Disjoint, Items, Apart, Live;
    var items := Items(slots, 1);
    var values := Values(items);
    ItemsSpec(slots, 1);
    forall k | 0 <= k < |values|
      ensures values[k].size > 0 && Live(slots, values[k])
    {
      LiveAt(slots, start, end, items[k].0 - 1);
    }
    forall j, k | 0 <= j < k < |values|
      ensures Apart(values[j], values[k])
    {
      ApartAt(slots, start, end, items[j].0 - 1, items[k].0 - 1);
    }
    forall b | Live(slots, b)
      ensures b in values
    {
      LiveListed(slots, b);
    }
  }

  lemma LiveListed(slots: seq<Option<Allocation>>, b: Allocation)
    requires Live(slots, b)
    ensures b in Values(Items(slots, 1))
  {
    hide Items;
    ItemsSpec(slots, 1);
    var items := Items(slots, 1);
    var i :| 0 <= i < |slots| && slots[i] == Some(b);
    assert (1 + i, b) in items;
    var k :| 0 <= k < |items| && items[k] == (1 + i, b);
    assert Values(items)[k] == b;
  }

  lemma LiveWellFormed(slots: seq<Option<Allocation>>, start: u32, end: u32, b: Allocation)
    requires Disjoint(slots, start, end) && Live(slots, b)
    ensures WellFormed(b, start, end)
  {
  }

  /** The sorted view is a left-to-right layout of exactly the live blocks. */
  lemma BlocksSpec(slots: seq<Option<Allocation>>, start: u32, end: u32)
    requires Disjoint(slots, start, end) && start <= end
    ensures Layout(Blocks(slots), start, end)
    ensures forall b :: b in Blocks(slots) <==> Live(slots, b)
  {
    var values, sorted := Values(Items(slots, 1)), Blocks(slots);
    ValuesSpec(slots, start, end);
    SortOrders(values);
    forall b
      ensures b in sorted <==> Live(slots, b)
    {
      InMultiset(sorted, values, b);
    }
    forall k | 0 <= k < |sorted|
      ensures WellFormed(sorted[k], start, end)
    {
      LiveWellFormed(slots, start, end, sorted[k]);
    }
    forall j, k | 0 <= j < k < |sorted|
      ensures sorted[j].End() <= sorted[k].address
    {
      LeftToRightAt(sorted, j, k);
    }
  }

  // ----- Accounting

  function SumSizes(bs: seq<Allocation>): nat
  {
    if bs == [] then 0 else SumSizes(bs[..|bs| - 1]) + bs[|bs| - 1].size
  }

  lemma {:induction false} SumInsert(bs: seq<Allocation>, b: Allocation)
    ensures SumSizes(InsertByAddress(bs, b)) == SumSizes(bs) + b.size
  {
    if bs == [] || b.address <= bs[0].address {
      SumCons(b, bs);
    } else {
      SumInsert(bs[1..], b);
      SumCons(bs[0], InsertByAddress(bs[1..], b));
      SumCons(bs[0], bs[1..]);
      assert [bs[0]] + bs[1..] == bs;
    }
  }

  lemma {:induction false} SumCons(b: Allocation, bs: seq<Allocation>)
    ensures SumSizes([b] + bs) == b.size + SumSizes(bs)
  {
    if bs == [] {
      assert [b] + bs == [b];
      assert [b][..0] == [];
    } else {
      SumCons(b, bs[..|bs| - 1]);
      assert ([b] + bs)[..|bs|] == [b] + bs[..|bs| - 1];
    }
  }

  lemma {:induction false} SumSort(bs: seq<Allocation>)
    ensures SumSizes(SortByAddress(bs)) == SumSizes(bs)
  {
    if bs != [] {
      SumSort(bs[..|bs| - 1]);
      SumInsert(SortByAddress(bs[..|bs| - 1]), bs[|bs| - 1]);
    }
  }

  function Interval(lo: int, hi: int): (r: set<int>)
    requires lo <= hi
    ensures forall x :: x in r <==> lo <= x < hi
    ensures |r| == hi - lo
    decreases hi - lo
  {
    if lo == hi then {} else Interval(lo, hi - 1) + {hi - 1}
  }

  predicate Covered(bs: seq<Allocation>, x: int)
  {
    exists b :: b in bs && b.Contains(x)
  }

  /** Bytes of `[start, end)` that belong to no block. */
  function Uncovered(bs: seq<Allocation>, start: int, end: int): set<int>
    requires start <= end
  {
    set x | x in Interval(start, end) && !Covered(bs, x)
  }

  function FreeBytes(slots: seq<Option<Allocation>>, start: u32, end: u32): set<int>
    requires start <= end
  {
    set x | x in Interval(start, end) && IsFreeRange(slots, start, end, x, 1)
  }

  lemma UncoveredSplit(init: seq<Allocation>, last: Allocation, start: int, end: int)
    requires Layout(init + [last], start, end)
    requires start <= last.address && last.End() <= end
    ensures Uncovered(init + [last], start, end) == Uncovered(init, start, last.address) + Interval(last.End(), end)
  {
    var bs := init + [last];
    assert bs[|init|] == last;
    forall x | x in Interval(start, end)
      ensures Covered(bs, x) <==> Covered(init, x) || last.Contains(x)
    {
      assert last in bs;
      assert forall b :: b in bs <==> b in init || b == last;
    }
    forall b, x | b in init && b.Contains(x)
      ensures x < last.address
    {
      var k :| 0 <= k < |init| && init[k] == b;
      assert bs[k] == b && bs[k].End() <= bs[|init|].address;
    }
  }

  /** Conservation: block sizes and uncovered bytes add up to the arena. */
  lemma {:induction false} LayoutConserves(bs: seq<Allocation>, start: int, end: int)
    requires Layout(bs, start, end)
    ensures SumSizes(bs) + |Uncovered(bs, start, end)| == end - start
    decreases |bs|
  {
    if bs == [] {
      assert Uncovered(bs, start, end) == Interval(start, end);
    } else {
      var init, last := bs[..|bs| - 1], bs[|bs| - 1];
      assert bs == init + [last];
      assert forall k :: 0 <= k < |init| ==> init[k] == bs[k];
      LayoutConserves(init, start, last.address);
      UncoveredSplit(init, last, start, end);
      assert Uncovered(init, start, last.address) !! Interval(last.End(), end);
    }
  }

  /** The sizes the allocator sums and the free bytes of its arena partition the arena. */
  lemma FreePlusLive(slots: seq<Option<Allocation>>, start: u32, end: u32)
    requires Disjoint(slots, start, end) && start <= end
    ensures SumSizes(Values(Items(slots, 1))) + |FreeBytes(slots, start, end)| == end - start
  {
    var bs := Blocks(slots);
    BlocksSpec(slots, start, end);
    LayoutConserves(bs, start, end);
    SumSort(Values(Items(slots, 1)));
    forall x | x in Interval(start, end)
      ensures Covered(bs, x) <==> !IsFreeRange(slots, start, end, x, 1)
    {
      FreeRangeInLayout(slots, start, end, x, 1);
      assert Covered(bs, x) <==> exists k :: 0 <= k < |bs| && bs[k].Contains(x);
    }
    assert Uncovered(bs, start, end) == FreeBytes(slots, start, end);
  }

  /** Free ranges read off the sorted view. */
  lemma FreeRangeInLayout(slots: seq<Option<Allocation>>, start: u32, end: u32, address: int, size: int)
    requires Disjoint(slots, start, end) && start <= end
    ensures IsFreeRange(slots, start, end, address, size) <==>
            && start <= address && address + size <= end
            && forall k :: 0 <= k < |Blocks(slots)| ==>
                             address + size <= Blocks(slots)[k].address || Blocks(slots)[k].End() <= address
  {
    var bs := Blocks(slots);
    BlocksSpec(slots, start, end);
    if IsFreeRange(slots, start, end, address, size) {
      forall k | 0 <= k < |bs|
        ensures address + size <= bs[k].address || bs[k].End() <= address
      {
        assert Live(slots, bs[k]);
      }
    }
    if && start <= address && address + size <= end
       && forall k :: 0 <= k < |bs| ==> address + size <= bs[k].address || bs[k].End() <= address
    {
      forall i | 0 <= i < |slots| && slots[i].Some?
        ensures address + size <= slots[i].value.address || slots[i].value.End() <= address
      {
        assert Live(slots, slots[i].value);
        assert slots[i].value in bs;
      }
    }
  }

  /** Filling an empty slot with a free block keeps the invariant. */
  lemma InsertDisjoint(slots: seq<Option<Allocation>>, start: u32, end: u32, i: nat, b: Allocation)
    requires Disjoint(slots, start, end)
    requires i < |slots| && slots[i].None?
    requires WellFormed(b, start, end) && IsFreeRange(slots, start, end, b.address, b.size)
    ensures Disjoint(slots[i := Some(b)], start, end)
  {
  }
}

/** The system-memory allocator: optimal placement, disjoint blocks, and refusals that change nothing. */
module Allocator {
  import opened Machine
  import opened Wrappers
  import opened KernelErrors
  import opened Alignment
  import opened Slots
  import opened BlockLayout
  import Table

  const MAX_ALLOCATIONS := 256

  datatype AllocationMode = First | Last | Address

  function RoundUp(size: u32): Option<u32>
  {
    AlignUp(size, SYSMEM_QUANTUM)
  }

  lemma QuantumIsPower()
    ensures IsPowerOfTwo(SYSMEM_QUANTUM)
  {
  }

  class SystemMemory {
    const start: u32
    const end: u32
    const table: Table.FixedTable<Allocation>

    ghost predicate Valid()
      reads this, table, table.entries
    {
      && 0 < start < end
      && start % SYSMEM_QUANTUM == 0 && end % SYSMEM_QUANTUM == 0
      && table.firstId == 1
      && table.entries.Length == MAX_ALLOCATIONS
      && table.Valid()
      && Disjoint(table.View(), start, end)
    }

    ghost function Repr(): set<object> { {table, table.entries} }

    ghost function View(): seq<Option<Allocation>>
      reads table.entries
    {
      table.View()
    }

    constructor (start: u32, end: u32)
      requires 0 < start < end && start % SYSMEM_QUANTUM == 0 && end % SYSMEM_QUANTUM == 0
      ensures Valid() && fresh(Repr())
      ensures this.start == start && this.end == end
      ensures forall i :: 0 <= i < |View()| ==> View()[i].None?
    {
      this.start, this.end := start, end;
      table := new Table.FixedTable(1, MAX_ALLOCATIONS);
    }

    /** Refused exactly for bounds that `Valid` excludes. */
    static method Create(start: u32, end: u32) returns (r: Result<SystemMemory, KernelError>)
      ensures r.Ok? <==> 0 < start < end && start % SYSMEM_QUANTUM == 0 && end % SYSMEM_QUANTUM == 0
      ensures r.Ok? ==> r.value.Valid() && fresh(r.value) && fresh(r.value.Repr())
      ensures r.Ok? ==> r.value.start == start && r.value.end == end
      ensures r.Ok? ==> forall i :: 0 <= i < |r.value.View()| ==> r.value.View()[i].None?
    {
      if start == 0 || start >= end || start % SYSMEM_QUANTUM != 0 || end % SYSMEM_QUANTUM != 0 {
        return Err(IllegalObject);
      }
      var memory := new SystemMemory(start, end);
      return Ok(memory);
    }

    method Reset()
      requires Valid()
      modifies Repr()
      ensures Valid()
      ensures forall i :: 0 <= i < |View()| ==> View()[i].None?
    {
      table.Clear();
    }

    /** The layout that `Blocks` makes of the slot table. */
    method Allocations() returns (blocks: seq<Allocation>)
      requires Valid()
      ensures blocks == Blocks(View())
    {
      var items := table.Iter();
      blocks := SortByAddress(Values(items));
    }

    /** Lowest aligned address at which `size` bytes are free. */
    method FindFirst(size: u32, alignment: u32) returns (found: Option<u32>)
      requires Valid() && size > 0 && IsPowerOfTwo(alignment)
      ensures found.Some? ==> Fits(View(), start, end, found.value, size, alignment)
      ensures found.Some? ==> forall a :: Fits(View(), start, end, a, size, alignment) ==> found.value <= a
      ensures found.None? ==> forall a :: !Fits(View(), start, end, a, size, alignment)
    {
      hide Disjoint, Fits, IsFreeRange, AtOrAbove;
      var first := AlignUp(start, alignment);
      StartBound(View(), start, end, size, alignment);
      if first.None? {
        return None;
      }
      AlignUpLeast(start, alignment);
      var cursor: u32 := first.value;
      var blocks := Allocations();
      for i := 0 to |blocks|
        invariant start <= cursor && Aligned(cursor, alignment)
        invariant forall k :: 0 <= k < i ==> blocks[k].End() <= cursor
        invariant AtOrAbove(View(), start, end, size, alignment, cursor)
      {
        if cursor + size >= U32_LIMIT {
          TooHigh(View(), start, end, size, alignment, cursor);
          return None;
        }
        if cursor + size <= blocks[i].address {
          LowestAbove(View(), start, end, size, alignment, cursor, i);
          return Some(cursor);
        }
        SkipBlock(View(), start, end, size, alignment, cursor, i);
        var past: u32 := Max(cursor, blocks[i].End());
        var next := AlignUp(past, alignment);
        if next.None? {
          return None;
        }
        AlignUpLeast(past, alignment);
        cursor := next.value;
      }
      if cursor + size >= U32_LIMIT || cursor + size > end {
        TooHigh(View(), start, end, size, alignment, cursor);
        return None;
      }
      LowestAbove(View(), start, end, size, alignment, cursor, |blocks|);
      return Some(cursor);
    }

    /** Highest aligned address at which `size` bytes are free. */
    method FindLast(size: u32, alignment: u32) returns (found: Option<u32>)
      requires Valid() && size > 0 && IsPowerOfTwo(alignment)
      ensures found.Some? ==> Fits(View(), start, end, found.value, size, alignment)
      ensures found.Some? ==> forall a :: Fits(View(), start, end, a, size, alignment) ==> a <= found.value
      ensures found.None? ==> forall a :: !Fits(View(), start, end, a, size, alignment)
    {
      hide Disjoint, Fits, IsFreeRange, AtOrBelow, Ceiling, IsPowerOfTwo, Blocks;
      PowerPositive(alignment);
      var boundary := end;
      var blocks := Allocations();
      EndBound(View(), start, end, size, alignment);
      var i := |blocks|;
      while i > 0
        invariant 0 <= i <= |blocks| && 0 <= boundary <= end
        invariant Ceiling(View(), i, boundary)
        invariant AtOrBelow(View(), start, end, size, alignment, boundary)
      {
        i := i - 1;
        if boundary < size {
          TooLow(View(), start, end, size, alignment, boundary);
          return None;
        }
        var candidate := AlignDown(boundary - size, alignment);
        if candidate >= blocks[i].End() {
          HighestBelow(View(), start, end, size, alignment, boundary, i + 1);
          return Some(candidate);
        }
        SkipBlockDown(View(), start, end, size, alignment, boundary, i);
        boundary := Min(boundary, blocks[i].address);
      }
      if boundary < size {
        TooLow(View(), start, end, size, alignment, boundary);
        return None;
      }
      var candidate := AlignDown(boundary - size, alignment);
      HighestBelow(View(), start, end, size, alignment, boundary, 0);
      if candidate < start {
        return None;
      }
      return Some(candidate);
    }

    method IsFree(address: u32, size: u32) returns (free: bool)
      requires Valid()
      ensures free == IsFreeRange(View(), start, end, address, size)
    {
      if address + size >= U32_LIMIT || address < start || end < address + size {
        return false;
      }
      var items := table.Iter();
      ItemsSpec(table.View(), 1);
      for k := 0 to |items|
        invariant forall j :: 0 <= j < k ==> address + size <= items[j].1.address || items[j].1.End() <= address
      {
        var block := items[k].1;
        if !(address + size <= block.address || address >= block.End()) {
          assert table.View()[items[k].0 - 1] == Some(block);
          return false;
        }
      }
      forall i | 0 <= i < |View()| && View()[i].Some?
        ensures address + size <= View()[i].value.address || View()[i].value.End() <= address
      {
        assert (1 + i, View()[i].value) in items;
      }
      return true;
    }

    /**
     * The one block that the placement rule of `mode` allows, in the first free slot, or the first refusal that
     * applies.
     */
    method AllocateAligned(mode: AllocationMode, size: u32, address: u32, alignment: u32)
      returns (r: Result<Allocation, KernelError>)
      requires Valid()
      modifies Repr()
      ensures Valid()
      ensures r.Err? ==> View() == old(View())
      ensures r.Ok? ==> Reserved(old(View()), View(), start, end, size, alignment, r.value)
      ensures r.Ok? ==> Placed(old(View()), start, end, mode, address, r.value)
      ensures Refusal(old(View()), mode, size, address, alignment).Some? ==>
                r == Err(Refusal(old(View()), mode, size, address, alignment).value)
      ensures Refusal(old(View()), mode, size, address, alignment).None? && r.Err? ==> r.error == NoMemory
      ensures Refusal(old(View()), mode, size, address, alignment).None? ==>
                (r.Ok? <==> Satisfiable(old(View()), start, end, mode, RoundUp(size).value, address, alignment))
    {
      if size == 0 {
        return Err(IllegalSize);
      }
      if alignment < SYSMEM_QUANTUM || !IsPowerOfTwo(alignment) {
        return Err(IllegalObject);
      }
      var nextId := table.NextId();
      if nextId.None? {
        return Err(NoMemory);
      }
      var reserved := RoundUp(size);
      if reserved.None? {
        return Err(IllegalSize);
      }
      AlignUpLeast(size, SYSMEM_QUANTUM);
      var selected: Option<u32>;
      match mode {
        case First => selected := FindFirst(reserved.value, alignment);
        case Last => selected := FindLast(reserved.value, alignment);
        case Address =>
          if address % alignment != 0 {
            return Err(IllegalObject);
          }
          var free := IsFree(address, reserved.value);
          selected := if free then Some(address) else None;
      }
      if selected.None? {
        return Err(NoMemory);
      }
      var block := Allocation(selected.value, reserved.value, size, alignment);
      QuantumIsPower();
      AlignedDownward(selected.value, SYSMEM_QUANTUM, alignment);
      InsertDisjoint(table.View(), start, end, FirstFree(table.View()), block);
      var inserted := table.Insert(block);
      return Ok(block);
    }

    /** The same with the quantum as alignment, so that no refusal is about the alignment. */
    method Allocate(mode: AllocationMode, size: u32, address: u32) returns (r: Result<Allocation, KernelError>)
      requires Valid()
      modifies Repr()
      ensures Valid()
      ensures r.Err? ==> View() == old(View())
      ensures r.Ok? ==> Reserved(old(View()), View(), start, end, size, SYSMEM_QUANTUM, r.value)
      ensures r.Ok? ==> Placed(old(View()), start, end, mode, address, r.value)
      ensures r.Ok? <==>
              && Refusal(old(View()), mode, size, address, SYSMEM_QUANTUM).None?
              && Satisfiable(old(View()), start, end, mode, RoundUp(size).value, address, SYSMEM_QUANTUM)
    {
      r := AllocateAligned(mode, size, address, SYSMEM_QUANTUM);
    }

    /** Frees the block that begins exactly at `address`. */
    method Free(address: u32) returns (r: Result<Allocation, KernelError>)
      requires Valid()
      modifies Repr()
      ensures Valid()
      ensures View() == Released(old(View()), address)
      ensures r.Ok? ==> Live(old(View()), r.value) && r.value.address == address
      ensures r.Err? ==> r.error == IllegalObject && View() == old(View())
      ensures r.Ok? <==> exists b :: Live(old(View()), b) && b.address == address
    {
      var items := table.Iter();
      ghost var slots := table.View();
      ItemsSpec(slots, 1);
      for k := 0 to |items|
        invariant forall j :: 0 <= j < k ==> items[j].1.address != address
      {
        var (id, block) := items[k];
        if block.address == address {
          assert slots[id - 1] == Some(block);
          ReleasedAt(slots, start, end, id - 1);
          ReleaseDisjoint(slots, start, end, address);
          var removed := table.Remove(id);
          return Ok(block);
        }
      }
      NothingReleased(slots, items, address);
      return Err(IllegalObject);
    }

    /** `None` exactly if no live block begins at `address`. */
    method Block(address: u32) returns (r: Option<Allocation>)
      requires Valid()
      ensures r.Some? ==> Live(View(), r.value) && r.value.address == address
      ensures r.None? ==> forall b :: Live(View(), b) ==> b.address != address
    {
      var items := table.Iter();
      ItemsSpec(table.View(), 1);
      for k := 0 to |items|
        invariant forall j :: 0 <= j < k ==> items[j].1.address != address
      {
        if items[k].1.address == address {
          assert table.View()[items[k].0 - 1] == Some(items[k].1);
          return Some(items[k].1);
        }
      }
      NothingReleased(table.View(), items, address);
      return None;
    }

    /** Number of unallocated bytes: the subtraction never underflows and counts exactly the free bytes. */
    method TotalFree() returns (total: u32)
      requires Valid()
      ensures total == |FreeBytes(View(), start, end)|
    {
      var items := table.Iter();
      var sum := 0;
      for k := 0 to |items|
        invariant sum == SumSizes(Values(items)[..k])
      {
        assert Values(items)[..k + 1][..k] == Values(items)[..k];
        sum := sum + items[k].1.size;
      }
      assert Values(items)[..|items|] == Values(items);
      FreePlusLive(View(), start, end);
      return (end - start) - sum;
    }

    /** The live block with the lowest address at or above `cursor`. */
    method LowestFrom(cursor: u32) returns (r: Option<Allocation>)
      requires Valid()
      ensures r.Some? ==> Live(View(), r.value) && cursor <= r.value.address
      ensures r.Some? ==> forall b :: Live(View(), b) && cursor <= b.address ==> r.value.address <= b.address
      ensures r.None? ==> forall b :: Live(View(), b) ==> b.address < cursor
    {
      var items := table.Iter();
      ItemsSpec(table.View(), 1);
      r := None;
      for k := 0 to |items|
        invariant r.Some? ==> Live(View(), r.value) && cursor <= r.value.address
        invariant forall j :: 0 <= j < k && cursor <= items[j].1.address ==>
                                r.Some? && r.value.address <= items[j].1.address
      {
        var block := items[k].1;
        assert table.View()[items[k].0 - 1] == Some(block);
        if cursor <= block.address && (r.None? || block.address < r.value.address) {
          r := Some(block);
        }
      }
      forall b | Live(View(), b) && cursor <= b.address
        ensures r.Some? && r.value.address <= b.address
      {
        var i :| 0 <= i < |View()| && View()[i] == Some(b);
        assert (1 + i, b) in items;
      }
    }

    /** Length of the longest free run. */
    method MaximumFree() returns (maximum: u32)
      requires Valid()
      ensures maximum == 0 || exists a :: IsFreeRange(View(), start, end, a, maximum)
      ensures forall a, n :: IsFreeRange(View(), start, end, a, n) ==> n <= maximum
    {
      maximum := 0;
      var cursor := start;
      ghost var at := start;
      while cursor < end
        invariant start <= cursor <= end
        invariant Divides(View(), cursor)
        invariant maximum == 0 || IsFreeRange(View(), start, end, at, maximum)
        invariant LongestBelow(View(), start, end, cursor, maximum)
        decreases end - cursor
      {
        var next := LowestFrom(cursor);
        if next.None? {
          LastGap(View(), start, end, cursor, maximum);
          if end - cursor > maximum {
            at := cursor;
          }
          maximum := Max(maximum, end - cursor);
          return;
        }
        LiveWellFormed(View(), start, end, next.value);
        Gap(View(), start, end, cursor, maximum, next.value);
        if next.value.address - cursor > maximum {
          at := cursor;
        }
        maximum := Max(maximum, next.value.address - cursor);
        cursor := next.value.End();
      }
    }
  }

  /** The error decided before the arena is searched, in the order the checks run. */
  function Refusal(slots: seq<Option<Allocation>>, mode: AllocationMode, size: u32, address: u32, alignment: u32)
    : Option<KernelError>
  {
    if size == 0 then Some(IllegalSize)
    else if alignment < SYSMEM_QUANTUM || !IsPowerOfTwo(alignment) then Some(IllegalObject)
    else if FirstFree(slots) == |slots| then Some(NoMemory)
    else if RoundUp(size).None? then Some(IllegalSize)
    else if mode.Address? && !Aligned(address, alignment) then Some(IllegalObject)
    else None
  }

  /** Some address satisfies the request; in `Address` mode, the one the caller chose. */
  ghost predicate Satisfiable(slots: seq<Option<Allocation>>, start: u32, end: u32, mode: AllocationMode,
                              reserved: u32, address: u32, alignment: u32)
    requires alignment > 0
  {
    if mode.Address? then IsFreeRange(slots, start, end, address, reserved)
    else exists a :: Fits(slots, start, end, a, reserved, alignment)
  }

  /** The new block took the lowest free slot and a range that was entirely free. */
  ghost predicate Reserved(before: seq<Option<Allocation>>, after: seq<Option<Allocation>>, start: u32, end: u32,
                           size: u32, alignment: u32, b: Allocation)
  {
    && FirstFree(before) < |before|
    && after == before[FirstFree(before) := Some(b)]
    && WellFormed(b, start, end)
    && b.requestedSize == size && b.alignment == alignment
    && IsFreeRange(before, start, end, b.address, b.size)
  }

  /** Placement optimality for each mode. */
  ghost predicate Placed(slots: seq<Option<Allocation>>, start: u32, end: u32, mode: AllocationMode, address: u32,
                         b: Allocation)
    requires b.alignment > 0
  {
    match mode
    case First => forall a :: Fits(slots, start, end, a, b.size, b.alignment) ==> b.address <= a
    case Last => forall a :: Fits(slots, start, end, a, b.size, b.alignment) ==> a <= b.address
    case Address => b.address == address
  }

  lemma ReservedSize(before: seq<Option<Allocation>>, after: seq<Option<Allocation>>, start: u32, end: u32, size: u32,
                     alignment: u32, b: Allocation)
    requires Reserved(before, after, start, end, size, alignment, b)
    ensures RoundUp(size) == Some(b.size) && alignment > 0 && Fits(before, start, end, b.address, b.size, alignment)
  {
    hide IsFreeRange, IsPowerOfTwo, RoundUp;
    RoundsTo(size, b.size);
  }

  lemma RoundsTo(size: u32, rounded: u32)
    requires size <= rounded < size + SYSMEM_QUANTUM && rounded % SYSMEM_QUANTUM == 0
    ensures RoundUp(size) == Some(rounded)
  {
    var bumped := size + SYSMEM_QUANTUM - 1;
    assert rounded / SYSMEM_QUANTUM == bumped / SYSMEM_QUANTUM;
  }

  /** A block that could be reserved shows that the request is granted, */
  lemma CanReserve(before: seq<Option<Allocation>>, after: seq<Option<Allocation>>, start: u32, end: u32,
                   mode: AllocationMode, size: u32, address: u32, alignment: u32, b: Allocation)
    requires Reserved(before, after, start, end, size, alignment, b) && Placed(before, start, end, mode, address, b)
    ensures Refusal(before, mode, size, address, alignment).None?
    ensures Satisfiable(before, start, end, mode, RoundUp(size).value, address, alignment)
  {
    hide IsFreeRange;
    ReservedSize(before, after, start, end, size, alignment, b);
  }

  /** and the placement rule leaves one block to grant it with. */
  lemma SameBlock(before: seq<Option<Allocation>>, a: seq<Option<Allocation>>, b: seq<Option<Allocation>>, start: u32,
                  end: u32, mode: AllocationMode, size: u32, address: u32, alignment: u32, x: Allocation, y: Allocation)
    requires Reserved(before, a, start, end, size, alignment, x) && Placed(before, start, end, mode, address, x)
    requires Reserved(before, b, start, end, size, alignment, y) && Placed(before, start, end, mode, address, y)
    ensures x == y && a == b
  {
    hide IsFreeRange, RoundUp, Fits;
    ReservedSize(before, a, start, end, size, alignment, x);
    ReservedSize(before, b, start, end, size, alignment, y);
  }

  /** The slot table without the blocks that begin at `address`. */
  function Released(slots: seq<Option<Allocation>>, address: int): (r: seq<Option<Allocation>>)
    ensures |r| == |slots|
  {
    seq(|slots|, i requires 0 <= i < |slots| =>
      if slots[i].Some? && slots[i].value.address == address then None else slots[i])
  }

  lemma ReleasedAt(slots: seq<Option<Allocation>>, start: u32, end: u32, i: nat)
    requires Disjoint(slots, start, end) && i < |slots| && slots[i].Some?
    ensures Released(slots, slots[i].value.address) == slots[i := None]
  {
  }

  lemma ReleaseDisjoint(slots: seq<Option<Allocation>>, start: u32, end: u32, address: int)
    requires Disjoint(slots, start, end)
    ensures Disjoint(Released(slots, address), start, end)
  {
  }

  lemma NothingReleased(slots: seq<Option<Allocation>>, items: seq<(u32, Allocation)>, address: int)
    requires items == Items(slots, 1)
    requires forall k :: 0 <= k < |items| ==> items[k].1.address != address
    ensures forall b :: Live(slots, b) ==> b.address != address
    ensures Released(slots, address) == slots
  {
    ItemsSpec(slots, 1);
    forall i | 0 <= i < |slots| && slots[i].Some?
      ensures slots[i].value.address != address
    {
      assert (1 + i, slots[i].value) in items;
    }
  }

  /** Freeing what was just allocated restores the slot table exactly. */
  lemma AllocateThenFree(before: seq<Option<Allocation>>, after: seq<Option<Allocation>>, start: u32, end: u32,
                         size: u32, alignment: u32, b: Allocation)
    requires Disjoint(before, start, end)
    requires Reserved(before, after, start, end, size, alignment, b)
    ensures Released(after, b.address) == before
  {
  }

  /** No block straddles `cursor`. */
  ghost predicate Divides(slots: seq<Option<Allocation>>, cursor: int)
  {
    forall b :: Live(slots, b) ==> b.End() <= cursor || cursor <= b.address
  }

  ghost predicate LongestBelow(slots: seq<Option<Allocation>>, start: u32, end: u32, cursor: int, maximum: int)
  {
    forall a, n :: IsFreeRange(slots, start, end, a, n) && n > 0 && a < cursor ==> n <= maximum
  }

  lemma Gap(slots: seq<Option<Allocation>>, start: u32, end: u32, cursor: u32, maximum: u32, next: Allocation)
    requires Disjoint(slots, start, end) && start <= cursor < end
    requires Divides(slots, cursor) && LongestBelow(slots, start, end, cursor, maximum)
    requires Live(slots, next) && cursor <= next.address
    requires forall b :: Live(slots, b) && cursor <= b.address ==> next.address <= b.address
    ensures Divides(slots, next.End())
    ensures LongestBelow(slots, start, end, next.End(), Max(maximum, next.address - cursor))
    ensures cursor < next.address ==> IsFreeRange(slots, start, end, cursor, next.address - cursor)
  {
  }

  lemma LastGap(slots: seq<Option<Allocation>>, start: u32, end: u32, cursor: u32, maximum: u32)
    requires Disjoint(slots, start, end) && start <= cursor < end
    requires Divides(slots, cursor) && LongestBelow(slots, start, end, cursor, maximum)
    requires forall b :: Live(slots, b) ==> b.address < cursor
    ensures forall a, n :: IsFreeRange(slots, start, end, a, n) ==> n <= Max(maximum, end - cursor)
    ensures IsFreeRange(slots, start, end, cursor, end - cursor)
  {
  }

  /** Every address where the request fits is at or above `floor`. */
  ghost predicate AtOrAbove(slots: seq<Option<Allocation>>, start: u32, end: u32, size: u32, alignment: u32, floor: int)
    requires alignment > 0
  {
    forall a :: Fits(slots, start, end, a, size, alignment) ==> floor <= a
  }

  /** Every range where the request fits ends at or below `ceiling`. */
  ghost predicate AtOrBelow(slots: seq<Option<Allocation>>, start: u32, end: u32, size: u32, alignment: u32,
                            ceiling: int)
    requires alignment > 0
  {
    forall a :: Fits(slots, start, end, a, size, alignment) ==> a + size <= ceiling
  }

  /** Raising the floor to the next aligned address loses no candidate; overflow means there is none. */
  lemma RaiseFloor(slots: seq<Option<Allocation>>, start: u32, end: u32, size: u32, alignment: u32, floor: u32)
    requires IsPowerOfTwo(alignment)
    requires AtOrAbove(slots, start, end, size, alignment, floor)
    ensures AlignUp(floor, alignment).Some? ==>
              AtOrAbove(slots, start, end, size, alignment, AlignUp(floor, alignment).value)
    ensures AlignUp(floor, alignment).None? ==> forall a :: !Fits(slots, start, end, a, size, alignment)
  {
    forall a | Fits(slots, start, end, a, size, alignment)
      ensures AlignUp(floor, alignment).Some? && AlignUp(floor, alignment).value <= a
    {
      if AlignUp(floor, alignment).None? {
        AlignUpOverflow(floor, alignment, a);
      } else {
        AlignUpLeast(floor, alignment);
      }
    }
  }

  lemma StartBound(slots: seq<Option<Allocation>>, start: u32, end: u32, size: u32, alignment: u32)
    requires IsPowerOfTwo(alignment)
    ensures AlignUp(start, alignment).Some? ==>
              AtOrAbove(slots, start, end, size, alignment, AlignUp(start, alignment).value)
    ensures AlignUp(start, alignment).None? ==> forall a :: !Fits(slots, start, end, a, size, alignment)
  {
    RaiseFloor(slots, start, end, size, alignment, start);
  }

  lemma TooHigh(slots: seq<Option<Allocation>>, start: u32, end: u32, size: u32, alignment: u32, floor: u32)
    requires alignment > 0 && floor + size > end && AtOrAbove(slots, start, end, size, alignment, floor)
    ensures forall a :: !Fits(slots, start, end, a, size, alignment)
  {
  }

  /**
   * An aligned floor between two blocks, or behind the last, is the lowest fit once the request clears what
   * follows.
   */
  lemma LowestAbove(slots: seq<Option<Allocation>>, start: u32, end: u32, size: u32, alignment: u32, floor: u32, i: nat)
    requires Disjoint(slots, start, end) && start <= floor && alignment > 0 && Aligned(floor, alignment)
    requires i <= |Blocks(slots)| && AtOrAbove(slots, start, end, size, alignment, floor)
    requires forall k :: 0 <= k < i ==> Blocks(slots)[k].End() <= floor
    requires floor + size <= if i < |Blocks(slots)| then Blocks(slots)[i].address else end
    requires start <= end
    ensures Fits(slots, start, end, floor, size, alignment)
    ensures forall a :: Fits(slots, start, end, a, size, alignment) ==> floor <= a
  {
    BlocksSpec(slots, start, end);
    FreeRangeInLayout(slots, start, end, floor, size);
  }

  /** When the candidate at the floor runs into block `i`, every fit lies past that block. */
  lemma SkipBlock(slots: seq<Option<Allocation>>, start: u32, end: u32, size: u32, alignment: u32, floor: u32, i: nat)
    requires Disjoint(slots, start, end) && start <= end && IsPowerOfTwo(alignment)
    requires i < |Blocks(slots)| && floor + size > Blocks(slots)[i].address
    requires AtOrAbove(slots, start, end, size, alignment, floor)
    ensures Blocks(slots)[i].End() < U32_LIMIT
    ensures var past := Max(floor, Blocks(slots)[i].End());
            && (AlignUp(past, alignment).Some? ==>
                  AtOrAbove(slots, start, end, size, alignment, AlignUp(past, alignment).value))
            && (AlignUp(past, alignment).None? ==> forall a :: !Fits(slots, start, end, a, size, alignment))
  {
    BlocksSpec(slots, start, end);
    var past := Max(floor, Blocks(slots)[i].End());
    forall a | Fits(slots, start, end, a, size, alignment)
      ensures past <= a
    {
      FreeRangeInLayout(slots, start, end, a, size);
    }
    RaiseFloor(slots, start, end, size, alignment, past);
  }

  /** Blocks from index `i` upward start at or above the ceiling. */
  ghost predicate Ceiling(slots: seq<Option<Allocation>>, i: nat, ceiling: int)
  {
    forall k :: i <= k < |Blocks(slots)| ==> ceiling <= Blocks(slots)[k].address
  }

  lemma EndBound(slots: seq<Option<Allocation>>, start: u32, end: u32, size: u32, alignment: u32)
    requires alignment > 0
    ensures Ceiling(slots, |Blocks(slots)|, end) && AtOrBelow(slots, start, end, size, alignment, end)
  {
  }

  lemma TooLow(slots: seq<Option<Allocation>>, start: u32, end: u32, size: u32, alignment: u32, ceiling: u32)
    requires alignment > 0 && ceiling < size && AtOrBelow(slots, start, end, size, alignment, ceiling)
    ensures forall a :: !Fits(slots, start, end, a, size, alignment)
  {
  }

  /** The aligned candidate under the ceiling is the highest fit once it clears the next block down. */
  lemma HighestBelow(slots: seq<Option<Allocation>>, start: u32, end: u32, size: u32, alignment: u32, ceiling: u32,
                     i: nat)
    requires Disjoint(slots, start, end) && start <= end && alignment > 0 && size <= ceiling <= end
    requires i <= |Blocks(slots)| && Ceiling(slots, i, ceiling)
    requires AtOrBelow(slots, start, end, size, alignment, ceiling)
    ensures var candidate := AlignDown(ceiling - size, alignment);
            && (forall a :: Fits(slots, start, end, a, size, alignment) ==> a <= candidate)
            && (i == 0 && candidate < start ==> forall a :: !Fits(slots, start, end, a, size, alignment))
            && ((if i == 0 then start <= candidate else Blocks(slots)[i - 1].End() <= candidate) ==>
                  Fits(slots, start, end, candidate, size, alignment))
  {
    var candidate := AlignDown(ceiling - size, alignment);
    AlignDownGreatest(ceiling - size, alignment);
    BlocksSpec(slots, start, end);
    FreeRangeInLayout(slots, start, end, candidate, size);
  }

  lemma SkipBlockDown(slots: seq<Option<Allocation>>, start: u32, end: u32, size: u32, alignment: u32, ceiling: u32,
                      i: nat)
    requires Disjoint(slots, start, end) && start <= end && alignment > 0 && size <= ceiling
    requires i < |Blocks(slots)| && AlignDown(ceiling - size, alignment) < Blocks(slots)[i].End()
    requires Ceiling(slots, i + 1, ceiling)
    requires AtOrBelow(slots, start, end, size, alignment, ceiling)
    ensures AtOrBelow(slots, start, end, size, alignment, Min(ceiling, Blocks(slots)[i].address))
    ensures Ceiling(slots, i, Min(ceiling, Blocks(slots)[i].address))
  {
    AlignDownGreatest(ceiling - size, alignment);
    BlocksSpec(slots, start, end);
    forall a | Fits(slots, start, end, a, size, alignment)
      ensures a + size <= Blocks(slots)[i].address
    {
      FreeRangeInLayout(slots, start, end, a, size);
    }
  }
}
