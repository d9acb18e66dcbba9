/** Runs of the allocation services. */
module HeapRuns {
  import opened Machine
  import opened Wrappers
  import opened Libc
  import opened Heap
  import opened HeapServices

  datatype HeapCall =
    | Initialize(start: u32, size: u32)
    | Allocate(size: u32)
    | AllocateCleared(count: u32, elementSize: u32)
    | Resize(address: u32, size: u32)
    | Release(address: u32)
  {
    /** Whether the call is about the block at `at`. */
    predicate Names(at: u32)
    {
      match this
      case Initialize(_, _) => true
      case Allocate(_) => false
      case AllocateCleared(_, _) => false
      case Resize(address, _) => address == at
      case Release(address) => address == at
    }
  }

  /** The block is live in both states, with the same bytes as far as they lie in memory. */
  ghost predicate Survives(b: HeapBlock, before: Option<GuestHeap>, after: Option<GuestHeap>, mem: seq<u8>,
                           mem': seq<u8>)
  {
    && before.Some? && b in before.value.blocks && after.Some? && b in after.value.blocks
    && SameBytes(mem, b.address, mem', b.address, b.size)
  }

  ghost predicate LiveIn(b: HeapBlock, heap: Option<GuestHeap>) { heap.Some? && b in heap.value.blocks }

  /** One call, whatever its outcome: the block list stays valid, and blocks the call does not name keep their bytes. */
  method Perform(services: Services, memory: array<u8>, call: HeapCall)
    requires services.Valid()
    modifies services`heap, memory
    ensures services.Valid()
    ensures forall b :: LiveIn(b, old(services.heap)) && !call.Names(b.address) ==>
                          Survives(b, old(services.heap), services.heap, old(memory[..]), memory[..])
  {
    hide Inserted, Zeroed, Copied, GuestHeap.Fits, SameBytes, Callocs, Reallocs, FreeFromHeap;
    ghost var before, mem := services.heap, memory[..];
    match call {
      case Initialize(start, size) => var _ := services.InitializeHeap(start, size);
      case Allocate(size) =>
        var r := services.Malloc(size);
        AllocationKeeps(before, services.heap, mem, size, r);
      case AllocateCleared(count, elementSize) =>
        var r, granted := services.Calloc(count, elementSize, memory);
        CallocKeeps(services.limits, before, services.heap, mem, memory[..], count * elementSize, r, granted);
      case Resize(address, size) =>
        var r, granted := services.Realloc(address, size, memory);
        ReallocKeeps(services.limits, before, services.heap, mem, memory[..], address, size, r, granted);
      case Release(address) =>
        services.Free(address);
        ReleaseKeeps(before, services.heap, mem, address);
    }
  }

  /** Any run keeps the block list valid and all blocks that no call names, bytes included. */
  method Run(services: Services, memory: array<u8>, calls: seq<HeapCall>)
    requires services.Valid()
    modifies services`heap, memory
    ensures services.Valid()
    ensures forall b :: LiveIn(b, old(services.heap)) && (forall c :: c in calls ==> !c.Names(b.address)) ==>
                          Survives(b, old(services.heap), services.heap, old(memory[..]), memory[..])
  {
    for k := 0 to |calls|
      invariant services.Valid() && |memory[..]| == |old(memory[..])|
      invariant forall b :: LiveIn(b, old(services.heap)) && (forall c :: c in calls ==> !c.Names(b.address)) ==>
                              Survives(b, old(services.heap), services.heap, old(memory[..]), memory[..])
    {
      Perform(services, memory, calls[k]);
      assert calls[k] in calls;
    }
  }

  lemma AllocationKeeps(before: Option<GuestHeap>, after: Option<GuestHeap>, mem: seq<u8>, size: u32,
                        r: Result<u32, BiosError>)
    requires (before.Some? ==> before.value.Valid()) && Allocates(before, after, size, r)
    ensures forall b :: LiveIn(b, before) ==> Survives(b, before, after, mem, mem)
  {
    hide InsertAt, Inserted, GuestHeap.Fits;
    if r.Ok? {
      InsertedMembers(before.value, after.value, HeapBlock(r.value, BlockSize(size).value));
    }
  }

  lemma CallocKeeps(limits: HleLimits, before: Option<GuestHeap>, after: Option<GuestHeap>, mem: seq<u8>, mem': seq<u8>,
                    size: int, r: Result<u32, BiosError>, granted: Option<u32>)
    requires (before.Some? ==> before.value.Valid()) && Callocs(limits, before, after, mem, mem', size, r, granted)
    ensures forall b :: LiveIn(b, before) ==> Survives(b, before, after, mem, mem')
  {
    hide Inserted, SameBytes;
    if granted.Some? {
      AllocationKeeps(before, after, mem, size, Ok(granted.value));
      forall b | LiveIn(b, before)
        ensures SameBytes(mem, b.address, mem', b.address, b.size)
      {
        ClearedApart(before.value, b, granted.value, size, mem, mem');
      }
    } else if 0 <= size < U32_LIMIT && size <= limits.memoryOperationBytes {
      AllocationKeeps(before, after, mem, size, r);
    } else {
      Unchanged(before, mem);
    }
  }

  lemma Unchanged(heap: Option<GuestHeap>, mem: seq<u8>)
    ensures forall b :: LiveIn(b, heap) ==> Survives(b, heap, heap, mem, mem)
  {
  }

  lemma ClearedApart(heap: GuestHeap, b: HeapBlock, address: u32, size: u32, mem: seq<u8>, mem': seq<u8>)
    requires heap.Valid() && b in heap.blocks && BlockSize(size).Ok? && heap.Fits(address, BlockSize(size).value)
    requires Zeroed(mem, mem', address, size)
    ensures SameBytes(mem, b.address, mem', b.address, b.size)
  {
    var j :| 0 <= j < |heap.blocks| && heap.blocks[j] == b;
    assert address + size <= b.address || b.End() <= address;
  }

  lemma ReallocKeeps(limits: HleLimits, before: Option<GuestHeap>, after: Option<GuestHeap>, mem: seq<u8>,
                     mem': seq<u8>, address: u32, size: u32, r: Result<u32, BiosError>, granted: Option<u32>)
    requires before.Some? ==> before.value.Valid()
    requires Reallocs(limits, before, after, mem, mem', address, size, r, granted)
    ensures forall b :: LiveIn(b, before) && b.address != address ==> Survives(b, before, after, mem, mem')
  {
    hide Inserted, SameBytes, Copied, GuestHeap.Fits, FreeFromHeap, Moves, Reallocated, Position;
    Unchanged(before, mem);
    if size > limits.memoryOperationBytes {
    } else if address == 0 {
      AllocationKeeps(before, after, mem, size, r);
    } else if size == 0 {
      ReleaseKeeps(before, after, mem, address);
    } else if BlockSize(size).Ok? && before.Some? && Position(before.value.blocks, address) < |before.value.blocks| {
      var k := Position(before.value.blocks, address);
      if address + BlockSize(size).value < U32_LIMIT && address + BlockSize(size).value > before.value.Following(k) {
        MoveKeeps(before.value, after, mem, mem', k, size, r, granted);
      } else if address + BlockSize(size).value < U32_LIMIT {
        ReplacedKeeps(before.value, after.value, before.value.blocks[k], HeapBlock(address, BlockSize(size).value),
                      size, mem, mem');
      }
    }
  }

  lemma ReplacedKeeps(before: GuestHeap, after: GuestHeap, old_: HeapBlock, new_: HeapBlock, size: u32, mem: seq<u8>,
                      mem': seq<u8>)
    requires Reallocated(before, after, old_, new_, size, mem, mem')
    ensures forall b :: LiveIn(b, Some(before)) && b.address != old_.address ==>
              Survives(b, Some(before), Some(after), mem, mem')
  {
    hide SameBytes;
  }

  lemma MoveKeeps(before: GuestHeap, after: Option<GuestHeap>, mem: seq<u8>, mem': seq<u8>, k: nat, size: u32,
                  r: Result<u32, BiosError>, granted: Option<u32>)
    requires before.Valid() && k < |before.blocks| && Moves(before, after, mem, mem', k, size, r, granted)
    ensures forall b :: LiveIn(b, Some(before)) && b.address != before.blocks[k].address ==>
              Survives(b, Some(before), after, mem, mem')
  {
    hide Inserted, SameBytes, Copied, GuestHeap.Fits, Reallocated;
    if granted.None? {
      AllocationKeeps(Some(before), after, mem, size, r);
    } else if r.Ok? {
      ReplacedKeeps(before, after.value, before.blocks[k], HeapBlock(granted.value, BlockSize(size).value), size, mem,
                    mem');
    } else {
      AllocationKeeps(Some(before), after, mem, size, Ok(granted.value));
      var moved, from := HeapBlock(granted.value, BlockSize(size).value), before.blocks[k].address;
      forall b | LiveIn(b, Some(before))
        ensures SameBytes(mem, b.address, mem', b.address, b.size)
      {
        OtherBlock(before, b, moved, from, Reach(|mem|, granted.value, from, Min(before.blocks[k].size, size)), mem,
                   mem');
      }
    }
  }

  lemma ReleaseKeeps(before: Option<GuestHeap>, after: Option<GuestHeap>, mem: seq<u8>, address: u32)
    requires before.Some? ==> before.value.Valid()
    requires after == if before.Some? then Some(FreeFromHeap(before.value, address)) else None
    ensures forall b :: LiveIn(b, before) && b.address != address ==> Survives(b, before, after, mem, mem)
  {
    hide Without;
    if before.Some? {
      FreedMembers(before.value, address);
    }
  }

  // ----- Refusals that leave a block behind

  /** A block placed behind all others is the last of the list. */
  lemma Appended(before: GuestHeap, after: GuestHeap, block: HeapBlock)
    requires before.Valid() && after.Valid() && Inserted(before, after, block)
    requires forall k :: 0 <= k < |before.blocks| ==> before.blocks[k].End() <= block.address
    ensures after == before.(blocks := before.blocks + [block])
  {
    hide GuestHeap.Valid;
    var i :| 0 <= i <= |before.blocks| && after.blocks == InsertAt(before.blocks, i, block);
    if i < |before.blocks| {
      Ascending(after, i, i + 1);
    }
  }

  /** On a heap with its blocks in a row, the next block goes right behind them. */
  method Next(services: Services, size: u32) returns (r: Result<u32, BiosError>)
    requires services.Valid() && services.heap.Some? && BlockSize(size).Ok?
    requires var heap := services.heap.value;
             heap.Fits(heap.Top(), BlockSize(size).value) && forall a :: heap.Fits(a, BlockSize(size).value) ==>
               heap.Top() <= a
    modifies services`heap
    ensures services.Valid()
    ensures services.heap == Some(Longer(old(services.heap).value, BlockSize(size).value))
    ensures r == Ok(old(services.heap).value.Top())
  {
    ghost var heap := services.heap.value;
    r := services.Malloc(size);
    TopBehind(heap);
    Appended(heap, services.heap.value, HeapBlock(r.value, BlockSize(size).value));
  }

  function Longer(heap: GuestHeap, size: u32): GuestHeap
    requires 0 <= heap.Top() < U32_LIMIT
  {
    heap.(blocks := heap.blocks + [HeapBlock(heap.Top(), size)])
  }

  lemma TopBehind(heap: GuestHeap)
    requires heap.Valid()
    ensures forall k :: 0 <= k < |heap.blocks| ==> heap.blocks[k].End() <= heap.Top()
  {
    var last := |heap.blocks| - 1;
    forall k | 0 <= k < last
      ensures heap.blocks[k].End() <= heap.Top()
    {
      assert heap.blocks[k].End() <= heap.blocks[last].address && heap.blocks[last].size > 0;
    }
  }

  /** A heap may reach beyond memory; a calloc refused there has allocated its block all the same. */
  method CallocLeaks() returns (services: Services, r: Result<u32, BiosError>)
    ensures r == Err(GuestMemory) && services.heap == Some(GuestHeap(0, 16, [HeapBlock(0, 16)]))
  {
    hide Zeroed, Inserted;
    var memory := new u8[8](_ => 1);
    services := new Services(HleLimits(100, 100));
    assert 0 % HEAP_ALIGNMENT == 0;
    var base := services.InitializeHeap(0, 16);
    ghost var heap, granted := GuestHeap(0, 16, []), None;
    assert services.heap == Some(heap) && BlockSize(16) == Ok(16) && heap.Fits(0, 16);
    r, granted := services.Calloc(1, 16, memory);
    Appended(heap, services.heap.value, HeapBlock(0, 16));
    assert [] + [HeapBlock(0, 16)] == [HeapBlock(0, 16)];
  }

  method TwoBlocks() returns (services: Services)
    ensures fresh(services) && services.Valid() && services.limits == HleLimits(100, 100)
    ensures services.heap == Some(GuestHeap(8, 40, [HeapBlock(8, 8), HeapBlock(16, 8)]))
  {
    services := new Services(HleLimits(100, 100));
    assert 8 % HEAP_ALIGNMENT == 0;
    var base := services.InitializeHeap(8, 32);
    assert services.heap == Some(GuestHeap(8, 40, [])) && BlockSize(8) == Ok(8);
    var first := Next(services, 8);
    assert services.heap.value.blocks == [HeapBlock(8, 8)];
    assert services.heap.value.Fits(16, 8);
    var second := Next(services, 8);
    assert services.heap.value.blocks == [HeapBlock(8, 8), HeapBlock(16, 8)];
  }

  /** A realloc refused while moving a block has allocated the new one all the same. */
  method ReallocLeaks() returns (services: Services, r: Result<u32, BiosError>)
    ensures r == Err(GuestMemory)
    ensures services.heap == Some(GuestHeap(8, 40, [HeapBlock(8, 8), HeapBlock(16, 8), HeapBlock(24, 16)]))
  {
    hide Zeroed, Inserted, Copied, Reallocated;
    var memory := new u8[24](_ => 1);
    services := TwoBlocks();
    ghost var heap, granted := GuestHeap(8, 40, [HeapBlock(8, 8), HeapBlock(16, 8)]), None;
    assert BlockSize(16) == Ok(16) && Position(heap.blocks, 8) == 0 && heap.Fits(24, 16);
    r, granted := services.Realloc(8, 16, memory);
    Appended(heap, services.heap.value, HeapBlock(24, 16));
    assert heap.blocks + [HeapBlock(24, 16)] == [HeapBlock(8, 8), HeapBlock(16, 8), HeapBlock(24, 16)];
  }
}
