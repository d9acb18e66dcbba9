/** The allocation and copying services that work on the heap and on guest memory. */
module HeapServices {
  import opened Machine
  import opened Wrappers
  import opened LittleEndian
  import opened Libc
  import opened Heap

  // ----- Copying

  /** Repetition `offset` of a pattern of `gap` bytes, as an index into the pattern. */
  function Back(offset: nat, gap: nat): (r: nat)
    requires gap > 0
    ensures r < gap
    ensures offset < gap ==> r == offset
  {
    if offset < gap then offset else Back(offset - gap, gap)
  }

  /** The byte a plain upward copy leaves at `a`: an overlapping destination repeats the first bytes. */
  function Origin(destination: u32, source: u32, a: int): int
    requires destination <= a
  {
    if source < destination then source + Back(a - destination, destination - source)
    else source + (a - destination)
  }

  /** Memory after the first `count` bytes of an upward copy. */
  ghost predicate CopiedUp(before: seq<u8>, now: seq<u8>, destination: u32, source: u32, count: nat)
  {
    && |now| == |before| && destination + count <= Max(destination, |before|)
    && (forall a :: 0 <= a < |now| && !(destination <= a < destination + count) ==> now[a] == before[a])
    && (forall a :: destination <= a < destination + count ==>
                      0 <= Origin(destination, source, a) < |before|
                      && now[a] == before[Origin(destination, source, a)])
  }

  lemma CopyUpSteps(before: seq<u8>, now: seq<u8>, destination: u32, source: u32, count: nat)
    requires CopiedUp(before, now, destination, source, count) && source + count < |now| && destination + count < |now|
    ensures CopiedUp(before, now[destination + count := now[source + count]], destination, source, count + 1)
  {
  }

  /** Without a higher overlapping destination an upward copy is exact. */
  lemma CopyUpExact(before: seq<u8>, now: seq<u8>, destination: u32, source: u32, size: u32)
    requires CopiedUp(before, now, destination, source, size)
    requires destination + size <= |before| && source + size <= |before|
    requires !(source < destination < source + size)
    ensures now == Splice(before, destination, before[source..source + size])
  {
  }

  lemma NoneCopied(before: seq<u8>, now: seq<u8>, destination: u32, source: u32)
    requires now == before || CopiedUp(before, now, destination, source, 0)
    ensures now == before
  {
  }

  /** How many bytes a copy or a clear gets done before it leaves memory. */
  function Reach(length: nat, destination: u32, source: u32, size: u32): (count: nat)
    ensures count <= size
  {
    var limit := Min(length, U32_LIMIT);
    Min(size, Max(0, Min(limit - destination, limit - source)))
  }

  /** Copies upwards, one byte at a time, until it is done or leaves memory. */
  method CopyUp(memory: array<u8>, destination: u32, source: u32, size: u32) returns (r: Result<(), BiosError>)
    modifies memory
    ensures CopiedUp(old(memory[..]), memory[..], destination, source, Reach(memory.Length, destination, source, size))
    ensures r.Ok? <==> Reach(memory.Length, destination, source, size) == size
    ensures r.Err? && Max(destination, source) + size <= U32_LIMIT ==> r.error == GuestMemory
  {
    hide CopiedUp;
    NothingCopied(memory[..], destination, source);
    for offset := 0 to size
      invariant offset <= Reach(memory.Length, destination, source, size)
      invariant CopiedUp(old(memory[..]), memory[..], destination, source, offset)
    {
      if source + offset >= U32_LIMIT {
        return Err(AddressOverflow);
      }
      if source + offset >= memory.Length {
        return Err(GuestMemory);
      }
      if destination + offset >= U32_LIMIT {
        return Err(AddressOverflow);
      }
      if destination + offset >= memory.Length {
        return Err(GuestMemory);
      }
      ghost var now := memory[..];
      CopyUpSteps(old(memory[..]), now, destination, source, offset);
      memory[destination + offset] := memory[source + offset];
      assert memory[..] == now[destination + offset := now[source + offset]];
    }
    return Ok(());
  }

  lemma NothingCopied(mem: seq<u8>, destination: u32, source: u32)
    ensures CopiedUp(mem, mem, destination, source, 0)
  {
  }

  /** Copies downwards, which is safe for a higher overlapping destination. */
  method CopyDown(memory: array<u8>, destination: u32, source: u32, size: u32) returns (r: Result<(), BiosError>)
    requires source < destination
    modifies memory
    ensures r.Ok? <==> InMemory(memory.Length, destination, size) && InMemory(memory.Length, source, size)
    ensures r.Ok? && size > 0 ==>
              memory[..] == Splice(old(memory[..]), destination, old(memory[..])[source..source + size])
    ensures r.Err? || size == 0 ==> memory[..] == old(memory[..])
  {
    ghost var before := memory[..];
    var offset := size;
    while offset > 0
      invariant 0 <= offset <= size
      invariant offset < size ==> destination + size <= Min(memory.Length, U32_LIMIT)
      invariant forall a :: 0 <= a < memory.Length && !(destination + offset <= a < destination + size) ==>
                  memory[a] == before[a]
      invariant forall a :: destination + offset <= a < destination + size && a < memory.Length ==>
                              memory[a] == before[source + (a - destination)]
    {
      offset := offset - 1;
      if source + offset >= memory.Length {
        return Err(GuestMemory);
      }
      if destination + offset >= U32_LIMIT {
        return Err(AddressOverflow);
      }
      if destination + offset >= memory.Length {
        return Err(GuestMemory);
      }
      memory[destination + offset] := memory[source + offset];
    }
    if size > 0 {
      assert memory[..] == Splice(before, destination, before[source..source + size]);
    }
    return Ok(());
  }

  // ----- Allocation services

  class Services {
    const limits: HleLimits
    var heap: Option<GuestHeap>

    constructor (limits: HleLimits)
      ensures this.limits == limits && heap.None? && Valid()
    {
      this.limits, heap := limits, None;
    }

    ghost predicate Valid()
      reads this
    {
      heap.Some? ==> heap.value.Valid()
    }

    /** The C library's two copies; only the overlap-safe one looks at the direction. */
    method MemoryCopy(memory: array<u8>, destination: u32, source: u32, size: u32, overlapSafe: bool)
      returns (r: Result<u32, BiosError>)
      modifies memory
      ensures r.Ok? ==> r.value == destination && size <= limits.memoryOperationBytes
      ensures r.Ok? <==>
              && size <= limits.memoryOperationBytes
              && InMemory(memory.Length, destination, size) && InMemory(memory.Length, source, size)
              && (overlapSafe && destination > source ==> source + size < U32_LIMIT)
      ensures r.Ok? && size > 0 && (overlapSafe || !(source < destination < source + size)) ==>
                memory[..] == Splice(old(memory[..]), destination, old(memory[..])[source..source + size])
      ensures r.Ok? && size == 0 ==> memory[..] == old(memory[..])
      ensures r.Ok? && !overlapSafe ==> CopiedUp(old(memory[..]), memory[..], destination, source, size)
    {
      if size > limits.memoryOperationBytes {
        return Err(MemoryOperationLimit);
      }
      hide CopiedUp;
      var copied: Result<(), BiosError>;
      if overlapSafe && destination > source {
        if source + size >= U32_LIMIT {
          return Err(AddressOverflow);
        }
        if destination < source + size {
          copied := CopyDown(memory, destination, source, size);
        } else {
          copied := CopyUp(memory, destination, source, size);
        }
      } else {
        copied := CopyUp(memory, destination, source, size);
      }
      ghost var before := old(memory[..]);
      if copied.Ok? && size > 0 && !(source < destination < source + size) {
        CopyUpExact(before, memory[..], destination, source, size);
      }
      if copied.Ok? && size == 0 {
        NoneCopied(before, memory[..], destination, source);
      }
      return if copied.Ok? then Ok(destination) else Err(copied.error);
    }

    method InitializeHeap(start: u32, size: u32) returns (r: Result<u32, BiosError>)
      requires Valid()
      modifies this`heap
      ensures Valid()
      ensures r.Ok? ==>
                start + size < U32_LIMIT && heap == Some(GuestHeap(r.value, start + size, []))
                && start <= r.value < start + HEAP_ALIGNMENT
      ensures r.Err? ==> heap == old(heap)
      ensures r.Ok? <==> start + size < U32_LIMIT && exists a :: start <= a <= start + size && a % HEAP_ALIGNMENT == 0
      ensures r == Err(OutOfMemory) ==> start + size < U32_LIMIT
    {
      var base := AlignUp8(start);
      if base.Err? {
        return Err(base.error);
      }
      if start + size >= U32_LIMIT {
        return Err(AddressOverflow);
      }
      if base.value > start + size {
        return Err(OutOfMemory);
      }
      heap := Some(GuestHeap(base.value, start + size, []));
      return Ok(base.value);
    }

    method Malloc(size: u32) returns (r: Result<u32, BiosError>)
      requires Valid()
      modifies this`heap
      ensures Valid()
      ensures Allocates(old(heap), heap, size, r)
    {
      if heap.None? {
        return Err(HeapUnavailable);
      }
      var placed := AllocateFromHeap(heap.value, size);
      if placed.Err? {
        return Err(placed.error);
      }
      heap := Some(placed.value.0);
      return Ok(placed.value.1);
    }

    method Free(address: u32)
      requires Valid()
      modifies this`heap
      ensures Valid()
      ensures heap == if old(heap).Some? then Some(FreeFromHeap(old(heap).value, address)) else None
    {
      if heap.Some? {
        heap := Some(FreeFromHeap(heap.value, address));
      }
    }

    /** Allocates zeroed memory for `count` elements; `granted` is the block it allocated, if any. */
    method Calloc(count: u32, elementSize: u32, memory: array<u8>)
      returns (r: Result<u32, BiosError>, ghost granted: Option<u32>)
      requires Valid()
      modifies this`heap, memory
      ensures Valid()
      ensures Callocs(limits, old(heap), heap, old(memory[..]), memory[..], count * elementSize, r, granted)
    {
      granted := None;
      if count * elementSize >= U32_LIMIT {
        return Err(AddressOverflow), granted;
      }
      var size: u32 := count * elementSize;
      if size > limits.memoryOperationBytes {
        return Err(MemoryOperationLimit), granted;
      }
      r := Malloc(size);
      if r.Err? {
        return;
      }
      granted := Some(r.value);
      var cleared := Clear(memory, r.value, size);
      if cleared.Err? {
        return Err(cleared.error), granted;
      }
    }

    /**
     * Resizes a live block in place if the gap behind it allows, else moves it; `granted` is the block it
     * allocated, if any.
     */
    method Realloc(oldAddress: u32, newSize: u32, memory: array<u8>)
      returns (r: Result<u32, BiosError>, ghost granted: Option<u32>)
      requires Valid()
      modifies this`heap, memory
      ensures Valid()
      ensures Reallocs(limits, old(heap), heap, old(memory[..]), memory[..], oldAddress, newSize, r, granted)
    {
      granted := None;
      if newSize > limits.memoryOperationBytes {
        return Err(MemoryOperationLimit), granted;
      }
      if oldAddress == 0 {
        r := Malloc(newSize);
        granted := if r.Ok? then Some(r.value) else None;
        return;
      }
      if newSize == 0 {
        Free(oldAddress);
        return Ok(0), granted;
      }
      var newAllocation := BlockSize(newSize);
      if newAllocation.Err? {
        return Err(newAllocation.error), granted;
      }
      if heap.None? {
        return Err(HeapUnavailable), granted;
      }
      var index := Position(heap.value.blocks, oldAddress);
      if index == |heap.value.blocks| {
        return Ok(0), granted;
      }
      if oldAddress + newAllocation.value >= U32_LIMIT {
        return Err(AddressOverflow), granted;
      }
      if oldAddress + newAllocation.value <= heap.value.Following(index) {
        ResizeInPlace(heap.value, index, newSize, memory[..]);
        heap := Some(heap.value.(blocks := heap.value.blocks[index := HeapBlock(oldAddress, newAllocation.value)]));
        return Ok(oldAddress), granted;
      }
      r, granted := MoveBlock(index, newSize, memory);
    }

    /** Allocates anew, copies what fits, and releases the old block. */
    method MoveBlock(index: nat, newSize: u32, memory: array<u8>)
      returns (r: Result<u32, BiosError>, ghost granted: Option<u32>)
      requires Valid() && heap.Some? && index < |heap.value.blocks| && newSize > 0
      modifies this`heap, memory
      ensures Valid()
      ensures Moves(old(heap).value, heap, old(memory[..]), memory[..], index, newSize, r, granted)
    {
      hide Position, RemoveAt, InsertAt, Inserted, CopiedUp, Reallocated, GuestHeap.Fits, GuestHeap.Valid;
      ghost var before, bytes := heap.value, memory[..];
      granted := None;
      var block := heap.value.blocks[index];
      r := Malloc(newSize);
      if r.Err? {
        return;
      }
      granted := Some(r.value);
      var copied: u32 := Min(block.size, newSize);
      ghost var moved := HeapBlock(r.value, BlockSize(newSize).value);
      ghost var grown := heap.value;
      MovedApart(before, index, moved);
      var result := CopyUp(memory, r.value, block.address, copied);
      CopiedApart(bytes, memory[..], r.value, block.address, Reach(memory.Length, r.value, block.address, copied));
      if result.Err? {
        return Err(result.error), granted;
      }
      heap := Some(FreeFromHeap(heap.value, block.address));
      MoveCompletes(before, grown, index, moved, newSize, bytes, memory[..]);
    }
  }

  // ----- What the services do to heap and memory

  predicate InMemory(length: nat, address: u32, size: u32)
  {
    size == 0 || address + size <= Min(length, U32_LIMIT)
  }

  /** Memory after the first `count` bytes from `source` were copied to a place apart from them. */
  ghost predicate Copied(mem: seq<u8>, mem': seq<u8>, destination: u32, source: u32, count: nat)
  {
    && |mem'| == |mem| && (count > 0 ==> destination + count <= |mem| && source + count <= |mem|)
    && (forall a :: destination <= a < destination + count ==> mem'[a] == mem[source + (a - destination)])
    && forall a :: 0 <= a < |mem| && !(destination <= a < destination + count) ==> mem'[a] == mem[a]
  }

  /** Outcome of clearing a new block: the block stays allocated even if part of it lies beyond memory. */
  ghost predicate Callocs(limits: HleLimits, before: Option<GuestHeap>, after: Option<GuestHeap>, mem: seq<u8>,
                          mem': seq<u8>, size: int, r: Result<u32, BiosError>, granted: Option<u32>)
    requires before.Some? ==> before.value.Valid()
  {
    if size >= U32_LIMIT || size > limits.memoryOperationBytes || size < 0 then
      && r == Err(if size >= U32_LIMIT then AddressOverflow else MemoryOperationLimit)
      && granted.None? && after == before && mem' == mem
    else if granted.None? then r.Err? && Allocates(before, after, size, r) && mem' == mem
    else
      && Allocates(before, after, size, Ok(granted.value)) && Zeroed(mem, mem', granted.value, size)
      && r == if InMemory(|mem|, granted.value, size) then Ok(granted.value) else Err(GuestMemory)
  }

  /** Outcome of a resize. */
  ghost predicate Reallocs(limits: HleLimits, before: Option<GuestHeap>, after: Option<GuestHeap>, mem: seq<u8>,
                           mem': seq<u8>, oldAddress: u32, newSize: u32, r: Result<u32, BiosError>,
                           granted: Option<u32>)
    requires before.Some? ==> before.value.Valid()
  {
    if newSize > limits.memoryOperationBytes then
      r == Err(MemoryOperationLimit) && granted.None? && after == before && mem' == mem
    else if oldAddress == 0 then
      && Allocates(before, after, newSize, r) && mem' == mem
      && granted == if r.Ok? then Some(r.value) else None
    else if newSize == 0 then
      && r == Ok(0) && granted.None? && mem' == mem
      && after == if before.Some? then Some(FreeFromHeap(before.value, oldAddress)) else None
    else Resizes(before, after, mem, mem', oldAddress, newSize, r, granted)
  }

  /** Outcome of resizing to a nonzero size: no such block, a refusal, or the block resized or moved. */
  ghost predicate Resizes(before: Option<GuestHeap>, after: Option<GuestHeap>, mem: seq<u8>, mem': seq<u8>,
                          oldAddress: u32, newSize: u32, r: Result<u32, BiosError>, granted: Option<u32>)
    requires before.Some? ==> before.value.Valid()
  {
    var n := BlockSize(newSize);
    if n.Err? then r == Err(AddressOverflow) && granted.None? && after == before && mem' == mem
    else if before.None? then r == Err(HeapUnavailable) && granted.None? && after == before && mem' == mem
    else
      var k := Position(before.value.blocks, oldAddress);
      if k == |before.value.blocks| then r == Ok(0) && granted.None? && after == before && mem' == mem
      else if oldAddress + n.value >= U32_LIMIT then
        r == Err(AddressOverflow) && granted.None? && after == before && mem' == mem
      else if oldAddress + n.value <= before.value.Following(k) then
        && r == Ok(oldAddress) && granted.None? && after.Some?
        && Reallocated(before.value, after.value, before.value.blocks[k], HeapBlock(oldAddress, n.value), newSize, mem,
                       mem')
      else Moves(before.value, after, mem, mem', k, newSize, r, granted)
  }

  /**
   * Outcome of moving a block: a refusal that changes nothing, or a new block that takes over from the old one; if
   * the copy leaves memory, both blocks stay allocated and the bytes copied so far stay in the new one.
   */
  ghost predicate Moves(before: GuestHeap, after: Option<GuestHeap>, mem: seq<u8>, mem': seq<u8>, k: nat, newSize: u32,
                        r: Result<u32, BiosError>, granted: Option<u32>)
    requires before.Valid() && k < |before.blocks|
  {
    var old_ := before.blocks[k];
    var copied: u32 := Min(old_.size, newSize);
    if granted.None? then r.Err? && Allocates(Some(before), after, newSize, r) && mem' == mem
    else if InMemory(|mem|, old_.address, copied) && InMemory(|mem|, granted.value, copied) then
      && r == Ok(granted.value) && after.Some? && BlockSize(newSize).Ok?
      && before.LowestFit(granted.value, BlockSize(newSize).value)
      && Reallocated(before, after.value, old_, HeapBlock(granted.value, BlockSize(newSize).value), newSize, mem, mem')
    else
      && r == Err(GuestMemory) && Allocates(Some(before), after, newSize, Ok(granted.value))
      && Copied(mem, mem', granted.value, old_.address, Reach(|mem|, granted.value, old_.address, copied))
  }

  /**
   * `old_` was replaced by `new_`: every other block survives with its bytes, and the new block
   * starts with the old one's first bytes.
   */
  ghost predicate Reallocated(before: GuestHeap, after: GuestHeap, old_: HeapBlock, new_: HeapBlock, newSize: u32,
                              mem: seq<u8>, mem': seq<u8>)
  {
    var kept := Min(old_.size, newSize);
    && |mem'| == |mem|
    && (forall b :: b in after.blocks <==> b == new_ || (b in before.blocks && b != old_))
    && newSize <= new_.size < newSize + HEAP_ALIGNMENT
    && (new_.address != old_.address ==> old_.address + kept <= |mem| && new_.address + kept <= |mem|)
    && SameBytes(mem, old_.address, mem', new_.address, kept)
    && (forall b :: b in before.blocks && b != old_ ==> SameBytes(mem, b.address, mem', b.address, b.size))
  }

  /** The `count` bytes of `mem` from `at` are those of `mem'` from `at'`, as far as they lie in memory. */
  ghost predicate SameBytes(mem: seq<u8>, at: nat, mem': seq<u8>, at': nat, count: nat)
  {
    && |mem'| == |mem|
    && forall a :: at <= a < at + count && a < |mem| && a - at + at' < |mem'| ==> mem[a] == mem'[a - at + at']
  }

  // ----- When a refusal leaves something behind

  /** The request is admissible, and the block that a calloc would get is not all in memory. */
  ghost predicate ClearsBeyond(limits: HleLimits, heap: Option<GuestHeap>, length: nat, size: int)
  {
    && heap.Some? && 0 <= size < U32_LIMIT && size <= limits.memoryOperationBytes && BlockSize(size).Ok?
    && exists a: u32 :: heap.value.LowestFit(a, BlockSize(size).value) && !InMemory(length, a, size)
  }

  /** The block is live and must move, and the bytes to keep are not all in memory in its old or its new place. */
  ghost predicate MovesBeyond(limits: HleLimits, heap: Option<GuestHeap>, length: nat, oldAddress: u32, newSize: u32)
  {
    && heap.Some? && oldAddress != 0 && 0 < newSize <= limits.memoryOperationBytes && BlockSize(newSize).Ok?
    && var k, n := Position(heap.value.blocks, oldAddress), BlockSize(newSize).value;
    && k < |heap.value.blocks| && heap.value.Following(k) < oldAddress + n < U32_LIMIT
    && var kept: u32 := Min(heap.value.blocks[k].size, newSize);
    exists a: u32 :: heap.value.LowestFit(a, n) && !(InMemory(length, oldAddress, kept) && InMemory(length, a, kept))
  }

  /** A calloc that is refused has changed something exactly if it was to clear beyond memory. */
  lemma RefusedCalloc(limits: HleLimits, before: Option<GuestHeap>, after: Option<GuestHeap>, mem: seq<u8>,
                      mem': seq<u8>, size: int, r: Result<u32, BiosError>, granted: Option<u32>)
    requires (before.Some? ==> before.value.Valid()) && Callocs(limits, before, after, mem, mem', size, r, granted)
    ensures r.Err? ==> (after == before && mem' == mem <==> granted.None?)
    ensures granted.Some? ==>
              && before.Some? && 0 <= size < U32_LIMIT && BlockSize(size).Ok?
              && before.value.LowestFit(granted.value, BlockSize(size).value)
              && (r.Err? <==> !InMemory(|mem|, granted.value, size))
    ensures r.Err? && before.Some? && before.value.end <= |mem| ==> granted.None?
    ensures r.Err? && !(after == before && mem' == mem) <==> ClearsBeyond(limits, before, |mem|, size)
  {
    hide InsertAt, Zeroed;
  }

  /** A realloc that is refused has changed something exactly if it was to move bytes beyond memory. */
  lemma RefusedRealloc(limits: HleLimits, before: Option<GuestHeap>, after: Option<GuestHeap>, mem: seq<u8>,
                       mem': seq<u8>, oldAddress: u32, newSize: u32, r: Result<u32, BiosError>, granted: Option<u32>)
    requires before.Some? ==> before.value.Valid()
    requires Reallocs(limits, before, after, mem, mem', oldAddress, newSize, r, granted)
    ensures r.Err? ==> (after == before && mem' == mem <==> granted.None?)
    ensures granted.Some? && oldAddress != 0 ==>
              && before.Some? && BlockSize(newSize).Ok?
              && before.value.LowestFit(granted.value, BlockSize(newSize).value)
              && var k := Position(before.value.blocks, oldAddress);
              && k < |before.value.blocks| && oldAddress + BlockSize(newSize).value > before.value.Following(k)
              && var kept: u32 := Min(before.value.blocks[k].size, newSize);
              (r.Err? <==> !InMemory(|mem|, oldAddress, kept) || !InMemory(|mem|, granted.value, kept))
    ensures r.Err? && before.Some? && before.value.end <= |mem| ==> granted.None?
    ensures r.Err? && !(after == before && mem' == mem) <==> MovesBeyond(limits, before, |mem|, oldAddress, newSize)
  {
    hide InsertAt, Copied, Reallocated;
    if r.Err? && granted.Some? && before.Some? && before.value.end <= |mem| && oldAddress != 0 {
      var k := Position(before.value.blocks, oldAddress);
      assert before.value.blocks[k].End() <= before.value.end;
    }
  }

  lemma ResizeInPlace(heap: GuestHeap, index: nat, newSize: u32, mem: seq<u8>)
    requires heap.Valid() && index < |heap.blocks| && newSize > 0 && BlockSize(newSize).Ok?
    requires heap.blocks[index].address + BlockSize(newSize).value <= heap.Following(index)
    ensures var new_ := HeapBlock(heap.blocks[index].address, BlockSize(newSize).value);
            var after := heap.(blocks := heap.blocks[index := new_]);
            after.Valid() && Reallocated(heap, after, heap.blocks[index], new_, newSize, mem, mem)
  {
    hide GuestHeap.Valid;
    var new_ := HeapBlock(heap.blocks[index].address, BlockSize(newSize).value);
    ResizedValid(heap, index, new_);
    ResizedMembers(heap, index, new_);
  }

  /** Live blocks begin at different addresses. */
  lemma OneAtAddress(heap: GuestHeap, index: nat, b: HeapBlock)
    requires heap.Valid() && index < |heap.blocks| && b in heap.blocks && b.address == heap.blocks[index].address
    ensures b == heap.blocks[index]
  {
  }

  lemma ResizedValid(heap: GuestHeap, index: nat, new_: HeapBlock)
    requires heap.Valid() && index < |heap.blocks| && new_.address == heap.blocks[index].address
    requires new_.size > 0 && new_.size % HEAP_ALIGNMENT == 0 && new_.End() <= heap.Following(index)
    ensures heap.(blocks := heap.blocks[index := new_]).Valid()
  {
  }

  lemma ResizedMembers(heap: GuestHeap, index: nat, new_: HeapBlock)
    requires heap.Valid() && index < |heap.blocks|
    ensures forall b :: b in heap.blocks[index := new_] <==> b == new_ || (b in heap.blocks && b != heap.blocks[index])
  {
    var blocks := heap.blocks[index := new_];
    assert blocks[index] == new_;
    forall b | b in heap.blocks && b != heap.blocks[index]
      ensures b in blocks
    {
      var j :| 0 <= j < |heap.blocks| && heap.blocks[j] == b;
      assert blocks[j] == b;
    }
    forall j | 0 <= j < |blocks| && j != index
      ensures blocks[j] in heap.blocks && blocks[j] != heap.blocks[index]
    {
      assert if j < index then heap.blocks[j].End() <= heap.blocks[index].address
             else heap.blocks[index].End() <= heap.blocks[j].address;
    }
  }

  lemma MovedMembers(before: GuestHeap, grown: GuestHeap, index: nat, moved: HeapBlock)
    requires before.Valid() && grown.Valid() && index < |before.blocks| && Inserted(before, grown, moved)
    requires before.Fits(moved.address, moved.size) && moved.size > 0
    ensures forall b :: b in Without(grown.blocks, before.blocks[index].address) <==>
                          b == moved || (b in before.blocks && b != before.blocks[index])
  {
    hide Position, InsertAt, RemoveAt, Without, Inserted;
    InsertedMembers(before, grown, moved);
    FreedMembers(grown, before.blocks[index].address);
    assert moved.address != before.blocks[index].address;
    forall b | b in before.blocks && b.address == before.blocks[index].address
      ensures b == before.blocks[index]
    {
      OneAtAddress(before, index, b);
    }
  }

  lemma MoveCompletes(before: GuestHeap, grown: GuestHeap, index: nat, moved: HeapBlock, newSize: u32, mem: seq<u8>,
                      mem': seq<u8>)
    requires before.Valid() && grown.Valid() && index < |before.blocks|
    requires Inserted(before, grown, moved) && before.Fits(moved.address, moved.size)
    requires newSize > 0 && BlockSize(newSize) == Ok(moved.size)
    requires Copied(mem, mem', moved.address, before.blocks[index].address, Min(before.blocks[index].size, newSize))
    ensures Reallocated(before, FreeFromHeap(grown, before.blocks[index].address), before.blocks[index], moved,
                        newSize, mem, mem')
  {
    hide Inserted, Without, GuestHeap.Fits, GuestHeap.Valid, Position;
    MovedMembers(before, grown, index, moved);
    BlockNotEmpty(before, index);
    forall b | b in before.blocks
      ensures SameBytes(mem, b.address, mem', b.address, b.size)
    {
      OtherBlock(before, b, moved, before.blocks[index].address, Min(before.blocks[index].size, newSize), mem, mem');
    }
  }

  lemma BlockNotEmpty(heap: GuestHeap, k: nat)
    requires heap.Valid() && k < |heap.blocks|
    ensures heap.blocks[k].size > 0
  {
  }

  /** A new block is apart from every block there was. */
  lemma MovedApart(before: GuestHeap, index: nat, moved: HeapBlock)
    requires before.Valid() && index < |before.blocks| && before.Fits(moved.address, moved.size)
    ensures before.blocks[index].End() <= before.end < U32_LIMIT && moved.End() <= before.end
    ensures moved.End() <= before.blocks[index].address || before.blocks[index].End() <= moved.address
  {
  }

  lemma CopiedApart(before: seq<u8>, now: seq<u8>, destination: u32, source: u32, count: nat)
    requires CopiedUp(before, now, destination, source, count) && !(source < destination < source + count)
    requires count > 0 ==> destination + count <= |before| && source + count <= |before|
    ensures Copied(before, now, destination, source, count)
  {
  }

  /** Writing into a new block leaves the bytes of every block there was. */
  lemma OtherBlock(before: GuestHeap, b: HeapBlock, moved: HeapBlock, source: u32, copied: nat, mem: seq<u8>,
                   mem': seq<u8>)
    requires before.Valid() && b in before.blocks
    requires before.Fits(moved.address, moved.size) && copied <= moved.size
             && Copied(mem, mem', moved.address, source, copied)
    ensures SameBytes(mem, b.address, mem', b.address, b.size)
  {
    var j :| 0 <= j < |before.blocks| && before.blocks[j] == b;
    assert moved.address + copied <= b.address || b.End() <= moved.address;
    CopyAside(mem, mem', moved.address, source, copied, b.address, b.size);
  }

  lemma CopyAside(mem: seq<u8>, mem': seq<u8>, destination: u32, source: u32, count: nat, at: nat, size: nat)
    requires Copied(mem, mem', destination, source, count) && (destination + count <= at || at + size <= destination)
    ensures SameBytes(mem, at, mem', at, size)
  {
    forall a | at <= a < at + size && a < |mem|
      ensures mem'[a] == mem[a]
    {
    }
  }

  /** Clears bytes upwards until done or beyond memory. */
  method Clear(memory: array<u8>, address: u32, size: u32) returns (r: Result<(), BiosError>)
    modifies memory
    ensures Zeroed(old(memory[..]), memory[..], address, Reach(memory.Length, address, address, size))
    ensures r.Ok? <==> InMemory(memory.Length, address, size)
    ensures r.Err? && address + size <= U32_LIMIT ==> r.error == GuestMemory
  {
    for offset := 0 to size
      invariant offset <= Reach(memory.Length, address, address, size)
      invariant Zeroed(old(memory[..]), memory[..], address, offset)
    {
      if address + offset >= U32_LIMIT {
        return Err(AddressOverflow);
      }
      if address + offset >= memory.Length {
        return Err(GuestMemory);
      }
      memory[address + offset] := 0;
    }
    return Ok(());
  }

  /** An allocation: the lowest fit if there is one, else a refusal that changes nothing. */
  ghost predicate Allocates(before: Option<GuestHeap>, after: Option<GuestHeap>, size: u32, r: Result<u32, BiosError>)
    requires before.Some? ==> before.value.Valid()
  {
    match r
    case Ok(address) =>
      && before.Some? && after.Some? && BlockSize(size).Ok?
      && Inserted(before.value, after.value, HeapBlock(address, BlockSize(size).value))
      && address % HEAP_ALIGNMENT == 0 && before.value.LowestFit(address, BlockSize(size).value)
    case Err(e) =>
      && after == before
      && if before.None? then e == HeapUnavailable
         else if BlockSize(size).Err? then e == AddressOverflow
         else
           && before.value.FitsNowhere(BlockSize(size).value)
           && e == if before.value.Top() + BlockSize(size).value >= U32_LIMIT then AddressOverflow else OutOfMemory
  }

  /** `count` bytes from `address` are zero, as far as they lie in memory, and no other byte differs. */
  ghost predicate Zeroed(before: seq<u8>, after: seq<u8>, address: int, count: nat)
  {
    && |after| == |before|
    && forall a :: 0 <= a < |after| ==> after[a] == if address <= a < address + count then 0 else before[a]
  }
}
