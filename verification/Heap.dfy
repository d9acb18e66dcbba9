/** The PS1 BIOS heap: a sorted list of live blocks in guest RAM. */
module Heap {
  import opened Machine
  import opened Wrappers
  import opened Libc

  const HEAP_ALIGNMENT := 8

  datatype HeapBlock = HeapBlock(address: u32, size: u32) {
    function End(): int { address + size }
  }

  datatype GuestHeap = GuestHeap(base: u32, end: u32, blocks: seq<HeapBlock>) {
    /** Blocks are aligned, in bounds, in address order and disjoint. */
    predicate Valid()
    {
      && base % HEAP_ALIGNMENT == 0
      && (forall k :: 0 <= k < |blocks| ==>
                        && base <= blocks[k].address && blocks[k].End() <= end
                        && blocks[k].address % HEAP_ALIGNMENT == 0
                        && 0 < blocks[k].size && blocks[k].size % HEAP_ALIGNMENT == 0)
      && (forall j, k :: 0 <= j < k < |blocks| ==> blocks[j].End() <= blocks[k].address)
    }

    /** `size` bytes from `address` lie in the arena and meet no live block. */
    predicate Fits(address: int, size: int)
    {
      && base <= address && address + size <= end
      && forall k :: 0 <= k < |blocks| ==> address + size <= blocks[k].address || blocks[k].End() <= address
    }

    ghost predicate FitsNowhere(size: int) { forall a :: !Fits(a, size) }

    ghost predicate LowestFit(address: int, size: int)
    {
      Fits(address, size) && forall a :: Fits(a, size) ==> address <= a
    }

    /** Where the next block begins, or the arena ends. */
    function Following(index: nat): u32
      requires index < |blocks|
    {
      if index + 1 < |blocks| then blocks[index + 1].address else end
    }

    /** Where the list ends. */
    function Top(): int
    {
      if blocks == [] then base else blocks[|blocks| - 1].End()
    }
  }

  function AlignUp8(value: u32): (r: Result<u32, BiosError>)
    ensures r.Ok? <==> value + 7 < U32_LIMIT
    ensures r.Ok? ==> value <= r.value < value + 8 && r.value % HEAP_ALIGNMENT == 0
    ensures r.Err? ==> r.error == AddressOverflow
  {
    if value + 7 >= U32_LIMIT then Err(AddressOverflow) else Ok((value + 7) / 8 * 8)
  }

  /** Bytes a block of the requested size occupies. */
  function BlockSize(size: u32): (r: Result<u32, BiosError>)
    ensures r.Ok? ==> size <= r.value < size + 9 && 8 <= r.value && r.value % 8 == 0
    ensures r.Ok? <==> size <= 0xffff_fff8
  {
    AlignUp8(Max(size, 1))
  }

  function InsertAt(blocks: seq<HeapBlock>, i: nat, block: HeapBlock): (r: seq<HeapBlock>)
    requires i <= |blocks|
    ensures |r| == |blocks| + 1
    ensures r[i] == block
    ensures forall k :: 0 <= k < i ==> r[k] == blocks[k]
    ensures forall k :: i < k < |r| ==> r[k] == blocks[k - 1]
  {
    blocks[..i] + [block] + blocks[i..]
  }

  function RemoveAt(blocks: seq<HeapBlock>, i: nat): (r: seq<HeapBlock>)
    requires i < |blocks|
    ensures |r| == |blocks| - 1
    ensures forall k :: 0 <= k < i ==> r[k] == blocks[k]
    ensures forall k :: i <= k < |r| ==> r[k] == blocks[k + 1]
  {
    blocks[..i] + blocks[i + 1..]
  }

  /** Position of the block that begins at `address`, or the list length. */
  function Position(blocks: seq<HeapBlock>, address: u32): (k: nat)
    ensures k <= |blocks|
    ensures k < |blocks| ==> blocks[k].address == address
    ensures forall j :: 0 <= j < k ==> blocks[j].address != address
  {
    if blocks == [] || blocks[0].address == address then 0 else 1 + Position(blocks[1..], address)
  }

  /** The list without its block at `address`, if there is one. */
  function Without(blocks: seq<HeapBlock>, address: u32): seq<HeapBlock>
  {
    var k := Position(blocks, address);
    if k < |blocks| then RemoveAt(blocks, k) else blocks
  }

  /** `after` is `before` with `block` inserted in address order. */
  ghost predicate Inserted(before: GuestHeap, after: GuestHeap, block: HeapBlock)
  {
    && after.base == before.base && after.end == before.end
    && |after.blocks| == |before.blocks| + 1
    && exists i :: 0 <= i <= |before.blocks| && after.blocks == InsertAt(before.blocks, i, block)
  }

  lemma InsertedMembers(before: GuestHeap, after: GuestHeap, block: HeapBlock)
    requires Inserted(before, after, block)
    ensures forall b :: b in after.blocks <==> b in before.blocks || b == block
  {
  }

  /** First-fit allocation, in the order the source makes its checks. */
  method AllocateFromHeap(heap: GuestHeap, size: u32) returns (r: Result<(GuestHeap, u32), BiosError>)
    requires heap.Valid()
    ensures r.Ok? ==>
              && BlockSize(size).Ok?
              && r.value.0.Valid()
              && Inserted(heap, r.value.0, HeapBlock(r.value.1, BlockSize(size).value))
              && heap.LowestFit(r.value.1, BlockSize(size).value)
              && r.value.1 % HEAP_ALIGNMENT == 0
    ensures BlockSize(size).Ok? ==> (r.Err? <==> heap.FitsNowhere(BlockSize(size).value))
    ensures r == Err(AddressOverflow) <==>
              || BlockSize(size).Err?
              || (heap.FitsNowhere(BlockSize(size).value) && heap.Top() + BlockSize(size).value >= U32_LIMIT)
    ensures r.Err? ==> r.error in {AddressOverflow, OutOfMemory}
  {
    var allocation := BlockSize(size);
    if allocation.Err? {
      return Err(allocation.error);
    }
    var n := allocation.value;
    var address := heap.base;
    var insertion := |heap.blocks|;
    var i := 0;
    while i < |heap.blocks|
      invariant 0 <= i <= |heap.blocks| && insertion == |heap.blocks|
      invariant Cursor(heap, i, address, n)
    {
      if address + n >= U32_LIMIT {
        BelowTop(heap, i, address);
        return Err(AddressOverflow);
      }
      if address + n <= heap.blocks[i].address {
        insertion := i;
        break;
      }
      PassBlock(heap, i, address, n);
      address := heap.blocks[i].End();
      i := i + 1;
    }
    if address + n >= U32_LIMIT {
      return Err(AddressOverflow);
    }
    if address + n > heap.end {
      return Err(OutOfMemory);
    }
    var block := HeapBlock(address, n);
    var blocks := InsertAt(heap.blocks, insertion, block);
    CursorGap(heap, insertion, address, n);
    GapFits(heap, insertion, block);
    InsertValid(heap, insertion, block);
    return Ok((heap.(blocks := blocks), address));
  }

  /** Exhaustion may be reported as an address overflow: here the fifteen bytes left do not suffice. */
  method OverflowInstead() returns (heap: GuestHeap, r: Result<(GuestHeap, u32), BiosError>)
    ensures heap.Valid() && heap.base < heap.end && r == Err(AddressOverflow)
  {
    heap := GuestHeap(0xffff_fff0, 0xffff_ffff, []);
    r := AllocateFromHeap(heap, 16);
    assert BlockSize(16) == Ok(16);
  }

  /** The candidate after passing `i` blocks: behind them, and no fit starts earlier. */
  ghost predicate Cursor(heap: GuestHeap, i: nat, address: int, n: nat)
  {
    && i <= |heap.blocks|
    && address == (if i == 0 then heap.base else heap.blocks[i - 1].End())
    && forall a :: heap.Fits(a, n) ==> address <= a
  }

  lemma PassBlock(heap: GuestHeap, i: nat, address: int, n: nat)
    requires heap.Valid() && i < |heap.blocks| && Cursor(heap, i, address, n) && address + n > heap.blocks[i].address
    ensures Cursor(heap, i + 1, heap.blocks[i].End(), n) && heap.blocks[i].End() < U32_LIMIT
  {
  }

  lemma BelowTop(heap: GuestHeap, i: nat, address: int)
    requires heap.Valid() && i < |heap.blocks|
    requires address == (if i == 0 then heap.base else heap.blocks[i - 1].End())
    ensures address <= heap.Top()
  {
  }

  /** Behind block `i - 1` and clear of block `i`. */
  ghost predicate Gap(heap: GuestHeap, i: nat, block: HeapBlock)
  {
    && i <= |heap.blocks| && heap.base <= block.address && block.End() <= heap.end
    && (i > 0 ==> heap.blocks[i - 1].End() <= block.address)
    && (i < |heap.blocks| ==> block.End() <= heap.blocks[i].address)
    && block.address % HEAP_ALIGNMENT == 0 && block.size > 0 && block.size % HEAP_ALIGNMENT == 0
  }

  lemma CursorGap(heap: GuestHeap, i: nat, address: u32, n: u32)
    requires heap.Valid() && Cursor(heap, i, address, n) && n > 0 && n % HEAP_ALIGNMENT == 0 && address + n <= heap.end
    requires i < |heap.blocks| ==> address + n <= heap.blocks[i].address
    ensures Gap(heap, i, HeapBlock(address, n))
  {
  }

  lemma GapFits(heap: GuestHeap, i: nat, block: HeapBlock)
    requires heap.Valid() && Gap(heap, i, block)
    ensures heap.Fits(block.address, block.size)
    ensures forall k :: 0 <= k < i ==> heap.blocks[k].End() <= block.address
    ensures forall k :: i <= k < |heap.blocks| ==> block.End() <= heap.blocks[k].address
  {
  }

  lemma InsertValid(heap: GuestHeap, i: nat, block: HeapBlock)
    requires heap.Valid() && Gap(heap, i, block)
    ensures var after := heap.(blocks := InsertAt(heap.blocks, i, block));
            after.Valid() && Inserted(heap, after, block)
  {
    GapFits(heap, i, block);
    hide InsertAt, Gap, GuestHeap.Fits;
  }

  function FreeFromHeap(heap: GuestHeap, address: u32): (r: GuestHeap)
    requires heap.Valid()
    ensures r.Valid()
  {
    hide RemoveAt;
    heap.(blocks := Without(heap.blocks, address))
  }

  /** Freeing removes exactly the block at that address. */
  lemma FreedMembers(heap: GuestHeap, address: u32)
    requires heap.Valid()
    ensures forall b :: b in Without(heap.blocks, address) <==> b in heap.blocks && b.address != address
  {
    hide RemoveAt, Position;
    var k := Position(heap.blocks, address);
    if k < |heap.blocks| {
      var after := Without(heap.blocks, address);
      forall b | b in heap.blocks && b.address != address
        ensures b in after
      {
        var j :| 0 <= j < |heap.blocks| && heap.blocks[j] == b;
        assert after[if j < k then j else j - 1] == b;
      }
    }
  }

  lemma RemoveInserted(blocks: seq<HeapBlock>, i: nat, block: HeapBlock)
    requires i <= |blocks|
    ensures InsertAt(blocks, i, block)[i] == block && RemoveAt(InsertAt(blocks, i, block), i) == blocks
  {
  }

  lemma Ascending(heap: GuestHeap, j: nat, k: nat)
    requires heap.Valid() && j < k < |heap.blocks|
    ensures heap.blocks[j].address < heap.blocks[k].address
  {
    assert heap.blocks[j].End() <= heap.blocks[k].address;
  }

  /** Blocks begin at different addresses, so each is found where it is. */
  lemma PositionUnique(heap: GuestHeap, i: nat)
    requires heap.Valid() && i < |heap.blocks|
    ensures Position(heap.blocks, heap.blocks[i].address) == i
  {
    hide GuestHeap.Valid;
    var k := Position(heap.blocks, heap.blocks[i].address);
    if k < i {
      Ascending(heap, k, i);
    }
  }

  /** Freeing what was just allocated restores the list. */
  lemma AllocateThenFree(before: GuestHeap, after: GuestHeap, block: HeapBlock)
    requires before.Valid() && after.Valid() && Inserted(before, after, block)
    ensures FreeFromHeap(after, block.address) == before
  {
    hide InsertAt, RemoveAt, Position, GuestHeap.Valid;
    var i :| 0 <= i <= |before.blocks| && after.blocks == InsertAt(before.blocks, i, block);
    RemoveInserted(before.blocks, i, block);
    PositionUnique(after, i);
  }
}
