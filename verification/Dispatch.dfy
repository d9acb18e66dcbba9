/** The fixed guest area below the heap: control block, exception frame, entry stubs, import trampolines. */
module Dispatch {
  import opened Machine
  import opened Wrappers
  import opened LittleEndian
  import opened KernelErrors
  import opened GuestMemory
  import opened ModuleRecords

  const CONTROL_BLOCK_ADDRESS := 0x200
  const CONTROL_BLOCK_SIZE := 0x80
  const CONTROL_WORDS_SIZE := 68
  const CONTROL_MAGIC: u32 := 0x4832_5055
  const EXCEPTION_FRAME_ADDRESS := 0x280
  const EXCEPTION_FRAME_SIZE := 38 * 4
  const EXCEPTION_ENTRY := 0x400
  const CORE_ENTRY_COUNT: nat := 5
  const IMPORT_TRAMPOLINE_BASE := 0x800
  const IMPORT_TRAMPOLINE_COUNT: nat := 1024
  const STRIDE := 16

  /** Blocks that a reset writes: control block, exception frame, entry stubs, trampolines. */
  const BLOCKS: nat := 2 + CORE_ENTRY_COUNT + IMPORT_TRAMPOLINE_COUNT
  const AREA_END := IMPORT_TRAMPOLINE_BASE + IMPORT_TRAMPOLINE_COUNT * STRIDE

  method WriteGuest(guest: GuestRam, address: u32, data: seq<u8>) returns (r: Result<(), BiosError>)
    requires guest.Valid() && data != []
    modifies guest.bytes, guest`refusals
    ensures r.Ok? ==> guest.Contains(address, |data|) && guest.View() == Splice(old(guest.View()), address, data)
    ensures r.Err? ==> guest.View() == old(guest.View())
    ensures address > 0 && guest.Contains(address, |data|) && r.Err? ==> r.error == GuestFailure
    ensures address > 0 && guest.Contains(address, |data|) && old(guest.refusals) == [] ==> r.Ok?
    ensures old(guest.refusals) != [] && old(guest.refusals)[0] ==> r.Err?
    ensures old(guest.refusals) == [] ==> guest.refusals == []
  {
    if address == 0 || !guest.Contains(address, |data|) {
      return Err(Kernel(IllegalObject));
    }
    var ok := guest.Write(address, data);
    return if ok then Ok(()) else Err(GuestFailure);
  }

  /** Seventeen words, and zeros up to the size of the block; the module head is among the zeros. */
  function ControlBlock(words: seq<u8>): (block: seq<u8>)
    requires |words| == CONTROL_WORDS_SIZE
    ensures |block| == CONTROL_BLOCK_SIZE && words <= block
    ensures forall k :: CONTROL_WORDS_SIZE <= k < |block| ==> block[k] == 0
  {
    words + seq(CONTROL_BLOCK_SIZE - CONTROL_WORDS_SIZE, _ => 0)
  }

  /** A break instruction carrying the code, a no-op, the magic and the code once more. */
  function GuardStub(code: nat): (stub: seq<u8>)
    requires code < 0x10_0000
    ensures |stub| == STRIDE
  {
    EncodeU32(code * 64 + 0x0d) + EncodeU32(0) + EncodeU32(CONTROL_MAGIC) + EncodeU32(code)
  }

  function BlockAddress(k: nat): (a: nat)
    requires k < BLOCKS
    ensures CONTROL_BLOCK_ADDRESS <= a < AREA_END
  {
    if k == 0 then CONTROL_BLOCK_ADDRESS
    else if k == 1 then EXCEPTION_FRAME_ADDRESS
    else if k < 2 + CORE_ENTRY_COUNT then EXCEPTION_ENTRY + (k - 2) * STRIDE
    else IMPORT_TRAMPOLINE_BASE + (k - 2 - CORE_ENTRY_COUNT) * STRIDE
  }

  function Block(k: nat, words: seq<u8>): (block: seq<u8>)
    requires k < BLOCKS && |words| == CONTROL_WORDS_SIZE
    ensures BlockAddress(k) + |block| == BlockEnd(k)
  {
    if k == 0 then ControlBlock(words)
    else if k == 1 then seq(EXCEPTION_FRAME_SIZE, _ => 0)
    else if k < 2 + CORE_ENTRY_COUNT then GuardStub(0x100 + (k - 2))
    else GuardStub(0x200 + (k - 2 - CORE_ENTRY_COUNT))
  }

  function BlockEnd(k: nat): (e: nat)
    requires k < BLOCKS
    ensures BlockAddress(k) < e <= AREA_END
    ensures forall j :: k < j < BLOCKS ==> e <= BlockAddress(j)
  {
    BlockAddress(k) + (if k == 0 then CONTROL_BLOCK_SIZE else if k == 1 then EXCEPTION_FRAME_SIZE else STRIDE)
  }

  /** Where the first `n` blocks end. */
  function AreaEnd(n: nat): (e: nat)
    requires n <= BLOCKS
    ensures 0 <= e <= AREA_END
    ensures n < BLOCKS ==> e <= BlockAddress(n)
    ensures n == BLOCKS ==> e == AREA_END
  {
    if n == 0 then 0 else BlockEnd(n - 1)
  }

  /** Guest memory after the first `n` blocks. */
  function Written(mem: seq<u8>, n: nat, words: seq<u8>): (r: seq<u8>)
    requires n <= BLOCKS && AreaEnd(n) <= |mem| && |words| == CONTROL_WORDS_SIZE
    ensures |r| == |mem|
  {
    if n == 0 then mem else Splice(Written(mem, n - 1, words), BlockAddress(n - 1), Block(n - 1, words))
  }

  /** Every block arrives and stays intact, and nothing outside the fixed area changes. */
  lemma {:induction false} AreaWritten(mem: seq<u8>, n: nat, words: seq<u8>)
    requires n <= BLOCKS && AreaEnd(n) <= |mem| && |words| == CONTROL_WORDS_SIZE
    ensures forall k :: 0 <= k < n ==>
              BlockEnd(k) <= |mem| && Written(mem, n, words)[BlockAddress(k)..BlockEnd(k)] == Block(k, words)
    ensures forall a :: 0 <= a < |mem| && !(CONTROL_BLOCK_ADDRESS <= a < AreaEnd(n)) ==>
              Written(mem, n, words)[a] == mem[a]
  {
    hide Block, BlockAddress, BlockEnd;
    if n > 0 {
      AreaWritten(mem, n - 1, words);
      var was, now := Written(mem, n - 1, words), Written(mem, n, words);
      forall k | 0 <= k < n
        ensures BlockEnd(k) <= |mem| && now[BlockAddress(k)..BlockEnd(k)] == Block(k, words)
      {
        if k < n - 1 {
          assert now[BlockAddress(k)..BlockEnd(k)] == was[BlockAddress(k)..BlockEnd(k)];
        }
      }
    }
  }

  /** Once the first block is there, the module head reads zero. */
  lemma HeadCleared(mem: seq<u8>, n: nat, words: seq<u8>)
    requires 0 < n <= BLOCKS && AreaEnd(n) <= |mem| && |words| == CONTROL_WORDS_SIZE
    ensures forall a :: MODULE_HEAD_ADDRESS <= a < MODULE_HEAD_ADDRESS + 4 ==> Written(mem, n, words)[a] == 0
  {
    AreaWritten(mem, n, words);
    var block := Written(mem, n, words)[BlockAddress(0)..BlockEnd(0)];
    assert block == ControlBlock(words);
    forall a | MODULE_HEAD_ADDRESS <= a < MODULE_HEAD_ADDRESS + 4
      ensures Written(mem, n, words)[a] == 0
    {
      assert Written(mem, n, words)[a] == block[a - CONTROL_BLOCK_ADDRESS];
    }
  }

  /** A break instruction with the code in its code field, and the magic and the code for the trap to find. */
  predicate StubAt(mem: seq<u8>, a: nat, code: nat)
  {
    && a + 16 <= |mem| && U32At(mem, a) / 64 == code && U32At(mem, a) % 64 == 0x0d && U32At(mem, a + 4) == 0
    && (mem[a + 8] as int, mem[a + 9] as int, mem[a + 10] as int, mem[a + 11] as int)
       == ('U' as int, 'P' as int, '2' as int, 'H' as int)
    && U32At(mem, a + 12) == code
  }

  lemma StubIs(mem: seq<u8>, a: nat, code: nat)
    requires code < 0x10_0000 && a + 16 <= |mem| && mem[a..a + 16] == GuardStub(code)
    ensures StubAt(mem, a, code)
  {
    hide U32At, EncodeU32;
    var v := code * 64 + 0x0d;
    assert mem == mem[..a] + EncodeU32(v) + mem[a + 4..];
    ReadBack(mem[..a], v, mem[a + 4..]);
    assert mem == mem[..a + 4] + EncodeU32(0) + mem[a + 8..];
    ReadBack(mem[..a + 4], 0, mem[a + 8..]);
    assert mem == mem[..a + 12] + EncodeU32(code) + mem[a + 16..];
    ReadBack(mem[..a + 12], code, mem[a + 16..]);
    assert mem[a + 8..a + 12] == EncodeU32(CONTROL_MAGIC);
    MagicSpells(mem[a + 8..a + 12]);
  }

  lemma MagicSpells(s: seq<u8>)
    requires s == EncodeU32(CONTROL_MAGIC)
    ensures s[0] == 'U' as int && s[1] == 'P' as int && s[2] == '2' as int && s[3] == 'H' as int
  {
  }

  /**
   * What guest code finds after a reset: the control block at 0x200, a cleared exception frame, five entry stubs from
   * 0x400 and 1024 trampolines from 0x800, sixteen bytes apart, each with its own code.
   */
  lemma AreaReads(mem: seq<u8>, words: seq<u8>)
    requires |words| == CONTROL_WORDS_SIZE && 0x4800 <= |mem|
    ensures var now := Written(mem, BLOCKS, words);
            && now[0x200..0x200 + 68] == words && (forall a :: 0x244 <= a < 0x318 ==> now[a] == 0)
            && (forall i :: 0 <= i < 5 ==> StubAt(now, 0x400 + 16 * i, 0x100 + i))
            && (forall i :: 0 <= i < 1024 ==> StubAt(now, 0x800 + 16 * i, 0x200 + i))
            && forall a :: 0 <= a < |mem| && !(0x200 <= a < 0x4800) ==> now[a] == mem[a]
  {
    hide Written, GuardStub, StubAt;
    var now := Written(mem, BLOCKS, words);
    AreaWritten(mem, BLOCKS, words);
    FirstBlocks(now, words);
    forall i | 0 <= i < 5
      ensures StubAt(now, 0x400 + 16 * i, 0x100 + i)
    {
      assert BlockAddress(2 + i) == 0x400 + 16 * i;
      StubIs(now, 0x400 + 16 * i, 0x100 + i);
    }
    forall i | 0 <= i < 1024
      ensures StubAt(now, 0x800 + 16 * i, 0x200 + i)
    {
      assert BlockAddress(7 + i) == 0x800 + 16 * i;
      StubIs(now, 0x800 + 16 * i, 0x200 + i);
    }
  }

  lemma FirstBlocks(now: seq<u8>, words: seq<u8>)
    requires |words| == CONTROL_WORDS_SIZE && 0x4800 <= |now|
    requires forall k :: 0 <= k < BLOCKS ==>
               BlockEnd(k) <= |now| && now[BlockAddress(k)..BlockEnd(k)] == Block(k, words)
    ensures now[0x200..0x200 + 68] == words
    ensures forall a :: 0x244 <= a < 0x318 ==> now[a] == 0
  {
    var control, frame := now[BlockAddress(0)..BlockEnd(0)], now[BlockAddress(1)..BlockEnd(1)];
    assert control == Block(0, words) && frame == Block(1, words);
    assert now[0x200..0x280] == control && now[0x280..0x318] == frame;
    assert now[0x200..0x200 + 68] == control[..68];
    forall a | 0x244 <= a < 0x318
      ensures now[a] == 0
    {
      assert now[a] == if a < 0x280 then control[a - 0x200] else frame[a - 0x280];
    }
  }

  /** One block, behind those already written to `mem`. */
  method WriteBlock(guest: GuestRam, k: nat, words: seq<u8>, ghost mem: seq<u8>) returns (r: Result<(), BiosError>)
    requires guest.Valid() && k < BLOCKS && |words| == CONTROL_WORDS_SIZE
    requires AreaEnd(k) <= |mem| && guest.View() == Written(mem, k, words)
    modifies guest.bytes, guest`refusals
    ensures r.Ok? ==> AreaEnd(k + 1) <= |mem| && guest.View() == Written(mem, k + 1, words)
    ensures r.Ok? ==> guest.first <= BlockAddress(k)
    ensures r.Err? ==> guest.View() == old(guest.View())
    ensures old(guest.refusals) == [] ==> (r.Ok? <==> guest.first <= BlockAddress(k) && AreaEnd(k + 1) <= |mem|)
    ensures old(guest.refusals) != [] && old(guest.refusals)[0] ==> r.Err?
    ensures old(guest.refusals) == [] ==> guest.refusals == []
  {
    hide Block;
    r := WriteGuest(guest, BlockAddress(k), Block(k, words));
  }

  /** Writes the fixed area block by block; `done` counts the blocks written before a refusal. */
  method ResetArea(guest: GuestRam, words: seq<u8>) returns (r: Result<(), BiosError>, ghost done: nat)
    requires guest.Valid() && |words| == CONTROL_WORDS_SIZE
    modifies guest.bytes, guest`refusals
    ensures done <= BLOCKS && AreaEnd(done) <= |guest.View()|
    ensures guest.View() == Written(old(guest.View()), done, words)
    ensures r.Ok? <==> done == BLOCKS
    ensures done > 0 ==> guest.first <= CONTROL_BLOCK_ADDRESS
    ensures old(guest.refusals) == [] ==>
              (r.Ok? <==> guest.first <= CONTROL_BLOCK_ADDRESS && AREA_END <= |guest.View()|)
    ensures old(guest.refusals) != [] && old(guest.refusals)[0] ==> r.Err?
    ensures old(guest.refusals) == [] ==> guest.refusals == []
  {
    hide Written, Block, BlockEnd, BlockAddress, AreaEnd;
    AreaBounds();
    ghost var mem := guest.View();
    assert mem == Written(mem, 0, words) by {
      WrittenNothing(mem, words);
    }
    done := 0;
    r := WriteBlock(guest, 0, words, mem);
    if r.Err? {
      return;
    }
    done := 1;
    r := WriteBlock(guest, 1, words, mem);
    if r.Err? {
      return;
    }
    done := 2;
    for index := 0 to CORE_ENTRY_COUNT
      invariant done == 2 + index && r.Ok?
      invariant AreaEnd(done) <= |mem| && guest.View() == Written(mem, done, words)
      invariant old(guest.refusals) == [] ==> guest.refusals == []
    {
      r := WriteBlock(guest, 2 + index, words, mem);
      if r.Err? {
        return;
      }
      done := done + 1;
    }
    for index := 0 to IMPORT_TRAMPOLINE_COUNT
      invariant done == 2 + CORE_ENTRY_COUNT + index && r.Ok?
      invariant AreaEnd(done) <= |mem| && guest.View() == Written(mem, done, words)
      invariant old(guest.refusals) == [] ==> guest.refusals == []
    {
      r := WriteBlock(guest, 2 + CORE_ENTRY_COUNT + index, words, mem);
      if r.Err? {
        return;
      }
      done := done + 1;
    }
  }

  lemma AreaBounds()
    ensures BlockAddress(0) == CONTROL_BLOCK_ADDRESS && AreaEnd(0) == 0
  {
  }

  lemma WrittenNothing(mem: seq<u8>, words: seq<u8>)
    requires |words| == CONTROL_WORDS_SIZE
    ensures Written(mem, 0, words) == mem
  {
  }
}
