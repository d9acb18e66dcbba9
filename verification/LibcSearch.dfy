/**
 * Guest-driven `lsearch` and `bsearch`: which element is found, in how many comparisons, and that memory is
 * untouched.
 */
module LibcSearch {
  import opened Machine
  import opened Wrappers
  import opened LittleEndian
  import opened Libc
  import opened LibcSort

  /**
   * What the guest comparator returns for the addresses of a key and of an element. A search leaves memory
   * alone, so this covers every comparator that looks at memory, whether or not the element lies in RAM.
   */
  type KeyComparator = (u32, int) -> int

  /** Where the elements of an array begin. */
  function Addresses(base: int, count: nat, width: int): (r: seq<int>)
    ensures |r| == count && forall k :: 0 <= k < count ==> r[k] == At(base, k, width)
  {
    seq(count, k requires 0 <= k < count => At(base, k, width))
  }

  ghost predicate KeyReturnable(compare: KeyComparator)
  {
    forall key, x :: -0x8000_0000 <= compare(key, x) < 0x8000_0000
  }

  /** First the elements below the key, then those that match, then those above it. */
  ghost predicate Ordered(e: seq<int>, key: u32, compare: KeyComparator)
  {
    && (forall j, k :: 0 <= j < k < |e| && compare(key, e[j]) < 0 ==> compare(key, e[k]) < 0)
    && (forall j, k :: 0 <= j < k < |e| && compare(key, e[k]) > 0 ==> compare(key, e[j]) > 0)
  }

  ghost predicate Matches(e: seq<int>, k: int, key: u32, compare: KeyComparator)
  {
    0 <= k < |e| && compare(key, e[k]) == 0
  }

  function Log2(n: nat): nat
  {
    if n < 2 then 0 else 1 + Log2(n / 2)
  }

  lemma {:induction false} Log2Grows(m: nat, n: nat)
    requires m <= n
    ensures Log2(m) <= Log2(n)
  {
    if m >= 2 {
      Log2Grows(m / 2, n / 2);
    }
  }

  /** Comparisons a search may need. */
  function Budget(kind: LibcKind, count: nat): nat
  {
    if kind.Bsearch? then Log2(count) + 1 else count
  }

  /** A suspended search between two callbacks. */
  ghost predicate Searching(op: LibcOperation, context: CpuContext, e: seq<int>, calls: nat, compare: KeyComparator)
    requires context.Valid()
  {
    var kind, key := op.kind, context.Argument(0);
    && !kind.Qsort? && kind.Valid() && op == LibcOperation(context, op.callback, calls + 1, kind)
    && kind.key == key && kind.base == context.Argument(1) && kind.width == context.Argument(3)
    && |e| == context.Argument(2)
    && (kind.Lsearch? ==>
          kind.elements == |e| && calls == kind.index && forall j :: 0 <= j < calls ==> compare(key, e[j]) != 0)
    && (kind.Bsearch? ==>
          && kind.high <= |e| && calls + Log2(kind.high - kind.low) <= Log2(|e|)
          && (Ordered(e, key, compare) ==> Narrowed(e, kind.low, kind.high, key, compare)))
  }

  /** Only indices from `low` up to `high` can still match. */
  ghost predicate Narrowed(e: seq<int>, low: nat, high: nat, key: u32, compare: KeyComparator)
  {
    forall j :: 0 <= j < |e| && !(low <= j < high) ==> compare(key, e[j]) != 0
  }

  /** What a completed search returns. */
  ghost predicate Found(kind: LibcKind, value: u32, e: seq<int>, key: u32, base: int, width: int,
                        compare: KeyComparator)
  {
    if kind.Lsearch? then
      || (value == 0 && forall k :: !Matches(e, k, key, compare))
      || exists k :: && Matches(e, k, key, compare) && value == At(base, k, width)
                     && forall j :: 0 <= j < k ==> !Matches(e, j, key, compare)
    else
      || (exists k :: Matches(e, k, key, compare) && value == At(base, k, width))
      || (value == 0 && (Ordered(e, key, compare) ==> forall k :: !Matches(e, k, key, compare)))
  }

  lemma Halves(kind: LibcKind, count: nat, calls: nat, result: int)
    requires kind.Bsearch? && kind.Valid() && kind.high <= count && calls + Log2(kind.high - kind.low) <= Log2(count)
    ensures After(kind, result).Continue? ==>
              var next := After(kind, result).kind;
              next.Bsearch? && next.low < next.high && calls + 1 + Log2(next.high - next.low) <= Log2(count)
  {
    if After(kind, result).Continue? {
      var next := After(kind, result).kind;
      Log2Grows(next.high - next.low, (kind.high - kind.low) / 2);
    }
  }

  lemma NarrowedStep(kind: LibcKind, e: seq<int>, key: u32, compare: KeyComparator)
    requires kind.Bsearch? && kind.Valid() && kind.high <= |e| && compare(key, e[kind.middle]) != 0
    requires Ordered(e, key, compare) && Narrowed(e, kind.low, kind.high, key, compare)
    ensures if compare(key, e[kind.middle]) < 0 then Narrowed(e, kind.low, kind.middle, key, compare)
            else Narrowed(e, kind.middle + 1, kind.high, key, compare)
  {
  }

  /** The search after one result: still suspended, or answered. */
  ghost predicate Advanced(op: LibcOperation, verdict: Verdict, context: CpuContext, e: seq<int>, calls: nat,
                           compare: KeyComparator)
    requires context.Valid() && !op.kind.Qsort?
  {
    if verdict.Continue? then
      Searching(op.(calls := op.calls + 1, kind := verdict.kind), context, e, calls + 1, compare)
    else
      && verdict.value.Some?
      && Found(op.kind, verdict.value.value, e, op.kind.key, op.kind.base, op.kind.width, compare)
  }

  /** One comparator result takes a suspended search to the next one, or to its answer. */
  lemma SearchAdvances(op: LibcOperation, context: CpuContext, e: seq<int>, calls: nat, compare: KeyComparator,
                       result: int)
    requires context.Valid() && Searching(op, context, e, calls, compare)
    requires 0 <= Compared(op.kind).1 < |e| && result == compare(op.kind.key, e[Compared(op.kind).1])
    ensures calls + (if After(op.kind, result).Continue? then 2 else 1) <= Budget(op.kind, |e|)
    ensures Advanced(op, After(op.kind, result), context, e, calls, compare)
  {
    hide Ordered, At;
    if op.kind.Lsearch? {
      LsearchAdvances(op, context, e, calls, compare, result);
    } else {
      BsearchAdvances(op, context, e, calls, compare, result);
    }
  }

  lemma LsearchAdvances(op: LibcOperation, context: CpuContext, e: seq<int>, calls: nat, compare: KeyComparator,
                        result: int)
    requires context.Valid() && Searching(op, context, e, calls, compare) && op.kind.Lsearch?
    requires 0 <= Compared(op.kind).1 < |e| && result == compare(op.kind.key, e[Compared(op.kind).1])
    ensures calls + (if After(op.kind, result).Continue? then 2 else 1) <= |e|
    ensures Advanced(op, After(op.kind, result), context, e, calls, compare)
  {
  }

  lemma BsearchAdvances(op: LibcOperation, context: CpuContext, e: seq<int>, calls: nat, compare: KeyComparator,
                        result: int)
    requires context.Valid() && Searching(op, context, e, calls, compare) && op.kind.Bsearch?
    requires 0 <= Compared(op.kind).1 < |e| && result == compare(op.kind.key, e[Compared(op.kind).1])
    ensures calls + (if After(op.kind, result).Continue? then 2 else 1) <= Log2(|e|) + 1
    ensures Advanced(op, After(op.kind, result), context, e, calls, compare)
  {
    hide Ordered, At;
    Halves(op.kind, |e|, calls, result);
    if result == 0 {
      assert Matches(e, op.kind.middle, op.kind.key, compare);
    } else if Ordered(e, op.kind.key, compare) {
      NarrowedStep(op.kind, e, op.kind.key, compare);
    }
    if After(op.kind, result).Continue? {
      AfterValid(op.kind, result);
    }
  }

  /**
   * Answers callbacks until the suspended search completes: each time the routine runs that the program counter
   * names.
   */
  method DriveSearch(bios: BiosHle, first: CpuContext, memory: array<u8>, code: u32 -> KeyComparator,
                     clobber: nat -> CpuContext, ghost context: CpuContext, ghost e: seq<int>, ghost kind: LibcKind)
    returns (r: Result<CpuContext, BiosError>, calls: nat)
    requires bios.Valid() && context.Valid() && forall k :: clobber(k).Valid()
    requires bios.operation.Some? && KeyReturnable(code(bios.operation.value.callback))
    requires first == CallContext(bios.operation.value) && bios.operation.value.kind == kind
    requires Searching(bios.operation.value, context, e, 0, code(bios.operation.value.callback))
    requires e == Addresses(context.Argument(1), |e|, context.Argument(3))
    modifies bios`operation, memory
    ensures bios.Valid() && bios.operation.None? && memory[..] == old(memory[..])
    ensures calls <= Budget(kind, |e|)
    ensures r.Ok? ==> Answered(context, kind, e, old(code(bios.operation.value.callback)), r.value)
    ensures Budget(kind, |e|) <= bios.limits.libcCallbackCalls ==> r.Ok?
  {
    hide Searching, Addresses, CallContext, After, At, Found, Ordered, AtComparator, BackAtCaller, GoesOn,
         KeyReturnable;
    var current := first;
    ghost var start, compare := memory[..], code(bios.operation.value.callback);
    ghost var comparator := bios.operation.value.callback;
    calls := 0;
    BudgetPositive(bios.operation.value, context, e, compare);
    while true
      invariant bios.Valid() && bios.operation.Some? && current == CallContext(bios.operation.value)
      invariant Searching(bios.operation.value, context, e, calls, compare)
      invariant bios.operation.value.kind.Bsearch? == kind.Bsearch? && bios.operation.value.callback == comparator
      invariant memory[..] == start && calls + 1 <= Budget(kind, |e|)
      decreases Budget(kind, |e|) - calls
    {
      ghost var op := bios.operation.value;
      SearchOperand(op, context, e, calls, compare);
      assert current.pc == comparator && current.registers[31] == CALLBACK_RETURN_PC;
      var result := code(current.pc)(current.registers[A0], current.registers[A0 + 1]);
      KeyInRange(compare, current.registers[A0], current.registers[A0 + 1]);
      calls := calls + 1;
      var returned := clobber(calls).WithResult(ToWord(result));
      var resumed := bios.ResumeCallback(returned, memory);
      SearchAdvances(op, context, e, calls - 1, compare, result);
      if resumed.Err? {
        return Err(resumed.error), calls;
      }
      if resumed.value.0 == Return {
        FoundKind(op.kind, kind, After(op.kind, result), context, e, compare, resumed.value.1);
        return Ok(resumed.value.1), calls;
      }
      AfterKind(op.kind, result);
      current := resumed.value.1;
    }
  }

  lemma KeyInRange(compare: KeyComparator, key: u32, x: int)
    requires KeyReturnable(compare)
    ensures -0x8000_0000 <= compare(key, x) < 0x8000_0000
  {
  }

  /** The caller's context comes back with the answer in its result register. */
  ghost predicate Answered(context: CpuContext, kind: LibcKind, e: seq<int>, compare: KeyComparator, final: CpuContext)
    requires context.Valid()
  {
    && final.Valid()
    && final == context.WithResult(final.registers[V0]).Returned()
    && Found(kind, final.registers[V0], e, context.Argument(0), context.Argument(1), context.Argument(3), compare)
  }

  lemma BudgetPositive(op: LibcOperation, context: CpuContext, e: seq<int>, compare: KeyComparator)
    requires context.Valid() && Searching(op, context, e, 0, compare)
    ensures 1 <= Budget(op.kind, |e|) && !op.kind.Qsort?
  {
  }

  lemma SearchOperand(op: LibcOperation, context: CpuContext, e: seq<int>, calls: nat, compare: KeyComparator)
    requires context.Valid() && Searching(op, context, e, calls, compare)
    requires e == Addresses(context.Argument(1), |e|, context.Argument(3))
    ensures op.kind.Valid() && op.savedContext.Valid() && op.savedContext == context
    ensures op.calls == calls + 1
    ensures |CallContext(op).registers| == 32 && CallContext(op).pc == op.callback
    ensures CallContext(op).registers[31] == 0xffff_ff00
    ensures 0 <= Compared(op.kind).1 < |e| && op.kind.key == context.Argument(0) == CallContext(op).registers[A0]
    ensures op.kind.base == context.Argument(1) && op.kind.width == context.Argument(3)
    ensures CallContext(op).registers[A0 + 1] == e[Compared(op.kind).1]
    ensures !op.kind.Qsort?
  {
    hide CallContext, At, Ordered, Comparands;
    CallOperands(op);
  }

  lemma AfterKind(kind: LibcKind, result: int)
    requires kind.Valid() && After(kind, result).Continue?
    ensures After(kind, result).kind.Bsearch? == kind.Bsearch?
  {
  }

  lemma FoundKind(now: LibcKind, kind: LibcKind, verdict: Verdict, context: CpuContext, e: seq<int>,
                  compare: KeyComparator, final: CpuContext)
    requires context.Valid() && verdict.Finished? && verdict.value.Some? && !now.Qsort? && !kind.Qsort?
    requires now.Bsearch? == kind.Bsearch?
    requires Found(now, verdict.value.value, e, context.Argument(0), context.Argument(1), context.Argument(3), compare)
    requires final == context.WithResult(verdict.value.value).Returned()
    ensures Answered(context, kind, e, compare, final)
  {
    hide Ordered, At;
  }

  /** `lsearch` returns the first match, comparing each element at most once. */
  method RunLsearch(bios: BiosHle, context: CpuContext, memory: array<u8>, code: u32 -> KeyComparator,
                    clobber: nat -> CpuContext)
    returns (r: Result<CpuContext, BiosError>, calls: nat)
    requires bios.Valid() && bios.operation.None? && context.Valid() && forall k :: clobber(k).Valid()
    requires KeyReturnable(code(ComparatorOf(context, memory[..])))
    modifies bios`operation, memory
    ensures bios.Valid() && bios.operation.None? && memory[..] == old(memory[..])
    ensures calls <= context.Argument(2)
    ensures r.Ok? && context.Argument(3) == 0 ==> BackAtCaller(r.value, context, Some(0))
    ensures r.Ok? && context.Argument(3) > 0 ==>
              FirstMatch(context, Addresses(context.Argument(1), context.Argument(2), context.Argument(3)),
                         code(ComparatorOf(context, old(memory[..]))), r.value)
    ensures r.Ok? ==> bios.SearchAccepted(context, memory.Length)
    ensures bios.SearchAccepted(context, memory.Length) && context.Argument(2) <= bios.limits.libcCallbackCalls ==>
              r.Ok?
  {
    hide Searching, Addresses, CallContext, At, Found, Ordered, LibcKind.Valid, AtComparator;
    ghost var compare := code(ComparatorOf(context, memory[..]));
    ghost var e := Addresses(context.Argument(1), context.Argument(2), context.Argument(3));
    calls := 0;
    var started := bios.StartLsearch(context, memory);
    if started.Err? {
      return Err(started.error), calls;
    }
    if !started.value.0 {
      return Ok(started.value.1.Returned()), calls;
    }
    ghost var op := bios.operation.value;
    StartsSearching(op, context, e, compare);
    r, calls := DriveSearch(bios, started.value.1, memory, code, clobber, context, e, op.kind);
    if r.Ok? {
      FirstMatchFound(op.kind, context, e, compare, r.value);
    }
  }

  /** The word that the caller passed on its stack as the fifth argument. */
  function ComparatorOf(context: CpuContext, mem: seq<u8>): u32
    requires context.Valid()
  {
    var at := (context.registers[29] as int) + 16;
    if at + 4 <= |mem| then U32At(mem, at) else 0
  }

  lemma StartsSearching(op: LibcOperation, context: CpuContext, e: seq<int>, compare: KeyComparator)
    requires context.Valid() && op.kind.Valid() && op == LibcOperation(context, op.callback, 1, op.kind)
    requires |e| == context.Argument(2)
    requires var key, base, count, width :=
               context.Argument(0), context.Argument(1), context.Argument(2), context.Argument(3);
             op.kind == Lsearch(key, base, count, width, 0) || op.kind == Bsearch(key, base, width, 0, count, count / 2)
    ensures Searching(op, context, e, 0, compare)
  {
  }

  /** The address of the first match, or zero exactly when there is none (or the match lies at address zero). */
  ghost predicate FirstMatch(context: CpuContext, e: seq<int>, compare: KeyComparator, final: CpuContext)
    requires context.Valid()
  {
    && final.Valid() && BackAtCaller(final, context, Some(final.registers[2]))
    && (forall k :: Matches(e, k, context.Argument(0), compare)
                    && (forall j :: 0 <= j < k ==> !Matches(e, j, context.Argument(0), compare)) ==>
                    final.registers[2] == At(context.Argument(1), k, context.Argument(3)))
    && ((forall k :: !Matches(e, k, context.Argument(0), compare)) ==> final.registers[2] == 0)
  }

  lemma FirstMatchFound(kind: LibcKind, context: CpuContext, e: seq<int>, compare: KeyComparator, final: CpuContext)
    requires context.Valid() && kind.Lsearch? && Answered(context, kind, e, compare, final)
    ensures FirstMatch(context, e, compare, final)
  {
  }

  /** `bsearch` on an ordered array finds a match if there is one, in at most floor(log2 n) + 1 comparisons. */
  method RunBsearch(bios: BiosHle, context: CpuContext, memory: array<u8>, code: u32 -> KeyComparator,
                    clobber: nat -> CpuContext)
    returns (r: Result<CpuContext, BiosError>, calls: nat)
    requires bios.Valid() && bios.operation.None? && context.Valid() && forall k :: clobber(k).Valid()
    requires KeyReturnable(code(ComparatorOf(context, memory[..])))
    modifies bios`operation, memory
    ensures bios.Valid() && bios.operation.None? && memory[..] == old(memory[..])
    ensures calls <= Log2(context.Argument(2)) + 1
    ensures r.Ok? && context.Argument(3) == 0 ==> BackAtCaller(r.value, context, Some(0))
    ensures r.Ok? && context.Argument(3) > 0 ==>
              SomeMatch(context, Addresses(context.Argument(1), context.Argument(2), context.Argument(3)),
                        code(ComparatorOf(context, old(memory[..]))), r.value)
    ensures r.Ok? ==> bios.SearchAccepted(context, memory.Length)
    ensures bios.SearchAccepted(context, memory.Length) && Log2(context.Argument(2)) < bios.limits.libcCallbackCalls ==>
              r.Ok?
  {
    hide Searching, Addresses, CallContext, At, Found, Ordered, LibcKind.Valid, AtComparator;
    ghost var compare := code(ComparatorOf(context, memory[..]));
    ghost var e := Addresses(context.Argument(1), context.Argument(2), context.Argument(3));
    calls := 0;
    var started := bios.StartBsearch(context, memory);
    if started.Err? {
      return Err(started.error), calls;
    }
    if !started.value.0 {
      return Ok(started.value.1.Returned()), calls;
    }
    ghost var op := bios.operation.value;
    StartsSearching(op, context, e, compare);
    r, calls := DriveSearch(bios, started.value.1, memory, code, clobber, context, e, op.kind);
    if r.Ok? {
      SomeMatchFound(op.kind, context, e, compare, r.value);
    }
  }

  /** On an ordered array: the address of a match if there is one, zero otherwise. */
  ghost predicate SomeMatch(context: CpuContext, e: seq<int>, compare: KeyComparator, final: CpuContext)
    requires context.Valid()
  {
    && final.Valid() && BackAtCaller(final, context, Some(final.registers[2]))
    && (Ordered(e, context.Argument(0), compare) && (exists k :: Matches(e, k, context.Argument(0), compare)) ==>
          exists k :: Matches(e, k, context.Argument(0), compare)
                      && final.registers[2] == At(context.Argument(1), k, context.Argument(3)))
    && ((forall k :: !Matches(e, k, context.Argument(0), compare)) ==> final.registers[2] == 0)
  }

  lemma SomeMatchFound(kind: LibcKind, context: CpuContext, e: seq<int>, compare: KeyComparator, final: CpuContext)
    requires context.Valid() && kind.Bsearch? && Answered(context, kind, e, compare, final)
    ensures SomeMatch(context, e, compare, final)
  {
  }
}
