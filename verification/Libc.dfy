/** The comparator-driven libc services of the PS1 BIOS: operations suspended across guest callbacks. */
module Libc {
  import opened Machine
  import opened Wrappers
  import opened LittleEndian

  const V0 := 2
  const A0 := 4
  const SP := 29
  const RA := 31
  const CALLBACK_RETURN_PC: u32 := 0xffff_ff00

  datatype BiosError =
    | AddressOverflow | MemoryOperationLimit | GuestMemory | CallbackDepth | CallbackStackEmpty | LibcCallbackLimit
    | OutOfMemory | HeapUnavailable

  datatype CpuContext = CpuContext(registers: seq<u32>, pc: u32, hi: u32, lo: u32) {
    predicate Valid() { |registers| == 32 }

    function Argument(index: nat): u32
      requires Valid() && index < 4
    {
      registers[A0 + index]
    }

    /** Address of the fifth argument. */
    function FifthArgument(): int
      requires Valid()
    {
      (registers[SP] as int) + 16
    }

    function WithResult(value: u32): CpuContext
      requires Valid()
    {
      this.(registers := registers[V0 := value])
    }

    /** Resumes at the return address. */
    function Returned(): CpuContext
      requires Valid()
    {
      this.(pc := registers[RA])
    }
  }

  /** Two's-complement reading of a register. */
  function Signed(word: u32): int
  {
    if word < 0x8000_0000 then word else word - U32_LIMIT
  }

  /** Address of element `k` of an array. */
  function At(base: int, k: int, width: int): int
  {
    base + k * width
  }

  /** Elements of an array lie one after the other. */
  lemma {:induction false} InOrder(base: nat, i: nat, j: nat, width: nat)
    requires i <= j
    ensures base <= At(base, i, width) <= At(base, j, width)
    ensures i < j ==> At(base, i, width) + width <= At(base, j, width)
    ensures i + 1 == j ==> At(base, i, width) + width == At(base, j, width)
    decreases j - i
  {
    if i < j {
      InOrder(base, i, j - 1, width);
      assert At(base, j, width) == At(base, j - 1, width) + width;
    } else {
      NonNegative(i, width);
    }
  }

  lemma NonNegative(i: nat, width: nat)
    ensures 0 <= i * width
  {
  }

  datatype LibcKind =
    | Qsort(base: u32, elements: u32, width: u32, outer: u32, inner: u32)
    | Lsearch(key: u32, base: u32, elements: u32, width: u32, index: u32)
    | Bsearch(key: u32, base: u32, width: u32, low: u32, high: u32, middle: u32)
  {
    /** Index bounds every reachable operation satisfies, so no element address overflows. */
    predicate Valid()
    {
      width > 0
      && match this
         case Qsort(base, elements, width, outer, inner) =>
           1 <= inner <= outer < elements && At(base, elements, width) < U32_LIMIT
         case Lsearch(_, base, elements, width, index) =>
           index < elements && At(base, elements, width) < U32_LIMIT
         case Bsearch(_, base, width, low, high, middle) =>
           low <= middle < high && middle == low + (high - low) / 2 && At(base, high, width) < U32_LIMIT
    }

    /** One past the last byte the operation may still look at. */
    function Extent(): int
    {
      At(base, if Bsearch? then high else elements, width)
    }
  }

  datatype LibcOperation = LibcOperation(savedContext: CpuContext, callback: u32, calls: nat, kind: LibcKind)

  datatype HleAction = Return | Call

  datatype HleLimits = HleLimits(memoryOperationBytes: u32, libcCallbackCalls: nat)

  function ElementAddress(base: u32, index: u32, width: u32): (r: Result<u32, BiosError>)
    ensures r.Ok? <==> At(base, index, width) < U32_LIMIT
    ensures r.Ok? ==> r.value == At(base, index, width)
  {
    NonNegative(index, width);
    if index * width >= U32_LIMIT then Err(AddressOverflow)
    else if base + index * width >= U32_LIMIT then Err(AddressOverflow)
    else Ok(base + index * width)
  }

  /** Indices of the elements the next comparison looks at; a search compares its key with the second. */
  function Compared(kind: LibcKind): (int, int)
  {
    match kind
    case Qsort(_, _, _, _, inner) => (inner - 1, inner)
    case Lsearch(_, _, _, _, index) => (index, index)
    case Bsearch(_, _, _, _, _, middle) => (middle, middle)
  }

  /** What the guest comparator receives in its first two argument registers. */
  function Comparands(kind: LibcKind): (r: Result<(u32, u32), BiosError>)
    requires kind.Valid()
    ensures r.Ok?
    ensures r.value.0 == if kind.Qsort? then At(kind.base, Compared(kind).0, kind.width) else kind.key
    ensures r.value.1 == At(kind.base, Compared(kind).1, kind.width)
    ensures r.value.1 + kind.width <= kind.Extent()
    ensures kind.Qsort? ==> r.value.0 + kind.width == r.value.1
  {
    match kind
    case Qsort(base, elements, width, _, inner) =>
      InOrder(base, inner - 1, inner, width);
      InOrder(base, inner, elements, width);
      Ok((ElementAddress(base, inner - 1, width).value, ElementAddress(base, inner, width).value))
    case Lsearch(key, base, elements, width, index) =>
      InOrder(base, index, elements, width);
      Ok((key, ElementAddress(base, index, width).value))
    case Bsearch(key, base, width, _, high, middle) =>
      InOrder(base, middle, high, width);
      Ok((key, ElementAddress(base, middle, width).value))
  }

  /** Registers and program counter with which the guest comparator is entered. */
  function CallContext(op: LibcOperation): CpuContext
    requires op.savedContext.Valid() && op.kind.Valid()
  {
    var c := Comparands(op.kind).value;
    op.savedContext.(pc := op.callback,
                     registers := op.savedContext.registers[A0 := c.0][A0 + 1 := c.1][RA := CALLBACK_RETURN_PC])
  }

  /**
   * The guest stands at its comparator: the operands in `a0` and `a1`, the way back in `ra`, and in every other
   * register what the suspended caller had there.
   */
  predicate AtComparator(c: CpuContext, saved: CpuContext, comparator: u32, left: u32, right: u32)
    requires saved.Valid()
  {
    && c.pc == comparator && |c.registers| == 32
    && c.registers[4] == left && c.registers[5] == right && c.registers[31] == 0xffff_ff00
    && (forall k :: 0 <= k < 32 && k !in {4, 5, 31} ==> c.registers[k] == saved.registers[k])
    && c.hi == saved.hi && c.lo == saved.lo
  }

  /** The guest is back behind its call: a result, if any, in `v0`, all else as it was. */
  predicate BackAtCaller(c: CpuContext, saved: CpuContext, result: Option<u32>)
    requires saved.Valid()
  {
    && c.pc == saved.registers[31] && |c.registers| == 32
    && (result.Some? ==> c.registers[2] == result.value)
    && (forall k :: 0 <= k < 32 && (result.Some? ==> k != 2) ==> c.registers[k] == saved.registers[k])
    && c.hi == saved.hi && c.lo == saved.lo
  }

  lemma CallStands(op: LibcOperation)
    requires op.savedContext.Valid() && op.kind.Valid()
    ensures AtComparator(CallContext(op), op.savedContext, op.callback, Comparands(op.kind).value.0,
                         Comparands(op.kind).value.1)
  {
    hide Comparands, LibcKind.Valid;
  }

  datatype Verdict = Finished(value: Option<u32>) | Continue(kind: LibcKind)

  /** The element a comparison result selects, or how the search goes on. */
  function After(kind: LibcKind, result: int): Verdict
    requires kind.Valid()
  {
    match kind
    case Qsort(_, elements, _, outer, inner) =>
      var inner' := if result > 0 then inner - 1 else inner;
      if result > 0 && inner' > 0 then Continue(kind.(inner := inner'))
      else if outer + 1 >= elements then Finished(None)
      else Continue(kind.(outer := outer + 1, inner := outer + 1))
    case Lsearch(_, _, elements, _, index) =>
      if result == 0 then Finished(Some(Comparands(kind).value.1))
      else if index + 1 >= elements then Finished(Some(0))
      else Continue(kind.(index := index + 1))
    case Bsearch(_, _, _, low, high, middle) =>
      if result == 0 then Finished(Some(Comparands(kind).value.1))
      else
        var low', high' := if result < 0 then low else middle + 1, if result < 0 then middle else high;
        if low' >= high' then Finished(Some(0))
        else Continue(kind.(low := low', high := high', middle := low' + (high' - low') / 2))
  }

  /** Every continuation keeps the index bounds. */
  lemma AfterValid(kind: LibcKind, result: int)
    requires kind.Valid() && After(kind, result).Continue?
    ensures After(kind, result).kind.Valid()
    ensures After(kind, result).kind.Extent() <= kind.Extent()
    ensures After(kind, result).kind.base == kind.base && After(kind, result).kind.width == kind.width
  {
    if kind.Bsearch? {
      InOrder(kind.base, After(kind, result).kind.high, kind.high, kind.width);
    }
  }

  /** `after` is `before` with the two `width`-byte ranges exchanged. */
  ghost predicate Exchanged(before: seq<u8>, after: seq<u8>, left: int, right: int, width: nat)
    requires 0 <= left && left + width <= right && right + width <= |before|
  {
    && |after| == |before|
    && after[left..left + width] == before[right..right + width]
    && after[right..right + width] == before[left..left + width]
    && forall a :: 0 <= a < |before| && !(left <= a < left + width) && !(right <= a < right + width) ==>
         after[a] == before[a]
  }

  /** A sort can exchange a pair only if both of its elements lie in RAM. */
  predicate Reaches(kind: LibcKind, result: int, length: nat)
    requires kind.Valid()
  {
    kind.Qsort? && result > 0 ==> Comparands(kind).value.1 + kind.width <= length
  }

  /** Effect of one resumption on memory: a sort exchanges the pair it finds out of order. */
  ghost predicate Effect(kind: LibcKind, result: int, before: seq<u8>, after: seq<u8>)
    requires kind.Valid() && Reaches(kind, result, |before|)
  {
    if kind.Qsort? && result > 0 then
      Exchanged(before, after, Comparands(kind).value.0, Comparands(kind).value.1, kind.width)
    else after == before
  }

  /** An exchange that runs past the end of RAM has moved the bytes in front of it. */
  ghost predicate Broken(kind: LibcKind, before: seq<u8>, after: seq<u8>)
    requires kind.Valid() && kind.Qsort?
  {
    var left, right := Comparands(kind).value.0, Comparands(kind).value.1;
    if right <= |before| < right + kind.width then Exchanged(before, after, left, right, |before| - right)
       else after == before
  }

  class BiosHle {
    const limits: HleLimits
    var operation: Option<LibcOperation>

    constructor (limits: HleLimits)
      ensures this.limits == limits && operation.None? && Valid()
    {
      this.limits, operation := limits, None;
    }

    ghost predicate Valid()
      reads this
    {
      operation.Some? ==> operation.value.kind.Valid() && operation.value.savedContext.Valid()
    }

    function CheckMemorySize(size: u32): Result<(), BiosError>
    {
      if size > limits.memoryOperationBytes then Err(MemoryOperationLimit) else Ok(())
    }

    function CheckArray(base: u32, elements: u32, width: u32): (r: Result<(), BiosError>)
      ensures r.Ok? <==> elements * width <= limits.memoryOperationBytes && At(base, elements, width) < U32_LIMIT
    {
      if elements * width >= U32_LIMIT then Err(AddressOverflow)
      else if CheckMemorySize(elements * width).Err? then CheckMemorySize(elements * width)
      else if base + elements * width >= U32_LIMIT then Err(AddressOverflow)
      else Ok(())
    }

    /** Counts the call and points the comparator at its operands, within the call limit. */
    method PrepareComparison(op: LibcOperation) returns (r: Result<(LibcOperation, CpuContext), BiosError>)
      requires op.kind.Valid() && op.savedContext.Valid()
      ensures r == if op.calls < limits.libcCallbackCalls then Ok((op.(calls := op.calls + 1), CallContext(op)))
                   else Err(LibcCallbackLimit)
      ensures r.Ok? ==> AtComparator(r.value.1, op.savedContext, op.callback, Comparands(op.kind).value.0,
                                     Comparands(op.kind).value.1)
    {
      CallStands(op);
      if op.calls >= limits.libcCallbackCalls {
        return Err(LibcCallbackLimit);
      }
      var (left, right) := Comparands(op.kind).value;
      var registers := op.savedContext.registers[A0 := left];
      registers := registers[A0 + 1 := right];
      registers := registers[RA := CALLBACK_RETURN_PC];
      return Ok((op.(calls := op.calls + 1), op.savedContext.(pc := op.callback, registers := registers)));
    }

    /** Suspends the caller and schedules the first comparison. */
    method StartOperation(context: CpuContext, callback: u32, kind: LibcKind)
      returns (r: Result<CpuContext, BiosError>)
      requires Valid() && context.Valid() && kind.Valid()
      modifies this`operation
      ensures Valid()
      ensures r.Ok? <==> old(operation).None? && limits.libcCallbackCalls > 0
      ensures r.Ok? ==> operation == Some(LibcOperation(context, callback, 1, kind))
      ensures r.Ok? ==> r.value == CallContext(operation.value)
      ensures r.Ok? ==> AtComparator(r.value, context, callback, Comparands(kind).value.0, Comparands(kind).value.1)
      ensures r.Err? ==> operation == old(operation)
    {
      if operation.Some? {
        return Err(CallbackDepth);
      }
      var prepared := PrepareComparison(LibcOperation(context, callback, 0, kind));
      if prepared.Err? {
        return Err(prepared.error);
      }
      operation := Some(prepared.value.0);
      return Ok(prepared.value.1);
    }

    /** `None` means that there is nothing to sort and the call returns at once. */
    method StartQsort(context: CpuContext) returns (r: Result<Option<CpuContext>, BiosError>)
      requires Valid() && operation.None? && context.Valid()
      modifies this`operation
      ensures Valid()
      ensures r.Err? ==> operation.None?
      ensures r == Ok(None) ==> operation.None? && (context.Argument(1) < 2 || context.Argument(2) == 0)
      ensures r.Ok? && r.value.Some? ==>
                && operation.Some?
                && operation.value == LibcOperation(context, context.Argument(3), 1,
                                                    Qsort(context.Argument(0), context.Argument(1),
                                                          context.Argument(2), 1, 1))
                && r.value.value == CallContext(operation.value)
                && context.registers[4] + context.registers[6] < U32_LIMIT
                && AtComparator(r.value.value, context, context.registers[7], context.registers[4],
                                context.registers[4] + context.registers[6])
      ensures r.Ok? <==>
                && context.Argument(1) * context.Argument(2) <= limits.memoryOperationBytes
                && At(context.Argument(0), context.Argument(1), context.Argument(2)) < U32_LIMIT
                && (context.Argument(1) >= 2 && context.Argument(2) > 0 ==> limits.libcCallbackCalls > 0)
    {
      var base, elements, width := context.Argument(0), context.Argument(1), context.Argument(2);
      var checked := CheckArray(base, elements, width);
      if checked.Err? {
        return Err(checked.error);
      }
      if elements < 2 || width == 0 {
        return Ok(None);
      }
      var started := StartOperation(context, context.Argument(3), Qsort(base, elements, width, 1, 1));
      return if started.Ok? then Ok(Some(started.value)) else Err(started.error);
    }

    /** The comparator address is the fifth argument, on the caller's stack. */
    method ReadCallback(context: CpuContext, memory: array<u8>) returns (r: Result<u32, BiosError>)
      requires context.Valid()
      ensures r.Ok? <==> context.FifthArgument() + 4 <= Min(memory.Length, U32_LIMIT)
      ensures r.Ok? ==> r.value == U32At(memory[..], context.FifthArgument())
    {
      var at := context.FifthArgument();
      for i := 0 to 4
        invariant at + i <= Max(at, Min(memory.Length, U32_LIMIT))
      {
        if at + i >= U32_LIMIT {
          return Err(AddressOverflow);
        }
        if at + i >= memory.Length {
          return Err(GuestMemory);
        }
      }
      return Ok(U32At(memory[..], at));
    }

    method StartLsearch(context: CpuContext, memory: array<u8>) returns (r: Result<(bool, CpuContext), BiosError>)
      requires Valid() && operation.None? && context.Valid()
      modifies this`operation
      ensures Valid()
      ensures r.Ok? ==> r.value.0 == operation.Some? == (context.Argument(2) > 0 && context.Argument(3) > 0)
      ensures r.Ok? && !r.value.0 ==> r.value.1 == context.WithResult(0)
      ensures r.Ok? && r.value.0 ==>
                && context.FifthArgument() + 4 <= memory.Length
                && operation.value.kind == Lsearch(context.Argument(0), context.Argument(1), context.Argument(2),
                                                   context.Argument(3), 0)
                && operation.value == LibcOperation(context, U32At(memory[..], context.FifthArgument()), 1,
                                                    operation.value.kind)
                && r.value.1 == CallContext(operation.value)
      ensures r.Ok? && r.value.0 ==>
                AtComparator(r.value.1, context, U32At(memory[..], (context.registers[29] as int) + 16),
                             context.registers[4], context.registers[5])
      ensures r.Ok? <==> SearchAccepted(context, memory.Length)
      ensures r.Err? ==> operation.None?
    {
      var key, base, elements, width :=
        context.Argument(0), context.Argument(1), context.Argument(2), context.Argument(3);
      var checked := CheckArray(base, elements, width);
      if checked.Err? {
        return Err(checked.error);
      }
      if elements == 0 || width == 0 {
        return Ok((false, context.WithResult(0)));
      }
      var callback := ReadCallback(context, memory);
      if callback.Err? {
        return Err(callback.error);
      }
      var started := StartOperation(context, callback.value, Lsearch(key, base, elements, width, 0));
      return if started.Ok? then Ok((true, started.value)) else Err(started.error);
    }

    method StartBsearch(context: CpuContext, memory: array<u8>) returns (r: Result<(bool, CpuContext), BiosError>)
      requires Valid() && operation.None? && context.Valid()
      modifies this`operation
      ensures Valid()
      ensures r.Ok? ==> r.value.0 == operation.Some? == (context.Argument(2) > 0 && context.Argument(3) > 0)
      ensures r.Ok? && !r.value.0 ==> r.value.1 == context.WithResult(0)
      ensures r.Ok? && r.value.0 ==>
                && context.FifthArgument() + 4 <= memory.Length
                && operation.value.kind == Bsearch(context.Argument(0), context.Argument(1), context.Argument(3), 0,
                                                   context.Argument(2), context.Argument(2) / 2)
                && operation.value == LibcOperation(context, U32At(memory[..], context.FifthArgument()), 1,
                                                    operation.value.kind)
                && r.value.1 == CallContext(operation.value)
      ensures r.Ok? && r.value.0 ==>
                var middle := At(context.registers[5], context.registers[6] / 2, context.registers[7]);
                && 0 <= middle < U32_LIMIT
                && AtComparator(r.value.1, context, U32At(memory[..], (context.registers[29] as int) + 16),
                                context.registers[4], middle)
      ensures r.Ok? <==> SearchAccepted(context, memory.Length)
      ensures r.Err? ==> operation.None?
    {
      var key, base, elements, width :=
        context.Argument(0), context.Argument(1), context.Argument(2), context.Argument(3);
      var checked := CheckArray(base, elements, width);
      if checked.Err? {
        return Err(checked.error);
      }
      if elements == 0 || width == 0 {
        return Ok((false, context.WithResult(0)));
      }
      var callback := ReadCallback(context, memory);
      if callback.Err? {
        return Err(callback.error);
      }
      var started := StartOperation(context, callback.value, Bsearch(key, base, width, 0, elements, elements / 2));
      return if started.Ok? then Ok((true, started.value)) else Err(started.error);
    }

    /**
     * The array is within limits and addressable, and if there is something to search, the comparator can be
     * called.
     */
    predicate SearchAccepted(context: CpuContext, length: nat)
      requires context.Valid()
    {
      && context.Argument(2) * context.Argument(3) <= limits.memoryOperationBytes
      && At(context.Argument(1), context.Argument(2), context.Argument(3)) < U32_LIMIT
      && (context.Argument(2) > 0 && context.Argument(3) > 0 ==>
            context.FifthArgument() + 4 <= Min(length, U32_LIMIT) && limits.libcCallbackCalls > 0)
    }

    /** Swaps two elements byte by byte. */
    method ExchangeElements(memory: array<u8>, left: u32, right: u32, width: u32) returns (r: Result<(), BiosError>)
      requires left + width <= right && right + width < U32_LIMIT && width > 0
      modifies memory
      ensures r == if right + width <= memory.Length then Ok(()) else Err(GuestMemory)
      ensures right > memory.Length ==> memory[..] == old(memory[..])
      ensures right <= memory.Length ==>
                Exchanged(old(memory[..]), memory[..], left, right, Min(width, memory.Length - right))
    {
      ghost var before := memory[..];
      for offset := 0 to width
        invariant right + offset <= Max(right, memory.Length)
        invariant forall a :: left <= a < left + offset ==> memory[a] == before[a + (right - left)]
        invariant forall a :: right <= a < right + offset ==> memory[a] == before[a - (right - left)]
        invariant forall a :: 0 <= a < memory.Length && !(left <= a < left + offset)
                              && !(right <= a < right + offset) ==>
                                memory[a] == before[a]
      {
        if right + offset >= memory.Length {
          return Err(GuestMemory);
        }
        var leftValue, rightValue := memory[left + offset], memory[right + offset];
        memory[left + offset] := rightValue;
        memory[right + offset] := leftValue;
      }
      return Ok(());
    }

    /** Consumes a comparator result: schedules the next comparison or completes the suspended call. */
    method ResumeCallback(context: CpuContext, memory: array<u8>)
      returns (r: Result<(HleAction, CpuContext), BiosError>)
      requires Valid() && context.Valid()
      modifies this`operation, memory
      ensures Valid()
      ensures old(operation).None? ==> r == Err(CallbackStackEmpty) && operation.None? && memory[..] == old(memory[..])
      ensures old(operation).Some? && Reaches(old(operation).value.kind, Signed(context.registers[V0]),
                                              memory.Length) ==>
                && Effect(old(operation).value.kind, Signed(context.registers[V0]), old(memory[..]), memory[..])
                && Resumed(limits, old(operation).value, Signed(context.registers[V0]), operation, r)
      ensures old(operation).Some? && !Reaches(old(operation).value.kind, Signed(context.registers[V0]),
                                               memory.Length) ==>
                && r == Err(GuestMemory) && operation.None?
                && Broken(old(operation).value.kind, old(memory[..]), memory[..])
      ensures old(operation).Some? && r.Ok? ==>
                GoesOn(old(operation).value, Signed(context.registers[2]), r.value.1)
    {
      hide Effect, Reaches, Broken, AtComparator;
      var result := Signed(context.registers[V0]);
      if operation.None? {
        return Err(CallbackStackEmpty);
      }
      var op := operation.value;
      operation := None;
      var advanced := Advance(op.kind, result, memory);
      if advanced.Err? {
        return Err(advanced.error);
      }
      match advanced.value {
        case Finished(value) =>
          var restored := op.savedContext;
          if value.Some? {
            restored := restored.WithResult(value.value);
          }
          return Ok((Return, restored.Returned()));
        case Continue(kind) =>
          AfterValid(op.kind, result);
          var prepared := PrepareComparison(op.(kind := kind));
          if prepared.Err? {
            return Err(prepared.error);
          }
          operation := Some(prepared.value.0);
          return Ok((Call, prepared.value.1));
      }
    }

    /** Moves a suspended operation on by one comparison result. */
    method Advance(kind: LibcKind, result: int, memory: array<u8>) returns (r: Result<Verdict, BiosError>)
      requires kind.Valid()
      modifies memory
      ensures r.Ok? ==> r.value == After(kind, result)
      ensures r.Err? ==> r.error == GuestMemory
      ensures Reaches(kind, result, memory.Length) ==> r.Ok? && Effect(kind, result, old(memory[..]), memory[..])
      ensures !Reaches(kind, result, memory.Length) ==> r.Err? && Broken(kind, old(memory[..]), memory[..])
    {
      match kind {
        case Qsort(base, elements, width, outer, inner) =>
          var outer', inner' := outer, inner;
          if result > 0 {
            var (left, right) := Comparands(kind).value;
            var exchanged := ExchangeElements(memory, left, right, width);
            if exchanged.Err? {
              return Err(exchanged.error);
            }
            inner' := inner - 1;
          }
          if result <= 0 || inner' == 0 {
            outer' := outer + 1;
            inner' := outer';
          }
          return Ok(if outer' >= elements then Finished(None)
                    else Continue(Qsort(base, elements, width, outer', inner')));
        case Lsearch(key, base, elements, width, index) =>
          if result == 0 {
            return Ok(Finished(Some(Comparands(kind).value.1)));
          }
          return Ok(if index + 1 >= elements then Finished(Some(0))
                    else Continue(Lsearch(key, base, elements, width, index + 1)));
        case Bsearch(key, base, width, low, high, middle) =>
          if result == 0 {
            return Ok(Finished(Some(Comparands(kind).value.1)));
          }
          var low', high' := low, high;
          if result < 0 {
            high' := middle;
          } else {
            low' := middle + 1;
          }
          return Ok(if low' >= high' then Finished(Some(0))
                    else Continue(Bsearch(key, base, width, low', high', low' + (high' - low') / 2)));
      }
    }
  }

  /** Where the guest stands after a result: back at its caller, or at the comparator once more. */
  ghost predicate GoesOn(op: LibcOperation, result: int, c: CpuContext)
    requires op.kind.Valid() && op.savedContext.Valid()
  {
    match After(op.kind, result)
    case Finished(value) => BackAtCaller(c, op.savedContext, value)
    case Continue(kind) =>
      && kind.Valid()
      && AtComparator(c, op.savedContext, op.callback, Comparands(kind).value.0, Comparands(kind).value.1)
  }

  /** The outcome of a resumption: the caller's context restored, or the next comparison scheduled. */
  ghost predicate Resumed(limits: HleLimits, op: LibcOperation, result: int, operation: Option<LibcOperation>,
                          r: Result<(HleAction, CpuContext), BiosError>)
    requires op.kind.Valid() && op.savedContext.Valid()
  {
    match After(op.kind, result)
    case Finished(value) =>
      && operation.None?
      && r == Ok((Return, (if value.Some? then op.savedContext.WithResult(value.value)
                           else op.savedContext).Returned()))
    case Continue(kind) =>
      if op.calls < limits.libcCallbackCalls then
        && kind.Valid()
        && operation == Some(op.(calls := op.calls + 1, kind := kind))
        && r == Ok((Call, CallContext(operation.value)))
      else r == Err(LibcCallbackLimit) && operation.None?
  }
}
