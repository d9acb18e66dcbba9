/** Remainder-preserving conversion of tick counts between clock domains. */
module Clock {
  import opened Machine
  import opened Wrappers

  datatype ClockError = ZeroRate | Overflow

  /** The 128-bit intermediate of a conversion. */
  function Total(ticks: u64, targetHz: u64, remainder: u64): int
  {
    ticks * targetHz + remainder
  }

  /** It never overflows, so the checked multiplication and addition always succeed. */
  lemma TotalFits(ticks: u64, targetHz: u64, remainder: u64)
    ensures 0 <= Total(ticks, targetHz, remainder) < U128_LIMIT
  {
    ProductBound(ticks, targetHz, U64_LIMIT - 1);
  }

  lemma ProductBound(a: nat, b: nat, limit: nat)
    requires a <= limit && b <= limit
    ensures 0 <= a * b <= limit * limit
  {
  }

  lemma ScaleMonotone(a: nat, b: nat, k: nat)
    requires a <= b
    ensures a * k <= b * k
  {
  }

  /** Quotient and remainder are the only ones that rebuild the dividend. */
  lemma DivisionUnique(total: int, d: int, q: int, r: int)
    requires d > 0 && total == d * q + r && 0 <= r < d
    ensures total / d == q && total % d == r
  {
    var gap := total / d - q;
    assert total == d * (total / d) + total % d;
    assert d * gap == d * (total / d) - d * q;
    NoGap(d, gap, r - total % d);
  }

  lemma NoGap(d: int, gap: int, difference: int)
    requires d > 0 && d * gap == difference && -d < difference < d
    ensures gap == 0
  {
  }

  /** Converts one complete interval, rounding down. */
  function ConvertFloor(ticks: u64, sourceHz: u64, targetHz: u64): Result<u64, ClockError>
  {
    if sourceHz == 0 || targetHz == 0 then Err(ZeroRate)
    else if ticks * targetHz / sourceHz >= U64_LIMIT then Err(Overflow)
    else
      TotalFits(ticks, targetHz, 0);
      QuotientSign(ticks * targetHz, sourceHz);
      Ok(ticks * targetHz / sourceHz)
  }

  /** A conversion on its own is the first one of a fresh converter. */
  lemma ConvertIsFirst(ticks: u64, sourceHz: u64, targetHz: u64)
    requires sourceHz > 0 && targetHz > 0
    ensures var whole := Total(ticks, targetHz, 0) / sourceHz;
            ConvertFloor(ticks, sourceHz, targetHz) == if whole < U64_LIMIT then Ok(whole) else Err(Overflow)
  {
    assert Total(ticks, targetHz, 0) == ticks * targetHz;
  }

  lemma QuotientSign(x: nat, d: nat)
    requires d > 0
    ensures 0 <= x / d
  {
  }

  /** Exact conversion state: `delivered` whole target ticks and a remainder for `elapsed` source ticks. */
  ghost predicate Balanced(sourceHz: nat, targetHz: nat, elapsed: nat, delivered: nat, remainder: nat)
  {
    remainder < sourceHz && sourceHz * delivered + remainder == elapsed * targetHz
  }

  lemma BalancedStep(sourceHz: u64, targetHz: u64, elapsed: nat, delivered: nat, remainder: u64, ticks: u64)
    requires Balanced(sourceHz, targetHz, elapsed, delivered, remainder)
    ensures var total := Total(ticks, targetHz, remainder);
            && 0 <= total / sourceHz && 0 <= total % sourceHz < sourceHz
            && Balanced(sourceHz, targetHz, elapsed + ticks, delivered + total / sourceHz, total % sourceHz)
  {
    TotalFits(ticks, targetHz, remainder);
    var total := Total(ticks, targetHz, remainder);
    QuotientSign(total, sourceHz);
    assert total == sourceHz * (total / sourceHz) + total % sourceHz;
    Distribute(sourceHz, delivered, total / sourceHz);
    Distribute(targetHz, elapsed, ticks);
  }

  lemma Distribute(k: int, a: int, b: int)
    ensures k * (a + b) == k * a + k * b
    ensures (a + b) * k == a * k + b * k
  {
  }

  class RateConverter {
    const sourceHz: u64
    const targetHz: u64
    var remainder: u64
    /** Source ticks accounted for since construction or reset, and the target ticks they were worth. */
    ghost var elapsed: nat
    ghost var delivered: nat

    ghost predicate Valid()
      reads this
    {
      0 < sourceHz && 0 < targetHz && Balanced(sourceHz, targetHz, elapsed, delivered, remainder)
    }

    constructor (sourceHz: u64, targetHz: u64)
      requires sourceHz > 0 && targetHz > 0
      ensures Valid() && elapsed == 0 && delivered == 0 && remainder == 0
      ensures this.sourceHz == sourceHz && this.targetHz == targetHz
    {
      this.sourceHz, this.targetHz, remainder := sourceHz, targetHz, 0;
      elapsed, delivered := 0, 0;
    }

    static method Create(sourceHz: u64, targetHz: u64) returns (r: Result<RateConverter, ClockError>)
      ensures r == Err(ZeroRate) <==> sourceHz == 0 || targetHz == 0
      ensures r.Err? ==> r.error == ZeroRate
      ensures r.Ok? ==> fresh(r.value) && r.value.Valid() && r.value.elapsed == 0 && r.value.delivered == 0
      ensures r.Ok? ==> r.value.sourceHz == sourceHz && r.value.targetHz == targetHz
    {
      if sourceHz == 0 || targetHz == 0 {
        return Err(ZeroRate);
      }
      var converter := new RateConverter(sourceHz, targetHz);
      return Ok(converter);
    }

    /**
     * Converts an interval and keeps its fraction. The remainder is updated even when the whole part
     * is too large to return, so a refused interval is still accounted for.
     */
    method Advance(ticks: u64) returns (r: Result<u64, ClockError>)
      requires Valid()
      modifies this
      ensures Valid()
      ensures elapsed == old(elapsed) + ticks
      ensures delivered == old(delivered) + Total(ticks, targetHz, old(remainder)) / sourceHz
      ensures remainder == Total(ticks, targetHz, old(remainder)) % sourceHz
      ensures r == if delivered - old(delivered) < U64_LIMIT then Ok(delivered - old(delivered)) else Err(Overflow)
    {
      hide Balanced, Total;
      var total := Total(ticks, targetHz, remainder);
      TotalFits(ticks, targetHz, remainder);
      BalancedStep(sourceHz, targetHz, elapsed, delivered, remainder, ticks);
      var whole := total / sourceHz;
      remainder := total % sourceHz;
      elapsed, delivered := elapsed + ticks, delivered + whole;
      return if whole < U64_LIMIT then Ok(whole) else Err(Overflow);
    }

    /** A new interval history: what was delivered and elapsed starts over. */
    method Reset()
      requires Valid()
      modifies this
      ensures Valid() && remainder == 0 && elapsed == 0 && delivered == 0
    {
      remainder := 0;
      elapsed, delivered := 0, 0;
    }

    /** However an interval is cut up, the target ticks delivered are those of the whole interval. */
    lemma DeliveredIsFloor()
      requires Valid()
      ensures delivered == elapsed * targetHz / sourceHz
      ensures remainder == elapsed * targetHz % sourceHz
    {
      DivisionUnique(elapsed * targetHz, sourceHz, delivered, remainder);
    }

    /** Sums the conversions of consecutive intervals. */
    method AdvanceAll(parts: seq<u64>) returns (sum: Result<nat, ClockError>)
      requires Valid() && elapsed == 0 && delivered == 0
      modifies this
      ensures Valid()
      ensures sum.Ok? ==> sum.value == Sum(parts) * targetHz / sourceHz
      ensures sum.Err? ==> exists k :: 0 <= k < |parts| && Oversized(parts[k], sourceHz, targetHz)
    {
      hide Total, Oversized;
      var total: nat := 0;
      for k := 0 to |parts|
        invariant Valid() && elapsed == Sum(parts[..k]) && total == delivered
      {
        assert parts[..k + 1][..k] == parts[..k];
        ghost var before := remainder;
        var part := Advance(parts[k]);
        if part.Err? {
          TooLarge(parts[k], targetHz, sourceHz, before);
          return Err(part.error);
        }
        total := total + part.value;
      }
      assert parts[..|parts|] == parts;
      DeliveredIsFloor();
      return Ok(total);
    }
  }

  /** A refused interval has been counted: its fraction stays in the converter. */
  method RefusedButCounted() returns (converter: RateConverter, r: Result<u64, ClockError>)
    ensures r == Err(Overflow) && converter.remainder == 1 && converter.elapsed == U64_LIMIT - 1
  {
    converter := new RateConverter(2, 5);
    r := converter.Advance(U64_LIMIT - 1);
  }

  function Sum(parts: seq<u64>): nat
  {
    if parts == [] then 0 else Sum(parts[..|parts| - 1]) + parts[|parts| - 1]
  }

  /** The interval alone is worth more than 2^64 - 1 target ticks. */
  predicate Oversized(ticks: u64, sourceHz: u64, targetHz: u64)
  {
    ticks * targetHz + sourceHz > U64_LIMIT * sourceHz
  }

  /** Only an interval worth about 2^64 target ticks on its own can be refused. */
  lemma TooLarge(ticks: u64, targetHz: u64, sourceHz: u64, remainder: u64)
    requires sourceHz > 0 && remainder < sourceHz && Total(ticks, targetHz, remainder) / sourceHz >= U64_LIMIT
    ensures Oversized(ticks, sourceHz, targetHz)
  {
    var total := Total(ticks, targetHz, remainder);
    assert total == sourceHz * (total / sourceHz) + total % sourceHz;
    ScaleMonotone(U64_LIMIT, total / sourceHz, sourceHz);
  }
}
