/** Power-of-two alignment of 32-bit addresses. */
module Alignment {
  import opened Machine
  import opened Wrappers

  predicate IsPowerOfTwo(x: nat)
  {
    x == 1 || (x > 1 && x % 2 == 0 && IsPowerOfTwo(x / 2))
  }

  lemma PowerPositive(x: nat)
    requires IsPowerOfTwo(x)
    ensures x > 0
  {
  }

  predicate Aligned(address: int, alignment: int)
    requires alignment > 0
  {
    address % alignment == 0
  }

  /**
   * `checked_add(alignment - 1)` followed by clearing the low bits. For a power of two,
   * masking with `!(alignment - 1)` subtracts the remainder.
   */
  function AlignUp(value: u32, alignment: u32): (r: Option<u32>)
    requires alignment > 0
  {
    var bumped := value + alignment - 1;
    if bumped < U32_LIMIT then Some(bumped - bumped % alignment) else None
  }

  function AlignDown(value: u32, alignment: u32): u32
    requires alignment > 0
  {
    value - value % alignment
  }

  lemma SubtractRemainder(value: int, alignment: int)
    requires alignment > 0
    ensures Aligned(value - value % alignment, alignment)
  {
    var q := value / alignment;
    assert value == alignment * q + value % alignment;
    MultipleIsAligned(q, alignment);
  }

  lemma MultipleIsAligned(q: int, alignment: int)
    requires alignment > 0
    ensures Aligned(alignment * q, alignment)
  {
    var total := alignment * q;
    var gap := total / alignment - q;
    assert total == alignment * (total / alignment) + total % alignment;
    assert alignment * gap == alignment * (total / alignment) - alignment * q;
    assert alignment * gap == -(total % alignment);
    ScaleSign(alignment, gap);
  }

  lemma ScaleSign(a: int, k: int)
    requires a > 0
    ensures k >= 1 ==> a * k >= a
    ensures k <= 0 ==> a * k <= 0
    ensures k <= -1 ==> a * k <= -a
  {
  }

  /** Distinct aligned addresses are at least one alignment apart. */
  lemma AlignedGap(x: int, y: int, alignment: int)
    requires alignment > 0 && Aligned(x, alignment) && Aligned(y, alignment) && x < y
    ensures x + alignment <= y
  {
    var p, q := x / alignment, y / alignment;
    assert x == alignment * p && y == alignment * q;
    assert alignment * (q - p) == y - x;
    ScaleSign(alignment, q - p);
  }

  /** Rounding up gives the least aligned address that is not below the value. */
  lemma AlignUpLeast(value: u32, alignment: u32)
    requires alignment > 0 && AlignUp(value, alignment).Some?
    ensures var r := AlignUp(value, alignment).value;
            && Aligned(r, alignment) && value <= r < value + alignment
            && forall x :: value <= x && Aligned(x, alignment) ==> r <= x
  {
    var r := AlignUp(value, alignment).value;
    SubtractRemainder(value + alignment - 1, alignment);
    forall x | value <= x && Aligned(x, alignment)
      ensures r <= x
    {
      if x < r {
        AlignedGap(x, r, alignment);
      }
    }
  }

  /** When rounding up overflows, no aligned 32-bit address reaches the value. */
  lemma AlignUpOverflow(value: u32, alignment: u32, x: u32)
    requires IsPowerOfTwo(alignment) && AlignUp(value, alignment).None?
    requires Aligned(x, alignment)
    ensures x < value
  {
    WordPower();
    PowerOfTwoDivides(alignment, 32);
    AlignedGap(x, U32_LIMIT, alignment);
  }

  lemma WordPower()
    ensures Pow2(32) == U32_LIMIT
  {
    assert Pow2(4) == 16;
    Pow2Add(4, 4);
    Pow2Add(8, 8);
    Pow2Add(16, 16);
    hide Pow2;
  }

  lemma {:induction false} Pow2Add(m: nat, n: nat)
    ensures Pow2(m + n) == Pow2(m) * Pow2(n)
  {
    if m > 0 {
      Pow2Add(m - 1, n);
    }
  }

  lemma AlignDownGreatest(value: u32, alignment: u32)
    requires alignment > 0
    ensures var r := AlignDown(value, alignment);
            && Aligned(r, alignment) && r <= value
            && forall x :: x <= value && Aligned(x, alignment) ==> x <= r
  {
    var r := AlignDown(value, alignment);
    SubtractRemainder(value, alignment);
    forall x | x <= value && Aligned(x, alignment)
      ensures x <= r
    {
      if r < x {
        AlignedGap(r, x, alignment);
      }
    }
  }

  function Pow2(n: nat): (r: nat)
    ensures r > 0
  {
    if n == 0 then 1 else 2 * Pow2(n - 1)
  }

  lemma {:induction false} PowerOfTwoDivides(a: nat, n: nat)
    requires IsPowerOfTwo(a) && a <= Pow2(n)
    ensures Aligned(Pow2(n), a)
    decreases n
  {
    if a == 1 {
    } else if n == 0 {
    } else {
      PowerOfTwoDivides(a / 2, n - 1);
      var q := Pow2(n - 1) / (a / 2);
      assert Pow2(n - 1) == (a / 2) * q;
      assert Pow2(n) == 2 * ((a / 2) * q) == a * q;
      MultipleIsAligned(q, a);
    }
  }

  lemma {:induction false} SmallerPowerDivides(a: nat, b: nat)
    requires IsPowerOfTwo(a) && IsPowerOfTwo(b) && a <= b
    ensures Aligned(b, a)
  {
    if a == 1 || a == b {
      MultipleIsAligned(1, a);
    } else {
      SmallerPowerDivides(a / 2, b / 2);
      var q := (b / 2) / (a / 2);
      assert b / 2 == (a / 2) * q;
      assert b == 2 * ((a / 2) * q) == a * q;
      MultipleIsAligned(q, a);
    }
  }

  /** An address aligned to a larger power of two is aligned to every smaller one. */
  lemma AlignedDownward(x: int, a: nat, b: nat)
    requires IsPowerOfTwo(a) && IsPowerOfTwo(b) && a <= b
    requires Aligned(x, b)
    ensures Aligned(x, a)
  {
    SmallerPowerDivides(a, b);
    hide IsPowerOfTwo;
    ExactQuotient(x, b);
    ExactQuotient(b, a);
    ScaledMultiple(a, b / a, x / b);
  }

  lemma ExactQuotient(x: int, alignment: int)
    requires alignment > 0 && Aligned(x, alignment)
    ensures x == alignment * (x / alignment)
  {
  }

  lemma ScaledMultiple(a: int, q: int, p: int)
    requires a > 0
    ensures Aligned((a * q) * p, a)
  {
    assert (a * q) * p == a * (q * p);
    MultipleIsAligned(q * p, a);
  }
}
