/** Outcome datatypes shared by every component. */
module Wrappers {
  datatype Option<+T> = None | Some(value: T)

  datatype Result<+T, +E> = Ok(value: T) | Err(error: E)
}

/** Machine integer widths as subset types of the unbounded integers. */
module Machine {
  const U16_LIMIT := 0x1_0000
  const U32_LIMIT := 0x1_0000_0000
  const U64_LIMIT := 0x1_0000_0000_0000_0000
  const U128_LIMIT := 0x1_0000_0000_0000_0000_0000_0000_0000_0000

  type u8 = x: int | 0 <= x < 0x100
  type u16 = x: int | 0 <= x < U16_LIMIT
  type u32 = x: int | 0 <= x < U32_LIMIT
  type u64 = x: int | 0 <= x < U64_LIMIT

  function Min(a: int, b: int): int { if a <= b then a else b }

  function Max(a: int, b: int): int { if a <= b then b else a }

  /** The two's-complement reading of a halfword, as in `(x as u16) as i16`. */
  function SignExtend16(x: int): (r: int)
    ensures -0x8000 <= r < 0x8000
    ensures (r - x) % U16_LIMIT == 0
  {
    var low := x % U16_LIMIT;
    if low < 0x8000 then low else low - U16_LIMIT
  }
}

/** Little-endian words inside byte sequences. */
module LittleEndian {
  import opened Machine

  function EncodeU16(v: u16): (s: seq<u8>)
    ensures |s| == 2
  {
    [v % 0x100, v / 0x100]
  }

  function EncodeU32(v: u32): (s: seq<u8>)
    ensures |s| == 4
  {
    [v % 0x100, (v / 0x100) % 0x100, (v / 0x1_0000) % 0x100, v / 0x100_0000]
  }

  function DecodeU16(a: u8, b: u8): u16 { a + 0x100 * b }

  function DecodeU32(a: u8, b: u8, c: u8, d: u8): u32
  {
    a + 0x100 * b + 0x1_0000 * c + 0x100_0000 * d
  }

  function U16At(s: seq<u8>, at: nat): u16
    requires at + 2 <= |s|
  {
    DecodeU16(s[at], s[at + 1])
  }

  function U32At(s: seq<u8>, at: nat): u32
    requires at + 4 <= |s|
  {
    DecodeU32(s[at], s[at + 1], s[at + 2], s[at + 3])
  }

  /** Encoding and decoding are inverse bijections between words and byte quadruples. */
  lemma U32RoundTrip(v: u32)
    ensures U32At(EncodeU32(v), 0) == v
  {
    assert v / 0x1_0000 == (v / 0x100) / 0x100;
    assert v / 0x100_0000 == (v / 0x1_0000) / 0x100;
  }

  lemma U32BytesRoundTrip(a: u8, b: u8, c: u8, d: u8)
    ensures EncodeU32(DecodeU32(a, b, c, d)) == [a, b, c, d]
  {
    ShiftByte(a, b + 0x100 * c + 0x1_0000 * d);
    ShiftByte(b, c + 0x100 * d);
    ShiftByte(c, d);
    var v := DecodeU32(a, b, c, d);
    assert v / 0x1_0000 == (v / 0x100) / 0x100;
    assert v / 0x100_0000 == (v / 0x1_0000) / 0x100;
  }

  /** The least significant byte comes first. */
  lemma LowByteFirst(a: u8, b: u8, c: u8, d: u8, v: u16)
    ensures U32At([a, b, c, d], 0) == a + b * 0x100 + c * 0x1_0000 + d * 0x100_0000
    ensures U16At([a, b], 0) == a + b * 0x100
    ensures (EncodeU16(v)[0] as int) + 0x100 * (EncodeU16(v)[1] as int) == v
  {
  }

  /** Words one after the other. */
  function EncodeAll(words: seq<u32>): (s: seq<u8>)
    ensures |s| == 4 * |words|
  {
    if words == [] then [] else EncodeU32(words[0]) + EncodeAll(words[1..])
  }

  lemma {:induction false} EncodedAt(before: seq<u8>, words: seq<u32>, after: seq<u8>, k: nat)
    requires k < |words|
    ensures U32At(before + EncodeAll(words) + after, |before| + 4 * k) == words[k]
    decreases |words|
  {
    hide EncodeU32, U32At;
    var first, rest := EncodeU32(words[0]), EncodeAll(words[1..]);
    var s := before + EncodeAll(words) + after;
    if k == 0 {
      assert s == before + first + (rest + after);
      ReadBack(before, words[0], rest + after);
    } else {
      assert s == (before + first) + rest + after;
      EncodedAt(before + first, words[1..], after, k - 1);
    }
  }

  /** A word written in the middle reads back. */
  lemma ReadBack(before: seq<u8>, v: u32, after: seq<u8>)
    ensures U32At(before + EncodeU32(v) + after, |before|) == v
  {
    U32RoundTrip(v);
    var s, e, at := before + EncodeU32(v) + after, EncodeU32(v), |before|;
    assert s[at] == e[0] && s[at + 1] == e[1] && s[at + 2] == e[2] && s[at + 3] == e[3];
  }

  lemma ReadBackHalf(before: seq<u8>, v: u16, after: seq<u8>)
    ensures U16At(before + EncodeU16(v) + after, |before|) == v
  {
    var s, e, at := before + EncodeU16(v) + after, EncodeU16(v), |before|;
    assert s[at] == e[0] && s[at + 1] == e[1];
  }

  lemma ShiftByte(low: u8, rest: nat)
    ensures (low + 0x100 * rest) / 0x100 == rest && (low + 0x100 * rest) % 0x100 == low
  {
  }

  /** Overwrites `data` at offset `at`. */
  function Splice(s: seq<u8>, at: nat, data: seq<u8>): (r: seq<u8>)
    requires at + |data| <= |s|
    ensures |r| == |s|
    ensures r[at..at + |data|] == data
    ensures forall k :: 0 <= k < at || at + |data| <= k < |s| ==> r[k] == s[k]
  {
    s[..at] + data + s[at + |data|..]
  }
}
