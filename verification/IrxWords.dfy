/** Instruction words inside a staged module image. */
module ImageWords {
  import opened Machine
  import opened LittleEndian
  import opened Counting

  const HALF := 0x1_0000

  /** `at` names a complete, word-aligned instruction of `img`. */
  predicate IsWord(img: seq<u8>, at: int)
  {
    0 <= at && at % 4 == 0 && at + 4 <= |img|
  }

  function Word(img: seq<u8>, at: nat): u32
    requires at + 4 <= |img|
  {
    U32At(img, at)
  }

  function SetWord(img: seq<u8>, at: nat, w: u32): (r: seq<u8>)
    requires at + 4 <= |img|
    ensures |r| == |img|
  {
    Splice(img, at, EncodeU32(w))
  }

  function LowHalf(w: u32): u16 { w % HALF }

  function HighHalf(w: u32): u16 { w / HALF }

  /** Replaces the low 16 bits, the immediate field of a MIPS instruction. */
  function WithLow(w: u32, low: int): u32
  {
    w - w % HALF + low % HALF
  }

  lemma WithLowHalves(w: u32, low: int)
    ensures LowHalf(WithLow(w, low)) == low % HALF
    ensures HighHalf(WithLow(w, low)) == HighHalf(w)
  {
  }

  lemma WordAfterSet(img: seq<u8>, at: nat, w: u32, other: nat)
    requires IsWord(img, at) && IsWord(img, other)
    ensures Word(SetWord(img, at, w), other) == if other == at then w else Word(img, other)
  {
    if other == at {
      WordOfSet(img, at, w);
    } else {
      assert other + 4 <= at || at + 4 <= other;
    }
  }

  lemma WordOfSet(img: seq<u8>, at: nat, w: u32)
    requires at + 4 <= |img|
    ensures Word(SetWord(img, at, w), at) == w
  {
    var r, e := SetWord(img, at, w), EncodeU32(w);
    U32RoundTrip(w);
    assert r[at..at + 4] == e;
    assert r[at] == e[0] && r[at + 1] == e[1] && r[at + 2] == e[2] && r[at + 3] == e[3];
  }

  /** Bytes of words outside `targets`, and any trailing partial word, agree. */
  predicate AgreeOff(a: seq<u8>, b: seq<u8>, targets: set<int>)
  {
    |a| == |b| && forall k :: 0 <= k < |a| && k - k % 4 !in targets ==> b[k] == a[k]
  }

  lemma SetAgrees(img: seq<u8>, at: nat, w: u32)
    requires IsWord(img, at)
    ensures AgreeOff(img, SetWord(img, at, w), {at})
  {
  }

  lemma AgreeWord(a: seq<u8>, b: seq<u8>, targets: set<int>, at: nat)
    requires AgreeOff(a, b, targets) && IsWord(a, at) && at !in targets
    ensures Word(b, at) == Word(a, at)
  {
    assert forall k :: at <= k < at + 4 ==> k - k % 4 == at;
  }

  /** Offsets of all complete words of an image. */
  function WordOffsets(size: nat): (r: set<int>)
    ensures forall x :: x in r <==> 0 <= x && x % 4 == 0 && x + 4 <= size
  {
    set x | x in Range(size) && x % 4 == 0 && x + 4 <= size
  }

  /** Distinct word offsets number at most a quarter of the image size. */
  lemma WordCount(offsets: seq<int>, img: seq<u8>)
    requires Distinct(offsets)
    requires forall x :: x in offsets ==> IsWord(img, x)
    ensures |offsets| <= |img| / 4
  {
    var indices := seq(|offsets|, k requires 0 <= k < |offsets| => offsets[k] / 4);
    forall i, j | 0 <= i < j < |indices|
      ensures indices[i] != indices[j]
    {
      assert offsets[i] in offsets && offsets[j] in offsets;
      assert offsets[i] != offsets[j];
    }
    forall x | x in indices
      ensures 0 <= x < |img| / 4
    {
      var k :| 0 <= k < |indices| && indices[k] == x;
      assert offsets[k] in offsets;
    }
    DistinctBelow(indices, |img| / 4);
  }
}
