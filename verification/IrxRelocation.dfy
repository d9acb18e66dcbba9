/** Relocation records and their effect on a staged module image. */
module Relocations {
  import opened Machine
  import opened Wrappers
  import opened Counting
  import opened ImageWords
  import opened SonyChain

  datatype RelocationKind =
    | Half
    | FullWord
    | Jump
    | High(lowOffset: u32)
    | Low
    | SonyHigh(addend: u32)

  datatype Relocation = Relocation(offset: u32, kind: RelocationKind)

  const FIELD26 := 0x400_0000

  function ImageOffset(address: u32, preferred: u32, size: nat): (r: Option<nat>)
    ensures r.Some? <==> preferred <= address < preferred + size
    ensures r.Some? ==> r.value == address - preferred
  {
    if preferred <= address && address - preferred < size then Some(address - preferred) else None
  }

  /** The word a link-time address names, if it is a complete aligned word of the image. */
  predicate NamesWord(address: u32, preferred: u32, size: nat)
  {
    preferred <= address && (address - preferred) % 4 == 0 && address - preferred + 4 <= size
  }

  /** The addresses of words are every fourth from the image's start, as long as the word is complete. */
  lemma WordAddresses(preferred: u32, size: nat, address: u32, k: nat, skew: nat)
    requires skew < 4 && address == preferred + 4 * k + skew
    ensures NamesWord(address, preferred, size) <==> skew == 0 && k < size / 4
  {
    assert (4 * k + skew) % 4 == skew;
  }

  /** What the record parser guarantees of each accepted record. */
  predicate InImage(r: Relocation, preferred: u32, size: nat)
  {
    NamesWord(r.offset, preferred, size) && (r.kind.High? ==> NamesWord(r.kind.lowOffset, preferred, size))
  }

  /** Every HI16 record is directly followed by the LO16 record it is paired with. */
  predicate Paired(rs: seq<Relocation>)
  {
    forall i :: 0 <= i < |rs| && rs[i].kind.High? ==>
                  i + 1 < |rs| && rs[i + 1].kind.Low? && rs[i + 1].offset == rs[i].kind.lowOffset
  }

  predicate WellFormed(rs: seq<Relocation>, preferred: u32, size: nat)
  {
    Paired(rs) && forall i :: 0 <= i < |rs| ==> InImage(rs[i], preferred, size)
  }

  /** The 32-bit addend split over a HI16/LO16 pair: `(hi << 16) + signext(lo)`. */
  function PairAddend(high: u32, low: u32): int
  {
    LowHalf(high) * HALF + SignExtend16(low)
  }

  /** The new instruction word; `low` is the partner of a HI16 record. */
  function PatchedWord(kind: RelocationKind, w: u32, low: u32, delta: u32): Result<u32, IrxError>
    requires !kind.SonyHigh?
  {
    match kind
    case Half =>
      var value := delta + SignExtend16(w);
      if -0x8000 <= value <= 0xffff then Ok(WithLow(w, value)) else Err(RelocationOverflow)
    case FullWord =>
      if w + delta < U32_LIMIT then Ok(w + delta) else Err(RelocationOverflow)
    case Jump =>
      var target := delta + (w % FIELD26) * 4;
      if target >= U32_LIMIT || target % 4 != 0 then Err(RelocationOverflow)
      else Ok(w - w % FIELD26 + (target / 4) % FIELD26)
    case High(_) =>
      var value := delta + PairAddend(w, low);
      if 0 <= value < U32_LIMIT then Ok(WithLow(w, ((value + 0x8000) % U32_LIMIT) / HALF))
      else Err(RelocationOverflow)
    case Low => Ok(WithLow(w, w + delta))
  }

  /** The values a kind can hold: what the field is to spell must fit it. */
  predicate FitsField(kind: RelocationKind, w: u32, low: u32, delta: u32)
    requires !kind.SonyHigh?
  {
    match kind
    case Half => delta + SignExtend16(w) <= 0xffff
    case FullWord => w + delta <= 0xffff_ffff
    case Jump => delta % 4 == 0 && delta + (w % FIELD26) * 4 <= 0xffff_ffff
    case High(_) => 0 <= delta + LowHalf(w) * HALF + SignExtend16(low) <= 0xffff_ffff
    case Low => true
  }

  /** The rule of each kind, field by field: what the new word `w'` spells is what the old one spelt, plus the base. */
  predicate Rebased(kind: RelocationKind, w: u32, low: u32, delta: u32, w': u32)
    requires !kind.SonyHigh?
  {
    match kind
    case Half => HighHalf(w') == HighHalf(w) && (LowHalf(w') - (delta + SignExtend16(w))) % HALF == 0
    case FullWord => w' == w + delta
    case Jump =>
      && w' / FIELD26 == w / FIELD26
      && ((w' % FIELD26) * 4 - (delta + (w % FIELD26) * 4)) % (4 * FIELD26) == 0
    case High(_) =>
      && HighHalf(w') == HighHalf(w)
      && (LowHalf(w') * HALF + SignExtend16(low + delta) - (delta + LowHalf(w) * HALF + SignExtend16(low))) % U32_LIMIT
           == 0
    case Low => HighHalf(w') == HighHalf(w) && (LowHalf(w') - (w + delta)) % HALF == 0
  }

  /** A word is patched exactly if its value fits, and then by the rule of its kind. */
  lemma PatchedIsRebased(kind: RelocationKind, w: u32, low: u32, delta: u32)
    requires !kind.SonyHigh?
    ensures PatchedWord(kind, w, low, delta).Ok? <==> FitsField(kind, w, low, delta)
    ensures FitsField(kind, w, low, delta) ==> Rebased(kind, w, low, delta, PatchedWord(kind, w, low, delta).value)
  {
    hide SignExtend16, WithLow, HighHalf, LowHalf;
    match kind {
      case Half => WithLowHalves(w, delta + SignExtend16(w)); CongruentField(delta + SignExtend16(w));
      case FullWord =>
      case Jump =>
        SameAlignment(delta, w % FIELD26);
        if delta % 4 == 0 && delta + (w % FIELD26) * 4 < U32_LIMIT {
          JumpField(w, delta);
        }
      case High(_) =>
        if 0 <= delta + PairAddend(w, low) < U32_LIMIT {
          HighField(w, low, delta);
        }
      case Low => WithLowHalves(w, w + delta); CongruentField(w + delta);
    }
  }

  lemma SameAlignment(delta: int, field: int)
    ensures (delta + field * 4) % 4 == delta % 4
  {
  }

  lemma CongruentField(x: int)
    ensures (x % HALF - x) % HALF == 0
  {
  }

  lemma JumpField(w: u32, delta: u32)
    requires delta % 4 == 0 && delta + (w % FIELD26) * 4 < U32_LIMIT
    ensures var target := delta + (w % FIELD26) * 4;
            var w' := w - w % FIELD26 + (target / 4) % FIELD26;
            && 0 <= w' < U32_LIMIT && w' / FIELD26 == w / FIELD26 && w' % FIELD26 == (target / 4) % FIELD26
            && target % 4 == 0 && ((w' % FIELD26) * 4 - target) % (4 * FIELD26) == 0
  {
  }

  lemma HighField(w: u32, low: u32, delta: u32)
    requires 0 <= delta + PairAddend(w, low) < U32_LIMIT
    ensures var value := delta + PairAddend(w, low);
            var w' := WithLow(w, ((value + 0x8000) % U32_LIMIT) / HALF);
            && HighHalf(w') == HighHalf(w)
            && (LowHalf(w') * HALF + SignExtend16(low + delta) - value) % U32_LIMIT == 0
  {
    var value := delta + PairAddend(w, low);
    var upper := ((value + 0x8000) % U32_LIMIT) / HALF;
    WithLowHalves(w, upper);
    CarryRule(value);
    SameLowHalf(w, low, delta);
    SignExtendLow(low + delta, value);
  }

  /** The image after one record, or the reason the record is refused. */
  function Apply(img: seq<u8>, preferred: u32, delta: u32, r: Relocation): (result: Result<seq<u8>, IrxError>)
    requires InImage(r, preferred, |img|)
    ensures result.Ok? ==> |result.value| == |img|
  {
    var at := r.offset - preferred;
    if r.kind.SonyHigh? then
      SonyKeepsSize(img, at, delta, r.kind.addend);
      Relocated(img, at, delta, r.kind.addend)
    else
      var low := if r.kind.High? then Word(img, r.kind.lowOffset - preferred) else 0;
      match PatchedWord(r.kind, Word(img, at), low, delta)
      case Err(e) => Err(e)
      case Ok(w) => Ok(SetWord(img, at, w))
  }

  lemma SonyKeepsSize(img: seq<u8>, at: nat, delta: u32, addend: u32)
    requires IsWord(img, at)
    ensures Relocated(img, at, delta, addend).Ok? ==> |Relocated(img, at, delta, addend).value| == |img|
  {
    if Relocated(img, at, delta, addend).Ok? {
      WalkKeepsUpperHalves(img, at, Immediate(delta + addend), 0);
    }
  }

  function ApplyFrom(img: seq<u8>, preferred: u32, delta: u32, rs: seq<Relocation>, i: nat)
    : (result: Result<seq<u8>, IrxError>)
    requires WellFormed(rs, preferred, |img|) && i <= |rs|
    ensures result.Ok? ==> |result.value| == |img|
    decreases |rs| - i
  {
    if i == |rs| then Ok(img)
    else
      match Apply(img, preferred, delta, rs[i])
      case Err(e) => Err(e)
      case Ok(next) => ApplyFrom(next, preferred, delta, rs, i + 1)
  }

  /** Patches one record in place. The out-of-range branches are dead for parsed records. */
  method ApplyRelocation(image: array<u8>, preferred: u32, delta: u32, r: Relocation)
    returns (result: Result<(), IrxError>)
    requires InImage(r, preferred, image.Length)
    modifies image
    ensures result.Ok? <==> Apply(old(image[..]), preferred, delta, r).Ok?
    ensures result.Ok? ==> image[..] == Apply(old(image[..]), preferred, delta, r).value
    ensures result.Err? ==> result.error == Apply(old(image[..]), preferred, delta, r).error
  {
    hide PatchedWord, SetWord, Relocated;
    var found := ImageOffset(r.offset, preferred, image.Length);
    if found.None? {
      assert false;
    }
    var at := found.value;
    var w := ReadWord(image, at);
    var low := 0;
    match r.kind {
      case SonyHigh(addend) =>
        result := ApplySonyHigh(image, at, delta, addend);
        return;
      case High(lowOffset) =>
        var partner := ImageOffset(lowOffset, preferred, image.Length);
        if partner.None? {
          assert false;
        }
        low := ReadWord(image, partner.value);
      case _ =>
    }
    var patched := PatchedWord(r.kind, w, low, delta);
    if patched.Err? {
      return Err(patched.error);
    }
    WriteWord(image, at, patched.value);
    return Ok(());
  }

  method ApplyAll(image: array<u8>, preferred: u32, delta: u32, rs: seq<Relocation>)
    returns (result: Result<(), IrxError>)
    requires WellFormed(rs, preferred, image.Length)
    modifies image
    ensures result.Ok? <==> ApplyFrom(old(image[..]), preferred, delta, rs, 0).Ok?
    ensures result.Ok? ==> image[..] == ApplyFrom(old(image[..]), preferred, delta, rs, 0).value
    ensures result.Err? ==> result.error == ApplyFrom(old(image[..]), preferred, delta, rs, 0).error
  {
    hide Apply;
    for i := 0 to |rs|
      invariant ApplyFrom(image[..], preferred, delta, rs, i) == ApplyFrom(old(image[..]), preferred, delta, rs, 0)
    {
      var step := ApplyRelocation(image, preferred, delta, rs[i]);
      if step.Err? {
        return step;
      }
    }
    return Ok(());
  }

  // ----- The effect of a whole list on distinct targets

  /** Words a record patches, as the original image spells them. */
  function Targets(img: seq<u8>, preferred: u32, r: Relocation): set<int>
    requires InImage(r, preferred, |img|)
  {
    if r.kind.SonyHigh? then Elements(Follow(img, r.offset - preferred, []).path)
    else {(r.offset - preferred) as int}
  }

  /** No two records patch the same word, and every Sony chain is terminated. */
  ghost predicate DistinctTargets(img: seq<u8>, preferred: u32, rs: seq<Relocation>)
    requires WellFormed(rs, preferred, |img|)
  {
    && (forall i :: 0 <= i < |rs| && rs[i].kind.SonyHigh? ==> Follow(img, rs[i].offset - preferred, []).Ends?)
    && (forall i, j :: 0 <= i < j < |rs| ==> Targets(img, preferred, rs[i]) !! Targets(img, preferred, rs[j]))
  }

  /** The link-time word at `w` and its relocated value, by the rule for the record's kind. */
  ghost predicate RelocatedWord(img: seq<u8>, after: seq<u8>, preferred: u32, delta: u32, r: Relocation, w: nat)
    requires InImage(r, preferred, |img|) && IsWord(img, w) && |after| == |img|
  {
    match r.kind
    case SonyHigh(addend) =>
      && delta + addend < U32_LIMIT
      && HighHalf(Word(after, w)) == HighHalf(Word(img, w))
      && LowHalf(Word(after, w)) == Immediate(delta + addend)
    case High(lowOffset) =>
      var low := Word(img, lowOffset - preferred);
      FitsField(r.kind, Word(img, w), low, delta) && Rebased(r.kind, Word(img, w), low, delta, Word(after, w))
    case _ => FitsField(r.kind, Word(img, w), 0, delta) && Rebased(r.kind, Word(img, w), 0, delta, Word(after, w))
  }

  ghost predicate RecordDone(img: seq<u8>, after: seq<u8>, preferred: u32, delta: u32, r: Relocation)
    requires InImage(r, preferred, |img|)
  {
    && |after| == |img|
    && forall w :: w in Targets(img, preferred, r) ==>
         IsWord(img, w) && RelocatedWord(img, after, preferred, delta, r, w)
  }

  lemma TargetsAreWords(img: seq<u8>, preferred: u32, r: Relocation)
    requires InImage(r, preferred, |img|)
    ensures forall w :: w in Targets(img, preferred, r) ==> IsWord(img, w)
  {
  }

  /** Following a chain reads nothing but the words on it. */
  lemma {:induction false} FollowLocal(a: seq<u8>, b: seq<u8>, at: int, seen: seq<int>)
    requires |a| == |b| && IsWord(a, at)
    requires Distinct(seen) && forall x :: x in seen ==> IsWord(a, x)
    requires forall x :: x in Follow(a, at, seen).path ==> Word(b, x) == Word(a, x)
    ensures Follow(b, at, seen) == Follow(a, at, seen)
    decreases WordOffsets(|a|) - Elements(seen)
  {
    hide Word, Step, WordOffsets, Elements;
    if at !in seen {
      SeenGrows(a, at, seen);
      assert seen + [at] <= Follow(a, at, seen).path;
      assert (seen + [at])[|seen|] == at;
      if Step(Word(a, at)) != 0 && IsWord(a, at + Step(Word(a, at))) {
        FollowLocal(a, b, at + Step(Word(a, at)), seen + [at]);
      }
    }
  }

  /** All words patched by the first `i` records. */
  function TargetsBefore(img: seq<u8>, preferred: u32, rs: seq<Relocation>, i: nat): set<int>
    requires WellFormed(rs, preferred, |img|) && i <= |rs|
  {
    if i == 0 then {} else TargetsBefore(img, preferred, rs, i - 1) + Targets(img, preferred, rs[i - 1])
  }

  lemma {:induction false} TargetsBeforeMembers(img: seq<u8>, preferred: u32, rs: seq<Relocation>, i: nat, w: int)
    requires WellFormed(rs, preferred, |img|) && i <= |rs|
    ensures w in TargetsBefore(img, preferred, rs, i) <==>
            exists j :: 0 <= j < i && w in Targets(img, preferred, rs[j])
  {
    if i > 0 {
      TargetsBeforeMembers(img, preferred, rs, i - 1, w);
    }
  }

  /** After `i` records: their targets are done and nothing else has moved. */
  ghost predicate DoneBefore(img: seq<u8>, now: seq<u8>, preferred: u32, delta: u32, rs: seq<Relocation>, i: nat)
    requires WellFormed(rs, preferred, |img|) && i <= |rs|
  {
    && AgreeOff(img, now, TargetsBefore(img, preferred, rs, i))
    && forall j :: 0 <= j < i ==> RecordDone(img, now, preferred, delta, rs[j])
  }

  /** A record whose words are still as linked turns them into their relocated values. */
  lemma ApplyFresh(img: seq<u8>, now: seq<u8>, preferred: u32, delta: u32, r: Relocation)
    requires InImage(r, preferred, |img|) && StillLinked(img, now, preferred, r)
    requires r.kind.SonyHigh? ==> Follow(img, r.offset - preferred, []).Ends?
    requires Apply(now, preferred, delta, r).Ok?
    ensures var after := Apply(now, preferred, delta, r).value;
            && RecordDone(img, after, preferred, delta, r)
            && AgreeOff(now, after, Targets(img, preferred, r))
  {
    hide Word, SetWord, WithLow, PatchedWord, FitsField, Rebased, Follow, Immediate, Walk, Patch;
    var at := r.offset - preferred;
    var after := Apply(now, preferred, delta, r).value;
    if r.kind.SonyHigh? {
      FollowLocal(img, now, at, []);
      var t, low := Follow(img, at, []), Immediate(delta + r.kind.addend);
      assert Patch(now, [], low) == now by { PatchNothing(now, low); }
      WalkFollows(now, at, low, []);
      PatchSpec(now, t.path, low);
      forall w | w in t.path
        ensures HighHalf(Word(after, w)) == HighHalf(Word(img, w)) && LowHalf(Word(after, w)) == low
      {
        WithLowHalves(Word(now, w), low);
      }
    } else {
      assert at in Targets(img, preferred, r);
      var low := if r.kind.High? then Word(now, r.kind.lowOffset - preferred) else 0;
      var w := PatchedWord(r.kind, Word(now, at), low, delta).value;
      PatchedIsRebased(r.kind, Word(now, at), low, delta);
      SetAgrees(now, at, w);
      WordOfSet(now, at, w);
    }
  }

  /** Words outside the step's targets keep every earlier record done. */
  lemma DoneSurvives(img: seq<u8>, now: seq<u8>, after: seq<u8>, preferred: u32, delta: u32, r: Relocation,
                     moved: set<int>)
    requires InImage(r, preferred, |img|)
    requires RecordDone(img, now, preferred, delta, r)
    requires AgreeOff(now, after, moved) && Targets(img, preferred, r) !! moved
    ensures RecordDone(img, after, preferred, delta, r)
  {
    hide Word, FitsField, Rebased, Immediate, Targets;
    forall w | w in Targets(img, preferred, r)
      ensures IsWord(img, w) && RelocatedWord(img, after, preferred, delta, r, w)
    {
      AgreeWord(now, after, moved, w);
    }
  }

  /** The words a record reads: those it patches, and its partner's. */
  ghost predicate StillLinked(img: seq<u8>, now: seq<u8>, preferred: u32, r: Relocation)
    requires InImage(r, preferred, |img|)
  {
    && |now| == |img|
    && (forall w :: w in Targets(img, preferred, r) ==> IsWord(img, w) && Word(now, w) == Word(img, w))
    && (r.kind.High? ==> Word(now, r.kind.lowOffset - preferred) == Word(img, r.kind.lowOffset - preferred))
  }

  /** With distinct targets a record finds the words it reads as they were linked. */
  lemma NextStillLinked(img: seq<u8>, now: seq<u8>, preferred: u32, delta: u32, rs: seq<Relocation>, i: nat)
    requires WellFormed(rs, preferred, |img|) && i < |rs| && DistinctTargets(img, preferred, rs)
    requires DoneBefore(img, now, preferred, delta, rs, i)
    ensures StillLinked(img, now, preferred, rs[i])
  {
    hide Word, RecordDone, Targets;
    var r, before := rs[i], TargetsBefore(img, preferred, rs, i);
    forall w | w in Targets(img, preferred, r)
      ensures IsWord(img, w) && Word(now, w) == Word(img, w)
    {
      TargetsAreWords(img, preferred, r);
      TargetsBeforeMembers(img, preferred, rs, i, w);
      AgreeWord(img, now, before, w);
    }
    if r.kind.High? {
      var partner := r.kind.lowOffset - preferred;
      assert rs[i + 1].kind.Low?;
      LowTarget(img, preferred, rs[i + 1]);
      TargetsBeforeMembers(img, preferred, rs, i, partner);
      AgreeWord(img, now, before, partner);
    }
  }

  lemma OneRecord(img: seq<u8>, now: seq<u8>, preferred: u32, delta: u32, rs: seq<Relocation>, i: nat)
    requires WellFormed(rs, preferred, |img|) && i < |rs| && DistinctTargets(img, preferred, rs)
    requires DoneBefore(img, now, preferred, delta, rs, i)
    requires Apply(now, preferred, delta, rs[i]).Ok?
    ensures DoneBefore(img, Apply(now, preferred, delta, rs[i]).value, preferred, delta, rs, i + 1)
  {
    hide Word, Apply, RecordDone, Targets;
    var r := rs[i];
    NextStillLinked(img, now, preferred, delta, rs, i);
    ApplyFresh(img, now, preferred, delta, r);
    var after := Apply(now, preferred, delta, r).value;
    forall j | 0 <= j < i
      ensures RecordDone(img, after, preferred, delta, rs[j])
    {
      DoneSurvives(img, now, after, preferred, delta, rs[j], Targets(img, preferred, r));
    }
  }

  lemma LowTarget(img: seq<u8>, preferred: u32, r: Relocation)
    requires InImage(r, preferred, |img|) && !r.kind.SonyHigh?
    ensures r.offset - preferred in Targets(img, preferred, r)
  {
  }

  lemma ApplyFromUnfolds(now: seq<u8>, preferred: u32, delta: u32, rs: seq<Relocation>, i: nat)
    requires WellFormed(rs, preferred, |now|) && i < |rs|
    requires ApplyFrom(now, preferred, delta, rs, i).Ok?
    ensures InImage(rs[i], preferred, |now|) && Apply(now, preferred, delta, rs[i]).Ok?
    ensures var next := Apply(now, preferred, delta, rs[i]).value;
            && |next| == |now|
            && ApplyFrom(now, preferred, delta, rs, i) == ApplyFrom(next, preferred, delta, rs, i + 1)
  {
  }

  lemma {:induction false} RemainingRecords(img: seq<u8>, now: seq<u8>, preferred: u32, delta: u32,
                                            rs: seq<Relocation>, i: nat)
    requires WellFormed(rs, preferred, |img|) && i <= |rs| && DistinctTargets(img, preferred, rs)
    requires |now| == |img| && DoneBefore(img, now, preferred, delta, rs, i)
    requires ApplyFrom(now, preferred, delta, rs, i).Ok?
    ensures DoneBefore(img, ApplyFrom(now, preferred, delta, rs, i).value, preferred, delta, rs, |rs|)
    decreases |rs| - i
  {
    if i < |rs| {
      hide *;
      ApplyFromUnfolds(now, preferred, delta, rs, i);
      OneRecord(img, now, preferred, delta, rs, i);
      RemainingRecords(img, Apply(now, preferred, delta, rs[i]).value, preferred, delta, rs, i + 1);
    }
  }

  /**
   * A successful load of a list with distinct targets gives every targeted word the value its
   * kind prescribes from the original link-time words, and moves no other byte.
   */
  lemma ListEffect(img: seq<u8>, preferred: u32, delta: u32, rs: seq<Relocation>)
    requires WellFormed(rs, preferred, |img|) && DistinctTargets(img, preferred, rs)
    requires ApplyFrom(img, preferred, delta, rs, 0).Ok?
    ensures var after := ApplyFrom(img, preferred, delta, rs, 0).value;
            && (forall i :: 0 <= i < |rs| ==> RecordDone(img, after, preferred, delta, rs[i]))
            && AgreeOff(img, after, TargetsBefore(img, preferred, rs, |rs|))
  {
    RemainingRecords(img, img, preferred, delta, rs, 0);
  }

  /** The link-time words allow the record: its value fits the field, or for a Sony chain the sum fits 32 bits. */
  predicate Admissible(img: seq<u8>, preferred: u32, delta: u32, r: Relocation)
    requires InImage(r, preferred, |img|)
  {
    match r.kind
    case SonyHigh(addend) => delta + addend < U32_LIMIT
    case High(lowOffset) =>
      FitsField(r.kind, Word(img, r.offset - preferred), Word(img, lowOffset - preferred), delta)
    case _ => FitsField(r.kind, Word(img, r.offset - preferred), 0, delta)
  }

  /** A record that finds its words as they were linked is applied exactly if these allow it. */
  lemma AdmissibleApplies(img: seq<u8>, now: seq<u8>, preferred: u32, delta: u32, r: Relocation)
    requires InImage(r, preferred, |img|) && StillLinked(img, now, preferred, r)
    requires r.kind.SonyHigh? ==> Follow(img, r.offset - preferred, []).Ends?
    ensures Apply(now, preferred, delta, r).Ok? <==> Admissible(img, preferred, delta, r)
  {
    hide Word, SetWord, WithLow, PatchedWord, FitsField, Rebased, Follow, Immediate, Walk, Patch;
    var at := r.offset - preferred;
    if r.kind.SonyHigh? {
      FollowLocal(img, now, at, []);
      if delta + r.kind.addend < U32_LIMIT {
        AcyclicChain(now, at, delta, r.kind.addend);
      }
    } else {
      assert at in Targets(img, preferred, r);
      var low := if r.kind.High? then Word(now, r.kind.lowOffset - preferred) else 0;
      PatchedIsRebased(r.kind, Word(now, at), low, delta);
    }
  }

  lemma {:induction false} RemainingAccepted(img: seq<u8>, now: seq<u8>, preferred: u32, delta: u32,
                                             rs: seq<Relocation>, i: nat)
    requires WellFormed(rs, preferred, |img|) && i <= |rs| && DistinctTargets(img, preferred, rs)
    requires |now| == |img| && DoneBefore(img, now, preferred, delta, rs, i)
    ensures ApplyFrom(now, preferred, delta, rs, i).Ok? <==>
            forall j :: i <= j < |rs| ==> Admissible(img, preferred, delta, rs[j])
    decreases |rs| - i
  {
    hide DoneBefore, DistinctTargets, Apply, Admissible, StillLinked, Follow;
    if i < |rs| {
      NextStillLinked(img, now, preferred, delta, rs, i);
      ChainEnds(img, preferred, rs, i);
      AdmissibleApplies(img, now, preferred, delta, rs[i]);
      if Apply(now, preferred, delta, rs[i]).Ok? {
        OneRecord(img, now, preferred, delta, rs, i);
        RemainingAccepted(img, Apply(now, preferred, delta, rs[i]).value, preferred, delta, rs, i + 1);
      }
    }
  }

  lemma ChainEnds(img: seq<u8>, preferred: u32, rs: seq<Relocation>, i: nat)
    requires WellFormed(rs, preferred, |img|) && i < |rs| && DistinctTargets(img, preferred, rs)
    ensures rs[i].kind.SonyHigh? ==> Follow(img, rs[i].offset - preferred, []).Ends?
  {
  }

  /** A list with distinct targets is accepted exactly if the link-time words allow each of its records. */
  lemma ListAccepted(img: seq<u8>, preferred: u32, delta: u32, rs: seq<Relocation>)
    requires WellFormed(rs, preferred, |img|) && DistinctTargets(img, preferred, rs)
    ensures ApplyFrom(img, preferred, delta, rs, 0).Ok? <==>
            forall i :: 0 <= i < |rs| ==> Admissible(img, preferred, delta, rs[i])
  {
    hide Admissible, Apply, DistinctTargets;
    RemainingAccepted(img, img, preferred, delta, rs, 0);
  }

  /** A relocated HI16/LO16 pair rebuilds the base plus the original 32-bit addend. */
  lemma PairRebuildsAddress(high: u32, low: u32, delta: u32, lowOffset: u32, high': u32, low': u32)
    requires Rebased(High(lowOffset), high, low, delta, high') && Rebased(Low, low, 0, delta, low')
    ensures (PairAddend(high', low') - (delta + PairAddend(high, low))) % U32_LIMIT == 0
    ensures HighHalf(high') == HighHalf(high) && HighHalf(low') == HighHalf(low)
  {
    SameRemainder(low', low + delta);
    SignExtendLow(low', low + delta);
  }

  lemma SameRemainder(a: int, b: int)
    requires (a % HALF - b) % HALF == 0
    ensures a % HALF == b % HALF
  {
  }

  lemma SameLowHalf(high: u32, low: u32, delta: u32)
    ensures (low + delta) % HALF == (delta + PairAddend(high, low)) % HALF
  {
  }

  lemma SignExtendLow(a: int, b: int)
    requires a % HALF == b % HALF
    ensures SignExtend16(a) == SignExtend16(b)
  {
  }

  /** The half-carry added to the upper immediate cancels the sign extension of the lower one. */
  lemma CarryRule(value: u32)
    ensures var upper := ((value + 0x8000) % U32_LIMIT) / HALF;
            && 0 <= upper < HALF
            && (upper * HALF + SignExtend16(value) - value) % U32_LIMIT == 0
  {
  }

  /** The immediate of a Sony chain is the upper half that goes with the sign-extended lower half of the sum. */
  lemma ImmediateRebuilds(sum: u32)
    ensures (Immediate(sum) * HALF + SignExtend16(sum) - sum) % U32_LIMIT == 0
  {
    CarryRule(sum);
  }

  /** Every HI16/LO16 pair of a loaded image addresses base + original addend, modulo 2^32. */
  lemma LoadedPair(img: seq<u8>, preferred: u32, delta: u32, rs: seq<Relocation>, i: nat)
    requires WellFormed(rs, preferred, |img|) && DistinctTargets(img, preferred, rs)
    requires ApplyFrom(img, preferred, delta, rs, 0).Ok?
    requires i < |rs| && rs[i].kind.High?
    ensures var after := ApplyFrom(img, preferred, delta, rs, 0).value;
            var high, low := rs[i].offset - preferred, rs[i].kind.lowOffset - preferred;
            (PairAddend(Word(after, high), Word(after, low))
             - (delta + PairAddend(Word(img, high), Word(img, low)))) % U32_LIMIT == 0
  {
    hide Word, FitsField, Rebased, PairAddend, Follow, ApplyFrom, TargetsBefore, AgreeOff;
    ListEffect(img, preferred, delta, rs);
    var after := ApplyFrom(img, preferred, delta, rs, 0).value;
    var high, low := rs[i].offset - preferred, rs[i].kind.lowOffset - preferred;
    LowTarget(img, preferred, rs[i]);
    LowTarget(img, preferred, rs[i + 1]);
    assert RelocatedWord(img, after, preferred, delta, rs[i], high);
    assert RelocatedWord(img, after, preferred, delta, rs[i + 1], low);
    PairRebuildsAddress(Word(img, high), Word(img, low), delta, rs[i].kind.lowOffset, Word(after, high),
                        Word(after, low));
  }

  /** The word of a record that patches one word, in a loaded image. */
  lemma LoadedTarget(img: seq<u8>, preferred: u32, delta: u32, rs: seq<Relocation>, i: nat)
    requires WellFormed(rs, preferred, |img|) && DistinctTargets(img, preferred, rs)
    requires ApplyFrom(img, preferred, delta, rs, 0).Ok?
    requires i < |rs| && !rs[i].kind.SonyHigh? && !rs[i].kind.High?
    ensures var at := rs[i].offset - preferred;
            && FitsField(rs[i].kind, Word(img, at), 0, delta)
            && Rebased(rs[i].kind, Word(img, at), 0, delta, Word(ApplyFrom(img, preferred, delta, rs, 0).value, at))
  {
    hide Word, FitsField, Rebased, Follow, ApplyFrom, TargetsBefore, AgreeOff;
    ListEffect(img, preferred, delta, rs);
    var after := ApplyFrom(img, preferred, delta, rs, 0).value;
    LowTarget(img, preferred, rs[i]);
    assert RelocatedWord(img, after, preferred, delta, rs[i], rs[i].offset - preferred);
  }

  /** Every 32-bit pointer of a loaded image is the linked one plus the base, without wrapping. */
  lemma LoadedPointer(img: seq<u8>, preferred: u32, delta: u32, rs: seq<Relocation>, i: nat)
    requires WellFormed(rs, preferred, |img|) && DistinctTargets(img, preferred, rs)
    requires ApplyFrom(img, preferred, delta, rs, 0).Ok? && i < |rs| && rs[i].kind.FullWord?
    ensures var at := rs[i].offset - preferred;
            Word(ApplyFrom(img, preferred, delta, rs, 0).value, at) == Word(img, at) + delta
  {
    hide Word, ApplyFrom, DistinctTargets;
    LoadedTarget(img, preferred, delta, rs, i);
  }

  /** Every jump keeps its opcode and goes, within its 256 MB segment, to where it was linked to go, plus the base. */
  lemma LoadedJump(img: seq<u8>, preferred: u32, delta: u32, rs: seq<Relocation>, i: nat)
    requires WellFormed(rs, preferred, |img|) && DistinctTargets(img, preferred, rs)
    requires ApplyFrom(img, preferred, delta, rs, 0).Ok? && i < |rs| && rs[i].kind.Jump?
    ensures var at := rs[i].offset - preferred;
            var was, now := Word(img, at), Word(ApplyFrom(img, preferred, delta, rs, 0).value, at);
            && now / 0x400_0000 == was / 0x400_0000
            && ((now % 0x400_0000) * 4 - (delta + (was % 0x400_0000) * 4)) % 0x1000_0000 == 0
  {
    hide Word, ApplyFrom, DistinctTargets;
    LoadedTarget(img, preferred, delta, rs, i);
  }

  /** Every 16-bit field of a loaded image is the linked one, read with its sign, plus the base. */
  lemma LoadedHalf(img: seq<u8>, preferred: u32, delta: u32, rs: seq<Relocation>, i: nat)
    requires WellFormed(rs, preferred, |img|) && DistinctTargets(img, preferred, rs)
    requires ApplyFrom(img, preferred, delta, rs, 0).Ok? && i < |rs| && rs[i].kind.Half?
    ensures var at := rs[i].offset - preferred;
            var was, now := Word(img, at), Word(ApplyFrom(img, preferred, delta, rs, 0).value, at);
            && now / 0x1_0000 == was / 0x1_0000 && delta + SignExtend16(was) <= 0xffff
            && (now % 0x1_0000 - (delta + SignExtend16(was))) % 0x1_0000 == 0
  {
    hide Word, ApplyFrom, DistinctTargets;
    LoadedTarget(img, preferred, delta, rs, i);
  }
}
