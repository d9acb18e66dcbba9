/** Relocation sections: how their eight-byte entries spell relocation records. */
module RelocationRecords {
  import opened Machine
  import opened Wrappers
  import opened LittleEndian
  import opened ImageWords
  import opened SonyChain
  import opened Relocations

  const REL_SIZE := 8

  predicate IsSection(data: seq<u8>) { |data| % REL_SIZE == 0 }

  /** What entry `index` contributes, and how many entries it takes up. */
  function Entry(data: seq<u8>, index: nat, preferred: u32, size: nat): (r: Result<(seq<Relocation>, nat), IrxError>)
    requires IsSection(data) && index < |data| / REL_SIZE
    ensures r.Ok? ==> r.value.1 > 0 && |r.value.0| <= r.value.1
  {
    var at := index * REL_SIZE;
    var offset, info := Word(data, at), Word(data, at + 4);
    var kind := info % 0x100;
    if info / 0x100 != 0 then Err(InvalidSymbol)
    else if kind == 0 then Ok(([], 1))
    else if !NamesWord(offset, preferred, size) then Err(OutOfRange)
    else if kind == 1 then Ok(([Relocation(offset, Half)], 1))
    else if kind == 2 then Ok(([Relocation(offset, FullWord)], 1))
    else if kind == 4 then Ok(([Relocation(offset, Jump)], 1))
    else if kind == 6 then Ok(([Relocation(offset, Low)], 1))
    else if kind == 251 then Err(MalformedRelocationPair)
    else if kind == 5 || kind == 250 then
      if at + 2 * REL_SIZE > |data| || Word(data, at + REL_SIZE + 4) != kind + 1 then Err(MalformedRelocationPair)
      else
        var second := Word(data, at + REL_SIZE);
        if kind == 250 then Ok(([Relocation(offset, SonyHigh(second))], 2))
        else if !NamesWord(second, preferred, size) then Err(OutOfRange)
        else Ok(([Relocation(offset, High(second))], 1))
    else Err(UnsupportedRelocation(kind))
  }

  /** The records spelled by the entries from `index` on. */
  function Decoded(data: seq<u8>, index: nat, preferred: u32, size: nat): Result<seq<Relocation>, IrxError>
    requires IsSection(data)
    decreases |data| / REL_SIZE - index
  {
    if index >= |data| / REL_SIZE then Ok([])
    else
      match Entry(data, index, preferred, size)
      case Err(e) => Err(e)
      case Ok((rs, taken)) => Prepend(rs, Decoded(data, index + taken, preferred, size))
  }

  function Prepend(rs: seq<Relocation>, r: Result<seq<Relocation>, IrxError>): Result<seq<Relocation>, IrxError>
  {
    match r
    case Err(e) => Err(e)
    case Ok(more) => Ok(rs + more)
  }

  lemma PrependTwice(a: seq<Relocation>, b: seq<Relocation>, r: Result<seq<Relocation>, IrxError>)
    ensures Prepend(a + b, r) == Prepend(a, Prepend(b, r))
  {
    if r.Ok? {
      assert a + b + r.value == a + (b + r.value);
    }
  }

  /** Decodes the complete entries of one section. */
  method ParseSection(data: seq<u8>, imageSize: nat, preferred: u32) returns (r: Result<seq<Relocation>, IrxError>)
    requires IsSection(data)
    ensures r == Decoded(data, 0, preferred, imageSize)
  {
    hide Word, Decoded, Prepend;
    var count := |data| / REL_SIZE;
    var output: seq<Relocation> := [];
    var index := 0;
    NothingDecoded(data, preferred, imageSize);
    while index < count
      invariant Decoded(data, 0, preferred, imageSize) == Prepend(output, Decoded(data, index, preferred, imageSize))
      decreases count - index
    {
      OneEntry(data, index, preferred, imageSize, output);
      var at := index * REL_SIZE;
      var offset, info := Word(data, at), Word(data, at + 4);
      if info / 0x100 != 0 {
        return Err(InvalidSymbol);
      }
      var kind := info % 0x100;
      if kind == 0 {
        index := index + 1;
        continue;
      }
      if !NamesWord(offset, preferred, imageSize) {
        return Err(OutOfRange);
      }
      var relocation: RelocationKind;
      var consumed := 1;
      match kind {
        case 1 => relocation := Half;
        case 2 => relocation := FullWord;
        case 4 => relocation := Jump;
        case 5 =>
          if at + 2 * REL_SIZE > |data| {
            return Err(MalformedRelocationPair);
          }
          var nextInfo := Word(data, at + REL_SIZE + 4);
          if nextInfo % 0x100 != 6 || nextInfo / 0x100 != 0 {
            return Err(MalformedRelocationPair);
          }
          var lowOffset := Word(data, at + REL_SIZE);
          if !NamesWord(lowOffset, preferred, imageSize) {
            return Err(OutOfRange);
          }
          relocation := High(lowOffset);
        case 6 => relocation := Low;
        case 250 =>
          if at + 2 * REL_SIZE > |data| {
            return Err(MalformedRelocationPair);
          }
          var nextInfo := Word(data, at + REL_SIZE + 4);
          if nextInfo % 0x100 != 251 || nextInfo / 0x100 != 0 {
            return Err(MalformedRelocationPair);
          }
          relocation := SonyHigh(Word(data, at + REL_SIZE));
          consumed := 2;
        case 251 => return Err(MalformedRelocationPair);
        case _ => return Err(UnsupportedRelocation(kind));
      }
      output := output + [Relocation(offset, relocation)];
      index := index + consumed;
    }
    AllDecoded(data, index, preferred, imageSize, output);
    return Ok(output);
  }

  lemma NothingDecoded(data: seq<u8>, preferred: u32, size: nat)
    requires IsSection(data)
    ensures Decoded(data, 0, preferred, size) == Prepend([], Decoded(data, 0, preferred, size))
  {
    var r := Decoded(data, 0, preferred, size);
    if r.Ok? {
      assert [] + r.value == r.value;
    }
  }

  lemma OneEntry(data: seq<u8>, index: nat, preferred: u32, size: nat, output: seq<Relocation>)
    requires IsSection(data) && index < |data| / REL_SIZE
    ensures var e := Entry(data, index, preferred, size);
            Prepend(output, Decoded(data, index, preferred, size)) ==
            if e.Err? then Err(e.error)
               else Prepend(output + e.value.0, Decoded(data, index + e.value.1, preferred, size))
    ensures output + [] == output
  {
    hide Entry;
    var e := Entry(data, index, preferred, size);
    if e.Ok? {
      PrependTwice(output, e.value.0, Decoded(data, index + e.value.1, preferred, size));
    }
  }

  lemma AllDecoded(data: seq<u8>, index: nat, preferred: u32, size: nat, output: seq<Relocation>)
    requires IsSection(data) && index >= |data| / REL_SIZE
    ensures Prepend(output, Decoded(data, index, preferred, size)) == Ok(output)
  {
    assert output + [] == output;
  }

  /** Decoded records lie in the image, and every HI16 record has its LO16 partner. */
  lemma {:induction false} DecodedWellFormed(data: seq<u8>, index: nat, preferred: u32, size: nat)
    requires IsSection(data) && Decoded(data, index, preferred, size).Ok?
    ensures WellFormed(Decoded(data, index, preferred, size).value, preferred, size)
    ensures |Decoded(data, index, preferred, size).value| + index <= Max(index, |data| / REL_SIZE)
    decreases |data| / REL_SIZE - index
  {
    hide Word, NamesWord;
    if index < |data| / REL_SIZE {
      var (rs, taken) := Entry(data, index, preferred, size).value;
      DecodedWellFormed(data, index + taken, preferred, size);
      var more := Decoded(data, index + taken, preferred, size).value;
      var all := rs + more;
      if rs != [] && rs[0].kind.High? {
        LowFollows(data, index, preferred, size);
      }
      forall i | 0 <= i < |all| && all[i].kind.High?
        ensures i + 1 < |all| && all[i + 1].kind.Low? && all[i + 1].offset == all[i].kind.lowOffset
      {
        if i >= |rs| {
          assert all[i] == more[i - |rs|] && all[i + 1] == more[i - |rs| + 1];
        }
      }
    }
  }

  lemma LowFollows(data: seq<u8>, index: nat, preferred: u32, size: nat)
    requires IsSection(data) && index < |data| / REL_SIZE && Decoded(data, index, preferred, size).Ok?
    requires var rs := Entry(data, index, preferred, size).value.0; rs != [] && rs[0].kind.High?
    ensures var r := Entry(data, index, preferred, size).value.0[0];
            var more := Decoded(data, index + 1, preferred, size).value;
            more != [] && more[0] == Relocation(r.kind.lowOffset, Low)
  {
    hide Word, NamesWord;
    var r := Entry(data, index, preferred, size).value.0[0];
    assert (index + 1) * REL_SIZE == index * REL_SIZE + REL_SIZE;
    assert Entry(data, index, preferred, size).value.1 == 1 && index + 1 < |data| / REL_SIZE;
    assert Entry(data, index + 1, preferred, size) == Ok(([Relocation(r.kind.lowOffset, Low)], 1));
    assert Decoded(data, index, preferred, size) == Prepend([r], Decoded(data, index + 1, preferred, size));
    assert Decoded(data, index + 1, preferred, size)
           == Prepend([Relocation(r.kind.lowOffset, Low)], Decoded(data, index + 2, preferred, size));
  }

  // ----- The other way round

  function Code(kind: RelocationKind): u32
  {
    match kind
    case Half => 1
    case FullWord => 2
    case Jump => 4
    case High(_) => 5
    case Low => 6
    case SonyHigh(_) => 250
  }

  /** The entries that spell one record. */
  function Spelled(r: Relocation): seq<u8>
  {
    EncodeU32(r.offset) + EncodeU32(Code(r.kind))
    + if r.kind.SonyHigh? then EncodeU32(r.kind.addend) + EncodeU32(251) else []
  }

  function SpelledAll(rs: seq<Relocation>): seq<u8>
  {
    if rs == [] then [] else Spelled(rs[0]) + SpelledAll(rs[1..])
  }

  lemma {:induction false} SpelledSize(rs: seq<Relocation>)
    ensures IsSection(SpelledAll(rs))
  {
    if rs != [] {
      SpelledSize(rs[1..]);
    }
  }

  lemma WordAfter(data: seq<u8>, prefix: seq<u8>, v: u32, suffix: seq<u8>)
    requires data == prefix + EncodeU32(v) + suffix
    ensures |prefix| + 4 <= |data| && Word(data, |prefix|) == v
  {
    U32RoundTrip(v);
    var w, at := EncodeU32(v), |prefix|;
    assert data[at] == w[0] && data[at + 1] == w[1] && data[at + 2] == w[2] && data[at + 3] == w[3];
  }

  /** The words that spell the first of some records. */
  lemma FirstWords(before: seq<u8>, rs: seq<Relocation>)
    requires rs != []
    ensures var (data, at) := (before + SpelledAll(rs), |before|);
            && at + REL_SIZE <= |data| && Word(data, at) == rs[0].offset && Word(data, at + 4) == Code(rs[0].kind)
            && (rs[0].kind.SonyHigh? ==>
                  && at + 2 * REL_SIZE <= |data|
                  && Word(data, at + REL_SIZE) == rs[0].kind.addend && Word(data, at + REL_SIZE + 4) == 251)
            && data == (before + Spelled(rs[0])) + SpelledAll(rs[1..])
  {
    hide EncodeU32, Word, Code;
    var r, rest := rs[0], SpelledAll(rs[1..]);
    var data := before + SpelledAll(rs);
    var a, b := EncodeU32(r.offset), EncodeU32(Code(r.kind));
    if r.kind.SonyHigh? {
      var c, d := EncodeU32(r.kind.addend), EncodeU32(251);
      FourWords(before, a, b, c, d, rest);
      WordAfter(data, before, r.offset, b + c + d + rest);
      WordAfter(data, before + a, Code(r.kind), c + d + rest);
      WordAfter(data, before + a + b, r.kind.addend, d + rest);
      WordAfter(data, before + a + b + c, 251, rest);
    } else {
      assert a + b + [] == a + b;
      TwoWords(before, a, b, rest);
      WordAfter(data, before, r.offset, b + rest);
      WordAfter(data, before + a, Code(r.kind), rest);
    }
  }

  lemma TwoWords(before: seq<u8>, a: seq<u8>, b: seq<u8>, rest: seq<u8>)
    ensures before + (a + b + rest) == before + a + (b + rest) == (before + a) + b + rest == (before + (a + b)) + rest
  {
  }

  lemma FourWords(before: seq<u8>, a: seq<u8>, b: seq<u8>, c: seq<u8>, d: seq<u8>, rest: seq<u8>)
    ensures var data := before + (a + b + (c + d) + rest);
            && data == before + a + (b + c + d + rest) && data == (before + a) + b + (c + d + rest)
            && data == (before + a + b) + c + (d + rest) && data == (before + a + b + c) + d + rest
            && data == (before + (a + b + (c + d))) + rest
  {
  }

  /** Decoding spelled records yields them. */
  lemma {:induction false} SpellThenDecode(before: seq<u8>, rs: seq<Relocation>, preferred: u32, size: nat)
    requires IsSection(before) && WellFormed(rs, preferred, size)
    ensures IsSection(before + SpelledAll(rs))
    ensures Decoded(before + SpelledAll(rs), |before| / REL_SIZE, preferred, size) == Ok(rs)
    decreases |rs|
  {
    hide Word, NamesWord, Spelled, EncodeU32;
    SpelledSize(rs);
    var data, index := before + SpelledAll(rs), |before| / REL_SIZE;
    if rs != [] {
      FirstWords(before, rs);
      EntrySpelled(before, rs, preferred, size);
      var taken := if rs[0].kind.SonyHigh? then 2 else 1;
      assert |Spelled(rs[0])| == REL_SIZE * taken by { SpelledLength(rs[0]); }
      assert WellFormed(rs[1..], preferred, size) by { TailWellFormed(rs, preferred, size); }
      SpellThenDecode(before + Spelled(rs[0]), rs[1..], preferred, size);
      assert rs == [rs[0]] + rs[1..];
    }
  }

  lemma SpelledLength(r: Relocation)
    ensures |Spelled(r)| == REL_SIZE * if r.kind.SonyHigh? then 2 else 1
  {
  }

  lemma TailWellFormed(rs: seq<Relocation>, preferred: u32, size: nat)
    requires WellFormed(rs, preferred, size) && rs != []
    ensures WellFormed(rs[1..], preferred, size)
  {
    hide NamesWord;
    var tail := rs[1..];
    forall i | 0 <= i < |tail| && tail[i].kind.High?
      ensures i + 1 < |tail| && tail[i + 1].kind.Low? && tail[i + 1].offset == tail[i].kind.lowOffset
    {
      assert rs[i + 1] == tail[i] && rs[i + 2] == tail[i + 1];
    }
  }

  lemma EntrySpelled(before: seq<u8>, rs: seq<Relocation>, preferred: u32, size: nat)
    requires IsSection(before) && IsSection(before + SpelledAll(rs)) && rs != [] && WellFormed(rs, preferred, size)
    ensures |before| / REL_SIZE < |before + SpelledAll(rs)| / REL_SIZE
    ensures Entry(before + SpelledAll(rs), |before| / REL_SIZE, preferred, size) ==
            Ok(([rs[0]], if rs[0].kind.SonyHigh? then 2 else 1))
  {
    hide Word, NamesWord, Spelled, SpelledAll;
    FirstWords(before, rs);
    if rs[0].kind.High? {
      TailWellFormed(rs, preferred, size);
      FirstWords(before + Spelled(rs[0]), rs[1..]);
      SpelledLength(rs[0]);
    }
    assert InImage(rs[0], preferred, size);
    assert rs[0] == Relocation(rs[0].offset, rs[0].kind);
  }
}
