/** Ordered tags with case-insensitive keys: parsing, lookup and printing. */
module Tags {
  import opened Machine
  import opened Wrappers

  const NEWLINE: u8 := 0x0a
  const EQUALS: u8 := 0x3d

  type Bytes = seq<u8>

  datatype Tag = Tag(key: Bytes, value: Bytes)

  datatype TagError = TagNull | MalformedTagLine | InvalidTagKey

  // ----- Bytes

  predicate Blank(b: u8) { 1 <= b <= 0x20 }

  predicate Letter(b: u8) { 0x41 <= b <= 0x5a || 0x61 <= b <= 0x7a }

  predicate Digit(b: u8) { 0x30 <= b <= 0x39 }

  function TrimStart(s: Bytes): Bytes
  {
    if s != [] && Blank(s[0]) then TrimStart(s[1..]) else s
  }

  function TrimEnd(s: Bytes): Bytes
  {
    if s != [] && Blank(s[|s| - 1]) then TrimEnd(s[..|s| - 1]) else s
  }

  function Trim(s: Bytes): Bytes { TrimEnd(TrimStart(s)) }

  predicate Trimmed(s: Bytes) { s == [] || (!Blank(s[0]) && !Blank(s[|s| - 1])) }

  /**
   * Letters are the alphabet in both cases, digits the ten digits, and blanks all controls but the null, and the
   * space.
   */
  lemma CharacterClasses(k: nat, b: u8)
    ensures k < 26 ==> Letter("ABCDEFGHIJKLMNOPQRSTUVWXYZ"[k] as int)
    ensures k < 26 ==> Letter("abcdefghijklmnopqrstuvwxyz"[k] as int)
    ensures k < 10 ==> Digit("0123456789"[k] as int)
    ensures Letter(b) ==> 'A' <= b as char <= 'Z' || 'a' <= b as char <= 'z'
    ensures Digit(b) ==> '0' <= b as char <= '9'
    ensures Blank(b) <==> b != 0 && b as char <= ' '
  {
  }

  predicate ValidIdentifier(s: Bytes)
  {
    && s != [] && (Letter(s[0]) || s[0] == 0x5f)
    && forall k :: 1 <= k < |s| ==> Letter(s[k]) || Digit(s[k]) || s[k] == 0x5f
  }

  function Lower(b: u8): u8 { if 0x41 <= b <= 0x5a then b + 0x20 else b }

  /** The alphabet in both cases, and every other byte as it is. */
  lemma LowerLetters(k: nat, b: u8)
    ensures k < 26 ==> Lower("ABCDEFGHIJKLMNOPQRSTUVWXYZ"[k] as int) == "abcdefghijklmnopqrstuvwxyz"[k] as int
    ensures !('A' as int <= b <= 'Z' as int) ==> Lower(b) == b
  {
  }

  function LowerAll(s: Bytes): (r: Bytes)
    ensures |r| == |s| && forall k :: 0 <= k < |s| ==> r[k] == Lower(s[k])
  {
    seq(|s|, k requires 0 <= k < |s| => Lower(s[k]))
  }

  predicate EqualKeys(a: Bytes, b: Bytes) { LowerAll(a) == LowerAll(b) }

  function Find(s: Bytes, b: u8): (n: nat)
    ensures n <= |s| && (n < |s| ==> s[n] == b)
    ensures forall k :: 0 <= k < n ==> s[k] != b
  {
    if s == [] || s[0] == b then 0 else 1 + Find(s[1..], b)
  }

  lemma FindIs(a: Bytes, rest: Bytes, b: u8)
    requires b !in a && rest != [] && rest[0] == b
    ensures Find(a + rest, b) == |a|
  {
    var s := a + rest;
    assert s[|a|] == b && forall k :: 0 <= k < |a| ==> s[k] == a[k];
  }

  /** Pieces between newlines; there is always at least one. */
  function Lines(s: Bytes): (r: seq<Bytes>)
    ensures r != []
  {
    if s == [] then [[]]
    else
      var before, b := Lines(s[..|s| - 1]), s[|s| - 1];
      if b == NEWLINE then before + [[]] else before[|before| - 1 := before[|before| - 1] + [b]]
  }

  // ----- Parsing

  /** One line appended to the tags so far; a line repeating the last key continues its value. */
  function Append(entries: seq<Tag>, key: Bytes, value: Bytes): seq<Tag>
  {
    if entries != [] && EqualKeys(entries[|entries| - 1].key, key) then
      var last := entries[|entries| - 1];
      entries[..|entries| - 1] + [Tag(last.key, last.value + [NEWLINE] + value)]
    else entries + [Tag(key, value)]
  }

  function AcceptLine(entries: seq<Tag>, line: Bytes): Result<seq<Tag>, TagError>
  {
    var trimmed := Trim(line);
    if trimmed == [] then Ok(entries)
    else
      var equals := Find(trimmed, EQUALS);
      if equals == |trimmed| then Err(MalformedTagLine)
      else
        var key, value := Trim(trimmed[..equals]), Trim(trimmed[equals + 1..]);
        if !ValidIdentifier(key) then Err(InvalidTagKey) else Ok(Append(entries, key, value))
  }

  function AcceptLines(lines: seq<Bytes>): Result<seq<Tag>, TagError>
  {
    if lines == [] then Ok([])
    else
      match AcceptLines(lines[..|lines| - 1])
      case Err(e) => Err(e)
      case Ok(entries) => AcceptLine(entries, lines[|lines| - 1])
  }

  function ParseTags(raw: Bytes): Result<seq<Tag>, TagError>
  {
    if 0 in raw then Err(TagNull) else AcceptLines(Lines(raw))
  }

  lemma {:induction false} ErrorStays(lines: seq<Bytes>, k: nat)
    requires k <= |lines| && AcceptLines(lines[..k]).Err?
    ensures AcceptLines(lines) == AcceptLines(lines[..k])
  {
    if k < |lines| {
      assert lines[..|lines| - 1][..k] == lines[..k];
      ErrorStays(lines[..|lines| - 1], k);
    } else {
      assert lines[..k] == lines;
    }
  }

  /** The parser: one pass over the lines, editing the list of entries in place. */
  method Parse(raw: Bytes) returns (r: Result<seq<Tag>, TagError>)
    ensures r == ParseTags(raw)
  {
    hide AcceptLine;
    if 0 in raw {
      return Err(TagNull);
    }
    var lines := Lines(raw);
    var entries: seq<Tag> := [];
    for k := 0 to |lines|
      invariant AcceptLines(lines[..k]) == Ok(entries)
    {
      assert lines[..k + 1][..k] == lines[..k];
      var accepted := ParseLine(entries, lines[k]);
      if accepted.Err? {
        ErrorStays(lines, k + 1);
        return accepted;
      }
      entries := accepted.value;
    }
    assert lines[..|lines|] == lines;
    return Ok(entries);
  }

  method ParseLine(entries: seq<Tag>, line: Bytes) returns (r: Result<seq<Tag>, TagError>)
    ensures r == AcceptLine(entries, line)
  {
    hide Trim, ValidIdentifier, EqualKeys;
    var trimmed := Trim(line);
    if trimmed == [] {
      return Ok(entries);
    }
    var equals := Find(trimmed, EQUALS);
    if equals == |trimmed| {
      return Err(MalformedTagLine);
    }
    var key, value := Trim(trimmed[..equals]), Trim(trimmed[equals + 1..]);
    if !ValidIdentifier(key) {
      return Err(InvalidTagKey);
    }
    var last := |entries| - 1;
    if entries != [] && EqualKeys(entries[last].key, key) {
      return Ok(entries[..last] + [Tag(entries[last].key, entries[last].value + [NEWLINE] + value)]);
    }
    return Ok(entries + [Tag(key, value)]);
  }

  // ----- What a line says

  predicate AllBlank(s: Bytes) { forall k :: 0 <= k < |s| ==> 1 <= s[k] <= 0x20 }

  /** Trimming takes blanks off both ends, the carriage return of a line end among them, and nothing else. */
  lemma TrimSpec(s: Bytes) returns (before: Bytes, after: Bytes)
    ensures s == before + Trim(s) + after && AllBlank(before) && AllBlank(after) && Trimmed(Trim(s))
  {
    before := StartBlanks(s);
    after := EndBlanks(TrimStart(s));
  }

  lemma {:induction false} StartBlanks(s: Bytes) returns (before: Bytes)
    ensures s == before + TrimStart(s) && AllBlank(before) && (TrimStart(s) != [] ==> !Blank(TrimStart(s)[0]))
  {
    before := [];
    if s != [] && Blank(s[0]) {
      var rest := StartBlanks(s[1..]);
      before := [s[0]] + rest;
    }
  }

  lemma {:induction false} EndBlanks(s: Bytes) returns (after: Bytes)
    ensures s == TrimEnd(s) + after && AllBlank(after) && (TrimEnd(s) != [] ==> !Blank(TrimEnd(s)[|TrimEnd(s)| - 1]))
    ensures s != [] && !Blank(s[0]) ==> TrimEnd(s) != [] && TrimEnd(s)[0] == s[0]
  {
    after := [];
    if s != [] && Blank(s[|s| - 1]) {
      var rest := EndBlanks(s[..|s| - 1]);
      after := rest + [s[|s| - 1]];
    }
  }

  /** Whatever blanks surround a text without blanks at its ends, trimming gives the text. */
  lemma TrimPadded(before: Bytes, text: Bytes, after: Bytes)
    requires AllBlank(before) && AllBlank(after) && Trimmed(text)
    ensures Trim(before + text + after) == text
  {
    PadStart(before, text + after);
    assert before + text + after == before + (text + after);
    if text == [] {
      PadStart(after, []);
      assert text + after == after + [];
    } else {
      assert (text + after)[0] == text[0];
      PadEnd(text, after);
    }
  }

  lemma {:induction false} PadStart(before: Bytes, rest: Bytes)
    requires AllBlank(before)
    ensures TrimStart(before + rest) == TrimStart(rest)
  {
    if before != [] {
      assert (before + rest)[1..] == before[1..] + rest;
      PadStart(before[1..], rest);
    } else {
      assert before + rest == rest;
    }
  }

  lemma {:induction false} PadEnd(text: Bytes, after: Bytes)
    requires AllBlank(after) && text != [] && !Blank(text[|text| - 1])
    ensures TrimEnd(text + after) == text
  {
    if after != [] {
      var init := after[..|after| - 1];
      assert (text + after)[..|text + after| - 1] == text + init;
      PadEnd(text, init);
    } else {
      assert text + after == text;
    }
  }

  /** A blank line says nothing. */
  lemma BlankLine(entries: seq<Tag>, line: Bytes)
    requires AllBlank(line)
    ensures AcceptLine(entries, line) == Ok(entries)
  {
    TrimPadded(line, [], []);
    assert line + [] + [] == line;
  }

  /** Blanks around key and value do not matter; the key ends at the first equals sign. */
  lemma SpacedLine(entries: seq<Tag>, a: Bytes, key: Bytes, b: Bytes, c: Bytes, value: Bytes, d: Bytes)
    requires AllBlank(a) && AllBlank(b) && AllBlank(c) && AllBlank(d)
    requires ValidIdentifier(key) && Trimmed(value)
    ensures AcceptLine(entries, a + key + b + [0x3d] + c + value + d) == Ok(Append(entries, key, value))
  {
    hide ValidIdentifier, Append, Trim, Find;
    KeyBytes(key);
    var left := key + b;
    var right := if value == [] then [] else c + value;
    var text, after := left + [0x3d] + right, if value == [] then c + d else d;
    assert a + key + b + [0x3d] + c + value + d == a + text + after;
    assert text[0] == key[0] && text[|text| - 1] == if value == [] then 0x3d else value[|value| - 1];
    TrimPadded(a, text, after);
    SpacedFields(key, b, c, value, right);
    assert text == left + ([0x3d] + right) && 0x3d !in left;
    FindIs(left, [0x3d] + right, 0x3d);
    assert text[..|left|] == left && text[|left| + 1..] == right;
  }

  lemma SpacedFields(key: Bytes, b: Bytes, c: Bytes, value: Bytes, right: Bytes)
    requires AllBlank(b) && AllBlank(c) && Trimmed(key) && Trimmed(value)
    requires right == if value == [] then [] else c + value
    ensures Trim(key + b) == key && Trim(right) == value
  {
    hide Trim, TrimStart, TrimEnd;
    TrimPadded([], key, b);
    assert [] + key + b == key + b;
    if value == [] {
      TrimPadded([], [], []);
      assert [] + right + [] == right;
    } else {
      TrimPadded(c, value, []);
      assert c + value + [] == c + value;
    }
  }

  /** A line that is not blank is refused without an equals sign, or if what precedes the first is no identifier. */
  lemma RefusedLine(entries: seq<Tag>, line: Bytes)
    requires !AllBlank(line)
    ensures AcceptLine(entries, line) == Err(MalformedTagLine) <==> 0x3d !in line
    ensures AcceptLine(entries, line) == Err(InvalidTagKey) <==>
              0x3d in line && !ValidIdentifier(Trim(line[..Find(line, 0x3d)]))
  {
    hide ValidIdentifier, Append, Trim, TrimStart, TrimEnd, Find;
    var before, after := TrimSpec(line);
    var text := Trim(line);
    NotBlank(line, before, text, after);
    var n := Find(text, 0x3d);
    if n < |text| {
      KeyPart(before, text, after, n);
    }
  }

  lemma NotBlank(line: Bytes, before: Bytes, text: Bytes, after: Bytes)
    requires line == before + text + after && AllBlank(before) && AllBlank(after)
    ensures !AllBlank(line) ==> text != []
    ensures 0x3d in line <==> 0x3d in text
  {
    assert 0x3d !in before && 0x3d !in after;
    assert 0x3d in line <==> 0x3d in before + text || 0x3d in after;
    assert 0x3d in before + text <==> 0x3d in before || 0x3d in text;
    if text == [] {
      forall k | 0 <= k < |line|
        ensures 1 <= line[k] <= 0x20
      {
        assert line[k] == if k < |before| then before[k] else after[k - |before|];
      }
    }
  }

  lemma KeyPart(before: Bytes, text: Bytes, after: Bytes, n: nat)
    requires AllBlank(before) && n < |text| && n == Find(text, 0x3d)
    ensures Trim((before + text + after)[..Find(before + text + after, 0x3d)]) == Trim(text[..n])
  {
    hide Trim;
    var line, rest := before + text + after, text[n..] + after;
    assert line == (before + text[..n]) + rest && 0x3d !in before + text[..n];
    FindIs(before + text[..n], rest, 0x3d);
    assert line[..|before| + n] == before + text[..n];
    TrimBehind(before, text[..n]);
  }

  lemma TrimBehind(before: Bytes, s: Bytes)
    requires AllBlank(before)
    ensures Trim(before + s) == Trim(s)
  {
    PadStart(before, s);
  }

  /** Accepted keys are identifiers, and neighbouring entries never share a key. */
  lemma {:induction false} AcceptedEntries(lines: seq<Bytes>)
    requires AcceptLines(lines).Ok?
    ensures forall t :: t in AcceptLines(lines).value ==> ValidIdentifier(t.key)
    ensures NoRuns(AcceptLines(lines).value)
  {
    hide ValidIdentifier, Trim, EqualKeys;
    if lines != [] {
      AcceptedEntries(lines[..|lines| - 1]);
      AcceptedLine(AcceptLines(lines[..|lines| - 1]).value, lines[|lines| - 1]);
    }
  }

  predicate NoRuns(entries: seq<Tag>)
  {
    forall k :: 0 < k < |entries| ==> !EqualKeys(entries[k - 1].key, entries[k].key)
  }

  lemma AcceptedLine(entries: seq<Tag>, line: Bytes)
    requires (forall t :: t in entries ==> ValidIdentifier(t.key)) && NoRuns(entries) && AcceptLine(entries, line).Ok?
    ensures forall t :: t in AcceptLine(entries, line).value ==> ValidIdentifier(t.key)
    ensures NoRuns(AcceptLine(entries, line).value)
  {
    hide ValidIdentifier, Trim, EqualKeys;
  }

  /** Value of the first entry with this key, in any case. */
  function Get(entries: seq<Tag>, key: Bytes): Option<Bytes>
  {
    if entries == [] then None
    else if EqualKeys(entries[0].key, key) then Some(entries[0].value)
    else Get(entries[1..], key)
  }

  /** A lookup finds the first entry with the key, whatever else follows, and nothing only if there is none. */
  lemma {:induction false} GetIsFirst(entries: seq<Tag>, key: Bytes)
    ensures Get(entries, key).None? ==> forall k :: 0 <= k < |entries| ==> !EqualKeys(entries[k].key, key)
    ensures forall k :: (&& 0 <= k < |entries| && EqualKeys(entries[k].key, key)
                         && forall j :: 0 <= j < k ==> !EqualKeys(entries[j].key, key)) ==>
                          Get(entries, key) == Some(entries[k].value)
  {
    hide EqualKeys;
    if entries != [] && !EqualKeys(entries[0].key, key) {
      var rest := entries[1..];
      GetIsFirst(rest, key);
      forall k | 0 <= k < |entries| && EqualKeys(entries[k].key, key)
                 && forall j :: 0 <= j < k ==> !EqualKeys(entries[j].key, key)
        ensures Get(entries, key) == Some(entries[k].value)
      {
        assert rest[k - 1] == entries[k];
        assert forall j :: 0 <= j < k - 1 ==> rest[j] == entries[j + 1];
      }
      if Get(rest, key).None? {
        forall k | 0 <= k < |entries|
          ensures !EqualKeys(entries[k].key, key)
        {
          assert k > 0 ==> rest[k - 1] == entries[k];
        }
      }
    }
  }

  // ----- Printing

  function JoinedLines(pieces: seq<Bytes>): Bytes
  {
    if pieces == [] then []
    else if |pieces| == 1 then pieces[0]
    else JoinedLines(pieces[..|pieces| - 1]) + [0x0a] + pieces[|pieces| - 1]
  }

  /** The lines are what newlines separate: joining them again gives the text, and none contains a newline. */
  lemma {:induction false} LinesJoin(s: Bytes)
    ensures JoinedLines(Lines(s)) == s
    ensures forall k :: 0 <= k < |Lines(s)| ==> 0x0a !in Lines(s)[k]
  {
    if s != [] {
      var before, b := Lines(s[..|s| - 1]), s[|s| - 1];
      LinesJoin(s[..|s| - 1]);
      assert s == s[..|s| - 1] + [b];
      if b == 0x0a {
        assert (before + [[]])[..|before|] == before;
      } else {
        var all := before[|before| - 1 := before[|before| - 1] + [b]];
        assert all[..|all| - 1] == before[..|before| - 1];
      }
    }
  }

  function Values(tags: seq<Tag>): (r: seq<Bytes>)
    ensures |r| == |tags| && forall k :: 0 <= k < |r| ==> r[k] == tags[k].value
  {
    seq(|tags|, k requires 0 <= k < |tags| => tags[k].value)
  }

  /** A run of one key, in whatever case, is one entry: the first spelling, and the values on lines of their own. */
  lemma {:induction false} RunMerges(tags: seq<Tag>)
    requires tags != [] && forall k :: 0 <= k < |tags| ==> EqualKeys(tags[k].key, tags[0].key)
    ensures Merged(tags) == [Tag(tags[0].key, JoinedLines(Values(tags)))]
  {
    if |tags| == 1 {
      assert tags[..0] == [] && Values(tags) == [tags[0].value];
    } else {
      var init := tags[..|tags| - 1];
      RunMerges(init);
      assert Values(tags)[..|tags| - 1] == Values(init);
    }
  }

  /** A tag whose key is not that of the one before stands for itself. */
  lemma NewKeyAdds(tags: seq<Tag>, t: Tag)
    requires Merged(tags) == [] || !EqualKeys(Merged(tags)[|Merged(tags)| - 1].key, t.key)
    ensures Merged(tags + [t]) == Merged(tags) + [t]
  {
    assert (tags + [t])[..|tags|] == tags;
  }

  function Line(t: Tag): Bytes { t.key + [EQUALS] + t.value }

  function Printed(tags: seq<Tag>): Bytes
  {
    if tags == [] then [] else Printed(tags[..|tags| - 1]) + Line(tags[|tags| - 1]) + [NEWLINE]
  }

  /** What can be written without loss. */
  predicate Printable(t: Tag)
  {
    ValidIdentifier(t.key) && Trimmed(t.value) && 0 !in t.value && NEWLINE !in t.value
  }

  /** Tags in order, runs of the same key merged into one value with newlines between. */
  function Merged(tags: seq<Tag>): seq<Tag>
  {
    if tags == [] then [] else Append(Merged(tags[..|tags| - 1]), tags[|tags| - 1].key, tags[|tags| - 1].value)
  }

  lemma TrimmedStays(s: Bytes)
    requires Trimmed(s)
    ensures Trim(s) == s
  {
  }

  lemma KeyBytes(key: Bytes)
    requires ValidIdentifier(key)
    ensures forall b :: b in key ==> !Blank(b) && b != EQUALS && b != NEWLINE && b != 0
    ensures Trimmed(key) && key != []
  {
  }

  /** A printed line parses back to its key and value. */
  lemma LineAccepted(entries: seq<Tag>, t: Tag)
    requires Printable(t)
    ensures AcceptLine(entries, Line(t)) == Ok(Append(entries, t.key, t.value))
    ensures NEWLINE !in Line(t) && 0 !in Line(t)
  {
    KeyBytes(t.key);
    var line := Line(t);
    assert line[0] == t.key[0] && line[|line| - 1] == if t.value == [] then EQUALS else t.value[|t.value| - 1];
    TrimmedStays(line);
    assert line == t.key + ([EQUALS] + t.value);
    FindIs(t.key, [EQUALS] + t.value, EQUALS);
    assert line[..|t.key|] == t.key && line[|t.key| + 1..] == t.value;
    TrimmedStays(t.key);
    TrimmedStays(t.value);
  }

  function LinesOf(tags: seq<Tag>): seq<Bytes>
  {
    if tags == [] then [] else LinesOf(tags[..|tags| - 1]) + [Line(tags[|tags| - 1])]
  }

  lemma {:induction false} LinesExtend(s: Bytes, line: Bytes)
    requires NEWLINE !in line
    ensures var before := Lines(s); Lines(s + line) == before[|before| - 1 := before[|before| - 1] + line]
  {
    var before := Lines(s);
    if line == [] {
      assert s + line == s && before[|before| - 1] + line == before[|before| - 1];
    } else {
      var init, b := line[..|line| - 1], line[|line| - 1];
      LinesExtend(s, init);
      assert (s + line)[..|s + line| - 1] == s + init;
      assert before[|before| - 1] + line == before[|before| - 1] + init + [b];
    }
  }

  lemma LinesAppend(s: Bytes, line: Bytes, before: seq<Bytes>)
    requires NEWLINE !in line && Lines(s) == before + [[]]
    ensures Lines(s + line + [NEWLINE]) == before + [line] + [[]]
  {
    LinesExtend(s, line);
    var all := s + line + [NEWLINE];
    assert all[..|all| - 1] == s + line;
    assert [] + line == line;
    assert (before + [[]])[|before| := line] == before + [line];
  }

  lemma {:induction false} LinesPrinted(tags: seq<Tag>)
    requires forall t :: t in tags ==> Printable(t)
    ensures Lines(Printed(tags)) == LinesOf(tags) + [[]]
    ensures 0 !in Printed(tags)
  {
    if tags != [] {
      var init, last := tags[..|tags| - 1], tags[|tags| - 1];
      LinesPrinted(init);
      assert last in tags;
      LineAccepted([], last);
      LinesAppend(Printed(init), Line(last), LinesOf(init));
    }
  }

  lemma {:induction false} LinesAccepted(tags: seq<Tag>)
    requires forall t :: t in tags ==> Printable(t)
    ensures AcceptLines(LinesOf(tags)) == Ok(Merged(tags))
  {
    if tags != [] {
      var init, last := tags[..|tags| - 1], tags[|tags| - 1];
      LinesAccepted(init);
      assert last in tags;
      LineAccepted(Merged(init), last);
      assert LinesOf(tags)[..|LinesOf(init)|] == LinesOf(init);
    }
  }

  /** Parsing printed tags yields them, runs of one key merged. */
  lemma PrintThenParse(tags: seq<Tag>)
    requires forall t :: t in tags ==> Printable(t)
    ensures ParseTags(Printed(tags)) == Ok(Merged(tags))
  {
    LinesPrinted(tags);
    LinesAccepted(tags);
    var lines := LinesOf(tags) + [[]];
    assert lines[..|lines| - 1] == LinesOf(tags);
    TrimmedStays([]);
  }

  /** Distinct neighbouring keys come back one for one. */
  lemma {:induction false} NothingMerged(tags: seq<Tag>)
    requires NoRuns(tags)
    ensures Merged(tags) == tags
  {
    hide EqualKeys;
    if tags != [] {
      var init, last := tags[..|tags| - 1], tags[|tags| - 1];
      NothingMerged(init);
      assert init != [] ==> init[|init| - 1] == tags[|tags| - 2];
      assert Merged(tags) == init + [last];
    }
  }
}
