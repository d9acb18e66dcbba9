/** The common PSF container: bounded parsing, and the builder whose output it reads back. */
module Container {
  import opened Machine
  import opened Wrappers
  import opened LittleEndian
  import opened Tags

  const HEADER_SIZE := 16
  const TAG_MARKER: Bytes := [0x5b, 0x54, 0x41, 0x47, 0x5d]
  const SIGNATURE: Bytes := [0x50, 0x53, 0x46]
  const PSF1_MAX_PROGRAM := 2_033_664

  datatype PsfVersion = Psf1 | Psf2 {
    function Byte(): u8 { if Psf1? then 1 else 2 }
  }

  function VersionOf(b: u8): (r: Option<PsfVersion>)
    ensures r.Some? ==> r.value.Byte() == b
  {
    if b == 1 then Some(Psf1) else if b == 2 then Some(Psf2) else None
  }

  datatype ParseLimits = ParseLimits(
    maxInputBytes: nat, maxReservedBytes: nat, maxDecompressedBytes: nat, maxTagBytes: nat)

  datatype ParseError =
    | Truncated | InvalidSignature | UnsupportedVersion | LimitExceeded | CrcMismatch | InvalidZlib | InvalidTagMarker
    | BadTags(error: TagError)

  datatype PsfContainer = PsfContainer(
    version: PsfVersion, reserved: Bytes, compressedProgram: Bytes, program: Bytes, tags: seq<Tag>)

  /** Checksum and decompression as functions of the bytes; `inflate` is `None` unless given one complete stream. */
  datatype Codec = Codec(crc: Bytes -> u32, inflate: Bytes -> Option<Bytes>, deflate: Bytes -> Bytes) {
    /** Inflating undoes deflating, and a stream is never empty. */
    ghost predicate Lawful()
    {
      forall p :: inflate(deflate(p)) == Some(p) && deflate(p) != []
    }
  }

  function ProgramLimit(version: PsfVersion, limits: ParseLimits): nat
  {
    if version == Psf1 then Min(limits.maxDecompressedBytes, PSF1_MAX_PROGRAM) else limits.maxDecompressedBytes
  }

  function Decompress(compressed: Bytes, limit: nat, codec: Codec): Result<Bytes, ParseError>
  {
    if compressed == [] then Ok([])
    else
      match codec.inflate(compressed)
      case None => Err(InvalidZlib)
      case Some(program) => if |program| > limit then Err(LimitExceeded) else Ok(program)
  }

  function Header(version: PsfVersion, reservedLength: u32, compressedLength: u32, crc: u32): (h: Bytes)
    ensures |h| == HEADER_SIZE
  {
    SIGNATURE + [version.Byte()] + EncodeU32(reservedLength) + EncodeU32(compressedLength) + EncodeU32(crc)
  }

  /** The sections a header describes, and the tag text behind them. */
  ghost predicate Framed(input: Bytes, c: PsfContainer, codec: Codec)
  {
    && |c.reserved| < U32_LIMIT && |c.compressedProgram| < U32_LIMIT
    && var sections := Header(c.version, |c.reserved|, |c.compressedProgram|, codec.crc(c.compressedProgram))
                       + c.reserved + c.compressedProgram;
    || (input == sections && c.tags == [])
    || exists raw :: input == sections + TAG_MARKER + raw && ParseTags(raw) == Ok(c.tags)
  }

  /** The container's sizes respect the limits. */
  predicate Within(input: Bytes, c: PsfContainer, limits: ParseLimits)
  {
    && |input| <= limits.maxInputBytes && |c.reserved| <= limits.maxReservedBytes
    && (c.compressedProgram != [] ==>
          |c.program| <= limits.maxDecompressedBytes && (c.version == Psf1 ==> |c.program| <= 2_033_664))
    && |input| <= HEADER_SIZE + |c.reserved| + |c.compressedProgram| + |TAG_MARKER| + limits.maxTagBytes
  }

  /** Exactly the inputs the parser accepts, and what it returns for them. */
  ghost predicate Accepts(input: Bytes, limits: ParseLimits, codec: Codec, c: PsfContainer)
  {
    Framed(input, c, codec) && Within(input, c, limits) && Expands(c, codec)
  }

  /** The program is what the compressed one inflates to; a file without one has none. */
  predicate Expands(c: PsfContainer, codec: Codec)
  {
    if c.compressedProgram == [] then c.program == [] else codec.inflate(c.compressedProgram) == Some(c.program)
  }

  /** What the fields look like in a file: `PSF`, the version as one byte, and `[TAG]` before the tags. */
  lemma FieldsSpelled(input: Bytes, c: PsfContainer, codec: Codec)
    requires Fields(input, c, codec)
    ensures input[0] == 'P' as int && input[1] == 'S' as int && input[2] == 'F' as int
    ensures input[3] == if c.version.Psf1? then 1 else 2
    ensures var end := 16 + U32At(input, 4) + U32At(input, 8);
            && end <= |input|
            && (end < |input| ==>
                  end + 5 <= |input|
                  && forall k :: 0 <= k < 5 ==> input[end + k] == "[TAG]"[k] as int)
  {
    hide U32At, ParseTags;
    assert input[..3][0] == input[0] && input[..3][1] == input[1] && input[..3][2] == input[2];
    var end := 16 + U32At(input, 4) + U32At(input, 8);
    if end < |input| {
      var tail := input[end..];
      assert tail[..5] == TAG_MARKER;
      forall k | 0 <= k < 5
        ensures input[end + k] == "[TAG]"[k] as int
      {
        assert tail[..5][k] == input[end + k];
      }
    }
  }

  /** The same, read off the input field by field. */
  ghost predicate Fields(input: Bytes, c: PsfContainer, codec: Codec)
  {
    && HEADER_SIZE <= |input| && input[..3] == SIGNATURE && VersionOf(input[3]) == Some(c.version)
    && var reservedEnd := HEADER_SIZE + U32At(input, 4);
    && var programEnd := reservedEnd + U32At(input, 8);
    && programEnd <= |input|
    && c.reserved == input[HEADER_SIZE..reservedEnd] && c.compressedProgram == input[reservedEnd..programEnd]
    && U32At(input, 12) == codec.crc(c.compressedProgram)
    && TagSection(input[programEnd..], c.tags)
  }

  /** Nothing, or the marker and tag text. */
  ghost predicate TagSection(tail: Bytes, tags: seq<Tag>)
  {
    if tail == [] then tags == []
    else |TAG_MARKER| <= |tail| && tail[..|TAG_MARKER|] == TAG_MARKER && ParseTags(tail[|TAG_MARKER|..]) == Ok(tags)
  }

  lemma HeaderReads(version: PsfVersion, a: u32, b: u32, crc: u32, rest: Bytes)
    ensures var input := Header(version, a, b, crc) + rest;
            && input[..3] == SIGNATURE && VersionOf(input[3]) == Some(version)
            && U32At(input, 4) == a && U32At(input, 8) == b && U32At(input, 12) == crc
            && input[HEADER_SIZE..] == rest
  {
    hide DecodeU32;
    U32RoundTrip(a);
    U32RoundTrip(b);
    U32RoundTrip(crc);
    var input := Header(version, a, b, crc) + rest;
    WordIn(input, 4, a);
    WordIn(input, 8, b);
    WordIn(input, 12, crc);
  }

  lemma WordIn(input: Bytes, at: nat, v: u32)
    requires at + 4 <= |input| && input[at..at + 4] == EncodeU32(v)
    ensures U32At(input, at) == v
  {
    hide EncodeU32, DecodeU32;
    U32RoundTrip(v);
    var w := input[at..at + 4];
    assert w[0] == input[at] && w[1] == input[at + 1] && w[2] == input[at + 2] && w[3] == input[at + 3];
  }

  lemma WordAt(input: Bytes, at: nat)
    requires at + 4 <= |input|
    ensures EncodeU32(U32At(input, at)) == input[at..at + 4]
  {
    U32BytesRoundTrip(input[at], input[at + 1], input[at + 2], input[at + 3]);
  }

  lemma HeaderOf(input: Bytes, version: PsfVersion)
    requires HEADER_SIZE <= |input| && input[..3] == SIGNATURE && VersionOf(input[3]) == Some(version)
    ensures input == Header(version, U32At(input, 4), U32At(input, 8), U32At(input, 12)) + input[HEADER_SIZE..]
  {
    hide EncodeU32;
    WordAt(input, 4);
    WordAt(input, 8);
    WordAt(input, 12);
    assert input == input[..3] + [input[3]] + input[4..8] + input[8..12] + input[12..16] + input[16..];
  }

  lemma SectionsRead(input: Bytes, c: PsfContainer, codec: Codec, tail: Bytes)
    requires |c.reserved| < U32_LIMIT && |c.compressedProgram| < U32_LIMIT && TagSection(tail, c.tags)
    requires input == Header(c.version, |c.reserved|, |c.compressedProgram|, codec.crc(c.compressedProgram))
                      + c.reserved + c.compressedProgram + tail
    ensures Fields(input, c, codec)
  {
    hide Header, TagSection, U32At, VersionOf;
    var header := Header(c.version, |c.reserved|, |c.compressedProgram|, codec.crc(c.compressedProgram));
    var rest := c.reserved + c.compressedProgram + tail;
    assert input == header + rest;
    HeaderReads(c.version, |c.reserved|, |c.compressedProgram|, codec.crc(c.compressedProgram), rest);
    var reservedEnd := HEADER_SIZE + |c.reserved|;
    var programEnd := reservedEnd + |c.compressedProgram|;
    assert input[HEADER_SIZE..reservedEnd] == c.reserved;
    assert input[reservedEnd..programEnd] == c.compressedProgram;
    assert input[programEnd..] == tail;
  }

  lemma FramedIsFields(input: Bytes, c: PsfContainer, codec: Codec)
    ensures Framed(input, c, codec) <==> Fields(input, c, codec)
  {
    hide Header, U32At, VersionOf, ParseTags;
    if Framed(input, c, codec) {
      var sections := Header(c.version, |c.reserved|, |c.compressedProgram|, codec.crc(c.compressedProgram))
                      + c.reserved + c.compressedProgram;
      if input == sections && c.tags == [] {
        assert input == sections + [];
        SectionsRead(input, c, codec, []);
      } else {
        var raw :| input == sections + TAG_MARKER + raw && ParseTags(raw) == Ok(c.tags);
        assert input == sections + (TAG_MARKER + raw);
        assert (TAG_MARKER + raw)[..5] == TAG_MARKER && (TAG_MARKER + raw)[5..] == raw;
        SectionsRead(input, c, codec, TAG_MARKER + raw);
      }
    }
    if Fields(input, c, codec) {
      FieldsFramed(input, c, codec);
    }
  }

  lemma FieldsFramed(input: Bytes, c: PsfContainer, codec: Codec)
    requires Fields(input, c, codec)
    ensures Framed(input, c, codec)
  {
    hide Header, U32At, VersionOf, ParseTags;
    HeaderOf(input, c.version);
    var header := Header(c.version, |c.reserved|, |c.compressedProgram|, codec.crc(c.compressedProgram));
    var tail := input[HEADER_SIZE + |c.reserved| + |c.compressedProgram|..];
    Regroup(input, header, c.reserved, c.compressedProgram);
    if tail != [] {
      var raw := tail[|TAG_MARKER|..];
      assert tail == TAG_MARKER + raw;
      assert input == header + c.reserved + c.compressedProgram + TAG_MARKER + raw;
    }
  }

  lemma Regroup(input: Bytes, a: Bytes, b: Bytes, c: Bytes)
    requires |a| + |b| + |c| <= |input| && input == a + input[|a|..]
    requires input[|a|..|a| + |b|] == b && input[|a| + |b|..|a| + |b| + |c|] == c
    ensures input == a + b + c + input[|a| + |b| + |c|..]
  {
  }

  /** Straight-line checks over the input's sections, in the order they are made. */
  method ParseWithLimits(input: Bytes, limits: ParseLimits, codec: Codec) returns (r: Result<PsfContainer, ParseError>)
    ensures r.Ok? ==> Accepts(input, limits, codec, r.value)
    ensures forall c :: Accepts(input, limits, codec, c) ==> r == Ok(c)
  {
    hide Fields, Framed, Within, Expands;
    r := ParseFields(input, limits, codec);
    forall c
      ensures Framed(input, c, codec) <==> Fields(input, c, codec)
    {
      FramedIsFields(input, c, codec);
    }
  }

  method ParseFields(input: Bytes, limits: ParseLimits, codec: Codec) returns (r: Result<PsfContainer, ParseError>)
    ensures r.Ok? ==>
              Fields(input, r.value, codec) && Within(input, r.value, limits) && Expands(r.value, codec)
    ensures forall c :: Fields(input, c, codec) && Within(input, c, limits) && Expands(c, codec) ==> r == Ok(c)
  {
    hide U32At, VersionOf, ParseTags;
    if |input| > limits.maxInputBytes {
      return Err(LimitExceeded);
    }
    if |input| < HEADER_SIZE {
      return Err(Truncated);
    }
    if input[..3] != SIGNATURE {
      return Err(InvalidSignature);
    }
    var version := VersionOf(input[3]);
    if version.None? {
      return Err(UnsupportedVersion);
    }
    var reservedLength, compressedLength, expectedCrc := U32At(input, 4), U32At(input, 8), U32At(input, 12);
    if reservedLength > limits.maxReservedBytes {
      return Err(LimitExceeded);
    }
    var reservedEnd := HEADER_SIZE + reservedLength;
    var programEnd := reservedEnd + compressedLength;
    if programEnd > |input| {
      return Err(Truncated);
    }
    var compressed := input[reservedEnd..programEnd];
    if codec.crc(compressed) != expectedCrc {
      return Err(CrcMismatch);
    }
    var program := Decompress(compressed, ProgramLimit(version.value, limits), codec);
    if program.Err? {
      return Err(program.error);
    }
    var tags := ReadTags(input[programEnd..], limits.maxTagBytes);
    if tags.Err? {
      return Err(tags.error);
    }
    return Ok(PsfContainer(version.value, input[HEADER_SIZE..reservedEnd], compressed, program.value, tags.value));
  }

  method ReadTags(tail: Bytes, maxTagBytes: nat) returns (r: Result<seq<Tag>, ParseError>)
    ensures r.Ok? ==> TagSection(tail, r.value) && |tail| <= |TAG_MARKER| + maxTagBytes
    ensures forall tags :: TagSection(tail, tags) && |tail| <= |TAG_MARKER| + maxTagBytes ==> r == Ok(tags)
  {
    hide ParseTags;
    if tail == [] {
      return Ok([]);
    }
    if |tail| < |TAG_MARKER| || tail[..|TAG_MARKER|] != TAG_MARKER {
      return Err(InvalidTagMarker);
    }
    var raw := tail[|TAG_MARKER|..];
    if |raw| > maxTagBytes {
      return Err(LimitExceeded);
    }
    var parsed := Tags.Parse(raw);
    return if parsed.Ok? then Ok(parsed.value) else Err(BadTags(parsed.error));
  }

  // ----- The builder

  class PsfBuilder {
    const version: PsfVersion
    var reserved: Bytes
    var program: Bytes
    var tags: seq<Tag>

    constructor (version: PsfVersion)
      ensures this.version == version && reserved == [] && program == [] && tags == []
    {
      this.version, reserved, program, tags := version, [], [], [];
    }

    method AddTag(key: Bytes, value: Bytes)
      modifies this`tags
      ensures tags == old(tags) + [Tag(key, value)]
    {
      tags := tags + [Tag(key, value)];
    }

    function Compressed(codec: Codec): Bytes
      reads this
    {
      if program == [] then [] else codec.deflate(program)
    }

    /** Writes header, sections and tag lines in order. */
    method Build(codec: Codec) returns (output: Bytes)
      requires |reserved| < U32_LIMIT && |Compressed(codec)| < U32_LIMIT
      ensures output == Header(version, |reserved|, |Compressed(codec)|, codec.crc(Compressed(codec)))
                        + reserved + Compressed(codec) + if tags == [] then [] else TAG_MARKER + Printed(tags)
    {
      var compressed := Compressed(codec);
      output := SIGNATURE + [version.Byte()];
      output := output + EncodeU32(|reserved|);
      output := output + EncodeU32(|compressed|);
      output := output + EncodeU32(codec.crc(compressed));
      output := output + reserved + compressed;
      ghost var sections := output;
      if tags != [] {
        output := output + TAG_MARKER;
        for k := 0 to |tags|
          invariant output == sections + TAG_MARKER + Printed(tags[..k])
        {
          assert tags[..k + 1][..k] == tags[..k];
          output := output + tags[k].key;
          output := output + [EQUALS];
          output := output + tags[k].value;
          output := output + [NEWLINE];
        }
        assert tags[..|tags|] == tags;
      }
    }
  }

  /** What parsing a built container returns. */
  function Rebuilt(version: PsfVersion, reserved: Bytes, compressed: Bytes, program: Bytes,
                   tags: seq<Tag>): PsfContainer
  {
    PsfContainer(version, reserved, compressed, program, Merged(tags))
  }

  lemma BuiltFields(output: Bytes, codec: Codec, c: PsfContainer, tags: seq<Tag>)
    requires |c.reserved| < U32_LIMIT && |c.compressedProgram| < U32_LIMIT
    requires c.tags == Merged(tags) && forall t :: t in tags ==> Printable(t)
    requires output == Header(c.version, |c.reserved|, |c.compressedProgram|, codec.crc(c.compressedProgram))
                       + c.reserved + c.compressedProgram + if tags == [] then [] else TAG_MARKER + Printed(tags)
    ensures Framed(output, c, codec)
  {
    hide Header, Printable, ParseTags;
    var sections := Header(c.version, |c.reserved|, |c.compressedProgram|, codec.crc(c.compressedProgram))
                    + c.reserved + c.compressedProgram;
    if tags == [] {
      assert output == sections;
    } else {
      PrintThenParse(tags);
      assert output == sections + TAG_MARKER + Printed(tags);
    }
  }

  /**
   * Parsing what the builder wrote returns the same version, reserved bytes and program, and the tags
   * with runs of one key merged.
   */
  method BuildThenParse(builder: PsfBuilder, codec: Codec, limits: ParseLimits)
    returns (output: Bytes, r: Result<PsfContainer, ParseError>)
    requires codec.Lawful() && forall t :: t in builder.tags ==> Printable(t)
    requires |builder.reserved| < U32_LIMIT && |builder.Compressed(codec)| < U32_LIMIT
    ensures var c := Rebuilt(builder.version, builder.reserved, builder.Compressed(codec), builder.program,
                             builder.tags);
            Within(output, c, limits) ==> r == Ok(c)
    ensures r.Ok? ==> r.value.version == builder.version && r.value.reserved == builder.reserved
                      && r.value.program == builder.program && r.value.tags == Merged(builder.tags)
  {
    hide Framed, Printable, Merged, Header, Printed;
    output := builder.Build(codec);
    ghost var c := Rebuilt(builder.version, builder.reserved, builder.Compressed(codec), builder.program, builder.tags);
    BuiltFields(output, codec, c, builder.tags);
    r := ParseWithLimits(output, limits, codec);
    if r.Ok? {
      FramedIsFields(output, c, codec);
      FramedIsFields(output, r.value, codec);
      SameFields(output, c, r.value, codec);
    }
  }

  /** The input fixes every section. */
  lemma SameFields(input: Bytes, a: PsfContainer, b: PsfContainer, codec: Codec)
    requires Fields(input, a, codec) && Fields(input, b, codec)
    ensures a.version == b.version && a.reserved == b.reserved && a.compressedProgram == b.compressedProgram
            && a.tags == b.tags
  {
  }
}
