/** Import and export tables discovered in a relocated module image. */
module LinkTables {
  import opened Machine
  import opened Wrappers
  import opened LittleEndian
  import opened ImageWords
  import opened SonyChain

  type Name = seq<u8>

  datatype ImportStub = ImportStub(ordinal: u16, address: u32)
  datatype ImportLibrary =
    ImportLibrary(name: Name, version: u16, mode: u16, tableAddress: u32, stubs: seq<ImportStub>)
  datatype ExportLibrary =
    ExportLibrary(name: Name, version: u16, mode: u16, tableAddress: u32, functions: seq<u32>)

  const IMPORT_MAGIC: u32 := 0x41e0_0000
  const EXPORT_MAGIC: u32 := 0x41c0_0000
  const RETURN_JUMP: u32 := 0x03e0_0008
  const ORDINAL_LOAD: int := 0x2400

  /** A null-padded eight-byte name of printable, non-blank characters. */
  function FixedName(bytes: seq<u8>): (r: Option<Name>)
    ensures r.Some? ==> 0 < |r.value| <= |bytes| && r.value <= bytes
    ensures r.Some? ==> forall c :: c in r.value ==> 33 <= c <= 126
    ensures r.Some? ==> forall k :: |r.value| <= k < |bytes| ==> bytes[k] == 0
  {
    var end := FirstZero(bytes);
    if end == 0 || (exists k :: end <= k < |bytes| && bytes[k] != 0)
       || (exists k :: 0 <= k < end && !(33 <= bytes[k] <= 126))
    then None
    else Some(bytes[..end])
  }

  function FirstZero(bytes: seq<u8>): (end: nat)
    ensures end <= |bytes|
    ensures end < |bytes| ==> bytes[end] == 0
    ensures forall k :: 0 <= k < end ==> bytes[k] != 0
  {
    if bytes == [] || bytes[0] == 0 then 0 else 1 + FirstZero(bytes[1..])
  }

  predicate IsMagic(w: u32) { w == IMPORT_MAGIC || w == EXPORT_MAGIC }

  datatype Head = Head(name: Name, version: u16, mode: u16)

  /** The table header at `at`. */
  ghost predicate HeadAt(image: seq<u8>, at: nat, magic: u32, head: Head)
  {
    && IsWord(image, at) && at + 20 <= |image|
    && Word(image, at) == magic && Word(image, at + 4) == 0
    && head.version == U16At(image, at + 8) && head.mode == U16At(image, at + 10)
    && FixedName(image[at + 12..at + 20]) == Some(head.name)
  }

  /** The function pointers of the table at `at`: up to the first zero word, and inside the module. */
  ghost predicate FunctionsAt(image: seq<u8>, address: u32, at: nat, functions: seq<u32>)
  {
    && at + 20 + 4 * |functions| + 4 <= |image|
    && Word(image, at + 20 + 4 * |functions|) == 0
    && forall k :: 0 <= k < |functions| ==>
                     && functions[k] == Word(image, at + 20 + 4 * k) && functions[k] != 0
                     && address <= functions[k] && functions[k] + 4 <= address + |image|
  }

  /** The stubs of the table at `at`: a return jump and an ordinal load each, up to two zero words. */
  ghost predicate StubsAt(image: seq<u8>, address: u32, at: nat, stubs: seq<ImportStub>)
  {
    && at + 20 + 8 * |stubs| + 8 <= |image|
    && Word(image, at + 20 + 8 * |stubs|) == 0 && Word(image, at + 24 + 8 * |stubs|) == 0
    && forall k :: 0 <= k < |stubs| ==>
                     && stubs[k].address == address + at + 20 + 8 * k
                     && Word(image, at + 20 + 8 * k) == RETURN_JUMP
                     && Word(image, at + 24 + 8 * k) == ORDINAL_LOAD * HALF + stubs[k].ordinal
  }

  ghost predicate ExportAt(image: seq<u8>, address: u32, at: nat, e: ExportLibrary)
  {
    HeadAt(image, at, EXPORT_MAGIC, Head(e.name, e.version, e.mode)) && e.tableAddress == address + at
    && FunctionsAt(image, address, at, e.functions)
  }

  ghost predicate ImportAt(image: seq<u8>, address: u32, at: nat, i: ImportLibrary)
  {
    HeadAt(image, at, IMPORT_MAGIC, Head(i.name, i.version, i.mode)) && i.tableAddress == address + at
    && StubsAt(image, address, at, i.stubs)
  }

  /** The tables before offset `limit`: one for each aligned signature, in order. */
  ghost predicate TablesAt(image: seq<u8>, address: u32, limit: nat, imports: seq<ImportLibrary>,
                           exports: seq<ExportLibrary>)
    requires limit % 4 == 0 && limit <= |image|
  {
    if limit == 0 then imports == [] && exports == []
    else
      var at := limit - 4;
      if Word(image, at) == IMPORT_MAGIC then
        && imports != [] && ImportAt(image, address, at, imports[|imports| - 1])
        && TablesAt(image, address, at, imports[..|imports| - 1], exports)
      else if Word(image, at) == EXPORT_MAGIC then
        && exports != [] && ExportAt(image, address, at, exports[|exports| - 1])
        && TablesAt(image, address, at, imports, exports[..|exports| - 1])
      else TablesAt(image, address, at, imports, exports)
  }

  /** Stubs and function pointers in all. */
  function EntryCount(imports: seq<ImportLibrary>, exports: seq<ExportLibrary>): nat
  {
    if imports != [] then EntryCount(imports[..|imports| - 1], exports) + |imports[|imports| - 1].stubs|
    else if exports != [] then EntryCount([], exports[..|exports| - 1]) + |exports[|exports| - 1].functions|
    else 0
  }

  /** The link tables of a module image at `address`, within the limits. */
  ghost predicate TablesWithin(image: seq<u8>, address: u32, maxTables: nat, maxEntries: nat,
                               imports: seq<ImportLibrary>, exports: seq<ExportLibrary>)
  {
    && address + |image| < U32_LIMIT
    && TablesAt(image, address, |image| - |image| % 4, imports, exports)
    && |imports| + |exports| <= maxTables && EntryCount(imports, exports) <= maxEntries
  }

  // ----- Tables as a linker writes them

  function Zeros(n: nat): (s: seq<u8>)
    ensures |s| == n && forall k :: 0 <= k < n ==> s[k] == 0
  {
    seq(n, _ => 0)
  }

  predicate FieldName(name: Name) { 0 < |name| <= 8 && forall c :: c in name ==> 33 <= c <= 126 }

  /** Magic, a zero word, version and mode, and the name padded to eight bytes. */
  function HeadBytes(magic: u32, name: Name, version: u16, mode: u16): (s: seq<u8>)
    requires |name| <= 8
    ensures |s| == 20
  {
    EncodeAll([magic, 0]) + EncodeU16(version) + EncodeU16(mode) + name + Zeros(8 - |name|)
  }

  lemma HeadWritten(before: seq<u8>, magic: u32, name: Name, version: u16, mode: u16, after: seq<u8>)
    requires |before| % 4 == 0 && FieldName(name)
    ensures HeadAt(before + HeadBytes(magic, name, version, mode) + after, |before|, magic, Head(name, version, mode))
  {
    hide EncodeU16, EncodeAll, U32At, U16At, FixedName;
    var image, at := before + HeadBytes(magic, name, version, mode) + after, |before|;
    var words, field := EncodeAll([magic, 0]), name + Zeros(8 - |name|);
    assert image == before + words + (EncodeU16(version) + EncodeU16(mode) + field + after);
    EncodedAt(before, [magic, 0], EncodeU16(version) + EncodeU16(mode) + field + after, 0);
    EncodedAt(before, [magic, 0], EncodeU16(version) + EncodeU16(mode) + field + after, 1);
    assert image == (before + words) + EncodeU16(version) + (EncodeU16(mode) + field + after);
    ReadBackHalf(before + words, version, EncodeU16(mode) + field + after);
    assert image == (before + words + EncodeU16(version)) + EncodeU16(mode) + (field + after);
    ReadBackHalf(before + words + EncodeU16(version), mode, field + after);
    assert image[at + 12..at + 20] == field;
    FieldIsName(name);
  }

  lemma FieldIsName(name: Name)
    requires FieldName(name)
    ensures FixedName(name + Zeros(8 - |name|)) == Some(name)
  {
    var field := name + Zeros(8 - |name|);
    forall k | 0 <= k < |name|
      ensures 33 <= field[k] <= 126
    {
      assert field[k] == name[k] && name[k] in name;
    }
    assert forall k :: |name| <= k < 8 ==> field[k] == 0;
    var end := FirstZero(field);
    assert |name| < 8 ==> field[|name|] == 0;
    assert end == |name|;
    assert field[..|name|] == name;
  }

  /** A head, the function pointers, and a zero word are an export table. */
  lemma ExportWritten(before: seq<u8>, e: ExportLibrary, address: u32, after: seq<u8>)
    requires |before| % 4 == 0 && FieldName(e.name) && e.tableAddress == address + |before|
    requires var image := before + HeadBytes(0x41c0_0000, e.name, e.version, e.mode)
                          + EncodeAll(e.functions + [0]) + after;
             forall k :: 0 <= k < |e.functions| ==>
               e.functions[k] != 0 && address <= e.functions[k] && e.functions[k] + 4 <= address + |image|
    ensures ExportAt(before + HeadBytes(0x41c0_0000, e.name, e.version, e.mode) + EncodeAll(e.functions + [0]) + after,
                     address, |before|, e)
  {
    hide HeadBytes, HeadAt, EncodeAll, U32At;
    var head, words := HeadBytes(0x41c0_0000, e.name, e.version, e.mode), e.functions + [0];
    var image := before + head + EncodeAll(words) + after;
    assert image == before + head + (EncodeAll(words) + after);
    HeadWritten(before, 0x41c0_0000, e.name, e.version, e.mode, EncodeAll(words) + after);
    forall k | 0 <= k < |words|
      ensures Word(image, |before| + 20 + 4 * k) == words[k]
    {
      EncodedAt(before + head, words, after, k);
    }
    forall k | 0 <= k < |e.functions|
      ensures e.functions[k] == Word(image, |before| + 20 + 4 * k)
    {
      assert words[k] == e.functions[k];
    }
    assert words[|e.functions|] == 0;
  }

  /** A return jump and an ordinal load for each stub, and two zero words at the end. */
  function StubWords(stubs: seq<ImportStub>): (words: seq<u32>)
    ensures |words| == 2 * |stubs| + 2
    ensures forall k :: 0 <= k < |stubs| ==> words[2 * k] == 0x03e0_0008
    ensures forall k :: 0 <= k < |stubs| ==> words[2 * k + 1] == 0x2400_0000 + stubs[k].ordinal
    ensures words[2 * |stubs|] == 0 && words[2 * |stubs| + 1] == 0
  {
    seq(2 * |stubs| + 2, i requires 0 <= i < 2 * |stubs| + 2 =>
      if i >= 2 * |stubs| then 0 else if i % 2 == 0 then 0x03e0_0008 else 0x2400_0000 + stubs[i / 2].ordinal)
  }

  lemma ImportWritten(before: seq<u8>, i: ImportLibrary, address: u32, after: seq<u8>)
    requires |before| % 4 == 0 && FieldName(i.name) && i.tableAddress == address + |before|
    requires forall k :: 0 <= k < |i.stubs| ==> i.stubs[k].address == address + |before| + 20 + 8 * k
    ensures ImportAt(before + HeadBytes(0x41e0_0000, i.name, i.version, i.mode) + EncodeAll(StubWords(i.stubs)) + after,
                     address, |before|, i)
  {
    hide HeadBytes, HeadAt, EncodeAll, U32At, StubWords;
    var head, words := HeadBytes(0x41e0_0000, i.name, i.version, i.mode), StubWords(i.stubs);
    var image := before + head + EncodeAll(words) + after;
    assert image == before + head + (EncodeAll(words) + after);
    HeadWritten(before, 0x41e0_0000, i.name, i.version, i.mode, EncodeAll(words) + after);
    forall k | 0 <= k < |words|
      ensures Word(image, |before| + 20 + 4 * k) == words[k]
    {
      EncodedAt(before + head, words, after, k);
    }
    forall k | 0 <= k < |i.stubs|
      ensures Word(image, |before| + 20 + 8 * k) == words[2 * k]
      ensures Word(image, |before| + 24 + 8 * k) == words[2 * k + 1]
    {
      assert |before| + 20 + 4 * (2 * k) == |before| + 20 + 8 * k;
      assert |before| + 20 + 4 * (2 * k + 1) == |before| + 24 + 8 * k;
    }
    assert Word(image, |before| + 20 + 4 * (2 * |i.stubs|)) == 0;
    assert Word(image, |before| + 20 + 4 * (2 * |i.stubs| + 1)) == 0;
  }

  // ----- The image determines the tables

  lemma FunctionThere(image: seq<u8>, address: u32, at: nat, functions: seq<u32>, k: nat)
    requires FunctionsAt(image, address, at, functions) && k <= |functions|
    ensures at + 20 + 4 * k + 4 <= |image|
    ensures Word(image, at + 20 + 4 * k) == if k < |functions| then functions[k] else 0
    ensures k < |functions| ==> functions[k] != 0
  {
    hide Word;
  }

  lemma SameFunctions(image: seq<u8>, address: u32, at: nat, a: seq<u32>, b: seq<u32>)
    requires FunctionsAt(image, address, at, a) && FunctionsAt(image, address, at, b)
    ensures a == b
  {
    hide Word, FunctionsAt;
    var n := Min(|a|, |b|);
    FunctionThere(image, address, at, a, n);
    FunctionThere(image, address, at, b, n);
    forall k | 0 <= k < n
      ensures a[k] == b[k]
    {
      FunctionThere(image, address, at, a, k);
      FunctionThere(image, address, at, b, k);
    }
  }

  lemma StubThere(image: seq<u8>, address: u32, at: nat, stubs: seq<ImportStub>, k: nat)
    requires StubsAt(image, address, at, stubs) && k <= |stubs|
    ensures at + 20 + 8 * k + 8 <= |image|
    ensures Word(image, at + 20 + 8 * k) == if k < |stubs| then RETURN_JUMP else 0
    ensures Word(image, at + 24 + 8 * k) == if k < |stubs| then ORDINAL_LOAD * HALF + stubs[k].ordinal else 0
    ensures k < |stubs| ==> stubs[k].address == address + at + 20 + 8 * k
  {
    hide Word;
  }

  lemma SameStubs(image: seq<u8>, address: u32, at: nat, a: seq<ImportStub>, b: seq<ImportStub>)
    requires StubsAt(image, address, at, a) && StubsAt(image, address, at, b)
    ensures a == b
  {
    hide Word, StubsAt;
    var n := Min(|a|, |b|);
    StubThere(image, address, at, a, n);
    StubThere(image, address, at, b, n);
    forall k | 0 <= k < n
      ensures a[k] == b[k]
    {
      StubThere(image, address, at, a, k);
      StubThere(image, address, at, b, k);
    }
  }

  lemma SameExport(image: seq<u8>, address: u32, at: nat, a: ExportLibrary, b: ExportLibrary)
    requires ExportAt(image, address, at, a) && ExportAt(image, address, at, b)
    ensures a == b
  {
    hide Word, FixedName, FunctionsAt;
    SameFunctions(image, address, at, a.functions, b.functions);
  }

  lemma SameImport(image: seq<u8>, address: u32, at: nat, a: ImportLibrary, b: ImportLibrary)
    requires ImportAt(image, address, at, a) && ImportAt(image, address, at, b)
    ensures a == b
  {
    hide Word, FixedName, StubsAt;
    SameStubs(image, address, at, a.stubs, b.stubs);
  }

  /** An image holds one list of tables only. */
  lemma {:induction false} SameTables(image: seq<u8>, address: u32, limit: nat, i: seq<ImportLibrary>,
                                      e: seq<ExportLibrary>, i': seq<ImportLibrary>, e': seq<ExportLibrary>)
    requires limit % 4 == 0 && limit <= |image|
    requires TablesAt(image, address, limit, i, e) && TablesAt(image, address, limit, i', e')
    ensures i == i' && e == e'
  {
    hide Word, ImportAt, ExportAt;
    if limit > 0 {
      var at := limit - 4;
      if Word(image, at) == IMPORT_MAGIC {
        SameTables(image, address, at, i[..|i| - 1], e, i'[..|i'| - 1], e');
        SameImport(image, address, at, i[|i| - 1], i'[|i'| - 1]);
        assert i == i[..|i| - 1] + [i[|i| - 1]] && i' == i'[..|i'| - 1] + [i'[|i'| - 1]];
      } else if Word(image, at) == EXPORT_MAGIC {
        SameTables(image, address, at, i, e[..|e| - 1], i', e'[..|e'| - 1]);
        SameExport(image, address, at, e[|e| - 1], e'[|e'| - 1]);
        assert e == e[..|e| - 1] + [e[|e| - 1]] && e' == e'[..|e'| - 1] + [e'[|e'| - 1]];
      } else {
        SameTables(image, address, at, i, e, i', e');
      }
    }
  }

  /** What a complete list of tables says of the signature at `at`, given those before it. */
  lemma {:induction false} NextTable(image: seq<u8>, address: u32, at: nat, i: seq<ImportLibrary>,
                                     e: seq<ExportLibrary>, limit: nat, imports: seq<ImportLibrary>,
                                     exports: seq<ExportLibrary>)
    requires at % 4 == 0 && limit % 4 == 0 && at < limit <= |image|
    requires TablesAt(image, address, at, i, e) && TablesAt(image, address, limit, imports, exports)
    ensures i <= imports && e <= exports
    ensures Word(image, at) == IMPORT_MAGIC ==>
              |i| < |imports| && ImportAt(image, address, at, imports[|i|])
    ensures Word(image, at) == EXPORT_MAGIC ==>
              |e| < |exports| && ExportAt(image, address, at, exports[|e|])
    decreases limit
  {
    hide Word, ImportAt, ExportAt;
    var before := limit - 4;
    var shorter := if Word(image, before) == IMPORT_MAGIC then imports[..|imports| - 1] else imports;
    var fewer := if Word(image, before) == EXPORT_MAGIC then exports[..|exports| - 1] else exports;
    if at < before {
      NextTable(image, address, at, i, e, before, shorter, fewer);
    } else {
      SameTables(image, address, at, i, e, shorter, fewer);
    }
  }

  lemma {:induction false} PrefixCount(i: seq<ImportLibrary>, e: seq<ExportLibrary>, imports: seq<ImportLibrary>,
                                       exports: seq<ExportLibrary>)
    requires i <= imports && e <= exports
    ensures EntryCount(i, e) <= EntryCount(imports, exports)
    decreases |imports| + |exports|
  {
    if |i| < |imports| {
      PrefixCount(i, e, imports[..|imports| - 1], exports);
    } else if imports != [] {
      assert i == imports;
      PrefixCount(i[..|i| - 1], e, imports[..|imports| - 1], exports);
    } else if |e| < |exports| {
      PrefixCount(i, e, imports, exports[..|exports| - 1]);
    } else {
      assert e == exports;
    }
  }

  lemma CountStubs(imports: seq<ImportLibrary>, exports: seq<ExportLibrary>, i: ImportLibrary)
    ensures EntryCount(imports + [i], exports) == EntryCount(imports, exports) + |i.stubs|
  {
    assert (imports + [i])[..|imports|] == imports;
  }

  lemma {:induction false} CountFunctions(imports: seq<ImportLibrary>, exports: seq<ExportLibrary>, e: ExportLibrary)
    ensures EntryCount(imports, exports + [e]) == EntryCount(imports, exports) + |e.functions|
    decreases |imports|
  {
    if imports != [] {
      CountFunctions(imports[..|imports| - 1], exports, e);
    } else {
      assert (exports + [e])[..|exports|] == exports;
    }
  }

  // ----- Discovery

  method ReadExports(image: seq<u8>, address: u32, at: nat, budget: nat, ghost hope: Option<seq<u32>>)
    returns (r: Result<seq<u32>, IrxError>)
    requires at + 20 <= |image| && address + |image| < U32_LIMIT
    ensures r.Ok? ==> FunctionsAt(image, address, at, r.value) && |r.value| <= budget
    ensures hope.Some? && FunctionsAt(image, address, at, hope.value) && |hope.value| <= budget ==> r == Ok(hope.value)
  {
    hide Word;
    var functions: seq<u32> := [];
    ghost var hoped := hope.Some? && FunctionsAt(image, address, at, hope.value) && |hope.value| <= budget;
    var cursor := at + 20;
    while true
      invariant cursor == at + 20 + 4 * |functions| <= |image|
      invariant |functions| <= budget
      invariant forall k :: 0 <= k < |functions| ==>
                              && functions[k] == Word(image, at + 20 + 4 * k) && functions[k] != 0
                              && address <= functions[k] && functions[k] + 4 <= address + |image|
      invariant hoped ==> functions <= hope.value
      decreases |image| - cursor
    {
      if hoped {
        FunctionThere(image, address, at, hope.value, |functions|);
      }
      if cursor + 4 > |image| {
        return Err(InvalidLinkTable);
      }
      var function_ := Word(image, cursor);
      if function_ == 0 {
        assert hoped ==> functions == hope.value;
        return Ok(functions);
      }
      if !(address <= function_ && function_ + 4 <= address + |image|) {
        return Err(InvalidLinkTable);
      }
      if |functions| + 1 > budget {
        return Err(LimitExceeded);
      }
      functions := functions + [function_];
      cursor := cursor + 4;
    }
  }

  method ReadStubs(image: seq<u8>, address: u32, at: nat, budget: nat, ghost hope: Option<seq<ImportStub>>)
    returns (r: Result<seq<ImportStub>, IrxError>)
    requires at + 20 <= |image| && address + |image| < U32_LIMIT
    ensures r.Ok? ==> StubsAt(image, address, at, r.value) && |r.value| <= budget
    ensures hope.Some? && StubsAt(image, address, at, hope.value) && |hope.value| <= budget ==> r == Ok(hope.value)
  {
    hide Word;
    var stubs: seq<ImportStub> := [];
    ghost var hoped := hope.Some? && StubsAt(image, address, at, hope.value) && |hope.value| <= budget;
    var cursor := at + 20;
    while true
      invariant cursor == at + 20 + 8 * |stubs| <= |image|
      invariant |stubs| <= budget
      invariant forall k :: 0 <= k < |stubs| ==>
                              && stubs[k].address == address + at + 20 + 8 * k
                              && Word(image, at + 20 + 8 * k) == RETURN_JUMP
                              && Word(image, at + 24 + 8 * k) == ORDINAL_LOAD * HALF + stubs[k].ordinal
      invariant hoped ==> stubs <= hope.value
      decreases |image| - cursor
    {
      if hoped {
        StubThere(image, address, at, hope.value, |stubs|);
      }
      if cursor + 8 > |image| {
        return Err(InvalidLinkTable);
      }
      var jump, ordinalWord := Word(image, cursor), Word(image, cursor + 4);
      if jump == 0 && ordinalWord == 0 {
        assert hoped ==> stubs == hope.value;
        return Ok(stubs);
      }
      if jump != RETURN_JUMP || HighHalf(ordinalWord) != ORDINAL_LOAD {
        return Err(InvalidLinkTable);
      }
      if |stubs| + 1 > budget {
        return Err(LimitExceeded);
      }
      stubs := stubs + [ImportStub(LowHalf(ordinalWord), address + cursor)];
      cursor := cursor + 8;
    }
  }

  /** Reads the header behind the signature `magic`. */
  method ReadHead(image: seq<u8>, at: nat, magic: u32) returns (r: Result<Head, IrxError>)
    requires IsWord(image, at) && Word(image, at) == magic
    ensures r.Ok? ==> at + 20 <= |image| && HeadAt(image, at, magic, r.value)
    ensures forall head :: HeadAt(image, at, magic, head) ==> r == Ok(head)
  {
    hide Word, FixedName, U16At;
    if at + 20 > |image| || Word(image, at + 4) != 0 {
      return Err(InvalidLinkTable);
    }
    var name := FixedName(image[at + 12..at + 20]);
    if name.None? {
      return Err(InvalidLinkTable);
    }
    return Ok(Head(name.value, U16At(image, at + 8), U16At(image, at + 10)));
  }

  /** Scans every aligned word for a table signature; each one found must head a well-formed table. */
  method ParseLinkTables(image: seq<u8>, address: u32, maxTables: nat, maxEntries: nat)
    returns (r: Result<(seq<ImportLibrary>, seq<ExportLibrary>), IrxError>)
    ensures r.Ok? ==> TablesWithin(image, address, maxTables, maxEntries, r.value.0, r.value.1)
    ensures r.Ok? <==> exists i, e :: TablesWithin(image, address, maxTables, maxEntries, i, e)
  {
    hide Word, FixedName, HeadAt, StubsAt, FunctionsAt, TablesAt, EntryCount;
    if |image| >= U32_LIMIT || address + |image| >= U32_LIMIT {
      return Err(Overflow);
    }
    var imports: seq<ImportLibrary>, exports: seq<ExportLibrary>, entries := [], [], 0;
    ghost var i, e, hoped := [], [], false;
    if x, y :| TablesWithin(image, address, maxTables, maxEntries, x, y) {
      i, e, hoped := x, y, true;
    }
    NoTables(image, address);
    var at := 0;
    while at + 3 < |image|
      invariant at % 4 == 0 && at <= |image| && entries == EntryCount(imports, exports) <= maxEntries
      invariant TablesAt(image, address, at, imports, exports) && |imports| + |exports| <= maxTables
    {
      var magic := Word(image, at);
      if IsMagic(magic) {
        if hoped {
          NextTable(image, address, at, imports, exports, |image| - |image| % 4, i, e);
          RoomForNext(imports, exports, i, e);
        }
        if |imports| + |exports| >= maxTables {
          return Err(LimitExceeded);
        }
        var head := ReadHead(image, at, magic);
        if head.Err? {
          return Err(head.error);
        }
        if magic == IMPORT_MAGIC {
          var stubs := ReadStubs(image, address, at, maxEntries - entries,
                                 if hoped then Some(i[|imports|].stubs) else None);
          if stubs.Err? {
            return Err(stubs.error);
          }
          entries := entries + |stubs.value|;
          var library := ImportLibrary(head.value.name, head.value.version, head.value.mode, address + at, stubs.value);
          OneImport(image, address, at, imports, exports, library);
          CountStubs(imports, exports, library);
          imports := imports + [library];
        } else {
          var functions := ReadExports(image, address, at, maxEntries - entries,
                                       if hoped then Some(e[|exports|].functions) else None);
          if functions.Err? {
            return Err(functions.error);
          }
          entries := entries + |functions.value|;
          var library := ExportLibrary(head.value.name, head.value.version, head.value.mode, address + at,
                                       functions.value);
          OneExport(image, address, at, imports, exports, library);
          CountFunctions(imports, exports, library);
          exports := exports + [library];
        }
      } else {
        NoTableHere(image, address, at, imports, exports);
      }
      at := at + 4;
    }
    assert at == |image| - |image| % 4;
    assert TablesWithin(image, address, maxTables, maxEntries, imports, exports);
    return Ok((imports, exports));
  }

  lemma NoTables(image: seq<u8>, address: u32)
    ensures TablesAt(image, address, 0, [], []) && EntryCount([], []) == 0
  {
  }

  lemma RoomForNext(i: seq<ImportLibrary>, e: seq<ExportLibrary>, imports: seq<ImportLibrary>,
                    exports: seq<ExportLibrary>)
    requires i <= imports && e <= exports
    ensures |i| < |imports| ==> EntryCount(i, e) + |imports[|i|].stubs| <= EntryCount(imports, exports)
    ensures |e| < |exports| ==> EntryCount(i, e) + |exports[|e|].functions| <= EntryCount(imports, exports)
  {
    hide EntryCount;
    if |i| < |imports| {
      CountStubs(i, e, imports[|i|]);
      PrefixCount(i + [imports[|i|]], e, imports, exports);
    }
    if |e| < |exports| {
      CountFunctions(i, e, exports[|e|]);
      PrefixCount(i, e + [exports[|e|]], imports, exports);
    }
  }

  lemma OneImport(image: seq<u8>, address: u32, at: nat, imports: seq<ImportLibrary>, exports: seq<ExportLibrary>,
                  i: ImportLibrary)
    requires at % 4 == 0 && (at + 4) % 4 == 0 && at + 4 <= |image| && TablesAt(image, address, at, imports, exports)
    requires Word(image, at) == IMPORT_MAGIC && ImportAt(image, address, at, i)
    ensures TablesAt(image, address, at + 4, imports + [i], exports)
  {
    hide Word, ImportAt;
    assert (imports + [i])[..|imports|] == imports;
  }

  lemma OneExport(image: seq<u8>, address: u32, at: nat, imports: seq<ImportLibrary>, exports: seq<ExportLibrary>,
                  e: ExportLibrary)
    requires at % 4 == 0 && (at + 4) % 4 == 0 && at + 4 <= |image| && TablesAt(image, address, at, imports, exports)
    requires Word(image, at) == EXPORT_MAGIC && ExportAt(image, address, at, e)
    ensures TablesAt(image, address, at + 4, imports, exports + [e])
  {
    hide Word, ExportAt;
    assert (exports + [e])[..|exports|] == exports;
  }

  lemma NoTableHere(image: seq<u8>, address: u32, at: nat, imports: seq<ImportLibrary>, exports: seq<ExportLibrary>)
    requires at % 4 == 0 && at + 4 <= |image| && TablesAt(image, address, at, imports, exports)
             && !IsMagic(Word(image, at))
    ensures TablesAt(image, address, at + 4, imports, exports)
  {
  }
}
