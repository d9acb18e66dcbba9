/** Parsing and loading of IOP modules. */
module Irx {
  import opened Machine
  import opened Wrappers
  import opened LittleEndian
  import opened Alignment
  import opened SonyChain
  import opened Relocations
  import opened RelocationRecords
  import opened LinkTables
  import opened GuestMemory

  datatype IrxVariant = RelocatableV1 | RelocatableV2 | Executable {
    predicate IsRelocatable() { !Executable? }
  }

  datatype IrxLimits = IrxLimits(
    maxImageBytes: u32, maxRelocations: nat, maxLinkTables: nat, maxLinkEntries: nat, maxAlignment: u32)

  datatype ModuleDescription = ModuleDescription(
    name: Name, version: u16, variant: IrxVariant, textSize: u32, dataSize: u32, bssSize: u32)

  datatype RawMetadata = RawMetadata(moduleId: Option<u32>, entry: u32, globalPointer: u32)

  datatype ProgramHeader = ProgramHeader(
    offset: u32, virtualAddress: u32, fileSize: u32, memorySize: u32, alignment: u32)

  datatype SectionHeader = SectionHeader(kind: u32, offset: u32, size: u32, info: u32, entrySize: u32)

  /** A parsed module ready to be relocated into a target. */
  datatype IrxModule = IrxModule(
    limits: IrxLimits,
    description: ModuleDescription,
    metadata: RawMetadata,
    preferredAddress: u32,
    alignment: u32,
    image: seq<u8>,
    relocations: seq<Relocation>)
  {
    function AllocationSize(): u32 { if |image| < U32_LIMIT then |image| else U32_LIMIT - 1 }

    function Delta(address: u32): u32 { if description.variant.IsRelocatable() then address else 0 }

    /** What parsing establishes of every module it returns. */
    predicate Valid()
    {
      && IsPowerOfTwo(alignment)
      && |image| < U32_LIMIT
      && (description.variant.IsRelocatable() ==> preferredAddress == 0)
      && (!description.variant.IsRelocatable() ==> relocations == [])
      && WellFormed(relocations, preferredAddress, |image|)
    }

    /** The relocated image, or why relocation refuses it. */
    function Staged(address: u32): (r: Result<seq<u8>, IrxError>)
      requires Valid()
      ensures r.Ok? ==> |r.value| == |image|
    {
      ApplyFrom(image, preferredAddress, Delta(address), relocations, 0)
    }
  }

  datatype LoadedModule = LoadedModule(
    entry: u32, globalPointer: u32, moduleId: Option<u32>, address: u32, size: u32,
    imports: seq<ImportLibrary>, exports: seq<ExportLibrary>)

  // ----- Loading

  /** A complete result: relocated entry points inside the module and link tables of the staged image. */
  ghost predicate Describes(m: IrxModule, address: u32, image: seq<u8>, l: LoadedModule)
  {
    && l.address == address && l.size == |m.image|
    && l.entry == m.metadata.entry + m.Delta(address)
    && l.globalPointer == m.metadata.globalPointer + m.Delta(address)
    && address <= l.entry && l.entry + 4 <= address + |m.image|
    && (l.moduleId.Some? <==> m.metadata.moduleId.Some?)
    && (l.moduleId.Some? ==> l.moduleId.value == m.metadata.moduleId.value + m.Delta(address))
    && TablesWithin(image, address, m.limits.maxLinkTables, m.limits.maxLinkEntries, l.imports, l.exports)
  }

  /** The module may be loaded at `address`, as `image` and `l`, into memory from `rangeStart` to `rangeEnd`. */
  ghost predicate StagedAs(m: IrxModule, address: u32, rangeStart: int, rangeEnd: int, image: seq<u8>, l: LoadedModule)
    requires m.Valid()
  {
    && Aligned(address, m.alignment) && (!m.description.variant.IsRelocatable() ==> address == m.preferredAddress)
    && rangeStart <= address && address + |m.image| <= rangeEnd
    && m.Staged(address) == Ok(image) && Describes(m, address, image, l)
  }

  ghost predicate Stageable(m: IrxModule, address: u32, rangeStart: int, rangeEnd: int)
    requires m.Valid()
  {
    exists image, l :: StagedAs(m, address, rangeStart, rangeEnd, image, l)
  }

  /** There is one such image and description at most. */
  lemma StagedOnce(m: IrxModule, address: u32, rangeStart: int, rangeEnd: int, image: seq<u8>, l: LoadedModule,
                   image': seq<u8>, l': LoadedModule)
    requires m.Valid()
    requires StagedAs(m, address, rangeStart, rangeEnd, image, l)
             && StagedAs(m, address, rangeStart, rangeEnd, image', l')
    ensures image == image' && l == l'
  {
    hide TablesAt, EntryCount, IrxModule.Valid;
    SameTables(image, address, |image| - |image| % 4, l.imports, l.exports, l'.imports, l'.exports);
  }

  /**
   * All of a load but its write: succeeds exactly if some staged image and description exist.
   * `rangeStart` and `rangeEnd` bound the memory granted to the module.
   */
  method Stage(m: IrxModule, address: u32, rangeStart: u32, rangeEnd: u32)
    returns (r: Result<(LoadedModule, seq<u8>), IrxError>)
    requires m.Valid()
    ensures r.Ok? ==> StagedAs(m, address, rangeStart, rangeEnd, r.value.1, r.value.0)
    ensures r.Ok? <==> Stageable(m, address, rangeStart, rangeEnd)
  {
    hide IrxModule.Valid, TablesAt, EntryCount;
    assert m.alignment > 0 && |m.image| < U32_LIMIT && WellFormed(m.relocations, m.preferredAddress, |m.image|) by {
      ValidParts(m);
    }
    if x, l :| StagedAs(m, address, rangeStart, rangeEnd, x, l) {
      assert TablesWithin(x, address, m.limits.maxLinkTables, m.limits.maxLinkEntries, l.imports, l.exports);
    }
    if address % m.alignment != 0 || (!m.description.variant.IsRelocatable() && address != m.preferredAddress) {
      return Err(InvalidLoadAddress);
    }
    if !(rangeStart <= address && address + |m.image| <= rangeEnd) {
      return Err(TargetRange);
    }
    var image := new u8[|m.image|](i requires 0 <= i < |m.image| => m.image[i]);
    assert image[..] == m.image;
    var delta := m.Delta(address);
    var applied := ApplyAll(image, m.preferredAddress, delta, m.relocations);
    if applied.Err? {
      return Err(applied.error);
    }
    if m.metadata.entry + delta >= U32_LIMIT || m.metadata.globalPointer + delta >= U32_LIMIT {
      return Err(Overflow);
    }
    var entry := m.metadata.entry + delta;
    if address + m.AllocationSize() >= U32_LIMIT {
      return Err(Overflow);
    }
    if !(address <= entry && entry + 4 <= address + m.AllocationSize()) {
      return Err(TargetRange);
    }
    var moduleId: Option<u32> := None;
    if m.metadata.moduleId.Some? {
      if m.metadata.moduleId.value + delta >= U32_LIMIT {
        return Err(Overflow);
      }
      moduleId := Some(m.metadata.moduleId.value + delta);
    }
    var tables := ParseLinkTables(image[..], address, m.limits.maxLinkTables, m.limits.maxLinkEntries);
    if tables.Err? {
      return Err(tables.error);
    }
    var loaded := LoadedModule(entry, m.metadata.globalPointer + delta, moduleId, address, m.AllocationSize(),
                               tables.value.0, tables.value.1);
    return Ok((loaded, image[..]));
  }

  lemma ValidParts(m: IrxModule)
    requires m.Valid()
    ensures m.alignment > 0 && |m.image| < U32_LIMIT && WellFormed(m.relocations, m.preferredAddress, |m.image|)
  {
  }

  /** Relocates and writes one complete image; any failure leaves the target exactly as it was. */
  method LoadInto(m: IrxModule, address: u32, rangeStart: u32, rangeEnd: u32, guest: GuestRam)
    returns (r: Result<LoadedModule, IrxError>)
    requires m.Valid() && guest.Valid()
    modifies guest.bytes, guest`refusals
    ensures r.Err? ==> guest.View() == old(guest.View())
    ensures r.Ok? ==>
              && guest.Contains(address, |m.image|)
              && m.Staged(address).Ok?
              && StagedAs(m, address, rangeStart, rangeEnd, m.Staged(address).value, r.value)
              && guest.View() == Splice(old(guest.View()), address, m.Staged(address).value)
    ensures old(guest.refusals) == [] ==> guest.refusals == []
    ensures old(guest.refusals) == [] ==>
              (r.Ok? <==> guest.Contains(address, |m.image|) && Stageable(m, address, rangeStart, rangeEnd))
  {
    hide IrxModule.Valid, Describes;
    var staged := Stage(m, address, rangeStart, rangeEnd);
    if staged.Err? {
      return Err(staged.error);
    }
    if !guest.Contains(address, |m.image|) {
      return Err(Target);
    }
    var written := guest.Write(address, staged.value.1);
    if !written {
      return Err(Target);
    }
    return Ok(staged.value.0);
  }

  // ----- Parsing

  const SHT_REL: u32 := 9

  /** Checks the load segments in ascending address order. */
  method ValidateLoads(inputSize: nat, loads: seq<ProgramHeader>, variant: IrxVariant, limits: IrxLimits)
    returns (r: Result<(), IrxError>)
    ensures r.Ok? <==> SeparateLoads(loads, inputSize) && forall i :: 0 <= i < |loads| ==>
              PlacedSoundly(loads[i], variant, limits)
  {
    hide PlacedSoundly;
    var priorEnd: Option<int> := None;
    for i := 0 to |loads|
      invariant SeparateLoads(loads[..i], inputSize)
      invariant forall j :: 0 <= j < i ==> PlacedSoundly(loads[j], variant, limits)
      invariant priorEnd.None? <==> i == 0
      invariant i > 0 ==> priorEnd.value == loads[i - 1].virtualAddress + loads[i - 1].memorySize
      invariant forall j :: 0 <= j < i ==> loads[j].virtualAddress + loads[j].memorySize <= priorEnd.value
    {
      var h := loads[i];
      if h.fileSize > h.memorySize {
        return Err(OutOfRange);
      }
      if h.offset + h.fileSize > inputSize {
        return Err(Truncated);
      }
      if h.virtualAddress + h.memorySize >= U32_LIMIT {
        return Err(Overflow);
      }
      if priorEnd.Some? && h.virtualAddress < priorEnd.value {
        return Err(OverlappingRanges);
      }
      priorEnd := Some(h.virtualAddress + h.memorySize);
      var sound := CheckPlacement(h, variant, limits);
      if !sound {
        return Err(InvalidProgramLayout);
      }
      assert loads[..i + 1] == loads[..i] + [h];
    }
    assert loads[..|loads|] == loads;
    return Ok(());
  }

  method CheckPlacement(h: ProgramHeader, variant: IrxVariant, limits: IrxLimits) returns (sound: bool)
    ensures sound <==> PlacedSoundly(h, variant, limits)
  {
    if h.alignment != 0
       && (!IsPowerOfTwo(h.alignment) || h.alignment > limits.maxAlignment || h.virtualAddress % h.alignment != 0)
    {
      return false;
    }
    if variant.IsRelocatable() && h.virtualAddress >= limits.maxImageBytes {
      return false;
    }
    return true;
  }

  /** The segment's address is aligned as declared, and low enough in a relocatable module. */
  predicate PlacedSoundly(h: ProgramHeader, variant: IrxVariant, limits: IrxLimits)
  {
    && (h.alignment != 0 ==>
          IsPowerOfTwo(h.alignment) && h.alignment <= limits.maxAlignment && Aligned(h.virtualAddress, h.alignment))
    && (variant.IsRelocatable() ==> h.virtualAddress < limits.maxImageBytes)
  }

  /** Segments lie inside the file, fit 32 bits, and occupy disjoint ascending memory ranges. */
  predicate SeparateLoads(loads: seq<ProgramHeader>, inputSize: nat)
  {
    && (forall i :: 0 <= i < |loads| ==>
                      && loads[i].fileSize <= loads[i].memorySize
                      && loads[i].offset + loads[i].fileSize <= inputSize
                      && loads[i].virtualAddress + loads[i].memorySize < U32_LIMIT)
    && (forall i, j :: 0 <= i < j < |loads| ==>
                         loads[i].virtualAddress + loads[i].memorySize <= loads[j].virtualAddress)
  }

  /** Byte `k` of the image belongs to segment `h`'s file contents. */
  predicate FromFile(h: ProgramHeader, preferred: u32, k: int)
  {
    h.virtualAddress <= preferred + k < h.virtualAddress + h.fileSize
  }

  /** The byte at image offset `k`: the last segment to supply it wins, and unsupplied bytes are zero. */
  function ImageByte(input: seq<u8>, loads: seq<ProgramHeader>, preferred: u32, k: int): u8
    requires SeparateLoads(loads, |input|)
  {
    if loads == [] then 0
    else
      var h := loads[|loads| - 1];
      if FromFile(h, preferred, k) then input[h.offset + (preferred + k - h.virtualAddress)]
      else ImageByte(input, loads[..|loads| - 1], preferred, k)
  }

  ghost predicate IsImage(image: seq<u8>, input: seq<u8>, loads: seq<ProgramHeader>, preferred: u32)
    requires SeparateLoads(loads, |input|)
  {
    forall k :: 0 <= k < |image| ==> image[k] == ImageByte(input, loads, preferred, k)
  }

  /** No segment overwrites another: each one's file bytes arrive intact. */
  lemma {:induction false} SegmentsIntact(input: seq<u8>, loads: seq<ProgramHeader>, preferred: u32, i: nat, k: int)
    requires SeparateLoads(loads, |input|) && i < |loads| && FromFile(loads[i], preferred, k)
    ensures ImageByte(input, loads, preferred, k) == input[loads[i].offset + (preferred + k - loads[i].virtualAddress)]
  {
    var last := |loads| - 1;
    if i < last {
      assert loads[i].virtualAddress + loads[i].memorySize <= loads[last].virtualAddress;
      SegmentsIntact(input, loads[..last], preferred, i, k);
    }
  }

  /** Gaps and BSS are zero. */
  lemma {:induction false} UnsuppliedZero(input: seq<u8>, loads: seq<ProgramHeader>, preferred: u32, k: int)
    requires SeparateLoads(loads, |input|)
    requires forall i :: 0 <= i < |loads| ==> !FromFile(loads[i], preferred, k)
    ensures ImageByte(input, loads, preferred, k) == 0
  {
    if loads != [] {
      UnsuppliedZero(input, loads[..|loads| - 1], preferred, k);
    }
  }

  /** First address behind all segments. */
  method LastEnd(loads: seq<ProgramHeader>) returns (end: int)
    requires loads != []
    ensures forall i :: 0 <= i < |loads| ==> loads[i].virtualAddress + loads[i].memorySize <= end
    ensures exists i :: 0 <= i < |loads| && loads[i].virtualAddress + loads[i].memorySize == end
  {
    end := 0;
    ghost var top := 0;
    for i := 0 to |loads|
      invariant 0 <= end && (i == 0 ==> end == 0)
      invariant forall j :: 0 <= j < i ==> loads[j].virtualAddress + loads[j].memorySize <= end
      invariant i > 0 ==> 0 <= top < i && loads[top].virtualAddress + loads[top].memorySize == end
    {
      if i == 0 || loads[i].virtualAddress + loads[i].memorySize > end {
        top := i;
      }
      end := Max(end, loads[i].virtualAddress + loads[i].memorySize);
    }
  }

  /** Copies the segments into one zeroed, contiguous image. */
  method BuildImage(input: seq<u8>, loads: seq<ProgramHeader>, limits: IrxLimits) returns (r: Result<seq<u8>, IrxError>)
    requires loads != [] && SeparateLoads(loads, |input|)
    ensures r.Ok? <==> forall i :: 0 <= i < |loads| ==> InRange(loads[i], loads[0].virtualAddress, limits.maxImageBytes)
    ensures r.Ok? ==>
              exists i :: 0 <= i < |loads| && loads[i].virtualAddress + loads[i].memorySize
                == loads[0].virtualAddress + |r.value|
    ensures r.Ok? ==> IsImage(r.value, input, loads, loads[0].virtualAddress)
    ensures r.Ok? ==> forall i :: 0 <= i < |loads| ==> InRange(loads[i], loads[0].virtualAddress, |r.value|)
  {
    hide FromFile, IsImage, ImageByte;
    var preferred := loads[0].virtualAddress;
    var end := LastEnd(loads);
    var size := end - preferred;
    if size > limits.maxImageBytes {
      return Err(LimitExceeded);
    }
    var image := new u8[size](_ => 0);
    assert IsImage(image[..], input, [], preferred) by { ZeroImage(image[..], input, preferred); }
    for i := 0 to |loads|
      invariant IsImage(image[..], input, loads[..i], preferred)
    {
      assert InRange(loads[i], preferred, size);
      CopySegment(image[..], input, loads, preferred, i);
      var h := loads[i];
      CopySlice(image, h.virtualAddress - preferred, input[h.offset..h.offset + h.fileSize]);
    }
    assert loads[..|loads|] == loads;
    return Ok(image[..]);
  }

  method CopySlice(image: array<u8>, at: nat, data: seq<u8>)
    requires at + |data| <= image.Length
    modifies image
    ensures image[..] == Splice(old(image[..]), at, data)
  {
    forall k | 0 <= k < |data| {
      image[at + k] := data[k];
    }
    assert image[..] == Splice(old(image[..]), at, data);
  }

  predicate InRange(h: ProgramHeader, preferred: u32, size: int)
  {
    preferred <= h.virtualAddress && h.virtualAddress + h.memorySize <= preferred + size
  }

  lemma ZeroImage(image: seq<u8>, input: seq<u8>, preferred: u32)
    requires forall k :: 0 <= k < |image| ==> image[k] == 0
    ensures IsImage(image, input, [], preferred)
  {
  }

  lemma CopySegment(before: seq<u8>, input: seq<u8>, loads: seq<ProgramHeader>, preferred: u32, i: nat)
    requires SeparateLoads(loads, |input|) && i < |loads| && InRange(loads[i], preferred, |before|)
    requires IsImage(before, input, loads[..i], preferred)
    ensures var h := loads[i];
            IsImage(Splice(before, h.virtualAddress - preferred, input[h.offset..h.offset + h.fileSize]),
                    input, loads[..i + 1], preferred)
  {
    var h := loads[i];
    var at, data := h.virtualAddress - preferred, input[h.offset..h.offset + h.fileSize];
    var after := Splice(before, at, data);
    assert loads[..i + 1][..i] == loads[..i];
    assert loads[..i + 1][i] == h;
    forall k | 0 <= k < |after|
      ensures after[k] == ImageByte(input, loads[..i + 1], preferred, k)
    {
      if FromFile(h, preferred, k) {
        assert after[k] == after[at..at + |data|][k - at];
      }
    }
  }

  /** Complete records of a possibly truncated relocation section. */
  function AvailableRecords(inputSize: nat, s: SectionHeader): int
  {
    Min(inputSize - s.offset, s.size) / REL_SIZE
  }

  /** The records of one section; a final record that is cut off by the end of the file is ignored. */
  function SectionRecords(input: seq<u8>, s: SectionHeader, preferred: u32,
                          size: nat): Result<seq<Relocation>, IrxError>
  {
    if s.offset > |input| then Err(Truncated)
    else Decoded(input[s.offset..s.offset + AvailableRecords(|input|, s) * REL_SIZE], 0, preferred, size)
  }

  /** All records of the first `k` sections. */
  function RecordsBefore(input: seq<u8>, sections: seq<SectionHeader>, k: nat, preferred: u32,
                         size: nat): seq<Relocation>
    requires k <= |sections|
  {
    if k == 0 then []
    else
      var s := sections[k - 1];
      var records := SectionRecords(input, s, preferred, size);
      RecordsBefore(input, sections, k - 1, preferred, size) + if s.kind == SHT_REL && records.Ok? then records.value
      else []
  }

  /** Section `k` holds no relocations, or holds them in a form a loadable module may have. */
  predicate SectionSound(input: seq<u8>, sections: seq<SectionHeader>, k: nat, variant: IrxVariant, limits: IrxLimits,
                         size: nat, preferred: u32)
    requires k < |sections|
  {
    var s := sections[k];
    s.kind == SHT_REL ==>
      && variant.IsRelocatable() && s.entrySize == REL_SIZE && s.size % REL_SIZE == 0 && s.info < |sections|
      && |RecordsBefore(input, sections, k, preferred, size)| + s.size / REL_SIZE <= limits.maxRelocations
      && SectionRecords(input, s, preferred, size).Ok?
  }

  /** Decodes every relocation section into records that are in range, aligned and correctly paired. */
  method ParseRelocations(input: seq<u8>, sections: seq<SectionHeader>, variant: IrxVariant, limits: IrxLimits,
                          imageSize: nat, preferred: u32) returns (r: Result<seq<Relocation>, IrxError>)
    ensures r.Ok? <==> forall k :: 0 <= k < |sections| ==>
              SectionSound(input, sections, k, variant, limits, imageSize, preferred)
    ensures r.Ok? ==> r.value == RecordsBefore(input, sections, |sections|, preferred, imageSize)
    ensures r.Ok? ==> WellFormed(r.value, preferred, imageSize) && |r.value| <= limits.maxRelocations
    ensures r.Ok? && !variant.IsRelocatable() ==> r.value == []
  {
    hide Decoded, WellFormed;
    var output: seq<Relocation> := [];
    NoRecords(preferred, imageSize);
    for k := 0 to |sections|
      invariant output == RecordsBefore(input, sections, k, preferred, imageSize)
      invariant forall j :: 0 <= j < k ==> SectionSound(input, sections, j, variant, limits, imageSize, preferred)
      invariant WellFormed(output, preferred, imageSize) && |output| <= limits.maxRelocations
      invariant !variant.IsRelocatable() ==> output == []
    {
      var section := sections[k];
      ghost var sound := SectionSound(input, sections, k, variant, limits, imageSize, preferred);
      if section.kind == SHT_REL {
        if !variant.IsRelocatable() {
          return Err(InvalidSection);
        }
        if section.entrySize != REL_SIZE || section.size % REL_SIZE != 0 || section.info >= |sections| {
          return Err(InvalidSection);
        }
        if |output| + section.size / REL_SIZE > limits.maxRelocations {
          return Err(LimitExceeded);
        }
        if section.offset > |input| {
          return Err(Truncated);
        }
        var count := AvailableRecords(|input|, section);
        var data := input[section.offset..section.offset + count * REL_SIZE];
        var records := ParseSection(data, imageSize, preferred);
        if records.Err? {
          return Err(records.error);
        }
        DecodedWellFormed(data, 0, preferred, imageSize);
        WellFormedConcat(output, records.value, preferred, imageSize);
        output := output + records.value;
      }
    }
    return Ok(output);
  }

  lemma NoRecords(preferred: u32, size: nat)
    ensures WellFormed([], preferred, size)
  {
  }

  lemma WellFormedConcat(a: seq<Relocation>, b: seq<Relocation>, preferred: u32, size: nat)
    requires WellFormed(a, preferred, size) && WellFormed(b, preferred, size)
    ensures WellFormed(a + b, preferred, size)
  {
    PairedConcat(a, b);
  }

  lemma PairedConcat(a: seq<Relocation>, b: seq<Relocation>)
    requires Paired(a) && Paired(b)
    ensures Paired(a + b)
  {
  }
}
