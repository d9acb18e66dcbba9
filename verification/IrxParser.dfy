/** Putting a module together: segments in address order, one image, its alignment and its relocations. */
module IrxParser {
  import opened Machine
  import opened Wrappers
  import opened Alignment
  import opened SonyChain
  import opened Relocations
  import opened Irx

  // ----- Segments in address order

  /** `sort_by_key(virtual_address)`: equal keys keep their order. */
  function SortLoads(loads: seq<ProgramHeader>): (r: seq<ProgramHeader>)
    ensures multiset(r) == multiset(loads)
  {
    if loads == [] then []
    else
      var init, last := loads[..|loads| - 1], loads[|loads| - 1];
      assert loads == init + [last];
      InsertLoad(SortLoads(init), last)
  }

  function InsertLoad(sorted: seq<ProgramHeader>, h: ProgramHeader): (r: seq<ProgramHeader>)
    ensures multiset(r) == multiset(sorted) + multiset{h}
  {
    if sorted == [] then [h]
    else
      var init, last := sorted[..|sorted| - 1], sorted[|sorted| - 1];
      assert sorted == init + [last];
      if last.virtualAddress <= h.virtualAddress then sorted + [h] else InsertLoad(init, h) + [last]
  }

  predicate InAddressOrder(loads: seq<ProgramHeader>)
  {
    forall i, j :: 0 <= i < j < |loads| ==> loads[i].virtualAddress <= loads[j].virtualAddress
  }

  lemma {:induction false} InsertBelow(sorted: seq<ProgramHeader>, h: ProgramHeader, bound: int)
    requires (forall k :: 0 <= k < |sorted| ==> sorted[k].virtualAddress <= bound) && h.virtualAddress <= bound
    ensures forall k :: 0 <= k < |InsertLoad(sorted, h)| ==> InsertLoad(sorted, h)[k].virtualAddress <= bound
  {
    if sorted != [] {
      InsertBelow(sorted[..|sorted| - 1], h, bound);
    }
  }

  lemma {:induction false} InsertKeepsOrder(sorted: seq<ProgramHeader>, h: ProgramHeader)
    requires InAddressOrder(sorted)
    ensures InAddressOrder(InsertLoad(sorted, h))
  {
    if sorted != [] {
      var init, last := sorted[..|sorted| - 1], sorted[|sorted| - 1];
      if last.virtualAddress > h.virtualAddress {
        InsertKeepsOrder(init, h);
        InsertBelow(init, h, last.virtualAddress);
      }
    }
  }

  lemma {:induction false} SortOrders(loads: seq<ProgramHeader>)
    ensures InAddressOrder(SortLoads(loads)) && |SortLoads(loads)| == |loads|
  {
    assert |multiset(SortLoads(loads))| == |multiset(loads)|;
    if loads != [] {
      SortOrders(loads[..|loads| - 1]);
      InsertKeepsOrder(SortLoads(loads[..|loads| - 1]), loads[|loads| - 1]);
    }
  }

  /** The segments at one address, in order. */
  function AtAddress(loads: seq<ProgramHeader>, address: u32): seq<ProgramHeader>
  {
    if loads == [] then []
    else
      var last := loads[|loads| - 1];
      AtAddress(loads[..|loads| - 1], address) + if last.virtualAddress == address then [last] else []
  }

  lemma {:induction false} InsertStable(sorted: seq<ProgramHeader>, h: ProgramHeader, address: u32)
    requires InAddressOrder(sorted)
    ensures AtAddress(InsertLoad(sorted, h), address)
            == AtAddress(sorted, address) + if h.virtualAddress == address then [h] else []
  {
    hide AtAddress;
    if sorted == [] {
      AtLast([], h, address);
      assert [] + [h] == [h];
    } else {
      var init, last := sorted[..|sorted| - 1], sorted[|sorted| - 1];
      assert sorted == init + [last];
      AtLast(sorted, h, address);
      if last.virtualAddress > h.virtualAddress {
        InsertStable(init, h, address);
        AtLast(InsertLoad(init, h), last, address);
        AtLast(init, last, address);
      }
    }
  }

  lemma AtLast(loads: seq<ProgramHeader>, h: ProgramHeader, address: u32)
    ensures AtAddress(loads + [h], address)
            == AtAddress(loads, address) + if h.virtualAddress == address then [h] else []
  {
    assert (loads + [h])[..|loads|] == loads;
  }

  /** Segments at equal addresses keep their order in the file. */
  lemma {:induction false} SortStable(loads: seq<ProgramHeader>, address: u32)
    ensures AtAddress(SortLoads(loads), address) == AtAddress(loads, address)
  {
    if loads != [] {
      var init := loads[..|loads| - 1];
      SortStable(init, address);
      SortOrders(init);
      InsertStable(SortLoads(init), loads[|loads| - 1], address);
    }
  }

  // ----- Alignment

  /** The largest declared alignment; zero counts as one. */
  function MaxAlignment(loads: seq<ProgramHeader>): (r: u32)
    ensures r >= 1
  {
    if loads == [] then 1 else Max(MaxAlignment(loads[..|loads| - 1]), loads[|loads| - 1].alignment)
  }

  lemma {:induction false} MaxAlignmentSpec(loads: seq<ProgramHeader>, variant: IrxVariant, limits: IrxLimits)
    requires forall i :: 0 <= i < |loads| ==> PlacedSoundly(loads[i], variant, limits)
    ensures IsPowerOfTwo(MaxAlignment(loads)) && MaxAlignment(loads) <= Max(1, limits.maxAlignment)
    ensures forall i :: 0 <= i < |loads| ==> loads[i].alignment <= MaxAlignment(loads)
  {
    hide IsPowerOfTwo;
    if loads == [] {
      OneIsPower();
    } else {
      MaxAlignmentSpec(loads[..|loads| - 1], variant, limits);
      assert PlacedSoundly(loads[|loads| - 1], variant, limits);
    }
  }

  lemma OneIsPower()
    ensures IsPowerOfTwo(1)
  {
  }

  /**
   * Loaded at a multiple of the module's alignment, every segment of a relocatable module is aligned as it
   * declares.
   */
  lemma SegmentsLandAligned(loads: seq<ProgramHeader>, variant: IrxVariant, limits: IrxLimits, address: u32, i: nat)
    requires forall k :: 0 <= k < |loads| ==> PlacedSoundly(loads[k], variant, limits)
    requires i < |loads| && loads[i].alignment != 0 && Aligned(address, MaxAlignment(loads))
    ensures Aligned(address + loads[i].virtualAddress, loads[i].alignment)
  {
    hide IsPowerOfTwo;
    MaxAlignmentSpec(loads, variant, limits);
    AlignedDownward(address, loads[i].alignment, MaxAlignment(loads));
    SumAligned(address, loads[i].virtualAddress, loads[i].alignment);
  }

  lemma SumAligned(x: int, y: int, alignment: int)
    requires alignment > 0 && Aligned(x, alignment) && Aligned(y, alignment)
    ensures Aligned(x + y, alignment)
  {
    ExactQuotient(x, alignment);
    ExactQuotient(y, alignment);
    var p, q := x / alignment, y / alignment;
    assert x + y == alignment * (p + q);
    MultipleIsAligned(p + q, alignment);
  }

  // ----- The module

  /** The segments, in address order, that make up a loadable image. */
  predicate SoundLoads(input: seq<u8>, loads: seq<ProgramHeader>, variant: IrxVariant, limits: IrxLimits)
  {
    && loads != [] && SeparateLoads(loads, |input|)
    && (forall i :: 0 <= i < |loads| ==> PlacedSoundly(loads[i], variant, limits))
    && (variant.IsRelocatable() ==> loads[0].virtualAddress == 0)
    && forall i :: 0 <= i < |loads| ==> InRange(loads[i], loads[0].virtualAddress, limits.maxImageBytes)
  }

  /** First address behind all segments. */
  function ImageEnd(loads: seq<ProgramHeader>): int
    requires loads != []
  {
    var last := loads[|loads| - 1];
    var end := last.virtualAddress + last.memorySize;
    if |loads| == 1 then end else Max(ImageEnd(loads[..|loads| - 1]), end)
  }

  lemma {:induction false} ImageEndIs(loads: seq<ProgramHeader>, end: int)
    requires loads != []
    requires forall i :: 0 <= i < |loads| ==> loads[i].virtualAddress + loads[i].memorySize <= end
    requires exists i :: 0 <= i < |loads| && loads[i].virtualAddress + loads[i].memorySize == end
    ensures ImageEnd(loads) == end
  {
    ImageEndBounds(loads);
  }

  lemma {:induction false} ImageEndBounds(loads: seq<ProgramHeader>)
    requires loads != []
    ensures forall i :: 0 <= i < |loads| ==> loads[i].virtualAddress + loads[i].memorySize <= ImageEnd(loads)
    ensures exists i :: 0 <= i < |loads| && loads[i].virtualAddress + loads[i].memorySize == ImageEnd(loads)
  {
    if |loads| > 1 {
      var init := loads[..|loads| - 1];
      ImageEndBounds(init);
      var i :| 0 <= i < |init| && init[i].virtualAddress + init[i].memorySize == ImageEnd(init);
      assert loads[i] == init[i];
      assert ImageEnd(loads) == loads[i].virtualAddress + loads[i].memorySize
             || ImageEnd(loads) == loads[|loads| - 1].virtualAddress + loads[|loads| - 1].memorySize;
    } else {
      assert loads[0].virtualAddress + loads[0].memorySize == ImageEnd(loads);
    }
  }

  /** The relocation sections suit an image made of these segments. */
  ghost predicate SoundSections(input: seq<u8>, loads: seq<ProgramHeader>, sections: seq<SectionHeader>,
                                variant: IrxVariant, limits: IrxLimits)
    requires loads != []
  {
    forall k :: 0 <= k < |sections| ==>
                  SectionSound(input, sections, k, variant, limits, ImageSize(loads), loads[0].virtualAddress)
  }

  function ImageSize(loads: seq<ProgramHeader>): nat
    requires loads != []
  {
    Max(0, ImageEnd(loads) - loads[0].virtualAddress)
  }

  /** `m` is what the segments and relocation sections describe. */
  ghost predicate BuiltFrom(m: IrxModule, input: seq<u8>, loads: seq<ProgramHeader>, sections: seq<SectionHeader>)
    requires SeparateLoads(loads, |input|) && loads != []
  {
    && m.preferredAddress == loads[0].virtualAddress && m.alignment == MaxAlignment(loads)
    && IsImage(m.image, input, loads, m.preferredAddress)
    && |m.image| == ImageSize(loads)
    && (forall i :: 0 <= i < |loads| ==> InRange(loads[i], m.preferredAddress, |m.image|))
    && m.relocations == RecordsBefore(input, sections, |sections|, m.preferredAddress, |m.image|)
  }

  /**
   * Builds a module from its loadable segments, in file order, and its sections; description and metadata come
   * from the module information segment.
   */
  method BuildModule(input: seq<u8>, headers: seq<ProgramHeader>, sections: seq<SectionHeader>, limits: IrxLimits,
                     description: ModuleDescription, metadata: RawMetadata) returns (r: Result<IrxModule, IrxError>)
    ensures r.Ok? ==>
              && r.value.Valid()
              && SoundLoads(input, SortLoads(headers), description.variant, limits)
              && BuiltFrom(r.value, input, SortLoads(headers), sections)
              && r.value.description == description && r.value.metadata == metadata && r.value.limits == limits
    ensures r.Ok? <==>
            && SoundLoads(input, SortLoads(headers), description.variant, limits)
            && SoundSections(input, SortLoads(headers), sections, description.variant, limits)
  {
    hide IsImage, IsPowerOfTwo, WellFormed, SeparateLoads, PlacedSoundly, RecordsBefore, SectionSound, MaxAlignment,
         ImageEnd;
    var variant := description.variant;
    SortOrders(headers);
    var loads := SortLoads(headers);
    if loads == [] {
      return Err(InvalidProgramLayout);
    }
    var validated := ValidateLoads(|input|, loads, variant, limits);
    if validated.Err? {
      return Err(validated.error);
    }
    var preferred := loads[0].virtualAddress;
    if variant.IsRelocatable() && preferred != 0 {
      return Err(InvalidProgramLayout);
    }
    var image := BuildImage(input, loads, limits);
    if image.Err? {
      return Err(image.error);
    }
    ImageEndIs(loads, preferred + |image.value|);
    assert ImageSize(loads) == |image.value|;
    var relocations := ParseRelocations(input, sections, variant, limits, |image.value|, preferred);
    if relocations.Err? {
      return Err(relocations.error);
    }
    MaxAlignmentSpec(loads, variant, limits);
    SizeFits(input, loads, |image.value|);
    return Ok(IrxModule(limits, description, metadata, preferred, MaxAlignment(loads), image.value, relocations.value));
  }

  lemma SizeFits(input: seq<u8>, loads: seq<ProgramHeader>, size: nat)
    requires SeparateLoads(loads, |input|) && loads != []
    requires exists i :: 0 <= i < |loads| && loads[i].virtualAddress + loads[i].memorySize
               == loads[0].virtualAddress + size
    ensures size < U32_LIMIT
  {
  }
}
