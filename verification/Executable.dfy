/** PS-X EXE payloads and their overlay into RAM. */
module Executable {
  import opened Machine
  import opened Wrappers
  import opened LittleEndian
  import opened Tags
  import opened Plan
  import opened PlanLoader

  const EXE_HEADER_SIZE := 0x800
  const RAM_SIZE := 0x20_0000
  const EXE_SIGNATURE: Bytes := [0x50, 0x53, 0x2d, 0x58, 0x20, 0x45, 0x58, 0x45]

  datatype ExeError = TruncatedHeader | BadSignature | TruncatedText | TextOutsideRam

  datatype ImageError = InvalidExecutable(origin: Origin, error: ExeError) | MissingInitialLayer | UnknownRootRegion

  datatype PsxExe = PsxExe(pc: u32, sp: u32, region: Option<RefreshRate>, start: nat, text: Bytes) {
    predicate Covers(a: int) { start <= a < start + |text| }
  }

  /** Physical RAM range of a guest range, if it lies in RAM. */
  function CheckedRamRange(address: u32, size: nat): (r: Result<nat, ExeError>)
    ensures r.Ok? ==> r.value < RAM_SIZE && r.value + size <= RAM_SIZE && (address - r.value) % 0x2000_0000 == 0
  {
    var physical := address % 0x2000_0000;
    if physical >= RAM_SIZE || physical + size > RAM_SIZE then Err(TextOutsideRam) else Ok(physical)
  }

  /** `regionOf` reads the region marker text of the header. */
  function ParseExe(bytes: Bytes, regionOf: Bytes -> Option<RefreshRate>): (r: Result<PsxExe, ExeError>)
    ensures r.Ok? ==> r.value.start + |r.value.text| <= RAM_SIZE
    ensures r.Ok? ==> IsExe(bytes, r.value) && r.value.region == regionOf(bytes[0x4c..EXE_HEADER_SIZE])
  {
    if |bytes| < EXE_HEADER_SIZE then Err(TruncatedHeader)
    else if bytes[..8] != EXE_SIGNATURE then Err(BadSignature)
    else
      var textEnd := EXE_HEADER_SIZE + U32At(bytes, 0x1c);
      if textEnd > |bytes| then Err(TruncatedText)
      else
        match CheckedRamRange(U32At(bytes, 0x18), U32At(bytes, 0x1c))
        case Err(e) => Err(e)
        case Ok(start) =>
          Ok(PsxExe(U32At(bytes, 0x10), U32At(bytes, 0x30), regionOf(bytes[0x4c..EXE_HEADER_SIZE]), start,
                    bytes[EXE_HEADER_SIZE..textEnd]))
  }

  /**
   * `bytes` hold a header with these registers, followed by the text for an address whose physical part is
   * `exe.start`.
   */
  predicate IsExe(bytes: Bytes, exe: PsxExe)
  {
    && EXE_HEADER_SIZE + |exe.text| <= |bytes| && bytes[..8] == EXE_SIGNATURE
    && U32At(bytes, 0x10) == exe.pc && U32At(bytes, 0x30) == exe.sp && U32At(bytes, 0x1c) == |exe.text|
    && U32At(bytes, 0x18) % 0x2000_0000 == exe.start < RAM_SIZE && exe.start + |exe.text| <= RAM_SIZE
    && exe.text == bytes[EXE_HEADER_SIZE..EXE_HEADER_SIZE + |exe.text|]
  }

  /** Every input of that shape is accepted. */
  lemma ExeAccepted(bytes: Bytes, exe: PsxExe, regionOf: Bytes -> Option<RefreshRate>)
    requires IsExe(bytes, exe) && exe.region == regionOf(bytes[0x4c..EXE_HEADER_SIZE])
    ensures ParseExe(bytes, regionOf) == Ok(exe)
  {
    hide U32At;
  }

  /** A header as a linker writes it, followed by the text and anything else. */
  function ExeBytes(pc: u32, gap: Bytes, address: u32, text: Bytes, gap': Bytes, sp: u32, marker: Bytes): Bytes
    requires |text| < U32_LIMIT
  {
    ['P' as int, 'S' as int, '-' as int, 'X' as int, ' ' as int, 'E' as int, 'X' as int, 'E' as int]
    + gap + EncodeAll([pc, 0, address, |text|]) + gap' + EncodeU32(sp) + marker + text
  }

  /** Such a file is accepted as what was written, wherever in RAM or its mirrors the text goes. */
  lemma ExeWritten(pc: u32, gap: Bytes, address: u32, text: Bytes, gap': Bytes, sp: u32, marker: Bytes, after: Bytes,
                   regionOf: Bytes -> Option<RefreshRate>)
    requires |text| < U32_LIMIT && |gap| == 8 && |gap'| == 16 && |marker| == 0x7cc
    requires address % 0x2000_0000 < 0x20_0000 && address % 0x2000_0000 + |text| <= 0x20_0000
    ensures ParseExe(ExeBytes(pc, gap, address, text, gap', sp, marker) + after, regionOf)
            == Ok(PsxExe(pc, sp, regionOf(marker[0x18..]), address % 0x2000_0000, text))
  {
    hide U32At, EncodeAll, EncodeU32;
    var bytes := ExeBytes(pc, gap, address, text, gap', sp, marker) + after;
    var signature := bytes[..8];
    var words := [pc, 0, address, |text|];
    var head, rest := signature + gap, gap' + EncodeU32(sp) + marker + text + after;
    assert bytes == head + EncodeAll(words) + rest;
    EncodedAt(head, words, rest, 0);
    EncodedAt(head, words, rest, 2);
    EncodedAt(head, words, rest, 3);
    assert bytes == (head + EncodeAll(words) + gap') + EncodeU32(sp) + (marker + text + after);
    ReadBack(head + EncodeAll(words) + gap', sp, marker + text + after);
    assert bytes[0x800..0x800 + |text|] == text && bytes[0x4c..0x800] == marker[0x18..];
    ExeAccepted(bytes, PsxExe(pc, sp, regionOf(marker[0x18..]), address % 0x2000_0000, text), regionOf);
  }

  datatype ExecutableImage = ExecutableImage(ram: Bytes, pc: u32, sp: u32, refresh: RefreshRate)

  /** The executables of the layers, when all of them parse. */
  ghost predicate Parsed(layers: seq<PlanLayer>, exes: seq<PsxExe>, regionOf: Bytes -> Option<RefreshRate>)
  {
    && |exes| == |layers|
    && forall k :: 0 <= k < |layers| ==> ParseExe(layers[k].container.program, regionOf) == Ok(exes[k])
  }

  predicate AllParse(layers: seq<PlanLayer>, regionOf: Bytes -> Option<RefreshRate>)
  {
    forall k :: 0 <= k < |layers| ==> ParseExe(layers[k].container.program, regionOf).Ok?
  }

  predicate FirstInvalid(layers: seq<PlanLayer>, k: int, regionOf: Bytes -> Option<RefreshRate>)
  {
    0 <= k < |layers| && ParseExe(layers[k].container.program, regionOf).Err? && AllParse(layers[..k], regionOf)
  }

  /** The region the root executable names, if any. */
  function RootRegion(layers: seq<PlanLayer>, rootOrigin: Origin,
                      regionOf: Bytes -> Option<RefreshRate>): Option<RefreshRate>
  {
    var k := LastOf(layers, rootOrigin);
    if k < 0 then None
    else
      match ParseExe(layers[k].container.program, regionOf)
      case Err(_) => None
      case Ok(exe) => exe.region
  }

  /** The byte the last layer to cover `a` puts there; uncovered RAM is zero. */
  function RamByte(exes: seq<PsxExe>, a: int): u8
  {
    if exes == [] then 0
    else
      var last := exes[|exes| - 1];
      if last.Covers(a) then last.text[a - last.start] else RamByte(exes[..|exes| - 1], a)
  }

  /** The last layer that covers an address decides its byte. */
  lemma {:induction false} LastCoverWins(exes: seq<PsxExe>, i: nat, a: int)
    requires i < |exes| && exes[i].Covers(a) && forall j :: i < j < |exes| ==> !exes[j].Covers(a)
    ensures RamByte(exes, a) == exes[i].text[a - exes[i].start]
  {
    if i < |exes| - 1 {
      LastCoverWins(exes[..|exes| - 1], i, a);
    }
  }

  lemma {:induction false} UncoveredZero(exes: seq<PsxExe>, a: int)
    requires forall j :: 0 <= j < |exes| ==> !exes[j].Covers(a)
    ensures RamByte(exes, a) == 0
  {
    if exes != [] {
      UncoveredZero(exes[..|exes| - 1], a);
    }
  }

  /** Index of the last layer with this origin, or -1. */
  function LastOf(layers: seq<PlanLayer>, origin: Origin): (k: int)
    ensures -1 <= k < |layers|
    ensures k >= 0 ==> layers[k].origin == origin
    ensures forall j :: k < j < |layers| ==> layers[j].origin != origin
  {
    if layers == [] then -1
    else if layers[|layers| - 1].origin == origin then |layers| - 1
    else LastOf(layers[..|layers| - 1], origin)
  }

  /** The state after the first layers have been applied. */
  ghost predicate Applied(layers: seq<PlanLayer>, exes: seq<PsxExe>, ram: Bytes, initial: Option<(u32, u32)>,
                          rootRegion: Option<Option<RefreshRate>>, initialOrigin: Origin, rootOrigin: Origin)
    requires |exes| == |layers|
  {
    && |ram| == RAM_SIZE && (forall a :: 0 <= a < RAM_SIZE ==> ram[a] == RamByte(exes, a))
    && initial == (if LastOf(layers, initialOrigin) < 0 then None
                   else Some((exes[LastOf(layers, initialOrigin)].pc, exes[LastOf(layers, initialOrigin)].sp)))
    && rootRegion == (if LastOf(layers, rootOrigin) < 0 then None else Some(exes[LastOf(layers, rootOrigin)].region))
  }

  lemma OneLayer(layers: seq<PlanLayer>, exes: seq<PsxExe>, layer: PlanLayer, exe: PsxExe, ram: Bytes, ram': Bytes,
                 initial: Option<(u32, u32)>, rootRegion: Option<Option<RefreshRate>>, initialOrigin: Origin,
                 rootOrigin: Origin)
    requires |exes| == |layers| && Applied(layers, exes, ram, initial, rootRegion, initialOrigin, rootOrigin)
    requires exe.start + |exe.text| <= RAM_SIZE && ram' == Splice(ram, exe.start, exe.text)
    ensures Applied(layers + [layer], exes + [exe], ram',
                    if layer.origin == initialOrigin then Some((exe.pc, exe.sp)) else initial,
                    if layer.origin == rootOrigin then Some(exe.region) else rootRegion, initialOrigin, rootOrigin)
  {
    assert (layers + [layer])[..|layers|] == layers && (exes + [exe])[..|exes|] == exes;
  }

  /** Applies a PSF1 plan: later layers overwrite earlier ones. */
  method FromPlan(layers: seq<PlanLayer>, initialStateOrigin: Origin, rootOrigin: Origin,
                  refreshOverride: Option<RefreshRate>, regionOf: Bytes -> Option<RefreshRate>)
    returns (r: Result<ExecutableImage, ImageError>, ghost exes: seq<PsxExe>)
    ensures r.Ok? ==> Parsed(layers, exes, regionOf) && |r.value.ram| == RAM_SIZE
    ensures r.Ok? ==> forall a :: 0 <= a < RAM_SIZE ==> r.value.ram[a] == RamByte(exes, a)
    ensures r.Ok? ==>
              var k := LastOf(layers, initialStateOrigin);
              k >= 0 && r.value.pc == exes[k].pc && r.value.sp == exes[k].sp
    ensures r.Ok? ==>
              if refreshOverride.Some? then r.value.refresh == refreshOverride.value
              else
                var k := LastOf(layers, rootOrigin);
                k >= 0 && exes[k].region == Some(r.value.refresh)
    ensures r.Ok? <==>
            && AllParse(layers, regionOf) && LastOf(layers, initialStateOrigin) >= 0
            && (refreshOverride.Some? || RootRegion(layers, rootOrigin, regionOf).Some?)
    ensures r == Err(MissingInitialLayer) <==> AllParse(layers, regionOf) && LastOf(layers, initialStateOrigin) < 0
    ensures r == Err(UnknownRootRegion) <==>
            && AllParse(layers, regionOf) && LastOf(layers, initialStateOrigin) >= 0
            && refreshOverride.None? && RootRegion(layers, rootOrigin, regionOf).None?
    ensures r.Err? && r.error.InvalidExecutable? <==> !AllParse(layers, regionOf)
    ensures r.Err? && r.error.InvalidExecutable? ==>
              exists k :: FirstInvalid(layers, k, regionOf) && layers[k].origin == r.error.origin
                          && ParseExe(layers[k].container.program, regionOf) == Err(r.error.error)
  {
    hide Applied, ParseExe, RamByte, LastOf;
    var ram := new u8[RAM_SIZE](_ => 0);
    exes := [];
    var initial: Option<(u32, u32)>, rootRegion: Option<Option<RefreshRate>> := None, None;
    NothingApplied(ram[..], initialStateOrigin, rootOrigin);
    assert layers[..0] == [];
    for k := 0 to |layers|
      invariant Parsed(layers[..k], exes, regionOf)
      invariant Applied(layers[..k], exes, ram[..], initial, rootRegion, initialStateOrigin, rootOrigin)
    {
      var exe := ParseExe(layers[k].container.program, regionOf);
      if exe.Err? {
        FirstAt(layers, exes, k, regionOf);
        return Err(InvalidExecutable(layers[k].origin, exe.error)), exes;
      }
      initial, rootRegion := ApplyLayer(layers, k, exes, exe.value, ram, initial, rootRegion, initialStateOrigin,
                                        rootOrigin, regionOf);
      exes := exes + [exe.value];
    }
    assert layers[..|layers|] == layers;
    r := Finish(layers, exes, ram[..], initial, rootRegion, initialStateOrigin, rootOrigin, refreshOverride, regionOf);
  }

  /** The first layer that does not parse, all before it having parsed. */
  lemma FirstAt(layers: seq<PlanLayer>, exes: seq<PsxExe>, k: nat, regionOf: Bytes -> Option<RefreshRate>)
    requires k < |layers| && Parsed(layers[..k], exes, regionOf) && ParseExe(layers[k].container.program, regionOf).Err?
    ensures FirstInvalid(layers, k, regionOf) && !AllParse(layers, regionOf)
  {
    hide ParseExe;
  }

  /** Copies one layer's text and takes over its start state and region where it is the layer that decides them. */
  method ApplyLayer(layers: seq<PlanLayer>, k: nat, ghost exes: seq<PsxExe>, exe: PsxExe, ram: array<u8>,
                    initial: Option<(u32, u32)>, rootRegion: Option<Option<RefreshRate>>, initialOrigin: Origin,
                    rootOrigin: Origin, ghost regionOf: Bytes -> Option<RefreshRate>)
    returns (initial': Option<(u32, u32)>, rootRegion': Option<Option<RefreshRate>>)
    requires k < |layers| && ram.Length == RAM_SIZE && Parsed(layers[..k], exes, regionOf)
    requires ParseExe(layers[k].container.program, regionOf) == Ok(exe)
    requires Applied(layers[..k], exes, ram[..], initial, rootRegion, initialOrigin, rootOrigin)
    modifies ram
    ensures Parsed(layers[..k + 1], exes + [exe], regionOf)
    ensures Applied(layers[..k + 1], exes + [exe], ram[..], initial', rootRegion', initialOrigin, rootOrigin)
  {
    hide Applied, ParseExe, RamByte, LastOf;
    var layer := layers[k];
    OneLayer(layers[..k], exes, layer, exe, ram[..], Splice(ram[..], exe.start, exe.text),
             initial, rootRegion, initialOrigin, rootOrigin);
    initial' := if layer.origin == initialOrigin then Some((exe.pc, exe.sp)) else initial;
    rootRegion' := if layer.origin == rootOrigin then Some(exe.region) else rootRegion;
    CopyText(ram, exe.start, exe.text);
    assert layers[..k + 1] == layers[..k] + [layer];
  }

  method Finish(ghost layers: seq<PlanLayer>, ghost exes: seq<PsxExe>, ram: Bytes, initial: Option<(u32, u32)>,
                rootRegion: Option<Option<RefreshRate>>, ghost initialOrigin: Origin, ghost rootOrigin: Origin,
                refreshOverride: Option<RefreshRate>, ghost regionOf: Bytes -> Option<RefreshRate>)
    returns (r: Result<ExecutableImage, ImageError>)
    requires Parsed(layers, exes, regionOf)
    requires Applied(layers, exes, ram, initial, rootRegion, initialOrigin, rootOrigin)
    ensures r.Ok? ==> |r.value.ram| == RAM_SIZE && forall a :: 0 <= a < RAM_SIZE ==> r.value.ram[a] == RamByte(exes, a)
    ensures r.Ok? ==> LastOf(layers, initialOrigin) >= 0
                      && r.value.pc == exes[LastOf(layers, initialOrigin)].pc
                      && r.value.sp == exes[LastOf(layers, initialOrigin)].sp
    ensures r.Ok? ==>
              if refreshOverride.Some? then r.value.refresh == refreshOverride.value
              else
                var k := LastOf(layers, rootOrigin);
                k >= 0 && exes[k].region == Some(r.value.refresh)
    ensures r == Err(MissingInitialLayer) <==> LastOf(layers, initialOrigin) < 0
    ensures r == Err(UnknownRootRegion) <==>
            LastOf(layers, initialOrigin) >= 0 && refreshOverride.None?
            && RootRegion(layers, rootOrigin, regionOf).None?
    ensures r.Err? ==> !r.error.InvalidExecutable?
  {
    hide ParseExe, RamByte, LastOf;
    if initial.None? {
      return Err(MissingInitialLayer);
    }
    var region := if rootRegion.Some? then rootRegion.value else None;
    var refresh := Or(refreshOverride, region);
    if refresh.None? {
      return Err(UnknownRootRegion);
    }
    return Ok(ExecutableImage(ram, initial.value.0, initial.value.1, refresh.value));
  }

  lemma NothingApplied(ram: Bytes, initialOrigin: Origin, rootOrigin: Origin)
    requires |ram| == RAM_SIZE && forall a :: 0 <= a < RAM_SIZE ==> ram[a] == 0
    ensures Applied([], [], ram, None, None, initialOrigin, rootOrigin)
  {
  }

  method CopyText(ram: array<u8>, start: nat, text: Bytes)
    requires start + |text| <= ram.Length
    modifies ram
    ensures ram[..] == Splice(old(ram[..]), start, text)
  {
    forall k | 0 <= k < |text| {
      ram[start + k] := text[k];
    }
    assert ram[..] == Splice(old(ram[..]), start, text);
  }

  /**
   * A plan made by the loader always has its initial layer, so that error never occurs: only an invalid executable
   * or an unknown refresh rate stops it.
   */
  method LoadExecutable(rootOrigin: Origin, rootBytes: Bytes, world: World, limits: DependencyLimits,
                        regionOf: Bytes -> Option<RefreshRate>)
    returns (planned: Result<LoadPlan, LoadError>, image: Option<Result<ExecutableImage, ImageError>>)
    ensures image.Some? <==> planned.Ok? && planned.value.Psf1Plan?
    ensures image.Some? ==> image.value != Err(MissingInitialLayer)
    ensures image.Some? ==>
              var plan := planned.value;
              image.value.Ok? <==> && AllParse(plan.layers, regionOf)
                                   && (plan.refresh.Some? || RootRegion(plan.layers, plan.rootOrigin, regionOf).Some?)
  {
    hide Planned, Parsed, RamByte, ParseExe, AllParse, Order1, Order2, Count, Size, FirstRefresh, Initial, RootRegion;
    var plan, t := MakePlan(rootOrigin, rootBytes, world, limits);
    planned := plan;
    image := None;
    if plan.Ok? && plan.value.Psf1Plan? {
      Psf1PlanShape(plan.value, t, world, limits, rootOrigin, rootBytes);
      var built, exes := FromPlan(plan.value.layers, plan.value.initialStateOrigin, rootOrigin, plan.value.refresh,
                                  regionOf);
      image := Some(built);
    }
  }
}
