/** Loadcore module descriptors, their guest encoding, and the registry's data. */
module ModuleRecords {
  import opened Machine
  import opened LittleEndian
  import opened KernelErrors
  import opened BlockLayout
  import opened SonyChain
  import opened LinkTables

  const MODULE_INFO_SIZE := 48
  const MODULE_HEAD_ADDRESS := 0x260

  datatype BiosError = Irx(cause: IrxError) | Kernel(code: KernelError) | GuestFailure | InvalidState

  datatype ModuleState =
    | Loaded | Starting | Resident | Removable | Stopping | Stopped | StoppedRemovable | NotResident

  datatype ResidentState = Unstarted | ResidentEnd | NotResidentEnd | RemovableEnd

  function NewFlags(s: ModuleState): u16
  {
    match s
    case Loaded => 1
    case Starting => 2
    case Resident => 3
    case Removable => 0x13
    case Stopping => 0x15
    case Stopped => 7
    case StoppedRemovable => 0x17
    case NotResident => 6
  }

  /** Guest code can tell every lifecycle state apart by the flags word alone. */
  lemma FlagsDistinguishStates(a: ModuleState, b: ModuleState)
    ensures NewFlags(a) == NewFlags(b) ==> a == b
  {
  }

  datatype ModuleInfo = ModuleInfo(
    next: u32, name: u32, version: u16, newFlags: u16, id: u16, flags: u16,
    entry: u32, globalPointer: u32, textStart: u32, textSize: u32, dataSize: u32, bssSize: u32,
    unused1: u32, unused2: u32)

  /** The fields after the flags word. */
  function EncodeTail(i: ModuleInfo): (s: seq<u8>)
    ensures |s| == 36
  {
    EncodeU16(i.id) + EncodeU16(i.flags) + EncodeU32(i.entry) + EncodeU32(i.globalPointer)
    + EncodeU32(i.textStart) + EncodeU32(i.textSize) + EncodeU32(i.dataSize) + EncodeU32(i.bssSize)
    + EncodeU32(i.unused1) + EncodeU32(i.unused2)
  }

  /** The 48-byte little-endian descriptor visible to IOP code. */
  function Encode(i: ModuleInfo): (s: seq<u8>)
    ensures |s| == MODULE_INFO_SIZE
  {
    EncodeU32(i.next) + EncodeU32(i.name) + EncodeU16(i.version) + EncodeU16(i.newFlags) + EncodeTail(i)
  }

  /** What guest code reads at `a`, word by word. */
  predicate Reads(mem: seq<u8>, a: int, i: ModuleInfo)
  {
    && 0 <= a && a + 48 <= |mem|
    && U32At(mem, a) == i.next && U32At(mem, a + 4) == i.name
    && U16At(mem, a + 8) == i.version && U16At(mem, a + 10) == i.newFlags
    && U16At(mem, a + 12) == i.id && U16At(mem, a + 14) == i.flags
    && U32At(mem, a + 16) == i.entry && U32At(mem, a + 20) == i.globalPointer
    && U32At(mem, a + 24) == i.textStart && U32At(mem, a + 28) == i.textSize
    && U32At(mem, a + 32) == i.dataSize && U32At(mem, a + 36) == i.bssSize
    && U32At(mem, a + 40) == i.unused1 && U32At(mem, a + 44) == i.unused2
  }

  lemma WordInside(mem: seq<u8>, a: nat, e: seq<u8>, k: nat, v: u32)
    requires a + |e| <= |mem| && mem[a..a + |e|] == e && k + 4 <= |e| && e[k..k + 4] == EncodeU32(v)
    ensures U32At(mem, a + k) == v
  {
    U32RoundTrip(v);
    var w := EncodeU32(v);
    assert e[k] == w[0] && e[k + 1] == w[1] && e[k + 2] == w[2] && e[k + 3] == w[3];
    assert mem[a..a + |e|][k] == mem[a + k] && mem[a..a + |e|][k + 1] == mem[a + k + 1];
    assert mem[a..a + |e|][k + 2] == mem[a + k + 2] && mem[a..a + |e|][k + 3] == mem[a + k + 3];
  }

  lemma HalfInside(mem: seq<u8>, a: nat, e: seq<u8>, k: nat, v: u16)
    requires a + |e| <= |mem| && mem[a..a + |e|] == e && k + 2 <= |e| && e[k..k + 2] == EncodeU16(v)
    ensures U16At(mem, a + k) == v
  {
    var w := EncodeU16(v);
    assert e[k] == w[0] && e[k + 1] == w[1];
    assert mem[a..a + |e|][k] == mem[a + k] && mem[a..a + |e|][k + 1] == mem[a + k + 1];
  }

  /** A descriptor in memory reads back field by field. */
  lemma EncodedReads(mem: seq<u8>, a: nat, i: ModuleInfo)
    requires a + MODULE_INFO_SIZE <= |mem| && mem[a..a + MODULE_INFO_SIZE] == Encode(i)
    ensures Reads(mem, a, i)
  {
    hide EncodeU16, EncodeU32, U16At, U32At, EncodeTail;
    var e := Encode(i);
    WordInside(mem, a, e, 0, i.next);
    WordInside(mem, a, e, 4, i.name);
    HalfInside(mem, a, e, 8, i.version);
    HalfInside(mem, a, e, 10, i.newFlags);
    assert mem[a..a + MODULE_INFO_SIZE][12..] == mem[a + 12..a + 48] == EncodeTail(i);
    TailReads(mem, a + 12, i);
  }

  lemma TailReads(mem: seq<u8>, a: nat, i: ModuleInfo)
    requires a + 36 <= |mem| && mem[a..a + 36] == EncodeTail(i)
    ensures U16At(mem, a) == i.id && U16At(mem, a + 2) == i.flags
    ensures U32At(mem, a + 4) == i.entry && U32At(mem, a + 8) == i.globalPointer
    ensures U32At(mem, a + 12) == i.textStart && U32At(mem, a + 16) == i.textSize
    ensures U32At(mem, a + 20) == i.dataSize && U32At(mem, a + 24) == i.bssSize
    ensures U32At(mem, a + 28) == i.unused1 && U32At(mem, a + 32) == i.unused2
  {
    hide EncodeU16, EncodeU32, U16At, U32At;
    var e := EncodeTail(i);
    HalfInside(mem, a, e, 0, i.id);
    HalfInside(mem, a, e, 2, i.flags);
    WordInside(mem, a, e, 4, i.entry);
    WordInside(mem, a, e, 8, i.globalPointer);
    WordInside(mem, a, e, 12, i.textStart);
    WordInside(mem, a, e, 16, i.textSize);
    WordInside(mem, a, e, 20, i.dataSize);
    WordInside(mem, a, e, 24, i.bssSize);
    WordInside(mem, a, e, 28, i.unused1);
    WordInside(mem, a, e, 32, i.unused2);
  }

  /** Writing the flags halfword at offset 10 is the encoding of the changed record. */
  lemma EncodeFlags(i: ModuleInfo, flags: u16)
    ensures Splice(Encode(i), 10, EncodeU16(flags)) == Encode(i.(newFlags := flags))
  {
  }

  /** Writing the link word at offset 0 is the encoding of the relinked record. */
  lemma EncodeNext(i: ModuleInfo, next: u32)
    ensures Splice(Encode(i), 0, EncodeU32(next)) == Encode(i.(next := next))
    ensures U32At(Encode(i), 0) == i.next
  {
    hide EncodeU16, EncodeU32, EncodeTail, U32At;
    assert EncodeTail(i.(next := next)) == EncodeTail(i) by {
      TailApart(i, next);
    }
    U32RoundTrip(i.next);
    var e := EncodeU32(i.next);
    WordFrom(Encode(i), e);
  }

  lemma TailApart(i: ModuleInfo, next: u32)
    ensures EncodeTail(i.(next := next)) == EncodeTail(i)
  {
  }

  lemma WordFrom(s: seq<u8>, e: seq<u8>)
    requires |e| == 4 && e <= s
    ensures U32At(s, 0) == U32At(e, 0)
  {
  }

  datatype ExportRegistration = ExportRegistration(
    moduleId: u32, name: Name, version: u16, mode: u16, tableAddress: u32, functions: seq<u32>, users: u32)

  function Register(moduleId: u32, e: ExportLibrary): ExportRegistration
  {
    ExportRegistration(moduleId, e.name, e.version, e.mode, e.tableAddress, e.functions, 0)
  }

  datatype ModuleRecord = ModuleRecord(
    id: u32, name: Name, version: u16, state: ModuleState, infoAddress: u32, info: ModuleInfo,
    metadata: Allocation, image: Allocation, imports: seq<ImportLibrary>, exportIds: seq<u32>)
  {
    /** Descriptor followed by the null-terminated name. */
    function GuestBytes(): (s: seq<u8>)
      ensures |s| == MODULE_INFO_SIZE + |name| + 1
    {
      Encode(info) + name + [0]
    }
  }

  predicate ValidModuleName(name: Name)
  {
    0 < |name| <= 127 && forall c :: c in name ==> 32 <= c <= 126
  }

  predicate ValidLibraryName(name: Name)
  {
    0 < |name| <= 8 && forall c :: c in name ==> 33 <= c <= 126
  }
}

/** The registry as plain values, and the consistency every operation keeps. */
module RegistryState {
  import opened Machine
  import opened Wrappers
  import opened LittleEndian
  import opened Counting
  import opened BlockLayout
  import opened ModuleRecords

  /**
   * Host tables, guest memory and the allocator seen at one moment. `order` lists the live
   * modules, newest first: the order the guest finds them in.
   */
  datatype Snapshot = Snapshot(
    modules: seq<Option<ModuleRecord>>,
    libraries: seq<Option<ExportRegistration>>,
    order: seq<ModuleRecord>,
    head: u32,
    slots: seq<Option<Allocation>>,
    arenaStart: u32,
    arenaEnd: u32,
    mem: seq<u8>)

  /** Every listed record is stored under its own identifier. */
  ghost predicate TableHolds(modules: seq<Option<ModuleRecord>>, order: seq<ModuleRecord>)
  {
    forall k :: 0 <= k < |order| ==> 1 <= order[k].id <= |modules| && modules[order[k].id - 1] == Some(order[k])
  }

  /** Every stored record carries its slot's identifier and is listed. */
  ghost predicate TableListed(modules: seq<Option<ModuleRecord>>, order: seq<ModuleRecord>)
  {
    forall i :: 0 <= i < |modules| && modules[i].Some? ==> modules[i].value.id == i + 1 && modules[i].value in order
  }

  ghost predicate DistinctIds(order: seq<ModuleRecord>)
  {
    forall j, k :: 0 <= j < k < |order| ==> order[j].id != order[k].id
  }

  /** The module table holds exactly the listed records. */
  ghost predicate TableMatches(modules: seq<Option<ModuleRecord>>, order: seq<ModuleRecord>)
  {
    TableHolds(modules, order) && TableListed(modules, order) && DistinctIds(order)
  }

  function HeadOf(order: seq<ModuleRecord>): int
  {
    if order == [] then 0 else order[0].infoAddress
  }

  /** Each descriptor links to the next older one; the oldest ends the list. */
  ghost predicate Linked(order: seq<ModuleRecord>)
  {
    forall k :: 0 <= k < |order| ==> order[k].info.next == NextAddress(order, k)
  }

  function NextAddress(order: seq<ModuleRecord>, k: nat): int
  {
    if k + 1 < |order| then order[k + 1].infoAddress else 0
  }

  /** Host-side coherence of one record. */
  ghost predicate RecordOk(r: ModuleRecord)
  {
    && r.infoAddress == r.metadata.address
    && r.metadata.requestedSize == MODULE_INFO_SIZE + |r.name| + 1
    && r.info.newFlags == NewFlags(r.state)
    && r.info.id == r.id
    && r.info.name == r.infoAddress + MODULE_INFO_SIZE
    && r.state != Stopped
  }

  /** Guest memory holds the encoded descriptor and the name right behind it. */
  ghost predicate Mirrored(mem: seq<u8>, r: ModuleRecord)
  {
    && r.infoAddress + |r.GuestBytes()| <= |mem|
    && mem[r.infoAddress..r.infoAddress + |r.GuestBytes()|] == r.GuestBytes()
  }

  /** Every module owns two live blocks and no block is owned twice. */
  ghost predicate Owned(order: seq<ModuleRecord>, slots: seq<Option<Allocation>>)
  {
    && (forall k :: 0 <= k < |order| ==> Live(slots, order[k].metadata) && Live(slots, order[k].image))
    && (forall j, k :: 0 <= j < |order| && 0 <= k < |order| ==> order[j].metadata.address != order[k].image.address)
    && (forall j, k :: 0 <= j < k < |order| ==>
                         order[j].metadata.address != order[k].metadata.address
                         && order[j].image.address != order[k].image.address)
  }

  ghost predicate OwnsExports(libraries: seq<Option<ExportRegistration>>, r: ModuleRecord)
  {
    && Distinct(r.exportIds)
    && forall x :: x in r.exportIds ==>
                     1 <= x <= |libraries| && libraries[x - 1].Some? && libraries[x - 1].value.moduleId == r.id
  }

  ghost predicate UniqueNames(libraries: seq<Option<ExportRegistration>>)
  {
    forall i, j :: 0 <= i < j < |libraries| && libraries[i].Some? && libraries[j].Some? ==>
                     libraries[i].value.name != libraries[j].value.name
  }

  ghost predicate HeadStored(mem: seq<u8>, head: u32)
  {
    MODULE_HEAD_ADDRESS + 4 <= |mem| && mem[MODULE_HEAD_ADDRESS..MODULE_HEAD_ADDRESS + 4] == EncodeU32(head)
  }

  ghost predicate AllOk(order: seq<ModuleRecord>)
  {
    forall k :: 0 <= k < |order| ==> RecordOk(order[k])
  }

  ghost predicate AllOwnExports(libraries: seq<Option<ExportRegistration>>, order: seq<ModuleRecord>)
  {
    forall k :: 0 <= k < |order| ==> OwnsExports(libraries, order[k])
  }

  ghost predicate AllMirrored(mem: seq<u8>, order: seq<ModuleRecord>)
  {
    forall k :: 0 <= k < |order| ==> Mirrored(mem, order[k])
  }

  ghost predicate HostConsistent(modules: seq<Option<ModuleRecord>>, libraries: seq<Option<ExportRegistration>>,
                                 order: seq<ModuleRecord>, head: u32)
  {
    (&& TableMatches(modules, order)
     && Linked(order)
     && head == HeadOf(order)
     && AllOk(order)
     && AllOwnExports(libraries, order)
     && UniqueNames(libraries)) == true
  }

  ghost predicate GuestConsistent(mem: seq<u8>, order: seq<ModuleRecord>, head: u32)
  {
    (HeadStored(mem, head) && AllMirrored(mem, order)) == true
  }

  ghost predicate MemoryConsistent(slots: seq<Option<Allocation>>, start: u32, end: u32, order: seq<ModuleRecord>)
  {
    (MODULE_HEAD_ADDRESS + 4 <= start <= end && Disjoint(slots, start, end) && Owned(order, slots)) == true
  }

  /**
   * The registry invariant. In these three parts, comparing with `true` keeps the verifier from
   * splitting the conjunction again at every call.
   */
  ghost predicate Consistent(s: Snapshot)
  {
    && HostConsistent(s.modules, s.libraries, s.order, s.head)
    && GuestConsistent(s.mem, s.order, s.head)
    && MemoryConsistent(s.slots, s.arenaStart, s.arenaEnd, s.order)
  }

  // ----- What guest code sees

  /** Follows `next` words through guest memory from `at`; `None` if the walk runs off or too long. */
  function Walk(mem: seq<u8>, at: int, fuel: nat): Option<seq<int>>
    decreases fuel
  {
    if at == 0 then Some([])
    else if fuel == 0 || at < 0 || at + 4 > |mem| then None
    else
      match Walk(mem, U32At(mem, at), fuel - 1)
      case None => None
      case Some(rest) => Some([at] + rest)
  }

  function Addresses(order: seq<ModuleRecord>): (r: seq<int>)
    ensures |r| == |order|
    ensures forall k :: 0 <= k < |order| ==> r[k] == order[k].infoAddress
  {
    seq(|order|, k requires 0 <= k < |order| => order[k].infoAddress)
  }

  lemma SliceWord(mem: seq<u8>, at: nat, bytes: seq<u8>)
    requires 4 <= |bytes| && at + |bytes| <= |mem| && mem[at..at + |bytes|] == bytes
    ensures U32At(mem, at) == U32At(bytes, 0)
  {
  }

  lemma NextInGuest(mem: seq<u8>, r: ModuleRecord)
    requires Mirrored(mem, r)
    ensures U32At(mem, r.infoAddress) == r.info.next
    ensures mem[r.infoAddress..r.infoAddress + MODULE_INFO_SIZE] == Encode(r.info)
  {
    hide Encode, U32At;
    EncodeNext(r.info, 0);
    var a, e := r.infoAddress, Encode(r.info);
    assert r.GuestBytes()[..MODULE_INFO_SIZE] == e;
    assert mem[a..a + MODULE_INFO_SIZE] == mem[a..a + |r.GuestBytes()|][..MODULE_INFO_SIZE];
    SliceWord(mem, a, e);
  }

  lemma HostRecord(s: Snapshot, k: nat)
    requires Consistent(s) && k < |s.order|
    ensures RecordOk(s.order[k]) && s.order[k].info.next == NextAddress(s.order, k)
    ensures OwnsExports(s.libraries, s.order[k])
    ensures s.head == HeadOf(s.order)
  {
    hide TableMatches, UniqueNames, GuestConsistent, MemoryConsistent, RecordOk, OwnsExports;
  }

  lemma GuestRecord(s: Snapshot, k: nat)
    requires Consistent(s) && k < |s.order|
    ensures Mirrored(s.mem, s.order[k])
  {
    hide HostConsistent, MemoryConsistent, Mirrored, HeadStored;
  }

  lemma BlockRecord(s: Snapshot, k: nat)
    requires Consistent(s) && k < |s.order|
    ensures Live(s.slots, s.order[k].metadata) && Live(s.slots, s.order[k].image)
    ensures WellFormed(s.order[k].metadata, s.arenaStart, s.arenaEnd)
    ensures MODULE_HEAD_ADDRESS + 4 <= s.arenaStart <= s.arenaEnd
  {
    hide HostConsistent, GuestConsistent, Live, WellFormed, Disjoint;
    LiveWellFormed(s.slots, s.arenaStart, s.arenaEnd, s.order[k].metadata);
  }

  /** What the walk reads at the `k`-th descriptor. */
  lemma DescriptorAt(s: Snapshot, k: nat)
    requires Consistent(s) && k < |s.order|
    ensures var r := s.order[k];
            && 0 < r.infoAddress && r.infoAddress + MODULE_INFO_SIZE <= |s.mem|
            && U32At(s.mem, r.infoAddress) == NextAddress(s.order, k)
            && s.mem[r.infoAddress..r.infoAddress + MODULE_INFO_SIZE] == Encode(r.info)
            && Reads(s.mem, r.infoAddress, r.info) && r.info.newFlags == NewFlags(r.state)
  {
    hide Consistent, Encode, U32At, NewFlags, NextAddress, Reads;
    GuestRecord(s, k);
    HostRecord(s, k);
    BlockRecord(s, k);
    NextInGuest(s.mem, s.order[k]);
    EncodedReads(s.mem, s.order[k].infoAddress, s.order[k].info);
  }

  lemma {:induction false} WalkFrom(s: Snapshot, k: nat, fuel: nat)
    requires Consistent(s) && k <= |s.order| && fuel >= |s.order| - k
    ensures Walk(s.mem, if k < |s.order| then s.order[k].infoAddress else 0, fuel) == Some(Addresses(s.order[k..]))
    decreases |s.order| - k
  {
    hide Consistent, U32At, NewFlags;
    if k < |s.order| {
      DescriptorAt(s, k);
      WalkFrom(s, k + 1, fuel - 1);
      assert Addresses(s.order[k..]) == [s.order[k].infoAddress as int] + Addresses(s.order[k + 1..]);
    } else {
      assert Addresses(s.order[k..]) == [];
    }
  }

  /**
   * Walking guest RAM from the head word visits exactly the live modules' descriptors, once each,
   * newest first, ending at zero, and finds in each the encoding of the host record.
   */
  lemma GuestListIsModuleList(s: Snapshot, fuel: nat)
    requires Consistent(s) && fuel >= |s.order|
    ensures MODULE_HEAD_ADDRESS + 4 <= |s.mem|
    ensures Walk(s.mem, U32At(s.mem, MODULE_HEAD_ADDRESS), fuel) == Some(Addresses(s.order))
    ensures Distinct(Addresses(s.order))
    ensures forall i :: 0 <= i < |s.modules| && s.modules[i].Some? ==>
                          s.modules[i].value.infoAddress in Addresses(s.order)
    ensures forall k :: 0 <= k < |s.order| ==>
                          var a := Addresses(s.order)[k];
                          && 0 < a && a + MODULE_INFO_SIZE <= |s.mem|
                          && Reads(s.mem, a, s.order[k].info)
                          && s.order[k].info.newFlags == NewFlags(s.order[k].state)
  {
    hide Consistent, U32At, Encode, Walk, Addresses, NewFlags, Reads;
    StoredHead(s);
    AddressesDistinct(s);
    assert s.order[0..] == s.order;
    WalkFrom(s, 0, fuel);
    forall i | 0 <= i < |s.modules| && s.modules[i].Some?
      ensures s.modules[i].value.infoAddress in Addresses(s.order)
    {
      ListedRecord(s, i);
      var k :| 0 <= k < |s.order| && s.order[k] == s.modules[i].value;
      assert Addresses(s.order)[k] == s.order[k].infoAddress;
    }
    forall k | 0 <= k < |s.order|
      ensures var a := Addresses(s.order)[k];
              && 0 < a && a + MODULE_INFO_SIZE <= |s.mem|
              && Reads(s.mem, a, s.order[k].info)
              && s.order[k].info.newFlags == NewFlags(s.order[k].state)
    {
      DescriptorAt(s, k);
    }
  }

  lemma StoredHead(s: Snapshot)
    requires Consistent(s)
    ensures MODULE_HEAD_ADDRESS + 4 <= |s.mem|
    ensures U32At(s.mem, MODULE_HEAD_ADDRESS) == HeadOf(s.order)
  {
    hide TableMatches, Linked, AllOk, AllOwnExports, UniqueNames, MemoryConsistent, AllMirrored, EncodeU32, U32At;
    U32RoundTrip(s.head);
    SliceWord(s.mem, MODULE_HEAD_ADDRESS, EncodeU32(s.head));
  }

  lemma AddressesDistinct(s: Snapshot)
    requires Consistent(s)
    ensures Distinct(Addresses(s.order))
    ensures forall i :: 0 <= i < |s.modules| && s.modules[i].Some? ==>
                          s.modules[i].value.infoAddress in Addresses(s.order)
  {
  }

  lemma MetadataApart(s: Snapshot, j: nat, k: nat)
    requires Consistent(s) && j < |s.order| && k < |s.order| && j != k
    ensures s.order[j].infoAddress != s.order[k].infoAddress
    ensures s.order[j].metadata.address != s.order[k].metadata.address
  {
    hide TableMatches, Linked, UniqueNames, OwnsExports, GuestConsistent, Live, Disjoint;
    assert RecordOk(s.order[j]) && RecordOk(s.order[k]);
    if k < j {
      assert s.order[k].metadata.address != s.order[j].metadata.address;
    }
  }

  lemma ListedRecord(s: Snapshot, i: nat)
    requires Consistent(s) && i < |s.modules| && s.modules[i].Some?
    ensures s.modules[i].value in s.order && s.modules[i].value.id == i + 1
  {
    hide Linked, UniqueNames, OwnsExports, RecordOk, GuestConsistent, MemoryConsistent;
  }
}
