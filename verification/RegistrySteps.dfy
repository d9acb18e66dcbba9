/** Each registry operation, seen on values, keeps host tables, guest list and allocator consistent. */
module RegistrySteps {
  import opened Machine
  import opened Wrappers
  import opened LittleEndian
  import opened Alignment
  import opened Slots
  import opened BlockLayout
  import opened Allocator
  import opened ModuleRecords
  import opened RegistryState

  /** Byte `a` belongs to the arena and to no live block. */
  predicate FreeByte(s: Snapshot, a: int)
  {
    IsFreeRange(s.slots, s.arenaStart, s.arenaEnd, a, 1)
  }

  predicate InHeadWord(a: int)
  {
    MODULE_HEAD_ADDRESS <= a < MODULE_HEAD_ADDRESS + 4
  }

  /** Nothing outside free memory, and outside the head word, differs. */
  ghost predicate OnlyFreeTouched(s: Snapshot, mem: seq<u8>)
  {
    |mem| == |s.mem| && forall a :: 0 <= a < |mem| && !FreeByte(s, a) && !InHeadWord(a) ==> mem[a] == s.mem[a]
  }

  /** Bytes of a live block are not free. */
  lemma LiveNotFree(s: Snapshot, b: Allocation, a: int)
    requires Live(s.slots, b) && b.Contains(a)
    ensures !FreeByte(s, a)
  {
  }

  /** The descriptor and name of a live module sit inside its metadata block, clear of the head word. */
  lemma DescriptorInBlock(s: Snapshot, k: nat)
    requires Consistent(s) && k < |s.order|
    ensures var r := s.order[k];
            && Live(s.slots, r.metadata)
            && r.infoAddress == r.metadata.address
            && r.infoAddress + |r.GuestBytes()| <= r.metadata.End()
            && MODULE_HEAD_ADDRESS + 4 <= r.infoAddress
  {
    hide Consistent, Encode, NewFlags, IsPowerOfTwo, Aligned;
    HostRecord(s, k);
    BlockRecord(s, k);
  }

  lemma MirroredSame(mem: seq<u8>, mem': seq<u8>, r: ModuleRecord)
    requires Mirrored(mem, r) && |mem'| == |mem|
    requires forall a :: r.infoAddress <= a < r.infoAddress + |r.GuestBytes()| ==> mem'[a] == mem[a]
    ensures Mirrored(mem', r)
  {
  }

  /** Writes confined to free memory leave every published descriptor in place. */
  lemma DescriptorsSurvive(s: Snapshot, mem: seq<u8>)
    requires Consistent(s) && OnlyFreeTouched(s, mem)
    ensures AllMirrored(mem, s.order)
  {
    hide Consistent, Mirrored, FreeByte, Encode;
    forall k | 0 <= k < |s.order|
      ensures Mirrored(mem, s.order[k])
    {
      GuestRecord(s, k);
      var r := s.order[k];
      DescriptorInBlock(s, k);
      forall a | r.infoAddress <= a < r.infoAddress + |r.GuestBytes()|
        ensures 0 <= a < |mem| && mem[a] == s.mem[a]
      {
        LiveNotFree(s, r.metadata, a);
        TouchedAt(s, mem, r, a);
      }
      MirroredSame(s.mem, mem, r);
    }
  }

  lemma TouchedAt(s: Snapshot, mem: seq<u8>, r: ModuleRecord, a: int)
    requires OnlyFreeTouched(s, mem) && Mirrored(s.mem, r)
    requires r.infoAddress <= a < r.infoAddress + |r.GuestBytes()|
    requires !FreeByte(s, a) && !InHeadWord(a)
    ensures 0 <= a < |mem| == |s.mem| && mem[a] == s.mem[a]
  {
  }

  /** A refused or rolled-back load may scribble on free memory; nothing published changes. */
  lemma ScratchWrites(s: Snapshot, mem: seq<u8>)
    requires Consistent(s) && OnlyFreeTouched(s, mem)
    requires forall a :: InHeadWord(a) && a < |mem| ==> mem[a] == s.mem[a]
    ensures Consistent(s.(mem := mem))
  {
    hide HostConsistent, MemoryConsistent, Mirrored, FreeByte;
    DescriptorsSurvive(s, mem);
    var h := MODULE_HEAD_ADDRESS;
    assert HeadStored(s.mem, s.head);
    assert mem[h..h + 4] == s.mem[h..h + 4];
  }

  // ----- Lifecycle state changes

  function WithState(r: ModuleRecord, state: ModuleState): ModuleRecord
  {
    r.(state := state, info := r.info.(newFlags := NewFlags(state)))
  }

  /** One lifecycle change: the record in table and list, and its flags halfword in guest memory. */
  ghost predicate StateSet(s: Snapshot, s': Snapshot, k: nat, state: ModuleState)
  {
    && k < |s.order| && 1 <= s.order[k].id <= |s.modules|
    && s'.modules == s.modules[s.order[k].id - 1 := Some(WithState(s.order[k], state))]
    && s'.order == s.order[k := WithState(s.order[k], state)]
    && FlagsWritten(s.mem, s'.mem, s.order[k].infoAddress, NewFlags(state))
    && s'.libraries == s.libraries && s'.head == s.head && SameArena(s, s')
  }

  ghost predicate SameArena(s: Snapshot, s': Snapshot)
  {
    s'.slots == s.slots && s'.arenaStart == s.arenaStart && s'.arenaEnd == s.arenaEnd
  }

  ghost predicate FlagsWritten(mem: seq<u8>, mem': seq<u8>, infoAddress: u32, flags: u16)
  {
    infoAddress + 12 <= |mem| && mem' == Splice(mem, infoAddress + 10, EncodeU16(flags))
  }

  lemma ReplaceInTable(modules: seq<Option<ModuleRecord>>, order: seq<ModuleRecord>, k: nat, r: ModuleRecord)
    requires TableMatches(modules, order) && k < |order| && r.id == order[k].id
    ensures 1 <= r.id <= |modules|
    ensures TableMatches(modules[r.id - 1 := Some(r)], order[k := r])
  {
    hide TableHolds, TableListed, DistinctIds;
    TableBounds(modules, order, k);
    ReplaceHolds(modules, order, k, r);
    ReplaceListed(modules, order, k, r);
    ReplaceDistinct(order, k, r);
  }

  lemma ReplaceHolds(modules: seq<Option<ModuleRecord>>, order: seq<ModuleRecord>, k: nat, r: ModuleRecord)
    requires TableHolds(modules, order) && DistinctIds(order) && k < |order| && r.id == order[k].id
    requires 1 <= r.id <= |modules|
    ensures TableHolds(modules[r.id - 1 := Some(r)], order[k := r])
  {
  }

  lemma ReplaceListed(modules: seq<Option<ModuleRecord>>, order: seq<ModuleRecord>, k: nat, r: ModuleRecord)
    requires TableListed(modules, order) && k < |order| && r.id == order[k].id && 1 <= r.id <= |modules|
    ensures TableListed(modules[r.id - 1 := Some(r)], order[k := r])
  {
    var modules', order' := modules[r.id - 1 := Some(r)], order[k := r];
    assert order'[k] == r;
    forall i | 0 <= i < |modules'| && modules'[i].Some?
      ensures modules'[i].value.id == i + 1 && modules'[i].value in order'
    {
      if i != r.id - 1 {
        var j := ListedAt(modules, order, i);
        assert order'[j] == order[j];
      }
    }
  }

  lemma ReplaceDistinct(order: seq<ModuleRecord>, k: nat, r: ModuleRecord)
    requires DistinctIds(order) && k < |order| && r.id == order[k].id
    ensures DistinctIds(order[k := r])
  {
  }

  lemma ListedAt(modules: seq<Option<ModuleRecord>>, order: seq<ModuleRecord>, i: nat) returns (k: nat)
    requires TableListed(modules, order) && i < |modules| && modules[i].Some?
    ensures k < |order| && order[k] == modules[i].value && order[k].id == i + 1
  {
    assert modules[i].value in order;
    k :| 0 <= k < |order| && order[k] == modules[i].value;
  }

  lemma TableBounds(modules: seq<Option<ModuleRecord>>, order: seq<ModuleRecord>, k: nat)
    requires TableMatches(modules, order) && k < |order|
    ensures 1 <= order[k].id <= |modules| && modules[order[k].id - 1] == Some(order[k])
  {
  }

  /** Replacing a record by one at the same address with the same link keeps the list linked. */
  lemma RelinkSame(order: seq<ModuleRecord>, k: nat, r: ModuleRecord)
    requires Linked(order) && k < |order|
    requires r.infoAddress == order[k].infoAddress && r.info.next == order[k].info.next
    ensures Linked(order[k := r]) && HeadOf(order[k := r]) == HeadOf(order)
  {
  }

  lemma MirrorFlags(mem: seq<u8>, r: ModuleRecord, state: ModuleState)
    requires Mirrored(mem, r)
    ensures Mirrored(Splice(mem, r.infoAddress + 10, EncodeU16(NewFlags(state))), WithState(r, state))
  {
    var r' := WithState(r, state);
    EncodeFlags(r.info, NewFlags(state));
    MirrorPatch(mem, r, r', 10, EncodeU16(NewFlags(state)));
  }

  /** Patching the stored descriptor in place stores the patched encoding. */
  lemma MirrorPatch(mem: seq<u8>, r: ModuleRecord, r': ModuleRecord, at: nat, data: seq<u8>)
    requires Mirrored(mem, r) && r'.infoAddress == r.infoAddress && r'.name == r.name
    requires at + |data| <= MODULE_INFO_SIZE && Encode(r'.info) == Splice(Encode(r.info), at, data)
    ensures Mirrored(Splice(mem, r.infoAddress + at, data), r')
  {
    hide Encode, NewFlags, Splice;
    SpliceInside(mem, r.infoAddress, r.GuestBytes(), at, data);
    assert r.GuestBytes() == Encode(r.info) + (r.name + [0]);
    assert r'.GuestBytes() == Encode(r'.info) + (r.name + [0]);
    SplicePrefix(Encode(r.info), r.name + [0], at, data);
  }

  lemma SpliceInside(mem: seq<u8>, lo: nat, bytes: seq<u8>, at: nat, data: seq<u8>)
    requires lo + |bytes| <= |mem| && mem[lo..lo + |bytes|] == bytes && at + |data| <= |bytes|
    ensures Splice(mem, lo + at, data)[lo..lo + |bytes|] == Splice(bytes, at, data)
  {
  }

  lemma SplicePrefix(a: seq<u8>, b: seq<u8>, at: nat, data: seq<u8>)
    requires at + |data| <= |a|
    ensures Splice(a + b, at, data) == Splice(a, at, data) + b
  {
  }

  /** Two live blocks that start at different addresses share no byte. */
  lemma BlocksApart(s: Snapshot, a: Allocation, b: Allocation)
    requires Consistent(s)
    requires Live(s.slots, a) && Live(s.slots, b) && a.address != b.address
    ensures Apart(a, b)
  {
  }

  /** Distinct modules keep their descriptors in disjoint ranges. */
  lemma DescriptorsApart(s: Snapshot, k: nat, j: nat)
    requires Consistent(s) && k < |s.order| && j < |s.order| && j != k
    ensures var a, b := s.order[k], s.order[j];
            a.infoAddress + |a.GuestBytes()| <= b.infoAddress || b.infoAddress + |b.GuestBytes()| <= a.infoAddress
  {
    hide Consistent, Encode, Live;
    DescriptorInBlock(s, k);
    DescriptorInBlock(s, j);
    MetadataApart(s, k, j);
    BlocksApart(s, s.order[k].metadata, s.order[j].metadata);
  }

  lemma MirroredAt(s: Snapshot, k: nat)
    requires Consistent(s) && k < |s.order|
    ensures Mirrored(s.mem, s.order[k]) && HeadStored(s.mem, s.head)
    ensures s.order[k].infoAddress + MODULE_INFO_SIZE <= |s.mem|
  {
    hide Encode, HostConsistent, MemoryConsistent;
    assert Mirrored(s.mem, s.order[k]);
  }

  lemma SpliceAside(mem: seq<u8>, r: ModuleRecord, at: nat, data: seq<u8>)
    requires Mirrored(mem, r) && at + |data| <= |mem|
    requires at + |data| <= r.infoAddress || r.infoAddress + |r.GuestBytes()| <= at
    ensures Mirrored(Splice(mem, at, data), r)
  {
  }

  /** Patching one module's descriptor disturbs no other descriptor. */
  lemma PatchElsewhere(s: Snapshot, k: nat, j: nat, at: nat, data: seq<u8>)
    requires Consistent(s) && k < |s.order| && j < |s.order| && j != k
    requires at + |data| <= MODULE_INFO_SIZE && s.order[k].infoAddress + MODULE_INFO_SIZE <= |s.mem|
    ensures Mirrored(Splice(s.mem, s.order[k].infoAddress + at, data), s.order[j])
  {
    hide Consistent, Encode;
    MirroredAt(s, k);
    MirroredAt(s, j);
    DescriptorsApart(s, k, j);
    SpliceAside(s.mem, s.order[j], s.order[k].infoAddress + at, data);
  }

  lemma HeadElsewhere(s: Snapshot, k: nat, at: nat, data: seq<u8>)
    requires Consistent(s) && k < |s.order|
    requires at + |data| <= MODULE_INFO_SIZE && s.order[k].infoAddress + MODULE_INFO_SIZE <= |s.mem|
    ensures HeadStored(Splice(s.mem, s.order[k].infoAddress + at, data), s.head)
  {
    hide Consistent, Encode, Mirrored;
    MirroredAt(s, k);
    DescriptorInBlock(s, k);
    var mem := Splice(s.mem, s.order[k].infoAddress + at, data);
    var h := MODULE_HEAD_ADDRESS;
    assert mem[h..h + 4] == s.mem[h..h + 4];
  }

  /** The tables and list after one record is replaced by a coherent one at the same address. */
  lemma ReplaceHost(s: Snapshot, k: nat, r: ModuleRecord)
    requires HostConsistent(s.modules, s.libraries, s.order, s.head) && k < |s.order|
    requires RecordOk(r) && r.id == s.order[k].id && r.exportIds == s.order[k].exportIds
    requires r.infoAddress == s.order[k].infoAddress && r.info.next == s.order[k].info.next
    ensures 1 <= r.id <= |s.modules|
    ensures HostConsistent(s.modules[r.id - 1 := Some(r)], s.libraries, s.order[k := r], s.head)
  {
    hide TableMatches, Linked, RecordOk, UniqueNames, HeadOf;
    TableBounds(s.modules, s.order, k);
    ReplaceInTable(s.modules, s.order, k, r);
    RelinkSame(s.order, k, r);
    assert OwnsExports(s.libraries, s.order[k]);
    assert OwnsExports(s.libraries, r);
  }

  lemma SetStateGuest(s: Snapshot, mem: seq<u8>, k: nat, state: ModuleState)
    requires Consistent(s) && k < |s.order|
    requires FlagsWritten(s.mem, mem, s.order[k].infoAddress, NewFlags(state))
    ensures GuestConsistent(mem, s.order[k := WithState(s.order[k], state)], s.head)
  {
    hide Consistent, Mirrored, HeadStored, NewFlags, WithState;
    MirroredAt(s, k);
    HeadElsewhere(s, k, 10, EncodeU16(NewFlags(state)));
    MirrorFlags(s.mem, s.order[k], state);
    forall j | 0 <= j < |s.order| && j != k
      ensures Mirrored(mem, s.order[j])
    {
      PatchElsewhere(s, k, j, 10, EncodeU16(NewFlags(state)));
    }
  }

  lemma WithStateOk(s: Snapshot, k: nat, state: ModuleState)
    requires Consistent(s) && k < |s.order| && state != Stopped
    ensures var r := WithState(s.order[k], state);
            && RecordOk(r) && r.id == s.order[k].id && r.exportIds == s.order[k].exportIds
            && r.infoAddress == s.order[k].infoAddress && r.info.next == s.order[k].info.next
            && r.metadata == s.order[k].metadata && r.image == s.order[k].image
  {
    hide Consistent;
    HostRecord(s, k);
  }

  lemma SetStateMemory(s: Snapshot, k: nat, state: ModuleState)
    requires MemoryConsistent(s.slots, s.arenaStart, s.arenaEnd, s.order) && k < |s.order|
    ensures MemoryConsistent(s.slots, s.arenaStart, s.arenaEnd, s.order[k := WithState(s.order[k], state)])
  {
  }

  lemma SetStateConsistent(s: Snapshot, s': Snapshot, k: nat, state: ModuleState)
    requires Consistent(s) && StateSet(s, s', k, state) && state != Stopped
    ensures Consistent(s')
  {
    hide HostConsistent, GuestConsistent, MemoryConsistent, RecordOk, NewFlags, WithState, FlagsWritten;
    hide TableMatches, Linked, HeadOf, AllOk, AllOwnExports, UniqueNames, HeadStored, AllMirrored, Disjoint, Owned;
    WithStateOk(s, k, state);
    ReplaceHost(s, k, WithState(s.order[k], state));
    SetStateGuest(s, s'.mem, k, state);
    SetStateMemory(s, k, state);
  }

  // ----- Loading

  /** Existing library registrations stay put; the new module owns its own, and names stay unique. */
  ghost predicate LibrariesAdded(before: seq<Option<ExportRegistration>>, after: seq<Option<ExportRegistration>>,
                                 r: ModuleRecord)
  {
    && |after| == |before|
    && (forall i :: 0 <= i < |before| && before[i].Some? ==> after[i] == before[i])
    && OwnsExports(after, r)
    && UniqueNames(after)
  }

  /** Two further blocks are live, apart from every earlier one. */
  ghost predicate BlocksAdded(before: seq<Option<Allocation>>, after: seq<Option<Allocation>>,
                              metadata: Allocation, image: Allocation)
  {
    && Live(after, metadata) && Live(after, image) && metadata.address != image.address
    && forall b :: Live(before, b) ==> Live(after, b) && b.address != metadata.address && b.address != image.address
  }

  /** A module published at the front of the list. */
  ghost predicate Published(s: Snapshot, s': Snapshot, r: ModuleRecord)
  {
    && 1 <= r.id <= |s.modules| && s.modules[r.id - 1].None?
    && RecordOk(r) && r.info.next == s.head
    && s'.modules == s.modules[r.id - 1 := Some(r)]
    && s'.order == [r] + s.order
    && s'.head == r.infoAddress
    && OnlyFreeTouched(s, s'.mem) && Mirrored(s'.mem, r) && HeadStored(s'.mem, s'.head)
    && LibrariesAdded(s.libraries, s'.libraries, r)
    && BlocksAdded(s.slots, s'.slots, r.metadata, r.image)
    && Disjoint(s'.slots, s.arenaStart, s.arenaEnd)
    && s'.arenaStart == s.arenaStart && s'.arenaEnd == s.arenaEnd
  }

  lemma InsertInTable(modules: seq<Option<ModuleRecord>>, order: seq<ModuleRecord>, r: ModuleRecord)
    requires TableMatches(modules, order)
    requires 1 <= r.id <= |modules| && modules[r.id - 1].None?
    ensures TableMatches(modules[r.id - 1 := Some(r)], [r] + order)
  {
    hide TableHolds, TableListed, DistinctIds;
    forall k | 0 <= k < |order|
      ensures order[k].id != r.id
    {
      TableBounds(modules, order, k);
    }
    InsertHolds(modules, order, r);
    InsertListed(modules, order, r);
    DistinctFront(order, r);
  }

  lemma InsertHolds(modules: seq<Option<ModuleRecord>>, order: seq<ModuleRecord>, r: ModuleRecord)
    requires TableHolds(modules, order) && 1 <= r.id <= |modules|
    requires forall k :: 0 <= k < |order| ==> order[k].id != r.id
    ensures TableHolds(modules[r.id - 1 := Some(r)], [r] + order)
  {
  }

  lemma InsertListed(modules: seq<Option<ModuleRecord>>, order: seq<ModuleRecord>, r: ModuleRecord)
    requires TableListed(modules, order) && 1 <= r.id <= |modules|
    ensures TableListed(modules[r.id - 1 := Some(r)], [r] + order)
  {
  }

  lemma DistinctFront(order: seq<ModuleRecord>, r: ModuleRecord)
    requires DistinctIds(order) && forall k :: 0 <= k < |order| ==> order[k].id != r.id
    ensures DistinctIds([r] + order)
  {
  }

  lemma LinkFront(order: seq<ModuleRecord>, r: ModuleRecord)
    requires Linked(order) && r.info.next == HeadOf(order)
    ensures Linked([r] + order) && HeadOf([r] + order) == r.infoAddress
  {
  }

  lemma OwnersKeepExports(before: seq<Option<ExportRegistration>>, after: seq<Option<ExportRegistration>>,
                          order: seq<ModuleRecord>, r: ModuleRecord)
    requires AllOwnExports(before, order) && LibrariesAdded(before, after, r)
    ensures AllOwnExports(after, [r] + order)
  {
  }

  lemma OwnFront(order: seq<ModuleRecord>, before: seq<Option<Allocation>>, after: seq<Option<Allocation>>,
                 r: ModuleRecord)
    requires Owned(order, before) && BlocksAdded(before, after, r.metadata, r.image)
    ensures Owned([r] + order, after)
  {
  }

  lemma PublishHost(s: Snapshot, s': Snapshot, r: ModuleRecord)
    requires HostConsistent(s.modules, s.libraries, s.order, s.head) && Published(s, s', r)
    ensures HostConsistent(s'.modules, s'.libraries, s'.order, s'.head)
  {
    hide Mirrored, HeadStored, OnlyFreeTouched, BlocksAdded, Disjoint, RecordOk, OwnsExports, UniqueNames;
    hide TableMatches, Linked, AllOwnExports;
    InsertInTable(s.modules, s.order, r);
    LinkFront(s.order, r);
    OwnersKeepExports(s.libraries, s'.libraries, s.order, r);
  }

  lemma PublishGuest(s: Snapshot, s': Snapshot, r: ModuleRecord)
    requires Consistent(s) && Published(s, s', r)
    ensures GuestConsistent(s'.mem, s'.order, s'.head)
  {
    hide HostConsistent, MemoryConsistent, GuestConsistent, Mirrored, HeadStored, OnlyFreeTouched, BlocksAdded,
         Disjoint;
    hide RecordOk, LibrariesAdded, Owned;
    DescriptorsSurvive(s, s'.mem);
    MirrorFront(s'.mem, s.order, r);
  }

  lemma MirrorFront(mem: seq<u8>, order: seq<ModuleRecord>, r: ModuleRecord)
    requires AllMirrored(mem, order) && Mirrored(mem, r) && HeadStored(mem, r.infoAddress)
    ensures GuestConsistent(mem, [r] + order, r.infoAddress)
  {
  }

  lemma PublishMemory(s: Snapshot, s': Snapshot, r: ModuleRecord)
    requires MemoryConsistent(s.slots, s.arenaStart, s.arenaEnd, s.order) && Published(s, s', r)
    ensures MemoryConsistent(s'.slots, s'.arenaStart, s'.arenaEnd, s'.order)
  {
    hide Mirrored, HeadStored, OnlyFreeTouched, BlocksAdded, Disjoint, RecordOk, LibrariesAdded, Owned;
    OwnFront(s.order, s.slots, s'.slots, r);
  }

  /** Publishing a module that owns fresh blocks keeps host, guest list and allocator consistent. */
  lemma PublishConsistent(s: Snapshot, s': Snapshot, r: ModuleRecord)
    requires Consistent(s) && Published(s, s', r)
    ensures Consistent(s')
  {
    hide HostConsistent, MemoryConsistent, GuestConsistent, Published;
    hide TableMatches, Linked, HeadOf, AllOk, AllOwnExports, UniqueNames, HeadStored, AllMirrored, Disjoint, Owned;
    PublishHost(s, s', r);
    PublishGuest(s, s', r);
    PublishMemory(s, s', r);
  }

  // ----- Unloading

  function WithNext(r: ModuleRecord, next: u32): ModuleRecord
  {
    r.(info := r.info.(next := next))
  }

  /** The list after the predecessor of entry `k` has been linked past it. */
  function Relinked(order: seq<ModuleRecord>, k: nat): (r: seq<ModuleRecord>)
    requires k < |order|
    ensures |r| == |order|
  {
    if k == 0 then order else order[k - 1 := WithNext(order[k - 1], order[k].info.next)]
  }

  function Without(order: seq<ModuleRecord>, k: nat): (r: seq<ModuleRecord>)
    requires k < |order|
    ensures |r| == |order| - 1
    ensures forall j :: 0 <= j < |r| ==> r[j] == Relinked(order, k)[if j < k then j else j + 1]
  {
    Relinked(order, k)[..k] + Relinked(order, k)[k + 1..]
  }

  ghost predicate LibrariesRemoved(before: seq<Option<ExportRegistration>>, after: seq<Option<ExportRegistration>>,
                                   ids: seq<u32>)
  {
    && |after| == |before|
    && forall i :: 0 <= i < |before| ==> after[i] == if i + 1 in ids then None else before[i]
  }

  ghost predicate BlocksReleased(before: seq<Option<Allocation>>, after: seq<Option<Allocation>>, r: ModuleRecord)
  {
    forall b :: Live(before, b) && b.address != r.metadata.address && b.address != r.image.address ==> Live(after, b)
  }

  /** The slot table without a module's image and metadata blocks. */
  function BothReleased(slots: seq<Option<Allocation>>, r: ModuleRecord): seq<Option<Allocation>>
  {
    Released(Released(slots, r.image.address), r.metadata.address)
  }

  lemma ReleasesBlocks(slots: seq<Option<Allocation>>, r: ModuleRecord)
    ensures BlocksReleased(slots, BothReleased(slots, r), r)
  {
    var after := BothReleased(slots, r);
    forall b | Live(slots, b) && b.address != r.metadata.address && b.address != r.image.address
      ensures Live(after, b)
    {
      var i :| 0 <= i < |slots| && slots[i] == Some(b);
      assert after[i] == Some(b);
    }
  }

  ghost predicate WordWritten(mem: seq<u8>, mem': seq<u8>, at: int, value: u32)
  {
    0 <= at && at + 4 <= |mem| && mem' == Splice(mem, at, EncodeU32(value))
  }

  ghost predicate TableWithout(modules: seq<Option<ModuleRecord>>, modules': seq<Option<ModuleRecord>>,
                               order: seq<ModuleRecord>, k: nat)
    requires k < |order|
  {
    && 1 <= order[k].id <= |modules|
    && (k > 0 ==> 1 <= order[k - 1].id <= |modules|)
    && modules' == (if k == 0 then modules
                    else modules[order[k - 1].id - 1 := Some(Relinked(order, k)[k - 1])])[order[k].id - 1 := None]
  }

  /** Entry `k` unlinked from tables and guest list, its libraries and blocks given back. */
  ghost predicate Unlinked(s: Snapshot, s': Snapshot, k: nat)
  {
    && k < |s.order|
    && TableWithout(s.modules, s'.modules, s.order, k)
    && s'.order == Without(s.order, k)
    && s'.head == (if k == 0 then s.order[0].info.next else s.head)
    && WordWritten(s.mem, s'.mem, if k == 0 then MODULE_HEAD_ADDRESS else s.order[k - 1].infoAddress,
                   s.order[k].info.next)
    && LibrariesRemoved(s.libraries, s'.libraries, s.order[k].exportIds)
    && s'.slots == BothReleased(s.slots, s.order[k])
    && Disjoint(s'.slots, s.arenaStart, s.arenaEnd)
    && s'.arenaStart == s.arenaStart && s'.arenaEnd == s.arenaEnd
  }

  lemma RemoveFromTable(modules: seq<Option<ModuleRecord>>, order: seq<ModuleRecord>, k: nat)
    requires TableMatches(modules, order) && k < |order|
    ensures 1 <= order[k].id <= |modules|
    ensures TableMatches(modules[order[k].id - 1 := None], order[..k] + order[k + 1..])
  {
  }

  lemma TableAfterUnlink(modules: seq<Option<ModuleRecord>>, modules': seq<Option<ModuleRecord>>,
                         order: seq<ModuleRecord>, k: nat)
    requires TableMatches(modules, order) && k < |order| && TableWithout(modules, modules', order, k)
    ensures TableMatches(modules', Without(order, k))
  {
    hide TableMatches;
    var order1 := Relinked(order, k);
    var modules1 := if k == 0 then modules else modules[order[k - 1].id - 1 := Some(order1[k - 1])];
    if k > 0 {
      ReplaceInTable(modules, order, k - 1, order1[k - 1]);
    }
    assert order1[k] == order[k];
    RemoveFromTable(modules1, order1, k);
  }

  lemma LinkedWithout(order: seq<ModuleRecord>, k: nat)
    requires Linked(order) && k < |order|
    ensures Linked(Without(order, k))
    ensures HeadOf(Without(order, k)) == if k == 0 then order[0].info.next else HeadOf(order)
  {
    var order' := Without(order, k);
    assert order[k].info.next == NextAddress(order, k);
    forall j | 0 <= j < |order'|
      ensures order'[j].info.next == NextAddress(order', j)
    {
      var o := if j < k then j else j + 1;
      assert order[o].info.next == NextAddress(order, o);
    }
  }

  lemma ExportsAfterUnlink(libraries: seq<Option<ExportRegistration>>, libraries': seq<Option<ExportRegistration>>,
                           order: seq<ModuleRecord>, k: nat)
    requires DistinctIds(order) && AllOwnExports(libraries, order) && k < |order|
    requires LibrariesRemoved(libraries, libraries', order[k].exportIds)
    ensures AllOwnExports(libraries', Without(order, k))
  {
  }

  lemma NamesAfterUnlink(libraries: seq<Option<ExportRegistration>>, libraries': seq<Option<ExportRegistration>>,
                         ids: seq<u32>)
    requires UniqueNames(libraries) && LibrariesRemoved(libraries, libraries', ids)
    ensures UniqueNames(libraries')
  {
  }

  lemma OkWithout(order: seq<ModuleRecord>, k: nat)
    requires AllOk(order) && k < |order|
    ensures AllOk(Without(order, k))
  {
  }

  lemma UnlinkHost(s: Snapshot, s': Snapshot, k: nat)
    requires HostConsistent(s.modules, s.libraries, s.order, s.head) && Unlinked(s, s', k)
    ensures HostConsistent(s'.modules, s'.libraries, s'.order, s'.head)
  {
    hide TableHolds, TableListed, DistinctIds, Linked, AllOk, AllOwnExports, UniqueNames, Without, Relinked, HeadOf;
    hide TableWithout, LibrariesRemoved, BothReleased, Disjoint, WordWritten;
    TableAfterUnlink(s.modules, s'.modules, s.order, k);
    LinkedWithout(s.order, k);
    ExportsAfterUnlink(s.libraries, s'.libraries, s.order, k);
    NamesAfterUnlink(s.libraries, s'.libraries, s.order[k].exportIds);
    OkWithout(s.order, k);
  }

  lemma MirrorNext(mem: seq<u8>, r: ModuleRecord, next: u32)
    requires Mirrored(mem, r)
    ensures r.infoAddress + 4 <= |mem|
    ensures Mirrored(Splice(mem, r.infoAddress, EncodeU32(next)), WithNext(r, next))
  {
    hide Encode, NewFlags, Splice, EncodeU32;
    EncodeNext(r.info, next);
    MirrorPatch(mem, r, WithNext(r, next), 0, EncodeU32(next));
  }

  /** The list survives in guest memory when its head word is redirected. */
  lemma RedirectHead(s: Snapshot, mem: seq<u8>, next: u32)
    requires Consistent(s) && WordWritten(s.mem, mem, MODULE_HEAD_ADDRESS, next)
    ensures HeadStored(mem, next) && AllMirrored(mem, s.order)
  {
    hide Consistent, Encode, Mirrored, EncodeU32;
    forall j | 0 <= j < |s.order|
      ensures Mirrored(mem, s.order[j])
    {
      GuestRecord(s, j);
      DescriptorInBlock(s, j);
      SpliceAside(s.mem, s.order[j], MODULE_HEAD_ADDRESS, EncodeU32(next));
    }
  }

  /** The list survives in guest memory when one descriptor's link is redirected. */
  lemma RedirectLink(s: Snapshot, mem: seq<u8>, p: nat, next: u32)
    requires Consistent(s) && p < |s.order| && WordWritten(s.mem, mem, s.order[p].infoAddress, next)
    ensures HeadStored(mem, s.head)
    ensures AllMirrored(mem, s.order[p := WithNext(s.order[p], next)])
  {
    hide Consistent, Encode, Mirrored, EncodeU32, HeadStored, WithNext;
    MirroredAt(s, p);
    HeadElsewhere(s, p, 0, EncodeU32(next));
    MirrorNext(s.mem, s.order[p], next);
    forall j | 0 <= j < |s.order| && j != p
      ensures Mirrored(mem, s.order[j])
    {
      PatchElsewhere(s, p, j, 0, EncodeU32(next));
    }
  }

  lemma MirroredWithout(mem: seq<u8>, order: seq<ModuleRecord>, k: nat)
    requires k < |order| && AllMirrored(mem, Relinked(order, k))
    ensures AllMirrored(mem, Without(order, k))
  {
  }

  lemma UnlinkGuest(s: Snapshot, s': Snapshot, k: nat)
    requires Consistent(s) && Unlinked(s, s', k)
    ensures GuestConsistent(s'.mem, s'.order, s'.head)
  {
    hide Consistent, AllMirrored, HeadStored, Without;
    hide TableWithout, LibrariesRemoved, BothReleased, Disjoint, WordWritten;
    if k == 0 {
      RedirectHead(s, s'.mem, s.order[0].info.next);
    } else {
      RedirectLink(s, s'.mem, k - 1, s.order[k].info.next);
    }
    MirroredWithout(s'.mem, s.order, k);
  }

  lemma OwnedWithout(order: seq<ModuleRecord>, slots: seq<Option<Allocation>>, slots': seq<Option<Allocation>>, k: nat)
    requires Owned(order, slots) && k < |order| && BlocksReleased(slots, slots', order[k])
    ensures Owned(Without(order, k), slots')
  {
    hide Live;
    var order' := Without(order, k);
    forall j | 0 <= j < |order'|
      ensures var o := order[if j < k then j else j + 1];
              order'[j].metadata == o.metadata && order'[j].image == o.image
      ensures Live(slots', order'[j].metadata) && Live(slots', order'[j].image)
    {
      var o := if j < k then j else j + 1;
      assert Live(slots, order[o].metadata) && Live(slots, order[o].image);
      assert o < k ==> order[o].metadata.address != order[k].metadata.address;
      assert k < o ==> order[k].metadata.address != order[o].metadata.address;
    }
  }

  lemma UnlinkMemory(s: Snapshot, s': Snapshot, k: nat)
    requires MemoryConsistent(s.slots, s.arenaStart, s.arenaEnd, s.order) && Unlinked(s, s', k)
    ensures MemoryConsistent(s'.slots, s'.arenaStart, s'.arenaEnd, s'.order)
  {
    hide Owned, Without, TableWithout, LibrariesRemoved, BlocksReleased, Disjoint, WordWritten, BothReleased;
    ReleasesBlocks(s.slots, s.order[k]);
    OwnedWithout(s.order, s.slots, s'.slots, k);
  }

  /** Unlinking a module keeps host, guest list and allocator consistent. */
  lemma UnlinkConsistent(s: Snapshot, s': Snapshot, k: nat)
    requires Consistent(s) && Unlinked(s, s', k)
    ensures Consistent(s')
  {
    hide HostConsistent, MemoryConsistent, GuestConsistent, Unlinked;
    hide TableMatches, Linked, HeadOf, AllOk, AllOwnExports, UniqueNames, HeadStored, AllMirrored, Disjoint, Owned;
    UnlinkHost(s, s', k);
    UnlinkGuest(s, s', k);
    UnlinkMemory(s, s', k);
  }

  // ----- Library bindings and foreign allocations

  /** Only the library table changed. */
  ghost predicate LibrariesBecome(s: Snapshot, s': Snapshot, libraries: seq<Option<ExportRegistration>>)
  {
    && s'.libraries == libraries
    && s'.modules == s.modules && s'.order == s.order && s'.head == s.head && s'.mem == s.mem
    && SameArena(s, s')
  }

  /** Changing a user count affects no name and no ownership. */
  lemma UsersConsistent(s: Snapshot, s': Snapshot, i: nat, users: u32)
    requires Consistent(s) && i < |s.libraries| && s.libraries[i].Some?
    requires LibrariesBecome(s, s', s.libraries[i := Some(s.libraries[i].value.(users := users))])
    ensures Consistent(s')
  {
    hide TableMatches, Linked, AllOk, GuestConsistent, MemoryConsistent;
    forall k | 0 <= k < |s.order|
      ensures OwnsExports(s'.libraries, s.order[k])
    {
      assert OwnsExports(s.libraries, s.order[k]);
    }
  }

  /** A library registered in an empty slot under a new name. */
  lemma RegisterConsistent(s: Snapshot, s': Snapshot, i: nat, e: ExportRegistration)
    requires Consistent(s) && i < |s.libraries| && s.libraries[i].None?
    requires forall j :: 0 <= j < |s.libraries| && s.libraries[j].Some? ==> s.libraries[j].value.name != e.name
    requires LibrariesBecome(s, s', s.libraries[i := Some(e)])
    ensures Consistent(s')
  {
    hide TableMatches, Linked, AllOk, AllOwnExports, UniqueNames, GuestConsistent, MemoryConsistent;
    RegisterLibraries(s.libraries, s.order, i, e);
  }

  lemma RegisterLibraries(libraries: seq<Option<ExportRegistration>>, order: seq<ModuleRecord>, i: nat,
                          e: ExportRegistration)
    requires AllOwnExports(libraries, order) && UniqueNames(libraries)
    requires i < |libraries| && libraries[i].None?
    requires forall j :: 0 <= j < |libraries| && libraries[j].Some? ==> libraries[j].value.name != e.name
    ensures AllOwnExports(libraries[i := Some(e)], order) && UniqueNames(libraries[i := Some(e)])
  {
  }

  /** Blocks handed to guest code never disturb the modules. */
  lemma ForeignBlockConsistent(s: Snapshot, s': Snapshot, size: u32, alignment: u32, b: Allocation)
    requires Consistent(s)
    requires s'.modules == s.modules && s'.libraries == s.libraries && s'.order == s.order && s'.head == s.head
    requires s'.mem == s.mem && s'.arenaStart == s.arenaStart && s'.arenaEnd == s.arenaEnd
    requires Reserved(s.slots, s'.slots, s.arenaStart, s.arenaEnd, size, alignment, b)
    ensures Consistent(s')
  {
    hide HostConsistent, GuestConsistent;
    InsertDisjoint(s.slots, s.arenaStart, s.arenaEnd, FirstFree(s.slots), b);
    LiveGrows(s.slots, FirstFree(s.slots), b);
  }

  /** Some listed module keeps its descriptor or its image in the block at this address. */
  predicate Owner(order: seq<ModuleRecord>, address: int)
  {
    exists k :: 0 <= k < |order| && (order[k].metadata.address == address || order[k].image.address == address)
  }

  /** Freeing a block keeps host, guest list and allocator consistent exactly if it is no module's. */
  lemma FreedConsistent(s: Snapshot, s': Snapshot, address: int)
    requires Consistent(s) && s' == s.(slots := Released(s.slots, address))
    ensures Consistent(s') <==> !Owner(s.order, address)
  {
    hide HostConsistent, GuestConsistent;
    ReleaseDisjoint(s.slots, s.arenaStart, s.arenaEnd, address);
    forall b | Live(s'.slots, b)
      ensures b.address != address
    {
    }
    if !Owner(s.order, address) {
      forall b | Live(s.slots, b) && b.address != address
        ensures Live(s'.slots, b)
      {
        var i :| 0 <= i < |s.slots| && s.slots[i] == Some(b);
        assert s'.slots[i] == Some(b);
      }
    }
  }

  lemma LiveGrows(slots: seq<Option<Allocation>>, i: nat, b: Allocation)
    requires i < |slots| && slots[i].None?
    ensures forall x :: Live(slots, x) ==> Live(slots[i := Some(b)], x)
    ensures Live(slots[i := Some(b)], b)
  {
    var slots' := slots[i := Some(b)];
    assert slots'[i] == Some(b);
    forall x | Live(slots, x)
      ensures Live(slots', x)
    {
      var j :| 0 <= j < |slots| && slots[j] == Some(x);
      assert slots'[j] == Some(x);
    }
  }
}
