/** Value-level facts behind loading: free memory, descriptor writes, library insertion, rollback. */
module RegistryLoad {
  import opened Machine
  import opened Wrappers
  import opened LittleEndian
  import opened Counting
  import opened Slots
  import opened BlockLayout
  import opened Allocator
  import opened LinkTables
  import opened ModuleRecords
  import opened RegistryState
  import opened RegistrySteps

  /** A write above the head word leaves it alone. */
  predicate HeadSame(a: seq<u8>, b: seq<u8>)
  {
    |a| == |b| && forall k :: 0 <= k < |a| && InHeadWord(k) ==> b[k] == a[k]
  }

  /** Free memory may hold leftovers; everything published, the head word included, is untouched.
      Compared with `true` so that the verifier keeps the two parts together. */
  ghost predicate FreeScratch(s: Snapshot, mem: seq<u8>)
  {
    (OnlyFreeTouched(s, mem) && HeadSame(s.mem, mem)) == true
  }

  /** A range free in the larger table is free in the smaller one. */
  lemma FreeBefore(before: seq<Option<Allocation>>, after: seq<Option<Allocation>>, start: u32, end: u32,
                   i: nat, b: Allocation, address: int, size: int)
    requires i < |before| && before[i].None? && after == before[i := Some(b)]
    requires IsFreeRange(after, start, end, address, size)
    ensures IsFreeRange(before, start, end, address, size)
    ensures address + size <= b.address || b.End() <= address
  {
    assert after[i] == Some(b);
    forall j | 0 <= j < |before| && before[j].Some?
      ensures address + size <= before[j].value.address || before[j].value.End() <= address
    {
      assert after[j] == before[j];
    }
  }

  /** Two successive reservations own fresh, separate blocks; releasing them restores the table. */
  lemma TwoReservations(s: Snapshot, mid: seq<Option<Allocation>>, after: seq<Option<Allocation>>,
                        size1: u32, align1: u32, size2: u32, align2: u32, metadata: Allocation, image: Allocation)
    requires Disjoint(s.slots, s.arenaStart, s.arenaEnd)
    requires Reserved(s.slots, mid, s.arenaStart, s.arenaEnd, size1, align1, metadata)
    requires Reserved(mid, after, s.arenaStart, s.arenaEnd, size2, align2, image)
    ensures BlocksAdded(s.slots, after, metadata, image) && Apart(metadata, image)
    ensures Disjoint(after, s.arenaStart, s.arenaEnd)
    ensures IsFreeRange(s.slots, s.arenaStart, s.arenaEnd, image.address, image.size)
    ensures Released(Released(after, image.address), metadata.address) == s.slots
  {
    hide WellFormed;
    InsertDisjoint(s.slots, s.arenaStart, s.arenaEnd, FirstFree(s.slots), metadata);
    InsertDisjoint(mid, s.arenaStart, s.arenaEnd, FirstFree(mid), image);
    AllocateThenFree(mid, after, s.arenaStart, s.arenaEnd, size2, align2, image);
    AllocateThenFree(s.slots, mid, s.arenaStart, s.arenaEnd, size1, align1, metadata);
    FreeBefore(s.slots, mid, s.arenaStart, s.arenaEnd, FirstFree(s.slots), metadata, image.address, image.size);
    LiveGrows(s.slots, FirstFree(s.slots), metadata);
    LiveGrows(mid, FirstFree(mid), image);
    assert metadata.size > 0 && image.size > 0 by { SizePositive(metadata, s); SizePositive(image, s); }
    forall b | Live(s.slots, b)
      ensures b.address != metadata.address && b.address != image.address
    {
      FreshStart(s.slots, s.arenaStart, s.arenaEnd, metadata, b);
      FreshStart(s.slots, s.arenaStart, s.arenaEnd, image, b);
    }
  }

  lemma SizePositive(b: Allocation, s: Snapshot)
    requires WellFormed(b, s.arenaStart, s.arenaEnd)
    ensures b.size > 0
  {
  }

  lemma FreshStart(slots: seq<Option<Allocation>>, start: u32, end: u32, fresh_: Allocation, b: Allocation)
    requires Disjoint(slots, start, end) && Live(slots, b) && fresh_.size > 0
    requires IsFreeRange(slots, start, end, fresh_.address, fresh_.size)
    ensures b.address != fresh_.address
  {
    var i :| 0 <= i < |slots| && slots[i] == Some(b);
    assert WellFormed(slots[i].value, start, end);
  }

  // ----- Descriptor, name and head word

  lemma DescriptorWritten(mem: seq<u8>, r: ModuleRecord, mem1: seq<u8>, mem2: seq<u8>, mem3: seq<u8>)
    requires MODULE_HEAD_ADDRESS + 4 <= r.infoAddress
    requires r.infoAddress + MODULE_INFO_SIZE <= |mem| && mem1 == Splice(mem, r.infoAddress, Encode(r.info))
    requires r.infoAddress + MODULE_INFO_SIZE + |r.name| + 1 <= |mem|
    requires mem2 == Splice(mem1, r.infoAddress + MODULE_INFO_SIZE, r.name + [0])
    requires mem3 == Splice(mem2, MODULE_HEAD_ADDRESS, EncodeU32(r.infoAddress))
    ensures Mirrored(mem3, r) && HeadStored(mem3, r.infoAddress)
  {
  }

  // ----- Export libraries

  /** What validation guarantees of a list of exports about to be registered. */
  ghost predicate ExportsFit(libraries: seq<Option<ExportRegistration>>, exports: seq<ExportLibrary>)
  {
    && Occupied(libraries) + |exports| <= |libraries|
    && (forall k :: 0 <= k < |exports| ==> ValidLibraryName(exports[k].name) && exports[k].functions != [])
    && (forall i, k :: 0 <= i < |libraries| && libraries[i].Some? && 0 <= k < |exports| ==>
                         libraries[i].value.name != exports[k].name)
    && (forall j, k :: 0 <= j < k < |exports| ==> exports[j].name != exports[k].name)
  }

  /** `exports` sit in slots that were empty, under the identifiers `ids`; all else is as before. */
  ghost predicate Registered(before: seq<Option<ExportRegistration>>, after: seq<Option<ExportRegistration>>,
                             moduleId: u32, exports: seq<ExportLibrary>, ids: seq<u32>)
  {
    && |after| == |before| && |ids| == |exports| && Distinct(ids)
    && (forall k :: 0 <= k < |ids| ==>
                      && 1 <= ids[k] <= |before| && before[ids[k] - 1].None?
                      && after[ids[k] - 1] == Some(Register(moduleId, exports[k])))
    && (forall i :: 0 <= i < |before| && i + 1 !in ids ==> after[i] == before[i])
  }

  lemma RegisterOne(before: seq<Option<ExportRegistration>>, now: seq<Option<ExportRegistration>>,
                    moduleId: u32, exports: seq<ExportLibrary>, ids: seq<u32>, e: ExportLibrary, id: u32)
    requires Registered(before, now, moduleId, exports, ids)
    requires 1 <= id <= |now| && now[id - 1].None?
    ensures Registered(before, now[id - 1 := Some(Register(moduleId, e))], moduleId, exports + [e], ids + [id])
  {
  }

  /** Validated exports, registered, belong to the module and keep names unique. */
  lemma RegisteredLibraries(before: seq<Option<ExportRegistration>>, after: seq<Option<ExportRegistration>>,
                            exports: seq<ExportLibrary>, r: ModuleRecord)
    requires UniqueNames(before) && ExportsFit(before, exports)
    requires Registered(before, after, r.id, exports, r.exportIds)
    ensures LibrariesAdded(before, after, r)
  {
  }

  /** Removing what a load registered restores the library table. */
  lemma UnregisterRestores(before: seq<Option<ExportRegistration>>, after: seq<Option<ExportRegistration>>,
                           moduleId: u32, exports: seq<ExportLibrary>, ids: seq<u32>,
                           restored: seq<Option<ExportRegistration>>)
    requires Registered(before, after, moduleId, exports, ids)
    requires LibrariesRemoved(after, restored, ids)
    ensures restored == before
  {
  }
}
