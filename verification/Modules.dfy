/** The registry of modules and libraries; its methods keep host records, guest list and allocator consistent. */
module Modules {
  import opened Machine
  import opened Wrappers
  import opened LittleEndian
  import opened KernelErrors
  import opened Slots
  import opened BlockLayout
  import opened Allocator
  import opened GuestMemory
  import opened LinkTables
  import opened Irx
  import opened ModuleRecords
  import opened Dispatch
  import opened RegistryState
  import opened RegistrySteps
  import opened RegistryLoad
  import opened Table

  const MAX_MODULES := 64
  const MAX_LIBRARIES := 256

  datatype ModuleInvocation = ModuleInvocation(moduleId: u32, entry: u32, globalPointer: u32)

  datatype ResolvedImport = ResolvedImport(libraryId: u32, address: u32)

  /** Index of the module with this identifier, or the list length when it is unknown. */
  function Position(order: seq<ModuleRecord>, id: int): (k: nat)
    ensures k <= |order|
    ensures k < |order| ==> order[k].id == id
    ensures forall j :: 0 <= j < k ==> order[j].id != id
  {
    if order == [] || order[0].id == id then 0 else 1 + Position(order[1..], id)
  }

  /** A table lookup finds exactly the listed record. */
  lemma LookupIsPosition(modules: seq<Option<ModuleRecord>>, order: seq<ModuleRecord>, id: int)
    requires TableMatches(modules, order)
    ensures Lookup(modules, 1, id).Some? <==> Position(order, id) < |order|
    ensures Lookup(modules, 1, id).Some? ==> Lookup(modules, 1, id).value == order[Position(order, id)]
  {
  }

  // ----- Lifecycle

  datatype Event = StartBegins | StartCompletes(result: ResidentState) | StopBegins | StopCompletes(code: int)

  /** The state a lifecycle event leads to, or the error it is refused with. */
  function Transition(state: ModuleState, event: Event): Result<ModuleState, BiosError>
  {
    match event
    case StartBegins =>
      if state in {Loaded, Stopped, StoppedRemovable} then Ok(Starting)
      else if state == NotResident then Err(Kernel(NotRemovable))
      else Err(Kernel(AlreadyStarted))
    case StartCompletes(result) =>
      if state != Starting then Err(Kernel(NotStarted))
      else if result == Unstarted then Err(InvalidState)
      else Ok(if result == ResidentEnd then Resident else if result == RemovableEnd then Removable else NotResident)
    case StopBegins =>
      (match state
       case Removable => Ok(Stopping)
       case Resident => Err(Kernel(NotRemovable))
       case Starting => Err(Kernel(CannotStop))
       case Stopping => Err(Kernel(AlreadyStopping))
       case Loaded | NotResident => Err(Kernel(NotStarted))
       case Stopped | StoppedRemovable => Err(Kernel(AlreadyStopped)))
    case StopCompletes(code) =>
      if state != Stopping then Err(Kernel(CannotStop))
      else Ok(if code == 0 then StoppedRemovable else Removable)
  }

  /** The state after a run of events, refused ones leaving it alone. */
  function Lifecycle(state: ModuleState, events: seq<Event>): ModuleState
    decreases |events|
  {
    if events == [] then state
    else
      var t := Transition(state, events[0]);
      Lifecycle(if t.Ok? then t.value else state, events[1..])
  }

  function UnloadRefusal(state: ModuleState): Option<KernelError>
  {
    match state
    case Loaded | NotResident | StoppedRemovable => None
    case Stopped => Some(NotRemovable)
    case Starting | Resident | Removable | Stopping => Some(NotStopped)
  }

  /** The flags word that guest code sees before a call decides whether it is accepted, and what it sees after it. */
  lemma LifecycleFlags(state: ModuleState, result: ResidentState, code: u32)
    ensures var flags := NewFlags(state);
            var start, started := Transition(state, StartBegins), Transition(state, StartCompletes(result));
            var stop, stopped := Transition(state, StopBegins), Transition(state, StopCompletes(code));
            && (start.Ok? <==> flags in {1, 7, 0x17}) && (start.Ok? ==> NewFlags(start.value) == 2)
            && (started.Ok? <==> flags == 2 && result != Unstarted)
            && (started.Ok? ==>
                  NewFlags(started.value)
                  == if result == ResidentEnd then 3 else if result == RemovableEnd then 0x13 else 6)
            && (stop.Ok? <==> flags == 0x13) && (stop.Ok? ==> NewFlags(stop.value) == 0x15)
            && (stopped.Ok? <==> flags == 0x15)
            && (stopped.Ok? ==> NewFlags(stopped.value) == if code == 0 then 0x17 else 0x13)
            && (UnloadRefusal(state).None? <==> flags in {1, 6, 0x17})
  {
  }

  /** Each refusal has one cause: starting or stopping what runs, or what has ended for good. */
  lemma LifecycleRefusals(state: ModuleState)
    ensures Transition(state, StartBegins) == Err(Kernel(NotRemovable)) <==> state == NotResident
    ensures Transition(state, StopBegins) == Err(Kernel(NotRemovable)) <==> state == Resident
    ensures Transition(state, StopBegins) == Err(Kernel(CannotStop)) <==> state == Starting
    ensures Transition(state, StopBegins) == Err(Kernel(AlreadyStopping)) <==> state == Stopping
    ensures Transition(state, StopBegins) == Err(Kernel(NotStarted)) <==> state in {Loaded, NotResident}
    ensures Transition(state, StopBegins) == Err(Kernel(AlreadyStopped)) <==> state in {Stopped, StoppedRemovable}
    ensures Transition(state, StartBegins) == Err(Kernel(AlreadyStarted)) <==>
            state in {Starting, Resident, Removable, Stopping}
  {
  }

  /** A resident module stays resident for good, so it can never be unloaded. */
  lemma {:induction false} ResidentForever(events: seq<Event>)
    ensures Lifecycle(Resident, events) == Resident
    ensures UnloadRefusal(Lifecycle(Resident, events)).Some?
  {
    if events != [] {
      ResidentForever(events[1..]);
    }
  }

  /** `Stopped` is dead: no run reaches it, so its `NotRemovable` unload refusal never occurs. */
  lemma {:induction false} StoppedUnreachable(state: ModuleState, events: seq<Event>)
    requires state != Stopped
    ensures Lifecycle(state, events) != Stopped
    decreases |events|
  {
    if events != [] {
      var t := Transition(state, events[0]);
      StoppedUnreachable(if t.Ok? then t.value else state, events[1..]);
    }
  }

  /** One lifecycle call seen on snapshots: `r` is the new state or the refusal. */
  ghost predicate Stepped(s: Snapshot, s': Snapshot, id: u32, event: Event, r: Result<ModuleState, BiosError>)
  {
    var k := Position(s.order, id);
    if k == |s.order| then r == Err(Kernel(UnknownModule)) && s' == s
    else
      match Transition(s.order[k].state, event)
      case Err(e) => r == Err(e) && s' == s
      case Ok(state) =>
        if r.Ok? then r.value == state && StateSet(s, s', k, state)
        else r.error == GuestFailure && s' == s
  }

  class ModuleRegistry {
    const modules: FixedTable<ModuleRecord>
    const libraries: FixedTable<ExportRegistration>
    var head: u32
    ghost var order: seq<ModuleRecord>

    ghost function Repr(): set<object>
    {
      {this, modules, modules.entries, libraries, libraries.entries}
    }

    ghost function Snap(memory: SystemMemory, guest: GuestRam): Snapshot
      reads this, modules.entries, libraries.entries, memory.table.entries, guest.bytes
    {
      Snapshot(modules.View(), libraries.View(), order, head, memory.View(), memory.start, memory.end, guest.View())
    }

    /**
     * Everything but the invariant proper: well-formed tables on separate objects. Compared with `true` to stay
     * whole.
     */
    ghost predicate Shape(memory: SystemMemory, guest: GuestRam)
      reads this, modules, modules.entries, libraries, libraries.entries
      reads memory, memory.table, memory.table.entries
    {
      (&& modules.Valid() && modules.firstId == 1 && modules.entries.Length == MAX_MODULES
       && libraries.Valid() && libraries.firstId == 1 && libraries.entries.Length == MAX_LIBRARIES
       && memory.Valid() && guest.Valid() && guest.first <= CONTROL_BLOCK_ADDRESS
       && Separate(memory, guest)) == true
    }

    ghost predicate Separate(memory: SystemMemory, guest: GuestRam)
    {
      var own: object, arena: object, ram: object := modules.entries, memory.table.entries, guest.bytes;
      && own != libraries.entries && own != arena && own != ram
      && arena != libraries.entries && arena != ram && ram != libraries.entries
      && libraries as object != modules && libraries as object != memory.table && modules as object != memory.table
    }

    ghost predicate Valid(memory: SystemMemory, guest: GuestRam)
      reads this, modules, modules.entries, libraries, libraries.entries
      reads memory, memory.table, memory.table.entries, guest.bytes
    {
      Shape(memory, guest) && Consistent(Snap(memory, guest))
    }

    /** Position of a module in the guest list. */
    ghost function Index(id: int): nat
      reads this
    {
      Position(order, id)
    }

    constructor ()
      ensures fresh(modules) && fresh(modules.entries) && fresh(libraries) && fresh(libraries.entries)
      ensures modules.Valid() && modules.firstId == 1 && modules.entries.Length == MAX_MODULES
      ensures libraries.Valid() && libraries.firstId == 1 && libraries.entries.Length == MAX_LIBRARIES
      ensures (modules.entries as object) != libraries.entries && (modules as object) != libraries
      ensures head == 0 && order == []
      ensures forall i :: 0 <= i < MAX_MODULES ==> modules.entries[i].None?
      ensures forall i :: 0 <= i < MAX_LIBRARIES ==> libraries.entries[i].None?
    {
      modules := new FixedTable(1, MAX_MODULES);
      libraries := new FixedTable(1, MAX_LIBRARIES);
      head := 0;
      order := [];
    }

    /**
     * Drops all host state and writes the fixed guest area. The allocator is emptied first and the
     * tables last, so a refusal leaves the modules without their blocks.
     */
    method Reset(memory: SystemMemory, guest: GuestRam, controlWords: seq<u8>)
      returns (r: Result<(), BiosError>, ghost done: nat)
      requires modules.Valid() && modules.firstId == 1 && modules.entries.Length == MAX_MODULES
      requires libraries.Valid() && libraries.firstId == 1 && libraries.entries.Length == MAX_LIBRARIES
      requires memory.Valid() && guest.Valid() && Separate(memory, guest)
      requires MODULE_HEAD_ADDRESS + 4 <= memory.start
      requires |controlWords| == CONTROL_WORDS_SIZE
      modifies Repr(), memory.Repr(), guest.bytes, guest`refusals
      ensures done <= BLOCKS && AreaEnd(done) <= |guest.View()|
      ensures guest.View() == Written(old(guest.View()), done, controlWords)
      ensures forall i :: 0 <= i < |memory.View()| ==> memory.View()[i].None?
      ensures r.Ok? <==> done == BLOCKS
      ensures old(guest.refusals) == [] ==>
                (r.Ok? <==> guest.first <= CONTROL_BLOCK_ADDRESS && AREA_END <= |guest.View()|)
      ensures old(guest.refusals) != [] && old(guest.refusals)[0] ==> r.Err?
      ensures old(guest.refusals) == [] ==> guest.refusals == []
      ensures old(Shape(memory, guest)) ==> Shape(memory, guest)
      ensures r.Ok? ==> Valid(memory, guest) && order == []
      ensures r.Err? ==> Snap(memory, guest) == old(Snap(memory, guest)).(slots := memory.View(), mem := guest.View())
      ensures r.Err? && old(Valid(memory, guest)) ==> (Valid(memory, guest) <==> order == [])
    {
      hide Consistent, Written, AreaEnd;
      ghost var s := Snap(memory, guest);
      memory.Reset();
      r, done := ResetArea(guest, controlWords);
      if r.Err? {
        if Consistent(s) {
          RefusedReset(s, Snap(memory, guest), done, controlWords);
        }
        return;
      }
      HeadCleared(s.mem, done, controlWords);
      modules.Clear();
      libraries.Clear();
      head := 0;
      order := [];
      EmptyConsistent(Snap(memory, guest));
    }

    /** The table and the guest list agree on what is there. */
    method Find(id: u32, ghost memory: SystemMemory, ghost guest: GuestRam) returns (r: Option<ModuleRecord>)
      requires Valid(memory, guest)
      ensures r.Some? <==> Index(id) < |order|
      ensures r.Some? ==> r.value == order[Index(id)]
    {
      hide TableMatches, Linked, AllOk, AllOwnExports, UniqueNames, GuestConsistent, MemoryConsistent, Disjoint,
           Position;
      LookupIsPosition(modules.View(), order, id);
      r := modules.Get(id);
    }

    /** Whether some module keeps its descriptor or its image in the block at this address. */
    method OwnsBlock(address: u32, ghost memory: SystemMemory, ghost guest: GuestRam) returns (owned: bool)
      requires Valid(memory, guest)
      ensures owned <==> Owner(order, address)
    {
      hide Linked, AllOk, AllOwnExports, UniqueNames, GuestConsistent, MemoryConsistent, Disjoint, TableMatches, Owner;
      var items := modules.Iter();
      OwnerListed(modules.View(), order, items, address);
      for k := 0 to |items|
        invariant forall j :: 0 <= j < k ==>
                    items[j].1.metadata.address != address && items[j].1.image.address != address
      {
        if items[k].1.metadata.address == address || items[k].1.image.address == address {
          return true;
        }
      }
      return false;
    }

    /** Updates the flags halfword in guest memory, then the host record. */
    method SetState(id: u32, state: ModuleState, ghost memory: SystemMemory, guest: GuestRam)
      returns (r: Result<(), BiosError>)
      requires Valid(memory, guest) && state != Stopped
      modifies this`order, modules.entries, guest.bytes, guest`refusals
      ensures Valid(memory, guest)
      ensures r.Ok? ==> StateSet(old(Snap(memory, guest)), Snap(memory, guest), old(Index(id)), state)
      ensures r.Err? ==> Snap(memory, guest) == old(Snap(memory, guest))
      ensures r.Err? ==> r.error == if old(Index(id)) == |old(order)| then Kernel(UnknownModule) else GuestFailure
      ensures old(Index(id)) < |old(order)| && old(guest.refusals) == [] ==> r.Ok?
      ensures old(guest.refusals) == [] ==> guest.refusals == []
    {
      hide Consistent, Position, Disjoint, NewFlags, WithState, FlagsWritten, EncodeU16, Splice, SystemMemory.Valid;
      var module_ := Find(id, memory, guest);
      if module_.None? {
        return Err(Kernel(UnknownModule));
      }
      ghost var s, k := Snap(memory, guest), Index(id);
      FlagsInBounds(s, k);
      var written := WriteGuest(guest, module_.value.infoAddress + 10, EncodeU16(NewFlags(state)));
      if written.Err? {
        return written;
      }
      FlagsSpliced(s.mem, module_.value.infoAddress, NewFlags(state));
      var found := modules.Replace(id, WithState(module_.value, state));
      order := order[k := WithState(order[k], state)];
      SetStateConsistent(s, Snap(memory, guest), k, state);
      return Ok(());
    }

    /** The transition `StartBegins`, or the refusal `Transition` gives; a failing guest write changes nothing. */
    method BeginStart(id: u32, ghost memory: SystemMemory, guest: GuestRam)
      returns (r: Result<ModuleInvocation, BiosError>)
      requires Valid(memory, guest)
      modifies this`order, modules.entries, guest.bytes, guest`refusals
      ensures Valid(memory, guest)
      ensures Stepped(old(Snap(memory, guest)), Snap(memory, guest), id, StartBegins,
                      if r.Ok? then Ok(Starting) else Err(r.error))
      ensures old(guest.refusals) == [] ==> guest.refusals == [] && (r.Err? ==> r.error != GuestFailure)
      ensures r.Ok? ==> old(Index(id)) < |old(order)|
      ensures r.Ok? ==>
                var a, mem := old(order)[old(Index(id))].infoAddress, old(guest.View());
                && a + 48 <= |mem| && r.value.moduleId == id
                && r.value.entry == U32At(mem, a + 16) && r.value.globalPointer == U32At(mem, a + 20)
    {
      hide Consistent, Position, Disjoint, NewFlags, StateSet;
      var module_ := Find(id, memory, guest);
      if module_.None? {
        return Err(Kernel(UnknownModule));
      }
      match module_.value.state {
        case Loaded | Stopped | StoppedRemovable =>
        case NotResident => return Err(Kernel(NotRemovable));
        case Starting | Resident | Removable | Stopping => return Err(Kernel(AlreadyStarted));
      }
      EntryReads(Snap(memory, guest), Index(id));
      var invocation := ModuleInvocation(id, module_.value.info.entry, module_.value.info.globalPointer);
      var changed := SetState(id, Starting, memory, guest);
      return if changed.Ok? then Ok(invocation) else Err(changed.error);
    }

    /** The transition `StartCompletes`, or its refusal. */
    method CompleteStart(id: u32, result: ResidentState, ghost memory: SystemMemory, guest: GuestRam)
      returns (r: Result<ModuleState, BiosError>)
      requires Valid(memory, guest)
      modifies this`order, modules.entries, guest.bytes, guest`refusals
      ensures Valid(memory, guest)
      ensures Stepped(old(Snap(memory, guest)), Snap(memory, guest), id, StartCompletes(result), r)
      ensures old(guest.refusals) == [] ==> guest.refusals == [] && (r.Err? ==> r.error != GuestFailure)
    {
      hide Consistent, Position, Disjoint, NewFlags, StateSet;
      var module_ := Find(id, memory, guest);
      if module_.None? {
        return Err(Kernel(UnknownModule));
      }
      if module_.value.state != Starting {
        return Err(Kernel(NotStarted));
      }
      var state: ModuleState;
      match result {
        case ResidentEnd => state := Resident;
        case NotResidentEnd => state := NotResident;
        case RemovableEnd => state := Removable;
        case Unstarted => return Err(InvalidState);
      }
      var changed := SetState(id, state, memory, guest);
      return if changed.Ok? then Ok(state) else Err(changed.error);
    }

    /** Begins the stop entry of a removable module. */
    method BeginStop(id: u32, ghost memory: SystemMemory, guest: GuestRam)
      returns (r: Result<ModuleInvocation, BiosError>)
      requires Valid(memory, guest)
      modifies this`order, modules.entries, guest.bytes, guest`refusals
      ensures Valid(memory, guest)
      ensures Stepped(old(Snap(memory, guest)), Snap(memory, guest), id, StopBegins,
                      if r.Ok? then Ok(Stopping) else Err(r.error))
      ensures old(guest.refusals) == [] ==> guest.refusals == [] && (r.Err? ==> r.error != GuestFailure)
      ensures r.Ok? ==> old(Index(id)) < |old(order)|
      ensures r.Ok? ==>
                var a, mem := old(order)[old(Index(id))].infoAddress, old(guest.View());
                && a + 48 <= |mem| && r.value.moduleId == id
                && r.value.entry == U32At(mem, a + 16) && r.value.globalPointer == U32At(mem, a + 20)
    {
      hide Consistent, Position, Disjoint, NewFlags, StateSet;
      var module_ := Find(id, memory, guest);
      if module_.None? {
        return Err(Kernel(UnknownModule));
      }
      match module_.value.state {
        case Removable =>
        case Resident => return Err(Kernel(NotRemovable));
        case Loaded | NotResident => return Err(Kernel(NotStarted));
        case Starting => return Err(Kernel(CannotStop));
        case Stopping => return Err(Kernel(AlreadyStopping));
        case Stopped | StoppedRemovable => return Err(Kernel(AlreadyStopped));
      }
      EntryReads(Snap(memory, guest), Index(id));
      var invocation := ModuleInvocation(id, module_.value.info.entry, module_.value.info.globalPointer);
      var changed := SetState(id, Stopping, memory, guest);
      return if changed.Ok? then Ok(invocation) else Err(changed.error);
    }

    /** Completes a stop entry; a nonzero result restores removable residency. */
    method CompleteStop(id: u32, code: int, ghost memory: SystemMemory, guest: GuestRam)
      returns (r: Result<ModuleState, BiosError>)
      requires Valid(memory, guest)
      modifies this`order, modules.entries, guest.bytes, guest`refusals
      ensures Valid(memory, guest)
      ensures Stepped(old(Snap(memory, guest)), Snap(memory, guest), id, StopCompletes(code), r)
      ensures old(guest.refusals) == [] ==> guest.refusals == [] && (r.Err? ==> r.error != GuestFailure)
    {
      hide Consistent, Position, Disjoint, NewFlags, StateSet;
      var module_ := Find(id, memory, guest);
      if module_.None? {
        return Err(Kernel(UnknownModule));
      }
      if module_.value.state != Stopping {
        return Err(Kernel(CannotStop));
      }
      var state := if code == 0 then StoppedRemovable else Removable;
      var changed := SetState(id, state, memory, guest);
      return if changed.Ok? then Ok(state) else Err(changed.error);
    }

    // ----- Loading

    /** Whether every export may be registered; nothing is changed either way. */
    method ValidateExports(exports: seq<ExportLibrary>) returns (r: Result<(), KernelError>)
      requires libraries.Valid()
      ensures r.Ok? <==> ExportsFit(libraries.View(), exports)
      ensures r == Err(NoMemory) <==> Occupied(libraries.View()) + |exports| > |libraries.View()|
      ensures r.Err? ==> r.error in {NoMemory, IllegalLibrary, LibraryFound}
    {
      hide ExportsFit, ValidLibraryName;
      FitsOnlyIf(libraries.View(), exports);
      if |exports| > libraries.entries.Length - libraries.len {
        return Err(NoMemory);
      }
      var items := libraries.Iter();
      NothingToFit(libraries.View());
      assert exports[..0] == [];
      for index := 0 to |exports|
        invariant ExportsFit(libraries.View(), exports[..index])
      {
        var e := exports[index];
        if !ValidLibraryName(e.name) || e.functions == [] {
          return Err(IllegalLibrary);
        }
        if (exists k :: 0 <= k < |items| && items[k].1.name == e.name)
           || (exists j :: 0 <= j < index && exports[j].name == e.name)
        {
          NameTaken(libraries.View(), libraries.firstId, items, exports, index);
          return Err(LibraryFound);
        }
        NameFree(libraries.View(), libraries.firstId, items, exports, index);
      }
      assert exports[..|exports|] == exports;
      return Ok(());
    }

    /** Registers every export of a validated list. */
    method InsertExports(moduleId: u32, exports: seq<ExportLibrary>) returns (ids: seq<u32>)
      requires libraries.Valid() && libraries.firstId == 1 && libraries.entries.Length == MAX_LIBRARIES
      requires ExportsFit(libraries.View(), exports)
      modifies libraries, libraries.entries
      ensures libraries.Valid()
      ensures Registered(old(libraries.View()), libraries.View(), moduleId, exports, ids)
    {
      hide Registered;
      ghost var before := libraries.View();
      ids := [];
      RegisterNone(before, moduleId);
      assert exports[..0] == [];
      for k := 0 to |exports|
        invariant libraries.Valid() && libraries.len == old(libraries.len) + k
        invariant |libraries.View()| == |before|
        invariant Registered(before, libraries.View(), moduleId, exports[..k], ids)
      {
        ghost var now := libraries.View();
        FullIffNoFree(now);
        var inserted := libraries.Insert(Register(moduleId, exports[k]));
        if inserted.Err? {
          assert false;
        }
        RegisterOne(before, now, moduleId, exports[..k], ids, exports[k], inserted.value);
        assert exports[..k + 1] == exports[..k] + [exports[k]];
        ids := ids + [inserted.value];
      }
      assert exports[..|exports|] == exports;
    }

    /** Reserves both blocks and fills the image's; every failure leaves the allocator as it was. */
    method Prepare(irx: IrxModule, memory: SystemMemory, guest: GuestRam, ghost s: Snapshot,
                   ghost hope: Option<Placement>)
      returns (r: Result<(Allocation, Allocation, LoadedModule), BiosError>)
      requires Valid(memory, guest) && s == Snap(memory, guest)
      requires irx.Valid() && ValidModuleName(irx.description.name)
      modifies memory.Repr(), guest.bytes, guest`refusals
      ensures Shape(memory, guest)
      ensures r.Err? ==> memory.View() == s.slots && FreeScratch(s, guest.View())
      ensures r.Ok? ==>
                && ReservedBoth(s.slots, Middle(s, r.value.0), memory.View(), s.arenaStart, s.arenaEnd, irx, r.value.0,
                                r.value.1)
                && ImagePlaced(s, guest.View(), irx, r.value.1, r.value.2)
                && ExportsFit(s.libraries, r.value.2.exports)
      ensures old(guest.refusals) == [] ==> guest.refusals == []
      ensures hope.Some? && Loadable(s, irx, hope.value) && old(guest.refusals) == [] ==>
                r.Ok? && r.value.0 == hope.value.metadata
    {
      hide Consistent, ReservedBoth, Reserved, Placed, Disjoint, ExportsFit, FreeScratch, ImagePlaced, Released;
      hide ValidModuleName, Live;
      ArenaOf(s);
      var blocks, mid := Reserve(irx, memory, hope);
      Untouched(s);
      if blocks.Err? {
        return Err(blocks.error);
      }
      BothReserved(s, mid, memory.View(), irx, blocks.value.0, blocks.value.1);
      var loaded := PlaceImage(irx, memory, guest, blocks.value.0, blocks.value.1, s, hope);
      if loaded.Err? {
        return Err(loaded.error);
      }
      return Ok((blocks.value.0, blocks.value.1, loaded.value));
    }

    /** Relocates the image into its block and validates the exports, or gives both blocks back. */
    method PlaceImage(irx: IrxModule, memory: SystemMemory, guest: GuestRam, metadata: Allocation, image: Allocation,
                      ghost s: Snapshot, ghost hope: Option<Placement>) returns (r: Result<LoadedModule, BiosError>)
      requires Shape(memory, guest) && irx.Valid() && s.mem == guest.View() && s.libraries == libraries.View()
      requires Live(memory.View(), metadata) && Live(memory.View(), image) && metadata.address != image.address
      requires IsFreeRange(s.slots, s.arenaStart, s.arenaEnd, image.address, image.size)
      requires MODULE_HEAD_ADDRESS + 4 <= s.arenaStart <= image.address && image.End() <= s.arenaEnd
      requires image.requestedSize == irx.AllocationSize() <= image.size
      modifies memory.Repr(), guest.bytes, guest`refusals
      ensures Shape(memory, guest)
      ensures r.Ok? ==> memory.View() == old(memory.View())
      ensures r.Ok? ==> ImagePlaced(s, guest.View(), irx, image, r.value) && ExportsFit(s.libraries, r.value.exports)
      ensures r.Err? ==> memory.View() == Released(Released(old(memory.View()), image.address), metadata.address)
      ensures r.Err? ==> FreeScratch(s, guest.View())
      ensures old(guest.refusals) == [] ==> guest.refusals == []
      ensures hope.Some? && Loadable(s, irx, hope.value) && hope.value.image == image && old(guest.refusals) == [] ==>
                r.Ok?
    {
      hide Disjoint, ExportsFit, FreeScratch, ImagePlaced, Released, Live, IsFreeRange, StagedIn, Stageable, Loadable;
      hide SystemMemory.Valid, FixedTable.Valid;
      Untouched(s);
      ghost var hoped := hope.Some? && Loadable(s, irx, hope.value) && hope.value.image == image;
      if hoped {
        ImageNeeds(s, irx, hope.value);
      }
      var loaded := LoadInto(irx, image.address, image.address, image.address + image.requestedSize, guest);
      if loaded.Err? {
        ReleaseBlocks(memory, metadata, image);
        return Err(Irx(loaded.error));
      }
      IsStaged(irx, image, loaded.value);
      if hoped {
        StagedSame(irx, image, loaded.value, hope.value.loaded);
      }
      ImageWritten(s, irx, image, loaded.value, guest.View());
      var fit := ValidateExports(loaded.value.exports);
      if fit.Err? {
        ReleaseBlocks(memory, metadata, image);
        return Err(Kernel(fit.error));
      }
      return Ok(loaded.value);
    }

    /**
     * Relocates an IRX into system memory and publishes its descriptor at the front of the guest
     * list. Any failure leaves tables, list and allocator as they were.
     */
    method Load(irx: IrxModule, memory: SystemMemory, guest: GuestRam)
      returns (r: Result<u32, BiosError>, ghost loaded: LoadedModule)
      requires Valid(memory, guest) && irx.Valid()
      modifies Repr(), memory.Repr(), guest.bytes, guest`refusals
      ensures Valid(memory, guest)
      ensures r.Ok? ==> Loads(old(Snap(memory, guest)), Snap(memory, guest), irx, loaded, r.value)
      ensures r.Ok? ==> LoadReads(guest.View(), order[0].infoAddress, irx, old(head), r.value, order[0].image.address)
      ensures r.Err? ==> LoadRefused(old(Snap(memory, guest)), Snap(memory, guest))
      ensures old(guest.refusals) == [] ==> guest.refusals == []
      ensures old(guest.refusals) == [] ==> (r.Ok? <==> exists p :: Loadable(old(Snap(memory, guest)), irx, p))
    {
      hide Consistent, Loads, Loadable, ReservedBoth, ImagePlaced, ExportsFit, FreeScratch, Disjoint, ValidModuleName;
      hide SystemMemory.Valid, LoadReads;
      ghost var s := Snap(memory, guest);
      ghost var hope: Option<Placement> := None;
      if p :| Loadable(s, irx, p) {
        hope := Some(p);
        Needs(s, irx, p);
      }
      Untouched(s);
      loaded := LoadedModule(0, 0, None, 0, 0, [], []);
      var moduleId := modules.NextId();
      if moduleId.None? {
        return Err(Kernel(NoMemory)), loaded;
      }
      if !ValidModuleName(irx.description.name) {
        return Err(Kernel(IllegalObject)), loaded;
      }
      var prepared := Prepare(irx, memory, guest, s, hope);
      if prepared.Err? {
        ScratchKeeps(s, guest.View());
        return Err(prepared.error), loaded;
      }
      loaded := prepared.value.2;
      r := Publish(irx, moduleId.value, prepared.value.0, prepared.value.1, prepared.value.2, memory, guest, s);
      if r.Ok? {
        WasLoadable(s, Snap(memory, guest), irx, loaded, r.value);
        LoadIsRead(s, Snap(memory, guest), irx, loaded, r.value);
      }
    }

    /** Writes the descriptor, registers the exports and enters the record, or gives both blocks back. */
    method Publish(irx: IrxModule, moduleId: u32, metadata: Allocation, image: Allocation, l: LoadedModule,
                   memory: SystemMemory, guest: GuestRam, ghost s: Snapshot) returns (r: Result<u32, BiosError>)
      requires Shape(memory, guest) && irx.Valid() && Consistent(s)
      requires Snap(memory, guest) == s.(slots := memory.View(), mem := guest.View())
      requires moduleId == FirstFree(s.modules) + 1 <= |s.modules|
      requires ReservedBoth(s.slots, Middle(s, metadata), memory.View(), s.arenaStart, s.arenaEnd, irx, metadata, image)
      requires ImagePlaced(s, guest.View(), irx, image, l) && ExportsFit(s.libraries, l.exports)
      modifies Repr(), memory.Repr(), guest.bytes, guest`refusals
      ensures Valid(memory, guest)
      ensures r.Ok? ==> Loads(s, Snap(memory, guest), irx, l, r.value)
      ensures r.Err? ==> LoadRefused(s, Snap(memory, guest))
      ensures old(guest.refusals) == [] ==> guest.refusals == []
      ensures old(guest.refusals) == [] && metadata.address + metadata.requestedSize <= |s.mem| ==> r.Ok?
    {
      hide Consistent, Loads, ReservedBoth, ImagePlaced, ExportsFit, FreeScratch, Disjoint, Registered, Released;
      hide OnlyFreeTouched, OnlyBlockTouched, Mirrored, HeadStored, Live, Apart, IsFreeRange, Lookup;
      hide SystemMemory.Valid, FixedTable.Valid;
      ghost var mem := guest.View();
      ArenaOf(s);
      BothReserved(s, Middle(s, metadata), memory.View(), irx, metadata, image);
      PlacedScratch(s, mem, irx, image, l);
      ShortName(s, memory.View(), irx, metadata, image);
      var name := irx.description.name;
      var info := InfoOf(irx, l, moduleId, metadata, head);
      ghost var draft := RecordOf(irx, l, moduleId, metadata, image, head, []);
      var written := WriteDescriptor(guest, info, name, metadata.address, s, draft);
      if written.Err? {
        ReleaseBlocks(memory, metadata, image);
        ScratchKeeps(s, guest.View());
        return Err(written.error);
      }
      Enter(irx, moduleId, metadata, image, l, memory, guest, s, mem);
      return Ok(moduleId);
    }

    /** Registers the exports and enters the record; after validation neither can fail. */
    method Enter(irx: IrxModule, moduleId: u32, metadata: Allocation, image: Allocation, l: LoadedModule,
                 ghost memory: SystemMemory, ghost guest: GuestRam, ghost s: Snapshot, ghost mem: seq<u8>)
      requires Shape(memory, guest) && irx.Valid() && Consistent(s)
      requires Snap(memory, guest) == s.(slots := memory.View(), mem := guest.View())
      requires moduleId == FirstFree(s.modules) + 1 <= |s.modules| && metadata.address + MODULE_INFO_SIZE < U32_LIMIT
      requires ReservedBoth(s.slots, Middle(s, metadata), memory.View(), s.arenaStart, s.arenaEnd, irx, metadata, image)
      requires ImagePlaced(s, mem, irx, image, l) && ExportsFit(s.libraries, l.exports)
      requires OnlyFreeTouched(s, guest.View()) && OnlyBlockTouched(mem, guest.View(), metadata)
      requires Mirrored(guest.View(), RecordOf(irx, l, moduleId, metadata, image, head, []))
      requires HeadStored(guest.View(), metadata.address)
      modifies Repr()
      ensures Valid(memory, guest)
      ensures Loads(s, Snap(memory, guest), irx, l, moduleId)
    {
      hide Consistent, Loads, ReservedBoth, ImagePlaced, ExportsFit, Disjoint, Registered;
      hide OnlyFreeTouched, OnlyBlockTouched, Mirrored, HeadStored;
      ghost var draft := RecordOf(irx, l, moduleId, metadata, image, head, []);
      var exportIds := InsertExports(moduleId, l.exports);
      var record := RecordOf(irx, l, moduleId, metadata, image, head, exportIds);
      var inserted := modules.InsertAt(moduleId, record);
      if inserted.Err? {
        assert false;
      }
      head := metadata.address;
      order := [record] + order;
      LoadCompletes(s, Snap(memory, guest), irx, l, mem, draft, record);
    }

    // ----- Unloading

    /** The first other module whose descriptor links to `infoAddress`. */
    method FindPredecessor(id: u32, infoAddress: u32) returns (r: Option<ModuleRecord>)
      requires modules.Valid() && modules.firstId == 1
      ensures r.Some? ==> LinksTo(modules.View(), id, infoAddress, r.value)
      ensures r.None? ==> forall other :: !LinksTo(modules.View(), id, infoAddress, other)
    {
      hide LinksTo, Items;
      var items := modules.Iter();
      for k := 0 to |items|
        invariant forall j :: 0 <= j < k ==> items[j].0 == id || items[j].1.info.next != infoAddress
      {
        if items[k].0 != id && items[k].1.info.next == infoAddress {
          ItemLinks(modules.View(), items, k, id, infoAddress);
          return Some(items[k].1);
        }
      }
      NothingLinks(modules.View(), items, id, infoAddress);
      return None;
    }

    method RemoveExports(ids: seq<u32>)
      requires libraries.Valid() && libraries.firstId == 1
      requires forall x :: x in ids ==> 1 <= x <= |libraries.View()|
      modifies libraries, libraries.entries
      ensures libraries.Valid()
      ensures LibrariesRemoved(old(libraries.View()), libraries.View(), ids)
    {
      ghost var before := libraries.View();
      for k := 0 to |ids|
        invariant libraries.Valid()
        invariant LibrariesRemoved(before, libraries.View(), ids[..k])
      {
        var removed := libraries.Remove(ids[k]);
        assert ids[..k + 1] == ids[..k] + [ids[k]];
      }
      assert ids[..|ids|] == ids;
    }

    /** Whether one of a module's libraries is still bound by an importer. */
    method AnyInUse(ids: seq<u32>) returns (used: bool)
      requires libraries.Valid() && libraries.firstId == 1
      ensures used <==> exists x :: x in ids && InUse(libraries.View(), x)
    {
      for k := 0 to |ids|
        invariant forall x :: x in ids[..k] ==> !InUse(libraries.View(), x)
      {
        var library := libraries.Get(ids[k]);
        if library.Some? && library.value.users != 0 {
          assert InUse(libraries.View(), ids[k]);
          return true;
        }
        assert ids[..k + 1] == ids[..k] + [ids[k]];
      }
      assert ids[..|ids|] == ids;
      return false;
    }

    /**
     * Unlinks a load-only, no-resident or stopped-removable module and frees both of its blocks.
     * Any refusal leaves everything as it was.
     */
    method Unload(id: u32, memory: SystemMemory, guest: GuestRam) returns (r: Result<ModuleRecord, BiosError>)
      requires Valid(memory, guest)
      modifies Repr(), memory.Repr(), guest.bytes, guest`refusals
      ensures Valid(memory, guest)
      ensures Unloads(old(Snap(memory, guest)), Snap(memory, guest), id, r)
      ensures old(guest.refusals) == [] ==> guest.refusals == [] && (r.Err? ==> r.error != GuestFailure)
    {
      hide Consistent, Unlinked, Position, Disjoint, Live, InUse, LinksTo;
      ghost var s, k := Snap(memory, guest), Index(id);
      var checked := CheckUnload(id, memory, guest);
      if checked.Err? {
        return Err(checked.error);
      }
      var module_ := checked.value;
      var predecessor := FindPredecessor(id, module_.infoAddress);
      assert s.order[k] == module_ && s.order[k].id == id && s.modules == modules.View();
      Predecessor(s, k, predecessor);
      var written := WriteGuest(guest, if predecessor.Some? then predecessor.value.infoAddress else MODULE_HEAD_ADDRESS,
                                EncodeU32(module_.info.next));
      if written.Err? {
        return Err(written.error);
      }
      Unlink(module_, predecessor, memory, guest, s, k);
      return Ok(module_);
    }

    /** The module `id` names, unless its state or an importer forbids unloading it. */
    method CheckUnload(id: u32, memory: SystemMemory, ghost guest: GuestRam)
      returns (r: Result<ModuleRecord, BiosError>)
      requires Valid(memory, guest)
      ensures r.Ok? ==> Index(id) < |order| && r.value == order[Index(id)]
      ensures match UnloadCheck(Snap(memory, guest), id)
              case Some(e) => r == Err(e)
              case None => r.Ok?
    {
      hide Consistent, Position, Disjoint, Live, InUse;
      ghost var s, k := Snap(memory, guest), Index(id);
      var found := Find(id, memory, guest);
      if found.None? {
        return Err(Kernel(UnknownModule));
      }
      var module_ := found.value;
      if UnloadRefusal(module_.state).Some? {
        return Err(Kernel(UnloadRefusal(module_.state).value));
      }
      var used := AnyInUse(module_.exportIds);
      if used {
        return Err(Kernel(LibraryInUse));
      }
      BlockRecord(s, k);
      var metadata := memory.Block(module_.metadata.address);
      var image := memory.Block(module_.image.address);
      if metadata.None? || image.None? {
        assert false;
      }
      return Ok(module_);
    }

    /** The host side of an unload, once the guest list has been relinked. */
    method Unlink(module_: ModuleRecord, predecessor: Option<ModuleRecord>, memory: SystemMemory, ghost guest: GuestRam,
                  ghost s: Snapshot, ghost k: nat)
      requires Shape(memory, guest) && Consistent(s) && k < |s.order| && s.order[k] == module_
      requires Snap(memory, guest) == s.(mem := guest.View())
      requires predecessor == if k == 0 then None else Some(s.order[k - 1])
      requires WordWritten(s.mem, guest.View(), if k == 0 then MODULE_HEAD_ADDRESS else s.order[k - 1].infoAddress,
                           module_.info.next)
      modifies Repr(), memory.Repr()
      ensures Valid(memory, guest)
      ensures Unlinked(s, Snap(memory, guest), k)
    {
      hide Consistent, WordWritten, LibrariesRemoved, Disjoint, Live, Without, Released, TableWithout;
      BlockRecord(s, k);
      OwnBlocks(s, k);
      DropRecord(module_, predecessor, memory, guest, s, k);
      RemoveExports(module_.exportIds);
      ReleaseBlocks(memory, module_.metadata, module_.image);
      UnlinkConsistent(s, Snap(memory, guest), k);
    }

    /** Relinks the predecessor's record, or the head, and drops the module's own. */
    method DropRecord(module_: ModuleRecord, predecessor: Option<ModuleRecord>, ghost memory: SystemMemory,
                      ghost guest: GuestRam, ghost s: Snapshot, ghost k: nat)
      requires Shape(memory, guest) && Consistent(s) && k < |s.order| && s.order[k] == module_
      requires modules.View() == s.modules && order == s.order && head == s.head
      requires predecessor == if k == 0 then None else Some(s.order[k - 1])
      modifies this, modules, modules.entries
      ensures modules.Valid()
      ensures TableWithout(s.modules, modules.View(), s.order, k)
      ensures order == Without(s.order, k) && head == (if k == 0 then s.order[0].info.next else s.head)
    {
      hide Consistent, Without, Disjoint, NextAddress, OwnsExports, RecordOk, SystemMemory.Valid;
      HostRecord(s, k);
      TableRecord(s, k);
      if predecessor.Some? {
        TableRecord(s, k - 1);
        IdsApart(s, k - 1, k);
        var found := modules.Replace(predecessor.value.id, WithNext(predecessor.value, module_.info.next));
      } else {
        head := module_.info.next;
      }
      order := Without(order, k);
      var removed := modules.Remove(module_.id);
    }

    // ----- Export libraries and import bindings

    /** Registers a library that no module's load brought along. */
    method RegisterExport(moduleId: u32, library: ExportLibrary, ghost memory: SystemMemory, ghost guest: GuestRam)
      returns (r: Result<u32, KernelError>)
      requires Valid(memory, guest)
      modifies libraries, libraries.entries
      ensures Valid(memory, guest)
      ensures r.Ok? <==> ExportsFit(old(libraries.View()), [library])
      ensures r.Ok? ==> 1 <= r.value <= MAX_LIBRARIES && old(libraries.View())[r.value - 1].None?
      ensures r.Ok? ==> LibrariesBecome(old(Snap(memory, guest)), Snap(memory, guest),
                                        old(libraries.View())[r.value - 1 := Some(Register(moduleId, library))])
      ensures r.Err? ==> Snap(memory, guest) == old(Snap(memory, guest))
    {
      hide Consistent, Disjoint, ValidLibraryName;
      ghost var s := Snap(memory, guest);
      var fit := ValidateExports([library]);
      if fit.Err? {
        return Err(fit.error);
      }
      FullIffNoFree(libraries.View());
      r := libraries.Insert(Register(moduleId, library));
      if r.Err? {
        assert false;
      }
      assert [library][0] == library;
      RegisterConsistent(s, Snap(memory, guest), r.value - 1, Register(moduleId, library));
    }

    /** The first library that can serve an import. */
    method FindLibrary(name: Name, requiredVersion: u16) returns (r: Option<(u32, ExportRegistration)>)
      requires libraries.Valid() && libraries.firstId == 1
      ensures r.Some? ==> Provider(libraries.View(), r.value.0 - 1, name, requiredVersion)
      ensures r.Some? ==> libraries.View()[r.value.0 - 1] == Some(r.value.1)
      ensures r.None? ==> forall i :: !Provider(libraries.View(), i, name, requiredVersion)
    {
      var items := libraries.Iter();
      ItemsSpec(libraries.View(), 1);
      for k := 0 to |items|
        invariant forall j :: 0 <= j < k ==> !Provides(items[j].1, name, requiredVersion)
      {
        if Provides(items[k].1, name, requiredVersion) {
          assert libraries.View()[items[k].0 - 1] == Some(items[k].1);
          return Some(items[k]);
        }
      }
      NotProvided(libraries.View(), items, name, requiredVersion);
      return None;
    }

    /** Resolves and acquires an exported function of the named library. */
    method BindImport(name: Name, requiredVersion: u16, ordinal: u16, ghost memory: SystemMemory, ghost guest: GuestRam)
      returns (r: Result<ResolvedImport, KernelError>)
      requires Valid(memory, guest)
      modifies libraries.entries
      ensures Valid(memory, guest)
      ensures Binds(old(Snap(memory, guest)), Snap(memory, guest), name, requiredVersion, ordinal, r)
    {
      hide Consistent, Disjoint, ValidLibraryName;
      ghost var s := Snap(memory, guest);
      if !ValidLibraryName(name) {
        return Err(IllegalLibrary);
      }
      var provider := FindLibrary(name, requiredVersion);
      if provider.None? {
        return Err(LibraryNotFound);
      }
      var (id, library) := provider.value;
      if ordinal >= |library.functions| || library.functions[ordinal] == 0 {
        return Err(IllegalLibrary);
      }
      if library.users + 1 >= U32_LIMIT {
        return Err(NoMemory);
      }
      var found := libraries.Replace(id, library.(users := library.users + 1));
      UsersConsistent(s, Snap(memory, guest), id - 1, library.users + 1);
      return Ok(ResolvedImport(id, library.functions[ordinal]));
    }

    /** Undoes a binding, as `BindUnbind` says. */
    method UnbindImport(id: u32, ghost memory: SystemMemory, ghost guest: GuestRam) returns (r: Result<(), KernelError>)
      requires Valid(memory, guest)
      modifies libraries.entries
      ensures Valid(memory, guest)
      ensures Unbinds(old(Snap(memory, guest)), Snap(memory, guest), id, r)
    {
      hide Consistent, Disjoint;
      ghost var s := Snap(memory, guest);
      var library := libraries.Get(id);
      if library.None? {
        return Err(LibraryNotFound);
      }
      if library.value.users == 0 {
        return Err(IllegalLibrary);
      }
      var found := libraries.Replace(id, library.value.(users := library.value.users - 1));
      UsersConsistent(s, Snap(memory, guest), id - 1, library.value.users - 1);
      return Ok(());
    }
  }

  /** Import linking compares the name and the major version only. */
  predicate Provides(library: ExportRegistration, name: Name, requiredVersion: u16)
  {
    library.name == name && library.version / 256 == requiredVersion / 256
  }

  /** A library may be registered under exactly the names that the name field of a link table can spell. */
  lemma LibraryNameSpelled(name: Name)
    requires |name| <= 8
    ensures ValidLibraryName(name) <==> FixedName(name + LinkTables.Zeros(8 - |name|)) == Some(name)
  {
    hide FixedName;
    if ValidLibraryName(name) {
      FieldIsName(name);
    }
  }

  /** A module may bear any name of at most 127 characters from blank to tilde. */
  lemma ModuleNames(name: Name)
    ensures ValidModuleName(name) <==>
            1 <= |name| <= 127 && forall k :: 0 <= k < |name| ==> ' ' as int <= name[k] <= '~' as int
  {
    forall k | 0 <= k < |name|
      ensures name[k] in name
    {
    }
  }

  /** The major version decides: any minor version serves an import that asks for any other. */
  lemma MajorDecides(library: ExportRegistration, name: Name, major: u8, minor: u8, asked: u8, askedMinor: u8)
    requires library.version == 0x100 * major + minor
    ensures Provides(library, name, 0x100 * asked + askedMinor) <==> library.name == name && major == asked
  {
  }

  /** What a load registered, an import finds: the exported functions, so far without a user. */
  lemma LoadedExports(s: Snapshot, s': Snapshot, irx: IrxModule, l: LoadedModule, id: u32, k: nat) returns (i: int)
    requires irx.Valid() && Loads(s, s', irx, l, id) && k < |l.exports|
    ensures Provider(s'.libraries, i, l.exports[k].name, l.exports[k].version)
    ensures var library := s'.libraries[i].value;
            && library.functions == l.exports[k].functions && library.users == 0 && library.moduleId == id
            && library.mode == l.exports[k].mode && library.tableAddress == l.exports[k].tableAddress
  {
    hide Published, Records, ReservedBoth, ExportsFit, StagedIn, ImageIn, IrxModule.Valid;
    i := s'.order[0].exportIds[k] - 1;
  }

  /** Slot of the library that serves an import; names are unique, so there is at most one. */
  ghost predicate Provider(libraries: seq<Option<ExportRegistration>>, i: int, name: Name, requiredVersion: u16)
  {
    0 <= i < |libraries| && libraries[i].Some? && Provides(libraries[i].value, name, requiredVersion)
  }

  /** The `k`-th user count raised or lowered, everything else untouched. */
  ghost predicate Recounted(s: Snapshot, s': Snapshot, i: int, change: int)
  {
    && 0 <= i < |s.libraries| && s.libraries[i].Some?
    && 0 <= s.libraries[i].value.users + change < U32_LIMIT
    && LibrariesBecome(s, s', s.libraries[i :=
                                            Some(s.libraries[i].value.(users := s.libraries[i].value.users + change))])
  }

  ghost predicate Binds(s: Snapshot, s': Snapshot, name: Name, requiredVersion: u16, ordinal: u16,
                        r: Result<ResolvedImport, KernelError>)
  {
    match r
    case Ok(import_) =>
      && ValidLibraryName(name)
      && var i := import_.libraryId - 1;
      && Provider(s.libraries, i, name, requiredVersion)
      && ordinal < |s.libraries[i].value.functions|
      && import_.address == s.libraries[i].value.functions[ordinal] != 0
      && Recounted(s, s', i, 1)
    case Err(e) =>
      && s' == s
      && (e == LibraryNotFound <==>
            ValidLibraryName(name) && forall i :: !Provider(s.libraries, i, name, requiredVersion))
      && (e == NoMemory ==>
            && ValidLibraryName(name)
            && exists i :: Provider(s.libraries, i, name, requiredVersion)
                           && ordinal < |s.libraries[i].value.functions| && s.libraries[i].value.functions[ordinal] != 0
                           && s.libraries[i].value.users == U32_LIMIT - 1)
      && (e == IllegalLibrary && ValidLibraryName(name) ==>
            exists i :: Provider(s.libraries, i, name, requiredVersion)
                        && (ordinal < |s.libraries[i].value.functions| ==>
                              s.libraries[i].value.functions[ordinal] == 0))
      && e in {LibraryNotFound, NoMemory, IllegalLibrary}
  }

  ghost predicate Unbinds(s: Snapshot, s': Snapshot, id: u32, r: Result<(), KernelError>)
  {
    if !(1 <= id <= |s.libraries| && s.libraries[id - 1].Some?) then r == Err(LibraryNotFound) && s' == s
    else if s.libraries[id - 1].value.users == 0 then r == Err(IllegalLibrary) && s' == s
    else r == Ok(()) && Recounted(s, s', id - 1, -1)
  }

  lemma NotProvided(libraries: seq<Option<ExportRegistration>>, items: seq<(u32, ExportRegistration)>, name: Name,
                    requiredVersion: u16)
    requires items == Items(libraries, 1)
    requires forall j :: 0 <= j < |items| ==> !Provides(items[j].1, name, requiredVersion)
    ensures forall i :: !Provider(libraries, i, name, requiredVersion)
  {
    ItemsSpec(libraries, 1);
    forall i | 0 <= i < |libraries| && libraries[i].Some?
      ensures !Provides(libraries[i].value, name, requiredVersion)
    {
      assert (1 + i, libraries[i].value) in items;
    }
  }

  lemma ProviderIs(s: Snapshot, i: nat, name: Name, requiredVersion: u16)
    requires Consistent(s) && Provider(s.libraries, i, name, requiredVersion)
    ensures forall j :: Provider(s.libraries, j, name, requiredVersion) ==> j == i
  {
  }

  /** Releasing a binding undoes acquiring it. */
  lemma BindUnbind(s: Snapshot, bound: Snapshot, s': Snapshot, name: Name, requiredVersion: u16, ordinal: u16,
                   import_: ResolvedImport, r: Result<(), KernelError>)
    requires Binds(s, bound, name, requiredVersion, ordinal, Ok(import_))
    requires Unbinds(bound, s', import_.libraryId, r)
    ensures r.Ok? && s' == s
  {
  }

  /** A bound library pins its module: unloading it is refused until the binding is released. */
  lemma BoundPinsModule(s: Snapshot, bound: Snapshot, k: nat, name: Name, requiredVersion: u16, ordinal: u16,
                        import_: ResolvedImport)
    requires Consistent(s) && k < |s.order| && import_.libraryId in s.order[k].exportIds
    requires Binds(s, bound, name, requiredVersion, ordinal, Ok(import_))
    ensures UnloadCheck(bound, s.order[k].id).Some?
  {
    hide Consistent, ValidLibraryName;
    PositionOf(s, k);
    assert InUse(bound.libraries, import_.libraryId);
  }

  lemma ItemLinks(modules: seq<Option<ModuleRecord>>, items: seq<(u32, ModuleRecord)>, k: nat, id: u32,
                  infoAddress: u32)
    requires items == Items(modules, 1) && k < |items|
    requires items[k].0 != id && items[k].1.info.next == infoAddress
    ensures LinksTo(modules, id, infoAddress, items[k].1)
  {
    ItemsSpec(modules, 1);
    assert modules[items[k].0 - 1] == Some(items[k].1);
  }

  lemma NothingLinks(modules: seq<Option<ModuleRecord>>, items: seq<(u32, ModuleRecord)>, id: u32, infoAddress: u32)
    requires items == Items(modules, 1)
    requires forall j :: 0 <= j < |items| ==> items[j].0 == id || items[j].1.info.next != infoAddress
    ensures forall other :: !LinksTo(modules, id, infoAddress, other)
  {
    ItemsSpec(modules, 1);
    forall i | 0 <= i < |modules| && i + 1 != id && modules[i].Some?
      ensures modules[i].value.info.next != infoAddress
    {
      assert (1 + i, modules[i].value) in items;
    }
  }

  lemma PositionOf(s: Snapshot, k: nat)
    requires Consistent(s) && k < |s.order|
    ensures Position(s.order, s.order[k].id) == k
  {
  }

  /** Why an unload is refused before the guest is written to: the checks in the order they run. */
  ghost function UnloadCheck(s: Snapshot, id: u32): Option<BiosError>
  {
    var k := Position(s.order, id);
    if k == |s.order| then Some(Kernel(UnknownModule))
    else if UnloadRefusal(s.order[k].state).Some? then Some(Kernel(UnloadRefusal(s.order[k].state).value))
    else if exists x :: x in s.order[k].exportIds && InUse(s.libraries, x) then Some(Kernel(LibraryInUse))
    else None
  }

  /** An unload seen on snapshots: refused without effect, or the module unlinked. */
  ghost predicate Unloads(s: Snapshot, s': Snapshot, id: u32, r: Result<ModuleRecord, BiosError>)
  {
    var k := Position(s.order, id);
    match UnloadCheck(s, id)
    case Some(e) => r == Err(e) && s' == s
    case None => if r.Ok? then r.value == s.order[k] && Unlinked(s, s', k) else r.error == GuestFailure && s' == s
  }

  lemma OwnBlocks(s: Snapshot, k: nat)
    requires Consistent(s) && k < |s.order|
    ensures s.order[k].metadata.address != s.order[k].image.address
    ensures forall x :: x in s.order[k].exportIds ==> 1 <= x <= |s.libraries|
  {
  }

  /** Exactly the newer neighbour in the list links to a module; the newest one has none. */
  lemma Predecessor(s: Snapshot, k: nat, found: Option<ModuleRecord>)
    requires Consistent(s) && k < |s.order|
    requires found.Some? ==> LinksTo(s.modules, s.order[k].id, s.order[k].infoAddress, found.value)
    requires found.None? ==> forall other :: !LinksTo(s.modules, s.order[k].id, s.order[k].infoAddress, other)
    ensures found == if k == 0 then None else Some(s.order[k - 1])
    ensures var at := if k == 0 then MODULE_HEAD_ADDRESS else s.order[k - 1].infoAddress;
            MODULE_HEAD_ADDRESS <= at && at + 4 <= |s.mem|
  {
    hide Consistent, Encode;
    ArenaOf(s);
    if k > 0 {
      FlagsInBounds(s, k - 1);
      HostRecord(s, k - 1);
      IdsApart(s, k - 1, k);
      assert LinksTo(s.modules, s.order[k].id, s.order[k].infoAddress, s.order[k - 1]);
    }
    if found.Some? {
      var i :| 0 <= i < |s.modules| && i + 1 != s.order[k].id && s.modules[i] == Some(found.value)
               && found.value.info.next == s.order[k].infoAddress;
      ListedRecord(s, i);
      var j :| 0 <= j < |s.order| && s.order[j] == found.value;
      HostRecord(s, j);
      FlagsInBounds(s, k);
      if j + 1 < |s.order| && j + 1 != k {
        MetadataApart(s, j + 1, k);
      }
    }
  }

  lemma IdsApart(s: Snapshot, j: nat, k: nat)
    requires Consistent(s) && j < |s.order| && k < |s.order| && j < k
    ensures s.order[j].id != s.order[k].id
  {
    hide TableHolds, TableListed, Linked, AllOk, AllOwnExports, UniqueNames, GuestConsistent, MemoryConsistent;
  }

  ghost predicate LinksTo(modules: seq<Option<ModuleRecord>>, id: u32, infoAddress: u32, other: ModuleRecord)
  {
    exists i :: 0 <= i < |modules| && i + 1 != id && modules[i] == Some(other) && other.info.next == infoAddress
  }

  predicate InUse(libraries: seq<Option<ExportRegistration>>, id: int)
  {
    1 <= id <= |libraries| && libraries[id - 1].Some? && libraries[id - 1].value.users != 0
  }

  /** The descriptor a load publishes. */
  function InfoOf(irx: IrxModule, l: LoadedModule, id: u32, metadata: Allocation, head: u32): ModuleInfo
    requires id <= MAX_MODULES && metadata.address + MODULE_INFO_SIZE < U32_LIMIT
  {
    ModuleInfo(head, metadata.address + MODULE_INFO_SIZE, irx.description.version, NewFlags(ModuleState.Loaded), id, 0,
               l.entry, l.globalPointer, l.address, irx.description.textSize, irx.description.dataSize,
               irx.description.bssSize, 0, 0)
  }

  function RecordOf(irx: IrxModule, l: LoadedModule, id: u32, metadata: Allocation, image: Allocation, head: u32,
                    exportIds: seq<u32>): ModuleRecord
    requires id <= MAX_MODULES && metadata.address + MODULE_INFO_SIZE < U32_LIMIT
  {
    ModuleRecord(id, irx.description.name, irx.description.version, ModuleState.Loaded, metadata.address,
                 InfoOf(irx, l, id, metadata, head), metadata, image, l.imports, exportIds)
  }

  lemma PlacedScratch(s: Snapshot, mem: seq<u8>, irx: IrxModule, image: Allocation, l: LoadedModule)
    requires irx.Valid() && ImagePlaced(s, mem, irx, image, l)
    ensures FreeScratch(s, mem) && |mem| == |s.mem|
  {
  }

  lemma ShortName(s: Snapshot, after: seq<Option<Allocation>>, irx: IrxModule, metadata: Allocation, image: Allocation)
    requires ReservedBoth(s.slots, Middle(s, metadata), after, s.arenaStart, s.arenaEnd, irx, metadata, image)
    ensures |irx.description.name| <= 127
  {
  }

  /** A successful load: the next free identifier, fresh blocks, the relocated image, every export. */
  ghost predicate Loads(s: Snapshot, s': Snapshot, irx: IrxModule, l: LoadedModule, id: u32)
    requires irx.Valid()
  {
    && s'.order != []
    && Published(s, s', s'.order[0])
    && Records(s, s'.order[0], irx, l, id)
    && ReservedBoth(s.slots, Middle(s, s'.order[0].metadata), s'.slots, s.arenaStart, s.arenaEnd, irx,
                    s'.order[0].metadata, s'.order[0].image)
    && ExportsFit(s.libraries, l.exports)
    && Registered(s.libraries, s'.libraries, id, l.exports, s'.order[0].exportIds)
    && StagedIn(irx, s'.order[0].image, l)
    && ImageIn(s'.mem, s'.order[0].image, irx.Staged(s'.order[0].image.address).value)
  }

  /**
   * What guest code reads after a load of `irx` to `at`: the head word names the descriptor at `a`, and each of its
   * fields is what the module file and the place of the image make it.
   */
  predicate LoadReads(mem: seq<u8>, a: int, irx: IrxModule, head: u32, id: u32, at: u32)
  {
    var name, base := irx.description.name, if irx.description.variant.Executable? then 0 else at;
    && 0 <= a && 0x264 <= |mem| && a + 48 + |name| + 1 <= |mem|
    && U32At(mem, 0x260) == a && U32At(mem, a) == head && U32At(mem, a + 4) == a + 48
    && U16At(mem, a + 8) == irx.description.version && U16At(mem, a + 10) == 1
    && U16At(mem, a + 12) == id && U16At(mem, a + 14) == 0
    && U32At(mem, a + 16) == irx.metadata.entry + base && U32At(mem, a + 20) == irx.metadata.globalPointer + base
    && U32At(mem, a + 24) == at && U32At(mem, a + 28) == irx.description.textSize
    && U32At(mem, a + 32) == irx.description.dataSize && U32At(mem, a + 36) == irx.description.bssSize
    && U32At(mem, a + 40) == 0 && U32At(mem, a + 44) == 0
    && mem[a + 48..a + 48 + |name|] == name && mem[a + 48 + |name|] == 0
  }

  lemma LoadIsRead(s: Snapshot, s': Snapshot, irx: IrxModule, l: LoadedModule, id: u32)
    requires irx.Valid() && Consistent(s') && Loads(s, s', irx, l, id)
    ensures LoadReads(s'.mem, s'.order[0].infoAddress, irx, s.head, id, s'.order[0].image.address)
  {
    hide Consistent, Published, ReservedBoth, ExportsFit, Registered, ImageIn, StagedIn, IrxModule.Valid, Encode;
    var r := s'.order[0];
    GuestRecord(s', 0);
    NextInGuest(s'.mem, r);
    EncodedReads(s'.mem, r.infoAddress, r.info);
    NameReads(s'.mem, r);
    StoredHead(s');
    StagedEntry(irx, r.image, l);
  }

  lemma NameReads(mem: seq<u8>, r: ModuleRecord)
    requires Mirrored(mem, r)
    ensures var a := r.infoAddress + 48;
            a + |r.name| + 1 <= |mem| && mem[a..a + |r.name|] == r.name && mem[a + |r.name|] == 0
  {
    hide Encode;
    var a, b := r.infoAddress, r.GuestBytes();
    assert b[48..48 + |r.name|] == r.name && b[48 + |r.name|] == 0;
    SliceOfSlice(mem, a, |b|, 48, 48 + |r.name|);
    assert mem[a..a + |b|][48 + |r.name|] == mem[a + 48 + |r.name|];
  }

  lemma SliceOfSlice(mem: seq<u8>, a: nat, n: nat, i: nat, j: nat)
    requires i <= j <= n && a + n <= |mem|
    ensures mem[a..a + n][i..j] == mem[a + i..a + j]
  {
    var inner, outer := mem[a..a + n][i..j], mem[a + i..a + j];
    assert |inner| == |outer|;
    forall k | 0 <= k < j - i
      ensures inner[k] == outer[k]
    {
      assert inner[k] == mem[a..a + n][i + k] == mem[a + (i + k)];
    }
  }

  lemma StagedEntry(irx: IrxModule, image: Allocation, l: LoadedModule)
    requires irx.Valid() && StagedIn(irx, image, l)
    ensures var base := if irx.description.variant.Executable? then 0 else image.address;
            && l.entry == irx.metadata.entry + base && l.globalPointer == irx.metadata.globalPointer + base
            && l.address == image.address <= l.entry && l.entry + 4 <= image.address + |irx.image|
  {
    hide TablesWithin, IrxModule.Valid, IrxModule.Staged;
  }

  /** A module is entered where its descriptor says. */
  lemma EntryReads(s: Snapshot, k: nat)
    requires Consistent(s) && k < |s.order|
    ensures var r := s.order[k];
            && r.infoAddress + 48 <= |s.mem| && r.info.entry == U32At(s.mem, r.infoAddress + 16)
            && r.info.globalPointer == U32At(s.mem, r.infoAddress + 20)
  {
    hide Consistent, Encode, U32At, U16At, NewFlags;
    DescriptorAt(s, k);
  }

  ghost predicate Records(s: Snapshot, r: ModuleRecord, irx: IrxModule, l: LoadedModule, id: u32)
  {
    && id == FirstFree(s.modules) + 1 <= MAX_MODULES
    && r.metadata.address + MODULE_INFO_SIZE < U32_LIMIT
    && r == RecordOf(irx, l, id, r.metadata, r.image, s.head, r.exportIds)
  }

  /** A refused load: nothing but free memory may differ, so the guest list is what it was. */
  ghost predicate LoadRefused(s: Snapshot, s': Snapshot)
  {
    s' == s.(mem := s'.mem) && FreeScratch(s, s'.mem)
  }

  lemma LoadedRecordOk(s: Snapshot, r: ModuleRecord, irx: IrxModule, l: LoadedModule, id: u32)
    requires Records(s, r, irx, l, id) && r.metadata.requestedSize == MODULE_INFO_SIZE + |irx.description.name| + 1
    ensures RecordOk(r) && r.info.next == s.head
  {
  }

  lemma MirrorsSame(mem: seq<u8>, draft: ModuleRecord, r: ModuleRecord)
    requires Mirrored(mem, draft)
    requires r.infoAddress == draft.infoAddress && r.info == draft.info && r.name == draft.name
    ensures Mirrored(mem, r)
  {
  }

  /** The steps of a load add up to one published module. */
  lemma LoadCompletes(s: Snapshot, s': Snapshot, irx: IrxModule, l: LoadedModule, mem: seq<u8>, draft: ModuleRecord,
                      r: ModuleRecord)
    requires Consistent(s) && irx.Valid()
    requires ReservedBoth(s.slots, Middle(s, r.metadata), s'.slots, s.arenaStart, s.arenaEnd, irx, r.metadata, r.image)
    requires ImagePlaced(s, mem, irx, r.image, l)
    requires Mirrored(s'.mem, draft) && HeadStored(s'.mem, r.metadata.address)
    requires r.infoAddress == draft.infoAddress && r.info == draft.info && r.name == draft.name
    requires OnlyFreeTouched(s, s'.mem) && OnlyBlockTouched(mem, s'.mem, r.metadata)
    requires ExportsFit(s.libraries, l.exports) && Registered(s.libraries, s'.libraries, r.id, l.exports, r.exportIds)
    requires FirstFree(s.modules) < |s.modules| && Records(s, r, irx, l, r.id)
    requires s'.modules == s.modules[r.id - 1 := Some(r)] && s'.order == [r] + s.order && s'.head == r.metadata.address
    requires s'.arenaStart == s.arenaStart && s'.arenaEnd == s.arenaEnd
    ensures Loads(s, s', irx, l, r.id) && Consistent(s')
  {
    hide Consistent, ReservedBoth, ImagePlaced, Mirrored, HeadStored, OnlyFreeTouched, OnlyBlockTouched, ExportsFit;
    hide Registered, Records, Published, Disjoint, Released, IsFreeRange, RecordOk, ImageIn, StagedIn;
    ArenaOf(s);
    BothReserved(s, Middle(s, r.metadata), s'.slots, irx, r.metadata, r.image);
    LoadPublishes(s, s', irx, l, draft, r);
    PlacedImage(s, s', irx, l, mem, r);
    PublishConsistent(s, s', r);
  }

  lemma Needs(s: Snapshot, irx: IrxModule, p: Placement)
    requires irx.Valid() && Loadable(s, irx, p)
    ensures FirstFree(s.modules) < |s.modules| && ValidModuleName(irx.description.name)
    ensures p.metadata.address + p.metadata.requestedSize <= |s.mem|
  {
    hide StagedIn, ExportsFit, Reserved, Placed, ValidModuleName;
  }

  lemma ImageNeeds(s: Snapshot, irx: IrxModule, p: Placement)
    requires irx.Valid() && Loadable(s, irx, p)
    ensures StagedIn(irx, p.image, p.loaded) && ExportsFit(s.libraries, p.loaded.exports)
    ensures p.image.address + |irx.image| <= |s.mem|
    ensures Stageable(irx, p.image.address, p.image.address, p.image.address + p.image.requestedSize)
  {
    hide StagedAs, ExportsFit, Placed, ValidModuleName;
  }

  lemma IsStaged(irx: IrxModule, image: Allocation, l: LoadedModule)
    requires irx.Valid() && irx.Staged(image.address).Ok?
    requires StagedAs(irx, image.address, image.address, image.address + image.requestedSize,
                      irx.Staged(image.address).value, l)
    ensures StagedIn(irx, image, l)
  {
  }

  lemma StagedSame(irx: IrxModule, image: Allocation, l: LoadedModule, l': LoadedModule)
    requires irx.Valid() && StagedIn(irx, image, l) && StagedIn(irx, image, l')
    ensures l == l'
  {
    hide StagedAs;
    StagedOnce(irx, image.address, image.address, image.address + image.requestedSize,
               irx.Staged(image.address).value, l, irx.Staged(image.address).value, l');
  }

  /** A load that succeeded had all it needs. */
  lemma WasLoadable(s: Snapshot, s': Snapshot, irx: IrxModule, l: LoadedModule, id: u32)
    requires irx.Valid() && Loads(s, s', irx, l, id)
    ensures exists p :: Loadable(s, irx, p)
  {
    hide StagedIn, ExportsFit, Reserved, Placed, ValidModuleName, Registered;
    var r := s'.order[0];
    assert Loadable(s, irx, Placement(Middle(s, r.metadata), s'.slots, r.metadata, r.image, l));
  }

  lemma PlacedImage(s: Snapshot, s': Snapshot, irx: IrxModule, l: LoadedModule, mem: seq<u8>, r: ModuleRecord)
    requires irx.Valid() && ImagePlaced(s, mem, irx, r.image, l) && OnlyBlockTouched(mem, s'.mem, r.metadata)
    requires Apart(r.metadata, r.image) && MODULE_HEAD_ADDRESS + 4 <= r.image.address
    requires r.image.requestedSize <= r.image.size
    ensures StagedIn(irx, r.image, l) && ImageIn(s'.mem, r.image, irx.Staged(r.image.address).value)
  {
  }

  lemma LoadPublishes(s: Snapshot, s': Snapshot, irx: IrxModule, l: LoadedModule, draft: ModuleRecord, r: ModuleRecord)
    requires irx.Valid() && Disjoint(s.slots, s.arenaStart, s.arenaEnd) && UniqueNames(s.libraries)
    requires ReservedBoth(s.slots, Middle(s, r.metadata), s'.slots, s.arenaStart, s.arenaEnd, irx, r.metadata, r.image)
    requires Mirrored(s'.mem, draft) && HeadStored(s'.mem, r.metadata.address)
    requires r.infoAddress == draft.infoAddress && r.info == draft.info && r.name == draft.name
    requires OnlyFreeTouched(s, s'.mem)
    requires ExportsFit(s.libraries, l.exports) && Registered(s.libraries, s'.libraries, r.id, l.exports, r.exportIds)
    requires FirstFree(s.modules) < |s.modules| && Records(s, r, irx, l, r.id)
    requires s'.modules == s.modules[r.id - 1 := Some(r)] && s'.order == [r] + s.order && s'.head == r.metadata.address
    requires s'.arenaStart == s.arenaStart && s'.arenaEnd == s.arenaEnd
    ensures Published(s, s', r)
  {
    hide Mirrored, HeadStored, OnlyFreeTouched, ExportsFit, Registered, Disjoint, Reserved, Placed, Released,
         IsFreeRange;
    hide RecordOk, UniqueNames, ValidModuleName, LibrariesAdded, BlocksAdded, WellFormed;
    BothReserved(s, Middle(s, r.metadata), s'.slots, irx, r.metadata, r.image);
    TwoReservations(s, Middle(s, r.metadata), s'.slots, r.metadata.requestedSize, SYSMEM_QUANTUM,
                    irx.AllocationSize(), Max(irx.alignment, SYSMEM_QUANTUM), r.metadata, r.image);
    LoadedRecordOk(s, r, irx, l, r.id);
    MirrorsSame(s'.mem, draft, r);
    RegisteredLibraries(s.libraries, s'.libraries, l.exports, r);
  }

  lemma ScratchKeeps(s: Snapshot, mem: seq<u8>)
    requires Consistent(s) && FreeScratch(s, mem)
    ensures Consistent(s.(mem := mem))
  {
    hide Consistent, FreeByte;
    ScratchWrites(s, mem);
  }

  ghost function Middle(s: Snapshot, metadata: Allocation): seq<Option<Allocation>>
  {
    if FirstFree(s.slots) < |s.slots| then s.slots[FirstFree(s.slots) := Some(metadata)] else s.slots
  }

  /** The relocated image sits in its block and everything that was published is as before. */
  ghost predicate ImagePlaced(s: Snapshot, mem: seq<u8>, irx: IrxModule, image: Allocation, l: LoadedModule)
    requires irx.Valid()
  {
    && FreeScratch(s, mem)
    && StagedIn(irx, image, l)
    && ImageIn(mem, image, irx.Staged(image.address).value)
  }

  /** The module can be relocated into this block, as `l` describes. */
  ghost predicate StagedIn(irx: IrxModule, image: Allocation, l: LoadedModule)
    requires irx.Valid()
  {
    && irx.Staged(image.address).Ok?
    && StagedAs(irx, image.address, image.address, image.address + image.requestedSize,
                irx.Staged(image.address).value, l)
  }

  ghost predicate ImageIn(mem: seq<u8>, b: Allocation, image: seq<u8>)
  {
    |image| == b.requestedSize && b.address + |image| <= |mem| && mem[b.address..b.address + |image|] == image
  }

  lemma ArenaOf(s: Snapshot)
    requires Consistent(s)
    ensures Disjoint(s.slots, s.arenaStart, s.arenaEnd) && MODULE_HEAD_ADDRESS + 4 <= s.arenaStart
    ensures MODULE_HEAD_ADDRESS + 4 <= |s.mem| && UniqueNames(s.libraries)
  {
  }

  lemma Untouched(s: Snapshot)
    ensures FreeScratch(s, s.mem)
  {
  }

  lemma BothReserved(s: Snapshot, mid: seq<Option<Allocation>>, after: seq<Option<Allocation>>, irx: IrxModule,
                     metadata: Allocation, image: Allocation)
    requires Disjoint(s.slots, s.arenaStart, s.arenaEnd)
    requires ReservedBoth(s.slots, mid, after, s.arenaStart, s.arenaEnd, irx, metadata, image)
    ensures mid == Middle(s, metadata)
    ensures Live(after, metadata) && Live(after, image) && metadata.address != image.address
    ensures Released(Released(after, image.address), metadata.address) == s.slots
    ensures IsFreeRange(s.slots, s.arenaStart, s.arenaEnd, image.address, image.size)
    ensures IsFreeRange(s.slots, s.arenaStart, s.arenaEnd, metadata.address, metadata.size)
    ensures Apart(metadata, image) && Disjoint(after, s.arenaStart, s.arenaEnd)
    ensures s.arenaStart <= image.address && image.requestedSize == irx.AllocationSize() <= image.size
            && image.End() <= s.arenaEnd
    ensures s.arenaStart <= metadata.address && metadata.requestedSize <= metadata.size && metadata.End() <= s.arenaEnd
    ensures metadata.requestedSize == MODULE_INFO_SIZE + |irx.description.name| + 1
  {
    hide Disjoint, Placed, Released, IsFreeRange, ValidModuleName;
    TwoReservations(s, mid, after, metadata.requestedSize, SYSMEM_QUANTUM, irx.AllocationSize(),
                    Max(irx.alignment, SYSMEM_QUANTUM), metadata, image);
  }

  /** Writing the image into its free block touches nothing published. */
  lemma ImageWritten(s: Snapshot, irx: IrxModule, image: Allocation, l: LoadedModule, mem: seq<u8>)
    requires irx.Valid() && StagedIn(irx, image, l)
    requires IsFreeRange(s.slots, s.arenaStart, s.arenaEnd, image.address, image.size)
    requires MODULE_HEAD_ADDRESS + 4 <= s.arenaStart <= image.address
    requires image.requestedSize == irx.AllocationSize() <= image.size && image.address + |irx.image| <= |s.mem|
    requires mem == Splice(s.mem, image.address, irx.Staged(image.address).value)
    ensures ImagePlaced(s, mem, irx, image, l)
    ensures FreeScratch(s, mem)
  {
  }

  lemma RegisterNone(libraries: seq<Option<ExportRegistration>>, moduleId: u32)
    ensures Registered(libraries, libraries, moduleId, [], [])
  {
  }

  // ----- Reservation and rollback

  /** Two reservations in a row: `mid` is the table after the first. */
  ghost predicate ReservedBoth(slots: seq<Option<Allocation>>, mid: seq<Option<Allocation>>,
                               after: seq<Option<Allocation>>, start: u32, end: u32, irx: IrxModule,
                               metadata: Allocation, image: Allocation)
  {
    && ValidModuleName(irx.description.name)
    && Reserved(slots, mid, start, end, MODULE_INFO_SIZE + |irx.description.name| + 1, SYSMEM_QUANTUM, metadata)
    && Reserved(mid, after, start, end, irx.AllocationSize(), Max(irx.alignment, SYSMEM_QUANTUM), image)
    && Placed(slots, start, end, First, 0, metadata)
    && Placed(mid, start, end, if irx.description.variant.Executable? then Address else First, irx.preferredAddress,
              image)
  }

  /** Where a load would put a module, and what it would find there. */
  datatype Placement = Placement(
    mid: seq<Option<Allocation>>, after: seq<Option<Allocation>>, metadata: Allocation, image: Allocation,
    loaded: LoadedModule)
  {
    ghost predicate Reserves(slots: seq<Option<Allocation>>, start: u32, end: u32, irx: IrxModule)
    {
      ReservedBoth(slots, mid, after, start, end, irx, metadata, image)
    }
  }

  /**
   * All that a load needs: a free module slot, room for both blocks, an image that relocates, and exports that may
   * be registered.
   */
  ghost predicate Loadable(s: Snapshot, irx: IrxModule, p: Placement)
    requires irx.Valid()
  {
    && FirstFree(s.modules) < |s.modules|
    && p.Reserves(s.slots, s.arenaStart, s.arenaEnd, irx)
    && p.metadata.address + p.metadata.requestedSize <= |s.mem| && p.image.address + p.image.requestedSize <= |s.mem|
    && StagedIn(irx, p.image, p.loaded)
    && ExportsFit(s.libraries, p.loaded.exports)
  }

  /** Reserves the descriptor's block, then the image's; a refusal of either gives both back. */
  method Reserve(irx: IrxModule, memory: SystemMemory, ghost hope: Option<Placement>)
    returns (r: Result<(Allocation, Allocation), BiosError>, ghost mid: seq<Option<Allocation>>)
    requires memory.Valid() && irx.Valid() && ValidModuleName(irx.description.name)
    modifies memory.Repr()
    ensures memory.Valid()
    ensures r.Ok? ==>
              ReservedBoth(old(memory.View()), mid, memory.View(), memory.start, memory.end, irx, r.value.0, r.value.1)
    ensures r.Err? ==> memory.View() == old(memory.View())
    ensures hope.Some? && hope.value.Reserves(old(memory.View()), memory.start, memory.end, irx) ==>
              r == Ok((hope.value.metadata, hope.value.image))
  {
    hide Refusal, Satisfiable, Reserved, Placed, Released;
    ghost var slots := memory.View();
    ghost var hoped := hope.Some? && hope.value.Reserves(slots, memory.start, memory.end, irx);
    if hoped {
      CanReserve(slots, hope.value.mid, memory.start, memory.end, First, MODULE_INFO_SIZE + |irx.description.name| + 1,
                 0, SYSMEM_QUANTUM, hope.value.metadata);
    }
    var metadata := memory.Allocate(First, MODULE_INFO_SIZE + |irx.description.name| + 1, 0);
    mid := memory.View();
    if metadata.Err? {
      return Err(Kernel(metadata.error)), mid;
    }
    var mode := if irx.description.variant.Executable? then Address else First;
    var address := if mode == Address then irx.preferredAddress else 0;
    if hoped {
      SameBlock(slots, mid, hope.value.mid, memory.start, memory.end, First,
                MODULE_INFO_SIZE + |irx.description.name| + 1, 0,
                SYSMEM_QUANTUM, metadata.value, hope.value.metadata);
      CanReserve(mid, hope.value.after, memory.start, memory.end, mode, irx.AllocationSize(), address,
                 Max(irx.alignment, SYSMEM_QUANTUM), hope.value.image);
    }
    var image := memory.AllocateAligned(mode, irx.AllocationSize(), address, Max(irx.alignment, SYSMEM_QUANTUM));
    if image.Err? {
      AllocateThenFree(old(memory.View()), mid, memory.start, memory.end, metadata.value.requestedSize, SYSMEM_QUANTUM,
                       metadata.value);
      var freed := memory.Free(metadata.value.address);
      return Err(Kernel(image.error)), mid;
    }
    if hoped {
      SameBlock(mid, memory.View(), hope.value.after, memory.start, memory.end, mode, irx.AllocationSize(), address,
                Max(irx.alignment, SYSMEM_QUANTUM), image.value, hope.value.image);
    }
    return Ok((metadata.value, image.value)), mid;
  }

  lemma NothingToFit(libraries: seq<Option<ExportRegistration>>)
    ensures ExportsFit(libraries, [])
  {
  }

  lemma FitsOnlyIf(libraries: seq<Option<ExportRegistration>>, exports: seq<ExportLibrary>)
    ensures ExportsFit(libraries, exports) ==>
              && Occupied(libraries) + |exports| <= |libraries|
              && forall k :: 0 <= k < |exports| ==> ValidLibraryName(exports[k].name) && exports[k].functions != []
  {
  }

  lemma NameTaken(libraries: seq<Option<ExportRegistration>>, firstId: u32, items: seq<(u32, ExportRegistration)>,
                  exports: seq<ExportLibrary>, index: nat)
    requires items == Items(libraries, firstId) && index < |exports|
    requires || (exists k :: 0 <= k < |items| && items[k].1.name == exports[index].name)
             || (exists j :: 0 <= j < index && exports[j].name == exports[index].name)
    ensures !ExportsFit(libraries, exports)
  {
    ItemsSpec(libraries, firstId);
    if k :| 0 <= k < |items| && items[k].1.name == exports[index].name {
      assert libraries[items[k].0 - firstId] == Some(items[k].1);
    }
  }

  lemma NameFree(libraries: seq<Option<ExportRegistration>>, firstId: u32, items: seq<(u32, ExportRegistration)>,
                 exports: seq<ExportLibrary>, index: nat)
    requires items == Items(libraries, firstId) && index < |exports|
    requires Occupied(libraries) + |exports| <= |libraries|
    requires ExportsFit(libraries, exports[..index])
    requires ValidLibraryName(exports[index].name) && exports[index].functions != []
    requires forall k :: 0 <= k < |items| ==> items[k].1.name != exports[index].name
    requires forall j :: 0 <= j < index ==> exports[j].name != exports[index].name
    ensures ExportsFit(libraries, exports[..index + 1])
  {
    hide ValidLibraryName;
    ItemsSpec(libraries, firstId);
    forall i | 0 <= i < |libraries| && libraries[i].Some?
      ensures libraries[i].value.name != exports[index].name
    {
      assert (firstId + i, libraries[i].value) in items;
    }
    var now := exports[..index + 1];
    assert exports[..index] == now[..index];
  }

  /** Gives back a module's two blocks; neither release can fail. */
  method ReleaseBlocks(memory: SystemMemory, metadata: Allocation, image: Allocation)
    requires memory.Valid()
    requires Live(memory.View(), metadata) && Live(memory.View(), image) && metadata.address != image.address
    modifies memory.Repr()
    ensures memory.Valid()
    ensures memory.View() == Released(Released(old(memory.View()), image.address), metadata.address)
  {
    ghost var slots := memory.View();
    var first := memory.Free(image.address);
    if first.Err? {
      assert false;
    }
    ghost var k :| 0 <= k < |slots| && slots[k] == Some(metadata);
    assert memory.View()[k] == Some(metadata);
    var second := memory.Free(metadata.address);
    if second.Err? {
      assert false;
    }
  }

  /** Writes descriptor, name and head word, in that order, stopping at the first refusal. */
  method WriteDescriptor(guest: GuestRam, info: ModuleInfo, name: Name, address: u32, ghost s: Snapshot,
                         ghost r: ModuleRecord)
    returns (w: Result<(), BiosError>)
    requires guest.Valid() && guest.first <= CONTROL_BLOCK_ADDRESS
    requires r.info == info && r.name == name && r.infoAddress == address == r.metadata.address && |name| <= 127
    requires MODULE_INFO_SIZE + |name| + 1 == r.metadata.requestedSize <= r.metadata.size
    requires IsFreeRange(s.slots, s.arenaStart, s.arenaEnd, address, r.metadata.size)
    requires MODULE_HEAD_ADDRESS + 4 <= s.arenaStart <= address
    requires FreeScratch(s, guest.View())
    modifies guest.bytes, guest`refusals
    ensures w.Err? ==> FreeScratch(s, guest.View())
    ensures w.Ok? ==> OnlyFreeTouched(s, guest.View())
    ensures w.Ok? ==> Mirrored(guest.View(), r) && HeadStored(guest.View(), address)
    ensures OnlyBlockTouched(old(guest.View()), guest.View(), r.metadata)
    ensures old(guest.refusals) == [] ==> guest.refusals == []
    ensures old(guest.refusals) == [] && address + r.metadata.requestedSize <= |s.mem| ==> w.Ok?
  {
    hide OnlyFreeTouched, Mirrored, HeadStored, FreeScratch, OnlyBlockTouched, IsFreeRange, Encode, EncodeU32;
    ghost var mem := guest.View();
    NothingTouched(mem, r.metadata);
    ScratchLength(s, mem);
    var descriptor := WriteGuest(guest, address, Encode(info));
    if descriptor.Err? {
      return descriptor;
    }
    ghost var mem1 := guest.View();
    BlockTouched(s, mem, mem, r.metadata, address, Encode(info));
    var written := WriteGuest(guest, address + MODULE_INFO_SIZE, name + [0]);
    if written.Err? {
      return written;
    }
    ghost var mem2 := guest.View();
    BlockTouched(s, mem, mem1, r.metadata, address + MODULE_INFO_SIZE, name + [0]);
    w := WriteGuest(guest, MODULE_HEAD_ADDRESS, EncodeU32(address));
    if w.Ok? {
      HeadTouched(s, mem, mem2, r.metadata, address);
      DescriptorWritten(mem, r, mem1, mem2, guest.View());
    }
  }

  lemma ScratchLength(s: Snapshot, mem: seq<u8>)
    requires FreeScratch(s, mem)
    ensures |mem| == |s.mem|
  {
  }

  /** Only the block and the head word may differ. */
  ghost predicate OnlyBlockTouched(mem: seq<u8>, mem': seq<u8>, b: Allocation)
  {
    |mem'| == |mem| && forall a :: 0 <= a < |mem| && !b.Contains(a) && !InHeadWord(a) ==> mem'[a] == mem[a]
  }

  lemma NothingTouched(mem: seq<u8>, b: Allocation)
    ensures OnlyBlockTouched(mem, mem, b)
  {
  }

  lemma BlockTouched(s: Snapshot, mem: seq<u8>, mem': seq<u8>, b: Allocation, at: nat, data: seq<u8>)
    requires FreeScratch(s, mem') && OnlyBlockTouched(mem, mem', b)
    requires b.address <= at && at + |data| <= Min(b.End(), |mem|)
    requires IsFreeRange(s.slots, s.arenaStart, s.arenaEnd, b.address, b.size)
    requires MODULE_HEAD_ADDRESS + 4 <= s.arenaStart <= b.address
    ensures FreeScratch(s, Splice(mem', at, data))
    ensures OnlyBlockTouched(mem, Splice(mem', at, data), b)
  {
  }

  lemma HeadTouched(s: Snapshot, mem: seq<u8>, mem': seq<u8>, b: Allocation, head: u32)
    requires FreeScratch(s, mem') && OnlyBlockTouched(mem, mem', b) && MODULE_HEAD_ADDRESS + 4 <= |mem|
    ensures OnlyFreeTouched(s, Splice(mem', MODULE_HEAD_ADDRESS, EncodeU32(head)))
    ensures OnlyBlockTouched(mem, Splice(mem', MODULE_HEAD_ADDRESS, EncodeU32(head)), b)
  {
  }

  lemma FlagsSpliced(mem: seq<u8>, address: u32, flags: u16)
    requires address + MODULE_INFO_SIZE <= |mem|
    ensures FlagsWritten(mem, Splice(mem, address + 10, EncodeU16(flags)), address, flags)
  {
  }

  lemma FlagsInBounds(s: Snapshot, k: nat)
    requires Consistent(s) && k < |s.order|
    ensures 1 <= s.order[k].id <= |s.modules| && s.modules[s.order[k].id - 1] == Some(s.order[k])
    ensures MODULE_HEAD_ADDRESS + 4 <= s.order[k].infoAddress
    ensures s.order[k].infoAddress + MODULE_INFO_SIZE <= Min(|s.mem|, s.arenaEnd)
  {
    hide Consistent, Encode, NewFlags;
    TableRecord(s, k);
    MirroredAt(s, k);
    DescriptorInBlock(s, k);
    BlockRecord(s, k);
  }

  lemma TableRecord(s: Snapshot, k: nat)
    requires Consistent(s) && k < |s.order|
    ensures 1 <= s.order[k].id <= |s.modules| && s.modules[s.order[k].id - 1] == Some(s.order[k])
  {
    hide TableListed, DistinctIds, Linked, AllOk, AllOwnExports, UniqueNames, GuestConsistent, MemoryConsistent;
  }

  lemma EmptyConsistent(s: Snapshot)
    requires s.order == [] && s.head == 0
    requires forall i :: 0 <= i < |s.modules| ==> s.modules[i].None?
    requires forall i :: 0 <= i < |s.libraries| ==> s.libraries[i].None?
    requires MODULE_HEAD_ADDRESS + 4 <= s.arenaStart <= s.arenaEnd && Disjoint(s.slots, s.arenaStart, s.arenaEnd)
    requires MODULE_HEAD_ADDRESS + 4 <= |s.mem|
    requires forall a :: InHeadWord(a) ==> s.mem[a] == 0
    ensures Consistent(s)
  {
  }

  /** A module that owns the block is listed, and a listed one is in the table. */
  lemma OwnerListed(modules: seq<Option<ModuleRecord>>, order: seq<ModuleRecord>, items: seq<(u32, ModuleRecord)>,
                    address: int)
    requires TableMatches(modules, order) && items == Items(modules, 1)
    ensures Owner(order, address) <==>
              exists j :: 0 <= j < |items| && (items[j].1.metadata.address == address
                                               || items[j].1.image.address == address)
  {
    ItemsSpec(modules, 1);
    if Owner(order, address) {
      var k :| 0 <= k < |order| && (order[k].metadata.address == address || order[k].image.address == address);
      assert modules[order[k].id - 1] == Some(order[k]);
    }
  }

  /** A refused reset breaks the invariant exactly if modules were loaded: their blocks are gone. */
  lemma RefusedReset(s: Snapshot, s': Snapshot, done: nat, words: seq<u8>)
    requires Consistent(s) && done <= BLOCKS && AreaEnd(done) <= |s.mem| && |words| == CONTROL_WORDS_SIZE
    requires s' == s.(slots := s'.slots, mem := Written(s.mem, done, words))
    requires forall i :: 0 <= i < |s'.slots| ==> s'.slots[i].None?
    ensures Consistent(s') <==> s.order == []
  {
    hide HostConsistent, GuestConsistent, Written;
    EmptyArena(s'.slots, s.arenaStart, s.arenaEnd, s.order);
    EmptyList(s.mem, s.head, done, words);
    if s.order == [] {
      HeadOfNone(s);
    }
  }

  lemma EmptyArena(slots: seq<Option<Allocation>>, start: u32, end: u32, order: seq<ModuleRecord>)
    requires forall i :: 0 <= i < |slots| ==> slots[i].None?
    ensures MemoryConsistent(slots, start, end, order) <==> MODULE_HEAD_ADDRESS + 4 <= start <= end && order == []
  {
    assert order != [] ==> !Live(slots, order[0].metadata);
  }

  lemma EmptyList(mem: seq<u8>, head: u32, done: nat, words: seq<u8>)
    requires done <= BLOCKS && AreaEnd(done) <= |mem| && |words| == CONTROL_WORDS_SIZE
    ensures GuestConsistent(mem, [], head) && head == 0 ==> GuestConsistent(Written(mem, done, words), [], head)
  {
    hide Written, Mirrored, AreaEnd;
    if done > 0 {
      HeadCleared(mem, done, words);
    } else {
      WrittenNothing(mem, words);
    }
  }

  lemma HeadOfNone(s: Snapshot)
    requires Consistent(s) && s.order == []
    ensures s.head == 0
  {
  }
}
