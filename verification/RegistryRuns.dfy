/** Whole runs of the module registry: the invariant and the guest list over every run, and undoing a load. */
module RegistryRuns {
  import opened Machine
  import opened Wrappers
  import opened LittleEndian
  import opened Counting
  import opened BlockLayout
  import opened Allocator
  import opened GuestMemory
  import opened LinkTables
  import opened Irx
  import opened ModuleRecords
  import opened Dispatch
  import opened RegistryState
  import opened RegistrySteps
  import opened RegistryLoad
  import opened Modules

  datatype Operation =
    | LoadModule(irx: IrxModule)
    | Lifecycle(id: u32, event: Event)
    | UnloadModule(id: u32)
    | RegisterLibrary(moduleId: u32, library: ExportLibrary)
    | Bind(name: Name, version: u16, ordinal: u16)
    | Unbind(id: u32)
    | ReserveBlock(mode: AllocationMode, size: u32, address: u32)
    | FreeBlock(address: u32)

  /** The guest's view of the module list is the host's: same modules, newest first, byte for byte. */
  ghost predicate GuestSeesModules(s: Snapshot)
  {
    && MODULE_HEAD_ADDRESS + 4 <= |s.mem|
    && Walk(s.mem, U32At(s.mem, MODULE_HEAD_ADDRESS), |s.order|) == Some(Addresses(s.order))
    && Distinct(Addresses(s.order))
    && (forall i :: 0 <= i < |s.modules| && s.modules[i].Some? ==> s.modules[i].value in s.order)
    && (forall k :: 0 <= k < |s.order| ==>
          var a := s.order[k].infoAddress;
          && 0 < a && a + MODULE_INFO_SIZE <= |s.mem|
          && Reads(s.mem, a, s.order[k].info)
          && s.order[k].info.newFlags == NewFlags(s.order[k].state))
  }

  lemma ConsistentIsSeen(s: Snapshot)
    requires Consistent(s)
    ensures GuestSeesModules(s)
  {
    hide Consistent, Walk, U32At, Encode, NewFlags, Addresses, Reads;
    GuestListIsModuleList(s, |s.order|);
    forall i | 0 <= i < |s.modules| && s.modules[i].Some?
      ensures s.modules[i].value in s.order
    {
      ListedRecord(s, i);
    }
    forall k | 0 <= k < |s.order|
      ensures Addresses(s.order)[k] == s.order[k].infoAddress
    {
    }
  }

  /** One operation of a run, whatever its outcome. */
  method Perform(registry: ModuleRegistry, memory: SystemMemory, guest: GuestRam, operation: Operation)
    requires registry.Valid(memory, guest)
    requires operation.LoadModule? ==> operation.irx.Valid()
    modifies registry.Repr(), memory.Repr(), guest.bytes, guest`refusals
    ensures registry.Valid(memory, guest)
  {
    hide Consistent, Disjoint, Stepped, Unloads, Binds, Unbinds, Loads, LoadRefused, ExportsFit;
    match operation {
      case LoadModule(irx) => var loaded, description := registry.Load(irx, memory, guest);
      case Lifecycle(id, StartBegins) => var started := registry.BeginStart(id, memory, guest);
      case Lifecycle(id, StartCompletes(result)) => var state := registry.CompleteStart(id, result, memory, guest);
      case Lifecycle(id, StopBegins) => var stopping := registry.BeginStop(id, memory, guest);
      case Lifecycle(id, StopCompletes(code)) => var stopped := registry.CompleteStop(id, code, memory, guest);
      case UnloadModule(id) => var unloaded := registry.Unload(id, memory, guest);
      case RegisterLibrary(moduleId, library) =>
        var registered := registry.RegisterExport(moduleId, library, memory, guest);
      case Bind(name, version, ordinal) => var bound := registry.BindImport(name, version, ordinal, memory, guest);
      case Unbind(id) => var unbound := registry.UnbindImport(id, memory, guest);
      case ReserveBlock(mode, size, address) => ReserveForGuest(registry, memory, guest, mode, size, address);
      case FreeBlock(address) => FreeForGuest(registry, memory, guest, address);
    }
  }

  /** A block handed to guest code. */
  method ReserveForGuest(registry: ModuleRegistry, memory: SystemMemory, ghost guest: GuestRam, mode: AllocationMode,
                         size: u32, address: u32)
    requires registry.Valid(memory, guest)
    modifies memory.Repr()
    ensures registry.Valid(memory, guest)
  {
    hide Consistent, Disjoint, Reserved, Placed;
    ghost var s := registry.Snap(memory, guest);
    var block := memory.Allocate(mode, size, address);
    if block.Ok? {
      ForeignBlockConsistent(s, registry.Snap(memory, guest), size, SYSMEM_QUANTUM, block.value);
    }
  }

  /** Guest code gives back a block that is not a module's. */
  method FreeForGuest(registry: ModuleRegistry, memory: SystemMemory, ghost guest: GuestRam, address: u32)
    requires registry.Valid(memory, guest)
    modifies memory.Repr()
    ensures registry.Valid(memory, guest)
    ensures memory.View() == if Owner(registry.order, address) then old(memory.View())
            else Released(old(memory.View()), address)
  {
    hide Consistent, Disjoint, Owner, Released;
    ghost var s := registry.Snap(memory, guest);
    var owned := registry.OwnsBlock(address, memory, guest);
    if !owned {
      var freed := memory.Free(address);
      FreedConsistent(s, registry.Snap(memory, guest), address);
    }
  }

  /** Every run from BIOS reset keeps guest RAM and host records in step. */
  method Run(registry: ModuleRegistry, memory: SystemMemory, guest: GuestRam, controlWords: seq<u8>,
             operations: seq<Operation>) returns (reset: Result<(), BiosError>)
    requires registry.Shape(memory, guest) && MODULE_HEAD_ADDRESS + 4 <= memory.start
    requires |controlWords| == CONTROL_WORDS_SIZE
    requires forall o :: o in operations && o.LoadModule? ==> o.irx.Valid()
    modifies registry.Repr(), memory.Repr(), guest.bytes, guest`refusals
    ensures reset.Ok? ==> registry.Valid(memory, guest) && GuestSeesModules(registry.Snap(memory, guest))
  {
    hide Consistent, Disjoint, GuestSeesModules;
    ghost var blocks;
    reset, blocks := registry.Reset(memory, guest, controlWords);
    if reset.Err? {
      return;
    }
    for k := 0 to |operations|
      invariant registry.Valid(memory, guest)
    {
      Perform(registry, memory, guest, operations[k]);
    }
    ConsistentIsSeen(registry.Snap(memory, guest));
  }

  // ----- Undoing a load

  /** `s` is `s0` plus one module at the front, in the given state, its libraries unused. */
  ghost predicate LoadedOnto(s0: Snapshot, s: Snapshot, exports: seq<ExportLibrary>, state: ModuleState)
  {
    && s.order != []
    && var r := s.order[0];
    && s.order[1..] == s0.order && r.state == state && r.info.next == s0.head
    && 1 <= r.id <= |s0.modules| && s0.modules[r.id - 1].None?
    && s.modules == s0.modules[r.id - 1 := Some(r)]
    && Registered(s0.libraries, s.libraries, r.id, exports, r.exportIds)
    && BothReleased(s.slots, r) == s0.slots
    && s.arenaStart == s0.arenaStart && s.arenaEnd == s0.arenaEnd
  }

  lemma LoadIsOnto(s0: Snapshot, s: Snapshot, irx: IrxModule, l: LoadedModule, id: u32)
    requires Consistent(s0) && irx.Valid() && Loads(s0, s, irx, l, id)
    ensures s.order != [] && LoadedOnto(s0, s, l.exports, Loaded) && s.order[0].id == id
  {
    hide Consistent, ReservedBoth, Registered, ExportsFit, ImageIn, StagedIn, OnlyFreeTouched, LibrariesAdded,
         BlocksAdded;
    hide Mirrored, HeadStored, Disjoint, Released;
    ArenaOf(s0);
    BothReserved(s0, Middle(s0, s.order[0].metadata), s.slots, irx, s.order[0].metadata, s.order[0].image);
    assert s.order[1..] == s0.order;
  }

  lemma StepStaysOnto(s0: Snapshot, s: Snapshot, s': Snapshot, exports: seq<ExportLibrary>, state: ModuleState,
                      event: Event, r: Result<ModuleState, BiosError>)
    requires LoadedOnto(s0, s, exports, state) && Stepped(s, s', s.order[0].id, event, r)
    ensures Transition(state, event).Ok? && r.Ok? ==>
              r == Transition(state, event) && LoadedOnto(s0, s', exports, r.value) && s'.order[0].id == s.order[0].id
    ensures Transition(state, event).Ok? && r.Err? ==> r.error == GuestFailure
  {
  }

  lemma UnloadRestores(s0: Snapshot, s: Snapshot, s': Snapshot, exports: seq<ExportLibrary>, state: ModuleState,
                       r: Result<ModuleRecord, BiosError>)
    requires LoadedOnto(s0, s, exports, state) && UnloadRefusal(state).None?
    requires Unloads(s, s', s.order[0].id, r)
    ensures r.Ok? ==> s' == s0.(mem := s'.mem)
    ensures r.Err? ==> r.error == GuestFailure
  {
  }

  /**
   * A load followed by a removable start, a stop and an unload restores tables, list and allocator,
   * so the free memory is what it was.
   */
  method LoadRunUnload(registry: ModuleRegistry, memory: SystemMemory, guest: GuestRam, irx: IrxModule)
    returns (completed: bool, freeBefore: u32, freeAfter: u32)
    requires registry.Valid(memory, guest) && irx.Valid() && guest.refusals == []
    modifies registry.Repr(), memory.Repr(), guest.bytes, guest`refusals
    ensures registry.Valid(memory, guest)
    ensures registry.Snap(memory, guest) == old(registry.Snap(memory, guest)).(mem := guest.View())
    ensures freeAfter == freeBefore
    ensures completed <==> exists p :: Loadable(old(registry.Snap(memory, guest)), irx, p)
  {
    hide Consistent, Disjoint, Loads, Loadable, LoadedOnto, Stepped, Unloads, LoadReads, U32At, SystemMemory.Valid;
    ghost var s0 := registry.Snap(memory, guest);
    freeBefore := memory.TotalFree();
    freeAfter := freeBefore;
    var id, loaded := registry.Load(irx, memory, guest);
    completed := id.Ok?;
    if id.Err? {
      return;
    }
    ghost var s1 := registry.Snap(memory, guest);
    LoadIsOnto(s0, s1, irx, loaded, id.value);
    StartAndStop(registry, memory, guest, id.value, s0, loaded.exports);
    ghost var s2 := registry.Snap(memory, guest);
    var unloaded := registry.Unload(id.value, memory, guest);
    UnloadRestores(s0, s2, registry.Snap(memory, guest), loaded.exports, StoppedRemovable, unloaded);
    freeAfter := memory.TotalFree();
  }

  /** A module just loaded is entered at its linked entry point, moved by where its image went. */
  method LoadAndStart(registry: ModuleRegistry, memory: SystemMemory, guest: GuestRam, irx: IrxModule)
    returns (id: Result<u32, BiosError>, entered: Option<ModuleInvocation>)
    requires registry.Valid(memory, guest) && irx.Valid() && guest.refusals == []
    modifies registry.Repr(), memory.Repr(), guest.bytes, guest`refusals
    ensures registry.Valid(memory, guest)
    ensures id.Ok? <==> exists p :: Loadable(old(registry.Snap(memory, guest)), irx, p)
    ensures id.Ok? ==>
              registry.order != [] && entered.Some? && entered.value.moduleId == id.value
              && EnteredAt(irx, registry.order[0].image.address, entered.value)
  {
    hide Consistent, Disjoint, Loads, Loadable, LoadedOnto, Stepped, LoadReads;
    ghost var s0 := registry.Snap(memory, guest);
    ghost var loaded;
    id, loaded := registry.Load(irx, memory, guest);
    entered := None;
    if id.Err? {
      return;
    }
    ghost var s1 := registry.Snap(memory, guest);
    LoadIsOnto(s0, s1, irx, loaded, id.value);
    ReadsEntry(guest.View(), s1.order[0].infoAddress, irx, s0.head, id.value, s1.order[0].image.address);
    var started := registry.BeginStart(id.value, memory, guest);
    StepStaysOnto(s0, s1, registry.Snap(memory, guest), loaded.exports, Loaded, StartBegins,
                  if started.Ok? then Ok(Starting) else Err(started.error));
    SameImage(s1, registry.Snap(memory, guest), started);
    entered := Some(started.value);
  }

  predicate EnteredAt(irx: IrxModule, at: u32, entered: ModuleInvocation)
  {
    var base := if irx.description.variant.Executable? then 0 else at;
    entered.entry == irx.metadata.entry + base && entered.globalPointer == irx.metadata.globalPointer + base
  }

  lemma ReadsEntry(mem: seq<u8>, a: nat, irx: IrxModule, head: u32, id: u32, at: u32)
    requires LoadReads(mem, a, irx, head, id, at)
    ensures var base := if irx.description.variant.Executable? then 0 else at;
            && a + 48 <= |mem| && U32At(mem, a + 16) == irx.metadata.entry + base
            && U32At(mem, a + 20) == irx.metadata.globalPointer + base
  {
    hide U32At, U16At;
  }

  lemma SameImage(s: Snapshot, s': Snapshot, r: Result<ModuleInvocation, BiosError>)
    requires s.order != [] && r.Ok? && Stepped(s, s', s.order[0].id, StartBegins, Ok(Starting))
    ensures s'.order != [] && s'.order[0].image == s.order[0].image
  {
  }

  method StartAndStop(registry: ModuleRegistry, ghost memory: SystemMemory, guest: GuestRam, id: u32,
                      ghost s0: Snapshot, ghost exports: seq<ExportLibrary>)
    requires registry.Valid(memory, guest) && guest.refusals == []
    requires LoadedOnto(s0, registry.Snap(memory, guest), exports, Loaded) && registry.order[0].id == id
    modifies registry`order, registry.modules.entries, guest.bytes, guest`refusals
    ensures registry.Valid(memory, guest) && guest.refusals == []
    ensures LoadedOnto(s0, registry.Snap(memory, guest), exports, StoppedRemovable) && registry.order[0].id == id
  {
    hide Consistent, Disjoint, LoadedOnto, Stepped, U32At, SystemMemory.Valid;
    ghost var s1 := registry.Snap(memory, guest);
    var started := registry.BeginStart(id, memory, guest);
    ghost var s2 := registry.Snap(memory, guest);
    StepStaysOnto(s0, s1, s2, exports, Loaded, StartBegins, if started.Ok? then Ok(Starting) else Err(started.error));
    var resident := registry.CompleteStart(id, RemovableEnd, memory, guest);
    ghost var s3 := registry.Snap(memory, guest);
    StepStaysOnto(s0, s2, s3, exports, Starting, StartCompletes(RemovableEnd), resident);
    var stopping := registry.BeginStop(id, memory, guest);
    ghost var s4 := registry.Snap(memory, guest);
    StepStaysOnto(s0, s3, s4, exports, Removable, StopBegins,
                  if stopping.Ok? then Ok(Stopping) else Err(stopping.error));
    var stopped := registry.CompleteStop(id, 0, memory, guest);
    StepStaysOnto(s0, s4, registry.Snap(memory, guest), exports, Stopping, StopCompletes(0), stopped);
  }
}
