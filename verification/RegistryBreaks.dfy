/** Instances: a registry with one module, and what a refused reset and a stray release do to it. */
module RegistryBreaks {
  import opened Machine
  import opened Wrappers
  import opened Slots
  import opened BlockLayout
  import opened Allocator
  import opened GuestMemory
  import opened ImageWords
  import opened LinkTables
  import opened Irx
  import opened ModuleRecords
  import opened KernelErrors
  import opened RegistryState
  import opened RegistrySteps
  import opened RegistryLoad
  import opened Dispatch
  import opened Modules

  const START: u32 := 0x1_0000
  const END: u32 := 0x2_0000
  const IMAGE: seq<u8> := [0, 0, 0, 0]

  /** A module of one zero word, entered at its first byte. */
  const WORD_MODULE := IrxModule(
    IrxLimits(16, 16, 16, 16, 16),
    ModuleDescription([0x77], 0x101, RelocatableV1, 4, 0, 0),
    RawMetadata(None, 0, 0), 0, 4, IMAGE, [])

  const DESCRIPTOR_BLOCK := Allocation(START, SYSMEM_QUANTUM, MODULE_INFO_SIZE + 2, SYSMEM_QUANTUM)
  const IMAGE_BLOCK := Allocation(START + SYSMEM_QUANTUM, SYSMEM_QUANTUM, 4, SYSMEM_QUANTUM)

  lemma WordModuleValid()
    ensures WORD_MODULE.Valid()
  {
  }

  const LOADED := LoadedModule(IMAGE_BLOCK.address, IMAGE_BLOCK.address, None, IMAGE_BLOCK.address, 4, [], [])

  lemma {:induction false} NoTables(image: seq<u8>, address: u32, limit: nat)
    requires limit % 4 == 0 && limit <= |image|
    requires forall a :: 0 <= a < limit ==> image[a] == 0
    ensures TablesAt(image, address, limit, [], [])
  {
    hide Word, ImportAt, ExportAt, EntryCount;
    if limit > 0 {
      ZeroWord(image, limit - 4);
      NoTables(image, address, limit - 4);
    }
  }

  lemma ZeroWord(image: seq<u8>, at: nat)
    requires at + 4 <= |image| && forall a :: at <= a < at + 4 ==> image[a] == 0
    ensures Word(image, at) == 0
  {
  }

  lemma WordModuleStages()
    requires WORD_MODULE.Valid()
    ensures StagedIn(WORD_MODULE, IMAGE_BLOCK, LOADED)
  {
    hide TablesAt, IrxModule.Valid;
    NoTables(IMAGE, IMAGE_BLOCK.address, 4);
    assert EntryCount([], []) == 0;
    ValidParts(WORD_MODULE);
    assert WORD_MODULE.Staged(IMAGE_BLOCK.address) == Ok(IMAGE);
  }

  /** In an empty arena the descriptor's block is the first, the image's the second. */
  lemma WordModulePlaced(slots: seq<Option<Allocation>>)
    requires |slots| == MAX_ALLOCATIONS && forall i :: 0 <= i < |slots| ==> slots[i].None?
    ensures var mid := slots[0 := Some(DESCRIPTOR_BLOCK)];
            ReservedBoth(slots, mid, mid[1 := Some(IMAGE_BLOCK)], START, END, WORD_MODULE, DESCRIPTOR_BLOCK,
                         IMAGE_BLOCK)
  {
    var mid := slots[0 := Some(DESCRIPTOR_BLOCK)];
    assert FirstFree(slots) == 0 && FirstFree(mid) == 1;
  }

  lemma WordModuleLoadable(s: Snapshot)
    requires WORD_MODULE.Valid() && Consistent(s) && s.order == [] && |s.modules| == MAX_MODULES
    requires |s.slots| == MAX_ALLOCATIONS && forall i :: 0 <= i < |s.slots| ==> s.slots[i].None?
    requires s.arenaStart == START && s.arenaEnd == END <= |s.mem|
    ensures exists p :: Loadable(s, WORD_MODULE, p)
  {
    hide ReservedBoth, StagedIn;
    WordModulePlaced(s.slots);
    WordModuleStages();
    var mid := s.slots[0 := Some(DESCRIPTOR_BLOCK)];
    var p := Placement(mid, mid[1 := Some(IMAGE_BLOCK)], DESCRIPTOR_BLOCK, IMAGE_BLOCK, LOADED);
    assert Loadable(s, WORD_MODULE, p);
  }

  /** A registry fresh from reset, with that module loaded. */
  method OneModule() returns (registry: ModuleRegistry, memory: SystemMemory, guest: GuestRam, id: u32)
    ensures registry.Valid(memory, guest) && guest.refusals == [] && MODULE_HEAD_ADDRESS + 4 <= memory.start
    ensures registry.order != [] && registry.order[0].id == id
    ensures fresh(registry.Repr()) && fresh(memory.Repr()) && fresh(guest) && fresh(guest.bytes)
  {
    hide Consistent, Loadable, Loads, LoadReads, Written, Disjoint;
    registry := new ModuleRegistry();
    memory := new SystemMemory(START, END);
    guest := new GuestRam(END, CONTROL_BLOCK_ADDRESS, []);
    ghost var done, loaded;
    var reset;
    reset, done := registry.Reset(memory, guest, seq(CONTROL_WORDS_SIZE, _ => 0));
    WordModuleValid();
    ghost var s := registry.Snap(memory, guest);
    WordModuleLoadable(s);
    var r;
    r, loaded := registry.Load(WORD_MODULE, memory, guest);
    FirstListed(s, registry.Snap(memory, guest), WORD_MODULE, loaded, r.value);
    id := r.value;
  }

  lemma FirstListed(s: Snapshot, s': Snapshot, irx: IrxModule, l: LoadedModule, id: u32)
    requires irx.Valid() && Loads(s, s', irx, l, id)
    ensures s'.order != [] && s'.order[0].id == id
  {
    hide IrxModule.Valid, Published, ReservedBoth, ExportsFit, Registered, StagedIn, ImageIn;
  }

  /** A reset whose first write is refused leaves the module without its blocks. */
  method ResetBreaks() returns (registry: ModuleRegistry, memory: SystemMemory, guest: GuestRam,
                                r: Result<(), BiosError>)
    ensures r.Err? && registry.Shape(memory, guest) && !Consistent(registry.Snap(memory, guest))
  {
    hide Consistent, Written, Disjoint;
    var id;
    registry, memory, guest, id := OneModule();
    guest.refusals := [true];
    ghost var done;
    r, done := registry.Reset(memory, guest, seq(CONTROL_WORDS_SIZE, _ => 0));
  }

  /** So does guest code that frees the block of the module's descriptor. */
  method FreeBreaks() returns (registry: ModuleRegistry, memory: SystemMemory, guest: GuestRam,
                               r: Result<Allocation, KernelError>)
    ensures r.Ok? && registry.Shape(memory, guest) && !Consistent(registry.Snap(memory, guest))
  {
    hide Consistent, Disjoint, Released, Owner;
    var id;
    registry, memory, guest, id := OneModule();
    ghost var s := registry.Snap(memory, guest);
    FirstOwns(s);
    var module_ := registry.Find(id, memory, guest);
    r := memory.Free(module_.value.metadata.address);
    FreedConsistent(s, registry.Snap(memory, guest), module_.value.metadata.address);
  }

  lemma FirstOwns(s: Snapshot)
    requires Consistent(s) && s.order != []
    ensures Live(s.slots, s.order[0].metadata) && Owner(s.order, s.order[0].metadata.address)
  {
    hide HostConsistent, GuestConsistent;
  }
}
