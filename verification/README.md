# Verified model of the UPSE-NG core

UPSE-NG plays PSF and PSF2 music: small console programs that run on an emulated machine whose BIOS is
replaced by host code. This project models the integer-and-state core of that player in Dafny and proves what
the core is relied on for. It has six parts.

1. **IOP modules.** A module file is parsed into one image with relocations (`IrxParser`, `Irx`,
   `RelocationRecords`, `LinkTables`), relocated (`Relocations`, `SonyChain`), placed in blocks of the system
   memory (`Allocator`, `BlockLayout`, `Table`), and published as a 48-byte descriptor on a linked list inside
   guest RAM (`Dispatch`, `ModuleRecords`, `RegistryState`, `RegistrySteps`, `RegistryLoad`, `Modules`). The invariant
   `Consistent` ties host records, guest bytes and allocator together. `RegistryRuns.Run` shows that it holds
   after any run of operations from reset, and `GuestListIsModuleList` what it means to guest code. A load fails
   without a trace, and succeeds exactly when the module can be loaded.
2. **PS1 library calls.** `qsort`, `lsearch` and `bsearch` are suspended across guest comparator calls (`Libc`).
   `LibcSort` and `LibcSearch` resume them to completion: `qsort` is a stable sort in at most n(n-1)/2
   comparisons, `bsearch` finds a match exactly if there is one. `Heap` and `HeapServices` cover `malloc`,
   `calloc`, `realloc`, `free` and the two memory copies, `HeapRuns` whole runs of them.
3. **Rendering.** `Clock` (rate conversion without drift), `Ps1Machine` (audio queue and device clock), `FrameStream`
   (the one stream of frames that any sequence of machine calls reads), `Audio` (post-mix timeline and
   trailing-silence detection) and `Player`. The main results are
   `Player.PartitionIndependent`, `Player.AdvanceIsRender` and `Ps1Machine.AdvanceIsRender`.
4. **PSF2 filesystem.** `Vfs` says what bytes mean, `VfsBuilder` parses them within limits, `VfsTree` defines
   trees and their overlay, and `VfsFilesystem` assembles the layers and looks paths up.
5. **PSF containers and plans.** `Container` and `Tags` (parser, printer, round trip), `Plan` and `PlanLoader`
   (dependency planning over an arbitrary reference graph), `Executable` (overlay into PS1 RAM).
6. **Event scheduler.** `Scheduler`: an ordered set and a map that refine one list in scheduling order.

Objects whose methods update their fields are classes with a ghost view; parsers, planners and in-place
algorithms are methods proved against predicates that say what their result means. Acceptance is stated both
ways wherever the program has a choice: a parser or planner succeeds exactly if a result of the required kind
exists. Where such a statement ranges over results, the method carries a ghost parameter `hope`, a candidate
result that it must then not refuse; callers pass any candidate there is.

Definitions that code and contracts share are tied down by statements that do not use them: what guest RAM holds
after a load (`Modules.LoadIsRead`) and a reset (`Dispatch.AreaReads`), what relocated words spell
(`Relocations.LoadedPointer` and its neighbours), where the guest stands at each comparison
(`Libc.AtComparator`), what elapsed cycles do to the devices (`Ps1Machine.Passes`), which override wins
(`Plan.FirstToOverride`), and, for the file formats, lemmas that a file written field by field is read as what was
written (`LinkTables.ExportWritten`, `Vfs.DirectoryWritten`, `Vfs.FileWritten`, `Executable.ExeWritten`,
`Container.BuildThenParse`, `RelocationRecords.SpellThenDecode`).

Machine words are bounded integers with every wrap-around and overflow written out. Memory writes that the
machine may refuse are modelled by a list of refusals in `GuestRam`, so every pattern of write failures occurs.

## What the proofs turned up

- A cyclic Sony HI16 chain is not always rejected, contrary to the comment on the function: the walk overwrites
  the link it will follow, so in a word it meets again it reads the immediate. With a zero immediate every cycle
  reads as terminated; with any other a cycle is accepted exactly if the trajectory that goes on by the immediate
  wherever it meets a word again ends in a new word without a link (`SonyChain.CyclicChain`). `SonyChain.RingAccepted` and
  `SonyChain.RingEscapes` are instances; a cycle through all words is rejected with every other immediate (`SonyChain.CoveringCycle`).
- `calloc` and `realloc` allocate before they write. On a heap that reaches beyond RAM, which
  `InitHeap` accepts, a refusal leaves the new block allocated (`HeapRuns.CallocLeaks`, `HeapRuns.ReallocLeaks`).
  It does so exactly if the lowest block that fits, or for `realloc` the bytes to keep in either place, are not all
  in RAM (`HeapServices.RefusedCalloc`, `HeapServices.RefusedRealloc`). The block list stays valid either way
  (`HeapRuns.Run`).
- A BIOS reset that cannot write guest RAM has emptied the allocator but kept the modules. The registry is then
  inconsistent exactly if any module was loaded (`Modules.RefusedReset`; `RegistryBreaks.ResetBreaks` is an
  instance).
- The `FreeSysMemory` service lets guest code free any block. The registry survives exactly if the block is no module's
  (`RegistrySteps.FreedConsistent`; `RegistryBreaks.FreeBreaks` is an instance).
- The module state `Stopped` and with it one refusal of `unload` are unreachable (`Modules.StoppedUnreachable`).
- After `validate_exports` the rollback branches of `load` behind `insert_export` and `insert_at` are
  unreachable (`Modules.ModuleRegistry.InsertExports`, `Modules.ModuleRegistry.Enter`).
- `RateConverter::advance` updates its remainder before it reports a result that is too large
  (`Clock.RateConverter.Advance`; `Clock.RefusedButCounted` is an instance).
- `malloc` reports an address overflow, not exhaustion, when the candidate behind the last block would pass the
  end of the address space (`Heap.AllocateFromHeap`; `Heap.OverflowInstead` is an instance).
- The VFS parser accepts the names `.` and `..` (`VfsFilesystem.DotIsParsed`), which no lookup can reach
  (`VfsFilesystem.NoRelativeLookup`).
- Whether a call to `render` that was fully served reports `Complete` or `End` depends, with silence detection,
  on how far the detector happened to look ahead; the frames delivered do not. `End` means exactly that delivery
  stands at the limit and generation has passed it by the required quiet frames, or reached the declared end
  (`Player.Player.RenderDetected`, `Player.Player.NothingLeft`). In `PlayerOutcome.OutcomeDependsOnQuantum` two
  quanta give the two outcomes.

## Model

| member | source | states |
|---|---|---|
| Slots.FullIffNoFree | crates/hle/ps2/bios/src/table.rs:52-68 | The table refuses an insertion for lack of room exactly when every slot is occupied |
| Slots.ItemsSpec | crates/hle/ps2/bios/src/table.rs:110-120 | Iteration lists every stored value once, under its own identifier, in strictly increasing order |
| Slots.OccupiedUpdate | crates/hle/ps2/bios/src/table.rs:64-107 | The cached length changes by exactly the slot that changed |
| Table.FixedTable.NextId | crates/hle/ps2/bios/src/table.rs:52-57 | The lowest free identifier that fits 32 bits, or none exactly when there is no such identifier |
| Table.FixedTable.Insert | crates/hle/ps2/bios/src/table.rs:64-68 | The value lands under the lowest free identifier and nothing else changes; refused only when there is none |
| Table.FixedTable.InsertAt | crates/hle/ps2/bios/src/table.rs:75-83 | Succeeds exactly for a free identifier in range; otherwise nothing changes |
| Table.FixedTable.Replace | crates/hle/ps2/bios/src/table.rs:93-96 | Writing through a lookup touches that entry only, and only if it exists |
| Table.FixedTable.Remove | crates/hle/ps2/bios/src/table.rs:100-107 | Hands back what was stored and empties that slot only |
| Table.FixedTable.Iter | crates/hle/ps2/bios/src/table.rs:110-120 | Occupied entries in identifier order |
| Table.FixedTable.Clear | crates/hle/ps2/bios/src/table.rs:25-30 | No entry is left and identifiers start over |
| Table.InsertRemove | crates/hle/ps2/bios/src/table.rs:64-107 | Removing what was just inserted restores the table, so identifiers are stable |
| Alignment.AlignUpLeast | crates/hle/ps2/bios/src/allocator.rs:261-265 | Rounding up yields the least aligned address not below the value |
| Alignment.AlignUpOverflow | crates/hle/ps2/bios/src/allocator.rs:261-265 | When rounding up overflows, no aligned 32-bit address reaches the value |
| Alignment.AlignDownGreatest | crates/hle/ps2/bios/src/allocator.rs:267-269 | Rounding down yields the greatest aligned address not above the value |
| BlockLayout.BlocksSpec | crates/hle/ps2/bios/src/allocator.rs:214-222 | The sorted view is a left-to-right layout of exactly the live blocks |
| BlockLayout.LayoutConserves | crates/hle/ps2/bios/src/allocator.rs:180-187 | Block sizes and uncovered bytes of a layout add up to the arena |
| BlockLayout.FreePlusLive | crates/hle/ps2/bios/src/allocator.rs:180-187 | Live sizes and free bytes partition the arena, so the subtraction never underflows |
| BlockLayout.FreeRangeInLayout | crates/hle/ps2/bios/src/allocator.rs:248-258 | A range is free exactly if it lies in the arena and meets no block of the sorted view |
| BlockLayout.InsertDisjoint | crates/hle/ps2/bios/src/allocator.rs:110-146 | A free, well-formed block added to a disjoint arena keeps it disjoint |
| Allocator.SystemMemory.FindFirst | crates/hle/ps2/bios/src/allocator.rs:224-233 | The lowest aligned address at which the block fits, or none exactly when it fits nowhere |
| Allocator.SystemMemory.FindLast | crates/hle/ps2/bios/src/allocator.rs:235-246 | The highest aligned address at which the block fits, or none exactly when it fits nowhere |
| Allocator.SystemMemory.IsFree | crates/hle/ps2/bios/src/allocator.rs:248-258 | Decides whether the range lies in the arena and meets no live block |
| Allocator.SystemMemory.AllocateAligned | crates/hle/ps2/bios/src/allocator.rs:110-146 | Blocks stay disjoint, aligned and in the arena; placement is optimal for its mode; each refusal has its error in the order of the checks; NoMemory exactly when the slots are used up or nothing fits; a refusal changes nothing |
| Allocator.SystemMemory.Allocate | crates/hle/ps2/bios/src/allocator.rs:96-103 | The same at the standard alignment: granted exactly when the request is admissible and something fits |
| Allocator.SystemMemory.Free | crates/hle/ps2/bios/src/allocator.rs:153-162 | Frees exactly the block that begins at the address; refused exactly when none does |
| Allocator.SystemMemory.Block | crates/hle/ps2/bios/src/allocator.rs:166-170 | The live block at an address, if any |
| Allocator.SystemMemory.TotalFree | crates/hle/ps2/bios/src/allocator.rs:180-187 | The number of free bytes of the arena |
| Allocator.SystemMemory.MaximumFree | crates/hle/ps2/bios/src/allocator.rs:191-210 | The length of the longest free run |
| Allocator.SystemMemory.Allocations | crates/hle/ps2/bios/src/allocator.rs:214-222 | The live blocks in address order |
| Allocator.SystemMemory.Create | crates/hle/ps2/bios/src/allocator.rs:67-76 | An empty arena, refused exactly for null, empty or misaligned bounds |
| Allocator.AllocateThenFree | crates/hle/ps2/bios/src/allocator.rs:110-162 | Freeing what was just allocated restores the slot table exactly |
| Allocator.CanReserve | crates/hle/ps2/bios/src/allocator.rs:110-146 | A block that meets the request shows that the request is granted |
| Allocator.SameBlock | crates/hle/ps2/bios/src/allocator.rs:110-146 | The placement rule leaves one block to grant a request with: allocation is deterministic |
| SonyChain.ApplySonyHigh | crates/formats/ps2/irx/src/lib.rs:1210-1262 | Always terminates; the patched image or the refusal is that of the walk; an overflowing sum leaves the image alone |
| SonyChain.WalkFollows | crates/formats/ps2/irx/src/lib.rs:1210-1262 | Overwriting never disturbs a link still to be read: up to the first repeated word the patching walk goes where the original links lead |
| SonyChain.AcceptedExactly | crates/formats/ps2/irx/src/lib.rs:1210-1262 | The walk is accepted exactly if the original image has an accepting trajectory: from each word on by its own link, or by the immediate where the word was met before, within the visit bound, to a word without a link; the result has the immediate in the words of that trajectory |
| SonyChain.AcyclicChain | crates/formats/ps2/irx/src/lib.rs:1210-1262 | A terminated chain never meets the visit bound, sets the low half of exactly its words to the immediate, and keeps every upper half and every other byte |
| SonyChain.EscapingChain | crates/formats/ps2/irx/src/lib.rs:1210-1262 | A chain that leaves the image is rejected |
| SonyChain.CyclicChain | crates/formats/ps2/irx/src/lib.rs:1210-1262 | A cyclic chain is accepted with a zero immediate, and with any other exactly if a trajectory through the original image leaves the cycle for a terminated word |
| SonyChain.CoveringCycle | crates/formats/ps2/irx/src/lib.rs:1210-1262 | A cycle through every word of the image is accepted exactly with a zero immediate |
| SonyChain.WalkKeepsUpperHalves | crates/formats/ps2/irx/src/lib.rs:1210-1262 | On every input, cyclic or not, upper halves and bytes outside words survive |
| SonyChain.RingAccepted | crates/formats/ps2/irx/src/lib.rs:1210-1262 | A concrete two-word ring, relocated by a load address, is accepted although cyclic chains are documented as errors |
| SonyChain.RingEscapes | crates/formats/ps2/irx/src/lib.rs:1210-1262 | A concrete ring is accepted with a nonzero immediate, which leads the walk out of the ring |
| Relocations.ApplyRelocation | crates/formats/ps2/irx/src/lib.rs:1124-1208 | Patches one record in place; the refusal, if any, is the one its kind prescribes |
| Relocations.ApplyAll | crates/formats/ps2/irx/src/lib.rs:496-504 | Applies all records in order and stops at the first refusal |
| Relocations.ListEffect | crates/formats/ps2/irx/src/lib.rs:1124-1208 | For distinct targets, every targeted word spells, field by field, what the link-time word spelt plus the base, and no other byte moves |
| Relocations.ListAccepted | crates/formats/ps2/irx/src/lib.rs:496-504 | For distinct targets, the list is accepted exactly if each record's value, read from the link-time words, fits its field |
| Relocations.PairRebuildsAddress | crates/formats/ps2/irx/src/lib.rs:1172-1200 | A relocated HI16/LO16 pair rebuilds base plus original addend modulo 2^32 and keeps both opcodes |
| Relocations.CarryRule | crates/formats/ps2/irx/src/lib.rs:1172-1200 | The half-carry into the upper immediate cancels the sign extension of the lower one |
| Relocations.LoadedPair | crates/formats/ps2/irx/src/lib.rs:477-551 | In a loaded image every HI16/LO16 pair addresses base plus original addend |
| Relocations.PatchedIsRebased | crates/formats/ps2/irx/src/lib.rs:1137-1201 | A word is patched exactly if its value fits the field, and then only the field changes, by the base |
| Relocations.LoadedPointer | crates/formats/ps2/irx/src/lib.rs:1148-1154 | Every 32-bit pointer of a loaded image is the linked one plus the base, without wrapping |
| Relocations.LoadedJump | crates/formats/ps2/irx/src/lib.rs:1155-1171 | Every jump of a loaded image keeps its opcode and goes, within its 256 MB segment, where it was linked to go plus the base |
| Relocations.LoadedHalf | crates/formats/ps2/irx/src/lib.rs:1137-1147 | Every 16-bit field of a loaded image is the linked one, sign-extended, plus the base |
| Relocations.ImmediateRebuilds | crates/formats/ps2/irx/src/lib.rs:1210-1262 | The immediate of a Sony chain is the upper half that goes with the sign-extended lower half of the sum |
| RelocationRecords.ParseSection | crates/formats/ps2/irx/src/lib.rs:963-1055 | The records, or the first refusal, that the entries of a section spell |
| RelocationRecords.DecodedWellFormed | crates/formats/ps2/irx/src/lib.rs:985-1055 | Decoded records lie in the image, and every HI16 is directly followed by the LO16 it is paired with |
| RelocationRecords.SpellThenDecode | crates/formats/ps2/irx/src/lib.rs:963-1055 | Spelling any well-formed records as entries and decoding them yields the same records |
| Relocations.WordAddresses | crates/formats/ps2/irx/src/lib.rs:976-985 | A record may name every fourth address from the image start, as long as the word is complete |
| LinkTables.FixedName | crates/formats/ps2/irx/src/lib.rs:1422-1434 | A name is the printable prefix of its field, and the rest of the field is zero |
| LinkTables.ReadExports | crates/formats/ps2/irx/src/lib.rs:1352-1384 | The function pointers up to the first zero word, accepted exactly if all lie in the module and within the budget |
| LinkTables.ReadStubs | crates/formats/ps2/irx/src/lib.rs:1308-1343 | The import stubs up to the terminator, accepted exactly if each is a return jump and an ordinal load |
| LinkTables.ReadHead | crates/formats/ps2/irx/src/lib.rs:1290-1306 | Accepted exactly if the header is complete, its second word zero and its name well formed |
| LinkTables.ParseLinkTables | crates/formats/ps2/irx/src/lib.rs:1264-1395 | One table per aligned signature, in order; accepted exactly if every signature heads a well-formed table and the limits hold |
| LinkTables.SameTables | crates/formats/ps2/irx/src/lib.rs:1264-1395 | An image holds one list of tables only |
| LinkTables.HeadWritten | crates/formats/ps2/irx/src/lib.rs:1290-1306 | Magic, a zero word, version, mode and a padded name are a table head |
| LinkTables.ExportWritten | crates/formats/ps2/irx/src/lib.rs:1352-1384 | A head, function pointers and a zero word, written at a word boundary, are that export table |
| LinkTables.ImportWritten | crates/formats/ps2/irx/src/lib.rs:1308-1343 | A head, a return jump and ordinal load for each stub, and two zero words are that import table |
| Irx.ValidateLoads | crates/formats/ps2/irx/src/lib.rs:723-753 | Accepted exactly if segments lie in the file, fit 32 bits, ascend without overlap and are aligned as declared |
| Irx.SegmentsIntact | crates/formats/ps2/irx/src/lib.rs:660-666 | No segment overwrites another: each one's file bytes arrive intact |
| Irx.UnsuppliedZero | crates/formats/ps2/irx/src/lib.rs:660-666 | Gaps and BSS are zero |
| Irx.BuildImage | crates/formats/ps2/irx/src/lib.rs:648-666 | The image spans the segments exactly and holds their bytes; refused exactly when it exceeds the limit |
| Irx.ParseRelocations | crates/formats/ps2/irx/src/lib.rs:924-1059 | All records of all relocation sections in order, well formed and within the limit; refused exactly when a section is unsound |
| IrxParser.SortOrders | crates/formats/ps2/irx/src/lib.rs:642-642 | Segments are taken in ascending address order |
| IrxParser.SortStable | crates/formats/ps2/irx/src/lib.rs:642-642 | Segments at one address keep their file order |
| IrxParser.MaxAlignmentSpec | crates/formats/ps2/irx/src/lib.rs:667-671 | The module's alignment is a power of two within the limit and at least every segment's |
| IrxParser.SegmentsLandAligned | crates/formats/ps2/irx/src/lib.rs:667-671 | Loaded at a multiple of the module's alignment, every segment lands aligned as it declares |
| IrxParser.BuildModule | crates/formats/ps2/irx/src/lib.rs:642-671 | Image, alignment and relocation records of a module, exactly if its segments and relocation sections are sound; description and entry points are handed in |
| Irx.Stage | crates/formats/ps2/irx/src/lib.rs:482-540 | Everything before the target write: succeeds exactly if address, relocations, entry points and link tables are in order |
| Irx.LoadInto | crates/formats/ps2/irx/src/lib.rs:477-551 | Any failure leaves the target untouched; on success exactly the relocated image is written; without write failures it succeeds exactly if staging does |
| Irx.StagedOnce | crates/formats/ps2/irx/src/lib.rs:482-540 | What is loaded at an address is determined |
| GuestMemory.GuestRam.Write | crates/hle/ps2/bios/src/memory.rs:92-132 | A complete interval is written or nothing is |
| ModuleRecords.FlagsDistinguishStates | crates/hle/ps2/bios/src/module.rs:39-51 | Guest code can tell every lifecycle state apart by the flags word |
| ModuleRecords.EncodeFlags | crates/hle/ps2/bios/src/module.rs:90-107 | Writing the flags halfword at offset 10 yields the encoding of the changed record |
| ModuleRecords.EncodeNext | crates/hle/ps2/bios/src/module.rs:90-107 | Writing the link word at offset 0 yields the encoding of the relinked record |
| ModuleRecords.EncodedReads | crates/hle/ps2/bios/src/module.rs:90-107 | A descriptor in memory reads back field by field, each at its offset |
| RegistryState.GuestListIsModuleList | crates/hle/ps2/bios/src/module.rs:302-452 | Walking guest RAM from the head word visits exactly the live modules' descriptors, once each, newest first, ending at zero, and reads in each the fields of the host record |
| RegistryState.WalkFrom | crates/hle/ps2/bios/src/module.rs:375-403 | The same walk started at any descriptor visits the older ones |
| RegistryState.DescriptorAt | crates/hle/ps2/bios/src/module.rs:90-107 | What guest code reads at each descriptor: the link, every field of the host record at its offset, and the flags of the host state |
| Modules.EntryReads | crates/hle/ps2/bios/src/module.rs:473-477 | Entry and global pointer of a host record are the words at offsets 16 and 20 of its descriptor |
| RegistryState.MetadataApart | crates/hle/ps2/bios/src/module.rs:302-452 | Different modules keep their descriptors at different addresses |
| RegistrySteps.DescriptorsSurvive | crates/hle/ps2/bios/src/module.rs:347-365 | Writes confined to free memory, such as image writes, leave every published descriptor in place |
| RegistrySteps.ScratchWrites | crates/hle/ps2/bios/src/module.rs:308-403 | A refused load may leave traces in free memory only, so the invariant survives it |
| RegistrySteps.PatchElsewhere | crates/hle/ps2/bios/src/module.rs:717-731 | Patching one descriptor disturbs no other |
| RegistrySteps.SetStateConsistent | crates/hle/ps2/bios/src/module.rs:717-731 | Updating flags and host state keeps host, guest list and allocator consistent |
| RegistrySteps.PublishConsistent | crates/hle/ps2/bios/src/module.rs:375-451 | Publishing a module at the front of the list keeps them consistent |
| RegistrySteps.LinkedWithout | crates/hle/ps2/bios/src/module.rs:606-620 | Unlinking an entry leaves the remaining list linked |
| RegistrySteps.UnlinkConsistent | crates/hle/ps2/bios/src/module.rs:573-631 | Unlinking a module and freeing its blocks keeps them consistent |
| RegistrySteps.UsersConsistent | crates/hle/ps2/bios/src/module.rs:667-709 | Changing a user count keeps them consistent |
| RegistrySteps.RegisterConsistent | crates/hle/ps2/bios/src/module.rs:638-645 | Registering a library under a new name keeps them consistent |
| RegistrySteps.ForeignBlockConsistent | crates/hle/ps2/bios/src/allocator.rs:110-146 | Blocks handed to guest code never disturb the modules |
| RegistrySteps.FreedConsistent | crates/hle/ps2/bios/src/allocator.rs:153-162 | Freeing a block keeps host, guest list and allocator consistent exactly if no module keeps its descriptor or image in it |
| RegistryBreaks.FreeBreaks | crates/machine/ps2/src/services.rs:178-178 | A registry whose one module loses its descriptor block to guest code is inconsistent |
| RegistryBreaks.OneModule | crates/hle/ps2/bios/src/module.rs:302-452 | A one-word module loads into a registry fresh from reset |
| RegistryLoad.TwoReservations | crates/hle/ps2/bios/src/module.rs:320-345 | Descriptor and image blocks are fresh and apart, and releasing them restores the allocator |
| RegistryLoad.DescriptorWritten | crates/hle/ps2/bios/src/module.rs:394-396 | After the three writes guest RAM holds descriptor, name and head word |
| RegistryLoad.RegisteredLibraries | crates/hle/ps2/bios/src/module.rs:405-421 | Validated exports, registered, belong to the module and keep library names unique |
| RegistryLoad.UnregisterRestores | crates/hle/ps2/bios/src/module.rs:625-627 | Removing what a load registered restores the library table |
| Modules.ResidentForever | crates/hle/ps2/bios/src/module.rs:459-585 | A module that stays resident can never be unloaded, whatever is called |
| Modules.StoppedUnreachable | crates/hle/ps2/bios/src/module.rs:459-585 | No run reaches the state Stopped, so its unload refusal never occurs |
| Dispatch.ResetArea | crates/hle/ps2/bios/src/dispatch.rs:348-364 | Writes control block, exception frame, entry stubs and trampolines in order; a refusal leaves the blocks before it; without write failures it succeeds exactly if the area lies in RAM |
| Dispatch.AreaWritten | crates/hle/ps2/bios/src/dispatch.rs:348-364 | Every block of the area arrives, none overwrites another, and no other byte changes |
| Dispatch.AreaReads | crates/hle/ps2/bios/src/dispatch.rs:348-364 | What guest code finds after a reset: control words, a cleared frame, five entry stubs and 1024 trampolines, each with its code |
| Dispatch.HeadCleared | crates/hle/ps2/bios/src/dispatch.rs:115-140 | The control block clears the head of the module list |
| Modules.ModuleRegistry.Reset | crates/hle/ps2/bios/src/lib.rs:75-82 | Drops all host state and writes the fixed area; a refusal has emptied the allocator and written some blocks but kept all modules, which breaks the invariant exactly if there were any |
| Modules.RefusedReset | crates/hle/ps2/bios/src/lib.rs:75-82 | Emptying the allocator without dropping the modules keeps the invariant exactly if no module is loaded |
| RegistryBreaks.ResetBreaks | crates/hle/ps2/bios/src/lib.rs:75-82 | A registry with one module, refused a reset by a failing write, is inconsistent |
| Modules.ModuleRegistry.Find | crates/hle/ps2/bios/src/module.rs:273-275 | Finds exactly the listed record |
| Modules.ModuleRegistry.SetState | crates/hle/ps2/bios/src/module.rs:717-731 | Guest flags and host state change together or not at all |
| Modules.ModuleRegistry.BeginStart | crates/hle/ps2/bios/src/module.rs:459-480 | The lifecycle transition or its exact refusal; the module is entered at the words at offsets 16 and 20 of its descriptor |
| Modules.ModuleRegistry.CompleteStart | crates/hle/ps2/bios/src/module.rs:487-509 | The lifecycle transition prescribed by the resident code, or its exact refusal |
| Modules.ModuleRegistry.BeginStop | crates/hle/ps2/bios/src/module.rs:516-541 | Only a removable module begins to stop; every other state has its own refusal; entered where its descriptor says |
| Modules.ModuleRegistry.CompleteStop | crates/hle/ps2/bios/src/module.rs:548-565 | Zero leads to removal, anything else back to removable residency |
| Modules.ModuleRegistry.ValidateExports | crates/hle/ps2/bios/src/module.rs:733-754 | Accepts exactly the lists that can be registered; NoMemory exactly when they are too many |
| Modules.ModuleRegistry.InsertExports | crates/hle/ps2/bios/src/module.rs:405-421 | After validation every insertion succeeds: the rollback branch is unreachable |
| Modules.Reserve | crates/hle/ps2/bios/src/module.rs:313-345 | Both blocks where the placement rule puts them, or the allocator as it was |
| Modules.ModuleRegistry.PlaceImage | crates/hle/ps2/bios/src/module.rs:347-373 | The image in its block and valid exports, or both blocks given back |
| Modules.WriteDescriptor | crates/hle/ps2/bios/src/module.rs:375-403 | Descriptor, name and head word in that order; a refusal leaves the published list as it was |
| Modules.ModuleRegistry.Publish | crates/hle/ps2/bios/src/module.rs:375-451 | A published module, or both blocks given back and everything as before |
| Modules.ModuleRegistry.Enter | crates/hle/ps2/bios/src/module.rs:405-451 | Registering exports and entering the record cannot fail after validation: both rollback branches are unreachable |
| Modules.LoadCompletes | crates/hle/ps2/bios/src/module.rs:302-452 | The steps of a load add up to one published module and keep the invariant |
| Modules.LoadIsRead | crates/hle/ps2/bios/src/module.rs:375-403 | Head word, descriptor and name in guest RAM after a load: entry and global pointer moved by the image address, sizes as declared, the old head as link |
| Modules.LoadedExports | crates/hle/ps2/bios/src/module.rs:405-421 | An import finds every export a load registered: its functions, version and mode, so far without a user |
| Modules.LifecycleFlags | crates/hle/ps2/bios/src/module.rs:459-565 | Which calls the flags word in guest RAM admits, and what it reads after each |
| Modules.LifecycleRefusals | crates/hle/ps2/bios/src/module.rs:459-541 | Each refusal of a start or stop names one cause |
| Modules.ModuleRegistry.Load | crates/hle/ps2/bios/src/module.rs:302-452 | The invariant is kept; what guest RAM holds after a load, word by word, is what the module file and the place of its image make it; a failure leaves allocator, tables and guest list exactly as before; without write failures it succeeds exactly if a module slot, both blocks, a relocatable image and registrable exports are there |
| Modules.ModuleRegistry.FindPredecessor | crates/hle/ps2/bios/src/module.rs:602-605 | A module whose descriptor links to the address, or none exactly when there is none |
| Modules.Predecessor | crates/hle/ps2/bios/src/module.rs:602-610 | Exactly the newer neighbour in the list links to a module; the newest one is linked by the head word |
| Modules.ModuleRegistry.CheckUnload | crates/hle/ps2/bios/src/module.rs:579-598 | The refusals of an unload, in the order of the checks |
| Modules.ModuleRegistry.Unload | crates/hle/ps2/bios/src/module.rs:573-631 | Unlinks the module in guest RAM, removes its exports and record and frees both blocks, or leaves everything as it was |
| Modules.ModuleRegistry.DropRecord | crates/hle/ps2/bios/src/module.rs:612-624 | The predecessor's record, or the head, is relinked and the module's own record dropped |
| Modules.ReleaseBlocks | crates/hle/ps2/bios/src/module.rs:628-629 | Neither release can fail |
| Modules.ModuleRegistry.RegisterExport | crates/hle/ps2/bios/src/module.rs:638-645 | Registers exactly what validation accepts, in a free slot |
| Modules.ModuleRegistry.FindLibrary | crates/hle/ps2/bios/src/module.rs:674-680 | A library that serves name and version, or none exactly when there is none |
| Modules.ProviderIs | crates/hle/ps2/bios/src/module.rs:674-680 | Library names are unique, so the provider is determined |
| Modules.MajorDecides | crates/hle/ps2/bios/src/module.rs:818-822 | An import is served by any minor version of the major version it asks for |
| Modules.LibraryNameSpelled | crates/hle/ps2/bios/src/module.rs:811-816 | A library may be registered under exactly the names that a link table can spell |
| Modules.ModuleNames | crates/hle/ps2/bios/src/module.rs:799-809 | A module may bear any name of at most 127 characters from blank to tilde |
| Modules.ModuleRegistry.BindImport | crates/hle/ps2/bios/src/module.rs:667-692 | The function the ordinal names and one more user, or the refusal of the first check that fails and no change |
| Modules.ModuleRegistry.UnbindImport | crates/hle/ps2/bios/src/module.rs:699-709 | One user less, or the exact refusal and no change |
| Modules.BindUnbind | crates/hle/ps2/bios/src/module.rs:667-709 | Releasing a binding undoes acquiring it |
| Modules.BoundPinsModule | crates/hle/ps2/bios/src/module.rs:585-591 | While a library is bound, its module cannot be unloaded |
| RegistryRuns.Run | crates/hle/ps2/bios/src/module.rs:302-731 | After any run of operations from BIOS reset, guest RAM and host records agree |
| RegistryRuns.Perform | crates/hle/ps2/bios/src/module.rs:302-731 | Every operation, whatever its outcome, keeps the invariant |
| RegistryRuns.FreeForGuest | crates/machine/ps2/src/services.rs:178-178 | Guest code that gives back its own block frees it and keeps the invariant |
| RegistryRuns.ConsistentIsSeen | crates/hle/ps2/bios/src/module.rs:302-731 | The invariant is what guest code sees: the list is exactly the live modules, each descriptor its record's encoding |
| RegistryRuns.StepStaysOnto | crates/hle/ps2/bios/src/module.rs:459-565 | Lifecycle steps of the newest module leave all that was there before it alone |
| RegistryRuns.UnloadRestores | crates/hle/ps2/bios/src/module.rs:573-631 | Unloading the newest module restores tables, list and allocator |
| RegistryRuns.LoadRunUnload | crates/hle/ps2/bios/src/module.rs:302-631 | Load, removable start, stop and unload restore the total of free memory; the load succeeds exactly if it is possible |
| RegistryRuns.LoadAndStart | crates/hle/ps2/bios/src/module.rs:302-480 | A loaded module is entered at its linked entry point moved by where its image went, with the global pointer moved alike; the load succeeds exactly if it is possible |
| Libc.Comparands | crates/hle/ps1/bios/src/lib.rs:1191-1216 | The comparator is pointed at elements inside the array |
| Libc.AfterValid | crates/hle/ps1/bios/src/lib.rs:823-897 | Every continuation keeps the index bounds |
| Libc.BiosHle.CheckArray | crates/hle/ps1/bios/src/lib.rs:1221-1228 | Accepted exactly if the array's size is within the limit and its end a 32-bit address |
| Libc.BiosHle.PrepareComparison | crates/hle/ps1/bios/src/lib.rs:1180-1219 | Counts the call and puts the guest at its comparator, operands in a0 and a1, the callback return in ra, all other registers the caller's |
| Libc.BiosHle.StartOperation | crates/hle/ps1/bios/src/lib.rs:1160-1178 | The caller is suspended and the guest stands at its comparator for the first comparison, or nothing changes |
| Libc.BiosHle.StartQsort | crates/hle/ps1/bios/src/lib.rs:1078-1099 | Fewer than two elements, or elements of no width, return at once; otherwise the guest stands at the comparator in a3, pointed at the first two elements |
| Libc.BiosHle.StartLsearch | crates/hle/ps1/bios/src/lib.rs:1101-1128 | An empty array returns null at once; otherwise the guest stands at the comparator on its stack, pointed at key and first element; accepted exactly if the array is within limits and the comparator can be read and called |
| Libc.BiosHle.StartBsearch | crates/hle/ps1/bios/src/lib.rs:1130-1158 | An empty array returns null at once; otherwise the guest stands at the comparator on its stack, pointed at key and middle element; accepted exactly if the array is within limits and the comparator can be read and called |
| Libc.BiosHle.ExchangeElements | crates/hle/ps1/bios/src/lib.rs:841-851 | The elements change places byte for byte and nothing else moves; refused exactly if the upper one reaches beyond RAM, and then the bytes in RAM have changed places |
| Libc.BiosHle.ResumeCallback | crates/hle/ps1/bios/src/lib.rs:823-919 | One comparator result puts the guest back at its comparator for the next comparison, or behind its call with the result; without one the call is refused, and an exchange beyond RAM ends the operation |
| Libc.CallStands | crates/hle/ps1/bios/src/lib.rs:1180-1219 | The comparator is entered with its operands, the callback return address and otherwise the caller's registers |
| LibcSort.StableSortSorts | crates/hle/ps1/bios/src/lib.rs:834-859 | The reference is a sorted permutation under a total preorder |
| LibcSort.StableSortStable | crates/hle/ps1/bios/src/lib.rs:834-859 | The reference keeps equivalent elements in their order |
| LibcSort.InsertBelow | crates/hle/ps1/bios/src/lib.rs:834-859 | Elements greater than the moving one do not affect where it settles |
| LibcSort.ExchangeNeighbours | crates/hle/ps1/bios/src/lib.rs:841-851 | Exchanging two neighbours in memory exchanges them in the list of elements and nothing else |
| LibcSort.SortAdvances | crates/hle/ps1/bios/src/lib.rs:834-859 | Each comparison takes the array closer to the reference, and the last one makes it the reference |
| LibcSort.CountAdvances | crates/hle/ps1/bios/src/lib.rs:834-859 | Every comparison is of a new pair |
| LibcSort.PairsClosed | crates/hle/ps1/bios/src/lib.rs:834-859 | There are n(n-1)/2 pairs |
| LibcSort.SortingAdvances | crates/hle/ps1/bios/src/lib.rs:823-919 | The invariant of a suspended sort spans resumptions |
| LibcSort.CompareNext | crates/hle/ps1/bios/src/lib.rs:823-919 | One comparison by the routine that the program counter names takes the sort to the next one or to the sorted array |
| LibcSort.SeenEffect | crates/hle/ps1/bios/src/lib.rs:841-851 | What a resumption does to RAM it does to what the comparator sees, beyond RAM included |
| LibcSort.RunQsort | crates/hle/ps1/bios/src/lib.rs:823-919 | Driven to completion by whatever routine the program counter names, qsort leaves the stable sorted permutation under the caller's comparator, touches nothing outside the array, compares at most n(n-1)/2 pairs and returns behind the call; it completes if the array lies in RAM and the limits allow |
| LibcSearch.Log2Grows | crates/hle/ps1/bios/src/lib.rs:876-897 | The bound on comparisons is monotone in the length |
| LibcSearch.Halves | crates/hle/ps1/bios/src/lib.rs:876-897 | Each comparison halves what is left to search |
| LibcSearch.SearchAdvances | crates/hle/ps1/bios/src/lib.rs:860-897 | One result takes a suspended search to the next comparison or to its answer |
| LibcSearch.DriveSearch | crates/hle/ps1/bios/src/lib.rs:823-919 | A search, its comparisons made by the routine that the program counter names, answers within its budget and leaves memory alone, wherever the array lies |
| LibcSearch.RunLsearch | crates/hle/ps1/bios/src/lib.rs:1101-1128 | The first match under the comparator on the stack, or null, in at most n comparisons, memory unchanged, and the guest behind its call |
| LibcSearch.RunBsearch | crates/hle/ps1/bios/src/lib.rs:1130-1158 | On an ordered array a match exactly if there is one, in at most floor(log2 n) + 1 comparisons, memory unchanged, and the guest behind its call |
| Heap.AllocateFromHeap | crates/hle/ps1/bios/src/lib.rs:2844-2875 | The lowest fitting address; blocks stay sorted, disjoint, aligned and in bounds; a refusal means that nothing fits; it is an overflow exactly if the size rounds past 32 bits or the end of the last block plus the size does |
| Heap.OverflowInstead | crates/hle/ps1/bios/src/lib.rs:2844-2875 | A full heap at the end of the address space reports an overflow instead of exhaustion |
| Heap.InsertValid | crates/hle/ps1/bios/src/lib.rs:2844-2875 | A block put into a gap keeps the list sorted, disjoint and in bounds |
| Heap.FreeFromHeap | crates/hle/ps1/bios/src/lib.rs:2877-2885 | The list stays valid, whatever the address |
| Heap.FreedMembers | crates/hle/ps1/bios/src/lib.rs:2877-2885 | Exactly the block at that address goes |
| Heap.AllocateThenFree | crates/hle/ps1/bios/src/lib.rs:2844-2885 | Freeing what was just allocated restores the list |
| HeapServices.CopyUp | crates/hle/ps1/bios/src/lib.rs:1003-1029 | An upward copy repeats the gap when the destination overlaps from above; it stops at the first byte that is not in memory, having copied the bytes before it |
| HeapServices.CopyUpExact | crates/hle/ps1/bios/src/lib.rs:1003-1029 | Otherwise it is exact |
| HeapServices.CopyDown | crates/hle/ps1/bios/src/lib.rs:1003-1029 | A downward copy is exact under a higher overlapping destination; it succeeds exactly if both ranges lie in memory, and otherwise changes nothing |
| HeapServices.Services.MemoryCopy | crates/hle/ps1/bios/src/lib.rs:1003-1029 | The overlap-safe copy is exact for every overlap; the plain one is exact unless the destination overlaps from above, and then repeats the gap; it succeeds exactly if the size is within the limit and both ranges lie in memory |
| HeapServices.Clear | crates/hle/ps1/bios/src/lib.rs:2479-2498 | Zeroes the bytes up to the first that is not in memory; succeeds exactly if all are |
| HeapServices.Services.InitializeHeap | crates/hle/ps1/bios/src/lib.rs:2391-2409 | An empty heap at the next aligned address, exactly if there is one within the range |
| HeapServices.Services.Malloc | crates/hle/ps1/bios/src/lib.rs:2411-2416 | The lowest fitting address, or the exact refusal and no change |
| HeapServices.Services.Free | crates/hle/ps1/bios/src/lib.rs:2471-2477 | Releases exactly the block at the address |
| HeapServices.Services.Calloc | crates/hle/ps1/bios/src/lib.rs:2479-2498 | As malloc of the product, with exactly the allocated bytes cleared; a refusal while clearing leaves the block allocated |
| HeapServices.Services.Realloc | crates/hle/ps1/bios/src/lib.rs:2500-2563 | A successful resize keeps the first min(old, new) bytes of the block and all bytes of every other live block; null, zero and refused sizes as documented; a refusal while copying leaves the new block allocated |
| HeapServices.Services.MoveBlock | crates/hle/ps1/bios/src/lib.rs:2547-2562 | Allocation, copy and release, or where it stopped: nothing fits and nothing changes, or the copy fails with both blocks live |
| HeapServices.RefusedCalloc | crates/hle/ps1/bios/src/lib.rs:2479-2498 | A calloc is refused and yet changes something exactly if the request is admissible and the lowest block that fits it is not all in RAM; a heap inside RAM excludes that |
| HeapServices.RefusedRealloc | crates/hle/ps1/bios/src/lib.rs:2500-2563 | A realloc is refused and yet changes something exactly if the block is live and must move, and the bytes to keep are not all in RAM at its old place or at the lowest that fits; a heap inside RAM excludes that |
| HeapRuns.CallocLeaks | crates/hle/ps1/bios/src/lib.rs:2479-2498 | A calloc refused on a heap beyond RAM leaves a block allocated |
| HeapRuns.ReallocLeaks | crates/hle/ps1/bios/src/lib.rs:2547-2562 | A realloc refused on a heap beyond RAM leaves a block allocated |
| HeapRuns.Perform | crates/hle/ps1/bios/src/lib.rs:2391-2563 | Every call, whatever its outcome, keeps the block list valid and the bytes of all blocks it does not name |
| HeapRuns.Run | crates/hle/ps1/bios/src/lib.rs:2391-2563 | Any run of allocation calls keeps the block list valid, and a block that no call names stays live with its bytes |
| HeapServices.ResizeInPlace | crates/hle/ps1/bios/src/lib.rs:2519-2545 | Growing or shrinking in place keeps the heap valid and all other blocks |
| HeapServices.MoveCompletes | crates/hle/ps1/bios/src/lib.rs:2547-2562 | A moved block keeps its bytes and all other blocks theirs |
| Clock.TotalFits | crates/support/clock/src/lib.rs:143-154 | The 128-bit intermediate never overflows |
| Clock.RateConverter.Create | crates/support/clock/src/lib.rs:109-118 | Refused exactly for a zero rate |
| Clock.RateConverter.Advance | crates/support/clock/src/lib.rs:143-154 | Whole part and remainder of the scaled interval; only a result beyond 64 bits is refused, with the remainder already updated |
| Clock.RefusedButCounted | crates/support/clock/src/lib.rs:143-154 | A refused interval has changed the remainder all the same |
| Clock.RateConverter.DeliveredIsFloor | crates/support/clock/src/lib.rs:143-154 | However time is cut up, what is delivered is the floor of the whole |
| Clock.RateConverter.AdvanceAll | crates/support/clock/src/lib.rs:143-154 | For any partition the sum of the outputs is the floor of the scaled total; refused only for an oversized interval |
| Clock.TooLarge | crates/support/clock/src/lib.rs:143-154 | Only an interval worth about 2^64 target ticks on its own can be refused |
| Clock.ConvertIsFirst | crates/support/clock/src/lib.rs:167-182 | A conversion on its own is the first one of a fresh converter |
| Scheduler.EarliestIsFirst | crates/support/scheduler/src/lib.rs:104-117 | The simple queue picks the event the ordered set has first: least deadline, then first scheduled |
| Scheduler.Scheduler.Schedule | crates/support/scheduler/src/lib.rs:80-92 | A rescheduled event goes behind the others of its deadline; refused exactly when sequence numbers are used up, and then nothing changes |
| Scheduler.Scheduler.Cancel | crates/support/scheduler/src/lib.rs:95-100 | Removes the event and reports whether it existed |
| Scheduler.Scheduler.NextDeadline | crates/support/scheduler/src/lib.rs:104-106 | The least deadline |
| Scheduler.Scheduler.PopDue | crates/support/scheduler/src/lib.rs:109-117 | The earliest event exactly if it is due |
| Scheduler.Scheduler.Clear | crates/support/scheduler/src/lib.rs:120-123 | No event is left and sequence numbers keep running |
| Scheduler.Scheduler.Drain | crates/support/scheduler/src/lib.rs:109-117 | Exactly the due events, once each, by deadline and then scheduling order |
| Scheduler.DrainStep | crates/support/scheduler/src/lib.rs:109-117 | Each pop takes the least of what is left |
| Ps1Machine.ChunksLength | crates/machine/ps1/src/lib.rs:898-922 | Rendering due frames in chunks makes two samples per frame |
| Ps1Machine.StepProgress | crates/machine/ps1/src/lib.rs:813-896 | A step that generates nothing has come closer to the next frame, so rendering terminates |
| Ps1Machine.ElapsedPasses | crates/machine/ps1/src/lib.rs:813-896 | What the machine computes for elapsed cycles is a passing of time by that rule |
| Ps1Machine.PassesOnly | crates/machine/ps1/src/lib.rs:813-896 | And the only one |
| Ps1Machine.ChunksSpell | crates/machine/ps1/src/lib.rs:898-922 | Due frames are synthesized 256 at a time, each piece from the state the one before left |
| Ps1Machine.StepSteps | crates/machine/ps1/src/lib.rs:813-896 | A step runs one boundary at the present time, and then the time it took passes |
| Ps1Machine.RunPrompt | crates/machine/ps1/src/lib.rs:813-896 | At no boundary of a run does a due event wait behind deferred ticks |
| Ps1Machine.Ps1Machine.RenderDueFrames | crates/machine/ps1/src/lib.rs:898-922 | Queued are exactly the generated samples past those still to be discarded |
| Ps1Machine.Ps1Machine.AdvanceDevices | crates/machine/ps1/src/lib.rs:813-896 | Devices catch up at once when asked, when an event is due, or when 256 ticks have gathered, and otherwise nothing but time moves; catching up advances, synthesizes and settles them, in that order |
| Ps1Machine.Ps1Machine.Render | crates/machine/ps1/src/lib.rs:497-519 | The buffer is filled with the stream's next samples, the queue holds the rest, and the first failure is reported |
| Ps1Machine.Ps1Machine.Advance | crates/machine/ps1/src/lib.rs:529-552 | The state of the same run with that many frames dropped |
| Ps1Machine.Ps1Machine.Reset | crates/machine/ps1/src/lib.rs:320-322 | The state after construction from the same snapshot |
| Ps1Machine.RunShift | crates/machine/ps1/src/lib.rs:497-519 | Samples already taken only shift the run |
| Ps1Machine.RunStops | crates/machine/ps1/src/lib.rs:497-519 | Asking for less first is a stop on the way |
| Ps1Machine.RenderInParts | crates/machine/ps1/src/lib.rs:497-519 | Rendering m and then n samples is rendering m + n: same state, same output, same queue |
| Ps1Machine.AdvanceIsRender | crates/machine/ps1/src/lib.rs:497-552 | Advancing is rendering with the output thrown away: same outcome, same state, pending queue included |
| Ps1Machine.FramesGenerated | crates/machine/ps1/src/lib.rs:813-842 | Whatever the synchronization pattern, frames generated are floor(flushed * 44100 / CPU clock) and flushed plus deferred ticks are the elapsed time |
| FrameStream.RunLength | crates/machine/ps1/src/lib.rs:497-519 | A run only adds to its queue and ends when enough is queued |
| FrameStream.RunPasses | crates/machine/ps1/src/lib.rs:497-519 | A run that gets far passes every earlier frame, and finds it the same |
| FrameStream.Continue | crates/machine/ps1/src/lib.rs:497-552 | Going on from where a run stands is the longer run |
| FrameStream.SamePlace | crates/machine/ps1/src/lib.rs:497-552 | The frames passed since the snapshot determine the machine, pending queue included |
| FrameStream.NeverLate | crates/machine/ps1/src/lib.rs:813-896 | Wherever the frame stream stands, no due event waits behind deferred ticks |
| FrameStream.FrameMachine.Render | crates/machine/ps1/src/lib.rs:497-519 | The next frames of the machine's one stream; succeeds exactly if the run from the snapshot gets that far |
| FrameStream.FrameMachine.Advance | crates/machine/ps1/src/lib.rs:529-552 | Passes over as many frames of the stream; succeeds exactly if the run from the snapshot gets that far |
| FrameStream.FrameMachine.Reset | crates/machine/ps1/src/lib.rs:320-322 | Back to the first frame of the same stream |
| FrameStream.FrameMachine.ReachesBefore | crates/machine/ps1/src/lib.rs:497-519 | Frames a run gets to are frames it gets past |
| Audio.PostMixer.EndFrame | crates/support/audio/src/lib.rs:234-237 | The saturating sum of length and fade, none exactly for an endless track |
| Audio.PostMixer.AvailableFrames | crates/support/audio/src/lib.rs:247-252 | Never past the end, and zero exactly when the timeline has ended |
| Audio.PostMixer.Advance | crates/support/audio/src/lib.rs:267-274 | Moves by the available frames or not at all |
| Audio.PostMixer.Process | crates/support/audio/src/lib.rs:286-317 | Each frame is converted by its own position; refused exactly when it would pass the end or the largest position, and then nothing changes |
| Audio.AcceptInParts | crates/support/audio/src/lib.rs:74-111 | Detection does not depend on how frames are cut into blocks |
| Audio.ScanCuts | crates/support/audio/src/lib.rs:74-111 | Released is all but a short quiet tail, or exactly what precedes the first run of quiet frames after an audible one |
| Audio.SilenceDetector.Push | crates/support/audio/src/lib.rs:74-111 | The detector after a block is the reference scan, and it has made progress |
| Audio.SilenceDetector.Finish | crates/support/audio/src/lib.rs:118-123 | An unconfirmed tail is released |
| Audio.SilenceDetector.CommitCandidate | crates/support/audio/src/lib.rs:161-167 | Withheld frames join the released ones in order |
| Audio.SilenceDetector.Drain | crates/support/audio/src/lib.rs:130-139 | The oldest released frames, each once |
| Audio.SilenceDetector.Reset | crates/support/audio/src/lib.rs:154-159 | Nothing is remembered |
| Player.WithinLimit | crates/api/upse/src/lib.rs:627-708 | A detector never releases more than the limit, however far it looks ahead |
| Player.LimitUnique | crates/api/upse/src/lib.rs:627-708 | There is one limit, so where playback ends is determined |
| Player.Player.Generate | crates/api/upse/src/lib.rs:711-733 | A block of the stream at its absolute position |
| Player.Player.RenderDirect | crates/api/upse/src/lib.rs:591-624 | The next frames of the stream up to the end of the timeline, in blocks of at most the quantum; the consumer's answers decide the outcome |
| Player.Player.PushMore | crates/api/upse/src/lib.rs:681-690 | Look-ahead makes progress: frames become ready, detection ends, or the withheld run grows |
| Player.Player.DeliverReady | crates/api/upse/src/lib.rs:641-669 | A block of released frames at its absolute position |
| Player.Player.RenderDetected | crates/api/upse/src/lib.rs:627-708 | The next frames of the stream up to the detected limit; the consumer's answers decide the outcome; generation stops exactly where enough is released, and End is reported exactly if delivery stands at the limit and generation has passed it by the required quiet frames or reached the end; without a consumer's objection it succeeds exactly if the machine gets that far |
| Player.Player.Serve | crates/api/upse/src/lib.rs:627-708 | The delivery loop terminates with the frames asked for or with nothing left |
| Player.Player.LookOn | crates/api/upse/src/lib.rs:681-690 | Looking further ahead ends detection, releases more or withholds more |
| Player.Player.NothingLeft | crates/api/upse/src/lib.rs:673-680 | Detection is over with nothing left exactly if delivery stands at the limit and generation has passed it by the required quiet frames or reached the end |
| PlayerOutcome.OutcomeDependsOnQuantum | crates/api/upse/src/lib.rs:627-708 | Two players that differ in their quantum deliver the same one frame, one with Complete, one with End |
| Player.Player.Render | crates/api/upse/src/lib.rs:542-548 | The next frames of the stream, with or without detection; succeeds exactly if the machine gets to where the request leads |
| Player.Player.Advance | crates/api/upse/src/lib.rs:560-588 | Moves the position by the available frames; detection starts over there |
| Player.Player.Reset | crates/api/upse/src/lib.rs:513-527 | Back to the beginning of the stream |
| Player.Player.WillReach | crates/api/upse/src/lib.rs:542-708 | A machine that reaches the end of a bounded timeline gets to where any request leads |
| Player.Player.ExhaustedIsLimit | crates/api/upse/src/lib.rs:673-680 | When nothing is left to deliver, delivery stands at the limit |
| Player.Player.AheadOfDelivery | crates/api/upse/src/lib.rs:627-708 | What is ready is the stream right behind what was delivered |
| Player.Player.RenderAll | crates/api/upse/src/lib.rs:542-708 | Any sequence of calls delivers one stretch of the stream, up to what was asked for or to the end, and succeeds exactly if the machine gets to where the total leads, on endless timelines too |
| Player.Player.GoalOn | crates/api/upse/src/lib.rs:542-708 | Asking for more from where a request has led needs of the machine what asking for it all at once needs |
| Player.Player.GeneratedOn | crates/api/upse/src/lib.rs:681-690 | Looking ahead for a larger request goes on where a smaller one stopped |
| Player.Player.Stuck | crates/api/upse/src/lib.rs:673-690 | A player that has delivered less than asked for is not going to generate more |
| Player.SameDelivery | crates/api/upse/src/lib.rs:542-708 | How far two players get on the same request does not depend on how they got there |
| Player.PartitionIndependent | crates/api/upse/src/lib.rs:542-708 | Output does not depend on how calls are partitioned nor on the quantum, over the machine model's own run; each player succeeds exactly if the machine gets to where its total leads, and without detection both do or neither |
| Player.AdvanceIsRender | crates/api/upse/src/lib.rs:560-624 | Without detection, advancing leaves player and machine where rendering leaves them, pending queue included, with the same outcome |
| VfsTree.JoinedInjective | crates/formats/ps2/vfs/src/lib.rs:660-666 | Different paths are stored under different strings |
| VfsTree.SubtreeIsPrefix | crates/formats/ps2/vfs/src/lib.rs:676-684 | The string test for a subtree is exactly the proper-prefix test on components |
| VfsTree.AncestorsAreDirectories | crates/formats/ps2/vfs/src/lib.rs:526-548 | In a tree every proper ancestor is a directory, so no file lies above another node |
| VfsTree.InsertFileOk | crates/formats/ps2/vfs/src/lib.rs:526-529 | A file replaces what was at and below its path and nothing else; the tree stays a tree |
| VfsTree.InsertDirectoryOk | crates/formats/ps2/vfs/src/lib.rs:531-534 | A directory replaces a file at its path and nothing else; the tree stays a tree |
| VfsTree.LastLayerWins | crates/formats/ps2/vfs/src/lib.rs:536-548 | Lookup gives the last layer's node unless a later layer put a file above it |
| VfsTree.UnmentionedAbsent | crates/formats/ps2/vfs/src/lib.rs:536-548 | A path that no layer mentions does not exist |
| VfsTree.SameNodes | crates/formats/ps2/vfs/src/lib.rs:536-548 | Trees with the same nodes are the same |
| VfsTree.OverlayNotAssociative | crates/formats/ps2/vfs/src/lib.rs:536-548 | Layers cannot be merged beforehand: a directory over a file over a directory loses the first contents |
| Vfs.ParseName | crates/formats/ps2/vfs/src/lib.rs:614-631 | Accepted is a nonempty run of name bytes followed by zeros; the name is that run in lower case |
| Vfs.PaddedName | crates/formats/ps2/vfs/src/lib.rs:614-631 | Every nonempty run of name bytes, padded with zeros, is accepted |
| Vfs.EntryWritten | crates/formats/ps2/vfs/src/lib.rs:337-398 | A padded name and three words, written one after the other, are the entry that the words say |
| Vfs.DirectoryWritten | crates/formats/ps2/vfs/src/lib.rs:297-400 | A count and that many entries are that directory |
| Vfs.FileWritten | crates/formats/ps2/vfs/src/lib.rs:402-502 | A table of compressed lengths and the blocks behind it are that file |
| Vfs.EntriesStayBelow | crates/formats/ps2/vfs/src/lib.rs:297-400 | Decoding a directory keeps the tree a tree and changes nothing outside that directory |
| Vfs.SameDirectory | crates/formats/ps2/vfs/src/lib.rs:297-400 | The bytes determine the entries |
| VfsBuilder.Layer.RemoveSubtree | crates/formats/ps2/vfs/src/lib.rs:676-684 | Drops exactly the path and what lies below it |
| VfsBuilder.Builder.ChargeEntries | crates/formats/ps2/vfs/src/lib.rs:504-524 | Refused exactly past the limit, which counts all layers |
| VfsBuilder.Builder.ParseFile | crates/formats/ps2/vfs/src/lib.rs:402-502 | A file has exactly its declared size, so the closing assertion holds; accepted exactly if the limits hold and every block inflates to its share |
| VfsBuilder.Builder.ReadBlocks | crates/formats/ps2/vfs/src/lib.rs:467-501 | The inflated blocks in order, each full but the last |
| VfsBuilder.Builder.ParseDirectory | crates/formats/ps2/vfs/src/lib.rs:297-400 | Terminates on every input; the entries the bytes spell, entered below their parent, within limits that cover all layers; accepted whenever such entries exist |
| VfsBuilder.Builder.ParseEntry | crates/formats/ps2/vfs/src/lib.rs:337-398 | One entry and what it refers to, which lies strictly further on |
| VfsBuilder.Builder.Apply | crates/formats/ps2/vfs/src/lib.rs:536-548 | Every path holds what the overlay of the layer prescribes, and the result is a tree |
| VfsBuilder.Merged | crates/formats/ps2/vfs/src/lib.rs:536-548 | Directories first, then files, is the overlay, in whatever order each pass runs |
| VfsBuilder.ApplyTwice | crates/formats/ps2/vfs/src/lib.rs:536-548 | Applying a layer twice is applying it once |
| VfsBuilder.OverlayOk | crates/formats/ps2/vfs/src/lib.rs:536-548 | The overlay of two trees is a tree |
| VfsFilesystem.FromLoadPlan | crates/formats/ps2/vfs/src/lib.rs:162-188 | Files and directories are those of the last layer to decide; built exactly if all layers decode within limits over all of them |
| VfsFilesystem.OneFilesystem | crates/formats/ps2/vfs/src/lib.rs:162-188 | The layers determine the filesystem |
| VfsFilesystem.LoadLayer | crates/formats/ps2/vfs/src/lib.rs:164-183 | One layer on top of those below |
| VfsFilesystem.FileData | crates/formats/ps2/vfs/src/lib.rs:237-249 | Succeeds exactly for a well-formed path that names a file |
| VfsFilesystem.SeparatorSplits | crates/formats/ps2/vfs/src/lib.rs:633-658 | Slash and backslash only split a path, wherever they stand and however often |
| VfsFilesystem.OneComponent | crates/formats/ps2/vfs/src/lib.rs:633-658 | What holds neither is one component, or none if empty |
| VfsFilesystem.CaseIgnored | crates/formats/ps2/vfs/src/lib.rs:633-658 | A lookup does not tell upper from lower case |
| VfsFilesystem.ReadAt | crates/formats/ps2/vfs/src/lib.rs:256-264 | One read yields exactly the part of the contents that lies in its window; it succeeds exactly for a file |
| VfsFilesystem.ReadInPieces | crates/formats/ps2/vfs/src/lib.rs:256-264 | Consecutive reads of any capacities yield the contents from where they began, up to the end |
| VfsFilesystem.ComponentsJoined | crates/formats/ps2/vfs/src/lib.rs:633-666 | Splitting a stored path yields its components |
| VfsFilesystem.StoredPathsResolve | crates/formats/ps2/vfs/src/lib.rs:614-658 | A stored path can be looked up exactly if no component is a dot or two dots |
| VfsFilesystem.NoRelativeLookup | crates/formats/ps2/vfs/src/lib.rs:633-658 | No lookup, of any string, ever asks for a component that is a dot or two dots |
| VfsFilesystem.DotIsParsed | crates/formats/ps2/vfs/src/lib.rs:614-631 | A directory entry named with a dot is accepted all the same |
| Tags.Parse | crates/formats/shared/psf/src/tags.rs:48-102 | The tag list of the lines read one by one, or the first error |
| Tags.AcceptedEntries | crates/formats/shared/psf/src/tags.rs:48-102 | Accepted keys are identifiers, and neighbouring entries never share a key |
| Tags.LineAccepted | crates/formats/shared/psf/src/tags.rs:61-100 | A printed line parses back to its key and value |
| Tags.TrimSpec | crates/formats/shared/psf/src/tags.rs:61-83 | Trimming takes blanks, a carriage return among them, off both ends and nothing else |
| Tags.SpacedLine | crates/formats/shared/psf/src/tags.rs:61-100 | Blanks around key and value do not matter; the key ends at the first equals sign |
| Tags.BlankLine | crates/formats/shared/psf/src/tags.rs:61-66 | A blank line says nothing |
| Tags.RefusedLine | crates/formats/shared/psf/src/tags.rs:67-83 | Any other line is refused exactly without an equals sign or if no identifier precedes the first |
| Tags.LinesJoin | crates/formats/shared/psf/src/tags.rs:60-60 | Lines are what newlines separate, the empty ones included |
| Tags.RunMerges | crates/formats/shared/psf/src/tags.rs:84-97 | A run of one key, in whatever case, is one entry with the values on lines of their own |
| Tags.NewKeyAdds | crates/formats/shared/psf/src/tags.rs:84-97 | A tag with another key than the one before stands for itself |
| Tags.GetIsFirst | crates/formats/shared/psf/src/tags.rs:112-117 | A lookup finds the first entry with the key, in any case, and nothing only if there is none |
| Tags.PrintThenParse | crates/formats/shared/psf/src/tags.rs:48-102 | Parsing printed tags yields them, runs of one key merged by newlines |
| Tags.NothingMerged | crates/formats/shared/psf/src/tags.rs:84-97 | Distinct neighbouring keys come back one for one |
| Container.ParseWithLimits | crates/formats/shared/psf/src/container.rs:209-359 | Accepts exactly the containers laid out as specified, with matching checksum, inflatable program and tags, within the limits |
| Container.ReadTags | crates/formats/shared/psf/src/container.rs:311-347 | Nothing, or the marker and tag text within the limit |
| Container.FramedIsFields | crates/formats/shared/psf/src/container.rs:209-359 | Reading the header fields and writing the sections one after the other describe the same inputs |
| Container.FieldsSpelled | crates/formats/shared/psf/src/container.rs:209-359 | An accepted file begins with PSF and the version byte, and has [TAG] before its tags |
| Container.PsfBuilder.Build | crates/formats/shared/psf/src/fixture.rs:58-88 | Header, sections, marker and tag lines in that order |
| Container.PsfBuilder.AddTag | crates/formats/shared/psf/src/fixture.rs:46-49 | One more tag, behind the others |
| Container.BuildThenParse | crates/formats/shared/psf/src/fixture.rs:58-88 | Parsing what the builder wrote returns version, reserved bytes, program and the merged tags |
| LibraryKeys.DecimalValue | crates/formats/shared/psf/src/load.rs:512-522 | A key's digits spell its number |
| LibraryKeys.KeysSpelled | crates/formats/shared/psf/src/load.rs:512-522 | The tags are `_lib`, `_lib2` and so on, in decimal without leading zeros |
| LibraryKeys.KeysDistinct | crates/formats/shared/psf/src/load.rs:512-522 | Different numbers give different keys |
| LibraryKeys.ReferencesBounded | crates/formats/shared/psf/src/load.rs:512-522 | Consecutive references name distinct tags, so the search for them ends |
| LibraryKeys.NumberedLibraries | crates/formats/shared/psf/src/load.rs:512-522 | The references from 2 up to the first gap |
| Plan.SameReferences | crates/formats/shared/psf/src/load.rs:398-446 | Tags determine the references and their order |
| Plan.SameTree | crates/formats/shared/psf/src/load.rs:398-509 | The answers of the resolver determine the tree of files |
| Plan.OneLayerEach | crates/formats/shared/psf/src/load.rs:398-446 | Every visited file contributes exactly one layer |
| Plan.FirstRefreshIsFirst | crates/formats/shared/psf/src/load.rs:386-396 | The override is that of the first file, in the order a traversal meets them, that has one |
| Plan.ReferencesInOrder | crates/formats/shared/psf/src/load.rs:398-446 | The layers of lower-numbered references come before those of higher-numbered ones |
| Plan.OwnLayer | crates/formats/shared/psf/src/load.rs:398-446 | PSF1: the `_lib` layers, then the file's own, then the numbered ones; PSF2: the file's own last |
| Plan.InitialIsFirst | crates/formats/shared/psf/src/load.rs:398-426 | The first PSF1 layer is the one that supplies the initial state |
| Plan.RootIsLast | crates/formats/shared/psf/src/load.rs:428-446 | The last PSF2 layer is the root |
| Plan.AboveNotBelow | crates/formats/shared/psf/src/load.rs:488-495 | Origins on the path from the root never occur below |
| Plan.RootOnce | crates/formats/shared/psf/src/load.rs:307-349 | The root occurs exactly once among the layers |
| PlanLoader.LoadState.Account | crates/formats/shared/psf/src/load.rs:368-384 | Refused exactly past the file or byte limit |
| PlanLoader.LoadState.ObserveMetadata | crates/formats/shared/psf/src/load.rs:386-396 | An override met before is kept; otherwise the file's own is taken |
| PlanLoader.LoadState.Resolve | crates/formats/shared/psf/src/load.rs:476-509 | Accepted exactly within depth and limits, for a file of the right version not already being loaded; a cycle is reported with its chain |
| PlanLoader.LoadState.Psf1Node | crates/formats/shared/psf/src/load.rs:398-426 | Terminates on any reference graph; the `_lib` subtree, the file, the numbered subtrees; succeeds whenever the files below allow it |
| PlanLoader.LoadState.Psf2Node | crates/formats/shared/psf/src/load.rs:428-446 | Terminates on any reference graph; all libraries in order, then the file; succeeds whenever the files below allow it |
| PlanLoader.LoadState.Psf1Dependency | crates/formats/shared/psf/src/load.rs:448-460 | The active path is restored, whatever the outcome |
| PlanLoader.LoadState.Psf2Dependency | crates/formats/shared/psf/src/load.rs:462-474 | The active path is restored, whatever the outcome |
| PlanLoader.MakePlan | crates/formats/shared/psf/src/load.rs:307-349 | Layers in the format's order, one per file; the override is that of the first file met to have one, none exactly if no file has; there is a plan exactly if the files the root reaches are sound, acyclic and within depth, count and byte limits |
| PlanLoader.OnePlan | crates/formats/shared/psf/src/load.rs:307-349 | A root has one plan at most |
| PlanLoader.Psf1PlanShape | crates/formats/shared/psf/src/load.rs:307-349 | The first layer is the initial state's, and the root occurs once |
| Executable.CheckedRamRange | crates/formats/ps1/psx-exe/src/lib.rs:223-232 | An accepted range lies in RAM and differs from the guest address by whole segments only |
| Executable.ParseExe | crates/formats/ps1/psx-exe/src/lib.rs:59-99 | An accepted executable is the one its header spells, its text follows the header and lies in RAM |
| Executable.ExeAccepted | crates/formats/ps1/psx-exe/src/lib.rs:59-99 | Every such executable is accepted |
| Executable.ExeWritten | crates/formats/ps1/psx-exe/src/lib.rs:59-99 | A header written field by field, followed by the text, is accepted as what was written |
| Executable.LastCoverWins | crates/formats/ps1/psx-exe/src/lib.rs:133-165 | The last layer that covers an address decides its byte |
| Executable.UncoveredZero | crates/formats/ps1/psx-exe/src/lib.rs:133-165 | Uncovered RAM is zero |
| Executable.FromPlan | crates/formats/ps1/psx-exe/src/lib.rs:133-165 | RAM, PC and SP of the overlay; the refresh rate is the override if there is one and else the root executable's; each of the three errors exactly when its cause is the first |
| Executable.LoadExecutable | crates/formats/ps1/psx-exe/src/lib.rs:133-165 | For a loader's plan the missing-initial-layer error never occurs; only an invalid executable or an unknown refresh rate stops it |

## Left out

- CPU, SPU, DMA, GPU, timers and memory-mapped I/O: one machine step is an arbitrary function of the device state that returns elapsed cycles, and synthesis an arbitrary function that returns two samples per frame.
- Gain, fade and float conversion: an arbitrary function of sample and position; quietness is an arbitrary predicate.
- zlib, CRC-32 and lossy UTF-8 decoding: abstract functions. The round trip needs only that inflating a compressed program restores it. Which of several zlib failures is reported is not modelled.
- The machine of PS2, its `render` and `advance`, the IOP thread, semaphore and event kernel, the service dispatch, and the ADPCM, ADSR and reverb primitives.
- C bindings, the command-line player, the media-player plug-in, file and path resolvers, terminal, pad and memory-card calls.
- `release_export` on libraries that a module owns: the owner's list of exports is not updated by it, so runs are taken without it.
- Guest code freeing a block that belongs to a module, which breaks the invariant (`RegistrySteps.FreedConsistent`), and guest code writing over descriptors: runs contain guest allocations and releases of blocks that are no module's.
- Lookups by name or by address in the module registry. The seventeen words of the control block are a parameter of reset, and the handler tables and kernel objects it clears are not modelled.
- ELF header, program and section header decoding, symbol tables and the module information segment: segments, sections, description and entry points are inputs of `IrxParser.BuildModule`. A relocation that names a symbol is refused with one error.
- IrxParser.BuildModule: the checks of the module information segment and of the symbol tables are not in it, as said above.
- Origins, offsets, paths and texts carried by errors; the error kinds are kept.
- Failing host allocations, and overflow checks on host sizes that cannot fail for inputs that fit in memory.
- Buffers of the wrong length in `process`, `push` and `drain`: samples are modelled as whole frames. `Ps1Machine.Render` keeps its length check.
- Address mirrors, of the PS1 and of the IOP: heap, copy and library calls, and `GuestRam`, use addresses as indices into one RAM array, and an access beyond it is refused.
- Cycle counts returned by BIOS calls.
- The region marker in an executable's header is read by an abstract function.
- Overlay associativity: it does not hold (`VfsTree.OverlayNotAssociative`); the pointwise and idempotent forms are proved.
- LibcSort.RunQsort: the comparator does not write memory, because a comparator that rearranges the array leaves no order to sort by. Beyond RAM it sees a fixed content.
- LibcSearch.RunLsearch: the comparator does not write memory.
- LibcSearch.RunBsearch: the comparator does not write memory.
- Player.AdvanceIsRender: without silence detection only, because advancing deliberately restarts the detector and drops its look-ahead.
- Player.Player: twice the quantum fits 64 bits, so the sample count of a block does not overflow.
- FrameStream.FrameMachine.Render: which error a failing machine reports, and where a failed call leaves it, is stated by `Ps1Machine.Ps1Machine.Render` and not repeated.
- Container.ParseWithLimits: which inputs are accepted and as what is exact; which of several defects is reported first is not stated.
- VfsFilesystem.FromLoadPlan: which plans are accepted and as what is exact; which of several defects is reported first is not stated.
- PlanLoader.MakePlan: which plans are made is exact; of the errors only the cycle's chain is stated.
- Irx.LoadInto: when it succeeds and what it writes is exact; which of several defects is reported first is not stated.
