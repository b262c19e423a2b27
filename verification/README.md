# Steelmind OS: a verified model of its memory system and its protocols

Steelmind OS is a small multicore x86_64 kernel. This project models the parts
of it whose correctness spans many functions and many cores, and proves what
they promise. Check it with `dafny verify dfyconfig.toml`.

**Memory (kernel/src/memory.rs, constants.rs).** Physical memory is bytes.
Page-table entries and free-list nodes are words stored in frames, so a store
to the wrong frame would corrupt them. `PageTables` holds the one invariant
that ties everything together: a ghost owner for every frame (free, held by a
caller, table at a level under exactly one parent entry, kernel branch shared
by all roots, mapped data, foreign), the free list, and the agreement of both
with the stored bytes. `MemoryOps` gives `map_to`, `update_flags`, `unmap` and
the operations of `Memory` as functions on that state and proves that the
four-level structure refines a flat map from page to frame and flags. `Memory`
is the object itself, whose methods are proved to take that state.
`Permissions` combines the flags of all four entries on the way to a page and
shows that a page gets and keeps what it was mapped for. In
`AddressSpaces` any number of cores, each with its own CR3, interleave those
operations and stores of user code in any order; isolation, agreement of the
kernel half, integrity of the free list and conservation of frames hold after
every run. `BootFrames` builds the first state from the boot memory map.

**Programs (kernel/src/loader.rs).** `Programs` has lists of actions performed up
to the first that fails, for loads, heaps and stacks alike. `Loading` shows that a table that one core
fills holds, at every moment of every interleaving, what that core's own
actions add up to. `Loader` applies this to `prepare_application`: the image is
exact and no page is writable and executable. `LoadProgress` shows when a load
can fail at all. `ContextSwitch` is a register machine that runs the two
assembly blocks.

**Heap (kernel/src/allocator.rs).** `HeapGrowth` is the arithmetic of one and of
many growths, `Heap` the loop that maps the added pages.

**Application processors (kernel/src/smp.rs, kernel/smp_trampoline/ap.asm).**
`ApStartup` is the hand-out of indices and stacks and the withdrawal of the
trampoline page as a protocol; `ApStacks` maps the stacks.

**Terminal (kernel/src/terminal_out.rs, common_main.rs).** `Windows` cuts the
screen into cells and shows that writers in different cells do not disturb each
other; `Terminal` is the writer; `Refresh` the double buffer and the panic path.

**Ram disk (bootimage/src/main.rs, kernel/src/ram_disk.rs).** `RamDisk` has the
writer, the reader and the round trip.

`Words`, `PhysicalMemory`, `Addresses` and `Arithmetic` carry the encodings and
the arithmetic that the others need.

## How the code is represented

- A panic of the kernel is an `Err`, a `failure` or a `None`, with the state
  that the panicking operation leaves. An operation under the `MEMORY` lock is
  one atomic action; whatever the code does outside the lock is several.
- The `x86_64` crate is not part of the repository. `map_to`, `update_flags` and
  `unmap` are a walk over four 9-bit indices (section 4.5 of the Intel SDM,
  Volume 3A) that creates missing tables, widens the flags of the parent entries
  it passes, fails on a huge page or a page that is mapped already.
- The window through which the kernel sees all of physical memory is direct
  access to frames.
- What an `unsafe` operation leaves to its caller is a condition of the action
  (`AddressSpaces.Enabled`): a frame handed to `deallocate_frame` is held by the
  caller, a frame handed to `map_frame` is held or not managed at all, and
  `unmap_ram` is called on pages that map managed frames.

Some promises turn out false as stated; each has a lemma with an input and a
lemma with the exact condition:

- Tables agree on the kernel half only if the slot was populated
  (`AddressSpaces.TwoTablesDisagree`, `AddressSpaces.AgreesExactlyWhenPopulated`).
- The first growth of a heap can be too small for a large alignment
  (`HeapGrowth.FirstGrowthCanMiss`, `HeapGrowth.GrowthServes`).
- A ramdisk that does not start at a page boundary can lose its last page to the
  free list (`BootFrames.UnalignedRamdiskLosesAFrame`, `BootFrames.RamdiskKeptExactly`).
- `WindowInfo::new` compares the lower edge with the screen's width, so a screen
  that is higher than wide is rejected (`Windows.PortraitRejected`,
  `Windows.CellAccepted`).
- For the same reason a core whose id equals an AP count that is a multiple of
  four can get a window below the screen, past the end of the buffer
  (`Windows.WideScreenAccepts`, `Windows.LastCoreBelowScreen`, `Windows.CoreCells`).
- A wait for the APs that times out can withdraw the trampoline page from under one
  (`ApStartup.TimeOutWithdrawsEarly`, `ApStartup.WithdrawsEarlyExactly`).
- A panicking core that gives up waiting for the swap lock can draw into a copy
  (`Refresh.GivingUpOverlaps`, `Refresh.GivingUpOverlapsExactly`,
  `Refresh.GivingUpHarmless`).

## Model

| member | source | states |
|---|---|---|
| `PhysicalMemory.LowFields` | kernel/src/memory.rs:355-367 | bits 0, 1, 2 and 7 of an entry are present, writable, user and huge |
| `PhysicalMemory.HighFields` | kernel/src/memory.rs:355-367 | bits 12 to 51 are the frame and bit 63 bars execution |
| `PhysicalMemory.DecodeEncode` | kernel/src/memory.rs:355-367 | an entry written to memory reads back with every field |
| `Words.Weights` | bootimage/src/main.rs:250-254 | words are little-endian: byte i has weight 256^i |
| `PageTables.TakeInv` | kernel/src/memory.rs:243-251 | popping the head keeps the invariant of list, ownership and bytes; the node read from memory names its own frame |
| `PageTables.GiveInv` | kernel/src/memory.rs:253-265 | pushing a held frame, by writing a node into it, keeps the invariant |
| `PageTables.LinkInv` | kernel/src/memory.rs:355-367 | a zeroed table linked from an unused entry keeps the invariant |
| `PageTables.SetLeafInv` | kernel/src/memory.rs:355-367 | writing a leaf for a held or foreign frame keeps it |
| `PageTables.ClearLeafInv` | kernel/src/memory.rs:382-389 | clearing a leaf keeps it and returns the frame to the caller |
| `PageTables.ReflagInv` | kernel/src/memory.rs:369-375 | new flags on a leaf keep it |
| `PageTables.AddRootInv` | kernel/src/memory.rs:73-87 | a new root with the copied kernel slots keeps it |
| `PageTables.PokeInv` | kernel/src/loader.rs:37-41 | storing a byte in a frame that is neither a table nor free keeps it |
| `MemoryOps.DescendMeets` | kernel/src/memory.rs:355-367 | walking down with creation, for a path of any length: success exactly if no huge page obstructs it and the free frames cover the missing tables; no translation changes |
| `MemoryOps.MapToMeets` | kernel/src/memory.rs:355-367 | `map_to` succeeds exactly if unobstructed, affordable and the leaf is unused, names the error otherwise, and changes exactly one page of the flat map |
| `MemoryOps.MapRamMeets` | kernel/src/memory.rs:315-353 | mapping RAM consumes 1 to 4 frames, exactly one more than the missing tables, maps a frame that was free and changes exactly one page |
| `MemoryOps.MapUserExact` | kernel/src/memory.rs:332-353 | under a table this kernel made, mapping a user page fails only if the page is mapped or memory is short |
| `MemoryOps.ChangeFlagsMeets` | kernel/src/memory.rs:369-375 | a flag change keeps the frame, sets the flags of exactly one page, and fails exactly if the leaf is unused |
| `MemoryOps.UnmapMeets` | kernel/src/memory.rs:382-389 | unmapping removes exactly one page, hands out its frame and keeps the free list |
| `MemoryOps.UnmapRamMeets` | kernel/src/memory.rs:377-380 | additionally exactly one frame becomes free |
| `MemoryOps.CreateTableMeets` | kernel/src/memory.rs:73-87 | a new table translates kernel pages as the active one and nothing else; no other table changes |
| `MemoryOps.UserSlotsNotShared` | kernel/src/memory.rs:73-95 | two roots never share a table below a slot outside 100..116 |
| `Permissions.MapToEffective` | kernel/src/memory.rs:355-367 | after a successful mapping the page's permissions, through all four entries, are exactly those asked for, unless an entry that was there before bars execution |
| `Permissions.MapUserEffective` | kernel/src/memory.rs:332-353 | under a table this kernel made they are exactly those asked for, with user access |
| `Permissions.NotNarrowed` | kernel/src/memory.rs:355-389 | while a page translates as before and entries only grow, its permissions are not narrowed, and stay exactly its leaf's if they were |
| `Permissions.ChangeFlagsEffective` | kernel/src/memory.rs:369-375 | a flag change gives what both the flags and the entries above allow: all of the flags if and only if those entries do |
| `Permissions.CreateTableEffective` | kernel/src/memory.rs:73-87 | kernel pages have the same permissions under a new table as under the one it was cloned from |
| `Memory.Memory.AllocateFrame` | kernel/src/memory.rs:243-251 | the new state is the specified pop, the result the old head |
| `Memory.Memory.DeallocateFrame` | kernel/src/memory.rs:253-265 | the new state is the specified push |
| `Memory.Memory.GetMemoryUtilization` | kernel/src/memory.rs:283-288 | frames off the list, and all frames |
| `Memory.Memory.MapFrame` | kernel/src/memory.rs:355-367 | the loop over the levels computes `MapTo`, state and result, errors included |
| `Memory.Memory.MapRamKernel` | kernel/src/memory.rs:315-330 | range assertion, allocation and mapping compute the specified outcome |
| `Memory.Memory.MapRamUser` | kernel/src/memory.rs:332-353 | the same for user pages |
| `Memory.Memory.ChangeFlags` | kernel/src/memory.rs:369-375 | computes the specified outcome |
| `Memory.Memory.Unmap` | kernel/src/memory.rs:382-389 | computes the specified outcome |
| `Memory.Memory.UnmapRam` | kernel/src/memory.rs:377-380 | computes the specified outcome |
| `Memory.Memory.CreateUserPageTable` | kernel/src/memory.rs:73-87 | zeroing and the loop over the sixteen slots compute the specified outcome |
| `AddressSpaces.ActionKeeps` | kernel/src/memory.rs:302-389 | every action of any core keeps the invariant and, for every root but its own, all translations and bytes of the user half |
| `AddressSpaces.RunKeepsInv` | kernel/src/memory.rs:302-389 | so does every run |
| `AddressSpaces.OneMapping` | kernel/src/memory.rs:315-389 | a managed frame is mapped at one page of one root, up to shared kernel branches |
| `AddressSpaces.Isolation` | kernel/src/memory.rs:73-95 | whatever all cores do under other tables in any order, writes through the window on physical memory to frames that are held or not managed included, a table's user translations, and the bytes of the managed frames behind them, do not change |
| `AddressSpaces.StrayWriteExactly` | kernel/src/memory.rs:52-55 | a write through that window to a frame in use changes what a table shows if and only if the table maps the frame and the byte is another |
| `AddressSpaces.UnmanagedIsolation` | kernel/src/memory.rs:355-367 | in every run the bytes of a frame that is neither managed nor a table change only by a store through a page that maps it, or a direct write |
| `AddressSpaces.PageStays` | kernel/src/memory.rs:315-389 | under every table, a page that no action of a run unmaps or re-flags stays mapped as it is, and one that none maps or re-flags stays unmapped |
| `AddressSpaces.ActionGrows` | kernel/src/memory.rs:302-389 | no action of any core makes an entry that leads to a table lead elsewhere or allow less |
| `AddressSpaces.PermissionsStay` | kernel/src/memory.rs:315-389 | over every run, a page that no action unmaps or re-flags keeps its permissions through all four entries |
| `AddressSpaces.KernelAgreement` | kernel/src/memory.rs:82-84 | if the kernel slots a run maps into were populated before, all tables translate every kernel page alike after it, tables cloned from user tables included |
| `AddressSpaces.AgreesExactlyWhenPopulated` | kernel/src/memory.rs:315-330 | one kernel mapping, successful or not, sets the tables apart if and only if its slot is empty, two frames are free and there is another table |
| `AddressSpaces.TwoTablesDisagree` | kernel/src/memory.rs:73-87 | creating a table before its kernel slot is populated leaves a page that one table maps and the other does not |
| `AddressSpaces.FreeListIntact` | kernel/src/memory.rs:97-113 | after every run the chain read from memory visits exactly `free_frames` distinct frames and stops; none is mapped, and none is a table of any level of any walk, also of one that ends early |
| `AddressSpaces.Conservation` | kernel/src/memory.rs:283-288 | after every run total = free + tables + data + held, and the utilization reports the last three |
| `Addresses.DecomposeBuild` | kernel/src/constants.rs:30-55 | decomposition undoes `build_addr` |
| `Addresses.BuildDecompose` | kernel/src/constants.rs:30-55 | `build_addr` undoes decomposition for every 48-bit address |
| `Addresses.IndexBits` | kernel/src/constants.rs:30-45 | the indices are bits 39 to 47, 30 to 38, 21 to 29 and 12 to 20 |
| `Addresses.RangesAreSlots` | kernel/src/constants.rs:7-28 | the kernel and user ranges are exactly L4 slots 100..116 and 0 |
| `BootFrames.UsableExact` | kernel/src/memory.rs:184-201 | a frame is listed exactly if wholly inside a usable region with start > 0 and outside the ramdisk; frame 0 never is |
| `BootFrames.UsableUnique` | kernel/src/memory.rs:184-201 | for disjoint regions no frame is listed twice |
| `BootFrames.UsableAscending` | kernel/src/memory.rs:184-201 | for ascending regions the frames ascend |
| `BootFrames.RamdiskRange` | kernel/src/memory.rs:158-174 | the first loop succeeds exactly if the pages visited are mapped to consecutive frames, at least one, and yields the first and the last |
| `BootFrames.RamdiskCovered` | kernel/src/memory.rs:160-166 | the loop visits every page of the ramdisk if and only if the start offset does not push its last byte over a page boundary; only the last page can be missed |
| `BootFrames.RamdiskKeptExactly` | kernel/src/memory.rs:158-201 | no byte of the ramdisk is in a listed frame if and only if it is so covered, or the frame of its last page is not usable or was visited |
| `BootFrames.UnalignedRamdiskLosesAFrame` | kernel/src/memory.rs:158-201 | an unaligned ramdisk whose last frame is listed as free |
| `BootFrames.LinkFrames` | kernel/src/memory.rs:203-222 | the peeking loop stores a chain of exactly the given frames in order and touches no other frame |
| `BootFrames.BootInv` | kernel/src/memory.rs:155-241 | the state so built satisfies the invariant |
| `BootFrames.CoveredBoots` | kernel/src/memory.rs:155-223 | if the boot loader's tables map no usable frame but the ramdisk's and the ramdisk is covered, no listed frame is mapped |
| `BootFrames.BareMachineBoots` | kernel/src/memory.rs:225-281 | the assumptions about the boot loader's tables can be met: a zeroed root meets them |
| `BootFrames.RunningMachineBoots` | kernel/src/memory.rs:225-281 | and so do the tables of any machine this kernel runs on, with a ramdisk mapped |
| `BootFrames.NewMemory` | kernel/src/memory.rs:225-281 | succeeds exactly on a mapped contiguous ramdisk; the list is exactly the usable frames that no visited page of it maps; if the ramdisk is covered the object is valid and no listed frame holds a ramdisk byte |
| `Programs.MapPages` | kernel/src/loader.rs:30-36 | the loop over a range of pages performs exactly their mappings up to the first that fails |
| `Programs.KernelRangeChecked` | kernel/src/memory.rs:315-316 | a page is refused for its range if and only if it is outside the kernel range, and then nothing changes |
| `Programs.UserRangeChecked` | kernel/src/memory.rs:332-333 | the same for user pages |
| `Programs.StoresExactly` | kernel/src/loader.rs:37-41 | a store goes through if and only if all four entries allow writing |
| `Programs.RangePerformed` | kernel/src/memory.rs:315-353 | a range mapped to its end is mapped, and no other page of the table changed |
| `Programs.UserRangeFails` | kernel/src/memory.rs:332-353 | a range of unmapped user pages fails for lack of memory only |
| `Loading.ImageAtEveryMoment` | kernel/src/loader.rs:21-67 | at every moment of every interleaving the user half is what the loading core's own actions add up to |
| `Loader.CompletedMeansDisjoint` | kernel/src/loader.rs:21-35 | a load that ran to its end had page-disjoint segments |
| `Loader.LoadedImageExact` | kernel/src/loader.rs:88-153 | every address of every segment reads its file byte or zero; through all four entries its pages are usable from user mode, writable exactly if the header says write, executable exactly if it says execute and not write; the stack is writable and not executable; nothing else is mapped; however other cores interleave |
| `Loader.CoversExactly` | kernel/src/loader.rs:21-28 | the pages of a segment are those that hold one of its bytes |
| `Loader.OnStackExactly` | kernel/src/loader.rs:57-67 | the stack pages are those between the guard page and the end of the stack |
| `Loader.FreshTableIsEmpty` | kernel/src/loader.rs:88-95 | a table just created is in a managed frame and has an empty user half |
| `Loader.WriteXorExecute` | kernel/src/loader.rs:21-67 | at every moment a writable user page is not executable, unless it belongs to the segment `map_segment` is busy with |
| `Loader.WriteXorExecuteStays` | kernel/src/allocator.rs:93-99 | and this stays through all actions of all cores, as long as none under the table maps or re-flags a user page writable and executable; heap growth does not |
| `Loader.SafeUpdate` | kernel/src/memory.rs:355-375 | changing one user page of a safe table keeps it safe if and only if the new flags are not writable and executable |
| `Loader.PreparedTableSafe` | kernel/src/loader.rs:88-108 | once `prepare_application` has ended, in whatever interleaving, no user page is writable and executable |
| `Loader.WriteXorExecuteForLife` | kernel/src/loader.rs:88-108 | from an interleaved load through everything that follows, write xor execute holds |
| `Loader.MapSegment` | kernel/src/loader.rs:21-55 | its four loops perform exactly the segment's actions up to the first that fails |
| `Loader.LoadSegments` | kernel/src/loader.rs:114-153 | so does the loop over the segments |
| `Loader.FillTable` | kernel/src/loader.rs:96-99 | state and failure are those of the whole program of actions; on an empty table success means image in place and write xor execute |
| `Loader.PrepareApplication` | kernel/src/loader.rs:88-108 | creates a table, makes it active, fills it and makes the kernel's active again: state, failure and active table exactly; on success a new table with the image in place and write xor execute |
| `Loader.OpenedReady` | kernel/src/loader.rs:88-95 | from any state of the machine the two steps before the load lead to an empty table that only this core has active |
| `Loader.PreparedFromAnywhere` | kernel/src/loader.rs:88-108 | so from any state, in any interleaving, the image is exact and write xor execute holds, also after the switch back |
| `Loader.AloneIsExec` | kernel/src/loader.rs:88-108 | running the loops undisturbed is one of the interleavings the theorems speak about |
| `LoadProgress.OnlyMemoryStopsALoad` | kernel/src/loader.rs:21-67 | if the segments fit, at every moment of every interleaving the next action succeeds or memory is short |
| `LoadProgress.CompletedMeansFits` | kernel/src/loader.rs:21-67 | a load that reached its end had segments in the user range, page-disjoint and off the stack |
| `LoadProgress.LoadCompletes` | kernel/src/loader.rs:88-108 | with fitting segments and four free frames for each page a load completes, and takes one to four frames for each page |
| `ContextSwitch.GoesIn` | kernel/src/loader.rs:297-314 | seventeen instructions lead into the program with the frame saved and the abort address stored |
| `ContextSwitch.ComesOut` | kernel/src/loader.rs:311-332 | the six instructions after the call undo the pushes from any state that kept the saved frame |
| `ContextSwitch.ReturnRoundTrip` | kernel/src/loader.rs:246-338 | a program that returns by the calling convention resumes the kernel with rsp, rbx, rbp, r14, r15 and the exit code |
| `ContextSwitch.AbortRoundTrip` | kernel/src/loader.rs:340-360 | so does `abort` from any depth: it finds the saved words through the running application and needs nothing of the program's stack and registers |
| `ContextSwitch.Core.RunApplication` | kernel/src/loader.rs:233-360 | for any program that returns or aborts: it starts at its entry point with the function pointers in rdi, on its own stack, under its own table and with its data registered; `abort` finds them; the kernel has rsp, rbx, rbp, r14 and r15 back and the exit code; no application is running and the kernel table is active |
| `ContextSwitch.EntersMisaligned` | kernel/src/loader.rs:265 | the stack pointer it starts with is 8 off the alignment that the calling convention asks for |
| `HeapGrowth.NextPow2Is` | kernel/src/allocator.rs:21-25 | the least power of two that is large enough |
| `HeapGrowth.NewTotalIs` | kernel/src/allocator.rs:21-26 | the unrounded new total is exactly 2 * max(old, min_size_to_add) |
| `HeapGrowth.NewTotalExactly` | kernel/src/allocator.rs:21-26 | without intermediate sizes: twice the larger of the old total and the least power of two that holds the padding to the first aligned end and the request |
| `HeapGrowth.SmallRequestDoubles` | kernel/src/allocator.rs:21-26 | a request no larger and no more aligned than the heap doubles it |
| `HeapGrowth.GrowthInvariant` | kernel/src/allocator.rs:21-58 | the total stays 0 or a power of two of at least 4096; the pages added reach exactly from old end to new end |
| `HeapGrowth.GrowthServes` | kernel/src/allocator.rs:21-35 | the range added holds an aligned block for the layout if and only if the heap was not empty or the alignment is at most max(4096, 2 * nextpow2(size)) |
| `HeapGrowth.FirstGrowthCanMiss` | kernel/src/allocator.rs:21-35 | an input for which it does not |
| `HeapGrowth.TotalInvariant` | kernel/src/allocator.rs:65-106 | the shape of the total after any sequence of growths |
| `HeapGrowth.MappedOnce` | kernel/src/allocator.rs:65-106 | no page is mapped by two growths |
| `HeapGrowth.GrowthsTile` | kernel/src/allocator.rs:65-106 | the growths' pages are exactly those of [start, start + total) |
| `HeapGrowth.HeapRegions` | kernel/src/constants.rs:17-26 | the kernel heap stays below the AP stacks, and the user heap in its range, while the total is within the bound |
| `Heap.Heap.Rescue` | kernel/src/allocator.rs:65-106 | the loop maps the pages in order up to the first failure; on success exactly the new range is mapped, writable and not executable, and the total is the exact new total in whole pages |
| `Heap.GrowthsAreOneRange` | kernel/src/allocator.rs:65-106 | any sequence of growths maps one contiguous range from base to total, each page once |
| `Heap.GrowthsMapped` | kernel/src/allocator.rs:65-106 | after any sequence of successful growths exactly the pages of [base, base + total) were mapped |
| `Heap.UserGrowthsFail` | kernel/src/allocator.rs:65-106 | a user heap's growths fail for lack of memory only |
| `ApStartup.RunInv` | kernel/smp_trampoline/ap.asm:84-103 | counters, indices and stack pointers agree after every interleaving of any number of APs |
| `ApStartup.StartupSafe` | kernel/src/smp.rs:41-98 | indices are distinct and below the AP count, each stack pointer is the last byte of its own stack, the done counter is full if and only if all APs have reported, and after a wait without time-out they have |
| `ApStartup.WaitEndsExactly` | kernel/src/smp.rs:80-91 | the wait ends when all APs have reported, with the time that is left, and goes on otherwise while time is left |
| `ApStartup.StacksApart` | kernel/src/smp.rs:100-123 | stacks and guards follow each other without overlap inside the kernel range |
| `ApStartup.WithdrawsEarlyExactly` | kernel/src/smp.rs:80-97 | in every run the page is withdrawn while an AP is in it or still to enter it if and only if the time-out is used up while one is; the done counter is not full then |
| `ApStartup.GivesUpExactly` | kernel/src/smp.rs:80-97 | and before all APs have reported if and only if the time-out is used up before the done counter is full |
| `ApStartup.TimeOutWithdrawsEarly` | kernel/src/smp.rs:80-97 | a run from the start in which it is |
| `ApStacks.AllocateStacks` | kernel/src/smp.rs:100-118 | the two loops map exactly the stack pages in order up to the first failure; on success all are mapped; the range assertion never fails |
| `ApStacks.StackPageIs` | kernel/src/smp.rs:100-118 | every page of a stack is one of them, its guard page is not |
| `ApStacks.StackPageOnly` | kernel/src/smp.rs:100-118 | and no page outside the stacks is |
| `ApStacks.OwnStackMapped` | kernel/src/smp.rs:100-118 | in every interleaving of the APs and after every run of the memory system that leaves stack pages alone, the stack of an AP with an index is mapped writable and not executable from its lowest page to its stack pointer, and its guard page is unmapped |
| `RamDisk.FileRoundTrip` | kernel/src/ram_disk.rs:5-49 | reading file i of the built image gives file i, and reading past the last panics |
| `RamDisk.StreamedChecksum` | bootimage/src/main.rs:256-259 | the checksum streamed in two parts is the one-pass checksum |
| `RamDisk.CrcBitDivides` | kernel/src/ram_disk.rs:71-75 | one bit of the checksum is one step of division by the polynomial of section 8 of RFC 1952 |
| `RamDisk.ChecksumOfA` | kernel/src/ram_disk.rs:71-75 | the checksum of the one-letter text a |
| `RamDisk.SoundExactly` | kernel/src/ram_disk.rs:51-82 | the image is accepted exactly if there is a file and at least as many data bytes as files |
| `RamDisk.AssertSoundness` | kernel/src/ram_disk.rs:51-82 | the checks as they run decide soundness |
| `RamDisk.ChecksumOfTwo` | bootimage/src/main.rs:256-259 | the hasher object fed twice |
| `RamDisk.Image.AddFile` | bootimage/src/main.rs:222-246 | one more file in the abstract list |
| `RamDisk.Image.Build` | bootimage/src/main.rs:248-272 | the bytes written are the image of the files added |
| `RamDisk.Crc32.Write` | bootimage/src/main.rs:256-259 | the byte loop is the fold of section 8 of RFC 1952 |
| `Windows.CellsPartition` | kernel/src/terminal_out.rs:111-130 | the cells partition the screen for all sizes and divisors |
| `Windows.CellAccepted` | kernel/src/terminal_out.rs:92-130 | a cell in any row, of the grid or below it, gets its window if and only if its lower edge is within the screen's width; where that window starts and how large it is |
| `Windows.PortraitRejected` | kernel/src/terminal_out.rs:92-97 | the full-screen window of a screen higher than wide is rejected |
| `Windows.BytesApart` | kernel/src/terminal_out.rs:335-356 | different pixels have different bytes |
| `Windows.ByteInside` | kernel/src/terminal_out.rs:335-356 | a screen pixel's bytes are inside stride * height * bpp |
| `Windows.IndexInSlice` | kernel/src/terminal_out.rs:147-154 | a window pixel's index is inside the writer's slice, which may overhang the buffer |
| `Windows.NonInterference` | kernel/src/terminal_out.rs:335-356 | for any interleaving of writers, each cell's bytes are as if its writer had run alone |
| `Windows.PaddingKept` | kernel/src/terminal_out.rs:335-356 | bytes of no pixel are never written |
| `Windows.CoreCells` | kernel/src/common_main.rs:153-164 | cores get different cells; core id gets a cell of the grid exactly if id < 4 * ceil(count / 4) |
| `Windows.CoreOrigin` | kernel/src/common_main.rs:153-164 | where the window of a core starts: four columns, filled from left to right and downwards |
| `Windows.LastCoreBelowScreen` | kernel/src/common_main.rs:153-164 | id == count with count a multiple of four starts at the screen's lower edge; its window is accepted if and only if the row of cells that would come next ends within the screen's width; every write of its writer is past the buffer |
| `Windows.WideScreenAccepts` | kernel/src/common_main.rs:153-164 | a common screen on which it is accepted |
| `Windows.BelowScreenOutside` | kernel/src/terminal_out.rs:335-356 | the bytes of a pixel below the screen are past the buffer |
| `Terminal.CursorSafe` | kernel/src/terminal_out.rs:194-303 | after every stream of characters, clears and window changes a whole line fits below the cursor and it is not right of the window |
| `Terminal.TabStops` | kernel/src/terminal_out.rs:247-260 | a tab is one to four blanks, as many as lead from its column to a multiple of four |
| `Terminal.BlanksWrap` | kernel/src/terminal_out.rs:280-292 | blanks of which only k fit leave the others at the start of the next line |
| `Terminal.TabEnds` | kernel/src/terminal_out.rs:247-260 | the cursor ends in such a column if and only if all blanks fit, or four are drawn and none fits; where it ends otherwise |
| `Terminal.TerminalWriter.Newline` | kernel/src/terminal_out.rs:217-241 | cursor, rotated colour, and exactly the painted rows |
| `Terminal.TerminalWriter.WriteRawChar` | kernel/src/terminal_out.rs:280-303 | the glyph, all of it inside the window, and no other pixel but those of a new line |
| `Terminal.CharMoves` | kernel/src/terminal_out.rs:262-292 | a glyph that fits moves the cursor one glyph right, one that does not ends one glyph into the line below or at the top; a newline and a carriage return |
| `Terminal.StringFits` | kernel/src/terminal_out.rs:358-369 | a printable string that fits ends as many glyphs further right |
| `Terminal.TerminalWriter.WriteChar` | kernel/src/terminal_out.rs:262-269 | cursor and pixels follow the model: a new line, the blanks of a tab, or the character's own glyph |
| `Terminal.TerminalWriter.WriteStr` | kernel/src/terminal_out.rs:358-369 | cursor and pixels follow the model through any string |
| `Terminal.TerminalWriter.ClearWindow` | kernel/src/terminal_out.rs:201-215 | exactly the window's pixels get the clear colour |
| `Terminal.TerminalWriter.SetWindowInfo` | kernel/src/terminal_out.rs:194-199 | the same for a new window |
| `Terminal.TerminalWriter.PrintPixels` | kernel/src/terminal_out.rs:305-331 | terminates with ceil(floor(n / width) / line_height) new lines; if none wraps, the clipped image is at the starting cursor |
| `Refresh.InRowExactly` | kernel/src/terminal_out.rs:434-443 | the bytes that a row copy covers are exactly those of the screen's pixels in that row |
| `Refresh.CopyRowsExact` | kernel/src/terminal_out.rs:434-443 | a completed copy makes every visible byte equal and leaves the padding |
| `Refresh.PushRows` | kernel/src/terminal_out.rs:434-443 | the copying loop in place |
| `Refresh.ProtocolSafe` | kernel/src/terminal_out.rs:423-483 | in every interleaving of pushes, writers under either lock and panics at any moment, in which panicking cores get the swap lock, drawing overlaps no copy, each core completes at most one copy after the flag, and only one that had passed the check |
| `Refresh.NoNewCopies` | kernel/src/terminal_out.rs:423-430 | after the flag, in every interleaving, a core that is not past the check never starts another copy |
| `Refresh.QuietInv` | kernel/src/terminal_out.rs:398-421 | the protocol's invariant holds at the start |
| `Refresh.GivingUpOverlapsExactly` | kernel/src/terminal_out.rs:460-474 | after every run, drawing without the lock overlaps a copy if and only if the holder of the lock is copying |
| `Refresh.GivingUpHarmless` | kernel/src/terminal_out.rs:455-474 | once the flag is up and no core is past the check it never does |
| `Refresh.GivingUpOverlaps` | kernel/src/terminal_out.rs:460-474 | a run from the start in which it does |

## Left out

- TLB, caches, PAT and accessed or dirty bits: no modelled state depends on them.
- Permissions: CR0.WP is set on the core of the boot loader and not on the APs (kernel/smp_trampoline/ap.asm:45-47), so stores that honour it and stores that do not are two actions; SMEP, SMAP and protection keys are not modelled.
- Huge mappings made by the boot loader: they obstruct a walk; a translation through them is modelled only as the direct write above.
- Addresses.DecomposeBuild: the bitwise or in `build_addr` is written as a sum, since the five fields do not overlap.
- 64-bit overflow of sizes and addresses: integers are unbounded, but for the stack pointer and the words of the ram disk.
- User code: arbitrary stores through mapped pages; the kernel runs it in ring 0, and stores of user code to kernel pages are outside the isolation theorem for the kernel half.
- Loader.MapSegment: requires a header that does not panic in the parser, in `load`'s assertion or in slicing (readable or executable, no more file bytes than memory, address not zero together with size zero, inside 48 bits).
- ContextSwitch.AbortRoundTrip: each instruction has one code address, and a program that overwrites the saved frame or the core-local data is excluded. The asm block leaves rax, rcx, rdx, rsi and rdi changed on both paths, and r12 after `abort`, without declaring it; what the compiler makes of that is not modelled.
- AddressSpaces.Isolation: a stray write through the window on physical memory into a page table or a free frame, which code in ring 0 could make, is not an action of the model; into any other frame its effect is `AddressSpaces.StrayWriteExactly`.
- Heap.Heap.Rescue: requires the grown heap to end inside the 48-bit address range, beyond which the original panics; of the buddy allocator only the total is modelled; blocks it hands out and takes back are not.
- ApStartup.StartupSafe: the real-mode and long-mode entry before `setup` is one step; the interrupt commands that start the APs are not modelled.
- BootFrames.NewMemory: the boot loader's tables are assumed well formed and to map no usable frame but the ramdisk's.
- Terminal.TerminalWriter.WriteChar: the rasters are a parameter; blending the glyph's grey levels into colours is part of it.
- Terminal.TerminalWriter.PrintPixels: width 0 makes the original loop forever and is excluded.
- Windows.CoreCells: an AP count of 0 divides by zero in the original and is excluded.
- Refresh.ProtocolSafe: writers that take neither TERM nor BACK_BUFFER_LOCK, the panic path before the double buffer exists, and a second panic of a core that is already drawing are not modelled.
- Color interpolation, fonts, JPEG decoding, ELF parsing, ACPI tables, APIC, PIT, serial port, logging, interrupts, the test harness and the build commands of `bootimage`: device access, tables and plumbing without a property of their own, or code of other crates.
