# A verified model of the kernel's memory manager, process table and archive reader

The kernel is a small preemptive x86-64 system. This project models the three parts of it that carry
invariants, and proves what they promise over all inputs and all runs.

**Memory.** Physical memory is a sequence of frames of 512 words; a word is a frame number and twelve flag
bits, or eight bytes (`PageTables`, `Bytes`). Page tables live in the frames that the bitmap allocator hands out,
and the kernel reaches them through a direct map at `0xFFFFFFFFF0000000` that belongs to each address space. The
model has two layers. The physical layer says what each operation does to frames, free set and table forest
(`PageMapping`, `TableClone`, `ForkCopy`, `AddressSpaces`, `ElfLoad`, `Areas`, `Tasks`). The machine layer
(`Machine.Cpu`, over `FrameBitmap.Bitmap`) is the code itself, loops and all, and every table access in it goes
through a virtual address translated by the current tables. Each of its methods is proved to do what the physical
layer says, which is where the direct-map invariant is used. The theorems are then about the physical layer:
mapping changes one page of one space, to present, writable and user; cloning gives an equal tree of fresh frames; fork copies the recorded pages
and shares the rest; over every run of brk, kmalloc, exec, fork and stores, every address space keeps its direct
map and no two tasks share a recorded page. `Boot` goes from the memory map to a state that runs start from.

**Processes.** The table of 100 slots and the scheduler are a step machine (`Processes`): fork, exec, exit, sleep,
wait and timer tick, each atomic because system calls and the timer run with interrupts off. `ProcessRuns` and
`Waiting` prove the table invariant, bounded waiting, exact sleep and wait soundness over all runs.
`Scheduler.ReadyQueue` is the code over arrays, with the `next` links, proved to perform those steps.

**Archive.** `Archive` defines a serialiser for lists of ustar entries and proves that the scanning code recovers
the list; `Files` and `Directory` prove what open, read, opendir and readdir return in terms of that list.

Properties that turned out not to hold of the code as one might state them are given with the exact condition:

- A tick ends a wait for any child exactly when the highest-slot child is a zombie, leaving out zombies that an
  earlier slot claims by waiting for their pid (`Waiting.TickWakesAny`); so a wait can go on although another child is
  a zombie, and a run of four steps gets there (`Waiting.WaitAnyMisses`).
- switch_task runs a slot that is not ready exactly when nothing unflagged is ready and the flagged slot farthest
  from the current one has blocked or exited (`ProcessRuns.NotReadyChosen`); two steps from the initial table get
  there (`ProcessRuns.IdleRunsAsleep`).
- A file reads back as its content exactly when it has no NUL byte and is either not a multiple of 512 bytes long or
  the last entry (`Files.FileReadsAsContent`). A descriptor reads through its own record exactly when it is at
  most 10 (`Files.OwnRecord`). Below 10 no other call disturbs it; descriptor 10 is disturbed by reads of 1, 2 and
  every descriptor above 10, which take the bytes of record 10, and by no other call (`Files.ReadsAlone`,
  `Files.TenIsShared`).
- After boot, frame 0 is free exactly when the last region starts below 4096 outside the kernel image, and then
  `page_alloc` returning 0 does not mean exhaustion (`FrameBitmap.BootState`).
- The two forms of a direct address, by `or` and by sum, are equal exactly below 2^28 (`Addresses.OrIsAdd`).
- Fork's loop over an area ends exactly when the area stops short of the last page of the address space
  (`Areas.EndsIffPassable`). Among the pages of frames only that of the last frame under 2^28 does not
  (`Areas.OnlyLastWraps`), and there the loop never ends (`Areas.LastNeverEnds`).
- kmalloc keeps to the page it has exactly when that is not the page of the last frame (`Heap.OnlyLastOverruns`);
  otherwise two calls are enough to run past it (`Heap.LastFrameOverrun`).
- A heap page is copied by a later fork exactly when an area slot was empty as it was taken and the task has not
  called exec since; otherwise parent and child share it (`Heap.HeapPageShared`), as they do the page of a task's
  eleventh brk (`Heap.EleventhUnrecorded`). Of an executable, fork copies the
  stacks and the first seven segments with a size (`TaskRuns.ExecRecords`); any further segment is shared.

Assumptions, all explicit in the definitions:

- `PageTables.Inv`: frames that may be handed out are zero, are not frame 0 and lie below 2^28. They are zero at
  boot by assumption (`page_alloc` clears nothing) and stay so in every step; `page_dealloc` has no caller in the
  kernel. The heap results also assume that the last frame below 2^28 is never free (`Heap.OwnerOk`).
- A step in which memory runs out, or in which fork never ends, has no successor: the code does not test
  `page_alloc` for NULL.
- Segments of executables lie in the file, fit the area slots and lie outside the direct-map window
  (`Tasks.SegmentsOk`); for the byte-level result their rounded ranges lie below 2^48 and do not overlap
  (`ElfLoad.AllApart`).
- A task stores only to pages it has recorded among its first ten areas.
- A program named `bin/idle` neither blocks nor exits (`Processes.Allowed`); whether any program has that name is
  left open.
- Archive entries have terminated names, octal size digits that fit in an `int` when read in base ten, and the
  archive ends in empty blocks (`Archive.EntryOk`, `Archive.Image`). Listings are for preorder archives, in which
  directory names end in a slash, a directory precedes what is below it, the entries below a directory are together,
  and no name occurs twice (`Directory.Preorder`).

32-bit and 64-bit wrap-around is modelled where it decides something: memory usage, the limit test of brk, heap
pointers, direct addresses, sleeping time.

## Model

| member | source | states |
|---|---|---|
| `PageTables.TablesUnshared` | sys/virt_mem.c:200-264 | The table graph is a forest: a table of any level is reached from one root only, and only by pages that agree on all the indices above it |
| `PageTables.WalkFrame` | sys/virt_mem.c:56-64 | A walk, with the flag bits met at every level, depends on the tables at or below its start and on no other memory |
| `PageTables.WalkEntries` | sys/virt_mem.c:56-64 | The walk is there exactly when the four entries that get_phy_addr reads, by the PML4, PDP, PD and PT index, are present, and is the last of them |
| `PageMapping.MapPage` | sys/virt_mem.c:200-264 | Mapping succeeds exactly when the missing tables can be had; then the walk of the page gives the new entry, every other page of every space walks as before, the table invariant holds, data frames are untouched and at most three frames are taken |
| `PageMapping.MapPageUsable` | sys/virt_mem.c:200-264 | After mapping the walk is the frame given with flags 7, which are present, writable and user, and so are the flags of every table entry added on the way |
| `PageMapping.MapFromTrail` | sys/virt_mem.c:200-264 | Of the flags met on the way down exactly those of the missing tables and of the last entry are new, and they are 7; the others are as they were |
| `PageMapping.MapFromWalk` | sys/virt_mem.c:200-264 | After mapping v in one space, the walk of any page u in any space is the new entry if it is that page and space, and is unchanged otherwise |
| `PageMapping.MapFromTakes` | sys/virt_mem.c:200-264 | The frames taken are exactly as many as tables are missing on the walk |
| `PageMapping.MapFromSame` | sys/virt_mem.c:200-264 | Mapping a page as it is already mapped changes no memory and takes no frame |
| `TableClone.CloneSpace` | sys/kfork.c:13-29 | clone_page_directory(root, 4) succeeds exactly when two frames per table are free; the new tree has the same translation and flag bits for every page, every one of its tables was free before, and no existing space changes |
| `TableClone.CloneTableTakes` | sys/kfork.c:13-29 | At every level, cloning consumes exactly two frames per table of the source tree |
| `TableClone.CloneTableKeeps` | sys/kfork.c:13-29 | At every level the clone keeps the table invariant and everything in frames that were in use |
| `TableClone.NewTreeFresh` | sys/kfork.c:13-29 | Every table reached from a root that was free is a frame that was free |
| `TableClone.SecondLowest` | sys/virt_mem.c:43-54 | The frame i_virt_alloc returns is the second lowest free one |
| `ForkCopy.ForkSpec` | sys/kfork.c:54-68 | Fork copies and isolates: every recorded page is in the child its own frame, free before, with the parent's contents; every other page translates as in the parent; no existing space and no memory in use changes |
| `ForkCopy.FreshUsable` | sys/kfork.c:54-68 | Every page that fork, exec or brk maps afresh has flags 7: present, writable and user |
| `ForkCopy.ForkTakes` | sys/kfork.c:54-68 | Fork succeeds exactly when two frames are free per table and per recorded page, and takes just those |
| `ForkCopy.ForkPagesApart` | sys/kfork.c:54-68 | Different recorded pages of the child get different frames, even when a page is recorded twice |
| `ForkCopy.ForkPagesCopied` | sys/kfork.c:54-68 | A page copied late in the loop still gets what the parent had before the loop |
| `Addresses.PageOfNumber` | include/virt_mem.h:44-47 | Two addresses have the same four indices exactly when their 36-bit page numbers agree |
| `Addresses.DirectAddrPage` | sys/virt_mem.c:39-41 | The indices of a frame's direct address are those of the frame's page in the last 2^28 bytes |
| `Addresses.DirectPageInjective` | sys/virt_mem.c:39-41 | Different frames have different direct pages |
| `Addresses.VirtPhyRoundTrip` | sys/virt_mem.c:35-41 | i_virt_to_phy undoes i_phy_to_virt for every frame below 2^28 |
| `Words.LowNine` | include/virt_mem.h:44-47 | Masking a word with 0x1FF takes the number it denotes in binary modulo 512 |
| `Words.ShiftValues` | include/virt_mem.h:44-47 | The shifts of the macros divide the number a word denotes by 2^12, 2^21, 2^30 and 2^39 |
| `Addresses.IndexMacros` | include/virt_mem.h:44-47 | For every 64-bit word the four shift-and-mask macros give the four indices that the model uses for the number it denotes |
| `Addresses.OrIsAdd` | sys/virt_mem.c:220 | For every 64-bit word, the or-form and the sum-form of the direct address are the same word if and only if the address is below 2^28 |
| `Addresses.OrRoundTrip` | sys/virt_mem.c:35-41 | Subtracting the base gives back what the or-form was made from if and only if the address is below 2^28 |
| `Addresses.EntrySplits` | sys/mem_util.c:34-44 | An entry is its frame address and its low twelve bits, and setting the address keeps the bits |
| `Addresses.Attributes` | sys/mem_util.c:26-32 | Adding and deleting attributes keep the address and set or clear exactly what they name |
| `AddressSpaces.VirtAllocMapsNothing` | sys/virt_mem.c:43-54 | With the direct map in place, i_virt_alloc's own mapping changes no word and takes no frame |
| `AddressSpaces.Take2Fresh` | sys/virt_mem.c:43-54 | After i_virt_alloc no space has changed, and the page returned is a fresh frame that is out of the way of the direct map |
| `AddressSpaces.DirectKept` | sys/virt_mem.c:200-264 | The direct map of every space outlives any mapping of pages that are not its own |
| `AddressSpaces.ForkDirect` | sys/kfork.c:54-68 | The child of a fork has the direct map although its recorded pages override direct addresses |
| `AddressSpaces.MapFreshSpec` | sys/read_tarfs.c:97-104 | Mapping a list of pages to page_alloc's frames gives each page its own fresh frame and changes no other page |
| `AddressSpaces.IdentityMapped` | sys/virt_mem.c:320-330 | After identity mapping of n frames each of them is at its direct address |
| `AddressSpaces.BootDirect` | sys/virt_mem.c:320-330 | Identity mapping over all of memory puts the direct map in place |
| `Isolation.RenewedKeeps` | sys/virt_mem.c:43-54 | Giving one space fresh pages keeps every space's direct map and keeps all recorded pages on different frames |
| `Isolation.AddedKeeps` | sys/kfork.c:33-79 | So does adding the child of a fork |
| `Areas.AddAreaRecords` | sys/virt_mem.c:91-101 | After adding an area exactly these pages are recorded: those recorded before and, if one of ten slots was empty, those of the area |
| `Areas.AddAreaSlot` | sys/virt_mem.c:91-101 | An area goes to the first of ten slots that is empty, and nothing changes when none is |
| `Areas.EndsIffPassable` | sys/kfork.c:54-68 | For every area that starts on a page, the loop in 64-bit arithmetic comes past the end if and only if the area stops short of the last page |
| `Areas.OnlyLastWraps` | sys/kfork.c:54-68 | Over the page of frame p the loop ends if and only if p is not the last frame |
| `Areas.LastNeverEnds` | sys/kfork.c:54-68 | Over the page of the last frame the loop is short of the end after any number of rounds |
| `TaskRuns.StepKeeps` | sys/virt_mem.c:103-145 | Every step of brk, kmalloc, exec, fork or a store keeps the whole memory invariant |
| `TaskRuns.RunKeeps` | sys/virt_mem.c:103-145 | So does every run |
| `TaskRuns.DirectMapHolds` | sys/virt_mem.c:35-54 | After every run, in every task's space, every free frame and every page table is mapped at its direct address, and mapping it there again is the identity |
| `TaskRuns.StoreIsolated` | sys/kfork.c:54-68 | A store to a recorded page is read back there and changes no recorded page of any other task, nor any other page of its own |
| `TaskRuns.GrownRecords` | sys/virt_mem.c:125-145 | brk records its page if and only if a slot is empty, and forgets none |
| `TaskRuns.HeapTaskRecords` | sys/virt_mem.c:103-122 | So does a kmalloc that takes a page |
| `TaskRuns.ExecRecords` | sys/kexecvpe.c:92-101 | After exec exactly these pages are recorded: the two stacks and those of the first seven segments with a size |
| `TaskRuns.ExecAreasSpec` | sys/kexecvpe.c:92-101 | Stacks in slots 0 and 1, segments from slot 3 on, the rest of ten cleared, all other slots as they were |
| `TaskRuns.ExecSpec` | sys/kexecvpe.c:92-101 | exec charges 16384 for the stacks and 4096 for every page of the segments, keeps heap, limit and root, and touches no other task |
| `TaskRuns.ExecTakes` | sys/read_tarfs.c:67-122 | exec takes four frames and one for every page of the segments, and at most three more for each |
| `TaskRuns.ExecUsable` | sys/read_tarfs.c:97-104 | Every stack and segment page is mapped with flags 7 to a frame that was free |
| `TaskRuns.ForkStepSpec` | sys/kfork.c:33-79 | What the parent had recorded the child records too, in frames of its own with the same contents; every other page the two share; the parent is unchanged |
| `TaskRuns.ForkRecords` | sys/kfork.c:33-79 | The child has the parent's areas of the ten slots, its limit, no heap, and a usage of 4096 for every recorded page; the parent is charged 8192 for every table and recorded page and is otherwise the same |
| `TaskRuns.InheritedRecords` | sys/kfork.c:54-68 | A child records exactly the pages its parent recorded |
| `Boot.IdentityMapSucceeds` | sys/virt_mem.c:320-330 | Identity mapping of n frames succeeds whenever 3 + (n - 1) / 512 frames are free for its tables, and takes no more |
| `Boot.OneTableSucceeds` | sys/virt_mem.c:148-189 | Mapping the kernel image, all in one last-level table, takes at most three frames |
| `Boot.KernelBoots` | sys/mem_util.c:9-24 | From zeroed memory and any large enough set of free frames below the end of memory, map_kernel, identity_mapping with the screen, and setup_kernel_stack succeed, and with the first task of initialize_tasking give a kernel that satisfies the invariant, using no more than the frames counted |
| `Boot.MemoryMapBoots` | sys/mem_util.c:9-24 | The same from the memory map: any regions that end below the end of memory, the last starting at 4096 or above, with one clear stretch long enough for the tables |
| `Boot.LayoutOfOk` | sys/virt_mem.c:148-189 | The layout that map_kernel computes, with the screen right behind the image and the stack five pages later, is one that boots, whatever the size of the image, when those pages are outside the direct map |
| `Boot.StartedOk` | sys/task.c:112-137 | After initialize_tasking the invariant that runs start from holds, and the first task has recorded exactly its kernel stack |
| `Boot.KernelMapped` | sys/virt_mem.c:148-189 | After boot page i of the image walks to its frame and page i of the screen behind it to frame 0xB8 + i, with flags 7 |
| `Boot.ImageMapped` | sys/virt_mem.c:148-189 | After boot every page of the image that nothing later is mapped over walks to its frame |
| `Boot.ScreenMapped` | sys/virt_mem.c:332-337 | So does every page of the screen |
| `Boot.MemoryMapped` | sys/virt_mem.c:320-330 | Every frame below the end of memory is at its direct address, and the stack page has a frame that was free |
| `Heap.HRunKeeps` | sys/virt_mem.c:103-145 | Over every interleaving with blocks below 4096 bytes: non-empty blocks are pairwise disjoint, each lies in one page that its own task obtained, and all lie behind their task's heap pointer |
| `Heap.HStepKeeps` | sys/virt_mem.c:103-145 | Each step keeps that invariant |
| `Heap.HeapStart` | sys/task.c:112-137 | It holds before anything was handed out |
| `Heap.OnlyLastOverruns` | sys/virt_mem.c:103-122 | kmalloc on the page of frame f hands out only what is left of it, for every position and every size below 4096, if and only if f is not the last frame |
| `Heap.LastFrameOverrun` | sys/virt_mem.c:103-122 | When a task without a heap is given the last frame, kmalloc of 4095 and then of 2 bytes hands out a block of which one byte is past 2^64 |
| `Heap.HeapPageRecorded` | sys/virt_mem.c:103-145 | After any run, the page that a brk or kmalloc took is recorded if and only if a slot was empty then and the task has not called exec since |
| `Heap.HeapPageShared` | sys/kfork.c:54-68 | After any run, a fork makes parent and child share the page that a brk or kmalloc took if and only if no slot was empty then or the task has called exec since |
| `Heap.EleventhUnrecorded` | sys/virt_mem.c:125-145 | The page of the eleventh brk of a task that had recorded nothing is not recorded |
| `Heap.ExecForgets` | sys/kexecvpe.c:92-101 | After its own exec a task has recorded no direct page of a frame that was in use |
| `Heap.BrkUsage` | sys/virt_mem.c:125-145 | Without 32-bit wrap, a brk past the limit changes nothing, and any other adds exactly 12288 to the usage and ends at most 8192 above the limit |
| `Heap.BrkSpec` | sys/virt_mem.c:125-145 | When brk refuses, when it has no successor, and otherwise which frames it takes, what it returns and what it records |
| `Heap.KmallocFits` | sys/virt_mem.c:103-122 | A block that fits is given at the place of the next block; memory, areas and usage stay as they are |
| `Heap.KmallocTakes` | sys/virt_mem.c:103-122 | Otherwise kmalloc takes a page and gives the block at its start |
| `Heap.KmallocRefused` | sys/virt_mem.c:103-122 | Over the limit it returns nothing, takes nothing and records nothing |
| `Heap.BlocksFollow` | sys/virt_mem.c:103-122 | In every interleaving with other tasks, as long as what a task asks for fits its page, nothing of it changes but the place of the next block |
| `Heap.PageFills` | sys/virt_mem.c:103-122 | After a page is taken at a, blocks whose sizes sum to at most 4095 are given at a and then each right behind the one before, without another frame |
| `Bytes.ByteWritten` | sys/read_tarfs.c:111-118 | A byte stored in a page of words is read back there, and no other byte of the page changes |
| `Bytes.LittleEndian` | sys/read_tarfs.c:111-118 | Byte j of a word is its j-th base-256 digit from the lowest |
| `ElfLoad.LoadAllSpec` | sys/read_tarfs.c:67-122 | When rounded ranges do not overlap, after all segments are loaded every byte of every segment is mapped to ordinary memory and equals its byte of the file |
| `ElfLoad.LoadAllKeeps` | sys/read_tarfs.c:67-122 | Loading any segments, overlapping or not, gives their pages fresh frames of their own, remaps no other page of any space and changes no memory in use |
| `ElfLoad.ForkedBytes` | sys/kfork.c:54-68 | Exec, then fork: whichever pages are recorded, parent and child both read the bytes of the file in every segment |
| `ElfLoad.LoadSegmentSpec` | sys/read_tarfs.c:67-122 | Loading one segment puts every one of its bytes in place |
| `ElfLoad.ByteKept` | sys/read_tarfs.c:67-122 | A later segment disturbs no byte of an earlier one |
| `ElfLoad.SegmentCovered` | sys/read_tarfs.c:75-91 | Rounding covers every byte of the segment |
| `ElfLoad.SegPagesExact` | sys/read_tarfs.c:81-88 | The pages of a segment are exactly those of the addresses from its first byte to the one behind its last |
| `ElfLoad.SegPageCount` | sys/read_tarfs.c:81-95 | Their number is (vaddr + size) / 4096 - vaddr / 4096 + 1, and the recorded area starts and ends on their bounds |
| `ElfLoad.LoadAllTakes` | sys/read_tarfs.c:97-104 | Loading takes a frame for every page, and at most three more for each |
| `ElfLoad.RoundedApart` | sys/read_tarfs.c:75-91 | Segments whose rounded ranges do not overlap share no page |
| `Bits.BitWritten` | sys/phy_mem.c:44-54 | On 64-bit words, or with a shifted one sets that bit and no other, and-not clears it and no other, and the and tests it |
| `Bits.MaskValue` | sys/phy_mem.c:44-54 | The mask of position k denotes 2 to the k |
| `FrameBitmap.Bitmap.constructor` | sys/phy_mem.c:56-66 | No frame is free at first |
| `FrameBitmap.Bitmap.Set` | sys/phy_mem.c:44-46 | Adds one frame to the free set |
| `FrameBitmap.Bitmap.Unset` | sys/phy_mem.c:48-50 | Removes one frame |
| `FrameBitmap.Bitmap.Test` | sys/phy_mem.c:52-54 | Tells whether the frame is free |
| `FrameBitmap.Bitmap.IndexOfFreePage` | sys/phy_mem.c:90-103 | The lowest free frame, and -1 exactly when there is none |
| `FrameBitmap.Bitmap.PageAlloc` | sys/phy_mem.c:105-116 | Returns and removes exactly the lowest free frame; 0 when none is free |
| `FrameBitmap.Bitmap.PageDealloc` | sys/phy_mem.c:118-122 | Adds exactly one frame |
| `FrameBitmap.Bitmap.InitRegion` | sys/phy_mem.c:68-88 | The effect of one region on the free set |
| `FrameBitmap.Bitmap.InitMemory` | sys/mem_util.c:9-18 | The free set after all regions is the one that BootState characterises |
| `FrameBitmap.NotTwice` | sys/phy_mem.c:90-122 | Over any run, a frame handed out twice was given back in between |
| `FrameBitmap.Conserved` | sys/phy_mem.c:90-122 | Over any run that gives back only frames that are out, free and handed-out frames partition the frames there were |
| `FrameBitmap.BootState` | sys/phy_mem.c:68-88 | After any region list, a frame is free iff it lies in some region's inclusive range, above the first 256 and clear of [physbase, physfree]; the one exception is frame 0, with its exact condition |
| `FrameBitmap.ZeroMeansExhausted` | sys/phy_mem.c:105-116 | When the last region starts at 4096 or above, page_alloc's 0 means that nothing is free |
| `Machine.Cpu.MapProcessSpecific` | sys/virt_mem.c:200-264 | The code, reading and writing tables at their direct addresses, does what the physical map does, fails only when that does, and charges the given task a page |
| `Machine.Cpu.MapProcess` | sys/virt_mem.c:196-198 | The same in the current space, charging the task a page |
| `Machine.Cpu.IVirtAlloc` | sys/virt_mem.c:43-54 | Takes exactly the two lowest free frames, changes no memory, and returns the second at its direct address |
| `Machine.Cpu.ClonePageDirectory` | sys/kfork.c:13-29 | The recursive code with its 512-step loops computes the physical clone |
| `Machine.Cpu.ForkOnePage` | sys/kfork.c:63-67 | One page of the copying loop does what the physical page copy does |
| `Machine.Cpu.ForkMemory` | sys/kfork.c:54-68 | The memory part of kfork computes the physical fork of the pages recorded in the first ten areas and the child's usage; it fails only when that does or when the loop over some area never ends |
| `Machine.Cpu.Kfork` | sys/kfork.c:33-79 | For the current task it performs the fork step of the runs: memory, usage of parent and child, and the areas the child inherits |
| `Machine.Cpu.AddToVma` | sys/virt_mem.c:91-101 | Fills the first empty of ten slots, or drops the area |
| `Machine.Cpu.Brk` | sys/virt_mem.c:125-145 | Performs the brk step: page, area, usage and the refusal over the limit |
| `Machine.Cpu.Kmalloc` | sys/virt_mem.c:103-122 | Performs the kmalloc step and returns the block's address |
| `Machine.Cpu.Map` | sys/virt_mem.c:266-318 | The boot-time map, at physical addresses, is the same physical map |
| `Machine.Cpu.MapKernel` | sys/virt_mem.c:148-189 | The root, the three tables and the loop over the image compute the mapping of the image, and fail only when that does |
| `Machine.Cpu.IdentityMapping` | sys/virt_mem.c:320-341 | The two loops compute the identity map of every frame up to the last and the mapping of the screen, and fail only when those do |
| `Machine.Cpu.InitializeTasking` | sys/task.c:112-137 | The memory of the first task is set up as in the state that runs start from |
| `Machine.Cpu.MapExeFormat` | sys/read_tarfs.c:67-122 | The mapping and copying loops compute the loading of all segments, record their areas and charge the task |
| `Machine.Cpu.Exec` | sys/kexecvpe.c:92-101 | Clearing the areas, making the stacks and loading the executable perform the exec step |
| `Processes.FirstFree` | sys/task.c:75-83 | The first free slot, and none exactly when there is none |
| `ProcessRuns.InitialOk` | sys/task.c:112-123 | The initial table satisfies the invariant |
| `ProcessRuns.StepKeeps` | sys/kfork.c:36-75 | Every step keeps: used slots are a prefix, slot i has pid i + 1, next_pid follows, parents precede children, the current slot is ready; no slot becomes free, a zombie stays one with its status |
| `ProcessRuns.RunKeeps` | sys/task.c:75-123 | So does every run |
| `Families.ParentKept` | sys/kexecvpe.c:92-113 | No step but a tick takes a slot in use away from its parent |
| `Families.TickDrops` | sys/scheduler.c:38-45 | A tick takes a slot away from its parent only when it is a zombie and a waiter receives its pid and status |
| `Families.ParentForked` | sys/kfork.c:73 | Over every run from the initial table, the parent of a slot is the slot that made its fork step, until a tick at which a waiter received it |
| `Families.ForkMakes` | sys/kfork.c:33-79 | Fork makes the next slot, ready, with the next pid, the current slot as parent and its program, and changes no other slot |
| `Families.ForkFails` | sys/task.c:75-83 | Fork hangs exactly when all 100 slots are in use |
| `Families.ProgramKept` | sys/kexecvpe.c:113 | Whether a slot runs bin/idle changes only by its own exec |
| `Families.ExecKeepsRunning` | sys/kexecvpe.c:92-113 | Exec changes nothing in the table but the program of the current slot |
| `Families.ClockCounts` | sys/timer.c:19-31 | The clock of a run from the initial table is the number of its ticks |
| `ProcessRuns.ScanChoice` | sys/task.c:55-73 | The choice is the cyclically nearest unflagged ready slot; a flagged slot only when there is none; none only when there is no flagged slot either |
| `ProcessRuns.ScanFallback` | sys/task.c:55-73 | When nothing unflagged is ready the choice is the flagged slot farthest from the current one |
| `ProcessRuns.NotReadyChosen` | sys/scheduler.c:84-90 | A slot that is not ready is chosen if and only if nothing unflagged is ready and the farthest flagged slot is not ready |
| `ProcessRuns.IdleRunsAsleep` | sys/task.c:55-73 | From the initial table, exec of a program named bin/idle and then sleep leave a current slot that is asleep |
| `ProcessRuns.SwitchApproaches` | sys/task.c:55-73 | While a slot is ready and unflagged, each switch chooses it or strictly shrinks the cyclic distance to it |
| `ProcessRuns.BoundedWaiting` | sys/task.c:55-73 | Such a slot is chosen within 100 calls of switch_task, whatever happens between the calls |
| `Families.StepApproaches` | sys/timer.c:19-31 | A tick chooses after the update, and so does every call that gives up the processor: each such step runs a ready unflagged slot or comes strictly nearer to it |
| `Waiting.SleepExact` | sys/ksleep.c:7-14 | In every interleaving a sleeper sleeps before the max(1, 18n)-th tick and is ready after it, 18n taken modulo 2^32 |
| `Waiting.ChildrenSpec` | sys/task.c:85-98 | get_children lists exactly the slots whose parent has the pid, once each, in descending order |
| `Waiting.SearchSpec` | sys/scheduler.c:30-32 | The search goes along the list to the first slot that is a zombie or ended by the given time, and finds none exactly when there is none |
| `Waiting.SearchStopsAtHead` | sys/scheduler.c:27-33 | The search over the children always stops at the first |
| `Waiting.TickWakes` | sys/scheduler.c:27-49 | A tick wakes a waiter on one pid exactly when that pid is a zombie, with the zombie's status |
| `Waiting.TickWakesAny` | sys/scheduler.c:15-52 | Told from the table before the tick: a waiter on any child is woken exactly when its highest child not claimed by an earlier pid waiter is a zombie, with that child's pid and status; otherwise it is unchanged |
| `Waiting.ChildrenLeft` | sys/scheduler.c:15-52 | After n passes of the loop a later slot has lost exactly those zombie children that one of the n slots claims by pid |
| `Waiting.WaitAnyMisses` | sys/scheduler.c:15-52 | A run of four steps from the initial table leads to a waiter whose child is a zombie and whom the next tick leaves waiting |
| `Waiting.WaitReturns` | sys/kwaitpid.c:6-20 | When the waiter next runs it holds a zombie's pid and exit status; after a wait for any child that zombie was its child; the zombie is disowned |
| `Waiting.ExitLasts` | sys/kexit.c:6-15 | Over every run, a task that exited is a zombie with the status it gave and never runs |
| `Waiting.ZombieExited` | sys/kexit.c:6-15 | Every zombie of every run from the initial table made an exit step of its own in it, with the status it has |
| `Families.ZombieEnded` | sys/kexit.c:6-15 | The end time of a zombie is the clock at its exit step |
| `Families.WaiterBegan` | sys/kwaitpid.c:6-20 | Every waiting slot of every run made a wait step for the pid it waits for, at the time it has noted |
| `Waiting.StatusDelivered` | sys/kwaitpid.c:6-20 | In every run from the initial table, the status that kwaitpid returns is the argument of the exit step that the returned pid itself made |
| `Waiting.DeliveredOnce` | sys/scheduler.c:38-45 | Over every run, a disowned zombie is in nobody's list of children, so no wait for any child delivers it again |
| `Scheduler.ReadyQueue.constructor` | sys/task.c:112-123 | Builds the initial table |
| `Scheduler.ReadyQueue.GetNextReadyTask` | sys/task.c:55-73 | The loop makes the choice that ScanChoice describes |
| `Scheduler.ReadyQueue.GetNextFreeTask` | sys/task.c:75-83 | The loop finds the first free slot |
| `Scheduler.ReadyQueue.GetTask` | sys/task.c:100-109 | The loop finds the slot with the pid |
| `Scheduler.ReadyQueue.GetChildren` | sys/task.c:85-98 | Whatever links earlier calls left, the chain from the result ends and is the list of the children |
| `Scheduler.ReadyQueue.FindWaited` | sys/scheduler.c:27-37 | The search along the links ends, at the slot the model looks at |
| `Scheduler.ReadyQueue.UpdateWaitingAndSleepingTasks` | sys/scheduler.c:15-52 | The loop performs the passes of a tick |
| `Scheduler.ReadyQueue.SwitchTask` | sys/scheduler.c:84-90 | Makes the chosen slot current |
| `Scheduler.ReadyQueue.Kfork` | sys/kfork.c:33-79 | Performs the fork step on the table and keeps its invariant |
| `Scheduler.ReadyQueue.Kexit` | sys/kexit.c:6-15 | Performs the exit step, and keeps the invariant unless the program is flagged as idle |
| `Scheduler.ReadyQueue.Ksleep` | sys/ksleep.c:7-14 | Performs the sleep step, and keeps the invariant unless the program is flagged as idle |
| `Scheduler.ReadyQueue.Kwaitpid` | sys/kwaitpid.c:6-20 | Performs the wait step, and keeps the invariant unless the program is flagged as idle |
| `Scheduler.ReadyQueue.TimerHandler` | sys/timer.c:19-31 | Performs the tick step and keeps the invariant |
| `Octal.OctOfDecVal` | sys/files.c:100-115 | Digits read in base ten and then taken apart in base eight give the true octal size |
| `Octal.OctMore` | sys/files.c:100-115 | One more digit multiplies the octal value by eight and the decimal value by ten |
| `Octal.OctalDecimal` | sys/files.c:100-115 | The loop with its inner power loop reads the decimal digits of its argument in base eight |
| `Archive.HeaderAt` | sys/read_tarfs.c:31-51 | At the k-th header of a serialised list the scan reads that entry's name, true size, which fits in an int, and data, and steps to the next header |
| `Archive.ScanVisits` | sys/read_tarfs.c:31-51 | The scan visits exactly the header offsets in order, each at least 512 further |
| `Archive.Layout` | sys/read_tarfs.c:31-51 | The serialised form is the ustar one: headers on multiples of 512, the name first, the size digits at byte 124, the data behind the header, padded to whole blocks |
| `Archive.Strcmp` | sys/string.c:27-37 | Zero exactly for equal strings |
| `Archive.ReadSize` | sys/syscall.c:212-217 | The size loop and the conversion give the size in the header |
| `Archive.Lookup` | sys/syscall.c:193-226 | Returns the first entry with the name, its data offset and true size, and none exactly when there is none; the empty name finds the first empty block |
| `Files.ChunksConcatenate` | sys/syscall.c:255-301 | Reads of any positive sizes return the string in order, each as much as asked for or left |
| `Files.ReadsEnd` | sys/syscall.c:255-301 | Once all is read every later read returns nothing |
| `Files.FileReadsAsContent` | sys/syscall.c:255-301 | What is read is the file's content iff the content has no NUL byte and is not a multiple of 512 long or is the last entry |
| `Files.OwnRecord` | sys/syscall.c:255-301 | A descriptor reads through its own record iff it is at most 10 |
| `Files.ReadsAlone` | sys/syscall.c:255-301 | In every interleaving with other calls on the table, the reads of an open descriptor up to 10 return the chunks of its own record; for descriptor 10, when no other reader of record 10 is among the calls |
| `Files.OpenThenRead` | sys/syscall.c:183-301 | Opening a file on such a descriptor and reading it returns its content in order, as far as was asked for, in every such interleaving |
| `Files.TenIsShared` | sys/syscall.c:255-301 | A read of any open descriptor among 1, 2 and those above 10 takes the bytes of record 10 and advances it |
| `Files.OpenReturns` | sys/syscall.c:183-252 | open returns the lowest unallocated descriptor, on a record at the data of the first file with the name; -1, and nothing changed, exactly when there is no such file or no such descriptor |
| `Files.CloseFrees` | sys/syscall.c:303-312 | close frees its descriptor and touches no other |
| `Files.CloseThenOpen` | sys/syscall.c:303-312 | After a close the next open of a file that exists returns that descriptor or a lower one |
| `Files.ClosedReads` | sys/syscall.c:262-266 | Until a closed descriptor is opened again its reads return nothing, whatever else is called |
| `Files.ReadTouches` | sys/syscall.c:255-301 | A read touches the record it finds, and of that only the place and the end |
| `Files.EndNoted` | sys/syscall.c:286-295 | The end of the file is noted exactly with the last byte read |
| `Files.FileTable.Open` | sys/syscall.c:183-252 | Lowest free descriptor on the first file with the name, or -1 and nothing changed |
| `Files.FileTable.Read` | sys/syscall.c:255-301 | Returns the next chunk of the record it finds and advances that record only |
| `Files.FileTable.Close` | sys/syscall.c:303-312 | Frees the descriptor and nothing else |
| `Directory.Contains` | sys/string.c:77-92 | Whether the second string is a prefix of the first |
| `Directory.FetchName` | sys/files.c:86-95 | The path component after the prefix |
| `Directory.ChildrenTogether` | sys/files.c:33-79 | In a preorder archive, two entries of one child of any directory have only entries of that child between them |
| `Directory.ListingInOrder` | sys/files.c:33-79 | Where the entries of each child are together, comparing with the previous name only lists the first entry of each child, in archive order |
| `Directory.WholeListing` | sys/files.c:11-83 | In a preorder archive: opendir below the root stands behind the directory's own entry, and any number of readdir calls return ".", then each immediate child in the whole archive once in archive order, then the empty name for ever |
| `Directory.RootListing` | sys/files.c:117-166 | In a preorder archive: opendir on the root, then any number of readdir calls: each top-level name once in archive order, then the empty name for ever |
| `Directory.DirFound` | sys/syscall.c:345-377 | Below the root opendir finds the directory exactly when some entry has its name, and stands behind the first such header |
| `Directory.DirTable.OpenDir` | sys/syscall.c:315-406 | Lowest free descriptor, standing after the header of the first entry with the name, or for the root at the start; otherwise -1 and nothing changed |
| `Directory.DirTable.ReadRoot` | sys/files.c:117-166 | On the root, returns the next name of the root listing and moves the cursor |
| `Directory.DirTable.ReadDir` | sys/files.c:11-83 | Below the root, returns the next name of the listing and moves the cursor; nothing when the task has not opened the directory |

## Left out

- Inline assembly, stack and register switching, interrupt tables, TLB effects and the accessed and dirty bits: switch_task is the choice of the next current slot, and system calls and ticks are atomic steps.
- Boot.KernelBoots: setup_kernel_stack runs under the loader's page tables, which are not part of this model; its effect is taken to be that on the kernel's own tables.
- Boot.StartedOk: the start of the first task's user stack is the value of the first eight bytes of an array (sys/task.c:110, sys/main.c:38), taken to be zero.
- Tasks.ExecStep: argument and environment copying and the PATH search in sys/kexecvpe.c are not modelled, nor is a zero-filled bss, since the copying loop takes the whole memory size from the file.
- Tasks.ForkStep: the environment that kfork copies with kmalloc (sys/kfork.c:42-48) is not part of the step; such calls are kmalloc steps before it.
- Machine.Cpu.Kmalloc: one task at a time; interleavings of tasks are in the Heap module.
- Machine.Cpu.ForkMemory: over an area whose loop never ends the method reports failure where the code hangs.
- FrameBitmap.Bitmap.InitRegion: requires that the region ends below the capacity of the bitmap, where the code would write past its array; InitMemory requires it of every region.
- Parse_ELF_Executable: segments are given by offset, address and size; oct_to_dec, which only feeds its length check, is an input.
- Processes.Step: the tick counter and pids do not wrap.
- Files.FileTable.Read: requires a descriptor of at least -1 and below 100, and Close one from 0 to 99; the code indexes its arrays with any value. A record that was never opened starts at offset 0 of the archive in the model and at address 0 in the code.
- Archive.Lookup: get_elf_file's further steps after the file is found are not modelled.
- Directory.DirTable.ReadDir: the two copies that the code keeps of a directory record are one; sys_closedir is not modelled.
- Screen, keyboard, shell, user programs, libc stubs and text helpers (printf, itoa, atoi, strtok): driver code around the core.
