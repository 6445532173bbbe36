# TitanOS memory manager and scheduler, verified

This project models the parts of the TitanOS kernel whose guarantees hold over
whole runs: page tables and address spaces, the kernel heap, the region lists,
the scheduler, the physical page bitmap, the phys-to-virt hashmap, the ELF loader
and the ramdisk walk. Each stateful part is a class whose methods follow the C
functions step by step; a specification beside it says what the state means, and
lemmas state what every step or every run keeps. `dafny verify dfyconfig.toml`
checks everything.

## How the parts are modelled

- **Page tables** (`Address`, `TableForest`, `PageTables`, `AddressSpaces`,
  `Boot`). Tables are 512 entries keyed by the virtual address at which the kernel
  reaches them, and are found only through the phys-to-virt map. `Pager.Mmap` and
  `Pager.AllocPgTable` call each other as in C. The main results: `mmap` is a point
  update of a flat page-to-frame map (plus one window page per new table), the four
  level forest of all spaces refines that flat map over every run, the kernel half
  is the same in every space, lower halves are isolated, and every table stays
  mapped at the address by which it is dereferenced. Translation follows section
  5.3, Long-Mode Page Translation, of the AMD64 Architecture Programmer's Manual,
  Volume 2.
- **What the page tables rest on** (`Supply`). The frames they are given are those
  that a run of the bitmap hands out, and the map from frames to addresses is what
  lookups in the hashmap answer.
- **Regions and their pages** (`RegionSpec`, `RegionList`, `Backing`). Linked
  `vm_object` nodes with a private front for each space and one physically shared
  tail; `Backing` joins the list edit of `vmm_alloc` with the loop that maps a new
  frame behind every page.
- **Kernel heap** (`KernelHeap`, `HeapRuns`). Headers live in an array that stands
  for the heap; offset 0 is `heap_start`. First fit over merged runs is stated
  declaratively (`MaximalRun`, `FirstFit`) and the nested loops are proved against it.
- **Scheduler** (`RoundRobin`, `Scheduler`). Threads and processes are linked
  objects, and the links of reaped objects are read after they were freed, as the
  code does; this is sound because `kfree` changes only a header flag and nothing
  allocates in between. The two-level ring is proved to be a flat circle, on which
  fairness is proved and from which it is carried back to the ring.
- **ELF loader** (`SegmentMemory`, `ElfLoader`, `LoadedPages`). A space is a region
  list, a page map, physical frames and the frames still to be handed out. Each byte
  of a frame carries a tag that says which program header's copy wrote it, so that
  "loaded" can be stated exactly; the tag influences nothing. `LoadedPages` proves
  that this page map is what walking the page tables gives.
- **Hashmap** (`VmmHashmap`), **bitmap** (`Pmm`) and **tar** (`TarArchive`) are
  modelled at the level of nodes, bits and bytes.
- `Common` holds what these share: options, list edits, page alignment, `vmm.h`.

## What the code does differently from its evident intent

Each entry but the last names the member that gives the exact condition and, where
there is one, the input or run that shows the failure.

- `alloc_pg_table` maps the new table with a nested `mmap`, which needs no table of
  its own exactly when the leaf table for the next window page is there
  (`PageTables.NestedNeeds`). From the boot state this holds for 249 tables, as long
  as nothing is mapped under the next leaf table (`AddressSpaces.RunCapacity`,
  `Boot.BootRoom`). The next request consumes every frame that is left, each nested
  call asking for a table and none linking any
  (`AddressSpaces.FullWindowExhausts`; `Boot.FillWindow` reaches and makes it).
- `kmalloc` merging several blocks without a split leaves the first header's size
  unchanged (`HeapRuns.PayloadFits` gives the exact condition,
  `HeapRuns.DefectOverlaps` a run that hands out overlapping memory).
- The split test of `kmalloc` subtracts unsigned numbers and wraps on free blocks
  smaller than a header (`KernelHeap.SplitWraps`: exactly those). The header of the
  rest is then written over or into the next header, and no blocks tile the heap any
  more, exactly unless that place is the end of the heap (`KernelHeap.WrapBreaks`;
  `HeapRuns.WrapReached` has both cases after one call, `HeapRuns.BreakReached` a run
  in which a live block loses its header).
- `reap_process` completes exactly for a queued process without threads
  (`Scheduler.Scheduler.ReapProcess`); with threads left, its own loop leads to a
  second `reap_process` that runs off the queue.
- `pg_tbl_insert` and `vmm_hashmap_remove` never look at the first node of a chain
  (`VmmHashmap.InsertFinds`, `VmmHashmap.RemoveFinds`).
- `pmm_alloc_specific_page` and `pmm_alloc_page` number bits differently. A page is
  kept from being handed out exactly when its bit is set (`Pmm.ProtectedIff`), and
  reserving pages sets it exactly when one of stated numbers is among them
  (`Pmm.MarksExactly`, `Pmm.ReservedMarks`): reserving a page sets its own bit exactly
  when its number is below 32 (`Pmm.ReserveMarks`), and reserving a kernel image of up
  to 1 MiB at 1 MiB protects no page of it (`Pmm.KernelNotReserved`), nor frame 0 and
  the boot tables (`Supply.InitNotMarked`; `Supply.SpareIff` says what that costs).
- The configured bitmap is longer than the 4 GiB its 32-bit addresses can name
  (`Pmm.ConfiguredBitmapWraps`; `Pmm.PaddrInjective` for the bound).
- The overlap test of explicit placement in `vmm_alloc` joins its conditions with
  `&&`: sortedness always holds, disjointness, in every space, exactly for requests
  in a gap (`RegionList.Spaces.VmmAlloc`, `RegionSpec.ExplicitDisjoint`;
  `RegionSpec.OverlapAccepted` for a list that two requests lead to). Automatic
  placement returns address 0 exactly when the request is smaller than the gap
  behind the head (`RegionSpec.AutomaticNull`).
- `vmm_lengthen` reports failure for an MMIO region after having lengthened it
  (`RegionList.Spaces.VmmLengthen`).
- `vmm_alloc` aligns start and length separately and maps over pages that are in
  use, so `load_elf` faults on a segment that crosses a page boundary
  (`SegmentMemory.CrossingFaults`) and loses bytes of segments that share a page
  (`SegmentMemory.SharingLoses`). `SegmentMemory.SegmentsLoaded` says exactly when a
  program is loaded, `SegmentMemory.FitsIff` what remains of that for segments on
  pages of their own.
- A segment that asks for the first page is put into the first gap: it panics, faults
  or, without a file part, is loaded, as `SegmentMemory.FirstPageOutcome` says
  (`SegmentMemory.FirstPageExamples` for the last two), so that with the first page
  unused a program with a file part there is never loaded
  (`SegmentMemory.OnlyExplicit`).
- `load_elf` does not clear the part of a segment beyond `p_filesz`
  (`SegmentMemory.BssNotCleared`).
- `parse_tar_file` writes behind its table exactly for more than five files
  (`TarArchive.ParseTarFile`).
- `umap` takes both loop bounds from the same address, so its body never runs;
  `vmm_free` is therefore list unlinking only.

## Model

| member | source | states |
|---|---|---|
| Address.SamePage | src/kernel/mm/vmm.c:65-68 | Two canonical addresses select the same four table entries if and only if they lie on the same page |
| Address.EntryBitsDecode | src/kernel/mm/vmm.c:145-166 | The stored word is present, and masking it gives back the frame if and only if the frame is page aligned and the flags add no address bit |
| Address.StoredEntry | src/kernel/mm/vmm.c:157-166 | The word stored for an aligned frame and flags below bit 12 decodes to a present entry with that frame |
| TableForest.DescendPlace | src/kernel/mm/vmm.c:141-161 | A table reached by following k indices hangs at exactly those indices, in that space or in the kernel half |
| TableForest.KernelHalfShared | src/kernel/mm/vmm.c:400-408 | In every well-formed forest all spaces translate every page under slot 511 identically |
| TableForest.LeafWriteWalk | src/kernel/mm/vmm.c:164-167 | A leaf write changes the translation of that one page, in one space, or in all spaces for a kernel page, and nothing else |
| TableForest.LinkWalk | src/kernel/mm/vmm.c:152-159 | Hanging an empty table at an absent entry changes no translation |
| TableForest.LinkGrew | src/kernel/mm/vmm.c:152-159 | Hanging a table on the path of a page changes which tables are found on that path only, in that space or in the kernel half |
| TableForest.AddTableWalk | src/kernel/mm/vmm_hashmap.c:83-88 | Zeroing and registering a fresh table changes no translation |
| PageTables.WindowPageOf | src/kernel/mm/vmm_hashmap.c:74-76 | The window ends under the boot leaf table exactly for lengths below 1 MiB, and under the next one exactly from there to 3 MiB |
| PageTables.MissingIff | src/kernel/mm/vmm.c:141-161 | The level loop asks for a table if and only if its descent ends at a missing entry, and then for one per level left |
| PageTables.NestedNeeds | src/kernel/mm/vmm_hashmap.c:71-80 | The i-th nested mmap finds the tables unchanged and needs none if and only if the leaf table for its window page is there; otherwise it fails or asks for one |
| PageTables.NestedChain | src/kernel/mm/vmm_hashmap.c:71-80 | Each nested call begins in the state in which the one before it asks for a table |
| PageTables.NestedAbsent | src/kernel/mm/vmm_hashmap.c:74-80 | When the leaf table for the next window page is missing, every deeper nested call within its range misses it too |
| PageTables.Pager.Mmap | src/kernel/mm/vmm.c:133-168 | Runs out of frames if and only if there is no room for the missing tables, with nothing written if there is room for none; otherwise fails if and only if a directory entry names an unknown table, then changing nothing, or creates exactly the missing tables (at most 3) at the next window pages, is a point update of the flat map with the frame of paddr, and changes descents on the path of the page only |
| PageTables.Pager.AllocPgTable | src/kernel/mm/vmm_hashmap.c:65-89 | A zeroed table from the next free frame, mapped at the new window end in every space, registered, with all directories unchanged, if and only if the leaf table for that end is there; otherwise no table, nothing written, and every frame consumed |
| PageTables.Pager.CreateNewPml4t | src/kernel/mm/vmm.c:400-408 | The new space translates the kernel half like the current one and nothing else; other spaces change only at the new window page; no space, if and only if there is no room for a table |
| PageTables.Pager.SwitchVmSpace | src/kernel/mm/vmm.c:83-87 | Only the root in use changes |
| Boot.BootInv | src/kernel/mm/vmm.c:423-434 | The eight boot tables satisfy the invariant that all later steps keep |
| Boot.BootTranslates | src/kernel/mm/vmm.c:423-434 | Every page of the boot space: those of the three leaf tables translate as their entries say, and no other page translates |
| Boot.LayoutPages | src/include/vmm.h:17-24 | The table entries under which the kernel layout lies |
| Boot.LayoutRegions | src/kernel/mm/vmm.c:34-61 | The static regions as addresses and lengths; the last is the window of the page tables |
| Boot.BootRoom | src/kernel/mm/vmm.c:423-434 | In the boot state every directory entry names a known table and there is room for exactly 249 more tables |
| Boot.FillWindow | src/kernel/mm/vmm.c:400-445 | 249 new spaces after boot fill the window; one more consumes every frame left and writes nothing |
| Boot.BootSelfMapped | src/kernel/mm/vmm.c:426-434 | With the kernel image mapped, the boot tables are mapped at the addresses recorded for them |
| Boot.VmmInit | src/kernel/mm/vmm.c:423-445 | The initial paging state is the boot state and is valid, and its first two megabytes translate as the third leaf table says |
| AddressSpaces.RunRefines | src/kernel/mm/vmm.c:133-168 | Over every run of create, switch, map and handing out a frame, walking the forest equals looking up the flat kernel and user maps |
| AddressSpaces.RunIsFlat | src/kernel/mm/vmm.c:133-168 | The same without assuming a flat map: every start state has one, computed from its walks |
| AddressSpaces.RunSharesKernel | src/kernel/mm/vmm.c:400-421 | In every state of every run all spaces agree on every kernel page |
| AddressSpaces.RunIsolates | src/kernel/mm/vmm.c:141-161 | A run that maps nothing in a space leaves every lower-half translation of that space unchanged |
| AddressSpaces.RunSelfMapped | src/kernel/mm/vmm_hashmap.c:74-83 | Over every run that maps nothing over a table, each table is mapped in every space at its recorded address |
| AddressSpaces.RunNeverFails | src/kernel/mm/vmm.c:145-151 | From the boot state, or any other whose directory entries all name known tables, no mmap of any run fails |
| AddressSpaces.RoomLeft | src/kernel/mm/vmm_hashmap.c:74-80 | While the next leaf table is missing there is room for n tables if and only if the window stays within 0xff000 bytes |
| AddressSpaces.FullWindowRunsAway | src/kernel/mm/vmm_hashmap.c:65-80 | With a full window one more table starts 512 nested mmap calls, each on unchanged tables, each failing or asking for a table |
| AddressSpaces.FullWindowExhausts | src/kernel/mm/vmm_hashmap.c:65-80 | With a full window and no leaf table further on, every nested call for as long as there are frames finds the tables unchanged and asks for one |
| AddressSpaces.FirstLeafContiguous | src/kernel/mm/vmm_hashmap.c:74-76 | Then the leaf tables ahead of the window are there up to 1 MiB and no further |
| AddressSpaces.StepLaterLeaves | src/kernel/mm/vmm.c:141-161 | Events that map nothing in the kernel half beyond the boot leaf tables keep it so |
| AddressSpaces.RunCapacity | src/kernel/mm/vmm_hashmap.c:74-80 | From the boot state a run that maps nothing under the next leaf table creates at most 249 tables, and in each state there is room for n more if and only if they fit that number |
| Backing.NeedForeseen | src/kernel/mm/vmm.c:295-309 | The tables that each page of a region will need are known before the loop: those whose indices no earlier page shares and that are missing |
| Backing.BackRegion | src/kernel/mm/vmm.c:289-309 | Every page of the region is mapped in the current space to its own frame, which is no table; apart from the window pages of new tables no translation changes, in any space; the loop is a run of handing out and mapping |
| Backing.DistinctFrames | src/kernel/mm/vmm.c:295-309 | Different pages of a region have different frames |
| Backing.EveryAddressMapped | src/kernel/mm/vmm.c:289-309 | Every address of the region translates to the frame of its page |
| Backing.VmmAlloc | src/kernel/mm/vmm.c:242-312 | The region enters the list at the node where the search stops and all its pages are backed, or nothing has changed; all lists stay disjoint if and only if the request was refused, automatic or in a gap |
| LoadedPages.RegionWalks | src/kernel/mm/vmm.c:289-311 | After a user region was backed its pages walk to their frames and all other user pages walk as before |
| LoadedPages.SegmentWalks | src/kernel/syscalls/exec_elf.c:81-87 | The page map of the loader after a segment is the lower half of the page tables after vmm_alloc |
| LoadedPages.AllocSegment | src/kernel/syscalls/exec_elf.c:81-83 | vmm_alloc on the linked lists and the page tables leaves the region list and the page map that the loader is stated with |
| Supply.RunIsSpare | src/kernel/mm/pmm.c:86-101 | The frames that a bitmap run hands out, with frame 0 and the boot tables marked, are aligned, distinct, at most 0x100000 and no boot tables |
| Supply.SpareIff | src/kernel/mm/pmm.c:86-101 | They are so over every run if and only if frame 0 and the boot tables are marked |
| Supply.InitNotMarked | src/kernel/mm/pmm.c:50-53 | The reservations of pmm_init mark neither frame 0 nor any page of a kernel image of up to 1 MiB |
| Supply.RunLookup | src/kernel/mm/vmm_hashmap.c:83-131 | Over every run of page-table events, looking a frame up in the hashmap chains gives exactly the address the forest records |
| Supply.BootRecorded | src/kernel/mm/vmm.c:425-434 | The eight insertions of vmm_init record exactly the boot tables |
| KernelHeap.StopIsFirstFit | src/kernel/mm/kernel_heap_manager.c:77-103 | The first sufficient merge starts the lowest maximal free run that is large enough |
| KernelHeap.AllocateTotal | src/kernel/mm/kernel_heap_manager.c:62-103 | Serving a request conserves the sum of sizes and headers on every path |
| KernelHeap.SplitWraps | src/kernel/mm/kernel_heap_manager.c:65-73 | With machine subtraction the bytes of the block are conserved if and only if it is no smaller than a header; otherwise the rest is recorded as nearly 4 GiB; requests of 5 bytes or more are safe |
| KernelHeap.WrapBreaks | src/kernel/mm/kernel_heap_manager.c:65-73 | When the size of the rest wraps, some blocks tile the heap afterwards if and only if the header of the rest falls on the end of the heap |
| KernelHeap.HeaderRoundTrip | src/kernel/mm/kernel_heap_manager.c:11-15 | Reading the five packed bytes of a header gives back its flag and size |
| KernelHeap.SmearedIs | src/kernel/mm/kernel_heap_manager.c:71-72 | When the header of the rest reaches d bytes into the next one, that one becomes used, with the low 4 - d bytes of its size 0xff |
| KernelHeap.Heap.Kmalloc | src/kernel/mm/kernel_heap_manager.c:46-119 | Returns the payload of the first fit over merged runs; reaches the growth path if and only if no run fits; some blocks tile the heap afterwards if and only if no rest wraps with its header inside the heap, and then they are those stated; what is overwritten when it wraps |
| KernelHeap.Heap.Kfree | src/kernel/mm/kernel_heap_manager.c:122-125 | Clears one used flag and keeps the tiling |
| KernelHeap.Heap.constructor | src/kernel/mm/kernel_heap_manager.c:128-131 | One free block covers the heap |
| HeapRuns.RunTiles | src/kernel/mm/kernel_heap_manager.c:46-125 | Over every run without growth and without a call that leaves no tiling, the blocks tile the heap exactly, with one used block for each live pointer |
| HeapRuns.RunRecovers | src/kernel/mm/kernel_heap_manager.c:77-103 | After any such run, once all is freed, the first fit of every request up to the heap size less a header is at heap_start + 5; it is served with the tiling kept if and only if it does not meet a first block smaller than a header with room left behind; every one of 5 bytes or more is |
| HeapRuns.PayloadFits | src/kernel/mm/kernel_heap_manager.c:93-102 | The block handed out holds the request if and only if the call does not merge without splitting |
| HeapRuns.RunDisjoint | src/kernel/mm/kernel_heap_manager.c:56-104 | Over every run without that path live payloads are inside the heap and pairwise disjoint |
| HeapRuns.DefectOverlaps | src/kernel/mm/kernel_heap_manager.c:95-102 | A seven-call run from the initial heap that ends with overlapping live payloads |
| HeapRuns.WrapReached | src/kernel/mm/kernel_heap_manager.c:65-73 | One request for 4085 bytes on the initial heap leaves a block on which requests for 1 and 0 bytes wrap, the first keeping the tiling and the second breaking it |
| HeapRuns.BreakReached | src/kernel/mm/kernel_heap_manager.c:65-73 | After three calls a request for one byte overwrites the header of a live block, and no blocks tile the heap any more |
| RoundRobin.TickTurns | src/kernel/sched/scheduler.c:255-262 | schedule from a live thread advances one place on the flat circle of queued threads |
| RoundRobin.DieDrops | src/kernel/sched/scheduler.c:179-240 | schedule from a dead thread removes exactly that thread from the circle and moves to its successor |
| RoundRobin.SpawnPushes | src/kernel/sched/scheduler.c:112-122 | create_proc adds its thread at the front of the circle and moves nobody |
| RoundRobin.OneRound | src/kernel/sched/scheduler.c:242-272 | On the circle, N calls run each of N threads exactly once and return to the start |
| RoundRobin.RingRound | src/kernel/sched/scheduler.c:242-272 | On the two-level ring, N calls of schedule run each of the N queued threads exactly once, at a stated call, and return to the start |
| RoundRobin.RingFair | src/kernel/sched/scheduler.c:160-175 | From every state, idle or not, and whatever exits or is created meanwhile, every queued thread runs within a stated number of calls, the running one included if it lives on; processes created after the wrap cannot delay it |
| RoundRobin.WaitTight | src/kernel/sched/scheduler.c:242-272 | That bound is tight: without new processes or exits a thread runs at exactly that call of the round |
| RoundRobin.IdleReached | src/kernel/sched/scheduler.c:160-175 | On the circle, from the idle thread the i-th queued thread runs within i + 1 calls, plus one for each process created before the first |
| RoundRobin.CurrentReached | src/kernel/sched/scheduler.c:242-272 | On the circle, a running thread that does not exit runs again within one round, plus one call for each process created before the wrap |
| Scheduler.Scheduler.Schedule | src/kernel/sched/scheduler.c:242-272 | Acts on the ring as Tick or Die; a dead thread is in no list afterwards and its process is queued if and only if it has threads left; returns the context recorded last for the resumed thread, or the creation context for the idle thread; only the current thread is not ready |
| Scheduler.Scheduler.ReapThread | src/kernel/sched/scheduler.c:216-240 | For a queued thread: unlinks it, and its process when that list is empty; all other links, and the links of the reaped objects, stay |
| Scheduler.Scheduler.ReapOne | src/kernel/sched/scheduler.c:216-240 | For any thread: completes if and only if other threads remain or the process is queued |
| Scheduler.Scheduler.ReapProcess | src/kernel/sched/scheduler.c:179-200 | The recursion with reap_thread ends; it completes if and only if the process is queued and has no threads, and then unlinks exactly that process |
| Scheduler.Scheduler.SwitchProcess | src/kernel/sched/scheduler.c:160-172 | The successor of the process left, the head at the end of the queue, or the idle process when the queue is empty |
| Scheduler.Scheduler.CreateProc | src/kernel/sched/scheduler.c:97-125 | A process with one ready thread that holds its creation context; prepended to the queue if asked for, otherwise nothing queued changes; all invariants stay |
| Scheduler.Scheduler.CreateThread | src/kernel/sched/scheduler.c:41-95 | Appends a ready thread with its creation context to the list of its process, queued or not |
| Scheduler.Scheduler.CreateQueuedThread | src/kernel/sched/scheduler.c:41-95 | For a queued process all invariants of the scheduler stay |
| Scheduler.Scheduler.Exit | src/kernel/syscalls/syscall.c:31-33 | Only the current thread becomes dead |
| Scheduler.Scheduler.constructor | src/kernel/sched/scheduler.c:275-279 | An idle thread and an empty queue |
| RegionSpec.ExplicitSorted | src/kernel/mm/vmm.c:263-287 | Explicit placement keeps every list sorted, whatever is requested |
| RegionSpec.ExplicitDisjoint | src/kernel/mm/vmm.c:263-287 | It keeps a disjoint list disjoint if and only if the request lies in a gap, and such requests are never rejected |
| RegionSpec.RefusedIff | src/kernel/mm/vmm.c:265-275 | A request is refused if and only if the last region not beginning after it reaches beyond its start and it ends before the region that follows |
| RegionSpec.TwoRegionsReached | src/kernel/mm/vmm.c:263-287 | The list used next is reached from a new space by two accepted requests |
| RegionSpec.OverlapAccepted | src/kernel/mm/vmm.c:269-271 | On that list a request overlapping a region is let through by the test |
| RegionSpec.OverlapRefused | src/kernel/mm/vmm.c:269-271 | On the same list a shorter request at the same address is refused |
| RegionSpec.AutomaticDisjoint | src/kernel/mm/vmm.c:249-262 | Placement in the first gap keeps order and disjointness |
| RegionSpec.AutomaticNull | src/kernel/mm/vmm.c:249-262 | The address found is 0 if and only if the request is smaller than the gap behind the head |
| RegionSpec.LengthenKeeps | src/kernel/mm/vmm.c:189-198 | Lengthening within the tested bound keeps order and disjointness |
| RegionSpec.GrowsIff | src/kernel/mm/vmm.c:189-194 | A region of a disjoint list may grow if and only if it then overlaps nothing; the last always may |
| RegionSpec.GrowsToNext | src/kernel/mm/vmm.c:191 | Growing exactly up to the next region is allowed, one byte more is not |
| RegionSpec.DeleteKeeps | src/kernel/mm/vmm.c:236-238 | Unlinking keeps order and disjointness |
| RegionSpec.SwapFront | src/kernel/mm/vmm.c:411-421 | A new tail that fits behind one private front fits behind every front the old tail was behind |
| RegionSpec.TailInsertDisjoint | src/kernel/mm/vmm.c:342-377 | A region put into a clear zone of the tail keeps the list of every space disjoint |
| RegionSpec.BumpLimits | src/include/vmm.h:17-24 | Stacks stay above the first heap page for exactly 84 calls, MMIO ranges below the bitmap for exactly 0x27 pages |
| RegionList.Spaces.VmmAlloc | src/kernel/mm/vmm.c:242-287 | Where the region goes and with which flag, that an explicit request returns NULL if and only if it is one of those refused, when address 0 or an unset address is returned, that a region below the kernel text changes only the current list while one above appears in every list, and that all lists stay disjoint if and only if the request was refused, automatic or in a gap; outside the zones of the bump allocators these stay clear |
| RegionList.Spaces.AddedCurrent | src/kernel/mm/vmm.c:281-287 | In the current space the new region stands right behind the node where the search stopped, whichever part of the list that is |
| RegionList.Spaces.VmmLengthen | src/kernel/mm/vmm.c:170-198 | The first region with that base grows if and only if it then overlaps nothing, and success is reported if and only if it grows and is no MMIO region, or grows by nothing; other fronts are unchanged and all lists stay disjoint |
| RegionList.Spaces.VmmFree | src/kernel/mm/vmm.c:221-240 | Unlinks the first region with that base, privately or for all spaces; freeing 0 does nothing; all lists stay disjoint and the zones clear |
| RegionList.Spaces.CreateVmm | src/kernel/mm/vmm.c:411-421 | A new space is an empty private front on the shared tail; all lists stay disjoint and the zones clear |
| RegionList.Spaces.FreeUserRegions | src/kernel/sched/scheduler.c:202-209 | The loop ends at the kernel text and leaves of the private front exactly the nodes with base 0; other spaces and the tail are untouched |
| RegionList.Spaces.AllocMmio | src/kernel/mm/vmm.c:342-356 | Contiguous ranges with the MMIO flag, never rejected, that keep every list disjoint below the bitmap |
| RegionList.Spaces.LengthenMmio | src/kernel/mm/vmm.c:201-208 | Lengthening a range from alloc_mmio by a positive amount never reports success |
| RegionList.Spaces.OutsideIff | src/kernel/mm/vmm.c:342-377 | A region is outside the zones of the bump allocators if and only if it has no address in either |
| RegionList.Spaces.AllocKernelStack | src/kernel/mm/vmm.c:359-377 | Stacks a page apart, without the MMIO flag, never rejected, that keep every list disjoint above the heap |
| RegionList.Spaces.constructor | src/kernel/mm/vmm.c:34-61 | The initial lists are sorted, shared and, for a kernel that ends below the VGA buffer, disjoint with both zones clear; only the VGA buffer has the MMIO flag |
| VmmHashmap.PageAlignedBuckets | src/kernel/mm/vmm_hashmap.c:30-32 | Page-aligned keys hash to buckets 0, 4, 8, 12 and 16 and to no other |
| VmmHashmap.InsertFinds | src/kernel/mm/vmm_hashmap.c:34-52 | Insertion is a map update if and only if the key is not the one at the head of its chain |
| VmmHashmap.RemoveFinds | src/kernel/mm/vmm_hashmap.c:133-162 | Removal succeeds if and only if the key is present and not at the head of its chain, and removes only that key |
| VmmHashmap.PutsRefineMap | src/kernel/mm/vmm_hashmap.c:91-131 | After any insertions with distinct keys, lookup is lookup in the finite map of those insertions |
| VmmHashmap.Hashmap.PgTblInsert | src/kernel/mm/vmm_hashmap.c:34-52 | On linked nodes: the chains stay acyclic and in their buckets, and their contents change as the specification says |
| VmmHashmap.Hashmap.GetPtblVaddr | src/kernel/mm/vmm_hashmap.c:112-131 | The first match in the chain, or NULL |
| VmmHashmap.Hashmap.Remove | src/kernel/mm/vmm_hashmap.c:133-162 | Exactly the first later node with that frame moves from its chain to the front of the freed list |
| Pmm.UniformSet | src/kernel/mm/pmm.c:91-93 | The sign-extended shift keeps bits 31 to 63 equal and changes one of the 32 bits that matter |
| Pmm.PaddrInjective | src/kernel/mm/pmm.c:70-72 | Two bits name the same frame if and only if they are equal and their words agree modulo 0x8000 |
| Pmm.MarksExactly | src/kernel/mm/pmm.c:70-83 | Reserving page p marks the frame of page n if and only if p / 64 = n / 32 and p and n agree modulo 32 |
| Pmm.ReserveMarks | src/kernel/mm/pmm.c:75-83 | Reserving a page marks that page's own frame if and only if the page number is below 32 |
| Pmm.ReservedMarks | src/kernel/mm/pmm.c:112-124 | After any reservations a page is marked if and only if it was before or a page of those numbers is among them |
| Pmm.KernelNotReserved | src/kernel/mm/pmm.c:50-53 | With k pages from 1 MiB reserved, page n of them is marked if and only if 64 (n / 32) + n mod 32 < 256 + k, so none is up to 1 MiB |
| Pmm.ProtectedIff | src/kernel/mm/pmm.c:86-101 | A page is marked if and only if no run without frees hands it out |
| Pmm.RunNeverRepeats | src/kernel/mm/pmm.c:86-124 | Over every run without frees no frame is handed out twice below word 0x8000 |
| Pmm.ConfiguredBitmapWraps | src/kernel/mm/pmm.c:24-30 | The configured bitmap exceeds that bound and names frame 0 twice |
| Pmm.Bitmap.AllocPage | src/kernel/mm/pmm.c:86-101 | Takes the lowest clear bit in word order, or returns 0 with nothing changed when all words are full |
| Pmm.Bitmap.AllocSpecificPage | src/kernel/mm/pmm.c:112-124 | Reports and sets the bit of the page, keeping the invariant |
| SegmentMemory.SegmentEffect | src/kernel/syscalls/exec_elf.c:81-87 | One segment loads if and only if it is placed, not at 0, frames suffice and every byte has a page; then which pages are mapped and what each holds |
| SegmentMemory.LoadedCell | src/kernel/syscalls/exec_elf.c:75-88 | Each byte is what the last copy to it wrote, unless its page was mapped anew since: then it is what the new frame held |
| SegmentMemory.RunsIff | src/kernel/syscalls/exec_elf.c:75-88 | The loop ends without panic or fault if and only if no request is rejected or placed at 0, frames suffice and every byte to be copied has a page by then |
| SegmentMemory.SegmentsLoaded | src/kernel/syscalls/exec_elf.c:75-88 | For every list of program headers: every file byte of every segment is there, as that segment's copy left it, if and only if besides no later segment maps its page or copies to it |
| SegmentMemory.FirstPageOutcome | src/kernel/mm/vmm.c:249-262 | A segment in the first page panics if and only if it is placed at 0 or nowhere, otherwise faults if and only if it has a file part; and when the place is 0 |
| SegmentMemory.FirstPageExamples | src/kernel/mm/vmm.c:249-262 | Such a segment that faults and one that is loaded |
| SegmentMemory.OnlyExplicit | src/kernel/syscalls/exec_elf.c:75-88 | With the first page unused and no segment there without a file part, a program is loaded only if no segment asks for that page, and then if and only if the conditions above hold with every segment where it asks to be |
| SegmentMemory.FitsIff | src/kernel/syscalls/exec_elf.c:75-88 | For segments on unused pages that no two of them share, the program is loaded if and only if none asks for the first page and every file part stays on the pages mapped for its segment |
| SegmentMemory.CrossingFaults | src/kernel/mm/vmm.c:243-244 | 32 bytes at 0x400ff0 in a new space: one page is mapped and the copy faults |
| SegmentMemory.SharingLoses | src/kernel/mm/vmm.c:269-311 | Three segments that share no byte, all accepted, of which the third maps a new frame over bytes of the second |
| SegmentMemory.BssNotCleared | src/kernel/syscalls/exec_elf.c:81-86 | A byte not copied to since its page was mapped is zero if and only if its new frame held zero there |
| ElfLoader.PhdrRoundTrip | src/kernel/syscalls/exec_elf.c:27-36 | Decoding the 56 bytes of a program header, written field by field, gives back type, offset, address and both sizes |
| ElfLoader.EhdrRoundTrip | src/kernel/syscalls/exec_elf.c:10-25 | Decoding the 64 bytes of a file header, written field by field, gives back entry point, place and number of the program headers |
| ElfLoader.HeadersRead | src/kernel/syscalls/exec_elf.c:66-77 | For every file written from given headers the loader works on exactly these |
| ElfLoader.OneSegment | src/kernel/syscalls/exec_elf.c:75-90 | A file with one segment of type 1, 16 bytes long and two pages large: both pages mapped, the bytes those of the file, the next one what the frame held |
| ElfLoader.Loader.LoadElf | src/kernel/syscalls/exec_elf.c:62-91 | Program header i is read at e_phoff + 56 * i whatever was read before; memory is as specified and the entry point is returned, or the call panics, faults or lacks a frame exactly as specified |
| ElfLoader.OpenFile.Read | src/kernel/fs/vfs.c:124-140 | The bytes at the read position, which advances by their number |
| TarArchive.OctalRoundTrip | src/kernel/fs/tar.c:22-32 | Octal decoding is the inverse of encoding |
| TarArchive.HeaderLayout | src/kernel/fs/tar.c:8-17 | In a header block written field by field the size digits lie at offset 124 |
| TarArchive.GetFileSize | src/kernel/fs/tar.c:22-32 | The number that the eleven signed digits spell, modulo 2^64 |
| TarArchive.HeaderFields | src/kernel/fs/tar.c:38-48 | At each file's header the size decodes to the data length, and the step of the walk lands on the next header |
| TarArchive.ParseTarFile | src/kernel/fs/tar.c:35-54 | For every image that begins with an archive the walk records exactly the header offsets in order and stops at the first zero block, whatever follows; with more than five files, and only then, it is about to write behind its table after the fifth |

## Left out

- Growth of the kernel heap (`get_more_pages`, `write_new_mem_reg`): the heap region is in no region list, so lengthening it always fails; `Kmalloc` returns None where the code would try.
- KernelHeap.Heap.Kfree: requires a pointer to a block, as the code trusts its caller.
- KernelHeap.Heap.Kmalloc: the five bytes that a wrapping rest writes behind the end of the heap are not modelled.
- PageTables.Pager.Mmap: requires that the leaf tables ahead of the window are there up to some point and none behind it, unless there is room; otherwise the nested calls come back and overwrite each other's links, which is not modelled. Access flags of entries are not tracked.
- PageTables.Pager.AllocPgTable: the same; reuse of freed tables is not modelled (the code does not unlink what it reuses).
- Backing.VmmAlloc: requires room for the tables of the region; regions with a given physical address (MMIO) are not mapped here.
- RegionList.Spaces.VmmAlloc: the list edit alone; where automatic placement finds no gap the code inserts a region with an unset base, and the model stops there.
- RegionList.Spaces.VmmLengthen: negative increments and the mapping of the new pages are not modelled.
- RegionList.Spaces.VmmFree: requires that the region exists and is not the kernel text, as the code would dereference NULL or cut off the shared tail.
- The growth of the page-table region inside the region list: `alloc_pg_table` adds to its length without any test.
- RoundRobin.RingFair: threads added to an existing process are not among the events, since `create_thread` is called only by `create_proc`; a process that added a thread to itself before every call would keep the processor.
- Scheduler.Scheduler.ReapThread: the stack region is not freed here; that is one `RegionList.Spaces.VmmFree`.
- Scheduler.Scheduler.ReapOne: the same.
- Scheduler.Scheduler.ReapProcess: freeing the regions is `RegionList.Spaces.FreeUserRegions`; the switch to the idle space and the removal from the hashmap are not part of it.
- Scheduler.Scheduler.CreateThread: stacks, names and thread ids are not modelled.
- Pmm: `pmm_free_page` and the marking of reserved entries in `pmm_init`.
- ElfLoader.Loader.LoadElf: all reads must lie inside the memory that begins with the file and addresses must not wrap, because the code does not test this; when automatic placement finds no gap the unset address is taken for NULL, and when no frame is left the model stops where the code would map frame 0.
- Boot assembly, interrupts, CR3 and TLB effects, drivers, mount points, resource tables, system calls other than exit, locks: hardware or plumbing.
