# Zohara verification

A Dafny model of the mechanisms of the Zohara kernel that carry its guarantees, with proofs of
what they guarantee. Each file models one component and keeps that component's form: code that
updates tables in place is a class whose methods are proved against functions of the old state,
and a protocol of several processors is a state machine over its atomic steps.

- **Address spaces and frames** (`Frames`, `PageTables`, `KernelTables`, `UserTables`, `Paging`,
  `UserCopy`). Physical memory is a map from frame numbers to page tables of 512 entries or to
  4096 bytes of data, and `PageTables.Walk` is the four-level translation of sections 4.5 and 4.6
  of the Intel SDM, volume 3A. A hierarchy of tables is a tree when every table has one place in
  it (`IsTree`, with `Labels` naming the place).
- **Kernel** (`Ownership`, `KernelLaws`, `Kernel`, `Boot`). The allocator, the tables and the task table together:
  `Conserved` says that every frame in use has exactly one owner. `Booting.Boot` is the boot
  sequence up to `init_scheduler`, with the calls of its phases as a parameter, and
  `Kernel.RunActions` any run after it of ticks, calls of the current task and stores by it.
- **Programs** (`Elf`, `Programs`). The loader's image and what a task reads of it through its own
  page tables.
- **Scheduler** (`Scheduler`). The timer tick, sleep, yield, spawn and exit as steps; runs are
  sequences of steps.
- **Ticket lock** (`TicketLock`, `Contention`). Every atomic operation is a step, threads
  interleave freely, and the counters wrap at 2^32. `Rel` relates the lock to a queue.
- **Storage** (`Files`, `FatChains`, `Fat32`, `BufferCache`, `ZohMeta`, `ZohFs`). A disk is an array
  of 512-byte sectors. FAT32 and ZohFS files are the bytes of the clusters or blocks they own, and
  `ZohMeta.Recorded` is what the first 72 sectors of a ZohFS disk say about them.
- **Heap** (`Heap`). Free lists live in the bytes of the freed blocks.

Conventions. Addresses of frames and tables are frame numbers. Page-table entries are records of
the bits the kernel uses; `EntryWords` gives the 64-bit words and proves the correspondence.
The words of the frame bitmap are sequences of 64 bits, and the ZohFS bitmap is one sequence of
4096 bits. Where the kernel stops the processor for want of memory (`alloc_table_or_halt`), methods
return `ok == false`, and then every frame is in use. The methods take every frame handed out for
mapped at its own address; `Booting.FramesBeyondMap` says when it is. Integers are unbounded except
where a width matters: the ticket counters, FAT entries, ZohFS file sizes and on-disk numbers,
pointers stored in the heap, and `copy_from_user`'s overflow test. Addition of 1 to the ticket in `try_lock` wraps, as in a release build.

What the proofs need from the outside is stated as preconditions:

- The kernel has a table below 512 GiB and no 1 GiB pages (`NoGiants`: `map_page` would take one for
  a table), as after every boot.
- A spawn needs a directory entry of the kernel for each page of the program and for the stack page
  (`Reached`), as `map_user_page` asks; after boot every program that ends within 2 GiB has them
  (`Booting.Boot`). `UserTables.PagesGranted` proves that a task gets its pages and the kernel keeps
  its translation if and only if none of the pages lies in a last-level table of the kernel, and
  `Booting.Boot` says where a boot leaves such tables.
- FAT32: 512-byte sectors, a geometry that fits the disk, equal copies of the table, and for writes a
  table that leads from the start cluster to no cluster outside the volume (`Confined`). A chain's
  last entry has a nonzero low 28 bits, because `next_cluster` compares before it masks while
  `alloc_cluster` masks before it compares.
- ZohFS: at most 4096 blocks, and block 0 marked used, once mounted.
- Heap: a nonzero start address, and nonempty requests aligned to a power of two.

Findings, each with its exact condition.

- An exit gives away the kernel's own last-level tables below 512 GiB (`SharedTables`). There are none
  if and only if every page mapped at boot lies at or above 512 GiB (`Booting.Boot`); the local
  APIC's page does not (`Booting.LapicBoot`). The first task to exit gives exactly those tables away;
  runs go on, with every other frame conserved, up to the next spawn (`Kernel.RunActions`). That
  spawn clears the first clear frame from the allocator's hint on, and if this is one of the tables
  given away, the kernel's pages under it fault (`Kernel.TakeRoot`; `LapicTableTaken` for the local
  APIC's own table).
- A page of a program that falls into such a table is lost to the task, and its write changes the
  kernel's translation (`PageSpoilt`; `StackSpoilt` for a kernel that has mapped 0x400000). From then
  on `is_user_mapped` is wrong about that page, and about no other (`IsUserMappedExact`).
- Boot maps the first 2 GiB. With a frame of memory or more beyond that, the allocator counts frames
  that no one has mapped, and clearing such a frame faults (`Booting.FramesBeyondMap`).
- `frame::reinit` counts frames past the end of memory unless memory is a whole number of bitmap words
  (`Reinit`; `ReinitTooFar` for 0x7FFE0000 bytes), and right after it nothing above 1 GiB is in
  use, whatever `detect_memory` has marked there (`Booting.Resize`).
- Only the first page of a program is copied, whatever its size (`WholeProgramSeen`; `LongProgram` for
  4097 bytes).
- The wake loop skips task 0 (`KernelTaskWakes`; `KernelTaskOversleeps` for tick 10).
- `copy_from_user` looks at the 48 low bits of an address, so that its load traps in the gap between
  the canonical halves when that alias is open to users (`CopyFromUser`).
- A ZohFS write that starts past the block after the file's last one, or an empty write past its
  blocks, leaves a hole or a size without blocks, unless the 32 bits of the size wrap to one that
  its blocks fit: then it cuts the file and reports 0 bytes (`ZohFs.FileSystem.WriteFileData`;
  `CutShort` for a file of ten bytes).
- `mkfs` and `flush_root_dir` put the metadata on the disk, and a later boot mounts exactly that
  (`ZohFs.Restart`); what a write changes in between is forgotten (`ZohMeta.NotRecorded`).
- A cached write over a dirty slot of another sector would lose that sector; nothing ever makes a slot
  dirty (`CachedWrite`). A FAT32 write at exactly the end of a file whose clusters are full is refused
  (`HasRoom`).

## Model

| member | source | states |
|---|---|---|
| `Frames.FrameAllocator.AllocateFrame` | src/frame.rs:174-214 | None exactly when every frame is used, whatever the hint; otherwise the first clear frame from the word of the hint on, wrapping round, to whose word the hint moves, and the clear frames fall by one |
| `Frames.FrameAllocator.TakeFrom` | src/frame.rs:182-196 | one word of the scan: its lowest clear frame is taken, or every frame of the word below the count is used |
| `Frames.FrameAllocator.DeallocateFrame` | src/frame.rs:220-225 | exactly that frame becomes clear; the clear frames rise by one if it was used |
| `Frames.FrameAllocator.SetUsed` | src/frame.rs:100-106 | exactly that frame joins the used ones, if it exists |
| `Frames.FrameAllocator.SetFree` | src/frame.rs:108-114 | exactly that frame leaves the used ones |
| `Frames.FrameAllocator.FreeFrameCount` | src/frame.rs:79-98 | the population count over inverted and masked words is the number of clear frames below the frame count |
| `Frames.FrameAllocator.MarkUsed` | src/frame.rs:116-125 | the frames that the byte range touches, below the frame count, become used and no others, also with a count that reinit has rounded up |
| `Frames.FrameAllocator.Init` | src/frame.rs:131-151 | after boot the used frames are exactly those of the low megabyte and the kernel image; the search for frames starts at the word of the kernel's end |
| `Frames.FrameAllocator.Reinit` | src/frame.rs:156-170 | no mark is wiped: the used frames stay used as far as they are counted and reappear with a larger count; the count covers memory, and equals it if and only if memory is a whole number of bitmap words |
| `Frames.ReinitTooFar` | src/frame.rs:156-170 | with 0x7FFE0000 bytes of memory 32 frames too many are counted |
| `Frames.UsedPlusClear` | src/frame.rs:79-98 | used and clear frames together are all the frames |
| `Words.CountOnesIsCardinality` | src/frame.rs:79-98 | counting the ones of a word counts a set |
| `EntryWords.WordRoundTrip` | src/arch/x86_64/paging.rs:10-30 | the record of an entry and its 64-bit word determine each other, so comparing words compares entries |
| `EntryWords.SourceWords` | src/arch/x86_64/paging.rs:17-30 | the words that the entry constructors make of a page address, for every combination of flags |
| `EntryWords.FramesFit` | src/arch/x86_64/paging.rs:17-30 | every frame the allocator can hand out and every page below 2^52 survives the way through its word |
| `PageTables.SetLeafWalk` | src/arch/x86_64/paging.rs:108-110 | writing one last-level entry in a tree changes the translation of its page and of no other |
| `PageTables.LinkEmptyWalk` | src/arch/x86_64/paging.rs:59-80 | hanging an empty table changes no translation |
| `PageTables.LinkSplitWalk` | src/arch/x86_64/paging.rs:82-98 | replacing a 2 MiB page by a table of 512 small pages changes no translation |
| `PageTables.LinkTree` | src/arch/x86_64/paging.rs:59-106 | linking a fresh table keeps the hierarchy a tree |
| `Paging.Machine.Init` | src/arch/x86_64/paging.rs:177-205 | the boot tables are a tree that maps the first 2 GiB to itself for the supervisor, with 2 MiB pages, and nothing else |
| `Paging.Machine.InitDirectory` | src/arch/x86_64/paging.rs:189-199 | one directory of 2 MiB pages on a fresh frame, and one entry that names it |
| `Paging.Machine.MapPage` | src/arch/x86_64/paging.rs:50-114 | exactly one 4 KiB page changes its translation, to the identity; every other page keeps frame and rights; the hierarchy stays a tree and new tables come from clear frames; of the 2 MiB pages exactly the one around it becomes a table |
| `Paging.Machine.MapPageUc` | src/arch/x86_64/paging.rs:117-175 | the same for an uncacheable page |
| `Paging.Machine.MapKernelPage` | src/arch/x86_64/paging.rs:50-114 | the common part: one new supervisor leaf, one changed translation, and new tables only on the way to the page |
| `KernelTables.MapKeepsLeaves` | src/arch/x86_64/paging.rs:50-114 | a kernel mapping turns the 2 MiB page around it into a table, and keeps every 2 MiB page and every table elsewhere |
| `KernelTables.LeafyIff` | src/arch/x86_64/paging.rs:214-238 | an address has a last-level table, or lies in a 2 MiB page, exactly as the hierarchy's labels and the translation say |
| `Paging.Machine.SplitLarge` | src/arch/x86_64/paging.rs:83-98 | a 2 MiB page becomes a table on a fresh frame with every translation the same |
| `Paging.Machine.HangTable` | src/arch/x86_64/paging.rs:62-68 | an empty table on a fresh frame with every translation the same |
| `Paging.Machine.CloneKernel` | src/arch/x86_64/paging.rs:249-292 | for any kernel, split 2 MiB pages included, the new hierarchy is a tree that translates as the kernel does below 512 GiB and faults elsewhere, on fresh frames except the last-level tables, all of which it shares |
| `Paging.Machine.MapUserPage` | src/arch/x86_64/paging.rs:214-238 | the last-level table for a low page, without changing any translation: a new one of the task's own where the kernel has a 2 MiB page, else the kernel's |
| `Paging.Machine.CreateUserPageTables` | src/arch/x86_64/paging.rs:246-339 | for any segment list whose pages the kernel maps, every virtual page translates to the last page given for it, with the rights of its flags, or as in the kernel; a page in a kernel table is closed to users; the data frames are fresh and zero; the kernel's translation and every frame in use before are unchanged if no page lies in a kernel table; stated on the segments alone, a page has the rights of the last segment that covers it, writable exactly with flag bit 1 and executable exactly with bit 0, and no two pages open to users share a frame |
| `UserTables.PagesGranted` | src/arch/x86_64/paging.rs:246-339 | the kernel translates as before and the task gets every page, if and only if no requested page lies in a last-level table of the kernel |
| `UserTables.PageSpoilt` | src/arch/x86_64/paging.rs:224-238 | a page in such a table is closed to the task, and the kernel's translation of it becomes the task's frame |
| `UserTables.StackSpoilt` | src/arch/x86_64/paging.rs:321-337 | so it is for the stack of every task of a kernel that has mapped 0x400000 |
| `Paging.Machine.MapSegment` | src/arch/x86_64/paging.rs:298-319 | fresh zero frames for exactly the pages that the segment covers, each writable exactly with bit 1 of its flags and executable exactly with bit 0 |
| `UserTables.SegmentsAreMapped` | src/arch/x86_64/paging.rs:298-337 | an address space built for a list of segments gives every page the rights of the last segment that covers it, the stack page write without execute, every other page the kernel's translation, and each page open to users a frame of its own |
| `UserTables.ExpectSegments` | src/arch/x86_64/paging.rs:298-337 | for one page, what the pages mapped in order leave there is what the last covering segment's flags say |
| `UserTables.SegmentServed` | src/arch/x86_64/paging.rs:298-315 | the page loop visits exactly the pages that the segment covers, with the rights of its flags |
| `Paging.Machine.MapFresh` | src/arch/x86_64/paging.rs:303-316 | one page on a fresh zero frame; all other translations stay |
| `UserTables.BuildStep` | src/arch/x86_64/paging.rs:299-320 | mapping one more fresh page keeps all of that, the last writer winning |
| `UserTables.KernelNoUser` | src/arch/x86_64/paging.rs:177-205 | no kernel translation is open to users |
| `UserTables.ExpectUser` | src/arch/x86_64/paging.rs:246-339 | the pages a task can touch as a user are the ones it was given, on the frames it was given |
| `UserTables.IsUserMappedCorrect` | src/arch/x86_64/paging.rs:341-365 | on a task's tables the check of the last entry alone agrees with the hardware rule over all levels, as long as the kernel has no page of its own open to users |
| `UserTables.IsUserMappedExact` | src/arch/x86_64/paging.rs:341-365 | in general it agrees if and only if no last-level table of the kernel maps the page with the user bit; there it says yes and the hardware no |
| `UserTables.UserFrameShared` | src/arch/x86_64/paging.rs:246-339 | what a task's users reach depends on its own tables only, not on what is written into the tables it shares with the kernel |
| `Paging.Machine.FreeUserPageTables` | src/arch/x86_64/paging.rs:373-409 | the used frames lose exactly the tables the loops visit |
| `UserTables.FreedIsReachable` | src/arch/x86_64/paging.rs:373-409 | those are every table frame reachable from the task's root and nothing else |
| `Ownership.ConservedBySpawn` | src/task.rs:201-225 | a task with fresh tables and data joins: every used frame still has one owner, and the other tasks' users reach what they reached, even where the spawn wrote into tables shared with the kernel |
| `Ownership.ConservedByExit` | src/task.rs:434-482 | a task gives back its tables and recorded frames: every used frame still has one owner |
| `Ownership.TrackedBySpawn` | src/task.rs:213-218 | with at most 32 pages every data frame of the new task is recorded |
| `Ownership.TrackedByExit` | src/task.rs:446-451 | if all data frames are recorded, exit leaks none |
| `KernelLaws.SpawnExitRestores` | src/arch/x86_64/paging.rs:373-409 | spawn then exit restores the used frames if and only if the kernel has no last-level table below 512 GiB and the task has at most 32 pages |
| `KernelLaws.MappedPageIsShared` | src/arch/x86_64/paging.rs:50-114 | after mapping a page the kernel has no such table if and only if it had none and the page lies at or above 512 GiB |
| `KernelLaws.KernelTablesFreed` | src/arch/x86_64/paging.rs:373-409 | the kernel tables that an exit gives away are exactly the last-level tables below 512 GiB |
| `Booting.Boot` | src/main.rs:186-268 | after any list of map_page, map_page_uc, mark_used and lasting allocate_frame calls before and after reinit, the invariant of later runs holds; no table is shared with tasks if and only if every page mapped lies at or above 512 GiB; the kernel translates as paging::init left it but for the last page mapped at each address, has last-level tables exactly around those pages, and can spawn every program that ends within 2 GiB; the low megabyte, the kernel image and the regions marked below the frame count of their time are in use |
| `Booting.BootMachine` | src/main.rs:186-194 | the allocator with 1 GiB and paging::init: the first 2 GiB in 2 MiB pages, no shared table |
| `Booting.Resize` | src/main.rs:196-202 | reinit happens for more than 1 GiB only; no frame in use is forgotten and none becomes used, so that nothing above 1 GiB is in use, whatever was marked there |
| `Booting.BootCalls` | src/arch/x86_64/e820.rs:52-101 | each call keeps the kernel's tables and reserved frames, the shared tables and the 2 MiB pages changing exactly by the pages mapped |
| `Booting.LapicBoot` | src/main.rs:226-226 | the local APIC's page makes every boot share tables with its tasks, and spares every 2 MiB page below 2 GiB |
| `Booting.FramesBeyondMap` | src/arch/x86_64/paging.rs:189-199 | with less than a frame of memory beyond 2 GiB every frame the allocator counts is mapped after boot; with more, frame 0x80000 is counted, and faults unless a page was mapped there |
| `Booting.IdentityMap` | src/arch/x86_64/paging.rs:177-205 | before any call of map_page an address below 2 GiB translates to itself, writable, executable and closed to users; up to 512 GiB no other translates |
| `Booting.FrameMapped` | src/arch/x86_64/paging.rs:189-199 | a frame is mapped at its own address if and only if it lies within the first 2 GiB or its page was mapped at boot |
| `Booting.LowPrograms` | src/arch/x86_64/paging.rs:209-238 | where each page below 2 GiB has a directory entry, every program that ends there can be spawned |
| `Kernels.Kernel.constructor` | src/task.rs:83-92 | with allocator, tables and task table set up, every frame in use has one owner |
| `Kernels.Kernel.BuildProgram` | src/main.rs:122-152 | the program in an address space of its own on fresh frames, which users reach nothing else through, also where a page falls into a last-level table of the kernel; if none does, the kernel's translation and every frame in use are as they were |
| `Kernels.Kernel.FillPages` | src/main.rs:139-152 | each page gets the first page of the segment that starts at it, and no other frame changes |
| `KernelLaws.FillKeeps` | src/main.rs:139-152 | building and filling a program changes no directory of the kernel and no frame in use but its last-level tables, and none of those if no page falls into one |
| `Kernels.Kernel.SpawnTask` | src/main.rs:113-161 | Ok exactly when a slot is free; the task owns exactly the frames added, all clear before; every other task reads what it read; through its own tables the task reads the program and a zero stack, but for pages in a last-level table of the kernel; if there are none, the kernel translates as before |
| `Kernels.Kernel.ExitTask` | src/task.rs:434-482 | task 0 is refused; otherwise the task owns no frame afterwards, what it owned is freed, all of it when all was recorded, and the kernel loses exactly its last-level tables below 512 GiB, at the first exit as at later ones |
| `Kernels.Kernel.TakeRoot` | src/arch/x86_64/paging.rs:249-251 | the first step of a spawn takes the first clear frame; if that is a table lost by an exit, exactly the kernel's pages under it fault, and otherwise every page translates as before |
| `KernelLaws.TableCleared` | src/arch/x86_64/paging.rs:249-251 | a last-level table of the kernel that is cleared: its pages fault, and no other translation changes |
| `KernelLaws.LapicTableTaken` | src/arch/x86_64/paging.rs:249-251 | with frames 0 to 516 in use, the hint at word 8 and frame 517 the lost table of the local APIC, the next spawn takes it and the local APIC's page faults |
| `Kernels.Kernel.FreeData` | src/task.rs:446-451 | exactly the recorded data frames are freed |
| `Kernels.Kernel.TickTask` | src/task.rs:347-431 | a tick keeps every frame with its owner |
| `Kernels.Kernel.StoreByte` | src/main.rs:108-112 | a user store goes through exactly when the page is canonical, writable and open to users; the task then reads the byte, no translation changes, ownership is kept, and every other task reads what it read, as does the task itself through every other byte |
| `KernelLaws.StoreKeeps` | src/main.rs:108-112 | such a store lands in a data frame of the task's own |
| `KernelLaws.KeepsBySpawn` | src/main.rs:113-161 | a spawn changes no byte that another task reads, whatever it writes into the tables they share |
| `Kernels.Kernel.RunActions` | src/task.rs:347-482 | in every run of ticks, sleeps, yields, exits, spawns and stores each frame held keeps exactly one owner, the reserved frames and the kernel's directories stay the same, and the task table makes the run of the scheduler that the actions call for; a task that neither stores nor exits reads the same bytes at the end; the kernel translates as before if no program spawned has a page in its tables; the tables lost are none before a task has left and then all the shared ones, with which the run goes on up to the next spawn |
| `Kernels.Kernel.Act` | src/task.rs:347-482 | the same for one action |
| `KernelLaws.NoSharing` | src/task.rs:201-225 | two live tasks share no data frame and no table of their own, only the last-level tables they share with the kernel |
| `KernelLaws.Isolation` | src/task.rs:201-225 | whatever a live task can touch as a user is its own data frame: no page table, no kernel frame, nothing another task can touch |
| `KernelLaws.AllGivenBack` | src/task.rs:434-482 | when no task is live and none held more than 32 pages, the used frames are those of boot |
| `Programs.ProgramIsSeen` | src/main.rs:139-152 | reading by the page walk yields the program's first page byte for byte, zeros on all its other pages and on the stack page, and nothing on a page in a last-level table of the kernel |
| `Programs.WholeProgramSeen` | src/main.rs:139-152 | for every size, the whole program is seen if and only if none of its pages lies in such a table and it is zero past its first page |
| `Programs.AddressRights` | src/arch/x86_64/paging.rs:298-337 | address by address below 512 GiB: on the pages of a segment and of no later one, the walk finds a frame of the task, open unless the kernel has a table there, writable and executable exactly as bits 1 and 0 of the flags say; on the pages of none it finds what the kernel has |
| `Programs.LongProgram` | src/main.rs:139-152 | of 4097 bytes the last one reads 0 |
| `Elf.ParseElf` | src/elf.rs:66-160 | Ok exactly when the header is good, every program header lies in the file and at most 8 are loadable; each error is the first that applies, TooManySegments exactly when a ninth loadable header comes before any outside the file; on the bytes, a file laid out from any entry point, header size and list of headers parses to that entry and the loadable ones of that list, all fields of each, and every file that is accepted is laid out so |
| `Elf.HeaderErrors` | src/elf.rs:66-98 | which error the header gets, on its first twenty bytes: magic, class, type and machine |
| `Elf.LayoutParsed` | src/elf.rs:97-160 | whatever layout a file has, it is the one that the parsed fields give |
| `Elf.LayoutFound` | src/elf.rs:97-160 | a file whose header and program headers are in order has a layout |
| `Elf.FileLaidOut` | src/elf.rs:66-160 | the file built from an entry point, a header size of at least 56, any headers and any further bytes has that layout |
| `Elf.ParseBuilt` | src/elf.rs:66-160 | parsing inverts building: the entry and the loadable headers come back, with the others between them skipped, or TooManySegments for more than 8 |
| `Elf.BuildFlatElf` | src/elf_builder.rs:14-89 | the file is a good header, one loadable header with all rights, and the code; byte for byte it is the general file for that one header |
| `Elf.ParseOfFlat` | src/elf_builder.rs:14-89 | parsing the built file gives back the load address and one segment whose bytes are the code, for every code and load address |
| `UserCopy.CopyFromUser` | src/usercopy.rs:40-76 | for every pointer and length: Ok exactly when the range is empty, or at most 512 bytes without overflow, canonical and open to users throughout, and then the buffer holds the bytes the task sees; a trap exactly when the check passes up to an address in the canonical gap; EFAULT otherwise; the rest of the buffer is untouched |
| `UserCopy.LiveTaskMemory` | src/usercopy.rs:40-76 | every live task has the tables that the copy relies on, as long as no page of the kernel has been opened to users |
| `Scheduler.TaskTable.TimerHandler` | src/task.rs:347-431 | the loops in place compute the tick function, and the invariant holds after it; outright: a task that stays current gets back the pointer handed in and the tables stay loaded; off the switch ticks nothing changes but sleepers whose time has come; at a switch only the interrupted task's saved pointer changes, and a new task gets its own pointer and tables |
| `Scheduler.TaskTable.SwitchTask` | src/task.rs:365-430 | parking, choosing and resuming compute the switch function; the interrupted task's pointer is saved, and a new one resumes from the pointer saved for it, on its tables |
| `Scheduler.TaskTable.PickNext` | src/task.rs:371-383 | of the Ready slots the first one after the current slot, cyclically, the current one last; slot 0 if none is Ready |
| `Scheduler.TaskTable.WakeSleeping` | src/task.rs:353-359 | exactly the sleepers of slots 1 to 255 whose time has come become Ready, and nothing else changes |
| `Scheduler.TaskTable.SpawnUserspace` | src/task.rs:201-225 | the first unused slot takes the task; Err exactly when there is none; every other slot stays |
| `Scheduler.TaskTable.HasFreeSlot` | src/task.rs:145-154 | true exactly when a slot from 1 on is unused |
| `Scheduler.TaskTable.SleepMs` | src/timer.rs:69-88 | the current task sleeps until the tick that the rounded-up duration gives, and nothing else changes |
| `Scheduler.TaskTable.YieldCurrent` | src/syscall.rs:185-195 | the current task becomes Ready and nothing else changes: it stays in line |
| `Scheduler.TaskTable.RetireCurrent` | src/task.rs:471-481 | the slot is free, the kernel page tables are loaded, and nothing else changes |
| `Scheduler.TaskTable.constructor` | src/task.rs:83-92 | task 0 runs under the page tables loaded at boot, and the invariant holds |
| `Scheduler.DoKeeps` | src/task.rs:347-482 | every step keeps: only the current task can be Running, and the loaded page tables are its own, or the kernel's after an exit |
| `Scheduler.NoStarvation` | src/task.rs:361-395 | a Ready task is dispatched within as many switch ticks as there are slots up to it, whatever the other tasks do |
| `Scheduler.StepTowards` | src/task.rs:371-395 | each switch tick dispatches it or strictly shortens the cyclic distance to it |
| `Scheduler.SwitchEveryTen` | src/task.rs:361-363 | in every run the switch ticks are every tenth tick |
| `Scheduler.DispatchedInTime` | src/task.rs:361-395 | that is at most 2550 ticks |
| `Scheduler.TickResumes` | src/task.rs:347-431 | after any run, a tick that leaves the current task current returns the pointer it was handed; off the switch ticks the task, the tables and all saved pointers stay; a task that takes over gets the pointer saved for it |
| `Scheduler.YielderRuns` | src/syscall.rs:185-195 | a task that waits after a yield is Running again within the ticks to the next switch and 2550 more, whatever the others do |
| `Scheduler.YieldReturns` | src/syscall.rs:185-195 | the same from the call: a yield costs a task at most the rest of its turn and one round |
| `Scheduler.SearchFirst` | src/task.rs:371-383 | the search function finds the Ready slot at the least cyclic distance |
| `Scheduler.SleepsUntil` | src/task.rs:353-359 | a sleeper in slots 1 to 255 is not woken before its tick by anything |
| `Scheduler.SleepLasts` | src/timer.rs:39-41 | sleeping for ms milliseconds lasts at least ms, whatever the other tasks do, for tasks other than 0 |
| `Scheduler.SleepEnds` | src/timer.rs:39-41 | its wake tick is less than one tick later than asked for |
| `Scheduler.SleeperRuns` | src/timer.rs:69-88 | it executes again at most 2550 ticks after the tick that wakes it: its wake tick, or the next tick when that is past |
| `Scheduler.ContextIntegrity` | src/task.rs:347-431 | after any run, a switch tick resumes the task it picks from the stack pointer last saved for it or built at its spawn, Running under its own page tables |
| `Scheduler.RunSaves` | src/task.rs:365-431 | over whole runs a saved stack pointer changes only when its task is switched out or spawned |
| `Scheduler.KernelTaskWakes` | src/task.rs:353-383 | a sleeping task 0 wakes at a switch tick if and only if no other task is Ready or Running then |
| `Scheduler.KernelTaskOversleeps` | src/task.rs:353-383 | with task 1 running and a wake tick of 5, task 0 sleeps on through tick 10 |
| `TicketLock.FifoMutex` | src/spinlock.rs:34-79 | in every interleaving of at most 2^32 threads at most one holds the lock, across wrap-arounds, and holders come in ticket order |
| `TicketLock.ExclusiveIff` | src/spinlock.rs:34-40 | mutual exclusion holds in every run if and only if there are at most 2^32 threads |
| `TicketLock.DoKeeps` | src/spinlock.rs:34-79 | every atomic step of the lock is a step of a first-in first-out queue |
| `TicketLock.RunOrder` | src/spinlock.rs:34-79 | over whole runs, the threads that took tickets are those that got the lock followed by those still in line |
| `TicketLock.TryLockNeverSpins` | src/spinlock.rs:42-59 | try_lock returns None or finds its turn come at once, if fewer than 2^32 tickets are taken between its load and its compare_exchange |
| `TicketLock.CasJoins` | src/spinlock.rs:46-55 | in any case a successful compare_exchange joins the line, and spins exactly when others are before it |
| `Contention.ReportIsExact` | src/smp_test.rs:18-57 | for any number of cores and iterations, in every interleaving of separate loads and stores under the lock, the value reported is their product |
| `Contention.OnlyPass` | src/smp_test.rs:32-57 | with 4 cores and 1,000,000 iterations only the PASS branch can be reached |
| `Contention.WorkFalls` | src/smp_test.rs:18-57 | every step of a core but spinning and polling lowers the work left, and no step raises it |
| `Contention.Progress` | src/smp_test.rs:18-57 | no deadlock and no livelock: until every core is through, at most five steps that can be taken lower the work left |
| `Contention.TestEnds` | src/smp_test.rs:18-57 | from every reachable state the test can be run to its end, where core 0 reports cores times iterations |
| `Contention.DoKeeps` | src/smp_test.rs:18-57 | every step keeps the counter equal to the increments stored and the number done equal to the cores marked |
| `Fat32.Fat32Fs.NextCluster` | src/fs/fat32.rs:188-212 | it reads the cluster's own entry, and tells end, bad mark and successor; past the table it reads what lies there; on the bytes, the entry is the four at offset 4 * cluster of the table, Err exactly for 0x0FFFFFF7 |
| `Fat32.Fat32Fs.SetFatEntry` | src/fs/fat32.rs:383-400 | exactly that entry changes, in every copy, so the copies stay equal; no cluster's data changes |
| `Fat32.Fat32Fs.MarkEoc` | src/fs/fat32.rs:403-405 | the entry becomes an end mark, and nothing else changes |
| `Fat32.Fat32Fs.AllocCluster` | src/fs/fat32.rs:356-380 | the first free cluster in range, and Err exactly when none is free |
| `Fat32.EntryAt` | src/fs/fat32.rs:356-400 | the scan's and the direct addressing pick the same four bytes for every cluster |
| `Fat32.Fat32Fs.ReadCluster` | src/fs/fat32.rs:170-185 | the bytes of the cluster, on the volume or past it as far as the disk goes: those of its sectors, the first one at reserved + copies * table size + (cluster - 2) * sectors per cluster; Err exactly below 2 or past the disk |
| `Fat32.Fat32Fs.WriteCluster` | src/fs/fat32.rs:436-451 | the cluster holds the data, cut or zero-filled; no other cluster and no entry changes; on the disk those sectors change and no other |
| `Fat32.Fat32Fs.FreeClusterChain` | src/fs/fat32.rs:413-423 | ends on every table, cyclic ones included; frees exactly the clusters on the way, which from the start of a chain is that chain; fails exactly at a bad mark, and with success no cluster on the way is marked 0x0FFFFFF7 |
| `FatFiles.WalkIsChain` | src/fs/fat32.rs:413-423 | a walk from the start of a chain visits exactly the chain |
| `FatChains.ClearedFrees` | src/fs/fat32.rs:413-423 | clearing a chain frees exactly its clusters and spares every chain apart from it |
| `FatChains.ChainUnique` | src/fs/fat32.rs:188-212 | a start cluster determines its chain |
| `FatChains.LinkExtends` | src/fs/fat32.rs:484-489 | linking a free cluster behind a chain gives a chain and uses up that cluster only |
| `FatChains.LinkSpares` | src/fs/fat32.rs:484-489 | chains apart from the extended one stay chains and stay apart |
| `Fat32.Fat32Fs.ReadFileData` | src/fs/fat32.rs:215-236 | whatever the table says, the bytes found from the start cluster on, as many as are asked for and fit, round and round a cycle, or the first error; the rest of the buffer is untouched; Err whenever a cluster marked bad is met before the limit |
| `FatLayout.BadMarkFails` | src/fs/fat32.rs:203-236 | a path along the table to a cluster marked bad, short of the bytes asked for, makes the reading fail |
| `FatLayout.ReadsChain` | src/fs/fat32.rs:215-236 | from the start of a chain those are the file's bytes, as many as it has |
| `Fat32.Fat32Fs.WriteFileData` | src/fs/fat32.rs:455-496 | from any cluster whose way stays in the volume, cyclic or cross-linked, every chain with no cluster on the way keeps its clusters and bytes; from the start of a chain, the file is a chain the old one begins and every chain apart from it stays apart; Ok exactly when the offset is in the file and the free clusters suffice, and then the bytes are the old ones overwritten at the offset; on failure nothing changes, or the bytes are overwritten with the part of the data that the file and the free clusters hold |
| `FatFiles.StraySpares` | src/fs/fat32.rs:455-496 | a write changes only clusters on the way and clusters that were free, so it spares every chain that has none of the former |
| `FatFiles.ChainConfined` | src/fs/fat32.rs:188-212 | from the start of a chain the table leads to the chain only |
| `FatFiles.WrittenIsRead` | src/fs/fat32.rs:455-496 | after a successful write the file reads as the data at the offset and the old bytes around it |
| `Fat32.Fat32Fs.Seek` | src/fs/fat32.rs:462-467 | a cluster on the way; from the start of a chain, the cluster and place of the offset, and Err exactly when the chain ends first |
| `Fat32.Fat32Fs.Modify` | src/fs/fat32.rs:470-476 | the piece replaces its place in the cluster, and nothing else changes |
| `Fat32.Fat32Fs.Extend` | src/fs/fat32.rs:485-489 | a free cluster is linked behind the last one, or none is free and nothing changes |
| `Fat32.Fat32Fs.Advance` | src/fs/fat32.rs:481-493 | the next cluster on the way, or a free one linked behind the last, with everything written so far intact |
| `FatFiles.StoreStep` | src/fs/fat32.rs:469-479 | writing a piece into one cluster extends the part of the data that is in the file |
| `FatFiles.StoreLink` | src/fs/fat32.rs:481-489 | adding a cluster keeps what is written and what is apart |
| `BufferCache.Cache.CachedRead` | src/fs/bcache.rs:62-92 | the sector as seen through the cache; nothing that can be seen changes, dirty sectors being written back, and a sector that was read occupies its slot |
| `BufferCache.Cache.CachedWrite` | src/fs/bcache.rs:95-108 | the sector is replaced at once; any other keeps its contents unless it was dirty in the same slot |
| `BufferCache.Cache.CleanView` | src/fs/bcache.rs:62-108 | with nothing dirty, cached and plain reads agree on every sector |
| `BufferCache.Cache.Flush` | src/fs/bcache.rs:111-122 | the disk becomes what was seen through the cache, and what the cache holds stays in it |
| `BufferCache.Cache.Invalidate` | src/fs/bcache.rs:125-131 | all slots are empty, and nothing is lost if nothing was dirty |
| `BufferCache.Cache.CachedReadSectors` | src/fs/bcache.rs:150-159 | the bytes of the sectors as seen; Ok exactly when they exist and fit the buffer |
| `BufferCache.Cache.CachedWriteSectors` | src/fs/bcache.rs:162-171 | exactly those sectors are replaced, and the last 64 occupy the cache |
| `BufferCache.Cache.Format` | src/fs/zohfs.rs:207-233 | after mkfs's writes each valid slot still equals its disk sector, although sector 72 is written past the cache |
| `BufferCache.Cache.WriteMetadata` | src/fs/zohfs.rs:207-228 | superblock, bitmap and inode table are on their sectors, and sectors 8 to 71 occupy the cache |
| `BufferCache.Cache.Displaced` | src/fs/zohfs.rs:228-233 | the 64 sectors written before it have displaced every slot |
| `ZohFs.FileSystem.WriteFileData` | src/fs/zohfs.rs:332-381 | at every offset: Ok(n) has n = min(len, 40960 - offset), Ok exactly when the blocks suffice, and other files, all inodes on failure, and sectors 0 to 71 are unchanged; the filesystem stays valid if and only if the write starts in the file's blocks, has data for the block right after them, or lies at or past 2^32 and wraps to a size the blocks fit; in the first two cases the file is the old one overwritten at the offset, with whatever the blocks held in between, and exactly its blocks are newly marked; in the third Ok(0) comes back, no block changes, and the file is its own blocks up to that size |
| `ZohFiles.GoingEnds` | src/fs/zohfs.rs:340-380 | the finished write: both directions of that, with the size cut to 32 bits |
| `ZohFiles.GoingFails` | src/fs/zohfs.rs:346-349 | the write that finds no block |
| `ZohFiles.EmptyFileOrder` | src/fs/zohfs.rs:342-349 | an empty file keeps its order only for writes at 0 or with data in its first block; one byte at 4096 leaves a hole |
| `ZohFiles.CutShort` | src/fs/zohfs.rs:373-380 | a write at 2^32 + 4 to a file of ten bytes leaves four of them |
| `ZohFiles.WrittenOver` | src/fs/zohfs.rs:332-381 | at an offset inside the file or at its end nothing lies in between |
| `ZohFiles.WrittenIsRead` | src/fs/zohfs.rs:292-381 | reading back what was written gives it, the size grows only as far as needed, and the old bytes around are the same |
| `ZohFs.FileSystem.EnsureBlock` | src/fs/zohfs.rs:345-349 | a missing block is the first unmarked one, owned by no other inode |
| `ZohFs.FileSystem.WriteTurn` | src/fs/zohfs.rs:350-371 | one block takes its part of the data; other blocks keep their bytes |
| `ZohFs.FileSystem.WritePart` | src/fs/zohfs.rs:342-374 | one turn of the loop, in order or not |
| `ZohFs.FileSystem.ReadBlock` | src/fs/zohfs.rs:354-360 | the block as it is on the disk, through the cache; its eight sectors start at 72 + 8 * (block - 1) |
| `ZohFs.FileSystem.WriteBlock` | src/fs/zohfs.rs:364-369 | exactly that block changes: the eight sectors from 72 + 8 * (block - 1) on, and no other sector |
| `ZohFs.FileSystem.ReadFileData` | src/fs/zohfs.rs:292-330 | the file from the offset on, as far as it goes and fits the buffer; nothing else changes |
| `ZohFs.FileSystem.AllocBlock` | src/fs/zohfs.rs:432-444 | the first unmarked block gets marked; Err exactly when all are marked |
| `ZohFs.FileSystem.AllocInode` | src/fs/zohfs.rs:417-424 | the first free inode from 1 on |
| `ZohFs.FileSystem.CreateInode` | src/fs/zohfs.rs:266-277 | an empty file that owns no block; every other file is as it was |
| `ZohFs.FileSystem.FreeInodeBlocks` | src/fs/zohfs.rs:446-459 | exactly the inode's blocks are unmarked |
| `ZohFs.FileSystem.RemoveInode` | src/fs/zohfs.rs:383-396 | the inode and its blocks are free again; every other file is as it was, and no block has two owners |
| `ZohFs.FileSystem.constructor` | src/fs/zohfs.rs:96-118 | before mkfs or init nothing is mounted |
| `ZohFs.FileSystem.Mount` | src/fs/zohfs.rs:96-135 | whatever blocks, bitmap and inodes the disk records are the ones mounted; a disk without the magic number changes nothing, and nothing is written |
| `ZohFs.FileSystem.Mkfs` | src/fs/zohfs.rs:163-238 | memory holds a root directory alone with the ten system blocks marked, which satisfies the ownership invariant on disks of 2 to 4096 blocks, and the disk records it; Ok exactly when the disk reaches past sector 72 |
| `ZohFs.FileSystem.FlushRoot` | src/fs/zohfs.rs:498-533 | the disk records the bitmap and inodes in memory, and no file but the root directory changes; nothing is written when the root has no block |
| `ZohFs.Restart` | src/fs/zohfs.rs:96-135 | a boot after mkfs or a flush mounts a filesystem with the same bitmap, inodes and file blocks, and the invariant holds again |
| `ZohMeta.WritesRecord` | src/fs/zohfs.rs:207-228 | the sectors that mkfs and flush_root_dir write record what they encode |
| `ZohMeta.NotRecorded` | src/fs/zohfs.rs:332-381 | an operation that writes no sector below 72, as a file write, leaves the record as it was |
| `ZohMeta.PackBitmap` | src/fs/zohfs.rs:212-218 | the 64 words as mkfs lays them out read back, as init reads them, to the same bits |
| `ZohMeta.PackInodes` | src/fs/zohfs.rs:221-227 | so do the inodes, 1024 bytes apart, whatever the padding holds |
| `ZohMeta.InodeRoundTrip` | src/fs/zohfs.rs:41-51 | the bytes of one inode determine it, if every field fits its width |
| `ZohMeta.WordRoundTrip` | src/fs/zohfs.rs:119-126 | the bytes of one bitmap word determine its bits |
| `ZohMeta.SuperRoundTrip` | src/fs/zohfs.rs:171-184 | the superblock has the magic number and gives back the number of blocks |
| `ZohMeta.MetadataLayout` | src/fs/zohfs.rs:104-150 | what a disk records, on its bytes: magic number, blocks and data start at 0, 12 and 36 of sector 0; bit k of the bitmap is bit k % 8 of byte k / 8 of sector 1; inode n is in sector 8 + 2 * n, with mode, size, count and ten blocks at 0, 4, 8 and 12 |
| `ZohMeta.BitmapBit` | src/fs/zohfs.rs:119-126 | one bit of the bitmap in its byte |
| `ZohFiles.WriteFs` | src/fs/zohfs.rs:340-380 | the finished write keeps every block with one owner and every file's blocks as many as its size needs |
| `ZohFiles.WriteFile` | src/fs/zohfs.rs:340-380 | the file's bytes are the old ones overwritten at the offset |
| `ZohFiles.WriteFailed` | src/fs/zohfs.rs:346-349 | after a failed write no block has two owners either |
| `Heap.BumpAllocator.Alloc` | src/allocator.rs:27-40 | the next aligned address and the stretch from there, or null exactly when it would pass the end |
| `Heap.FixedBlockAllocator.GetBlockIndex` | src/allocator.rs:74-77 | the smallest class that covers size and alignment |
| `Heap.FixedBlockAllocator.Alloc` | src/allocator.rs:81-103 | a block of the wanted size and alignment inside the heap that was not live; if its class has a free block it is the first of the list, which loses it, and the heap does not grow; otherwise it is the next aligned address; no other list and no byte changes; null exactly when the class has no free block and the heap is used up |
| `Heap.FixedBlockAllocator.Dealloc` | src/allocator.rs:105-119 | the block goes to the front of its class's list; only its own first eight bytes change, so every live block keeps its contents |
| `Heap.FixedBlockAllocator.Recycle` | src/allocator.rs:81-119 | what is given back is the block that the next request of its class gets, and the heap does not grow |
| `Heap.FixedBlockAllocator.Serve` | src/allocator.rs:81-119 | after any sequence of requests, returns and writes by holders the blocks held are those the clients' own account says, given which requests were granted; they are in the heap, aligned, as large as asked for and pairwise disjoint, and every byte a holder has written reads as last written; each class has exactly as many blocks as it had, or as were ever live at once, whichever is more; a request is refused only while every block of its class is live |
| `Heap.FixedBlockAllocator.Poke` | src/allocator.rs:81-119 | a holder's write changes that byte and no other, and the heap stays sound |
| `Heap.FixedBlockAllocator.Carve` | src/allocator.rs:92-101 | a new block at the next aligned address, which overlaps no block ever carved, or null exactly when the end is reached |
| `HeapBlocks.PopKeeps` | src/allocator.rs:87-91 | popping follows the pointer inside the block and keeps every list exact and acyclic |
| `HeapBlocks.PushKeeps` | src/allocator.rs:107-113 | pushing threads the list through the block and keeps every list exact and acyclic |
| `HeapBlocks.BumpKeeps` | src/allocator.rs:92-101 | a carved block overlaps no other |
| `HeapBlocks.DropKeeps` | src/allocator.rs:115-118 | a large block that is given up stays carved and on no list |
| `HeapBlocks.OthersUntouched` | src/allocator.rs:105-114 | threading a freed block changes no byte of another live block |
| `HeapBlocks.OwnerMayWrite` | src/allocator.rs:81-119 | whatever an owner writes into a live block, the heap stays sound |
| `HeapBlocks.LiveApart` | src/allocator.rs:81-119 | live blocks are inside the heap and overlap neither each other nor a free block |
| `HeapBlocks.GrantCounts` | src/allocator.rs:81-103 | a granted request leaves its class with the larger of the blocks it had and the blocks now live |
| `HeapBlocks.NoneFree` | src/allocator.rs:92-101 | a class without a free block has all its blocks live |

## Left out

- execve (`replace_address_space`): it mixes file offsets and absolute pointers, and does not record the stack frame that it reuses.
- Kernel-mode `spawn`: it does not reset the frame record of a reused slot; only userspace spawns are modelled.
- The initial stack frames that spawn builds are a parameter: the stack pointer it stores.
- `copy_to_user` and `copy_from_user_cstr`: the same page loop with fewer guarantees.
- Kernels.Kernel.RunActions: ends at the first spawn after an exit that gave kernel tables away, of which only the first step is modelled (`TakeRoot`). The other calls that run before `init_scheduler` and touch neither frames nor tables are left out of `Booting.Boot`.
- Kernels.Kernel.StoreByte: a store that faults changes nothing; what the page-fault handler then does to the task is not modelled.
- Kernels.Kernel.Act: a spawn by a kernel that has lost tables to an exit is left out, as in `RunActions`.
- Kernels.Kernel.SpawnTask: likewise; and the failed parse and the empty segment list are not branches of the model, because the image it builds itself always parses to one segment.
- Elf.ParseElf: does not model wrap-around of header offsets near 2^64.
- Scheduler.TaskTable.TimerHandler: the tick counter does not wrap; statistics and the TSS stack pointer are not modelled.
- FAT32 directories, long names and `delete_file_entry`.
- Fat32.Fat32Fs.ReadCluster: does not model the 32-bit wrap of the sector number for cluster numbers far beyond the volume.
- Fat32.Fat32Fs.WriteFileData: states nothing for a table that leads outside the volume.
- The fault when a frame that boot has not mapped is cleared, with more than 2 GiB of memory.
- ZohFS directory entries and names: the sector of the root directory is a parameter of `FlushRoot`, and `Mount` does not read it; the stored free-block counter is not kept.
- UserCopy.CopyFromUser: needs that no page of the kernel has been opened to users by a spawn into one of its tables.
- ZohFs.FileSystem.WriteFileData: of a write that leaves a hole it states nothing about the written file's own bytes, and later operations on such a file are not modelled; blocks taken by a failed write stay marked.
- Heap.FixedBlockAllocator.Alloc: does not model wrap-around of the aligned address at 2^64.
- Locks around the frame allocator and concurrency of the kernel's own data; weak memory, since interleavings are sequentially consistent.
- Hardware: the TLB, accessed and dirty bits, ports, interrupt controllers, EFER.NXE (bit 63 is taken as execute-disable), failures of the disk other than an address out of range.
- arm64 paging, VFS, file descriptors, ext2, GPT, ring buffers, keyboard decoding, logging and statistics: easier claims.
