# A verified model of the kernel's memory, processes, console and tables

This project models the stateful core of a small x86 kernel and proves what
its parts keep over whole runs.

* **Memory** (`kernel/memory.cpp`). `Bitmap` is the bit arithmetic of the page
  bitmap, `PageSet` first-fit allocation on the set of used pages, `Paging`
  the two-level page tables on a physical memory of 2^20 frames with the
  processor's translation as a separate function, `Boot` the tables that
  `init` builds, `InitSteps` the same access by access, at boot or called
  again, `KernelMemory` the memory manager that updates bitmap, memory and
  globals in place, and `Ownership` arbitrary interleavings of allocation,
  freeing, mapping and stores. Once paging is on, the kernel reaches its
  tables through the translation it is editing; the model does the same, and a
  failed translation halts the kernel as its page-fault handler does.
* **Processes** (`kernel/process.cpp`). `Processes` is the table as a step
  machine, `Scheduling` what `schedule` picks and what can be created after
  `init`, `Granting` what giving pages to processes keeps wherever the page
  tables lie, `ProcessCount` when the count is right, `ProcessMemory` where
  4 MiB leads in a run, `Placement` what the mapping of processes at 4 MiB does
  to page tables that lie there, `Consumption` what creations cost,
  `ProcessTable` the in-place manager.
* **Console** (`kernel/kernel_main64.cpp`, `kernel/kernel.cpp`). `Console`
  relates the scrolling screen to the output laid out in rows, for any output
  with changes of color, tabs, returns and control characters, `Numbers` the
  number printers to reading back, `VgaConsole` is the in-place console.
* **Tables and ownership**. `Mounts` and `MountTable` (`kernel/filesystem.cpp`),
  `Handles` (`include/filesystem.h`), `Interrupts` (`kernel/interrupt.cpp`,
  `include/interrupt.h`). `CText`, `Options` and `Words` are shared helpers.

The memory manager, process manager, console, interrupt controller and handle
pool have a `View()` of their state, and the contracts of their methods equate
the new view with one operation of the corresponding specification, about
which the theorems are proved. The file system's contracts relate its two
arrays to the operations of `Mounts` directly; single file handles are
specified field by field and enter the theorems through the pool.

Where the code does not do what its comments or names promise, the model
follows the code and the theorem is the exact condition:

* `init` says it maps the first 4 MB; it maps all 4 GiB, and the result is the
  identity exactly when at least 1024 pages are free, or 1025 if page 0 is one
  of them (`Boot.InitIsIdentityIff`); with fewer, `Boot.InitTranslates`.
* The page tables survive an interleaving of allocate, free, map and store
  exactly if each step is harmless (`Ownership.TablesKeptIff`); what callers own
  is safe in any case, as long as they free only their own pages
  (`Ownership.PagesStayOwned`).
* With paging on, `map_page` reaches directory and table through the
  translation it edits. A call does what it says exactly if it writes into the
  table that maps its page, or it asks for what is already the case and its
  stray write does no harm; and then it takes no page
  (`Paging.StepFollowsLogIff`, and over runs `Paging.RunFollowsLogIff`). Where
  it writes is read off the entry it finds where it looks for the directory;
  while the directory's own page is mapped to itself, the mappings made so far
  decide alone (`Paging.KeptDirectoryLandsIff`). A write that strays to an
  ordinary page is lost (`Paging.StrayWriteIsLost`).
* Every process is mapped at 4 MiB, whatever lies in that page. No creation
  ever faults, and each gets a page exactly if one is free
  (`Granting.NoRunFaults`, `Granting.CreateSucceedsIff`), but a creation may
  cost a second page, exactly if `Consumption.ConsumptionIff` says so. 4 MiB
  belongs to the latest process in every run exactly for the placements of
  `Placement.LatestProcessIff`; with table 1 there, the second process does not
  get it (`Placement.SecondProcessIsLost`), with the directory there it depends
  on what the first page holds (`Placement.SecondProcessIff`). After the first
  creation every possible next call of `map_page` works exactly if no table or
  directory is in the way (`Placement.MappingAfterCreationIff`), and then so
  does every run of calls that does not map over a table or the directory
  (`Placement.LaterCallsWork`; for arbitrary runs, `Placement.LaterCallsIff`).
  On a fresh machine table 1022 is in the way
  (`Placement.FreshMachineLosesRegion`).
* Scheduling is round robin exactly for at most two ready or current processes
  (`Scheduling.RoundRobinIff`); an exited current process is revived
  (`Processes.ScheduleRevivesIff`).
* A zeroed process table has no `Terminated` slot, so after `init` nothing is
  created until the count has wrapped and come down again, and nothing runs
  until pid 0 is terminated (`Scheduling.NothingRunsAfterInit`,
  `Scheduling.NothingIsCreatedAfterInit`, `Scheduling.WrappedCountOpensTable`);
  a failed fork can return 0, the exact condition being
  `Scheduling.FailedForkReturns` (`Scheduling.ForkAfterInitReturnsZero`).
* `process_count` stays the number of live processes exactly in orderly runs:
  every slot filled in gets a page, `terminate` and `exit` find a live slot, and
  `schedule` does not switch away from an exited process
  (`ProcessCount.CountIsExactIff`).
* A character that wraps on the bottom row is written behind the screen and
  lost (`Console.FinalScreenIff`, `Console.ShownThroughoutIff`,
  `Console.WritesOffScreenIff`).
* A machine of 2^20 pages has 0 bytes of memory; below that the byte counts are
  right (`KernelMemory.MemoryManager.GetFreeMemory`).
* `print_hex` emits the lowest nibble first
  (`Numbers.HexReadsBackIffPalindrome`).
* `unmount` cannot find a path of more than 31 characters
  (`Mounts.UnmountUndoesMountIff`); a file of type code 0 leaves its inode free
  (`Mounts.FileTakesInodeIff`). In `tests/filesystem_tests.cpp` that code is
  `Regular`, in `include/filesystem.h` it is `Unknown`.
* A guard leaves interrupts on if it found them off and the last switch in its
  body turns them on; otherwise it restores them
  (`Interrupts.GuardRestoresIff`).

Facts the code takes for granted are explicit: `total_pages`, the bitmap and
the inode table are parameters, `total_pages` is at most 2^20, the bitmap lies
outside the allocatable pages, and page 0 is reserved where a theorem says
`0 in m.used` (page 0 and the null result share address 0). Properties that
need successful creation start from a table whose slots are all `Terminated`.
In runs of the process table nothing but `map_page` writes memory: processes
store nothing into their pages, so that conditions on what a free page holds
speak of its contents at boot.
`size_t` is 32 bits in memory.cpp and process.cpp, 64 bits in kernel_main64.cpp.

## Model

| member | source | states |
|---|---|---|
| `Bitmap.SetBitFrames` | kernel/memory.cpp:85-86 | setting bit k of a word sets it and leaves the other 31 bits alone |
| `Bitmap.SetAddsPage` | kernel/memory.cpp:85-87 | the word update of `allocate_page` adds exactly one page to the set of used pages |
| `Bitmap.ClearRemovesPage` | kernel/memory.cpp:94-97 | the word update of `free_page` removes exactly one page, no other bit of any word changes |
| `PageSet.NextPage` | kernel/memory.cpp:82-91 | allocation picks the least free page, 0 if there is none |
| `PageSet.NullIffExhausted` | kernel/memory.cpp:82-91 | with page 0 reserved, null is returned iff every page is used |
| `PageSet.FreePlusUsed` | kernel/memory.cpp:130-138 | free pages plus used pages is `total_pages` in every state |
| `PageSet.AllocTakesOne` | kernel/memory.cpp:82-91 | a successful allocation takes a page that was not in use and lowers the free count by one |
| `PageSet.FreeReturnsOne` | kernel/memory.cpp:94-97 | freeing raises the free count by one iff the page was in use |
| `PageSet.RunTakesDistinctPages` | kernel/memory.cpp:82-91 | any run of allocations, while pages last, returns pairwise different formerly free pages |
| `PageSet.RunPastTheEnd` | kernel/memory.cpp:82-91 | after that every call returns null and marks nothing |
| `Paging.TranslateByPage` | kernel/memory.cpp:100-103 | the split v/4096/1024, v/4096%1024 is the processor's 10-10-12 split and translation keeps the low 12 bits |
| `Paging.RemapOnePage` | kernel/memory.cpp:117-121 | editing one entry changes the translation of one page and of no other |
| `Paging.StoreOutside` | kernel/memory.cpp:28-36 | a store into a frame that holds no directory or table changes no translation |
| `Paging.MapPageIsRemap` | kernel/memory.cpp:100-122 | on intact, self-mapped tables `map_page` is that edit: no table created, no page allocated, no fault |
| `Paging.MapPageEffect` | kernel/memory.cpp:100-122 | in every state: which one or two entries `map_page` writes, found through the translation, each becoming present, writable, kernel-only and leading to the given frame with its accessed, dirty and unused bits kept, no other entry and no other state changed; which page it takes; and that it halts where it cannot go on |
| `Paging.MapPageKeepsFlags` | kernel/memory.cpp:100-122 | no call changes the accessed, dirty or unused bits of any entry in memory |
| `Paging.StepFollowsLogIff` | kernel/memory.cpp:100-122 | on tables that follow a log, one more call makes them follow the longer log iff it takes no page and writes into the table that maps its page, or asks for no change and its write is harmless; the directory's page may be mapped anywhere |
| `Paging.KeptDirectoryLandsIff` | kernel/memory.cpp:100-122 | while the directory's page is mapped to itself, the condition is one on the log: it maps the table's page to itself, or the call asks for no change and is harmless |
| `Paging.StrayWriteIsLost` | kernel/memory.cpp:113-121 | a call that takes no page and writes into an ordinary page changes no translation |
| `Paging.RunFollowsLogIff` | kernel/memory.cpp:100-122 | translation follows the log after every call of a run iff every call satisfies that condition after the calls before it |
| `Paging.MapRunFollowsLog` | kernel/memory.cpp:100-122 | from the identity a run of `map_page` leaves exactly a last-writer-wins log, tables in place, no page allocated: any run with paging off, with paging on any run whose every call meets the condition |
| `Paging.MapRunTranslates` | kernel/memory.cpp:100-122 | the same for every 32-bit address, low 12 bits kept |
| `Paging.MapRunKeepsSelfMap` | kernel/memory.cpp:76-78 | if no call maps a structure page, directory and tables stay identity mapped, so `frame << 12` reaches the physical cell |
| `Boot.InstallTablesInstalls` | kernel/memory.cpp:59-74 | tables in frames of their own end up installed and filled with the identity |
| `Boot.EnoughPagesMeanIdentity` | kernel/memory.cpp:50-79 | with enough free pages `init` yields 1024 tables in distinct frames, kernel-only writable, mapping every page to itself |
| `Boot.NullTablesCollide` | kernel/memory.cpp:60-74 | two tables, or directory and table, in the null page overwrite each other and the identity fails |
| `Boot.InitIsIdentityIff` | kernel/memory.cpp:50-79 | whatever memory and bitmap hold, translate(v) = v for all 32-bit v in the tables of `init` iff at least 1024 pages were free, 1025 if page 0 is not reserved |
| `Boot.InitTables` | kernel/memory.cpp:60-74 | table i lies in the page returned by allocation i + 1 |
| `Boot.StructuresAreTaken` | kernel/memory.cpp:50-74 | a page holds directory or table iff it is one of the 1025 pages taken |
| `Boot.InitOwnsItsFrames` | kernel/memory.cpp:50-79 | directory and tables lie in non-null, formerly free pages that are marked used |
| `Boot.InitTakes1025Pages` | kernel/memory.cpp:50-79 | the free count drops by exactly 1025 |
| `Boot.InitTouchesTakenFrames` | kernel/memory.cpp:50-79 | memory outside the 1025 frames it is given is left alone |
| `Boot.InitTakesWhatThereIs` | kernel/memory.cpp:50-79 | it takes 1025 pages, or all if there are fewer |
| `Boot.InitTranslates` | kernel/memory.cpp:59-74 | with page 0 reserved and one free page at least: regions whose table got a page are mapped to themselves, all others to the last 4 MiB |
| `Boot.InitWithoutPages` | kernel/memory.cpp:50-79 | with no page at all, page 0 is directory and table at once: it ends up as table 1023 with its last entry leading to itself |
| `InitSteps.InitIsBootInit` | kernel/memory.cpp:50-79 | at boot, and when called again with none of the pages it takes mapped elsewhere, `init` access by access runs without a fault and yields `Boot.Init` |
| `InitSteps.ClearEntryEffect` | kernel/memory.cpp:54-57 | clearing a directory entry changes its present bit only |
| `InitSteps.InitKeepsFlags` | kernel/memory.cpp:50-79 | from any state `init` leaves the accessed, dirty and unused bits of every entry in memory as they were |
| `InitSteps.SecondInitIff` | kernel/memory.cpp:50-79 | after any use that left the tables intact, and with none of the pages it takes mapped elsewhere, a second `init` yields the identity iff 1024 more pages are free |
| `InitSteps.StrayInitFails` | kernel/memory.cpp:50-79 | if instead the page taken for the directory is mapped elsewhere, no page taken leads to it or into the tables in force, and its entry 0 is absent, `init` runs through and address 0 does not translate |
| `KernelMemory.MemoryManager.AllocatePage` | kernel/memory.cpp:82-91 | the bitmap loop marks and returns the least free page and nothing else; with none free it returns null and the bitmap is untouched |
| `KernelMemory.MemoryManager.PointEntry` | kernel/memory.cpp:117-120 | the four assignments: present, writable, kernel-only, frame; accessed, dirty, unused and all other entries kept |
| `KernelMemory.MemoryManager.FreePage` | kernel/memory.cpp:94-97 | removes exactly the page containing the pointer |
| `KernelMemory.MemoryManager.GetFreeMemory` | kernel/memory.cpp:130-138 | 4096 times the number of free pages, iff that number is below 2^20; 0 when the 32-bit product wraps |
| `KernelMemory.MemoryManager.MapPage` | kernel/memory.cpp:100-122 | the in-place call, reached through the current translation, is `Paging.MapPage` on the whole machine |
| `KernelMemory.MemoryManager.Init` | kernel/memory.cpp:50-79 | from any state, paging on or off, the loops are the accesses of `InitSteps.Init` through the current translation, faults included; the new directory is the least free page |
| `KernelMemory.MemoryManager.SwitchPageDirectory` | kernel/memory.cpp:141-148 | the directory becomes current and paging is on |
| `Ownership.PagesStayOwned` | kernel/memory.cpp:82-122 | over every interleaving of allocate, free, map and store in which callers free only pages they own, whatever they map and wherever they store: no page is live twice, no null, directory or table page is handed out or marked free, free plus live pages never grow |
| `Ownership.StepKeepsIff` | kernel/memory.cpp:82-122 | from intact tables a step leaves tables in place, translation by the log, pages owned once, free plus live pages constant and no fault, iff it is an allocation, a free of a page that is owned, unused or unknown, a mapping that lands, or a store outside the tables or of an entry that says what is the case |
| `Ownership.TablesKeptIff` | kernel/memory.cpp:82-122 | over every interleaving at all, that holds after every step iff every step is of that kind |
| `Ownership.EveryRunKeepsTables` | kernel/memory.cpp:82-122 | so it does for callers that free, and store into, only pages they own and map over no page of directory or tables |
| `Ownership.HandedOutPageIsFresh` | kernel/memory.cpp:82-91 | in the runs of `Ownership.PagesStayOwned` a page about to be handed out is not live, not null and not part of the tables |
| `Ownership.RunKeepsFlags` | kernel/memory.cpp:82-122 | over every interleaving of allocate, free and map, accessed, dirty and unused bits stay as they were in all of memory |
| `Ownership.InitBoots` | kernel/memory.cpp:50-79 | `init` with 1025 free pages establishes what those theorems start from |
| `Processes.FindState` | kernel/process.cpp:30-37 | the lowest slot in a state, none iff there is none |
| `Processes.FindPid` | kernel/process.cpp:105-112 | the lowest slot with a pid, none iff there is none |
| `Processes.CreateTakes` | kernel/process.cpp:25-61 | whatever memory does, creation fills one free slot and leaves the others' pids and states, or changes nothing |
| `Processes.UncountedCreation` | kernel/process.cpp:43-52 | the whole table after a creation that gets no page: the slot stays filled in and ready, its old stack fields and all other slots kept, the pid used up, nothing counted |
| `Processes.CountedCreation` | kernel/process.cpp:43-60 | the whole table after one that does: the new slot field by field, and, after a pid wrap, the older slot with that pid that memory is accounted to |
| `Processes.CreationMemory` | kernel/process.cpp:126-143 | memory after it is that of one page granted at the size of the accounted slot, and it is counted iff the page is granted |
| `Processes.AllocateMemoryEffect` | kernel/process.cpp:126-143 | the lowest slot with the pid grows modulo 2^32 iff the page is granted at its size; nothing else changes |
| `Processes.GrantEffect` | kernel/process.cpp:132-139 | the least free page is taken and mapped; page 0 is taken for nothing, being null |
| `Processes.TerminateEffect` | kernel/process.cpp:64-77 | exactly the lowest slot with the pid becomes terminated, its other fields, all other slots, `next_pid`, current process and memory kept, the count lowered modulo 2^32; without such a slot nothing happens and the result is false |
| `Processes.ExitEffect` | kernel/process.cpp:175-179 | the same for the pid of the current process; without one nothing happens |
| `Processes.ScheduleEffect` | kernel/process.cpp:80-102 | with a count of 0 or nothing ready nothing changes; otherwise the lowest ready slot runs and is current, the old current one is ready, and nothing else changes |
| `Processes.RunKeepsFlags` | kernel/process.cpp:25-143 | no run of the process manager changes accessed, dirty or unused bits |
| `Processes.OnlyCurrentRuns` | kernel/process.cpp:80-102 | in every run of create, terminate, schedule, exit and fork the only running slot is the current one |
| `Processes.PidsStayDistinct` | kernel/process.cpp:44 | from any table with distinct pids: until `next_pid` wraps, non-zero pids stay pairwise distinct and below it, and `next_pid` has grown by the number of slots filled in, in every run |
| `Processes.CreatedProcessIsFound` | kernel/process.cpp:25-61 | `get_process` of a pid just returned finds the new slot, filled with entry point, stack and 8 MiB; no other slot changes |
| `Processes.StepKeepsParkedIff` | kernel/process.cpp:25-102 | a step ends a slot's being terminated and not current iff it fills the slot in |
| `Processes.TerminatedStaysIff` | kernel/process.cpp:64-102 | a slot terminated while not current stays so throughout a run iff no creation of the run fills it in |
| `Processes.ScheduleRevivesIff` | kernel/process.cpp:94-100 | `schedule` revives a terminated slot iff it is current and another process is ready |
| `Scheduling.ReadySlotsExist` | kernel/process.cpp:87-92 | the ready slots of any table form an ascending list without gaps, which the theorems below refer to |
| `Scheduling.ScheduleAlternates` | kernel/process.cpp:80-102 | from any table, with or without a current process: calls alternate between the two lowest of the slots that are ready or current, starting with the lowest that is ready, and change nothing else |
| `Scheduling.RoundRobinIff` | kernel/process.cpp:85-102 | this is round robin iff at most two slots are ready or current |
| `Scheduling.LaterSlotsStarve` | kernel/process.cpp:85-102 | every such slot after the second is never chosen again, be it the process that was running |
| `Scheduling.NothingIsCreatedAfterInit` | kernel/process.cpp:17-41 | from the zeroed table no run, however long, creates a process or fills a slot until it has terminated slots 2^32 - 255 times; until then the count is minus that number modulo 2^32 |
| `Scheduling.NothingRunsAfterInit` | kernel/process.cpp:17-102 | from `init` any run of creations, schedules, exits, forks and terminations of other pids than 0 leaves the kernel as it was: no current process, nothing runs |
| `Scheduling.WrappedCountOpensTable` | kernel/process.cpp:26-41 | after 2^32 - 255 terminations of pid 0 creation does fill in slot 0 |
| `Scheduling.FailedForkReturns` | kernel/process.cpp:181-196 | a fork whose creation fails returns -1 iff before the call every slot but the one it would fill has a non-zero pid and, if there is one to fill, `next_pid` is not 0; otherwise it returns 0 |
| `Scheduling.ForkIsCreate` | kernel/process.cpp:181-196 | without a current process fork returns -1 and changes nothing; with one it changes what a creation changes |
| `Scheduling.ForkAfterInitReturnsZero` | kernel/process.cpp:181-196 | right after `init`: terminate pid 0, schedule, fork, and the failed fork returns 0 |
| `Scheduling.ForkReturnsChild` | kernel/process.cpp:181-196 | on any table a successful fork returns the child's pid as a signed 32-bit number |
| `Granting.CreateSucceedsIff` | kernel/process.cpp:25-61 | on any table and wherever the page tables lie, creation returns `next_pid` and counts the process iff count, slot and page allow, and otherwise returns 0 and does not count |
| `Granting.GrantIff` | kernel/process.cpp:126-143 | a page asked for at any address is granted iff one is free, and the page tables keep the invariant below |
| `Granting.NoRunFaults` | kernel/process.cpp:25-143 | from any process table no run faults: the directory stays as built, every page stays mapped, to itself or out of directory and tables |
| `Consumption.ConsumptionIff` | kernel/process.cpp:126-143 | each success of every run consumes exactly one page, in ascending order, iff the directory is not at 4 MiB or no free page without an entry 1 can come to stand in for it while two more are free |
| `Consumption.CreationsConsumePages` | kernel/process.cpp:126-143 | the same for each run, of any length, with no fault; table 1 may lie at 4 MiB |
| `ProcessMemory.CreationsMapHome` | kernel/process.cpp:139 | in every run from a placement as in `Placement.LatestProcessIff`, 4 MiB translates to the latest process's page and every other page to itself |
| `ProcessCount.StepCountsIff` | kernel/process.cpp:25-102 | from a right count, whatever pids and page tables, a step keeps it right iff a slot filled in gets a page, the slot that terminate or exit finds is live, and `schedule` does not switch away from an exited process |
| `ProcessCount.CountIsExactIff` | kernel/process.cpp:26-77 | from any table with a right count, `process_count` is the number of slots in use throughout a run iff every step is orderly |
| `ProcessCount.StartCounts` | kernel/process.cpp:17-22 | the empty table has a right count, the zeroed one of `init` does not |
| `ProcessCount.SlotSearchNeverFails` | kernel/process.cpp:26-41 | in orderly runs a count below 256 means that the slot search succeeds |
| `Placement.TableAtHomeStrays` | kernel/memory.cpp:113-121 | once a process has the page at 4 MiB, a mapping in the region of a table that lies there changes no translation |
| `Placement.DirectoryAtHomeStrays` | kernel/memory.cpp:100-122 | with the directory there, a mapping whose entry in the process's page does not lead to its table leaves its page where it was (off the diagonal of directory and table index) |
| `Placement.NextCreationIsLost` | kernel/process.cpp:126-143 | a creation that cannot reach table 1 succeeds and takes a page, and 4 MiB stays with the process before |
| `Placement.LatestProcessIff` | kernel/process.cpp:25-61 | 4 MiB translates to the latest process after every run iff table 1 is not there or fewer than two pages are free, and the directory is not there or every free page but the last leads to table 1 |
| `Placement.SecondProcessIsLost` | kernel/process.cpp:139 | with table 1 there and two pages free, two creations succeed and 4 MiB stays with the first |
| `Placement.SecondProcessIff` | kernel/process.cpp:139 | with the directory there, the second process gets 4 MiB iff entry 1 of the first one's page leads to table 1 |
| `Placement.MappingAfterCreationIff` | kernel/memory.cpp:100-122 | right after the first creation every possible next `map_page` takes effect iff no table is at 4 MiB and, if the directory is, the process's page leads to all tables; with the directory elsewhere, iff `init` took no page there |
| `Placement.LaterCallsIff` | kernel/memory.cpp:100-122 | over any run of calls after the first creation, translation is the log of its mapping and theirs after each call iff each lands |
| `Placement.LaterCallsWork` | kernel/memory.cpp:100-122 | if nothing is in the way, it is so for every run of calls that does not map over a table or the directory |
| `Placement.FreshMachineLosesRegion` | kernel/memory.cpp:60-74 | with only page 0 reserved, creations keep working but table 1022 is at 4 MiB: after one creation no mapping in its region has any effect |
| `ProcessTable.ProcessManager.Init` | kernel/process.cpp:17-22 | every slot zeroed, counters reset, no current process |
| `ProcessTable.ProcessManager.GetProcess` | kernel/process.cpp:105-112 | the search loop is `FindPid` |
| `ProcessTable.ProcessManager.AllocateProcessMemory` | kernel/process.cpp:126-143 | one page taken, mapped at the process's size, size grown; nothing grown on failure |
| `ProcessTable.ProcessManager.CreateProcess` | kernel/process.cpp:25-61 | the whole new kernel state and result are those of `Create` |
| `ProcessTable.ProcessManager.TerminateProcess` | kernel/process.cpp:64-77 | slot by slot the effect of `Processes.TerminateEffect` |
| `ProcessTable.ProcessManager.Schedule` | kernel/process.cpp:80-102 | slot by slot the effect of `Processes.ScheduleEffect`: nothing at all with a count of 0 or nothing ready |
| `ProcessTable.ProcessManager.SysExit` | kernel/process.cpp:175-179 | slot by slot the effect of `Processes.ExitEffect` |
| `ProcessTable.ProcessManager.SysFork` | kernel/process.cpp:181-196 | creation by the current process and the value returned; -1 and no change without one |
| `Console.GlyphReadsBack` | kernel/kernel_main64.cpp:113 | a cell holds the color in its high and the character in its low byte |
| `Console.ControlCharactersMoveColumn` | kernel/kernel_main64.cpp:102-105 | return, tab and control characters change only the column; a tab goes to the next multiple of 8 |
| `Console.PrintableEffect` | kernel/kernel_main64.cpp:106-119 | from any state, cell by cell: a printable character is written at the wrapped cursor in the current color, and on leaving the bottom row all rows move up in their own colors and the last becomes blank |
| `Console.ControlEffect` | kernel/kernel_main64.cpp:99-119 | the same for newline, return, tab and the other control characters |
| `Console.WritesOffScreenIff` | kernel/kernel_main64.cpp:106-115 | a write leaves the 2000 cells iff a printable arrives at row 24 with the column at least 80 |
| `Console.NothingBehindScreenChanges` | kernel/kernel_main64.cpp:98-121 | in every run without that, memory behind the screen is untouched |
| `Console.Print` | kernel/kernel_main64.cpp:98-127 | the cursor's row is below 25 after every run |
| `Console.ScrollShowsNewRow` | kernel/kernel_main64.cpp:78-96 | scrolling shows the same rows, each character in its own color, with one more that is blank in the current color |
| `Console.PrintIsEmitAll` | kernel/kernel_main64.cpp:123-127 | printing text is sending its characters, so that the theorems below hold for any sequence of prints and color changes |
| `Console.PrintShowsLossy` | kernel/kernel_main64.cpp:98-127 | what screen and cursor show after any output with changes of color, tabs, returns and control characters: the last 25 rows, each character in the color it was printed in, characters wrapped at the bottom blank |
| `Console.FinalScreenIff` | kernel/kernel_main64.cpp:98-127 | the final screen shows the last 25 rows of any output, in their colors, iff every row whose first character was lost and not written over has scrolled off |
| `Console.ShownThroughoutIff` | kernel/kernel_main64.cpp:98-121 | the last 25 rows are shown after every step of the output iff no visible character starts a wrapped row beyond the 25th |
| `Console.LastLinesAreShown` | kernel/kernel_main64.cpp:69-127 | lines of at most 80 characters: exactly the last 25 lines, each character in its color, spaces after them |
| `VgaConsole.Vga.ClearScreen` | kernel/kernel_main64.cpp:69-76 | all 2000 cells blank, cursor home |
| `VgaConsole.Vga.MoveRowsUp` | kernel/kernel_main64.cpp:79-86 | the in-place copy is a shift by one row |
| `VgaConsole.Vga.ScrollUp` | kernel/kernel_main64.cpp:78-96 | every cell moves up by 80 as it is, the last row is blank in the current color, the rest is kept, cursor on the last row |
| `VgaConsole.Vga.PutChar` | kernel/kernel_main64.cpp:98-121 | the step of `Console.PutChar`; the cursor's row stays below 25 |
| `VgaConsole.Vga.Print` | kernel/kernel_main64.cpp:123-127 | all characters in order |
| `VgaConsole.Vga.PrintDec` | kernel/kernel_main64.cpp:141-157 | prints the decimal numeral |
| `VgaConsole.Vga.PrintHex` | kernel/kernel_main64.cpp:129-139 | prints the text of `Numbers.FormatHex` |
| `Numbers.DecRoundTrip` | kernel/kernel_main64.cpp:141-157 | numerals without leading zero and numbers correspond one to one |
| `Numbers.FillFromBack` | kernel/kernel_main64.cpp:147-154 | the digit loop stays inside the 21-byte buffer for every 64-bit value |
| `Numbers.FormatDec` | kernel/kernel_main64.cpp:141-157 | the NUL-terminated result is the numeral |
| `Numbers.FormatNumber` | kernel/kernel.cpp:41-58 | the reverse-filling printer yields the same numeral on 32-bit values |
| `Numbers.FormatHex` | kernel/kernel_main64.cpp:129-139 | 0x and sixteen characters: for nibble n = value / 16^i % 16, character i + 2 is 48 + n below 10 and 55 + n from 10 on |
| `Numbers.HexReadsBackLowFirst` | kernel/kernel_main64.cpp:133-135 | the printed text starts with 0x, all its digits are hexadecimal, and read lowest first they give the value back |
| `Numbers.HexReadsBackIffPalindrome` | kernel/kernel_main64.cpp:133-135 | read the usual way they do so iff the nibbles are a palindrome |
| `Mounts.CopyReadsBack` | kernel/filesystem.cpp:138-139 | a copied name reads back as its first 31 characters |
| `Mounts.NamesAlwaysEnd` | kernel/filesystem.cpp:134-156 | byte 31 of every name stays NUL over every run |
| `Mounts.ReusedSlotHasNoStaleBytes` | kernel/filesystem.cpp:137-141 | a reused slot holds exactly the new names |
| `Mounts.MountEffect` | kernel/filesystem.cpp:134-145 | the lowest free slot takes both names, 31 bytes each padded with NULs, and nothing else changes; with none free nothing does |
| `Mounts.UnmountEffect` | kernel/filesystem.cpp:148-156 | the lowest slot mounted at the path is given up, its names and all other slots kept; without one nothing changes |
| `Mounts.MountAddsEntry` | kernel/filesystem.cpp:134-145 | mount succeeds iff fewer than 16 are mounted and adds one entry with truncated names |
| `Mounts.UnmountRemovesEntry` | kernel/filesystem.cpp:148-156 | unmount succeeds iff the path is mounted and removes one entry for it |
| `Mounts.UnmountUndoesMountIff` | kernel/filesystem.cpp:134-156 | unmount after mount succeeds iff the path has at most 31 characters, and then restores the collection of mounts |
| `Mounts.FileTakesInodeIff` | kernel/filesystem.cpp:66-83 | a file takes an inode iff its type code is not 0 |
| `MountTable.FileSystem.Init` | kernel/filesystem.cpp:34-43 | nothing is mounted, names are kept |
| `MountTable.FileSystem.Mount` | kernel/filesystem.cpp:134-145 | the loop is `Mounts.Mount` on the names up to their first NUL |
| `MountTable.FileSystem.Unmount` | kernel/filesystem.cpp:148-156 | the loop is `Mounts.Unmount` on the path up to its first NUL |
| `MountTable.FileSystem.FindFreeInode` | kernel/filesystem.cpp:46-53 | the lowest free inode, 0xFFFFFFFF iff none |
| `MountTable.FileSystem.CreateFile` | kernel/filesystem.cpp:66-83 | the lowest free inode gets size 0, the type, the permissions and 16 zero blocks, the others are kept; with none free nothing changes |
| `Handles.FileHandle.Move` | include/filesystem.h:354-360 | everything passes to the new handle, the old one is closed and holds no descriptor |
| `Handles.FileHandle.MoveAssign` | include/filesystem.h:362-376 | closes the old descriptor if open, then moves; self-assignment does nothing |
| `Handles.FileHandle.Destroy` | include/filesystem.h:345-349 | closes exactly an open handle |
| `Handles.HandlePool.Construct` | include/filesystem.h:342-343 | a new object is one construction step of the pool |
| `Handles.HandlePool.MoveConstruct` | include/filesystem.h:354-360 | moving into a new object is one move step of the pool, no other handle changes |
| `Handles.HandlePool.MoveAssign` | include/filesystem.h:362-376 | assignment between live objects, aliased or not, is one step of the pool |
| `Handles.HandlePool.Destroy` | include/filesystem.h:345-349 | destruction closes an open descriptor and removes the handle, one step of the pool |
| `Handles.EveryRunKeepsOwnership` | include/filesystem.h:342-376 | over every run a descriptor is open in at most one handle and closed at most once, and every issued one is open or closed |
| `Handles.AllDestroyedMeansClosedOnce` | include/filesystem.h:342-376 | when all handles are destroyed each descriptor has been closed exactly once |
| `Interrupts.TablesAgree` | kernel/interrupt.cpp:30-63 | after any registrations both tables hold the last handler of each vector, its gate present, ring 0, in segment 8, with the address in two 16-bit halves; the gates of other vectors are all zero |
| `Interrupts.InterruptController.Init` | kernel/interrupt.cpp:30-50 | every field of every gate and every handler zero, interrupts on |
| `Interrupts.InterruptController.RegisterHandler` | kernel/interrupt.cpp:53-63 | handler and gate of one vector set field by field, the other vectors kept |
| `Interrupts.GateRoundTrip` | include/interrupt.h:286-303 | a 64-bit gate holds handler address, selector, type, privilege and presence in fields of their width, zero elsewhere, and gives them back |
| `Interrupts.GuardsAreCalls` | include/interrupt.h:229-241 | flag and work of any code with guards are those of executing the constructor and destructor calls one by one with each guard's saved flag |
| `Interrupts.FlagIsLastSwitch` | include/interrupt.h:229-241 | any code with guards sets the flag to its last switch that no guard undoes, or leaves it |
| `Interrupts.GuardRestoresIff` | include/interrupt.h:229-241 | a guard restores the flag, whatever it was, iff the last switch in the text of its body is not an enable |
| `Interrupts.NestedGuardsRestore` | include/interrupt.h:229-241 | guards nested to any depth restore the flag, and a piece of work runs with interrupts on iff they were on and no guard is around it |

## Left out

- Assembly: register saving and loading in `switch_context` (so the chosen slot's saved `esp` and `ebp`), `load_idt`, boot code; a context switch makes the chosen slot current, paging is a flag.
- An entry's bit-field assignments are one update, and translation has no TLB and sets no accessed or dirty bits.
- The processor's own protection checks: entries are proved kernel-only, but user-mode accesses are not modelled.
- `InitSteps.SecondInitIff`: speaks of a second `init` whose pages are not mapped elsewhere; of the others only the failure of `InitSteps.StrayInitFails` is stated, since one that writes over the tables in force changes the very translation it runs through.
- `Processes.PidsStayDistinct`: speaks until `next_pid` wraps, after 2^32 - 1 slots filled in; then pids can repeat.
- `FileSystem::init`'s page allocations, file reading, writing and deletion: stubs or not visible in the source.
- `close` of a file handle is only declared; it is taken to close the descriptor and mark the handle.
- UEFI memory-map conversion, page alignment helpers, `MemoryLayout`: conversions between addresses, page numbers and memory types that hold no state and that memory.cpp and process.cpp do not call.
- Stores by running processes into their own pages: a run is a sequence of the process manager's calls and nothing in between; `Ownership` covers stores by the memory manager's callers.
- boot/uefi_bootloader.c, coroutines, atomics, mutexes, clocks and statistics in the headers: firmware and library behaviour that cannot be seen.
- Exception and system-call dispatch, keyboard and timer handlers: input and output only.
