# Valen kernel: verified model

A Dafny model of the Valen x86_64 kernel's memory stack, scheduler, locks, console and line editor, with proofs.
Each component comes as a pure specification with theorems about it, and, where the kernel updates state in
place, as a class whose methods are proved to do exactly what the specification says.

| component | specification and theorems | in-place model |
|---|---|---|
| physical pages, boot memory map | `PmmSpec`, `PmmRuns`, `Boot` | `Pmm.PageAllocator`, `Boot` |
| page tables | `PageTables`, `TableWrites`, `PagingRuns`, `PagingWindow`, `PagingRanges` | `Paging.PageTableManager`, `SystemBoot` |
| kernel heap | `HeapSpec`, `HeapRuns`, `HeapMemory` (headers as bytes) | `Heap.KernelHeap`, `HeapMisuse` |
| run queue and tasks | `SchedSpec`, `TaskRuns` | `RunQueue.Scheduler`, `Tasks.TaskManager` |
| spinlocks and lock nesting | `Locks` (a state machine over atomic steps), `LockOrder` | |
| console | `ConsoleSpec` | `Console.Terminal` |
| shell input line | `EditorSpec`, `ShellSpec` (with the screen) | `Editor.LineEditor` |

`dafny verify dfyconfig.toml` checks everything.

## Main results

- The 4-level tables implement a flat map. After any run of mapping calls from boot, every 64-bit address translates
  as the last request for an alias of its page says, else as boot left it (`PagingRuns.FromBoot`). Aliasing is a plain
  condition on the address: boot enters one PDPT at PML4 slots 0 and 511. The kernel's window onto the first GiB
  never moves, and every table stays inside it, so the code always gets at its own tables.
- Writing any word of any frame keeps the tables and all translations if and only if the frame is no table or the word
  says the same already (`TableWrites.WriteExactly`). This settles mapping calls inside the boot window, which do just
  that.
- The heap's block list is a function of its live blocks alone (`HeapRuns.Canonical`, `HeapRuns.HistoryIndependent`).
  Restoring the list by free after malloc, and the single block left once all is freed in any order, follow from it.
- In memory the list is bytes, and stale headers overlap live ones. Freeing an aligned pointer that nobody holds leaves
  the list intact if and only if the pointer is not 8 or 16 bytes past the start of a header of the list
  (`HeapMemory.StaleFreeExactly`).
- Over every run of the whole task system, the next creation succeeds if and only if the ring is empty and no task of
  the run has ever exited (`TaskRuns.CreationExactly`, carried out on ring and heap by `Tasks.TaskManager.Drive`).
- A task that is spared runs within d + c scheduler calls (`SchedSpec.Fairness`).
- No interleaving of any number of threads violates mutual exclusion, waits in a cycle, or reaches a state from
  which the threads cannot all be run to the end (`Locks.MutualExclusion`, `NoCyclicWait`, `NoDeadlock`). The order in
  which the routines nest their locks is exactly a table of nine pairs (`LockOrder.LockOrderExactly`).
- From a cleared screen on, rows 1 to 24 are the last 24 lines of the text cut into paragraphs and 80-column lines
  (`ConsoleSpec.PrintShows`).
- For every sequence of keys, Enter included and however long the lines, the shell's buffer is the two-string editor's
  and the commands handed over are exactly its texts (`Editor.LineEditor.Serve`, `EditorSpec.SessionSplits`). The screen
  is right after each of the keys if and only if every text fits and every Enter leaves the cursor where a line can be
  started (`ShellSpec.ShownThroughoutExactly`).

## Where code and documentation part

The model follows the code. These promises do not hold as documented; each has its exact condition.

- "16KB initial heap for multiple task support" (docs/code/mm/MEM.md:383): two 8192-byte stacks with headers never fit
  into 16384 bytes and the heap never grows. An exited task leaves the ring, but its memory is never given back. So
  creation succeeds if and only if there is no task and none has exited (`Tasks.TaskManager.Create`,
  `TaskRuns.CreationExactly`); after one exit every later creation fails (`TaskRuns.NoTaskAfterExit`,
  `TaskRuns.ExitedMemoryExample`). Only kernel/task/task.c allocates from the heap.
- "Dynamic expansion via page allocation" (docs/code/mm/MEM.md:382): growth asks for 4096 pages, contiguous allocation
  can return at most 8, so growth always fails without effect (`Heap.VmmAlloc`).
- Contiguous allocation of 1 to 7 pages returns the last pages of the byte whose first pages are free. A request is
  sound on every bitmap if and only if it is for no page or for 8; on a given bitmap it is sound if and only if the chosen
  byte is below a bound for the count, which for 4 pages or more means that it is free altogether
  (`PmmRuns.RunSoundExactly`, `PmmRuns.RunSoundOnBitmap`, `PmmRuns.LargeRunSoundExactly`).
- "Support for any RAM size" (docs/code/mm/MEM.md:328): the page at 2 GiB has the null pointer for its higher-half
  address, is taken, and is reported as a failure, as are the eight pages from there on (`PmmRuns.NullMeansNone`,
  `PmmRuns.EightNullMeansNone`, `PmmRuns.NullPageExample`).
- "Kernel memory - Protected during allocation" (docs/code/mm/MEM.md:400): true for every memory map if and only if
  the image ends below 2 MiB (`PmmRuns.KernelSparedExactly`).
- Mapping an address of the boot window has no effect on translation; the entry is written into the data frame of the
  2 MiB page (`PagingRuns.MapTakesEffectExactly`). It is harmless if and only if that frame is no table or the word
  there says the same (`PagingWindow.WindowCallExactly`). One mapping in the last GiB is enough to make the window's
  second 2 MiB a table (`PagingWindow.WindowBreaksTables`).
- Tables must lie in the first GiB, the only part of physical memory that boot makes reachable
  (`PagingRuns.BootReachExactly`).
- Mapping a range of any size from page boundaries takes effect on every byte of it if and only if the range enters no
  GiB of the boot window and, if it begins in one, asks for what is there (`Paging.PageTableManager.MapRange`,
  `PagingRanges.SizedRangeExactly`, `PagingRanges.RangeAffineExactly`).
- The loop over a range ends if and only if the size is at most 2^64 - 4096 (`PagingRanges.LoopEndsExactly`).
- Freeing a pointer twice is caught by nothing once a new block has been placed: the stale header still bears its mark.
  Through an aligned pointer that nobody holds, the list survives if and only if the pointer is not 8 or 16 bytes past
  the start of a header of the list (`HeapMemory.StaleFreeExactly`); `HeapMisuse.StaleFreeRun` is a run of six calls
  that destroys it.
- A request above 2^64 - 8 bytes rounds to 0 and is granted (`HeapRuns.RoundedExactly`, `HeapRuns.HugeRequestGranted`).
- After the current task exits, no task ever runs again (`SchedSpec.ExitNeverHandsOver`, `SchedSpec.SchedulableExactly`),
  and in a run queue with other tasks left, or created since, a second exit goes through a null link: over every run
  exactly then (`SchedSpec.SecondExitFaultsExactly`, `RunQueue.Scheduler.FollowsNullExactly`). The task system as a
  whole never has two tasks, so it never gets there (`TaskRuns.RunOne`).
- The "tasks exist" flag is wrong after a run if and only if the last task was killed, rather than exited, and none has
  been created since (`SchedSpec.FlagLostExactly`, `SchedSpec.FlagOutlivesTasks`).
- Redrawing the input line is right if and only if the text and the blank after it fit on the screen
  (`EditorSpec.RedrawShowsExactly`). The cursor's row is on the screen if and only if its place in the text is
  (`EditorSpec.CursorOnScreenExactly`).
- Enter breaks the line at the cursor, not at the end of the text, so the next prompt can be followed by the rest of the
  old line. After a command that prints nothing the next line is right if and only if the old text has only blanks past
  the cursor's row (`ShellSpec.EnterExactly`, `ShellSpec.OldTextRun`).
- docs/code/kernel/TASKING.md:97-104 gives rescheduling every 10 ticks, 3072-byte stacks and a 4 KB heap; the code, and
  the model, have 25 ticks, 8192 bytes and 16 KB.
- Clearing the screen blanks row 0 too, although its comment excepts the status bar (lib/stdio.c:110-119): row 0 is
  spared if and only if it was blank (`ConsoleSpec.ClearSparesRowZeroExactly`).

## Assumptions

- Physical memory is a map from frames to 512 words. The code reaches frames by higher-half addresses;
  `PagingRuns.TablesReached` proves that every table, and every frame that may become one, is reached that way. Words
  outside the map read as 0, which no walk from a well-formed table does.
- Mapping needs a free frame of the first GiB for each missing level; the code does not check.
- The data frames of the boot window are RAM.
- Mapping flags are below 4096, as all flags in include/valen/paging.h are.
- Fewer than 2^31 - 1 process ids are used; the counter is a C `int`.
- Map entries do not run past the end of the 64-bit address space.
- Each method is one critical section of its lock; interleaving is the subject of `Locks`.
- What a shell command prints is a parameter.

## Model

| member | source | states |
|---|---|---|
| `Pmm.PageAllocator.constructor` | mm/pmm.c:22-37 | all pages used, padding bits set, counter exact |
| `Pmm.PageAllocator.MarkFree` | mm/pmm.c:42-58 | adds just that page to the free set, ignores pages past the end, keeps the counter equal to the number of set bits |
| `Pmm.PageAllocator.MarkUsed` | mm/pmm.c:63-78 | that page is not free afterwards, every other page as before, counter exact |
| `Pmm.PageAllocator.AllocPage` | mm/pmm.c:83-115 | the two nested scans find the lowest free page numbered 512 or more, or return 0 unchanged when there is none |
| `Pmm.PageAllocator.AllocPages` | mm/pmm.c:120-158 | more than 8 pages: null and nothing touched; otherwise which byte is chosen, which pages are marked, and that the counter stays exact if and only if the marked pages were free; for 8 pages the first free byte is taken |
| `Pmm.PageAllocator.FreeKb` | mm/pmm.c:168-170 | free figure counts the free pages, and used plus free is the total |
| `PmmSpec.MarkedAccounting` | mm/pmm.c:142-148 | counting the marked pages as taken is right exactly when all of them were free |
| `PmmSpec.UsedPlusFree` | mm/pmm.c:168-170 | set bits and clear bits among the first total pages add up to the total |
| `PmmRuns.Conservation` | mm/pmm.c:63-166 | over every honest run of allocations of one and of eight pages, frees and markings as used, the pages free, held and marked split the initial ones without overlap |
| `PmmRuns.NeverTwice` | mm/pmm.c:83-158 | after every such run, the page or the eight pages handed out next were held by nobody |
| `PmmSpec.EightPages` | mm/pmm.c:125-139 | the scan for eight pages takes the first byte whose pages are all free |
| `PmmRuns.BootSparesBitmap` | kernel/kernel.c:62-84 | boot frees no page under the bitmap, for aligned and unaligned map entries alike, and none below 2 MiB |
| `PmmRuns.BootFreesRest` | kernel/kernel.c:62-84 | what an available entry reaches from 2 MiB on is free if it lies in the image, or past it by two pages and the bytes of the bitmap |
| `PmmRuns.BootTotal` | kernel/kernel.c:36-64 | the total is where the highest available entry of any map ends, or 512 MiB |
| `PmmRuns.LastMapExactly` | kernel/kernel.c:45-67 | the entries that count are those of the last map tag |
| `PmmRuns.AllocationSparesBitmap` | mm/pmm.c:83-115 | no allocation in any honest run after boot returns a page under the bitmap |
| `PmmRuns.KernelSparedExactly` | kernel/kernel.c:69-84 | every memory map leaves the kernel image marked used if and only if the image ends below 2 MiB |
| `PmmRuns.PointerRoundTrip` | mm/pmm.c:7-8 | physical and higher-half addresses convert without loss; exactly the 2 GiB page maps to null |
| `PmmRuns.NullMeansNone` | mm/pmm.c:83-115 | null means no page is left, except for the 2 GiB page; the pool is unchanged exactly when none is left |
| `PmmRuns.EightNullMeansNone` | mm/pmm.c:129-152 | null for eight pages means that no byte is free, except for the byte at 2 GiB |
| `PmmRuns.NullPageExample` | mm/pmm.c:95-107 | a pool where a page is taken and null returned |
| `PmmRuns.WrongRunExample` | mm/pmm.c:129-139 | a bitmap where one page is asked for, page 0 is free and page 7, in use, is taken |
| `PmmRuns.TightByteUnsound` | mm/pmm.c:129-148 | for each count from 1 to 7, a bitmap on which a page in use is returned |
| `PmmRuns.RunSoundExactly` | mm/pmm.c:129-148 | the pages returned are free on every bitmap, and are the pages counted, if and only if 0 or 8 are asked for |
| `PmmRuns.RunSoundOnBitmap` | mm/pmm.c:129-148 | on a given bitmap a request for 1 to 8 pages is sound if and only if the chosen byte is below 2^(8 - count) |
| `PmmRuns.LargeRunSoundExactly` | mm/pmm.c:129-148 | on a given bitmap a request for 4 to 8 pages is sound if and only if the chosen byte is free altogether |
| `Boot.HighestEnd` | kernel/kernel.c:36-60 | the highest end of any available entry over all map tags, and the entries of the last map tag |
| `Boot.MarkEntry` | kernel/kernel.c:76-81 | frees exactly the pages that the 4096-byte steps of the entry reach outside the low 2 MiB and the bitmap window |
| `Boot.InitMemory` | kernel/kernel.c:36-84 | after boot a page is free exactly when some available entry of the last map reaches it outside the reserved areas |
| `SystemBoot.BootTablesSafe` | arch/x86_64/boot.s:29-56 | the boot tables, below 2 MiB, are never among the pages that boot frees |
| `SystemBoot.Start` | kernel/kernel.c:64-86 | memory map, allocator and boot tables together give valid page tables whose translation is the boot window and nothing else |
| `SystemBoot.TablesSpareBitmap` | kernel/kernel.c:62-86 | over every run from boot no table overlaps the bitmap |
| `PageTables.GetPhysIsWalk` | mm/vmm.c:82-113 | the kernel's unrolled walk with 1 GiB, 2 MiB and 4 KiB leaves is the level-by-level walk on split addresses |
| `PageTables.AddTableWf` | mm/paging.c:76-114 | hanging a fresh zeroed table off an absent slot keeps levels, single references, no orphans, boot entries, separation from free pages and reachability |
| `PageTables.AddTableWalk` | mm/paging.c:76-114 | an empty table changes no translation from any table |
| `PageTables.PrepareShape` | mm/paging.c:76-116 | completing a path keeps all tables and pointers, takes exactly the missing frames and ends in a page table |
| `PageTables.PrepareWalk` | mm/paging.c:76-116 | completing a path changes no translation |
| `PageTables.WriteLeafWalk` | mm/paging.c:119 | only walks that end in the written slot see the new entry |
| `PageTables.SameTable` | arch/x86_64/boot.s:35-45 | two walks end in the same page table exactly when their addresses agree above the last index, up to PML4 slots 0 and 511 |
| `PageTables.LeafEffect` | mm/paging.c:116-119 | writing the last entry of an address changes the translation of its aliases and of nothing else |
| `TableWrites.WriteExactly` | mm/paging.c:116-119 | storing any word in any frame keeps the shape and all translations if and only if the frame is no table or the word says what is there already |
| `TableWrites.UpperWfExactly` | mm/paging.c:116-119 | above level 1 the shape alone is kept exactly then |
| `TableWrites.TableReached` | mm/vmm.c:82-113 | every page table is the end of some address's path |
| `PagingRuns.ClearOutsideWindow` | mm/vmm.c:99-106 | in every well-formed state a path meets a large page exactly when the address is in the boot window |
| `PagingRuns.WindowTranslation` | arch/x86_64/boot.s:47-56 | window addresses translate to their offset in the GiB whatever else is mapped |
| `PagingRuns.DirectMap` | mm/paging.c:22 | the higher-half address of a byte of the first GiB translates back to it |
| `PagingRuns.TablesReached` | mm/paging.c:22-88 | every word of every table, and of every frame that may become one, is reached by its higher-half address |
| `PagingRuns.BootReachExactly` | arch/x86_64/boot.s:47-56 | after boot a byte of the first 2 GiB is reached by its higher-half address if and only if it is in the first GiB |
| `PagingRuns.MapShape` | mm/paging.c:67-119 | one call keeps the invariant and every table, and costs one frame for each missing level, 0 to 3 |
| `PagingRuns.MapEffect` | mm/paging.c:67-119 | for every address: aliases of the page translate to the target, everything else as before |
| `PagingRuns.MapWord` | mm/paging.c:119 | where the address's path ends, the word has the frame asked for and exactly the flags asked for |
| `PagingRuns.MapTakesEffectExactly` | mm/paging.c:102-119 | the mapping is visible if and only if the address is outside the window or already translates there |
| `PagingWindow.WindowCallExactly` | mm/paging.c:102-119 | a call inside the window keeps the tables and every translation if and only if the frame it writes to is no table or the word is there already |
| `PagingWindow.WindowHitsTable` | mm/paging.c:116-119 | if that frame is a page table, an unrelated page is mapped |
| `PagingWindow.FirstTable` | mm/paging.c:91-100 | after boot, the first mapping in the last GiB makes the first allocatable frame a page directory |
| `PagingWindow.WindowBreaksTables` | mm/paging.c:102-119 | from then on mapping at the window's second 2 MiB leaves the tables malformed, for 511 of 512 pages |
| `PagingRuns.RunRefinesFlat` | mm/paging.c:67-119 | over every run the hierarchy refines the flat last-request-wins map |
| `PagingRuns.EnoughFrames` | mm/paging.c:79-107 | three frames a page suffice for any run outside the window |
| `PagingRuns.RunFrames` | mm/paging.c:79-107 | over every run, tables and free frames together stay the same set |
| `PagingRuns.BootWf` | arch/x86_64/boot.s:29-56 | the tables as boot leaves them satisfy the invariant |
| `PagingRuns.FromBoot` | mm/paging.c:67-119 | for every run from boot and every address, translation is the flat map over the boot window; the direct map of the first GiB, and with it access to every table, holds throughout |
| `PagingRuns.RunAffineExactly` | mm/paging.c:129-135 | pages mapped to consecutive frames translate affinely if and only if no two of them share a slot |
| `PagingRuns.RunFrame` | mm/paging.c:129-135 | addresses that share no slot with the mapped pages translate as before |
| `PagingRanges.RangeAffineExactly` | mm/paging.c:129-135 | an aligned range translates affinely, byte by byte, if and only if it enters no GiB of the boot window and, beginning in one, asks for what is there |
| `PagingRanges.PagesCover` | mm/paging.c:131 | the pages of a range are the fewest that cover its size |
| `PagingRanges.SizedRangeExactly` | mm/paging.c:129-135 | every byte of a range of any size translates affinely if and only if the range avoids the window |
| `PagingRanges.SizedRangeFrame` | mm/paging.c:129-135 | an address that shares no slot with a byte of the range translates as before |
| `PagingRanges.AliasCrosses` | arch/x86_64/boot.s:35-45 | two pages that share a slot have the start of a window GiB between them |
| `PagingRanges.OutsideDistinct` | mm/paging.c:129-135 | a range outside the window never shares a slot with itself |
| `PagingRanges.LoopEndsExactly` | mm/paging.c:131 | the wrapping offset passes the size if and only if the size is at most 2^64 - 4096 |
| `Paging.PageTableManager.constructor` | mm/paging.c:35-38 | takes over the boot tables, invariant established |
| `Paging.PageTableManager.ZeroFrame` | mm/paging.c:82-83 | the clearing loop zeroes exactly that frame |
| `Paging.PageTableManager.EnsureTable` | mm/paging.c:77-88 | the per-level block adds a zeroed, fresh table if the slot is absent and returns the table below |
| `Paging.PageTableManager.WriteEntry` | mm/paging.c:76-119 | three blocks and the final store, as a function of the old tables and free pages |
| `Paging.PageTableManager.Map` | mm/paging.c:67-124 | tables and free pages become what the specification says, invariant kept |
| `Paging.PageTableManager.MapRange` | mm/paging.c:129-135 | on bytes: the range translates affinely if and only if it avoids the window, and addresses that share no slot with it translate as before; the loop is the run of one request per page, with 64-bit wrap-around |
| `Heap.VmmAlloc` | mm/vmm.c:50-59 | a request for more than 8 pages returns null and changes nothing |
| `HeapMemory.EncodeDecode` | mm/heap.c:9-15 | a number written to a field of enough bytes is read back |
| `HeapMemory.HeaderBytes` | mm/heap.c:7-15 | where mark, size, link and free field lie, byte by byte |
| `HeapMemory.StoreExactly` | mm/heap.c:9-15 | any store anywhere leaves the headers spelling the same list if and only if it changes no header byte |
| `HeapMemory.StaleFreeExactly` | mm/heap.c:99-107 | setting the free field through an aligned pointer nobody holds keeps the list if and only if the pointer is not 8 or 16 bytes past the start of a header of it |
| `HeapMisuse.StaleFreeRun` | mm/heap.c:92-107 | two blocks allocated and freed, one allocated, the second pointer freed again: the size of the free block becomes 1 |
| `Heap.KernelHeap.Init` | mm/heap.c:20-31 | one free block of 16360 bytes |
| `Heap.KernelHeap.Malloc` | mm/heap.c:33-90 | pointer and block list are those of first fit with splitting; null before initialisation, for size 0 and when nothing fits; no byte outside the headers changes |
| `Heap.KernelHeap.TakeBlock` | mm/heap.c:52-66 | splits or takes whole, headers in memory still spell out the list |
| `Heap.KernelHeap.Poke` | mm/heap.c:54-66 | a byte outside the headers can be written without effect on the list |
| `Heap.KernelHeap.SetFreeMark` | mm/heap.c:94-107 | for any pointer: the field is set exactly when the mark is found, and unless the pointer is held the list survives if and only if no header byte changes |
| `Heap.KernelHeap.Free` | mm/heap.c:92-123 | a live block is released and the list coalesced, without a change outside headers or to any mark; any other pointer that does no harm leaves the list as it is |
| `Heap.KernelHeap.Sweep` | mm/heap.c:109-120 | the loop that merges and looks again computes the coalesced list |
| `HeapRuns.PlaceInv` | mm/heap.c:50-66 | taking a block keeps the exact tiling of the arena, alignment and absence of adjacent free blocks |
| `HeapRuns.CoalesceEffect` | mm/heap.c:109-120 | coalescing keeps tiling, alignment and live blocks and leaves no adjacent free blocks |
| `HeapRuns.ReleaseEffect` | mm/heap.c:107-120 | freeing keeps the invariant and removes exactly that block from the live ones |
| `HeapRuns.Canonical` | mm/heap.c:50-120 | two lists with the same live blocks that tile the same area without adjacent free blocks are equal |
| `HeapRuns.MallocExactly` | mm/heap.c:35-86 | success exactly when something is asked for and a free block holds the rounded request; first such block, cut to size if more than 56 bytes are over, one new live block; else unchanged |
| `HeapRuns.RoundedExactly` | mm/heap.c:45 | the rounded size covers the request if and only if it is at most 2^64 - 8; beyond, it is 0 |
| `HeapRuns.HugeRequestGranted` | mm/heap.c:45-66 | the request 2^64 - 1 is granted with an empty block |
| `HeapRuns.MallocThenFree` | mm/heap.c:33-123 | free right after malloc restores the exact list |
| `HeapRuns.PayloadsApart` | mm/heap.c:54-66 | payloads are 8-aligned, inside the arena, and disjoint from all other payloads and headers |
| `HeapRuns.RunInv` | mm/heap.c:33-123 | every legal run of malloc and free keeps the invariant |
| `HeapRuns.HistoryIndependent` | mm/heap.c:33-123 | runs that leave the same blocks live leave the same list |
| `HeapRuns.AllFreed` | mm/heap.c:107-120 | once all is freed, in any order, one free block of 16360 bytes is left |
| `RunQueue.Scheduler.constructor` | kernel/task/task.c:22-28 | empty ring, first id 1, flags clear |
| `RunQueue.Scheduler.Add` | kernel/task/task.c:33-51 | new head of the ring, links circular in both directions, flag set |
| `RunQueue.Scheduler.Remove` | kernel/task/task.c:56-79 | takes one task out, flag cleared by the last one only |
| `RunQueue.Scheduler.Detach` | kernel/task/task.c:64-76 | the relinking leaves a circular ring without that task, whose links are null |
| `RunQueue.Scheduler.TakePid` | kernel/task/task.c:93 | the id is used up |
| `RunQueue.Scheduler.Schedule` | kernel/task/task.c:196-244 | the current task becomes its successor in the ring, or the head if there was none |
| `RunQueue.Scheduler.Tick` | kernel/task/task.c:249-264 | without tasks nothing; otherwise the counter goes up, and the 25th tick resets it and raises the request |
| `RunQueue.Scheduler.Yield` | kernel/task/task.c:289-294 | the request is clear afterwards; without one the current task stays |
| `RunQueue.Scheduler.Find` | kernel/task/task.c:299-322 | the loop ends and finds the task exactly when a positive id is in the ring |
| `RunQueue.Scheduler.Kill` | kernel/task/task.c:327-370 | -1 exactly when no task of the ring has that positive id, -2 exactly when the current task has it, else 0 and just that task leaves the ring |
| `RunQueue.Scheduler.Exit` | kernel/task/task.c:169-191 | the current task leaves the ring and stays current |
| `RunQueue.Scheduler.FollowsNullExactly` | kernel/task/task.c:59-70 | in every valid state an exit goes through a null link exactly when the current task has left a ring that is not empty |
| `RunQueue.Scheduler.Drive` | kernel/task/task.c:33-381 | any events one after the other do what the specification says, up to the first exit through a null link, which is the specification's first fault |
| `SchedSpec.StepValid` | kernel/task/task.c:33-381 | every operation keeps ids distinct and in range, the current task in the ring unless it exited, and the flag set while tasks exist |
| `SchedSpec.RunValid` | kernel/task/task.c:33-381 | so does every run |
| `SchedSpec.CreateThenKill` | kernel/task/task.c:84-164 | creating a task and killing it restores ring and current task |
| `SchedSpec.DistanceStep` | kernel/task/task.c:196-370 | a scheduler call shortens the wait by one, a creation lengthens it by at most one, nothing else lengthens it |
| `SchedSpec.Fairness` | kernel/task/task.c:196-244 | a spared task is current within d + c scheduler calls |
| `SchedSpec.RoundRobin` | kernel/task/task.c:210-221 | k calls move the current task k places round the ring |
| `SchedSpec.EveryTaskOnce` | kernel/task/task.c:210-221 | n calls make each of n tasks current exactly once |
| `SchedSpec.EveryTwentyFifthTick` | kernel/task/task.c:249-264 | after m ticks, the next one requests rescheduling if and only if it is a 25th, even if the request has just been cleared |
| `SchedSpec.TicksWithoutTasks` | kernel/task/task.c:253 | ticks without tasks change nothing |
| `SchedSpec.YieldTwice` | kernel/task/task.c:289-294 | a second yield right after the first does nothing |
| `SchedSpec.YieldsBounded` | kernel/task/task.c:249-294 | over every run, 25 ticks are spent on each scheduler call made by a yield, but for a request there at the start |
| `SchedSpec.ExitNeverHandsOver` | kernel/task/task.c:183-221 | after an exit the exited task stays current over every run |
| `SchedSpec.SchedulableExactly` | kernel/task/task.c:196-221 | a task of the ring can still become current if and only if the current one has not exited |
| `SchedSpec.SecondExitFaultsExactly` | kernel/task/task.c:56-191 | a run comes to a fault if and only if a running task exits and there is a later exit while the ring is not empty |
| `SchedSpec.FlagStep` | kernel/task/task.c:33-368 | one event spoils an exact flag if and only if it kills the only task; only a creation repairs it |
| `SchedSpec.FlagLostExactly` | kernel/task/task.c:33-368 | over every run, the flag is wrong in the end if and only if some event killed the only task and no creation follows |
| `SchedSpec.FlagFromStart` | kernel/task/task.c:22-368 | the same for every run from the start of the scheduler |
| `SchedSpec.FlagOutlivesTasks` | kernel/task/task.c:359-368 | create then kill leaves an empty ring with the flag set |
| `TaskRuns.RunOne` | kernel/task/task.c:84-381 | no run of the system has the memory of two tasks in use |
| `TaskRuns.NoTaskAfterExit` | kernel/task/task.c:169-191 | once a task has exited, every creation of every later run fails |
| `TaskRuns.CreationExactly` | kernel/task/task.c:84-191 | after every run from the start, creation succeeds if and only if the ring is empty and no running task has exited |
| `TaskRuns.ExitedMemoryExample` | kernel/task/task.c:169-191 | create, schedule, exit: an empty ring, and no task can be created |
| `Tasks.OneStack` | kernel/task/task.c:113-118 | two stack blocks in one arena are the same block |
| `Tasks.AtMostOneTask` | mm/heap.c:22-31 | no state in which tasks own their blocks has two tasks |
| `Tasks.SecondStackFails` | kernel/task/task.c:114-118 | while one stack is live a second allocation fails and changes nothing |
| `Tasks.CreateKillHeap` | kernel/task/task.c:85-118 | structure and stack allocated, then both freed: the block list is restored, whatever else is live |
| `Tasks.AllocateStack` | kernel/task/task.c:113-118 | a failed stack allocation gives the structure back and restores the heap |
| `Tasks.TaskManager.Create` | kernel/task/task.c:84-164 | succeeds if and only if there is no task and none has exited; a failure uses up an id and leaves ring and heap as they were |
| `Tasks.TaskManager.Kill` | kernel/task/task.c:327-381 | on success ring and heap are as before the task was created |
| `Tasks.TaskManager.Exit` | kernel/task/task.c:169-191 | in every state: the task leaves the ring for good and its memory stays allocated |
| `Tasks.TaskManager.Drive` | kernel/task/task.c:84-381 | any commands one after the other take ring, current task and heap the way of the system's run |
| `Locks.RoutineFits` | kernel/task/task.c:169-244 | every routine's lock script takes locks in rising rank and returns them innermost first |
| `LockOrder.RoutineLocks` | kernel/task/task.c:33-244 | which locks each routine takes, and that it nests them within the table |
| `LockOrder.LockOrderExactly` | mm/heap.c:38-71 | some routine takes one lock while holding another if and only if the pair is in the table |
| `Locks.StepSafe` | kernel/locking/spinlock.c:8-37 | a compare-and-exchange or release step keeps words and holders in step and holders unique |
| `Locks.MutualExclusion` | kernel/locking/spinlock.c:8-37 | at most one holder for each lock in any interleaving of any number of threads; the word is 1 exactly while held |
| `Locks.NoCyclicWait` | mm/heap.c:38-71 | no reachable state has a cyclic wait |
| `Locks.NoDeadlock` | kernel/locking/spinlock.c:8-37 | from every reachable state all threads can be run to the end |
| `Console.Terminal.Clear` | lib/stdio.c:112-126 | all cells blank, cursor at the start of row 1 |
| `Console.Terminal.ScrollUp` | lib/stdio.c:142-155 | the copy loops move rows 2 to 24 up, blank the last and leave row 0 |
| `Console.Terminal.Newline` | lib/stdio.c:131-161 | next row, or scroll at the bottom |
| `Console.Terminal.Putc` | lib/stdio.c:174-198 | one cell written, with lazy wrapping |
| `Console.Terminal.Puts` | lib/stdio.c:163-169 | the string printed character by character |
| `ConsoleSpec.LinesSnoc` | lib/stdio.c:174-198 | wrapping a text one character longer extends, fills or opens exactly one line |
| `ConsoleSpec.PrintShows` | lib/stdio.c:112-198 | rows 1 to 24 are the last 24 wrapped lines, blank padded, cursor at the end, for every text in any colours |
| `ConsoleSpec.RowZeroKept` | lib/stdio.c:128-161 | printing never changes row 0 when the cursor is below it |
| `ConsoleSpec.ClearSparesRowZeroExactly` | lib/stdio.c:112-119 | clearing keeps row 0 if and only if it was blank |
| `Editor.LineEditor.DeleteBack` | kernel/shell/shell.c:307-316 | the shift loop deletes the character before the cursor |
| `Editor.LineEditor.Insert` | kernel/shell/shell.c:332-350 | the shift loop inserts at the cursor; the overflow guards are never entered |
| `Editor.LineEditor.Redraw` | kernel/shell/shell.c:59-86 | text and one blank over the line, cursor at linear position row * 80 + 9 + index, on the screen or not |
| `Editor.LineEditor.Input` | kernel/shell/shell.c:281-359 | for every key but Enter: line, screen and cursor |
| `Editor.LineEditor.Key` | kernel/shell/shell.c:281-359 | any key: line, screen, prompt row and the submitted command; Enter breaks the line at the cursor, runs the command and starts a fresh line |
| `Editor.LineEditor.Serve` | kernel/shell/shell.c:365-371 | over every sequence of keys, line, screen and submitted commands are those of the pure session |
| `Editor.LineEditor.Submit` | kernel/shell/shell.c:285-297 | Enter hands over exactly the editor's text and empties the buffer |
| `Editor.LineEditor.Init` | kernel/shell/shell.c:36-51 | empty line, row remembered, prompt printed where the cursor is |
| `Editor.CopyString` | lib/string.c:55-59 | copies up to the first zero |
| `EditorSpec.PressAllIsText` | kernel/shell/shell.c:332-350 | whatever is typed, at most 255 printable characters |
| `EditorSpec.KeysExactly` | kernel/shell/shell.c:305-359 | every key by its number: 32 to 126 inserted below 255 characters, 8, -1 and -2, and no other |
| `EditorSpec.TypedText` | kernel/shell/shell.c:332-350 | any text of characters 32 to 126 typed on an empty line is there, up to 255 of them |
| `EditorSpec.TypedAndEntered` | kernel/shell/shell.c:285-350 | typed and followed by key 10, such a text is submitted |
| `EditorSpec.AppliesExactly` | kernel/shell/shell.c:305-359 | a key changes text or cursor if and only if the guard of its branch holds |
| `EditorSpec.SessionSplits` | kernel/shell/shell.c:285-303 | the first Enter submits the text typed before it, and the rest is a session from an empty line |
| `EditorSpec.SessionIsText` | kernel/shell/shell.c:285-350 | one command for each Enter, each at most 255 printable characters |
| `EditorSpec.Undo` | kernel/shell/shell.c:307-353 | backspace undoes an insertion, the arrows undo each other |
| `EditorSpec.PrintLinear` | lib/stdio.c:174-198 | without line breaks and before the screen is full, printing overwrites cells in order across line wraps |
| `EditorSpec.RedrawShows` | kernel/shell/shell.c:59-86 | redrawing an edited text that fits shows it and leaves the rows above alone |
| `EditorSpec.RedrawShowsExactly` | kernel/shell/shell.c:59-86 | the redrawn line is right if and only if text and trailing blank fit on the screen |
| `EditorSpec.CursorOnScreenExactly` | kernel/shell/shell.c:62-64 | the cursor's row is at most 24 if and only if its place in the text is on the screen |
| `ShellSpec.StartsExactly` | kernel/shell/shell.c:44-48 | a fresh line is shown right if and only if the prompt starts a row with nothing behind its place, or scrolls at the very end of the screen |
| `ShellSpec.KeyShowsExactly` | kernel/shell/shell.c:281-359 | a right display stays right if and only if the text fits, or after Enter the next line is started in such a place |
| `ShellSpec.ShownThroughoutExactly` | kernel/shell/shell.c:281-371 | the same at every moment of every sequence of keys |
| `ShellSpec.EnterExactly` | kernel/shell/shell.c:285-303 | after a command that prints nothing the next line is right if and only if the old text has only blanks past the cursor's row |
| `ShellSpec.ReplyShown` | kernel/shell/shell.c:299-303 | after a command that clears the screen, it shows what the command printed and the prompt |
| `ShellSpec.ReplyAppended` | kernel/shell/shell.c:285-303 | after any other command, line break, output and prompt follow the text that was shown |
| `ShellSpec.ClearStarts` | kernel/shell/shell.c:285-303 | after a command that clears the screen the next line is right |
| `ShellSpec.OldTextRun` | kernel/shell/shell.c:285-303 | 90 characters, cursor back to the start, Enter: right before, wrong after |

## Left out

- Heap.VmmAlloc: models requests for more than 8 pages only, which is what heap growth makes; a successful allocation
  maps higher-half pointers as physical addresses, so what backs it is not meaningful.
- Heap.KernelHeap.Free: what the coalescing loop does to a list that `SetFreeMark` has just destroyed is not modelled; it
  follows whatever the damaged fields say.
- Paging.PageTableManager.Map: a window call that harms the tables is not followed further; `WindowCallExactly` says
  which ones do.
- Paging.PageTableManager.MapRange: sizes above 2^64 - 4096, for which the loop does not end.
- SchedSpec.Fairness: covers runs in which no task exits; `SchedSpec.SchedulableExactly` says why.
- RunQueue.Scheduler.Exit: an exit through a null link has no result to state; `FollowsNullExactly` and
  `SchedSpec.SecondExitFaultsExactly` say when there is one.
- Console.Terminal.Putc: a character printed while the cursor's row is below the screen is written past the end of the
  screen; the shell does not do it (`Editor.LineEditor.Serve`), other output in between is not modelled.
- RunQueue.Scheduler.Remove: called for a task that has left a non-empty ring, it follows null links in the same way.
- Tasks.TaskManager.Create: does not model registers, names, priorities, the state field or the initial stack contents.
- Boot.InitMemory: tags and entries are given as lists; their byte layout and the end tag are not modelled.
- Page permissions and caching bits, TLB invalidation and CR3 loads.
- Context switching in assembly, the PIC, PIT, GDT and IDT, ports and the hardware cursor.
- Interrupt handlers that spin on a lock held by the code they interrupted; in `Locks` every thread can go on.
- `spinlock_try_acquire`, which no routine calls.
- `printf` formats, number printing and parsing, serial output.
- Shell commands and their dispatch, keyboard tables, the panic screen.
