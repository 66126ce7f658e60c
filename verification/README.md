# muse kernel: a verified model

This project models the parts of the muse kernel, a small 32-bit x86 system, in which state is
hardest to keep right, and proves what they are for.  `dafny verify dfyconfig.toml` checks all
of it.

| files | what they model |
|---|---|
| `Common.dfy` | optional values, 32-bit words and page sizes |
| `FrameAllocator.dfy`, `FrameBitmaps.dfy`, `PageHeap.dfy`, `PageBitmap.dfy`, `Bits.dfy`, `WordBits.dfy` | physical pages and virtual heap pages, each as marks and as the bits of the real bitmaps |
| `PageTables.dfy`, `Paging.dfy`, `ActivePaging.dfy` | two-level page tables in physical memory, the walk of the processor over them, and the code that edits them with paging off and, through the directory's own slot 1023, with paging on |
| `KernelMemory.dfy`, `UserHeap.dfy`, `TaskDirectory.dfy`, `Kernel.dfy` | allocation of mapped pages, mapping of physical objects, the user's break, and the construction of a task's address space |
| `SchedulerModel.dfy`, `SchedulerHeap.dfy` | scheduler, sleepers and timer slices as a state machine, and the linked lists that implement it |
| `MultiLock.dfy`, `ReentrantLock.dfy`, `Console.dfy` | the readers/writer lock and the reentrant lock as interleaved steps, and the console that nests the latter |
| `Ext2Disk.dfy`, `Ext2File.dfy`, `Ext2Inodes.dfy`, `Ext2Alloc.dfy`, `Ext2Records.dfy` | block maps, byte-range transfers, inodes and object allocation of ext2, on a disk of bytes |
| `Terminal.dfy`, `Vfs.dfy` | the scrolling line buffer of the terminal, and path resolution over a lazily loaded tree |

The specification of page tables is the walk of "32-Bit Paging", section 4.3 of volume 3A of the
Intel SDM.  Hardware is plain state: memory is a sequence of frames of 1024 words, the disk a
sequence of bytes, `context_switch` an assignment.  Pages and frames are counted by number
(address / 4096).  A call that halts the machine (`cli; hlt`) gives no result.  On a
`faulty` disk any transfer may fail, on others none does; a transfer that fails changes nothing.

Where a property holds only under a condition, the condition is a guard that a caller can
evaluate, and a lemma shows that it is needed: `SchedulerModel.StepConserves`,
`MultiLock.StepSafeIffAtomic`, `ReentrantLock.SafetyIff`, `ActivePaging.MapActiveIff`,
`FrameAllocator.AimedIff`,
`PageHeap.ReturnsIff`, `Ext2Inodes.ClampIff`, `Terminal.EffectiveIff`.  In five places the
code does less than one would ask of it: `sleep_tick` loses the context it wakes when the
ready queue is empty; `map_page` with a missing table clears the frame that is mapped at the
number of the new table's frame; `kmalloc_aligned_multi` returns a wrong range for a run that
ends at the last bit; `kpage_set_status` takes the end of a region for the first page of the next; a terminal read at the end of an unfinished line repeats that line.
`kfree` sets the bit of a page once more instead of clearing it, so a heap page is never handed
out again.  The kernel gives its first context the id 0, which a reentrant lock takes for "free", so
the condition of `ReentrantLock.SafetyIff` does not hold as long as that context takes such locks.

## Assumptions

- Page counts of regions are multiples of 8, regions do not overlap, and their bitmaps lie one behind the other.
- For paging: scrolls lie below the top 4 MB and are page aligned; runs with paging on map a page only where `ActivePaging.ReadyIff` says that this works; the tables of the heap's aligned range are there, and heap pages that are not taken are not mapped.
- For task directories: managed frames lie below the top 4 MB and do not include frame 0; entries of the active directory do not carry the bind mark; no scroll lies in slot 1023.
- For locks: steps are sequentially consistent; no `acquire_read` starts between decrement and store of a `release_read`; fewer than 2^32 contexts and nested acquires.
- For ext2: no holes in the file, at most 12 + block_size / 4 blocks, pairwise distinct and away from metadata; disks up to 4 GB; inode sizes that divide a sector; padding bits of bitmaps are set.
- For path resolution: a path is longer than the mount path it matches; `register_inode` is a parameter that lists a directory.

## Model

| member | source | states |
|---|---|---|
| `SchedulerModel.RunConserves` | src/common/scheduler.c:30-47 | Over every run of create, tick, yield, sleep and exit in which two contexts never sleep or exit, each live context is in exactly one of "active", "ready" and "sleeping", and the ready queue is never empty |
| `SchedulerModel.StepConserves` | src/kernel/sleep.c:10-37 | One event keeps that partition if and only if the guard `Keeps` holds (a wake-up, a sleep or an exit needs a nonempty ready queue) |
| `SchedulerModel.EmptyQueueLosesSleeper` | src/kernel/sleep.c:16-23 | A concrete state with an empty ready queue in which a tick drops the context it wakes |
| `SchedulerModel.TimerConserves` | src/kernel/hpet.c:88-105 | A tick keeps the partition exactly when it wakes nobody or the ready queue is not empty |
| `SchedulerModel.SleepConserves` | src/kernel/sleep.c:31-37 | `sleep_millis` keeps the partition exactly when the ready queue is not empty |
| `SchedulerModel.ExitConserves` | src/common/scheduler.c:49-49 | `terminate` removes its caller from the live contexts exactly when the ready queue is not empty |
| `SchedulerModel.StepKeepsDaemonsAwake` | src/common/scheduler.c:30-47 | A context that does not sleep or exit itself stays active or ready |
| `SchedulerModel.PartitionedMeans` | src/common/scheduler.c:30-47 | The partition read for one context: live means active, ready or sleeping, never two of them, and no list holds it twice |
| `SchedulerModel.TickMeasure` | src/kernel/sleep.c:13-28 | On a tick, alarm plus position of a sleeper falls by exactly one, unless it is the one woken, which had one tick left; the pass stops after one wake-up |
| `SchedulerModel.StepMeasure` | src/kernel/sleep.c:10-37 | A tick lowers the measure of a sleeper by one, a new sleeper raises it by one, nothing else changes it |
| `SchedulerModel.SleepTiming` | src/kernel/sleep.c:10-37 | Over every run a sleeper with alarm a and k sleepers ahead becomes ready after at least a and at most a + k + j ticks, j being the sleeps begun meanwhile |
| `SchedulerModel.SleepFor` | src/kernel/sleep.c:31-37 | A caller of `sleep_millis(m)` is ready again after at least m ticks and at most m + j, j being the sleeps begun meanwhile; 0 counts as 2^32 |
| `SchedulerModel.StepWait` | src/kernel/hpet.c:95-105 | A tick costs a ready context exactly one tick of its waiting time; a created context costs nothing |
| `SchedulerModel.ExactWait` | src/kernel/hpet.c:88-105 | Without voluntary yields a ready context becomes active after exactly the sum of the remaining budgets of the active context and of those ahead of it, and nobody overtakes it |
| `SchedulerModel.CreatedBudget` | src/common/context.c:22-29 | A created context goes to the tail with its priority as its budget (2^32 for 0) and no slices used; nobody else's budget changes |
| `SchedulerModel.CreatedWaits` | src/common/context.c:22-56 | It runs for the first time after exactly the budgets of the active context and of all that were ready |
| `SchedulerModel.ActiveTurn` | src/kernel/hpet.c:95-105 | Over every run without voluntary yields the active context stays active for all ticks of its budget but the last |
| `SchedulerModel.TurnEnds` | src/kernel/hpet.c:95-105 | With the last tick the head of the queue becomes active and the old context goes to the tail with its whole priority as next budget |
| `SchedulerHeap.Scheduler.constructor` | src/common/context.c:83-90 | The first context is active and both lists are empty |
| `SchedulerHeap.Scheduler.CreateContext` | src/common/context.c:49-56 | The relinking appends to the ready queue of the machine; the links stay an acyclic list that ends at `last_ctx` |
| `SchedulerHeap.Scheduler.Schedule` | src/common/scheduler.c:30-36 | The links implement `Schedule` of the machine |
| `SchedulerHeap.Scheduler.Preempt` | src/common/scheduler.c:38-47 | The links implement `Preempt` of the machine |
| `SchedulerHeap.Scheduler.Terminate` | src/common/scheduler.c:49-49 | The links implement the exit of the machine |
| `SchedulerHeap.Scheduler.SleepMillis` | src/kernel/sleep.c:31-37 | The links implement the sleep step, and are valid afterwards if and only if `next_ctx` was not null |
| `SchedulerHeap.Scheduler.CountDown` | src/kernel/sleep.c:11-15 | The loop lowers the alarms up to and including the first that reaches zero, and no others |
| `SchedulerHeap.Scheduler.CountDownList` | src/kernel/sleep.c:11-15 | Alarms and the place where the loop stops are those of the tick of the machine |
| `SchedulerHeap.Scheduler.Wake` | src/kernel/sleep.c:16-23 | The unlinking takes exactly that sleeper out of the list and puts it at the tail of a nonempty ready queue |
| `SchedulerHeap.Scheduler.SleepTick` | src/kernel/sleep.c:10-29 | The pass over the links is the tick of the machine |
| `SchedulerHeap.Scheduler.HandleTimer` | src/kernel/hpet.c:88-105 | Slice accounting and preemption are the timer step of the machine |
| `SchedulerHeap.ShapeWake` | src/kernel/sleep.c:16-23 | The pointer writes of a wake-up keep both lists well linked |
| `SchedulerHeap.ShapePreempt` | src/common/scheduler.c:41-44 | The pointer writes of `preempt` keep both lists well linked |
| `MultiLock.Safety` | src/common/sync.c:69-123 | Over all interleavings of any number of contexts: an active reader implies READ, a writer is alone, and `waiting_readers` is the number of pending, waiting and active readers |
| `MultiLock.StepInv` | src/common/sync.c:69-123 | Every step keeps the invariant, provided no `acquire_read` starts between the decrement and the store of `release_read` |
| `MultiLock.RunInv` | src/common/sync.c:69-123 | So does every run |
| `MultiLock.OverlapBreaks` | src/common/sync.c:91-95 | From any state of the invariant, an `acquire_read` inside another release leads to a reader that holds a lock marked free |
| `MultiLock.StepSafeIffAtomic` | src/common/sync.c:91-95 | A step keeps exclusion for every atomic continuation if and only if it is itself atomic in that sense |
| `MultiLock.HandOff` | src/common/sync.c:80-89 | Once the lock is given to the readers it stays theirs until a waiting context has taken its own step |
| `MultiLock.SignalWakes` | src/common/sync.c:106-119 | A context that waits when a writer signals becomes a reader with its next step |
| `MultiLock.WriteCycle` | src/common/sync.c:97-123 | A free lock is granted to a writer in one step, and the release restores the state |
| `MultiLock.ReadFree` | src/common/sync.c:69-78 | A free lock is granted to a reader: increment, load and exchange leave it READ, with one more counted |
| `MultiLock.ReadJoins` | src/common/sync.c:69-78 | A lock held by readers is granted to one more |
| `MultiLock.ReadReleased` | src/common/sync.c:91-95 | The release of the last reader frees the lock, that of another one leaves it READ |
| `MultiLock.NoLeak` | src/common/sync.c:69-123 | Over all interleavings, when every context is idle again the lock is free and nobody is counted |
| `MultiLock.Refused` | src/common/sync.c:69-104 | A failed test changes nothing but where the context tries again |
| `MultiLock.WaitBlocks` | src/common/sync.c:80-89 | A context in `wait` stays there through every run in which nobody signals and no reader takes a free lock |
| `MultiLock.EntersWait` | src/common/sync.c:80-86 | `wait` counts the context only while the lock is not READ |
| `ReentrantLock.SafetyIff` | src/common/sync.c:34-59 | Over all runs owner, count and outstanding acquires agree and nobody shares the lock, if and only if ids are nonzero and unique |
| `ReentrantLock.StepInv` | src/common/sync.c:34-59 | Every acquire, retry and release keeps the invariant |
| `ReentrantLock.ZeroIdBreaks` | src/common/sync.c:36-40 | A context with id 0 breaks the lock |
| `ReentrantLock.SharedIdBreaks` | src/common/sync.c:36-40 | Two contexts with one id break the lock |
| `ReentrantLock.NoLeak` | src/common/sync.c:34-59 | Over all runs, once every acquire has been released the lock is free, and the next context that tries gets it |
| `ReentrantLock.HeldLock` | src/common/sync.c:36-47 | While the lock is held its owner gets one deeper, and everybody else spins without changing it |
| `Console.Console.PutChar` | src/common/text.c:33-52 | The cursor moves on, wraps and stays on the screen, the character is printed at the old position, and owner and count of the lock are back at their entry values in spite of the nested call |
| `Console.Console.Acquire` | src/common/sync.c:34-50 | A free lock or one held by the caller is held once more |
| `Console.Console.Release` | src/common/sync.c:52-59 | One hold less, and free after the last |
| `FrameAllocator.AllocFresh` | src/common/memory.c:38-60 | `kpage_alloc` hands out a managed page that was not in use, marks it, and changes no other page |
| `FrameAllocator.AllocFails` | src/common/memory.c:38-60 | It fails if and only if every bitmap byte has its top bit set |
| `FrameAllocator.FailsEarly` | src/common/memory.c:44-45 | A concrete bitmap with free pages for which it fails |
| `FrameAllocator.SetStatusFacts` | src/common/memory.c:62-80 | `kpage_set_status` changes the status of exactly one page, its target: the page of the address, or for the end of a region the first page of the next bitmap; nothing if there is no target |
| `FrameAllocator.AimedIff` | src/common/memory.c:65-69 | It changes the page of the address if that is managed, and nothing otherwise, for both statuses, if and only if its target is that page |
| `FrameAllocator.InsideAimed` | src/common/memory.c:65-69 | That is so for every address that is not the end of a region |
| `FrameAllocator.EndFreesNeighbour` | src/common/memory.c:65-72 | A concrete call at the end of a region after which an owned page is handed out again |
| `FrameAllocator.Ownership` | src/common/memory.c:38-80 | Over any run of both calls in which freeing calls hit the page they name, a page that is owned is never handed out again |
| `FrameAllocator.AllocInOrder` | src/common/memory.c:94-102 | From zeroed bitmaps, the n-th allocation gives the n-th page in region order, and the one after the last fails |
| `FrameAllocator.EveryPageOnce` | src/common/memory.c:38-60 | No page has two numbers in that order |
| `FrameAllocator.EveryPageNumbered` | src/common/memory.c:38-60 | Every managed page has a number in that order |
| `FrameBitmaps.ShiftTest` | src/common/memory.c:44-45 | The shift test on a byte is zero if and only if the page and all later pages of the byte are free |
| `FrameBitmaps.ScanRegion` | src/common/memory.c:40-55 | The inner loop finds the first page of a region that passes the test |
| `FrameBitmaps.FindPage` | src/common/memory.c:38-56 | Both loops find the region and page of the specification |
| `FrameBitmaps.AllocPage` | src/common/memory.c:38-60 | The byte updates implement allocation on marks, and the address returned is that of the page |
| `FrameBitmaps.SetPageStatus` | src/common/memory.c:62-80 | For every address the byte updates implement the status change on marks, the byte behind a bitmap included |
| `FrameBitmaps.WriteStatus` | src/common/memory.c:68-74 | Byte and bit are those of the target |
| `FrameBitmaps.StatusInBounds` | src/common/memory.c:65-69 | The byte that `kpage_set_status` touches is inside the bitmap if and only if the address is inside the region, although the test lets the end in |
| `FrameBitmaps.PageAllocator.constructor` | src/common/memory.c:94-102 | Every page is free; for page-aligned disjoint areas with counts that are multiples of 8 the allocator is valid and manages exactly their pages |
| `FrameBitmaps.PageAllocator.KpageAlloc` | src/common/memory.c:38-60 | The allocator object takes the allocation step and stays valid |
| `FrameBitmaps.PageAllocator.KpageSetStatus` | src/common/memory.c:62-80 | The allocator object takes the status step and stays valid |
| `PageHeap.FirstFitFacts` | src/common/alloc.c:146-163 | `kmalloc_aligned` takes the first page that is free with all later pages of its word, and fails only if there is none |
| `PageHeap.SplitIndex` | src/common/alloc.c:184-185 | `i_old` and `j_old`, computed with wrap-around, name the start of the run |
| `PageHeap.ReturnsIff` | src/common/alloc.c:182-192 | `kmalloc_aligned_multi` returns the lowest run of cnt clear bits if and only if that run does not end at the last bit of the bitmap |
| `PageHeap.OverlapIff` | src/common/alloc.c:121-197 | In any mix of the three calls, two page ranges that are handed out overlap if and only if both calls found their run at the last bit |
| `PageHeap.NeverOverlap` | src/common/alloc.c:121-197 | So they never overlap if one of the two runs ends before the last bit |
| `PageHeap.SamePageTwice` | src/common/alloc.c:182-192 | A concrete bitmap for which two calls return the same page, past the bitmap |
| `PageBitmap.FindFit` | src/common/alloc.c:146-163 | The scan of the words finds the page of the specification |
| `PageBitmap.ScanRun` | src/common/alloc.c:165-181 | The indices at the end of the scan name the range of `Returns`: the lowest run of cnt clear bits, or for a run at the last bit one that starts 32 pages later; it finds nothing only if there is no run |
| `PageBitmap.MarkRun` | src/common/alloc.c:186-190 | The marking loop sets exactly the bits of the run |
| `PageBitmap.TakeFirst` | src/common/alloc.c:146-163 | One page is taken and exactly its bit set |
| `PageBitmap.TakeRun` | src/common/alloc.c:165-197 | That range is returned and exactly its bits are set, in the bitmap and, for a run at the last bit, in the word behind it; nothing if there is no run |
| `PageBitmap.AlignedHeap.constructor` | src/common/alloc.c:39-43 | All pages of the aligned range are free |
| `PageBitmap.AlignedHeap.KmallocAligned` | src/common/alloc.c:146-163 | The address returned is that of the page taken |
| `PageBitmap.AlignedHeap.KmallocAlignedMulti` | src/common/alloc.c:165-197 | The address returned is that of that range, all of it marked and nothing else |
| `PageBitmap.AlignedHeap.KfreePage` | src/common/alloc.c:121-131 | The pointer is recognised exactly when it is in the aligned range, and its bit is set |
| `PageTables.CreateEntryBits` | src/common/paging.c:22-52 | The composition of the bit setters is the entry with that frame and those flags |
| `PageTables.SetAddr` | src/common/paging.c:36-38 | The frame is replaced and the flags are kept |
| `PageTables.PutWalk` | src/common/paging.c:79-88 | Writing one entry of one table changes the walk at that page only |
| `PageTables.InsertRefines` | src/common/paging.c:60-73 | A fresh empty table in a free slot changes no mapping and keeps all tables distinct and in use |
| `PageTables.MapPageRefines` | src/common/paging.c:60-104 | Mapping a page changes the page map at that page only, keeps other frames, slot 1023 and present entries, takes frames for tables only, and fails only when a table is missing and no frame is left |
| `PageTables.UnmapPageRefines` | src/common/paging.c:106-115 | Unmapping a page changes the page map at that page only |
| `PageTables.MapPageRights` | src/common/paging.c:60-104 | Mapping a page keeps the low bits of an entry that was present; a new one is present and writeable, open to user code only if asked for; other pages keep their entries, and new tables have the low bits 7 |
| `Paging.Loopback` | src/common/paging.c:8-9 | If slot 1023 maps the directory, the loopback addresses walk to the directory and to table i |
| `Paging.ZeroThrough` | src/common/paging.c:67-69 | The zeroing loop clears the frame that its virtual page is mapped to |
| `Paging.MapPageInactive` | src/common/paging.c:90-96 | The code on physical addresses computes the specified memory and allocator |
| `Paging.MapPageRangeInactive` | src/common/paging.c:117-123 | The loop maps the pages of a scroll one after the other |
| `Paging.MapAllRefines` | src/common/paging.c:56-96 | Mapping a list of pages makes the walk "the last entry for a page wins", over the old map |
| `Paging.MapAllFails` | src/common/paging.c:66-66 | The machine halts only where a table is missing and no frame is left |
| `Paging.LastIsCover` | src/common/paging.c:117-123 | Page by page and scroll by scroll, the last entry that covers a page is the same |
| `Paging.CoverMeans` | src/common/paging.c:117-123 | The frame is as far into the last covering scroll as the page; none exactly if no scroll covers the page |
| `Paging.MapAllClosed` | src/common/paging.c:90-96 | Pages mapped by `map_page_inactive` are closed to user code |
| `Paging.MapScrolls` | src/common/paging.c:159-164 | The loop over the scrolls maps all their pages in order |
| `Paging.InitPaging` | src/common/paging.c:154-171 | The walk equals "the last covering scroll wins"; tables are pairwise distinct, distinct from the directory, were free and are in use; nothing else is taken; the directory maps itself; every page is closed to user code (low bits 3, tables 7); it halts exactly when frames run out |
| `ActivePaging.MapPageActive` | src/common/paging.c:98-104 | The code through the loopback addresses computes `MapActive`, page faults included |
| `ActivePaging.ZeroFrom` | src/common/paging.c:67-69 | The zeroing loop clears the frame behind its page, or faults because that frame is one of those that map the page |
| `ActivePaging.MapActiveIff` | src/common/paging.c:66-71 | With a missing table, `map_page` maps that page and nothing else if and only if the page with the number of the new frame is mapped to that frame, or to an empty one while the new frame is empty; if that page is not mapped it faults |
| `ActivePaging.ReadyIff` | src/common/paging.c:98-104 | In every state, `map_page` does what it should if and only if the table is there, no frame is left, or the new frame meets that condition |
| `ActivePaging.WrongFrameCleared` | src/common/paging.c:66-71 | A concrete state in which `map_page` clears a frame that holds data |
| `ActivePaging.MapReady` | src/common/paging.c:98-104 | Under that condition the result is the specified one |
| `ActivePaging.UnmapPageActive` | src/common/paging.c:106-115 | The code through the loopback addresses computes `UnmapPage` |
| `ActivePaging.GetPageMapping` | src/common/paging.c:125-140 | The address of the frame that the walk gives, and 0 if there is none |
| `ActivePaging.ReachableRecursive` | src/common/paging.c:165-166 | In every state reached from `init_paging` by mapping, unmapping, allocation, release and stores, the loopback addresses reach the directory and its tables |
| `ActivePaging.ReachableStep` | src/common/paging.c:98-140 | In every such state a mapping or unmapping changes exactly one page of the page map, and the other steps none |
| `ActivePaging.RunKeeps` | src/common/paging.c:98-115 | The invariant behind both |
| `KernelMemory.KmallocPage` | src/common/alloc.c:199-224 | A heap page that was not mapped goes to a frame that was free and is no paging structure; nothing else changes; it halts only when pages or frames are exhausted, and fails exactly on frame 0, losing the heap page |
| `KernelMemory.MapRangeThere` | src/common/paging.c:369-371 | The loop maps consecutive pages to consecutive frames and changes nothing else |
| `KernelMemory.MapPhysObj` | src/common/paging.c:363-373 | The walk of result + k gives obj + k for every k below size; the pages were unused and unmapped, and are as many as hold a byte of the object; no other mapping changes; no result only if there is no run of pages |
| `KernelMemory.ObjectShown` | src/common/paging.c:363-373 | Consecutive frames behind the offset address show the object byte by byte |
| `UserHeap.GrowTo` | src/kernel/syscall.c:37-44 | The loop adds, in order, exactly the pages whose first byte is at or past the old break and below the new one |
| `UserHeap.GrowRefines` | src/kernel/syscall.c:37-44 | Each page gets its own frame, free before, no paging structure; other mappings are kept |
| `UserHeap.SyscallSbrk` | src/kernel/syscall.c:32-55 | Old break returned, break moved, exactly the pages that start between old and new break mapped to fresh distinct frames, all others kept; so every byte between old and new break is mapped if the byte below the old break was; it halts exactly when frames run out on the way |
| `UserHeap.SbrkBytes` | src/kernel/syscall.c:32-55 | Bytes below the old break keep their frames, and the added bytes are mapped if the byte below the old break was |
| `UserHeap.RunBacked` | src/kernel/syscall.c:32-55 | Over any run of such calls, if every byte from the start of the heap to the break was mapped then every byte up to the new break is, and old bytes keep their frame |
| `UserHeap.GrowFails` | src/kernel/syscall.c:37-44 | The loop halts the machine if and only if at one of the new pages no frame is left, or only one that would be needed for the table |
| `UserHeap.TablesReady` | src/kernel/syscall.c:42-43 | The condition for `map_page` holds whenever the tables of the new pages are there |
| `TaskDirectory.CreateTaskDirectory` | src/common/paging.c:192-268 | The last scroll that lists a page decides its walk; otherwise page 0xFF8FF leads to the frame that holds the image and 0x1FF of a user task to a second new frame; other lower pages are absent, other upper slots are those of the active directory, slot 1023 maps the directory, no mark is left, its tables are distinct and in use; the active page map and frames in use are unchanged except that the page with the number of the directory's frame is unmapped; it halts only when pages or frames are exhausted |
| `TaskDirectory.PlannedPage` | src/common/paging.c:237-262 | A walk of the new directory sends every listed page to the frame of its last entry, with low bits 7 |
| `TaskDirectory.UnplannedPage` | src/common/paging.c:198-200 | Lower-half pages that are not listed are not mapped |
| `TaskDirectory.TaskMappedFacts` | src/common/paging.c:192-268 | Page by page: the last scroll that lists a page decides it; otherwise 0xFF8FF goes to the kernel stack and, for a user task, 0x1FF to the user stack; other lower pages are absent |
| `TaskDirectory.StacksMapped` | src/common/paging.c:211-235 | Unless a scroll lists it, page 0xFF8FF leads to the frame with the six words of the image, and 0x1FF to the other new frame of a user task and to nothing otherwise |
| `TaskDirectory.FillDirectory` | src/common/paging.c:198-209 | The first loops leave the lower half empty, copy the upper half and map the directory itself |
| `TaskDirectory.AddTable` | src/common/paging.c:246-256 | A slot without a table gets a page and a frame of its own, an entry with the mark, and a zeroed table |
| `TaskDirectory.DrawPage` | src/common/paging.c:237-262 | One list entry is entered in the draft and the draft stays well formed |
| `TaskDirectory.BindEntry` | src/common/paging.c:175-186 | A marked entry gets the frame of its table instead of the page, loses the mark, and the page is unmapped |
| `TaskDirectory.BindAll` | src/common/paging.c:173-187 | After the loop every slot with a table holds the table's frame, and all table pages are given back |
| `TaskDirectory.FinalDirectory` | src/common/paging.c:264-267 | A bound draft is the directory described above |
| `TaskDirectory.MakeStack` | src/common/paging.c:211-222 | The stack's frame is filled through a page that is given back |
| `TaskDirectory.Release` | src/common/scroll.c:5-10 | The directory's page is unmapped, and so is the page with the number of its frame |
| `Kernel.Memory.MapPage` | src/common/paging.c:98-104 | In place: exactly that page of the page map changes, and a new entry is open to user code |
| `Kernel.Memory.UnmapPage` | src/common/paging.c:106-115 | In place: exactly that page of the page map changes |
| `Kernel.Memory.GetPageMapping` | src/common/paging.c:125-140 | The frame address, or 0 |
| `Kernel.Memory.KmallocPage` | src/common/alloc.c:199-224 | In place: as above |
| `Kernel.Memory.MapPhysObj` | src/common/paging.c:363-373 | In place: as above |
| `Kernel.Memory.CreateTaskDirectory` | src/common/paging.c:192-268 | In place: as above |
| `Ext2File.FindBlock` | src/common/ext2.c:182-214 | Direct or singly indirect, the address found is that of the block map |
| `Ext2File.ReadData` | src/common/ext2.c:174-242 | A read gives that block or an error |
| `Ext2File.WriteData` | src/common/ext2.c:174-242 | A write replaces that block or changes nothing |
| `Ext2File.CountIs` | src/common/ext2.c:386-389 | The wrapping arithmetic gives what is left of the range or of the block, whichever is less |
| `Ext2File.ReadRange` | src/common/ext2.c:369-410 | The loop returns the bytes of the range, or a prefix of them after an error |
| `Ext2File.WriteRange` | src/common/ext2.c:369-410 | The loop makes the contents old prefix + data + old suffix, keeps the block map and all other blocks, and after an error has done so for a prefix of the data |
| `Ext2File.FlatPut` | src/common/ext2.c:393-397 | Writing part of a block changes that part of the flat contents and nothing else |
| `Ext2File.ReadBack` | src/common/ext2.c:359-423 | A read of any range after a write gives the data where it was written and the old bytes elsewhere |
| `Ext2File.OtherFile` | src/common/ext2.c:359-423 | A file none of whose blocks belongs to the written one keeps its map and contents |
| `Ext2Inodes.ReadDescriptor` | src/common/ext2.c:10-42 | The bytes of the group's descriptor |
| `Ext2Inodes.FindInode` | src/common/ext2.c:47-71 | Sector and offset name the slot of the inode |
| `Ext2Inodes.ReadInode` | src/common/ext2.c:44-89 | The 128 bytes of the inode, or an error |
| `Ext2Inodes.WriteInode` | src/common/ext2.c:44-89 | Exactly the 128 bytes of the inode are replaced, or nothing |
| `Ext2Inodes.SlotsApart` | src/common/ext2.c:47-71 | Distinct inodes occupy disjoint bytes |
| `Ext2Inodes.InodeRoundTrip` | src/common/ext2.c:44-89 | A write then a read gives the inode back and leaves every other inode alone |
| `Ext2Inodes.ClampIff` | src/common/ext2.c:364-366 | The range is cut at the end of the file if and only if offset + len does not wrap |
| `Ext2Inodes.Ext2Read` | src/common/ext2.c:359-423 | The bytes of the range that are inside the file |
| `Ext2Inodes.Ext2Write` | src/common/ext2.c:359-423 | Contents are old prefix + data + old suffix, all of the range if no transfer failed; block map, size, all other inodes and all bytes that belong neither to the file nor to its inode are kept; if the write reached the end of the file the inode changes in `sector_count` only, and is on disk if no transfer failed |
| `Ext2Inodes.OtherFileKept` | src/common/ext2.c:359-423 | After such a write any other file keeps its map and contents |
| `Ext2Inodes.OpenFile.Read` | src/common/ext2.c:359-423 | As above on an open file |
| `Ext2Inodes.OpenFile.Write` | src/common/ext2.c:359-423 | As above on an open file, which stays valid for further transfers |
| `Ext2Alloc.ScanBitmap` | src/common/ext2.c:133-139 | The loops find the first clear bit, or there is none |
| `Ext2Alloc.MarkBit` | src/common/ext2.c:140-140 | Exactly that bit is set |
| `Ext2Alloc.AllocObject` | src/common/ext2.c:99-172 | The first clear bit of the group is set and no other changes; the id decodes to it: a block id has id / per = group and bit id % per, an inode id has (id - 1) / per and (id - 1) % per, the group and slot of `inode_transfer`; 0 exactly on a failed transfer, a zero count or a full bitmap |
| `Ext2Records.InodeFields` | include/muse/ext2.h:66-88 | The offsets used for size, direct and indirect blocks are those of the fields of the struct |
| `Ext2Records.ResizedRecord` | src/common/ext2.c:413-420 | A write that reaches the end sets `size_lo` and `sector_count` and keeps every other field |
| `Ext2Records.DescriptorFields` | include/muse/ext2.h:54-64 | The offsets used for bitmaps, inode table and free counts are those of the fields of the struct |
| `Ext2Records.SlotIs` | src/common/ext2.c:47-71 | Inode id stands at inode_table * block_size + (id - 1) % inodes_per_group * inode_size of its group |
| `Ext2Alloc.NeverShared` | src/common/ext2.c:99-172 | Over any run two allocations give different ids, each free before |
| `Ext2Alloc.NeverZero` | src/common/ext2.c:156-164 | No object has the id 0, if block 0 is marked |
| `Terminal.Stdin.constructor` | src/kernel/term.c:124-130 | Nothing typed, an empty buffer |
| `Terminal.Stdin.Putc` | src/kernel/term.c:94-115 | After every character the lines in order equal the typed stream from `bfr_offset` on; the next line becomes active exactly after a newline or a 64th character, and only when that finishes line 7 the first line leaves, raising `bfr_offset` by its length |
| `Terminal.FindLine` | src/kernel/term.c:31-43 | The loop finds the line of an offset |
| `Terminal.CopyLines` | src/kernel/term.c:53-75 | The loop copies the range, or as much of it as precedes an unfinished line |
| `Terminal.Stdin.Read` | src/kernel/term.c:31-75 | A range that was typed comes back exactly; otherwise the read waits with exactly its part in finished lines |
| `Terminal.EffectiveIff` | src/kernel/term.c:33-48 | A read starts where it should if and only if its offset has been typed, has scrolled out, or the active line is empty |
| `Terminal.StaleRead` | src/kernel/term.c:33-48 | A concrete read at the end of the typed text that starts at the beginning of the active line |
| `Vfs.SplitJoin` | src/common/vfs.c:49-53 | Splitting at slashes is the inverse of joining |
| `Vfs.FindMount` | src/common/vfs.c:21-43 | The newest mount whose path is a prefix |
| `Vfs.MatchName` | src/common/vfs.c:57-66 | The comparison decides equality of name and component |
| `Vfs.Lookup` | src/common/vfs.c:54-77 | The first entry with that name, and none exactly if no entry has it |
| `Vfs.FindChild` | src/common/vfs.c:54-77 | The first child with that name |
| `Vfs.ResolveIff` | src/common/vfs.c:47-88 | A path leads to an inode if and only if there is a chain of directories in which each next inode is that of the first entry with the component's name |
| `Vfs.ChainResolves` | src/common/vfs.c:47-88 | A path whose components name a chain of entries is found |
| `Vfs.OpenFrom` | src/common/vfs.c:47-88 | The loop arrives at the inode that the fully loaded tree gives, or fails exactly if that does; lazy loading keeps all nodes |
| `Vfs.RegisterSound` | src/common/vfs.c:71-73 | Loading a node keeps the loaded part in agreement with the directories |
| `Vfs.FileSystem.Mount` | src/common/vfs.c:7-18 | The new mount comes first |
| `Vfs.FileSystem.Open` | src/common/vfs.c:20-89 | The node found is that of the inode at the end of the chain of first entries that the components of the path name under the newest prefix mount, and none exactly if there is no such chain, whatever has been loaded |
| `Vfs.OpenAgain` | src/common/vfs.c:20-89 | A path opened again gives the same node |

## Left out

- SchedulerHeap.Scheduler.SleepTick: requires `last_ctx` to be set when a sleeper wakes, because the code writes through it.
- SchedulerHeap.Scheduler.Wake: the same.
- SchedulerHeap.Scheduler.HandleTimer: the same.
- Console.Console.Acquire: covers a lock that is free or held by the caller; waiting for another holder is in `ReentrantLock`.
- Console.Console.PutChar: the same.
- FrameBitmaps.SetPageStatus: the byte behind the last bitmap, which a call at the end of the last region changes, is not modelled.
- FrameBitmaps.PageAllocator.KpageSetStatus: the same.
- PageBitmap.TakeRun: covers requests for at least one page.
- PageBitmap.AlignedHeap.KmallocAlignedMulti: the same.
- ActivePaging.MapReady: is `map_page` where `ActivePaging.ReadyIff` says that it works; `ActivePaging.MapPageActive` covers all states.
- ActivePaging.RunKeeps: its runs map pages only where that is so, and free no paging structure; so do those of `ReachableRecursive` and `ReachableStep`.
- ActivePaging.ReachableRecursive: see `RunKeeps`.
- ActivePaging.ReachableStep: see `RunKeeps`.
- KernelMemory.MapPhysObj: excludes a run that ends at the last bit, for which `PageHeap.ReturnsIff` shows that the range is outside the heap.
- Kernel.Memory.MapPhysObj: the same.
- Kernel.Memory.MapPage: excludes pages of the heap that are not taken, which have to stay unmapped.
- Kernel.Memory.KmallocPage: requires the heap's tables to be present.
- UserHeap.GrowTo: maps new pages only where `ActivePaging.ReadyIff` says that this works.
- KernelMemory.KmallocPage: requires the heap's tables to be present, so that no table is inserted on the way.
- UserHeap.SyscallSbrk: covers increments that are not negative; the shrinking loop marks frames as used instead of free.
- TaskDirectory.CreateTaskDirectory: takes the six words that the unaligned stores leave on the stack as a parameter.
- Terminal.Stdin.Read: stops where the code would wait, and excludes offsets further past the typed text than the active line is long, where the code copies from outside the line.
- Terminal.Stdin.Putc: counts `bfr_offset` without 32-bit wrap-around.
- Ext2File.FindBlock: covers files without holes; for a hole the code allocates a block, on reads too.
- Ext2File.ReadData: the same.
- Ext2File.WriteData: the same.
- Ext2File.ReadRange: the same; an offset in the block after the last one is such a hole.
- Ext2File.WriteRange: the same.
- Ext2Inodes.Ext2Read: the same, and no wrap of offset + len, where `Ext2Inodes.ClampIff` shows that the range is not cut.
- Ext2Inodes.Ext2Write: the same.
- Ext2Inodes.OpenFile.Read: the same.
- Ext2Inodes.OpenFile.Write: the same.
- Ext2Alloc.AllocObject: computes ids without 32-bit wrap-around; the free counts on disk are not updated by the code either.
- Vfs.FileSystem.Open: names contain no NUL character, and the path is longer than the mount path, behind whose end the code would read otherwise.
- `create_kernel_directory`: the same construction with the halves exchanged and no user stack.
- The chunk heap (`kmalloc`, `split_chunk`, the chunk branch of `kfree`) and the C library's heap: tiers and free bits are not kept consistently by the code.
- `free_lower_half`: it visits half of each table and releases tables by virtual address.
- `insert_scroll` and ELF loading.
- ext2 directories, growing files, writes of group descriptors and `vfs_create`.
- The blocking part of terminal reads, which depends on one scroll per wake-up.
- `lock_simple` and the scheduler lock's counter: easy, or part of the atomicity of steps.
- TLB flushes, accessed and dirty bits, memory ordering, interrupts and assembly stubs.
- Devices: ATA, PCI, ACPI, APIC, HPET registers, PS/2, VGA, fonts and logging.
- The C library's strings, standard I/O and system call wrappers.
