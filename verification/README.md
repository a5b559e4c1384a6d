# A verified model of the alura-os kernel core

alura-os is a small x86 kernel. This project models its stateful core in Dafny and proves what the
code keeps over whole runs. Every operation is written twice: as a function on values, about which
the theorems are proved, and as a method that edits fields, arrays or maps in place the way the
source does, proved equal to the function. `dafny verify dfyconfig.toml` checks everything.

- **Kernel heap** (`HeapModel`, `HeapSpec`, `HeapCursor`, `KernelHeap`): the circular, address-ordered free list in
  units of 8 bytes, next-fit with tail splitting, two-sided coalescing and growth in the middle of a
  search.
- **Scheduler and process lifecycle** (`Lists`, `SchedSpec`, `SchedInv`, `SchedLife`, `SchedRuns`,
  `SchedLaws`, `SchedOversleep`, `SchedWitness`, `TaskManager`, `Keyboard`): four ready queues, blocked and zombie queue, demotion, boost, block and
  wake, fork, exit, waitpid, kill and the keyboard. Handlers run with interrupts off, so one interrupt
  or system call is one step, from its entry to the switch on its way out.
- **Physical pages** (`Bitmap`): the bit words, the hint, and the marking at boot.
- **Address spaces** (`PageTables`, `Frames`, `KernelPages`, `SpaceRuns`, `MemoryPaging`, `Windows`, `Fork`): page
  directories and tables as words in physical memory, the walk of section 4.3 of the Intel SDM volume
  3A with the rights of section 4.6, frame ownership, creation, teardown, fork by copy, and the
  windows through which the kernel reaches tables.
- **User memory** (`HeapGrowth`, `Sbrk`, `UserMemory`, `UserSpaces`, `Signals`, `Elf`): the heap break, copies across
  address spaces, signal frames, and the ELF loader.
- **Files and handles** (`FsModel`, `FsPaths`, `FsLaws`, `FileSystem`, `Paths`, `NodeCache`, `Handles`): ramfs nodes
  with link counts, VFS nodes with reference counts, deletion deferred to the last close, path
  resolution, the node cache, and resource handles.

## What does not hold of the code

Where a natural property fails, the code is modelled as it is and the exact condition is proved.

- `sbrk` ignores the result of `memory_paging_map_current`. If the last new page needs a page table and
  there is one frame less than all pages and tables need, sbrk reports success for a break over an
  unmapped page and one frame is lost (`Sbrk.GrowVerdict`, `Sbrk.HeapCanLosePage`); short by one frame at
  an earlier page it fails cleanly but still loses that frame (`Sbrk.UserHeap.GrowBy`).
- The kernel heap's growth ignores the result of `memory_paging_map` in the same way: if the last page of a
  growth needs a table and exactly one frame is missing, malloc hands out a block over an unmapped page
  (`HeapSpec.MallocIntact`, `HeapSpec.HeapCanOverrun`). The code would fault there; the model goes on.
- `malloc` can return NULL although its own first growth produced a large enough block, and a failed
  growth keeps the frames it took (`HeapSpec.NullBesideFitIff`, `HeapSpec.NullBesideFit`,
  `KernelHeap.Heap.MapPages`).
- The heap's range check wraps for requests that end beyond 4 GiB (`HeapSpec.RangeCheckExact`).
- A blocked init is not woken for a zombie it inherits (`SchedOversleep.InitOversleepsIff`,
  `SchedWitness.InitCanOversleep`).
- The pages locked for the page bitmap miss its last word for some memory sizes (`Bitmap.BitmapLockExact`),
  and memory regions that end at 4 GB or above are not counted to their end (`Bitmap.CountsExactly`).
- `ramfs_create` in a full directory leaves a node behind (`FsModel.LosesNodeExactly`, `FsModel.CanLoseNode`).
- `vfs_resolve` keeps a reference on the last directory when a name is missing (`FsPaths.ResolveOk`).
- `memory_paging_virtual_to_physical` keeps its bounce slot when the page is not mapped
  (`Windows.Machine.Translate`).
- A second signal delivered inside a handler overwrites the saved frame of the first (`Signals.OneFrameExact`,
  `Signals.NestedLoses`).
- The range test of a delivery passes for any stack pointer in the last page of the address space, where its
  rounded end is 0 (`Signals.StackTestExact`).
- A delivery's test looks for mapped pages and not for the user bit: with a stack pointer above the kernel
  base it can pass, and then not only user pages are written (`Signals.WritesUserExact`).
- An exec that runs out of frames gives nothing back: its load keeps every page before the one that failed,
  and the frames of the new directory are gone unless not even the directory could be made (`Elf.Load`,
  `Elf.FailedExecLeaks`; the early returns of src/elf_executable.c:83-94).
- A page mapped in the kernel's directory is not seen by a directory that was made before the kernel had the
  table for it (`KernelPages.SeenIffTableAtBirth`, `KernelPages.KernelPageCanBeMissed`).
- The state test in `task_manager_pick_task` is true of every state; the partition invariant makes it
  harmless (`TaskManager.Manager.PickTask`, `SchedRuns.RunsAreSafe`).

## Modelling decisions

- Linked lists of the scheduler are explicit: task records and `next` links are maps from addresses, and
  address 0 is NULL. The doubly linked child lists and the two-level list of the node cache are
  sequences that the methods rebuild.
- Physical memory is a sequence of frames of 1024 words; words are natural numbers and the flag bits are
  read and written arithmetically. Frame contents for byte copies (`UserMemory`, `Elf`, `Signals`) are
  4096 bytes. `MemoryPaging.Paging` reaches a frame by its number; `Windows.Machine` proves that access
  through a bounce page or the self-map does the same.
- `FileSystem.Tree` keeps a map of cached nodes beside the bucket lists of `NodeCache.Cache`, and its
  methods query, fill and clear those; `Valid` says that both hold the same nodes. The bucket that a query
  needs exists because the directory in which a name is looked up is itself cached
  (`FileSystem.BucketExists`). Likewise `TaskManager.Manager` keeps the waiting scancodes in a sequence, which `Keyboard.Ring`
  implements, and `MemoryPaging.Paging` allocates with `Bitmap.NextFree`, which
  `Bitmap.MemoryBitmap.Allocate` implements.
- The invariants hold of a first state: `HeapSpec.InitInv`, `SchedRuns.BootInv`, `FsModel.BareInv`,
  `Sbrk.HeapCanLosePage` (a kernel directory and one address space) and the constructors of
  `Handles.HandleTable`, `NodeCache.Cache` and `Keyboard.Ring`.
- Fields marked `ghost`, and `owner`, `held`, `lost`, `closed` and `serial`, are bookkeeping of the proofs.
- Addresses of newly allocated records (tasks, ramfs nodes, resources), the memory map, the modules, the
  file contents and the parsed program headers are parameters.
- `Elf` maps its pages through `MemoryPaging.Paging.MapFreshPage` and writes them through
  `UserMemory.Space`; `UserSpaces.Coupled` ties the two: the space's pages are the walks of the directory.
  The words of tables live in the one and the bytes of user pages in the other.
- The heap's page tables are the first so many slots from its start (`HeapSpec.Pool`).

## Model

| member | source | states |
|---|---|---|
| HeapModel.InsertWf | src/kernel_heap.c:91-123 | inserting a block in address order, merged with the neighbours it touches, leaves a sorted free list in which no two blocks touch |
| HeapModel.InsertCovers | src/kernel_heap.c:91-123 | the free units afterwards are exactly those of before and those of the block |
| HeapModel.TakeWf | src/kernel_heap.c:52-63 | cutting units off the tail of a block, or unlinking it, leaves a well-formed list |
| HeapModel.TakeCovers | src/kernel_heap.c:52-63 | exactly the units of the cut block stop being free |
| HeapModel.Canonical | src/kernel_heap.c:91-123 | a well-formed free list is determined by the set of free units alone |
| HeapModel.FreeUndoesMalloc | src/kernel_heap.c:41-123 | freeing a block right after it was cut restores the free list exactly |
| HeapModel.FreesCommute | src/kernel_heap.c:91-123 | two frees give the same list in either order |
| HeapSpec.InitInv | src/kernel_heap.c:125-133 | the heap after module initialisation satisfies the partition invariant |
| HeapSpec.GrowInv | src/kernel_heap.c:8-39 | a growth keeps the partition of the grown units into free blocks, blocks in use and page slack |
| HeapSpec.GrowFits | src/kernel_heap.c:27-39 | a growth always leaves a block of the requested size |
| HeapSpec.GrowAgain | src/kernel_heap.c:46-69 | the second growth of one request extends or follows the chunk of the first |
| HeapSpec.AllotInv | src/kernel_heap.c:52-63 | handing out a block keeps the partition |
| HeapSpec.ReleaseInv | src/kernel_heap.c:91-123 | taking a block back keeps the partition |
| HeapSpec.MallocServes | src/kernel_heap.c:41-71 | every request terminates with at most two growths and either cuts exactly one new block of the right size or returns NULL with every block in use untouched |
| HeapSpec.NullMeansNoFit | src/kernel_heap.c:46-69 | NULL means that no free block was large enough on entry; with one growth behind it, it is returned although a large enough block is free by then |
| HeapSpec.NullIff | src/kernel_heap.c:41-71 | exactly when a request fails, in terms of the heap it is made on, its free frames and its page tables |
| HeapSpec.NullBesideFitIff | src/kernel_heap.c:46-69 | exactly when NULL is returned beside a block large enough for the request, in terms of the heap it is made on |
| HeapSpec.MapRunExact | src/kernel_heap.c:14-22 | the loop succeeds if and only if there are frames for all pages and missing tables, or all but the one for the table of the last page; frames, tables and mapped pages afterwards in each case |
| HeapSpec.CanGrowExact | src/kernel_heap.c:8-25 | exactly when a growth succeeds, in numbers of frames and tables |
| HeapSpec.GrowIntact | src/kernel_heap.c:18-24 | a growth leaves a page below the break unmapped exactly if its last page needs a table and exactly one frame is missing |
| HeapSpec.MallocIntact | src/kernel_heap.c:18-69 | a request keeps every page below the break mapped exactly unless one of its growths does that |
| HeapSpec.HeapCanOverrun | src/kernel_heap.c:18-24 | one request from the initial heap with 1026 frames, and the next request, which succeeds, does that |
| HeapSpec.NullBesideFit | src/kernel_heap.c:46-69 | a history from the initial heap whose last request returns NULL beside a block large enough for it |
| HeapSpec.PayloadHoldsRequest | src/kernel_heap.c:43-44 | the payload holds the requested bytes and less than one unit more |
| HeapSpec.FreeListDetermined | src/kernel_heap.c:27-123 | heaps with the same break, slack and blocks in use have the same free list, whatever histories led there |
| HeapSpec.FreeIffUnused | src/kernel_heap.c:27-123 | a unit is free exactly if it is grown, not slack and not in use |
| HeapSpec.StepInv | src/kernel_heap.c:41-123 | any malloc or free keeps the invariant, and so does any change of the number of free frames |
| HeapSpec.HeapSafe | src/kernel_heap.c:27-123 | after any history of malloc and free, whatever frames the rest of the kernel takes and returns in between: one sorted ring through the base block, no two adjacent free blocks, free and live blocks pairwise disjoint below the break, all units accounted for |
| HeapSpec.RangeCheckExact | src/kernel_heap.c:12 | the 32-bit range check agrees with the true bound exactly for requests whose end does not wrap |
| KernelHeap.StopsAtPlace | src/kernel_heap.c:99-105 | the stopping test of the walk in free holds at one ring entry only, the one behind which the block belongs |
| KernelHeap.InsertRing | src/kernel_heap.c:107-122 | the pointer and size writes of free turn the ring in memory into the ring of the list with the block inserted |
| KernelHeap.TakeRing | src/kernel_heap.c:52-63 | the writes of malloc turn the ring into that of the list with the block cut off |
| KernelHeap.FoundIsMalloc | src/kernel_heap.c:46-63 | a fit met by the search from the old cursor is the one the closed form names, also after growths have moved the head |
| KernelHeap.GrowStep | src/kernel_heap.c:64-68 | back at the head without a fit the request fails as specified or goes on in the grown heap |
| KernelHeap.WalkStep | src/kernel_heap.c:46-69 | one step along the ring keeps the search invariant |
| KernelHeap.PayloadHasNoHeader | src/kernel_heap.c:57-62 | no header the allocator still reads lies inside the payload of a block in use |
| KernelHeap.Heap.constructor | src/kernel_heap.c:125-133 | an empty heap with the base block alone in the ring |
| KernelHeap.Heap.FindPlace | src/kernel_heap.c:97-105 | the loop ends, at the entry behind which the address belongs |
| KernelHeap.Heap.LinkIn | src/kernel_heap.c:107-122 | two-sided coalescing in memory equals insertion |
| KernelHeap.Heap.Free | src/kernel_heap.c:91-123 | free of a live block or NULL, on headers in memory, equals the specified release |
| KernelHeap.Heap.Others | src/memory_bitmap.c:92-125 | between calls others take and return frames: only the number of free frames changes |
| KernelHeap.Heap.MapPage | src/memory_paging.c:173-203 | a heap page is mapped unless its table is missing and there is no frame for it; then nothing changes |
| KernelHeap.Heap.MapPages | src/kernel_heap.c:8-25 | a frame for each page and for each missing table; the break moves when every page got its frame, whatever the maps answered; a failed growth keeps what it took |
| HeapCursor.ServesNext | src/kernel_heap.c:46-63 | if a free block is large enough, the request gets the end of the first such block in ring order behind the cursor, and the cursor moves to the ring predecessor of that block |
| HeapCursor.FirstBehindOnce | src/kernel_heap.c:46-49 | that block is unique |
| HeapCursor.ServesGrown | src/kernel_heap.c:46-69 | otherwise it gets the end of the lowest block of the grown heap that is large enough, and the cursor moves to the block in front of it |
| HeapCursor.SplitAgain | src/kernel_heap.c:56-60 | the rest of the block that a request was split off serves the next request that fits it: its header is the previous header minus the new size |
| HeapCursor.FreeCursor | src/kernel_heap.c:91-123 | after a free the cursor is the last free block that starts below the block freed |
| HeapCursor.GrowExact | src/kernel_heap.c:8-39 | a growth frees exactly max(n, 1024) units at the old break, rounds the break up to a page, and leaves the cursor on the last block below the old break |
| KernelHeap.Heap.AllocateMore | src/kernel_heap.c:27-39 | growth by at least 1024 headers equals the specified growth, or its failure |
| KernelHeap.Heap.AddChunk | src/kernel_heap.c:33-38 | writing and freeing the header of the new chunk equals the specified growth |
| KernelHeap.Heap.CutFrom | src/kernel_heap.c:52-63 | unlinking or tail-splitting in memory equals the specified allotment, and the cursor is the block in front |
| KernelHeap.Heap.Search | src/kernel_heap.c:46-69 | the unbounded search with growth in the middle terminates and equals the closed form, of which HeapCursor.ServesNext and HeapCursor.ServesGrown say which block it is |
| KernelHeap.Heap.Allocate | src/kernel_heap.c:41-71 | malloc in memory equals the specification, for zero and nonzero sizes |
| KernelHeap.Heap.Store | src/kernel_heap.c:41-71 | a holder may write anything into its payload without harm to the heap |
| SchedInv.ScheduleOk | src/task_manager.c:212-286 | schedule and the switch return to a state in which every task is in one place matching its state and the slice is in 1..32, so the unsigned decrement never wraps; nothing but the schedule changes |
| SchedInv.ScheduleRank | src/task_manager.c:212-286 | slice + 4 * position strictly decreases on every call of schedule that does not dispatch the task |
| SchedInv.BoostOk | src/task_manager.c:288-300 | the boost keeps the partition; queue 0 is then the old queues 0 to 3 in order, queues 1 to 3 are empty |
| SchedInv.DispatchOk | src/task_manager.c:253-269 | picking and dispatching keeps the partition; idle runs exactly when all four queues are empty, otherwise the head of the first that is not, with the slice of its level |
| SchedInv.RequeueOk | src/task_manager.c:277-286 | requeueing an expired task keeps the partition; where it goes is in SchedLaws.TickExpires |
| SchedLife.BlockOk | src/task_manager.c:400-411 | blocking keeps the partition and queues the task as blocked |
| SchedLife.UnblockOk | src/task_manager.c:413-422 | unblocking keeps the partition and queues the task in queue 0 |
| SchedLife.WakeLists | src/task_manager.c:424-436 | the wake-up moves exactly the matching tasks, in order, to the end of queue 0 |
| SchedLife.WakeOk | src/task_manager.c:424-436 | and readies exactly those |
| SchedLife.ExitOk | src/task_manager.c:342-398 | an exit keeps the partition; at most the parent changes queue |
| SchedLife.ExitRecords | src/task_manager.c:342-398 | what every task record is after an exit |
| SchedLife.ForkOk | src/task_manager.c:137-186 | a forked child is ready at the back of queue 0 |
| SchedLife.DestroyOk | src/task_manager.c:590-622 | a reaped zombie is gone from every queue |
| SchedRuns.BootInv | src/task_manager.c:195-210 | the state after boot satisfies the invariant |
| SchedRuns.TickKeeps | src/task_manager.c:212-251 | a timer tick keeps the invariant |
| SchedRuns.ExitKeeps | src/task_manager.c:342-398 | an exit keeps partition, process tree and both no-lost-wake-up properties |
| SchedRuns.WaitKeeps | src/syscall.c:179-232 | waitpid keeps the invariant, whether it reaps, fails or sleeps |
| SchedRuns.KeyKeeps | src/drivers/keyboard.c:30-64 | a key press keeps the invariant |
| SchedRuns.ReadKeeps | src/syscall.c:36-88 | a keyboard read keeps the invariant |
| SchedRuns.DeliverKeeps | src/syscall.c:526-564 | waking a signalled task, init included, keeps the invariant; only a refused delivery kills |
| SchedRuns.StepKeeps | src/task_manager.c:212-622 | every interrupt and system call keeps the invariant |
| SchedRuns.RunsAreSafe | src/task_manager.c:10-446 | in every run: each task in exactly one place matching its state, slice in 1..32, consistent process tree, no task but possibly init asleep beside a zombie it waits for, nobody asleep on a keyboard that has keys |
| SchedRuns.InitSleepsExactly | src/task_manager.c:356-393 | init is left asleep beside a zombie exactly when the exiting task leaves it one that it waits for and does not itself wake it |
| SchedOversleep.StepSleep | src/task_manager.c:212-622 | after any step init oversleeps exactly if it is still asleep and overslept before, or was just left a zombie that it waits for |
| SchedOversleep.InitOversleepsIff | src/task_manager.c:342-398 | in every run from boot, init sleeps beside a zombie it waits for if and only if some exit since it fell asleep left it one |
| SchedWitness.InitCanOversleep | src/task_manager.c:356-393 | a state reached from boot in which that happens |
| SchedWitness.ToOrphanage | src/task_manager.c:137-446 | that state is reached from boot by a run of ticks, forks, waits and an exit |
| SchedRuns.StepRank | src/task_manager.c:212-436 | no event pushes a waiting task of queue 0 back, and every tick brings it closer |
| SchedRuns.WaitsInQueue0 | src/task_manager.c:212-300 | a task in queue 0 is dispatched before its rank runs out, in any run |
| SchedRuns.BoostBrings | src/task_manager.c:288-300 | the boost puts every ready task it does not dispatch into queue 0 |
| SchedRuns.StepClock | src/task_manager.c:216-219 | only ticks move the clock, and a boost happens exactly every 5000 ticks |
| SchedRuns.StepLower | src/task_manager.c:212-300 | after any step a ready task is in queue 0 or the boost is a tick closer |
| SchedRuns.BoundedWaiting | src/task_manager.c:212-300 | a ready task is dispatched within 5000 ticks plus 32 + 4 * (tasks ahead of it in queue 0 once it is there), in any run |
| SchedLaws.TickRuns | src/task_manager.c:212-227 | a tick that does not end the slice takes one tick off it; nobody moves but by a due boost |
| SchedLaws.TickExpires | src/task_manager.c:221-249 | a running task that expires at level L is, unless picked again at once, the last of queue min(L + 1, 3), ready and with that level; the head of the highest queue runs with 4, 8, 16 or 32 ticks; no other record changes but by a due boost |
| SchedLaws.TickIdles | src/task_manager.c:221-249 | the same when idle's slice ends: idle is queued nowhere |
| SchedLaws.StaysLast | src/task_manager.c:277-286 | whoever is last in a queue stays last unless it is the one taken |
| SchedLaws.HandsOver | src/task_manager.c:232-269 | the head of the highest nonempty queue runs with the slice of that queue, idle if there is none; no other record changes |
| SchedLaws.YieldExact | src/task_manager.c:438-446 | a task that stopped running hands the processor to that head, and one tick of its own slice is gone |
| SchedLaws.SleepExact | src/task_manager.c:400-446 | the current task is then the last of the blocked queue with its reason to sleep, and the head of the highest queue runs |
| SchedLaws.UnblockExact | src/task_manager.c:413-422 | a woken task goes from the blocked queue to the end of queue 0; nothing else changes |
| SchedLaws.DeliverExact | src/syscall.c:556-561 | a handled signal does that to its target and nothing else; one that does not fit kills the woken target |
| SchedLaws.SelectInOrder | src/task_manager.c:424-436 | the waiting tasks are picked without changing their order |
| SchedLaws.KeyExact | src/drivers/keyboard.c:30-64 | a key press appends the scancode if fewer than 256 are there, and moves exactly the keyboard sleepers, in order, to the end of queue 0 |
| SchedLaws.ReadExact | src/syscall.c:36-88 | a read takes the first min(length, keys) keys, or sleeps for want of any |
| SchedLaws.ExitQueuesExact | src/task_manager.c:342-398 | after an exit the task is the last zombie and in no other queue, a parent that waited for it is the last of queue 0, and no other task moves |
| SchedLaws.KillExact | src/task_manager.c:342-398 | an exit changes the queues and records so, and nothing else |
| SchedLaws.ExitExact | src/syscall.c:168-177 | an exit of the current task hands the processor over besides |
| SchedLaws.ForkExact | src/syscall.c:145-151 | the child is a ready task with a new pid at the end of queue 0 and the last child of its parent; nothing else changes |
| SchedLaws.ReapableExact | src/syscall.c:186-197 | the searches find a child exactly if one is to be reaped: a zombie with that pid, or for -1 the first zombie in the child list |
| SchedLaws.WaitReaps | src/syscall.c:219-231 | that child's record is removed, the caller forgets it, and nothing else changes but the zombie queue |
| SchedLaws.WaitSleeps | src/syscall.c:200-217 | without such a child an unknown pid changes nothing, and otherwise the caller sleeps |
| SchedLaws.EndRecords | src/task_manager.c:354 | the exit or fatal signal that ends a task records a status from which wait.h tells which it was, and the code or signal |
| SchedLaws.CodeKept | src/task_manager.c:354 | no event changes the status of a zombie that it does not reap |
| SchedLaws.StatusArrives | src/syscall.c:219-229 | whenever waitpid reaps a child, however long after its end, the record it reaps holds that status |
| TaskManager.Manager.constructor | src/task_manager.c:195-210 | the manager after boot and the first switch |
| TaskManager.Manager.Append | src/task_manager.c:18-28 | the walk to the last block terminates and links the task there; other chains stay |
| TaskManager.Manager.Enqueue | src/task_manager.c:10-29 | enqueueing in memory equals the specification; the idle task is never queued |
| TaskManager.Manager.Dequeue | src/task_manager.c:31-38 | the head comes off with a NULL link, or NULL for an empty queue |
| TaskManager.Manager.RemoveFromQueue | src/task_manager.c:40-61 | unlinks exactly that task, wherever it is, and reports whether it was there |
| TaskManager.Manager.Requeue | src/task_manager.c:277-286 | demotion and requeueing equal the specification |
| TaskManager.Manager.PickTask | src/task_manager.c:253-269 | the head of the highest nonempty queue, idle if there is none, although its state test is true of every state |
| TaskManager.Manager.MoveUp | src/task_manager.c:292-297 | one task moves from queue k to the end of queue 0 |
| TaskManager.Manager.BoostAll | src/task_manager.c:288-300 | the nested loops equal the specified boost |
| TaskManager.Manager.Schedule | src/task_manager.c:212-251 | schedule in memory equals the specification |
| TaskManager.Manager.YieldCurrent | src/task_manager.c:438-446 | yield equals the specification |
| TaskManager.Manager.BlockTask | src/task_manager.c:400-411 | blocking in memory equals the specification |
| TaskManager.Manager.UnblockTask | src/task_manager.c:413-422 | unblocking in memory equals the specification |
| TaskManager.Manager.WakeBlockedOn | src/task_manager.c:424-436 | the loop wakes exactly the matching tasks although it edits the list it walks |
| TaskManager.Manager.ExitTask | src/task_manager.c:342-398 | exit in memory equals the specification |
| TaskManager.Manager.ReparentChildren | src/task_manager.c:356-381 | all children go to init, in reverse order, and the task has none left |
| TaskManager.Manager.WakeParentOf | src/task_manager.c:383-393 | the parent is readied exactly if it waits for this task |
| TaskManager.Manager.ForkTask | src/task_manager.c:137-186 | the new task record and its place equal the specification |
| TaskManager.Manager.FindChildOf | src/task_manager.c:448-459 | the child with that pid, if there is one |
| TaskManager.Manager.FindZombieOf | src/task_manager.c:461-472 | the first zombie child, if there is one |
| TaskManager.Manager.DestroyTask | src/task_manager.c:590-622 | the record is freed, and unlinked from parent and queue |
| TaskManager.Manager.TimerTick | src/task_manager.c:212-251 | a tick, as a step of the run, keeps the invariant |
| TaskManager.Manager.Terminate | src/task_manager.c:342-398 | exit or fatal signal, of the current or another task, as a step |
| TaskManager.Manager.SwitchTask | src/task_switch.s:1-51 | the pending task becomes current and the flag is cleared |
| TaskManager.Manager.KeyboardInterrupt | src/drivers/keyboard.c:39-64 | a key press, as a step: the scancode is the last key if fewer than 256 were there |
| TaskManager.Manager.SysFork | src/syscall.c:145-151 | fork as a step; the child's pid is returned |
| TaskManager.Manager.DeliverSignal | src/syscall.c:526-564 | kill with a handler, as a step |
| TaskManager.Manager.FindReapable | src/syscall.c:186-197 | the child to reap, which SchedLaws.ReapableExact determines |
| TaskManager.Manager.SysWaitPid | src/syscall.c:179-232 | waitpid as a step, in terms of the memory before: it answers with pid and recorded status exactly if a child is to be reaped, and that record goes; it fails, with nothing changed, exactly if no child has the pid; otherwise no record goes |
| TaskManager.Manager.SysRead | src/syscall.c:36-88 | a keyboard read as a step; it hands out the first min(length, keys) keys |
| TaskManager.Manager.Sleep | src/syscall.c:72-76 | blocking and yielding hands the processor on |
| Keyboard.Ring.Write | src/drivers/keyboard.c:30-37 | the ring is a bounded queue: a scancode is appended, or dropped when 256 wait |
| Keyboard.Ring.Take | src/drivers/keyboard.c:15-19 | one scancode comes off the front across the wrap |
| Keyboard.Ring.Read | src/drivers/keyboard.c:5-28 | takes the first min(length, count) scancodes in order; would block exactly if nothing is taken |
| Bitmap.BitChange | include/memory_bitmap.h:11-14 | setting or clearing a bit changes that bit and no other |
| Bitmap.NextFreeComplete | src/memory_bitmap.c:92-118 | wherever the hint is, allocation takes the first free page going round from it and fails exactly when every page is used |
| Bitmap.CoversExact | src/memory_bitmap.c:19-31 | a run covers the pages that hold one of its bytes |
| Bitmap.NullExact | src/memory_bitmap.c:92-118 | the address returned is 0 exactly when all pages are used, or when page 0 is free and its turn has come |
| Bitmap.BootExact | src/memory_bitmap.c:3-90 | after boot a page is free exactly if an available region reaches it and it is not in the first megabyte, a module, the kernel or the locked bitmap pages |
| Bitmap.BitmapLockExact | src/memory_bitmap.c:37-49 | the pages locked for the bitmap hold all of it exactly unless the page count is 1 to 7 above a multiple of 32768 |
| Bitmap.CountsExactly | src/memory_bitmap.c:54-62 | the memory counted reaches the end of a region exactly if that end is below 4 GB |
| Bitmap.HighestByte | src/memory_bitmap.c:54-60 | the largest region end, each truncated to 32 bits |
| Bitmap.MemoryBitmap.Test | src/memory_bitmap.c:92-118 | the mark of a page |
| Bitmap.MemoryBitmap.Set | src/memory_bitmap.c:92-118 | one mark set, all others kept |
| Bitmap.MemoryBitmap.Clear | src/memory_bitmap.c:120-125 | one mark cleared, all others kept |
| Bitmap.MemoryBitmap.FindClear | src/memory_bitmap.c:96-113 | the first clear mark of a range |
| Bitmap.MemoryBitmap.Allocate | src/memory_bitmap.c:92-118 | equals the specified next-fit, and moves the hint to the page taken |
| Bitmap.MemoryBitmap.Free | src/memory_bitmap.c:120-125 | one mark cleared; the hint moves down to it if it was above |
| Bitmap.MemoryBitmap.Paint | src/memory_bitmap.c:3-49 | a locking or releasing loop marks exactly its range |
| Bitmap.MemoryBitmap.PaintRuns | src/memory_bitmap.c:12-26 | all modules are locked |
| Bitmap.MemoryBitmap.ReleaseUsable | src/memory_bitmap.c:70-81 | all pages of available regions are released |
| Bitmap.MemoryBitmap.Boot | src/memory_bitmap.c:52-90 | the whole initialisation equals its specification |
| PageTables.AddTableOk | src/memory_paging.c:178-188 | a fresh table in an empty slot leaves every directory well formed |
| PageTables.AddTableWalks | src/memory_paging.c:178-188 | and changes no walk of any directory |
| PageTables.SetUserWalks | src/memory_paging.c:189-192 | adding the user bit to a directory entry changes the rights of no page |
| PageTables.SetPteWalks | src/memory_paging.c:193-197 | writing one table entry changes the walk of exactly one page of one directory |
| PageTables.MapExact | src/memory_paging.c:173-203 | a map gives the page the frame, flags and rights asked for and leaves every other page of every directory untouched |
| KernelPages.MapKernelOk | src/memory_paging.c:73-100 | mapping a page in the kernel's directory, with or without a table there, keeps every directory as it was, word by word; its walks change at that page alone if no two kernel slots have one table |
| KernelPages.KernelPageSeen | src/memory_paging.c:73-100 | a directory gets that page, with the rights its own copy of the slot allows, if and only if it shared the kernel's table before the call; otherwise it keeps what it mapped |
| KernelPages.SharedAtBirth | src/memory_paging.c:299-304 | a new directory shares exactly the tables that the kernel's directory has when it is made |
| KernelPages.SeenIffTableAtBirth | src/memory_paging.c:73-304 | however many kernel pages were mapped since, a directory sees the next one if and only if its table was there when the directory was made |
| KernelPages.KernelPageCanBeMissed | src/memory_paging.c:299-304 | a directory that misses a page |
| PageTables.UnmapExact | src/memory_paging.c:205-222 | an unmap leaves the page without translation and every other page untouched |
| Frames.MapBacked | src/memory_paging.c:173-203 | mapping a fresh frame keeps every private page backed by a frame of its own |
| Frames.DropBacked | src/syscall.c:265-283 | dropping a page keeps the others backed |
| Frames.NewDirOk | src/memory_paging.c:291-313 | a new directory shares the kernel's tables, maps nothing below them, and disturbs no other directory |
| Frames.DestroyBacked | src/memory_paging.c:325-341 | without a directory and its frames the others are as well formed as before |
| SpaceRuns.MapFreshOk | src/elf_executable.c:79-96 | a fresh page is mapped on a frame that was free, or nothing changes; what others hold stays |
| SpaceRuns.UnmapFreeOk | src/syscall.c:272-280 | the page is gone, its frame is free, nothing else moved |
| SpaceRuns.CreateOk | src/memory_paging.c:291-313 | creating a directory takes exactly one frame |
| SpaceRuns.DestroyOk | src/memory_paging.c:404-421 | destroying one keeps the rest sound and untouched |
| SpaceRuns.Lifetime | src/memory_paging.c:291-421 | create, any sequence of private maps and unmaps, destroy: the same frames are in use and owned as before, and every other directory maps what it mapped |
| MemoryPaging.SharedTest | src/memory_paging.c:332-333 | the frame comparison skips exactly the tables shared with the kernel |
| MemoryPaging.SweepPage | src/memory_paging.c:315-323 | the frame at the next entry is in use, and freeing it is all that the step frees |
| MemoryPaging.SweepTable | src/memory_paging.c:335-338 | behind its last entry a table frame is freed, once |
| MemoryPaging.Paging.AllocateFrame | src/memory_bitmap.c:92-118 | equals the bitmap's next-fit |
| MemoryPaging.Paging.FreeFrame | src/memory_bitmap.c:120-125 | may only be called for a frame in use, so nothing is freed twice |
| MemoryPaging.Paging.Reset | src/memory_paging.c:49-55 | clears the 1024 words of a frame |
| MemoryPaging.Paging.Map | src/memory_paging.c:173-203 | the code's writes equal the specified map; it fails exactly if a table is needed and no frame is left, and then changes nothing |
| MemoryPaging.Paging.MapKernel | src/memory_paging.c:73-100 | the code's writes equal the specified map in the kernel's directory; it fails exactly if a table is needed and no frame is left, and then changes nothing |
| MemoryPaging.Paging.Unmap | src/memory_paging.c:205-222 | equals the specified unmap |
| MemoryPaging.Paging.Translate | src/memory_paging.c:343-369 | the physical address of the walk, 0 if there is none |
| MemoryPaging.Paging.CreateDirectory | src/memory_paging.c:291-313 | the reset and copy loops build the specified directory |
| MemoryPaging.Paging.FreeTable | src/memory_paging.c:315-323 | frees every page of the table |
| MemoryPaging.Paging.FreeDirectory | src/memory_paging.c:325-341 | frees every private table and page, each once, and none of the kernel's |
| MemoryPaging.Paging.DestroyDirectory | src/memory_paging.c:404-421 | exactly the frames of this address space are given back |
| MemoryPaging.Paging.MapFreshPage | src/elf_executable.c:79-96 | allocate and map, with the frame returned when the map fails |
| MemoryPaging.Paging.ReleasePage | src/syscall.c:272-280 | translate, unmap and free one page |
| Windows.SelfMap | include/memory_paging.h:20-21 | through the last slot the directory and its tables appear at their window addresses |
| Windows.Machine.InstallTable | src/memory_paging.c:236-246 | a fresh table entered in its slot and cleared through its own window becomes a table of zeros, and no other word changes |
| Windows.Machine.MapCurrent | src/memory_paging.c:224-257 | a map through the windows, with or without a table there, for any flags, is the map that frame writes make; without a frame for a missing table nothing changes |
| Windows.Machine.UnmapCurrent | src/memory_paging.c:259-275 | likewise for unmap; without a table nothing changes |
| Windows.Machine.BounceAlloc | src/memory_paging.c:18-36 | the first unused slot shows the frame, on first use behind a fresh table; without one nothing changes |
| Windows.Machine.BounceFree | src/memory_paging.c:38-47 | the slot is unmapped and unused again |
| Windows.Machine.StoreThrough | src/memory_paging.c:18-47 | a store by way of a bounce page is a store to the frame and leaves no trace |
| Windows.Machine.LoadThrough | src/memory_paging.c:18-36 | a load by way of a bounce page reads the frame |
| Windows.Machine.Translate | src/memory_paging.c:343-369 | translates correctly, and gives its slot back if and only if the page is mapped |
| Fork.StoreIsolated | src/memory_paging.c:135-171 | a write through a private page is seen at that page alone, in whatever directory one looks |
| Fork.CopyOne | src/memory_paging.c:148-162 | copying a page gives the child the same flags, rights and words on a frame of its own |
| Fork.KeptWalks | src/memory_paging.c:135-171 | every other directory maps what it mapped |
| Fork.CopyPage | src/memory_paging.c:148-162 | one turn of the loop copies one page and takes one frame, two if the child lacks the table |
| Fork.CopyTable | src/memory_paging.c:146-163 | the inner loop copies the pages of one table |
| Fork.CopyMapped | src/memory_paging.c:135-171 | with enough frames the child maps exactly the parent's user pages, with equal flags and contents, on frames that are not the parent's |
| HeapGrowth.GrowStep | src/syscall.c:243-259 | a page mapped at the break adds exactly that page and accounts for its frames |
| HeapGrowth.StrandStep | src/syscall.c:245-257 | a frame for the page without one for its table stays in use and nobody's |
| HeapGrowth.UnwindStep | src/syscall.c:249-254 | unwinding a page takes back exactly that page and its frame |
| HeapGrowth.ShrinkStep | src/syscall.c:272-280 | shrinking is growing read backwards |
| Sbrk.CostGrows | src/syscall.c:234-263 | every page costs at least a frame |
| Sbrk.HeapFrames | src/syscall.c:234-313 | the pages of the heap have different frames, all in use |
| Sbrk.HeapGrew | src/syscall.c:259-262 | after a full growth the heap invariant holds with the new break |
| Sbrk.HeapRestored | src/syscall.c:247-256 | after an unwinding it holds with the old one |
| Sbrk.HeapShrunk | src/syscall.c:265-283 | after giving back whole pages it holds with the lower break, never below the start |
| Sbrk.BitmapRestored | src/syscall.c:247-256 | an unwound growth without new tables leaves bitmap and ownership exactly as they were |
| Sbrk.GrowRestores | src/syscall.c:245-256 | a growth over present tables that runs out of frames returns the bitmap, the ownership and the break as they were |
| Sbrk.GrowVerdict | src/syscall.c:234-313 | a growth keeps the heap invariant unless the last page needs a table and exactly one frame is missing |
| Sbrk.HeapCanLosePage | src/syscall.c:257 | a sound state in which that happens |
| Sbrk.UserHeap.Unwind | src/syscall.c:249-254 | the unwinding loop restores every walk, skipping a page that never got its table |
| Sbrk.UserHeap.AddPage | src/syscall.c:245-258 | one turn of the growing loop, with all three outcomes |
| Sbrk.UserHeap.GrowBy | src/syscall.c:234-263 | the whole loop: all pages, none of them, or one frame lost, decided by the number of free frames |
| Sbrk.UserHeap.ShrinkBy | src/syscall.c:265-283 | exactly the pages above the new break are gone, and their frames are free |
| Sbrk.UserHeap.Sbrk | src/syscall.c:285-313 | all results of sbrk, and the exact condition under which the heap invariant survives |
| UserMemory.WroteChunk | src/task_manager.c:505-512 | writing within a page is a flat write at its virtual address |
| UserMemory.WroteMore | src/task_manager.c:499-516 | consecutive chunks make one flat write |
| UserMemory.CopyRoundTrip | src/task_manager.c:494-517 | what was copied out is what is copied in again |
| UserMemory.Space.CopyOut | src/task_manager.c:494-517 | the page-chunked copy equals a flat write up to the first unmapped page |
| UserMemory.Space.CopyIn | src/task_manager.c:494-517 | and a flat read |
| UserMemory.Space.RangeMapped | src/task_manager.c:519-531 | true exactly if every page up to the rounded end, computed in 32 bits, is mapped |
| UserMemory.RangeCheckExact | src/task_manager.c:519-531 | that is right for every range that ends before the last page of the address space; one that ends in it passes whether or not it is mapped |
| Signals.HandlerEntry | src/task_manager.c:535-571 | the handler starts with its return address on top of the stack and its argument above it, the return address leads to the trampoline right behind them, and no other register changes |
| Signals.ThreeWrites | src/task_manager.c:582-584 | the three stack writes do not overlap and make one 17-byte write |
| Signals.Task.Deliver | src/task_manager.c:533-588 | refused, with nothing changed, exactly if the test of the stack fails; otherwise the exact frame is saved as the run below says, and with room on the stack exactly the 17 bytes and the new frame are written |
| Signals.Task.DeliverSelf | src/task_manager.c:573-581 | the same for the running task, whose stack is written directly: a store faults exactly if the test passed and there is no room |
| Signals.StackTestExact | src/task_manager.c:557 | the test finds out whether there is room for 17 bytes, except for a stack pointer in the last page of the address space, which always passes |
| Signals.Task.PushFrame | src/task_manager.c:575-584 | return address, signal number and trampoline are laid out below the stack pointer, or a write meets an unmapped page exactly if there is no room |
| Signals.Task.Sigreturn | src/syscall.c:591-600 | resumes the saved frame if a handler is active, else the current one, as the run below says |
| Signals.ReturnsTo | src/syscall.c:591-600 | in any run of deliveries and returns, a return is sure to resume frame f if and only if the last step before it was the delivery that interrupted f |
| Signals.AfterLast | src/syscall.c:591-600 | the saved state depends on the last step of the run alone |
| Signals.OneFrameExact | src/syscall.c:591-600 | one saved frame does the work of a stack of frames exactly unless the last step was a return with an outer handler still open |
| Signals.NestedLoses | src/syscall.c:591-600 | two deliveries and a return after which the next return does not resume the first frame, whatever frame it is made in |
| Signals.WritesUserExact | src/task_manager.c:519-584 | a delivery that passes the test writes user pages only if and only if the stack pointer is not above the kernel base |
| UserSpaces.PagesLaid | src/memory_paging.c:343-369 | the user pages that a directory's walks give have frames of their own, all in use: what a process space is made of |
| UserSpaces.PagesMapped | src/memory_paging.c:173-203 | a map adds exactly its page to them |
| UserSpaces.MapOne | src/elf_executable.c:81-95 | one turn of the mapping loop, on the directory and on the space: the page on a fresh frame, or nothing if the frames do not reach for it and its table |
| UserSpaces.MapRange | src/elf_executable.c:79-96 | the loop maps as many pages, in order, as there are frames for pages and missing tables, keeps them also when it fails, and disturbs no mapped byte |
| UserSpaces.CostInSlots | src/elf_executable.c:79-96 | those frames are one for each page and one for each slot of the range without a table |
| UserSpaces.TakenOthers | src/elf_executable.c:79-96 | frames that one directory took since are not missed by the others: without them bitmap and owners are as they were |
| Elf.WithinExact | src/elf_executable.c:73-74 | a segment has the pages that hold one of its bytes |
| Elf.SliceMore | src/fs/ramfs.c:192-209 | consecutive reads of a file deliver consecutive bytes, and nothing behind its end |
| Elf.Fill | src/elf_executable.c:104-125 | one page chunk is written |
| Elf.CopyFile | src/elf_executable.c:98-126 | the chunked loop writes the file's bytes at the segment's address |
| Elf.ClearRest | src/elf_executable.c:128-151 | the chunked loop clears exactly the rest |
| Elf.LoadSegment | src/elf_executable.c:70-151 | byte vaddr + i is file byte offset + i below filesz and zero up to memsz; what was mapped before is untouched; fails exactly if the frames do not reach for its pages and missing tables, and then keeps the pages they paid for |
| Elf.Load | src/elf_executable.c:57-160 | for page-disjoint segments all images are right, nothing else is mapped, the heap starts at the largest page-aligned segment end, and loading succeeds if and only if there are frames for all pages and for every slot the segments reach that has no table; a failed load keeps every page before the one that failed, at most one frame is left, and the page map is as before if and only if no frame was free, or one was and the first page needs a table |
| Elf.LoadFailed | src/elf_executable.c:79-96 | the account of a failed load: frames left and frames spent, and when nothing was spent |
| Elf.FailedExecLeaks | src/elf_executable.c:45-96 | an exec that fails leaves the page map as it was if and only if there was no frame for the directory; otherwise the frames that are gone are exactly those of the directory, which destroying it would bring back |
| Elf.PriceOfSegment | src/elf_executable.c:79-96 | segments that share a slot pay for its table once |
| FsModel.BareInv | src/vfs.c:15-20 | a file system with only a root satisfies the invariant |
| FsModel.LockKeeps | src/vfs.c:230-235 | locking keeps the invariant |
| FsModel.ReleaseKeeps | src/vfs.c:237-287 | releasing, with eviction and deferred deletion, keeps the invariant |
| FsModel.CacheKeeps | src/fs/ramfs.c:20-36 | the VFS node of a ramfs node, cached or new, stands for that node |
| FsModel.CreateKeeps | src/fs/ramfs.c:38-55 | creating keeps the invariant |
| FsModel.LosesNodeExactly | src/fs/ramfs.c:49-52 | a create leaves behind a node with a link count of one and no name exactly if the name is new and the directory is full |
| FsModel.CanLoseNode | src/fs/ramfs.c:38-55 | from a bare root, a run of creates whose last one does that |
| FsModel.LinkKeeps | src/fs/ramfs.c:68-81 | a hard link keeps the invariant |
| FsModel.UnlinkKeeps | src/fs/ramfs.c:83-118 | an unlink, with or without freeing, keeps the invariant |
| FsModel.DeletionIsDeferred | src/fs/ramfs.c:68-127 | in every run: no entry and no cached node points to a freed node, link counts equal the number of names, a node without names is still cached, and a cached node has one reference more than it has holders |
| FsPaths.ResolveFromOk | src/vfs.c:95-137 | the walk through the cache and the walk through the tree reach the same node; the tree is unchanged; one reference is left, on the node found or on the last directory reached |
| FsPaths.ResolveOk | src/vfs.c:95-137 | the same for a whole path from the root |
| FsPaths.WalkSplit | src/vfs.c:95-137 | resolving a path is resolving its parent and looking up the name |
| FsPaths.CreateThenResolve | src/vfs.c:61-93 | what was created is what the names resolve to afterwards |
| FsPaths.UnlinkThenResolve | src/vfs.c:402-430 | after an unlink the names lead nowhere |
| FsLaws.ReleaseExact | src/vfs.c:237-287 | a released node stays cached exactly if its count was above 2, and its ramfs node stays exactly if that holds or a name is left; every other node is unchanged |
| FsLaws.LookExact | src/fs/ramfs.c:20-36 | a looked-up node is cached with one reference for the cache and one for each holder; nothing else changes |
| FsLaws.CreateExact | src/fs/ramfs.c:38-55 | a new name gets a node of the kind asked for, with one name, no entries and a new id, and only the parent's entries change; a taken name only looks the node up |
| FsLaws.LinkExact | src/fs/ramfs.c:68-81 | a link gives the file one name and one count more and changes nothing else; it changes nothing exactly if the name is taken or the directory full |
| FsLaws.UnlinkExact | src/fs/ramfs.c:83-118 | an unlink takes one name and one count off a file, which goes at once exactly if it was the last name and the node is not cached; otherwise nothing changes |
| FsLaws.UnlinkOrphans | src/fs/ramfs.c:106-115 | a held file that loses its last name is from then on there exactly while it is held |
| FsLaws.UnlinkedGoes | src/vfs.c:237-293 | in every run that does not name it again: with the last close of an unlinked file its VFS node and its ramfs node are gone, for good |
| FsLaws.UnlinkedStays | src/fs/ramfs.c:120-127 | and while somebody holds it, it stays |
| FsLaws.CreateAtExact | src/vfs.c:61-93 | vfs_create in all its outcomes: nothing for a path to no directory, the node that is there for a taken name, a lost node for a full directory, otherwise a new empty file or directory as asked for, to which the path leads; every other node is unchanged |
| FsLaws.UnlinkAtExact | src/vfs.c:402-430 | vfs_unlink succeeds exactly for a file in a directory, takes the name away, and the file with it exactly if it was the last name and the node was not cached; every other node is unchanged |
| FileSystem.CreatePathExact | src/vfs.c:44-93 | the same for vfs_create of a path string |
| Paths.SplitComponents | src/vfs.c:44-59 | the components of a path are those of the split-off parent followed by the name |
| Paths.ComponentsJoin | src/vfs.c:95-110 | a slash separates components and repeated slashes count once |
| FileSystem.BucketExists | src/vfs.c:139-160 | the bucket of the cache index is there whenever a lookup, create or unlink is enabled, because the directory itself is cached |
| FileSystem.SwapRemoves | src/fs/ramfs.c:101-103 | swap-with-last removes exactly that name and keeps names unique |
| FileSystem.Tree.FindChild | src/fs/ramfs.c:261-272 | the position of the name if and only if it is there |
| FileSystem.Tree.LockNode | src/vfs.c:230-235 | equals the specification |
| FileSystem.Tree.ReleaseNode | src/vfs.c:237-287 | equals the specification: evicted from the bucket lists exactly if the count was at most 2, freed exactly if besides no name is left |
| FileSystem.Tree.VfsNode | src/vfs.c:162-182 | the cached node, found in the bucket lists, or a new one put there |
| FileSystem.Tree.Lookup | src/fs/ramfs.c:20-36 | the child's VFS node if and only if the name is there |
| FileSystem.Tree.CreateIn | src/fs/ramfs.c:38-55 | equals the specification, with all three outcomes |
| FileSystem.Tree.LinkIn | src/fs/ramfs.c:68-81 | equals the specification; refused for a taken name or a full directory, otherwise the name leads to the file, whose count is one higher |
| FileSystem.Tree.UnlinkIn | src/fs/ramfs.c:83-118 | equals the specification; refused for a missing name or a directory |
| FileSystem.Tree.ResolvePath | src/vfs.c:95-137 | the loop over the characters of a path equals the walk over its components |
| FileSystem.Tree.CreatePath | src/vfs.c:61-93 | equals split, resolve, create, release and lock; a node that is new has the kind asked for, one name and no entries, and on success the path leads to it or no node has changed |
| FileSystem.Tree.UnlinkPath | src/vfs.c:402-430 | equals split, resolve, unlink and release |
| FileSystem.CreatePathThenResolve | src/vfs.c:44-137 | vfs_create then vfs_resolve of the same path gives the same node |
| FileSystem.UnlinkPathThenResolve | src/vfs.c:402-430 | vfs_unlink then vfs_resolve of the same path finds nothing |
| NodeCache.GetAt | src/vfs.c:139-160 | at most one node per key |
| NodeCache.PutGet | src/vfs.c:206-227 | adding a node changes the map at one key |
| NodeCache.EvictGet | src/vfs.c:258-279 | eviction removes exactly one key, and an empty bucket with it |
| NodeCache.Cache.Query | src/vfs.c:139-160 | the node with that key, if any; the search needs some node with that index, which FileSystem.BucketExists supplies |
| NodeCache.Cache.Put | src/vfs.c:184-228 | adds the key unless it is present |
| NodeCache.Cache.Evict | src/vfs.c:245-279 | removes exactly that key |
| NodeCache.Cache.Seek | src/vfs.c:141-147 | the bucket of an index |
| NodeCache.Cache.SeekSlot | src/vfs.c:149-158 | the slot of an id |
| Handles.RegisterKeeps | src/resource.c:5-29 | a new handle keeps every reference count equal to the number of slots that hold the resource |
| Handles.ShareKeeps | src/resource.c:52-56 | so does sharing |
| Handles.RemoveKeeps | src/resource.c:31-50 | and removing |
| Handles.ClosesExactly | src/resource.c:31-50 | close runs exactly when the slot was the only one that held the resource, and it had not run before |
| Handles.LiveIffHeld | src/resource.c:31-50 | a resource exists exactly as long as some slot holds it |
| Handles.AllClosed | src/resource.c:31-50 | with all tasks gone every resource ever opened has been closed |
| Handles.ReapedExactly | src/resource.c:31-50 | emptying a task's slots closes exactly the resources that it alone held |
| Handles.HandleTable.Open | src/resource.c:5-29 | the lowest empty slot holds the new resource with one reference, or failure exactly if there is none; nothing else changes |
| Handles.HandleTable.Close | src/resource.c:31-50 | the slot is empty afterwards and no other slot or resource changes; bad indexes and empty slots are refused and left alone |
| Handles.HandleTable.Fork | src/task_manager.c:175-181 | the child holds what the parent holds, slot by slot, and nothing is closed |
| Handles.HandleTable.Reap | src/task_manager.c:598-603 | the task's slots are gone, nobody else's change, and exactly the resources that it alone held are closed |

## Left out

- Boot code, GDT, IDT, TSS, PIC, PIT, port I/O, `invlpg`, CR3 loads and the TLB: hardware effects; only the current directory and the switch are modelled.
- Terminal, VGA, framebuffer, fonts, `vsnprintf`, user programs and newlib glue.
- The ustar parser and `ramfs_driver_init`: the initial tree is any one that satisfies the invariant.
- devfs and mount points: resolution is modelled inside one file system instance.
- ramfs file contents (`ramfs_write`, `ramfs_truncate`, `lseek`) except reads by the ELF loader.
- `vfs_open`, `vfs_link` and the other path wrappers beyond create, resolve and unlink: they would only add compositions of the modelled steps.
- Paths of 256 or more characters, where the code truncates or overruns its buffers.
- Init itself exiting, and the `previous` and tail pointers of child lists after a reparenting.
- Out-of-memory inside fork and task creation, which the code does not check: `Fork.CopyMapped` requires enough frames.
- User mappings in slots shared with the kernel: `MemoryPaging.Paging.Map` covers the slots that are a directory's own, below and above the kernel base, and `MemoryPaging.Paging.MapKernel` those of the kernel's directory.
- The queue of directories to destroy (`memory_paging_queue_to_destroy`), which only defers `MemoryPaging.Paging.DestroyDirectory` to the next schedule.
- `build_arguments_on_stack` and the initial kernel stack frame.
- File offsets, sizes and heap requests near 2^32: inputs are bounded by preconditions.
- The `signal_handlers` table, `sigaction` and the retry flag of interrupted system calls.
- KernelHeap.Heap.Allocate: bounds requests by 0x07FFFF00 bytes, because beyond that the source's 32-bit sums wrap (`HeapSpec.RangeCheckExact` says where).
- TaskManager.Manager.ReparentChildren: child lists are sequences; the list nodes that init's list takes from the kernel heap, and the return when there is none, are not modelled.
- TaskManager.Manager.ForkTask: the memory copy, the handles and the kernel stack of the child are in Fork, in Handles and left out.
- TaskManager.Manager.DestroyTask: handles and directory are taken down in Handles and MemoryPaging; the tick accounting is left out.
- TaskManager.Manager.SwitchTask: saved stack pointer, cr3 and the instruction pointer of a retried call are not part of the task record.
- TaskManager.Manager.SysWaitPid: hands the status out as a result; the null test and the store at the caller's address are not modelled, nor is the retry flag.
- TaskManager.Manager.SysRead: handles of the keyboard only, in blocking mode, with a valid buffer and without the retry flag.
- Signals.Task.DeliverSelf: says when a direct store faults; what the fault handler then does is not modelled, and the bytes stored before the fault are those that the copy writes.
- Elf.FailedExecLeaks: the stack pages that are mapped between the directory and the segments may take any frames for the directory; their unchecked failures (frame 0 mapped as a stack) are not modelled.
- Elf.Load: segments lie below the kernel base and in slots of the directory's own, as for user tasks (flags 7); kernel tasks loaded from ELF are left out.
- MemoryPaging.Paging.Translate: gives the address only; the bounce slot that the walk takes, and may keep, is in Windows.Machine.Translate.
- FsModel.DeletionIsDeferred: nodes and names; the data buffers that are freed with a node are not modelled.
- Bitmap.MemoryBitmap.Boot: requires available regions to end within the words of the bitmap; what the code clears behind them is not modelled.
- HeapSpec.CanGrowExact: takes the table of the bounce area as present; the first map after boot creates it with one frame more (`Windows.Machine.BounceAlloc`), which is not counted.
- HeapSpec.MallocIntact: says which page is unmapped; that the code faults when it writes there is not modelled.
