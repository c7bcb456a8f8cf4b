# RazOS core, modelled and proved in Dafny

RazOS is a small UNIX-like kernel with its own C library.  This project models the parts of it that carry its hardest
invariants and proves what they are supposed to do, for every input, every run and every reachable state:

- **Kernel heap** (`HeapSpec`, `HeapTheorems`, `HeapPlacement`, `KernelHeap`): the first-fit allocator behind `kmalloc`.  The
  first three describe it as a list of blocks; `KernelHeap` is the code, writing node headers into memory through
  the break that `ksbrk` moves, and is proved to do to memory what the list says.
- **Processes** (`TaskSpec`, `TaskFairness`, `TaskExamples`, `TaskTable`): fork, exit, wait and round-robin scheduling.  `TaskSpec` is the
  protocol as a state machine with queues of dead children; `TaskTable` is the code, where `wait_queue` is both the head of a
  parent's list and the link inside it.
- **Paging** (`PagingSpec`, `PagingClone`, `PagingKernel`, `PagingHeap`, `PagingBreak`, `PagingRights`, `PagingOwners`,
  `PagingDestroy`, `Paging`): the frame bitmap, two-level page tables (32-bit paging, section 4.3 of Intel SDM volume 3A), the
  rights in their entries, the first address space, cloning and tearing down further ones, the user heap, and the kernel break, whose rises and falls decide who owns
  which frame.  `Paging` is the code; what a step or a loop makes of a picture of the machine is the set of pictures it leads
  to (`Cloned`, `Torn`, `Fallen`, `Risen`, `Grown`, `Shrunk`).
- **`qsort`** (`Qsort`): dual-pivot quicksort that leaves short runs alone, and the insertion pass that finishes.
- **`mktime` and `gmtime`** (`Calendar`, `Mktime`): calendar arithmetic against a plain count of days.
- **The stack of a new program** (`ExecStack`): the image `execve` builds, read back the way a C program reads it.
- **printf** (`PrintfSpec`, `PrintfFormat`, `PrintfFlags`, `PrintfDirective`, `PrintfTwins`, `Printf`): the meaning of format strings, and the
  two engines that print them, one through a 16-byte buffer and one straight into memory.
- **The shell's tokenizer** (`Rash`): `rash_split_line` against a grammar of command lines.

`Layout` holds the memory map and what else several parts share, `Arith` facts about division, `Sets` facts about the sizes
of sets.

Code that changes things in place is a class or a method that changes arrays and fields, tied by its postcondition to a
function on values; the theorems are about those functions.  Where a promise turned out false of the code, the code is
kept and the project says exactly when it holds, with an input that breaks it:

- A page-aligned `kmalloc` is not always page-aligned (`AlignedIff`, `PageRequestMisaligned`); page tables and directories
  come from it (`PageAlignedIff`).
- `kvm_page_free` works on the page at the kernel break, above the last page of the heap.  When that page is absent, which it
  is after every rise, the frame freed is frame 0, reserved at boot.  So ending a task can free a frame that is in use: nobody
  loses a frame exactly when the break does not fall, or the page at the break is mapped, or frame 0 backs no page that stays
  (`FallExclusiveIff`, `FallOwnedIff`, `ForkThenDestroyOwned`).  A rise and a fall do not cancel either (`RiseThenFall`).  From
  every state whose break has risen since it last fell, and so soon after boot (`BootUnfallen`), freeing a table, growing a
  user heap by a page, and taking and freeing another table leaves that page on a free frame (`PageLosesFrame`); the allocator
  makes the break move that way (`TableCycle`).
- init's `sys_wait` counts children, not whose they are: collecting an adopted child spends the count of an own one.  Init is
  told that it has no child exactly when it has collected as many as it forked, and that is right exactly when no task exited
  before its children (`WaitFailsIff`).  Two runs end with a wrong report, one with a dead child uncollected
  (`EchildWithDeadChild`), one with a live child of init's own (`EchildWithOwnChild`).
- A second `gmtime` starts from what the first one left behind (`SecondCall`).
- `mktime` takes the length of a February beyond the year from the wrong year (`WalkSlips`, `SlipIff`, `LeapDaySlips`).
- The shell marks operators with control characters and does not keep them out of words: a quoted form feed comes back as a
  pipe (`QuotedPipe`, `ReadsBackIff`, `TakenRightIff`).
- The check that both breaks make before they fall lets increments through that wrap below address 0 (`ShrinkCheckRight`,
  `ShrinkCheckWraps`).
- Flags written inside `%-%` stay in force for the next conversion (`PendingIff`, `FlagsLeak`).
- The two printf engines agree except on `%p` (`TwinsAgreeIff`).

The comment in vdprintf.c says that a lone `.` means precision 0; the code leaves the precision unset, and so does the
model.

## Model

| member | source | states |
|---|---|---|
| HeapSpec.FirstFit | kernel/src/mm/kmalloc.c:90-131 | The block chosen fits and no block before it does; the last one is the fallback. |
| HeapSpec.MallocValid | kernel/src/mm/kmalloc.c:60-179 | A request keeps the heap valid: blocks tile the heap, 16-byte aligned, no two free neighbours, last one free. |
| HeapSpec.ReleaseValid | kernel/src/mm/kmalloc.c:193-206 | Freeing with merging on both sides keeps the list valid. |
| HeapSpec.FreeAtValid | kernel/src/mm/kmalloc.c:191-215 | Freeing any reserved block, giving pages back included, keeps the heap valid. |
| HeapTheorems.BlocksDisjoint | kernel/src/mm/kmalloc.c:60-215 | Two different blocks of a valid heap share no address, headers included. |
| HeapTheorems.BlockInside | kernel/src/mm/kmalloc.c:60-215 | Every block lies between the start of the heap and the break. |
| HeapTheorems.MallocReserves | kernel/src/mm/kmalloc.c:60-179 | A request that succeeds adds exactly one reserved block, of the rounded size, at the address returned; one that fails adds none. |
| HeapTheorems.FreeReleases | kernel/src/mm/kmalloc.c:191-215 | Freeing takes out exactly the block freed; all other reserved blocks keep address and size. |
| HeapTheorems.RunValid | kernel/src/mm/kmalloc.c:60-215 | After every run of legal calls the heap is valid. |
| HeapTheorems.RunKeeps | kernel/src/mm/kmalloc.c:60-215 | A reserved block survives every run that does not free it, apart from all others. |
| HeapTheorems.MallocFailsIff | kernel/src/mm/kmalloc.c:72-113 | With alignment up to a page, NULL is returned exactly when no block before the last fits and the break cannot rise far enough. |
| HeapPlacement.MallocPlaces | kernel/src/mm/kmalloc.c:60-176 | First fit: no block before the one a request stops at has room. One before the last is used as it is and the break stays; the last first gets the fewest whole pages that let it hold the request and one page more, or the request fails at the kernel stack. |
| HeapPlacement.MallocLowest | kernel/src/mm/kmalloc.c:90-131 | When some free block before the last is large enough for size and padding, a request succeeds below the end of every such block, and the break stays. |
| HeapPlacement.SearchLowest | kernel/src/mm/kmalloc.c:90-176 | The same of the search alone. |
| HeapPlacement.FreeGivesBack | kernel/src/mm/kmalloc.c:193-214 | The break falls exactly when the block freed ends up in the last one and that holds more than two pages; then less than a page stays. |
| HeapTheorems.AlignedIff | kernel/src/mm/kmalloc.c:115-150 | The result is aligned exactly when the chosen header is not 256 bytes below a boundary, or the alignment divides 240. |
| HeapTheorems.PageAlignedIff | kernel/src/mm/kmalloc.c:242-245 | What page tables and directories are made of is page-aligned exactly when the chosen header is not 256 bytes below a page boundary. |
| HeapTheorems.KmallocAligned | kernel/src/mm/kmalloc.c:248-251 | `kmalloc` always returns a 16-byte aligned address. |
| HeapTheorems.PageRequestMisaligned | kernel/src/mm/kmalloc.c:242-245 | Two calls after boot that end in a page-aligned request with an unaligned result. |
| HeapTheorems.FreeUndoesMalloc | kernel/src/mm/kmalloc.c:60-215 | Freeing what was just allocated restores the list; when the break did not move, the very same heap. |
| HeapTheorems.TableTaken | kernel/src/mm/kmalloc.c:60-179 | In a heap that is one free block a page table raises the break to three pages, if it is not there yet, and lies in the second. |
| HeapTheorems.TableGivenBack | kernel/src/mm/kmalloc.c:191-215 | Given back, it lets the break fall by all pages but one. |
| HeapTheorems.TableCycle | kernel/src/mm/kmalloc.c:60-215 | From the first table after boot on, taking and freeing a table moves the break up to three pages and down two. |
| KernelHeap.KHeap.Ksbrk | kernel/src/mm/kvm.c:109-145 | Rises by whole pages, refused exactly when the bytes do not fit below the kernel stack; falls by whole pages, refused exactly when the 32-bit sum lies below the start; nothing moves when refused; memory below the break stays. What the moves do to pages and frames is `Paging.Mmu.Rise` and `Paging.Mmu.Fall`. |
| KernelHeap.KHeap.CarvePlain | kernel/src/mm/kmalloc.c:133-174 | Without padding: headers in memory become those of the new list, nothing else is written outside the node and one back link. |
| KernelHeap.KHeap.CarvePadded | kernel/src/mm/kmalloc.c:133-174 | The same with a padding node in front, including the size that wraps when there is no next node. |
| KernelHeap.KHeap.GrowBy | kernel/src/mm/kmalloc.c:103-111 | The last node takes over exactly the pages the break gained. |
| KernelHeap.KHeap.SearchLoop | kernel/src/mm/kmalloc.c:90-176 | The loop over `next` links computes the search on the list; no node before the last that lies below the address returned had room, and if one before the last had, the break stays. |
| KernelHeap.KHeap.MakeHeap | kernel/src/mm/kmalloc.c:72-88 | The first request makes one free node; its failure leaves -1 behind. |
| KernelHeap.KHeap.DoKmalloc | kernel/src/mm/kmalloc.c:60-179 | Memory changes as the list does, and no byte of any reserved block changes; the address returned lies below the end of every node before the last that had room, and if there was one, the break stays. |
| KernelHeap.KHeap.KmallocA | kernel/src/mm/kmalloc.c:231-239 | The same with the alignment rounded up to 16. |
| KernelHeap.KHeap.UnifyFwd | kernel/src/mm/kmalloc.c:182-189 | The node absorbs its successor in memory and in the list. |
| KernelHeap.KHeap.Release | kernel/src/mm/kmalloc.c:193-206 | Marking free and merging both ways, in memory and in the list. |
| KernelHeap.KHeap.DropPages | kernel/src/mm/kmalloc.c:211-213 | The last node shrinks by exactly the whole pages it held. |
| KernelHeap.KHeap.DoKfree | kernel/src/mm/kmalloc.c:191-215 | Memory changes as the list does, and no byte of any block still reserved changes. |
| TaskSpec.BootInv | kernel/src/mm/task.c:99-123 | The state after `task_init` satisfies the invariant. |
| TaskSpec.ForkInv | kernel/src/mm/task.c:126-148 | fork keeps the invariant: parents live, queues hold exactly the dead children, once each, counters right, no lost wake-up. |
| TaskSpec.ReapInv | kernel/src/syscall/sys_tasking.c:103-120 | Collecting a dead child keeps it. |
| TaskSpec.BlockInv | kernel/src/syscall/sys_tasking.c:122-125 | Going to sleep in wait keeps it. |
| TaskSpec.KillInv | kernel/src/mm/task.c:150-191 | Exit, with its zombies destroyed and its orphans handed to init, keeps it. |
| TaskSpec.RunInv | kernel/src/syscall/sys_tasking.c:61-134 | Every state of every run of fork, exit, wait, yield and ticks satisfies the invariant. |
| TaskSpec.ReadyBelow | kernel/src/syscall/sys_tasking.c:91-127 | From any live task, following live children reaches a ready one. |
| TaskSpec.SomeReady | kernel/src/mm/task.c:221-242 | Some task is always ready, orphans or not: the panic in `sched_next` is unreachable. |
| TaskSpec.NextIsNearest | kernel/src/mm/task.c:221-242 | The task chosen is ready and comes no later in cyclic order than any ready task. |
| TaskFairness.StepRunsNext | kernel/src/syscall/sys_tasking.c:61-134 | Every step: the processor changes hands exactly when a task yields, exits or sleeps in wait, and then goes to the ready task that comes first after it, in the order of pids, round the table. |
| TaskFairness.StaysReady | kernel/src/mm/task.c:150-219 | No step takes a task's readiness away but its own. |
| TaskFairness.BoundedWaiting | kernel/src/mm/task.c:221-242 | Over every run a ready task gets the processor within as many give-ups as it is slots ahead of the running one, at most 254, whatever forks, deaths and sleeps happen in between. |
| TaskSpec.StepFifo | kernel/src/syscall/sys_tasking.c:91-127 | Each step: statuses queued before and of children that die equal those returned and those queued after. |
| TaskSpec.RunFifo | kernel/src/syscall/sys_tasking.c:91-127 | Over a whole run exit statuses are delivered in order of death, each exactly once. |
| TaskSpec.RunCounter | kernel/src/mm/task.c:126-219 | Over every run the counter of a surviving task is what it was, plus its forks, minus what its waits returned. |
| TaskSpec.InitChildren | kernel/src/mm/task.c:167-173 | After every run from boot init has as many children as it forked and was handed, minus those it collected. |
| TaskSpec.WaitFailsIff | kernel/src/syscall/sys_tasking.c:91-101 | Over every run from boot: another task's wait fails exactly when it has no child; init's exactly when it has collected as many as it forked, and the report is right exactly when it is not made or nobody was orphaned. |
| TaskExamples.EchildWithDeadChild | kernel/src/mm/task.c:167-173 | A run from boot after which init has a dead child in its queue and wait still fails. |
| TaskExamples.EchildWithOwnChild | kernel/src/mm/task.c:167-173 | A run from boot after which init's only child is one it forked itself, alive, and wait still fails. |
| TaskTable.Kernel.constructor | kernel/src/mm/task.c:99-123 | `task_init` leaves one task, init, in a table that satisfies the invariant. |
| TaskTable.Kernel.SchedNext | kernel/src/mm/task.c:221-242 | The scan over the table returns the nearest ready task. |
| TaskTable.Kernel.SchedSwitch | kernel/src/syscall/sys_tasking.c:129-134 | After a switch the running task is ready, no ready task comes between the old one and it, and the invariant holds. |
| TaskTable.Kernel.AllocEmptyTask | kernel/src/mm/task.c:75-96 | The lowest free pid is taken; NULL when there is none. |
| TaskTable.Kernel.SysFork | kernel/src/syscall/sys_tasking.c:74-89 | The code takes the fork step and returns the lowest free pid. |
| TaskTable.Kernel.SysSchedYield | kernel/src/syscall/sys_tasking.c:129-134 | The code takes the yield step, to the next ready task. |
| TaskTable.Kernel.CollectOldest | kernel/src/syscall/sys_tasking.c:103-120 | The head of the linked queue is unlinked, destroyed and its status returned. |
| TaskTable.Kernel.SysWait | kernel/src/syscall/sys_tasking.c:91-127 | The code takes the wait step: fails, collects the oldest dead child, or sleeps, and then the next ready task runs. |
| TaskTable.Kernel.DestroyZombies | kernel/src/mm/task.c:157-165 | Walking the list destroys exactly the uncollected dead children. |
| TaskTable.Kernel.Reparent | kernel/src/mm/task.c:167-173 | Exactly the live children get init as parent. |
| TaskTable.Kernel.JoinQueue | kernel/src/mm/task.c:175-190 | The task is appended to the end of its parent's list, and the parent is woken. |
| TaskTable.Kernel.TaskKill | kernel/src/mm/task.c:150-191 | The links represent the queues of the state after the kill. |
| TaskTable.Kernel.SysExit | kernel/src/syscall/sys_tasking.c:61-72 | The code takes the exit step, and the next ready task runs. |
| PagingSpec.MapRefines | kernel/src/mm/paging.c:181-237 | `page_map` gives its page the new entry, in every address space that shares the table, and changes no other page. |
| PagingSpec.FlagsRoundTrip | kernel/src/mm/paging.c:258-293 | `page_flags` returns the mapped flags in its lower half (bit 7 is never stored); passing its result on maps the same. |
| PagingSpec.MapsRefine | kernel/src/mm/paging.c:181-237 | After any sequence of `page_map` calls each page has the entry of its last call. |
| PagingSpec.GetPhysAfter | kernel/src/mm/paging.c:240-255 | After any such sequence `get_phys` is the last frame mapped plus the offset, or 0. |
| PagingSpec.MapValid | kernel/src/mm/paging.c:181-237 | `page_map` keeps the tables well-formed, the hardware's entries marked present exactly where there is a table, and private tables unshared. |
| PagingRights.MapRights | kernel/src/mm/paging.c:190-232 | Bit by bit: a table made by `page_map` gets a directory entry with present set, size and bit 6 clear and the other rights of the page; one that is there can only become writable; the page gets its frame and all its rights but bit 7. |
| PagingRights.FlagsReport | kernel/src/mm/paging.c:258-293 | `page_flags` reports the rights of the directory entry in its upper half and those of the page in its lower. |
| PagingRights.FirstUserPage | kernel/src/mm/paging.c:190-293 | Mapping the first user page with flags 7 makes a directory entry 7, and `page_flags` 0x00070007. |
| PagingRights.RightsAfter | kernel/src/mm/paging.c:204-232 | Over any sequence of calls a directory entry becomes writable with the first writable page mapped through it; its other rights stay those of the call that made its table. |
| PagingRights.UserPage | kernel/src/mm/uvm.c:27-49 | A page added to the user heap is present, writable and open to user mode, and holds 4096 zeros. |
| PagingRights.KernelPage | kernel/src/mm/kvm.c:36-61 | A page added to the kernel heap is present and writable, closed to user mode, and holds 4096 zeros. |
| PagingRights.FirstPages | kernel/src/mm/paging.c:351-413 | So are the pages mapped to themselves and those of the kernel stack; no others are present after boot. |
| PagingClone.CopyEffect | kernel/src/mm/paging.c:145-155 | Copying one page through the window at page 0 changes that page of the child and nothing else; the window is closed again. |
| PagingClone.CloneStart | kernel/src/mm/paging.c:130-135 | After linking, the child shares tables 0 to 62, with the rights of their directory entries, and has no page above them. |
| PagingClone.ClearKeeps | kernel/src/mm/paging.c:160-166 | Freeing tables 63 to 1023 leaves every other address space whole and unchanged. |
| PagingClone.ForkThenTearFrames | kernel/src/mm/task.c:193-209 | Unmapping the pages of a freshly forked child gives back exactly the frames the fork took. |
| PagingClone.CloneExclusive | kernel/src/mm/paging.c:128-157 | Fork keeps it that every frame of a private page is in use and backs one page of one task. |
| PagingClone.TearExclusive | kernel/src/mm/task.c:193-213 | Tearing down keeps it. |
| PagingClone.ClearExclusive | kernel/src/mm/paging.c:160-166 | Dropping the directory and its tables keeps it, before the break falls. |
| PagingClone.AddExclusive | kernel/src/mm/uvm.c:28-48 | Adding a heap page keeps it. |
| PagingClone.FreeExclusive | kernel/src/mm/uvm.c:51-57 | Removing a heap page keeps it. |
| PagingKernel.NewDir | kernel/src/mm/paging.c:114-125 | A new directory maps nothing and changes no page, no frame's owner and no link to the kernel tables. |
| PagingKernel.CloneLinked | kernel/src/mm/paging.c:128-135 | After a clone all address spaces share the kernel tables. |
| PagingKernel.MapLinked | kernel/src/mm/paging.c:181-237 | Mapping a page from the kernel stack up keeps the kernel tables shared. |
| PagingKernel.DestroyLinked | kernel/src/mm/task.c:193-213 | Destroying an address space keeps the kernel tables of the others shared. |
| PagingKernel.FreshValid | kernel/src/mm/paging.c:388-410 | Fresh kernel tables are well-formed and map nothing. |
| PagingBreak.BreakMap | kernel/src/mm/kvm.c:64-71 | Mapping the page at the break changes it in every address space, or only in the first when the heap has filled up to the kernel stack. |
| PagingBreak.FallHeap | kernel/src/mm/kvm.c:126-138 | After a fall the heap's pages end at the new break, and the page there is left mapped. |
| PagingBreak.FallTwice | kernel/src/mm/kvm.c:126-138 | Falls add up: which pages are gone and which frames are free depends on the total. |
| PagingBreak.FallExclusiveIff | kernel/src/mm/kvm.c:64-71 | A fall keeps it that private frames are in use exactly when the page at the break is mapped or frame 0 backs no private page. |
| PagingBreak.FallOwnedIff | kernel/src/mm/kvm.c:64-71 | Kernel heap included, everybody keeps their frames exactly when nothing falls, the page at the break is mapped, or frame 0 backs neither a private page nor a heap page that stays. |
| PagingBreak.RiseOwned | kernel/src/mm/kvm.c:36-61 | Nobody loses a frame when the break rises. |
| PagingBreak.RiseThenFall | kernel/src/mm/kvm.c:109-138 | A rise and a fall by as many pages leave in use what was, less the frame named by the page above, plus the first frame taken, whose page stays mapped at the break. |
| PagingOwners.BootState | kernel/src/mm/paging.c:412-415 | At boot the kernel heap is empty above the identity map, frame 0 is in use and backs nothing. |
| PagingOwners.ForkKept | kernel/src/mm/task.c:126-131 | Fork leaves the kernel heap and its frames alone. |
| PagingOwners.DestroyKept | kernel/src/mm/task.c:193-209 | So does unmapping and dropping an address space, before the break falls. |
| PagingDestroy.DropTable | kernel/src/mm/paging.c:160-166 | Freeing a table of a directory that is gone commutes with any fall of the break. |
| PagingDestroy.ForkThenDestroyFrames | kernel/src/mm/task.c:193-219 | After fork and destroy the frames in use are those before, less those the fall frees: all of them exactly when the break does not fall, or falls one page and finds a frame not in use. |
| PagingDestroy.ForkThenDestroyPages | kernel/src/mm/task.c:193-219 | Every page of every address space is as before, but for the kernel pages above the new break. |
| PagingDestroy.ForkThenDestroyOwned | kernel/src/mm/task.c:193-219 | Everybody still owns their frames exactly when the fall was safe to begin with. |
| Paging.SplitIndices | kernel/src/mm/paging.c:128-166 | The two differently computed borders between shared and private tables are both 63. |
| Paging.Mmu.constructor | kernel/src/mm/paging.c:366-419 | After `paging_init` one address space maps the pages below the end of the identity map to themselves, page 0 aside, and the kernel stack to frames of its own, and nothing else; the kernel heap is empty and starts above; the invariant of all later calls holds. |
| Paging.Mmu.CreatePageDir | kernel/src/mm/paging.c:114-125 | One empty directory at an unused address. |
| Paging.Mmu.KernelTables | kernel/src/mm/paging.c:388-410 | Tables 0 to 63, empty, pairwise distinct, present and writable in the directory and closed to user mode. |
| Paging.Mmu.IdentityMap | kernel/src/mm/paging.c:330-348 | Exactly pages 1 to n - 1 are mapped to themselves and exactly frames 0 to n - 1 are in use. |
| Paging.Mmu.CreateKstack | kernel/src/mm/paging.c:351-355 | Exactly the kernel stack pages are added, each with a frame of its own. |
| Paging.Mmu.FrameAlloc | kernel/src/mm/paging.c:57-93 | The lowest free frame is taken; 0 when there is none. |
| Paging.Mmu.FrameFree | kernel/src/mm/paging.c:50-99 | Exactly that frame becomes free. |
| Paging.Mmu.PageMap | kernel/src/mm/paging.c:181-237 | The code updates the tables as the value model says; the directory entry has the rights of `RightsGiven`. |
| Paging.Mmu.ClonePageDir | kernel/src/mm/paging.c:128-157 | Through the window in `cur_page_dir`, whichever task runs: the child gets the same present pages, flags and bytes, in frames that were free and are pairwise distinct, and shares exactly tables 0 to 62; nothing else changes. |
| Paging.Mmu.ForkSpace | kernel/src/mm/task.c:126-131 | The memory side of fork keeps the whole invariant: tables, frame ownership, shared kernel tables, the kernel heap. |
| Paging.Mmu.TearDown | kernel/src/mm/task.c:193-208 | Exactly the private pages go and exactly their frames become free. |
| Paging.Mmu.ClearPageDir | kernel/src/mm/paging.c:160-166 | Exactly the private tables are freed; the break falls by what each `kfree` gives, with the pages and frames that takes. |
| Paging.Mmu.DestroySpace | kernel/src/mm/task.c:193-219 | Exactly the private pages, their frames, the private tables and the directory go, and the break falls by what the `kfree` calls give in all; the invariant holds afterwards exactly when that fall was safe. |
| Paging.Mmu.KvmPageAllocZeroed | kernel/src/mm/kvm.c:36-61 | The page at the break gets the lowest free frame, in every address space, and is zeroed. |
| Paging.Mmu.KvmPageFree | kernel/src/mm/kvm.c:64-71 | The page at the break goes, in every address space, and the frame `get_phys` names for it is free: frame 0 when it was absent. |
| Paging.Mmu.Rise | kernel/src/mm/kvm.c:113-125 | n pages of zeros in n different frames that were free; the invariant is kept. |
| Paging.Mmu.Fall | kernel/src/mm/kvm.c:126-138 | The frames of pages B, B - 1, ..., B - n + 1 are freed, B being the page at the break, and page B - n stays mapped; the invariant is kept exactly when the fall is safe. |
| Paging.PageLosesFrame | kernel/src/mm/kvm.c:64-71 | From every state in order whose break has risen since it last fell: a run of calls after which a page is mapped to frame 0 and frame 0 is free. |
| Paging.BootUnfallen | kernel/src/mm/paging.c:366-419 | Boot and a first table lead to such a state. |
| Layout.ShrinkCheckRight | kernel/src/mm/uvm.c:114-118 | The bounds check of a falling break, here and in kernel/src/mm/kvm.c, is right exactly when the sum does not go below address 0. |
| Layout.ShrinkCheckWraps | kernel/src/mm/kvm.c:129-131 | For each of the two breaks, an increment that passes the check and would put the end below the beginning. |
| PagingHeap.GrowThenShrink | kernel/src/mm/uvm.c:97-133 | Giving back what was taken restores frames, pages and bytes. |
| PagingHeap.HeapStart | kernel/src/loader/exec.c:186-189 | The heap starts at a table boundary above the program and not above the stack. |
| Paging.Mmu.BeginHeap | kernel/src/loader/exec.c:186-189 | The empty heap `execve` sets up satisfies the heap's invariant. |
| Paging.Mmu.UvmPageAlloc | kernel/src/mm/uvm.c:28-48 | A page of zeros in the lowest free frame at the end of the heap; NULL at the stack; flags 7 and 4096 zeros. |
| Paging.Mmu.UvmPageFree | kernel/src/mm/uvm.c:51-57 | The last page goes and its frame becomes free. |
| Paging.Mmu.GrowHeap | kernel/src/mm/uvm.c:101-112 | A page for every 4096 bytes begun, until the stack. |
| Paging.Mmu.ShrinkHeap | kernel/src/mm/uvm.c:114-126 | Only whole pages are given back. |
| Paging.Mmu.UvmSbrk | kernel/src/mm/uvm.c:97-133 | The heap stays aligned, below the stack, with exactly its pages mapped; what is returned, by how much it moves, and what failure leaves behind. |
| Qsort.SwapBytes | rlibc/stdlib/qsort.c:7-11 | Two stretches of bytes are exchanged and nothing else changes. |
| Qsort.ViewExists | rlibc/stdlib/qsort.c:66-70 | Any array of whole elements can be seen as a sequence of elements. |
| Qsort.ViewUnique | rlibc/stdlib/qsort.c:66-70 | ... in one way only. |
| Qsort.FewMoves | rlibc/stdlib/qsort.c:13-21 | In a near-sorted array an element sinks at most four places. |
| Qsort.Isort | rlibc/stdlib/qsort.c:13-21 | A permutation for any comparison; sorted for a consistent one; the arrays between insertions, each one its predecessor with element k moved down past exactly the larger elements before it; at most four places when near-sorted. |
| Qsort.JoinNear | rlibc/stdlib/qsort.c:56-63 | Three near-sorted parts around the pivots make a near-sorted whole. |
| Qsort.ChoosePivots | rlibc/stdlib/qsort.c:29-32 | Two inner elements become the pivots, the smaller first. |
| Qsort.PartitionLoop | rlibc/stdlib/qsort.c:34-55 | Elements end up on the right side of the pivots. |
| Qsort.Partition | rlibc/stdlib/qsort.c:29-59 | A permutation split at the final places of the pivots. |
| Qsort.Dsort | rlibc/stdlib/qsort.c:25-64 | A permutation of its range; elements five or more apart are in order when the comparison is consistent. |
| Qsort.QsortBytes | rlibc/stdlib/qsort.c:66-70 | A permutation for every length and element size; for a comparison consistent on elements of that size, `dsort` leaves elements five or more apart in order, the result is sorted, and each insertion in between takes at most four swaps. |
| Calendar.YearClosed | rlibc/time/mktime.c:92-98 | Days before a year, summed year by year, equal the closed form with leap years. |
| Calendar.GetDowCounts | rlibc/time/mktime.c:29-35 | The weekday formula is (4 + days since the Epoch) mod 7. |
| Calendar.DateUnique | rlibc/time/mktime.c:19-27 | A day number belongs to at most one valid date. |
| Mktime.DateExists | rlibc/time/mktime.c:57-75 | From January 1st of year 1 on it belongs to one: the carry loop finds it. |
| Mktime.PosixCounts | rlibc/time/mktime.c:86-98 | The "Seconds Since the Epoch" expression of POSIX.1-2008, Base Definitions section 4.15, counts days. |
| Mktime.NormalIsPosix | rlibc/time/mktime.c:37-102 | What a normalised struct denotes is that expression on its fields. |
| Mktime.NormalUnique | rlibc/time/mktime.c:37-102 | An instant has exactly one normalised struct, weekday and day of the year included. |
| Mktime.Tm.CarryTime | rlibc/time/mktime.c:45-53 | Carrying seconds, minutes and hours keeps the instant and brings them into range. |
| Mktime.WalkSlips | rlibc/time/mktime.c:57-69 | The carry loop ends at the day that was meant plus the Februaries it gives the wrong length. |
| Mktime.NoSlip | rlibc/time/mktime.c:57-69 | From a month of the year it gives none the wrong length. |
| Mktime.SlipSign | rlibc/time/mktime.c:57-69 | Slips never cancel: the Februaries passed are all taken to be long or all short, so the loop ends on another day exactly when one of them is given the wrong length. |
| Mktime.WrongIff | rlibc/time/mktime.c:57-69 | One is exactly when, for some t, the days last past February number t, months are still to carry there, and just one of the year assumed and the true year is a leap year. |
| Mktime.SlipIff | rlibc/time/mktime.c:57-69 | For every month and day that 32 bits can hold the loop ends on another day exactly then. |
| Mktime.LeapDaySlips | rlibc/time/mktime.c:57-69 | February 29th, 2000, given as month 13 of 1999, comes out as March 1st. |
| Mktime.LandedRight | rlibc/time/mktime.c:57-75 | With the remaining years carried the month is in range, and the date is valid when the month was one of the year. |
| Mktime.Tm.CarryMonths | rlibc/time/mktime.c:57-69 | The loop computes that walk, without overflow. |
| Mktime.Tm.CarryYears | rlibc/time/mktime.c:71-75 | The remaining months become years. |
| Mktime.Tm.CarryDate | rlibc/time/mktime.c:54-76 | Both loops together. |
| Mktime.Tm.FillDays | rlibc/time/mktime.c:77-84 | The weekday is (4 + days since the Epoch) mod 7 and the day of the year counts from 1. |
| Mktime.Tm.AddUp | rlibc/time/mktime.c:86-101 | The sum is the instant and no partial sum leaves 32 bits. |
| Mktime.Tm.Mktime | rlibc/time/mktime.c:37-102 | The result is the instant denoted plus the days missed, and right exactly when no February is misjudged; for a month of the year it is right and the struct is normalised. |
| Mktime.Gmtime.constructor | rlibc/time/gmtime.c:21-30 | The initial struct denotes the Epoch. |
| Mktime.Gmtime.Call | rlibc/time/gmtime.c:19-38 | The result is normalised and denotes the time asked for, counted from where the struct was left. |
| Mktime.GmtimeThenMktime | rlibc/time/gmtime.c:19-38 | For every 0 <= t < 2^31, `mktime` on the result of `gmtime` from its initial struct is t. |
| Mktime.SecondCall | rlibc/time/gmtime.c:19-38 | A second `gmtime` is right exactly when the first time was less than 60. |
| ExecStack.ReadsVector | kernel/src/loader/exec.c:201-257 | Following the pointers of an image that holds them gives back the strings. |
| ExecStack.VectorLasts | kernel/src/loader/exec.c:219-257 | A finished vector is read back whatever is pushed below it. |
| ExecStack.Stack.PushByte | kernel/src/loader/exec.c:49-56 | One byte, below the stack pointer, nothing above changes. |
| ExecStack.Stack.PushWord | kernel/src/loader/exec.c:57-65 | The word is read back little-endian. |
| ExecStack.Stack.PushString | kernel/src/loader/exec.c:209-212 | The string and its NUL lie at the new stack pointer. |
| ExecStack.Stack.PushStrings | kernel/src/loader/exec.c:207-216 | Each string lies at the address stored for it. |
| ExecStack.Stack.PushPointers | kernel/src/loader/exec.c:218-222 | The pointers lie in order, followed by a zero word. |
| ExecStack.Stack.PushVector | kernel/src/loader/exec.c:205-229 | The vector is aligned and reads back as the strings. |
| ExecStack.Stack.BuildStack | kernel/src/loader/exec.c:201-257 | From the three addresses a program reads exactly its environment, its arguments and their number; all are 4-aligned. |
| PrintfSpec.NumTextLength | rlibc/stdio/vdprintf.c:129-233 | A number takes max(width, sign + prefix + max(precision, digits)) characters. |
| PrintfSpec.ScratchEnough | rlibc/stdio/vdprintf.c:177-187 | No 32-bit number needs more than 32 of the 36 scratch places, in any base. |
| PrintfSpec.NumTextReadsBack | rlibc/stdio/vdprintf.c:129-233 | Printed with any base, width, precision and flags, a number reads back as itself (modulo 2^32 when unsigned). |
| Printf.ScratchDigits | rlibc/stdio/vdprintf.c:175-187 | The scratch area holds the digits, last first, without overrun. |
| Printf.NumTextPieces | rlibc/stdio/vdprintf.c:189-232 | The pieces printed make up the field: padding used up once is not printed again. |
| Printf.Prepare | rlibc/stdio/vdprintf.c:129-192 | Sign, width left, zeros and digits from which either engine prints the number. |
| Printf.WBuf.Flush | rlibc/stdio/vdprintf.c:99-108 | Chunks written and pending buffer together do not change. |
| Printf.WBuf.Put | rlibc/stdio/vdprintf.c:110-117 | They grow by exactly the character, and the buffer never overruns. |
| Printf.WBuf.NumStr | rlibc/stdio/vdprintf.c:129-233 | The converted number is printed; nothing for a base outside 2 to 36. |
| Printf.WBuf.PutChar | rlibc/stdio/vdprintf.c:539-549 | `%c` is justified in its field. |
| Printf.WBuf.PutString | rlibc/stdio/vdprintf.c:552-574 | `%s` is clipped to the precision and justified. |
| Printf.WBuf.Vdprintf | rlibc/stdio/vdprintf.c:371-625 | For every whole format, unknown conversions and `%p` included, the chunks written are its output and a NUL, which is counted. |
| Printf.KBuf.NumStr | kernel/lib/vsprintf.c:43-151 | The same text as the buffered twin, for every number, base, width, precision and flags; NULL for a base outside 2 to 36. |
| Printf.Vsprintf | kernel/lib/vsprintf.c:153-399 | For every whole format the buffer holds its output, then a NUL; its length is returned. |
| PrintfFormat.AtoiPtr | rlibc/stdio/vdprintf.c:119-127 | Reads exactly the digits and computes the number they write in base 10. |
| PrintfDirective.AtoiDigits | rlibc/stdio/vdprintf.c:119-127 | The decimal digits of n, read as a width, are n. |
| PrintfDirective.NumberPrints | rlibc/stdio/vdprintf.c:451-536 | A format that is one directive with flags, a decimal width and a conversion prints at least that many characters, in both engines the same, which read back as the number in base 10 for d, i and u, 8 for o, 16 for x and X; as it was for d, i and with `+`, else modulo 2^32. |
| PrintfDirective.NumberText | rlibc/stdio/vdprintf.c:405-536 | What each flag does to the text of a number: `-` blanks after it, `0` zeros before the digits, `+` and space a sign, `#` a prefix; the precision a number of digits; `h` 16 signed bits. |
| PrintfDirective.PointerIsHex | rlibc/stdio/vdprintf.c:576-584 | `%p` is `%x` with eight zero-filled places unless a width is given, and in the kernel with the prefix. |
| PrintfDirective.CharacterText | rlibc/stdio/vdprintf.c:539-549 | `%c` prints its argument modulo 256, with blanks before it, with `-` after it. |
| PrintfDirective.StringText | rlibc/stdio/vdprintf.c:552-574 | `%s` prints at most as many characters as the precision says, placed in the same way; nothing of NULL. |
| PrintfDirective.DirectiveTask | rlibc/stdio/vdprintf.c:448-618 | Width and precision are the numbers written or the arguments that `*` takes, in this order; then comes the argument of the conversion; no flags stay. |
| PrintfDirective.WellWritten | rlibc/stdio/vdprintf.c:400-586 | Which characters make up a directive, and how it is written. |
| PrintfDirective.PlainPrints | rlibc/stdio/vdprintf.c:391-397 | Text without `%` prints itself. |
| PrintfDirective.TenPlaces | rlibc/stdio/vdprintf.c:451-453 | `%10d` prints a seven in ten places. |
| PrintfDirective.DigitChars | rlibc/stdio/vdprintf.c:129-187 | The digits are 0 to 9 and then letters, small ones for x. |
| PrintfDirective.DigitsStart | rlibc/stdio/vdprintf.c:175-187 | A number is written without leading zeros, 0 as one zero. |
| PrintfFormat.Machine.Step | rlibc/stdio/vdprintf.c:389-618 | A pass of the state machine stays in its item or prints what the item means and goes on; it always makes progress. |
| PrintfFormat.MovesOutput | rlibc/stdio/vdprintf.c:389-618 | What is printed and what remains always make up the meaning of the format. |
| PrintfFormat.LayOut | rlibc/stdio/vdprintf.c:389-618 | The characters of a format lie where the machine looks for them. |
| PrintfFormat.OutputJoins | rlibc/stdio/vdprintf.c:389-618 | A format put together from two prints what the two print, the second with the flags the first leaves. |
| PrintfFlags.PendingIff | rlibc/stdio/vdprintf.c:400-446 | In either engine, whatever follows a format prints what it prints alone, for all arguments, exactly when no `%` with flags comes after the format's last conversion. |
| PrintfFlags.Witness | rlibc/stdio/vdprintf.c:400-446 | For every set of flags that can be pending there is a conversion whose text they change. |
| PrintfFlags.FlagsLeak | rlibc/stdio/vdprintf.c:400-412 | With 7, `%-%%3d` prints the digit before the blanks, `%%%3d` after them. |
| PrintfTwins.HexXs | kernel/lib/vsprintf.c:361-373 | A small hexadecimal number holds an x exactly when it has the prefix. |
| PrintfTwins.TwinsAgreeIff | kernel/lib/vsprintf.c:361-373 | For every format and all arguments the two engines print the same exactly when every `%p` asks for its prefix itself. |
| Rash.SplitsByGrammar | rlibc/rash.c:210-292 | Every line has a reading in the grammar, and the lexer returns the tokens of any reading it has; an open quote or last backslash drops the last word. |
| Rash.LexPiece | rlibc/rash.c:224-263 | A piece of a line has the same effect in every context. |
| Rash.OrdinaryStay | rlibc/rash.c:226-250 | Outside quotes every character but blank, line break, tab, the three operators, quote, backslash and NUL stays in its word. |
| Rash.WordEnds | rlibc/rash.c:226-243 | A word ends at a blank, line break, tab or operator; pipe, less-than and greater-than give the tokens form feed, bell and backspace; the rest of the line is split as if it stood alone. |
| Rash.LastWord | rlibc/rash.c:226-237 | A word ends with the line. |
| Rash.QuotesJoin | rlibc/rash.c:245-258 | What stands between quotes joins the word as it is. |
| Rash.EscapeJoins | rlibc/rash.c:247-263 | So does the character after a backslash. |
| Rash.TwoWords | rlibc/rash.c:226-243 | Two words with one separator between them. |
| Rash.Redirects | rlibc/rash.c:238-243 | A command and a file with ` >` between them give command, backspace, file. |
| Rash.QuotingRoundTrip | rlibc/rash.c:210-292 | Words written escaped or quoted, and operators, give as tokens the words and the operators' marks, in order. |
| Rash.QuotedPipe | rlibc/rash.c:238-243 | A quoted form feed gives the token of a pipe. |
| Rash.ReadsBackIff | rlibc/rash.c:210-292 | The items can be read back from the tokens, up to how words were quoted, exactly when no word is the mark of an operator. |
| Rash.TokensDetermine | rlibc/rash.c:210-292 | Two lists without such words that give the same tokens are the same. |
| Rash.TakenRightIff | rlibc/rash.c:139-161 | `rash_launch` takes each argument it looks at for what was written exactly when no word contains a mark. |
| Rash.Lexer.Feed | rlibc/rash.c:224-263 | One character through the switch; outside quotes an ordinary one joins the word, a separator ends it and an operator gives its mark. |
| Rash.Lexer.MakeRoom | rlibc/rash.c:275-284 | The buffer keeps its contents and has room for a character and its terminator. |
| Rash.SplitLine | rlibc/rash.c:210-292 | The loop returns what the automaton emits; a line of ordinary characters is one token, and one separator in it makes two, with the operator's mark between them. |

## Left out

- Kernel heap: requests of nearly 2 GiB, where the signed increment of `ksbrk` turns negative; `kbrk`; allocation before paging is on. Memory is words at header offsets, not single bytes; `kfree` of anything but a live pointer.
- KernelHeap.KHeap.DoKmalloc: requires that no earlier first request failed; after such a failure `kheap_start` is -1 and the code would follow it as a pointer.
- KernelHeap.KHeap.KmallocA: the same two exclusions as DoKmalloc, a failed first request and sizes near 2 GiB.
- TaskTable.Kernel.SysFork: a full table, where `alloc_empty_task` returns NULL and the code writes through it.
- Processes: init's exit, which shuts the machine down; the check that fork does not make for a full table (it is a precondition); files, kernel stacks and registers of a task; the panic message. Tasks are known by pid, so a pointer to a destroyed task is not modelled.
- Paging: the packing of the frame bitmap into 32-bit words and of entries into bit fields; where the memory map comes from at boot; the allocation of tables, directories and tasks from the kernel heap, which is taken to succeed at an unused address; the rises of the kernel break it causes are calls of `Paging.Mmu.Rise` of their own, before or after the call that allocates, not in the middle of it, and how far each `kfree` lets the break fall is a parameter; the physical address in a directory entry, which drops the offset of a table that is not page-aligned (`HeapTheorems.PageAlignedIff`): the hardware would walk other memory; TLB flushes; running out of frames, which callers do not check (enough free frames is a precondition).
- Paging.Mmu.UvmSbrk: shrinking past address 0, where the code frees pages below the heap; `uvm_brk`; the heap bounds of a forked child before exec, which fork does not copy.
- Qsort.QsortBytes: 32-bit overflow of byte offsets in arrays near 2 GiB.
- Mktime.Tm.Mktime: negative fields; years before 1970; results beyond 31 bits.
- `execve` apart from the stack image: reading the program, freeing the old address space, error paths; an image larger than the stack page.
- Printf.WBuf.Vdprintf: `%n` and `%f`; a `%` as conversion after a width or precision; formats cut off inside a directive, which the code reads past; widths and precisions so near 2^31 that counting them down overflows; the result of `write`. A missing or mistyped argument, undefined in C, reads as 0.
- Printf.Vsprintf: the same as Vdprintf, and a buffer too small for the output.
- `rash_split_line`'s array of token pointers, modelled as a sequence; its growth policy and out-of-memory exit.
- rlibc/stdlib/malloc.c, ramfs, fifofs and pipes; floating point; string functions; ELF loading; assembly, interrupts, devices and system call glue.
