# Verification of the kernel's memory, scheduling, path and checksum code

This project models four parts of the kernel in Dafny and proves properties of them.

**Memory.** `Pmm` is the physical block allocator over 32-bit words of a bitmap. `Vmm` holds two-level
page tables and the search for free virtual ranges, which is mutually recursive with the allocation of a
page table. `HeapModel`, `Liballoc` and `HeapRuns` are the heap: a doubly linked list of majors, each with an
address-sorted list of minors, five placement cases, a best-bet hint and an alignment prefix; `HeapPages` is
where its majors come from, virtual pages with fresh frames behind them, and `HeapSystem` runs the heap and the
page and block maps together; `HeapMemory` adds physical memory to these runs. `UserCopy` copies between the kernel and a process through temporary kernel
mappings, and `Fork` clones a page directory. `Bits` defines the bit operations on words as arithmetic.

**Scheduling.** `SchedModel` and `SchedRuns` are the scheduler as a state machine: one step for every call
and interrupt, with nested locking, postponed scheduling and idling. `SchedEffects` says what
each call does by its effect alone, `SchedLaws` what holds of every run. `TaskQueues` and `Scheduler` are the same
calls on the intrusive queues, updated in place; the `assert`s in their bodies are those of the source, and all of
them are proved. `MutexModel` is the hand-off mutex as a
system of atomic steps of any number of tasks, and `RingBuffers` the ring buffer on top of the semaphore.

**Paths and mounts.** `Lists` is the doubly linked list. `Paths` has the two tokenizers and `Canonical` the
resolution of "." and "..". `MountModel` and `MountGraph` are the mount tree and `kmount`.

**Checksums.** `Checksum` relates the two checksum functions to the one's-complement sum of section 1 of
RFC 1071, with the exact bound of the 32-bit accumulator.

Conventions. Code that changes things step by step is a class or a method with loops; each such method is
proved equal to a function or relation on values, and lemmas are proved about those. Pointers are
addresses; records of one kind are kept as maps from address to field or record. A failed `assert`, a
`panic` or a `halt` is the outcome `Stopped`, a result `false`, or proved unreachable. `printf` does nothing. A
context switch is a change of the current task; a call that ends in a switch is described up to the moment
the processor changes hands.

What the code does that its names or comments do not suggest:

- `net_calc_checksum` drops a trailing odd byte instead of padding it (`Checksum.OddByteExactly`).
- `find_vspace` returns -1 when it finds nothing, while its callers test for 0; they stop a little later, at
  the alignment assertion of `map_page`.
- `find_vspace` reserves nothing when the run it found reaches the end of the address space
  (`Vmm.ReservedExactlyWhenRoom`, `Vmm.LastPageNotReserved`).
- When the last page is the only kernel page left, a fork takes it for both of its temporary pages, copies
  each new frame onto itself, and the child's page keeps what its frame held before (`Vmm.SamePageExactly`,
  `Fork.CopiesExactlyWithoutClash`, `Fork.ForkLosesPage`).
- `krealloc` to a larger size stops when the old block was requested with size 0, because `memcpy` refuses a
  zero length.
- `mutex_lock` can be left waiting with the lock free (`MutexModel.LostWakeup`, `MutexModel.NeverStrandedExactly`).
- `ringbuffer_unread` answers 0 when the buffer is full (`RingBuffers.UnreadExactly`).
- A path with an empty relative part canonicalizes to the root, not to its parent (`Canonical.ParentIgnored`).

## Model

| member | source | states |
|---|---|---|
| `Checksum.NetCalcChecksum` | kernel/net/checksum.c:10-21 | The loop and folding compute the fold of the wrapped 32-bit word sum, and the RFC 1071 checksum whenever that sum fits 32 bits |
| `Checksum.NetCalcChecksum2` | kernel/net/checksum.c:23-56 | The two loops, the fold between them, the odd byte and the subtraction, in wrapping 32-bit arithmetic |
| `Checksum.OnesSumIsCanon` | kernel/net/checksum.c:17-20 | Adding words with end-around carry gives the representative of the plain sum modulo 0xFFFF, zero only for zero |
| `Checksum.FoldsToOnesSum` | kernel/net/checksum.c:17-20 | Two folds and a complement of a sum below 2^32 are the complement of the one's-complement sum |
| `Checksum.ChecksumExactlyWhenSumFits` | kernel/net/checksum.c:10-21 | For every length that a 32-bit size can express, the result is the RFC 1071 checksum if and only if the plain sum is below 2^32 |
| `Checksum.ChecksumUpTo65537Words` | kernel/net/checksum.c:10-21 | Up to 65537 words the result is right for all data |
| `Checksum.ChecksumWrongAt65538Words` | kernel/net/checksum.c:10-21 | 65538 words of all ones give a wrong result, so the bound is tight |
| `Checksum.OddByteExactly` | kernel/net/checksum.c:10-21 | For every odd length, whatever the sum, exactly when the value returned is the checksum of the padded data |
| `Checksum.OddByteDropped` | kernel/net/checksum.c:10-21 | On odd lengths whose word sum fits 32 bits the value returned is the padded checksum if and only if the last byte is zero |
| `Checksum.NumericalExample` | kernel/net/checksum.c:10-21 | The numerical example of section 3 of RFC 1071 |
| `Checksum.StoredChecksumVerifies` | kernel/net/checksum.c:10-21 | A checksum stored over a zeroed word makes the whole sum check to zero |
| `Checksum.Checksum2IsConcatenated` | kernel/net/checksum.c:23-56 | Over an even header and a segment with its own checksum word subtracted, the result is the checksum of header and padded segment with that word zeroed |
| `Checksum.Checksum2ExactlyWhenSumsFit` | kernel/net/checksum.c:23-56 | For all lengths that 32-bit sizes can express it is, if and only if neither the header's sum nor the sum behind it wraps |
| `Checksum.Checksum2Fits` | kernel/net/checksum.c:33-41 | The word counts for which the sums in between cannot wrap |
| `Pmm.BlockMap.SetBlock` | kernel/pmm.c:16-20 | Exactly the one block becomes used |
| `Pmm.BlockMap.UnsetBlock` | kernel/pmm.c:22-26 | Exactly the one block becomes free |
| `Pmm.BlockMap.TestBlock` | kernel/pmm.c:28-32 | The result is the block's bit |
| `Pmm.BlockMap.FindFirstFree` | kernel/pmm.c:35-52 | The least free block, over words and bits; 0 otherwise only if all are used |
| `Pmm.BlockMap.FindRegion` | kernel/pmm.c:56-100 | Despite the jumps of both indices: a nonzero result is the least start of a free run, 0 means there is none (or that it starts at block 0), and it stops exactly when more than one block is asked for, nothing fits and the last block is free |
| `Pmm.BlockMap.AllocBlocks` | kernel/pmm.c:102-114 | A nonzero address is that of the first fit, and exactly its blocks become used; otherwise nothing changes |
| `Pmm.BlockMap.FreeBlocks` | kernel/pmm.c:116-124 | Exactly the blocks of the range become free |
| `Pmm.BlockMap.CountFreeBlocks` | kernel/pmm.c:136-145 | The result is the size of the set of free blocks |
| `Pmm.FirstFitIsComplete` | kernel/pmm.c:56-114 | With block 0 used and the last block used the search never stops, and 0 means exactly that nothing of that size is free |
| `Pmm.CountMarked` | kernel/pmm.c:102-145 | Marking a range of the opposite kind moves the free count by exactly its length |
| `Pmm.PoolRunKeeps` | kernel/pmm.c:102-145 | Over every run of allocations and releases of owned ranges, live ranges stay used and pairwise disjoint, and the free count moves by exactly the sizes handed out and given back |
| `Vmm.PageDirectory.GetPage` | kernel/vmm.c:104-142 | Table and index of an address select its entry in the flat view |
| `Vmm.PageDirectory.MapPage` | kernel/vmm.c:144-157 | Exactly one entry of the flat view changes, to address and flags combined |
| `Vmm.PageDirectory.PreallocateTables` | kernel/vmm.c:479-487 | When it does not run out of frames every kernel table is there, each hardware entry is of a frame of its own that was free, and all pages are as before |
| `Vmm.PageDirectory.MapDirect` | kernel/vmm.c:180-203 | The page is mapped to the frame of its number, unless it is mapped elsewhere already, where it stops |
| `Vmm.VmmInit` | kernel/vmm.c:463-499 | All kernel tables are there, in distinct fresh frames; exactly they and the directory are mapped, at their physical addresses; no direct mapping clashes, and it stops only for want of a frame |
| `Vmm.Machine.NewDirectory` | kernel/vmm.c:27-38 | An empty directory in a fresh frame, apart from the one there was, which stays as it is; the kernel maps exactly that frame at its first unmapped page; it stops only without a frame or a free kernel page |
| `Vmm.Machine.GetTableAlloc` | kernel/vmm.c:111-136 | The table exists afterwards, no entry of the directory changes, the kernel only gains mappings of present pages; it fails only without a frame or a free kernel page; a new table is in exactly one fresh frame, which the hardware entry names as present, writable and the user's and which the kernel maps at its first unmapped page; the recursion with the search ends because all kernel tables exist |
| `Vmm.Machine.FindVspace` | kernel/vmm.c:272-318 | First fit over the two-level table, and what is reserved, as `FoundSpace` says; nothing but the directory's new tables, each in a fresh frame of its own, and the kernel's mappings of them changes besides |
| `Vmm.FoundExactly` | kernel/vmm.c:272-318 | With the last page mapped: the least start at or above page 1 of n unmapped pages, and exactly those n entries become reserved |
| `Vmm.ReservedExactlyWhenRoom` | kernel/vmm.c:272-318 | In general pages are found and all reserved if and only if the directory has, before the call, a run of n unmapped pages that ends before the last page; otherwise no entry changes |
| `Vmm.ReservedExactlyBelowEnd` | kernel/vmm.c:300-318 | The run found is reserved if and only if it is one that ends before the last page, and otherwise no page of it is |
| `Vmm.LastPageNotReserved` | kernel/vmm.c:300-318 | A directory on which a page is found and not reserved |
| `Vmm.SamePageExactly` | kernel/vmm.c:272-318 | Two searches for one page in a row find the same page if and only if only the last page is unmapped |
| `Vmm.GainedAgree` | kernel/vmm.c:111-136 | New tables keep hardware entries and tables in agreement |
| `Vmm.TablesStillAgree` | kernel/vmm.c:111-318 | So do those that a search adds |
| `UserCopy.Memory.MapUserspaceToKernel` | kernel/syscall.c:21-72 | True exactly when no page's entry lacks the present, the write or the user bit; then the kernel pages alias them, otherwise none is left mapped; only the n kernel pages change, also where they wrap |
| `UserCopy.Memory.UnmapFromKernel` | kernel/syscall.c:74-80 | Exactly the n kernel entries become 0 |
| `UserCopy.Memory.CopyToUserspace` | kernel/syscall.c:254-275 | When it stops, exactly; otherwise the bytes are stored where the user's directory leads, or nothing is written and the result is -1, exactly when a page of the bytes lacks the present, write or user bit; the kernel's page map ends as it began; whatever kernel run is found, wrapping or not |
| `UserCopy.Memory.CopyFromUserspace` | kernel/syscall.c:83-103 | When it stops, exactly; otherwise the bytes read are those the user's directory leads to, or -1, exactly when a page of the bytes lacks the present, write or user bit; the kernel's page map ends as it began |
| `UserCopy.BarredExactly` | kernel/syscall.c:46-57 | Which pages are refused, by the three low bits of their entries |
| `UserCopy.PagesOfBytes` | kernel/syscall.c:83-91 | The pages that are checked run from that of the first byte to that of the last |
| `UserCopy.Restored` | kernel/syscall.c:21-103 | A range found, mapped and unmapped is as it was, whether it could be reserved or wrapped and was not |
| `UserCopy.PlacesAgree` | kernel/syscall.c:21-103 | The kernel alias leads to the same bytes of physical memory as the user's addresses |
| `UserCopy.RoundTripExactly` | kernel/syscall.c:83-275 | Bytes stored at a sequence of places read back as they were if and only if no place was given two different bytes |
| `UserCopy.OutThenIn` | kernel/syscall.c:83-275 | A copy out followed by a copy in of the same range returns the same bytes, when its pages lead to different frames |
| `UserCopy.OutKeepsOthers` | kernel/syscall.c:254-275 | A copy out changes no byte that the range does not lead to |
| `Fork.Boot` | kernel/vmm.c:27-487 | From `vmm_init` to two empty directories: a state that meets everything the clone asks for is reachable, with nothing that stops one, and it is missed only for want of a frame or a kernel page |
| `Fork.CloneTable` | kernel/process.c:538-584 | One more table is cloned, through two temporary pages or, when only the last page is left, through one; the temporary mappings are gone; it fails only for a page that cannot be cloned, without a frame or without kernel pages |
| `Fork.TempPages` | kernel/process.c:542-545 | Both pages were unmapped, and they are one if and only if only the last page was left |
| `Fork.PageDirectoryClone` | kernel/process.c:586-606 | Every present user page of the parent has a child entry with the same low ten bits for a frame of its own that was free, with the same contents, except in the tables of `Lost`, which are known before the call; the parent is unchanged; the kernel gains exactly one mapping for each new table; the child's tables agree as before; it fails only for the reasons named |
| `Fork.ChildTables` | kernel/process.c:597-604 | Every table the child got is in a frame of its own that was free and that no page of parent or child has, entered as present, writable and the user's |
| `Fork.EntryKinds` | kernel/process.c:547-572 | Which entries are cloned, and which stop the clone, by their bits |
| `Fork.CopiesExactly` | kernel/process.c:538-606 | All contents were copied if and only if every frame used in a table of `Lost` held the right bytes before |
| `Fork.CopiesExactlyWithoutClash` | kernel/process.c:538-606 | Decided before the call: all contents are copied if no table with a user page is in `Lost`; and only then, unless a free frame happens to hold a page's bytes |
| `Fork.LostOfFreshChild` | kernel/process.c:538-606 | For an empty child, which tables those are: the last one, if the last kernel page and exactly as many others as the parent has tables are unmapped |
| `Fork.ForkLosesPage` | kernel/process.c:538-606 | An input with which the child reads other bytes than its parent, whichever free frame its page gets |
| `Fork.ForkLosesPageEnds` | kernel/process.c:538-606 | The end state of that input: the table takes one free frame, the page the next, and no frame changes |
| `Fork.CloneMemory` | kernel/process.c:626-628 | `page_directory_new` and the clone: it fails only for want of a frame or a kernel page, and otherwise parent and child are again such that a clone of them fails only for that |
| `Fork.CloneTwice` | kernel/process.c:626-628 | A clone of a clone |
| `Fork.CloneIsClonable` | kernel/process.c:538-606 | A clone has what the clone asks of a parent, and nothing in it stops one |
| `Fork.ChildFrame` | kernel/process.c:561-573 | The child's frame was free at the beginning and holds the parent's bytes, or in a lost table what it held; the flags agree |
| `Fork.FramesApart` | kernel/process.c:538-606 | No frame is shared between parent and child or between two pages of the child |
| `Fork.ForkCopies` | kernel/process.c:538-606 | Right after the fork the parent reads what it read before, and so does the child outside the lost tables |
| `Fork.ForkIsolates` | kernel/process.c:538-606 | Whatever is later written through one directory, the other reads what it read before |
| `HeapModel.FreeIsSumOfGaps` | kernel/liballoc.c:336-376 | The free bytes of a major, size less usage, are the sum of its gaps |
| `HeapModel.TooFullHasNoGap` | kernel/liballoc.c:346-364 | A major skipped for too few free bytes has no gap large enough |
| `HeapModel.UserPtrFacts` | kernel/liballoc.c:35-43 | The pointer handed out is 16-byte aligned and at least 16 bytes behind the header |
| `HeapModel.UnalignRecovers` | kernel/liballoc.c:45-54 | The information byte leads from the pointer back to the header |
| `HeapModel.InsertMinorsLinked` | kernel/liballoc.c:380-522 | The header writes of an insertion keep prev, next, block and first in agreement |
| `HeapModel.RemoveMinorsLinked` | kernel/liballoc.c:600-614 | So do those of a removal |
| `HeapModel.UnlinkKeepsLinks` | kernel/liballoc.c:616-626 | Unlinking an emptied major keeps both kinds of list |
| `HeapModel.WriteMemOk` | kernel/liballoc.c:35-54 | In-bounds writes of a client leave every information byte alone |
| `Liballoc.Heap.LiballocInit` | kernel/liballoc.c:275-288 | Succeeds exactly on the first call with pages to be had, and leaves one empty major |
| `Liballoc.Heap.AllocateNewPage` | kernel/liballoc.c:228-272 | The header and the byte count of a fresh major; stops exactly without pages |
| `Liballoc.Heap.PlaceIn` | kernel/liballoc.c:378-525 | Cases 2 to 4: the first gap in address order takes the block, or the major has none |
| `Liballoc.PagesForLeast` | kernel/liballoc.c:228-246 | A fresh major has the least number of pages, at least 16, that hold the bytes and two headers |
| `Liballoc.Heap.Kmalloc` | kernel/liballoc.c:290-566 | The search ends, over the best-bet restart and the visit to a fresh major; it takes the first gap of the first major that has one and asks for pages only when none has; it stops exactly without a major, or without gap and pages; every list and counter stays right |
| `Liballoc.Heap.VerifyMagic` | kernel/liballoc.c:190-226 | True exactly for the magic number; errors and likely overruns are counted |
| `Liballoc.OverrunIsLowByte` | kernel/liballoc.c:197-202 | An overrun is suspected exactly when the low byte of the magic number is intact |
| `Liballoc.Heap.Kfree` | kernel/liballoc.c:568-641 | Stops exactly for NULL or a bad magic; otherwise exactly that block goes, its bytes are cleared, an emptied major is unlinked, and every list and counter stays right; the pointer may be one that was freed before |
| `Liballoc.Heap.Krealloc` | kernel/liballoc.c:659-707 | Which of free, allocate, shrink and grow it is, and exactly when it stops |
| `Liballoc.GrowLocates` | kernel/liballoc.c:690-707 | After the new allocation the old and the new block are live at known places and apart |
| `HeapRuns.RunKeeps` | kernel/liballoc.c:290-641 | In every reachable state majors are disjoint, their blocks sorted, inside and disjoint, the best bet is NULL or linked, and every information byte is right |
| `HeapRuns.LivePointersUnalign` | kernel/liballoc.c:45-54 | In every reachable state every live pointer leads to its own header |
| `HeapRuns.LiveBytesApart` | kernel/liballoc.c:300-303 | The requested bytes are aligned, inside the payload, and disjoint from every header and every other live block |
| `HeapRuns.MallocAdds` | kernel/liballoc.c:290-566 | An allocation adds exactly the block of its pointer and keeps all others |
| `HeapRuns.MallocHolds` | kernel/liballoc.c:290-566 | The live blocks after an allocation are those before and one new one, of the size asked for |
| `HeapRuns.FreeHolds` | kernel/liballoc.c:568-641 | Those after a release are those before but the one released |
| `HeapRuns.ShrinkHolds` | kernel/liballoc.c:677-689 | Those after a shrinking reallocation are those before, with the new request size of the one |
| `HeapRuns.MallocFirstFit` | kernel/liballoc.c:317-525 | Where the block goes, by the bytes between the blocks: the first gap large enough, in the first region from the best bet or the root on that has one |
| `HeapRuns.MallocGrows` | kernel/liballoc.c:336-376 | Only when no gap of any region is large enough it goes to the start of new pages |
| `HeapRuns.RunPreserves` | kernel/liballoc.c:290-707 | A live block that no event targets keeps its place, its record and its bytes over any run |
| `HeapRuns.KreallocKeepsBytes` | kernel/liballoc.c:690-707 | A growing reallocation keeps the old contents at the new pointer |
| `HeapRuns.KreallocMoves` | kernel/liballoc.c:690-707 | Those after a growing one are those before without the old block and with a new one of the new size |
| `HeapRuns.KreallocKeepsOthers` | kernel/liballoc.c:690-707 | ... and every other live block with its bytes |
| `HeapRuns.DoubleFreeStops` | kernel/liballoc.c:190-641 | After a block was freed, and after any run since, its pointer leads to a place without the magic number, so that a second `kfree` or `krealloc` of it stops, while its major is linked and no new block uses its bytes |
| `HeapPages.LiballocAlloc` | kernel/liballoc.c:109-129 | The first run of unmapped pages, wrapping or not, each mapped to a frame of its own that was free; it stops only without a run of pages or a frame |
| `HeapPages.LiballocFree` | kernel/liballoc.c:131-147 | Exactly those pages are unmapped and exactly their frames become free |
| `HeapPages.SupplyApart` | kernel/liballoc.c:109-272 | Such pages are what the heap asks of fresh pages, apart from every major, if and only if some run of unmapped pages did not wrap; afterwards again every heap page has a frame of its own |
| `HeapPages.FirstMajorWraps` | kernel/liballoc.c:109-129 | A page map on which the first major wraps and is not what the heap asks for |
| `HeapPages.BackedLess` | kernel/liballoc.c:131-641 | Giving back one major leaves all others their pages and frames |
| `HeapPages.UnmappedAreOthers` | kernel/vmm.c:111-318 | Mappings at unmapped pages and frames taken elsewhere do not touch the heap's |
| `HeapSystem.SystemStepKeeps` | kernel/liballoc.c:109-707 | Every heap call with its pages, and anything the rest of the kernel does elsewhere, keeps heap and backing; the pages a call gets are what the heap asks for |
| `HeapSystem.SystemStart` | kernel/liballoc.c:275-288 | The state before `liballoc_init` satisfies this |
| `HeapSystem.SystemRunKeeps` | kernel/liballoc.c:109-707 | So in every reachable state, from `liballoc_init` on, as long as some run of the pages asked for does not wrap |
| `HeapSystem.SystemRunPreserves` | kernel/liballoc.c:109-707 | Over any such run a live block that no call targets keeps its record and its bytes |
| `HeapSystem.HeapBytesApart` | kernel/liballoc.c:109-129 | In every such state two addresses in the heap lead to different bytes of physical memory |
| `HeapMemory.ByteKept` | kernel/liballoc.c:109-707 | A byte of the heap that a call does not write is in physical memory what it was, also across changes of the page map and whatever is written to frames that are not the heap's |
| `HeapMemory.ShownOverRuns` | kernel/liballoc.c:290-707 | Over any run, physical memory goes on holding what the model shows in a block that is neither freed nor shrunk, its client's writes included |
| `HeapMemory.BytesStayInMemory` | kernel/liballoc.c:290-707 | Over any run, a block that no call targets and no client writes keeps its bytes in physical memory |
| `HeapMemory.InfoOverRuns` | kernel/liballoc.c:35-54 | In every reachable state the information byte of every live block is right in physical memory |
| `HeapMemory.ForkKeepsHeap` | kernel/process.c:538-606 | A fork writes to no frame of the heap |
| `HeapMemory.CopyKeepsHeap` | kernel/syscall.c:254-275 | Nor does a copy to a process whose pages lead elsewhere |
| `SchedModel.PreemptKeeps` | kernel/task.c:235-257 | Preemption keeps every task in one place and picks a ready task that is not the current one |
| `SchedModel.RunKeeps` | kernel/task.c:188-257 | So does taking the first ready task when nobody runs |
| `SchedModel.UnblockKeeps` | kernel/task.c:337-356 | So does unblocking |
| `SchedModel.SplitMembers` | kernel/task.c:402-417 | The wakeup makes exactly the sleepers ready whose time has come |
| `SchedModel.SplitNoDup` | kernel/task.c:402-417 | Neither part holds a task twice |
| `SchedModel.SplitOrder` | kernel/task.c:402-417 | Both parts keep the order of the queue |
| `SchedModel.WokenStep` | kernel/task.c:405-417 | One round of the loop adds one task to one of the parts |
| `SchedModel.WakeKeeps` | kernel/task.c:395-421 | The wakeup keeps every task in one place |
| `SchedRuns.DispatchKeeps` | kernel/task.c:175-261 | After `__schedule` a task runs or the processor idles, and every task is in one place |
| `SchedRuns.UnlockKeeps` | kernel/task.c:282-296 | The last unlock of a call leaves a state in which the current task is running |
| `SchedRuns.StepKeeps` | kernel/task.c:175-543 | Every call and interrupt keeps: one place per task that matches its state, running only as current task, postponed only under the lock, no signal kept while a task waits |
| `SchedRuns.BootOk` | kernel/task.c:70-78 | The state at boot satisfies this |
| `SchedEffects.Preempts` | kernel/task.c:235-257 | Without the scheduler lock a yield, or a timer interrupt that wakes or finds a ready task, makes the first ready task run and puts the running one last, as ready |
| `SchedEffects.RunsInTime` | kernel/task.c:235-421 | The task at place k of the ready queue runs before k + 1 of these are over, whatever else happens |
| `SchedEffects.LeavesProcessor` | kernel/task.c:328-440 | A blocking call, a sleep and an acquire without a count put the caller last into the queue, in the state named, and the first ready task runs, or the processor idles |
| `SchedEffects.ExitEffect` | kernel/task.c:515-529 | The caller of `task_exit` is terminated and in no queue |
| `SchedEffects.AddEffect` | kernel/task.c:494-503 | An added task is ready and last, and nothing else changes |
| `SchedEffects.ServesFirst` | kernel/task.c:337-455 | `task_unblock_next`, and a release with waiters, make the first of the queue the last ready one; a running caller without the lock gives way |
| `SchedEffects.OnlyCounts` | kernel/task.c:424-455 | An acquire with a count and a release without waiters change only the count |
| `SchedEffects.WakeupEffect` | kernel/task.c:395-421 | A wakeup under the lock makes exactly the due sleepers ready and leaves the rest to the last unlock |
| `SchedEffects.UnlockEffect` | kernel/task.c:282-296 | The last unlock schedules what was postponed, any other only counts |
| `SchedEffects.ResumeEffect` | kernel/task.c:206-543 | The end of idling and `tasking_enable` run the first ready task |
| `SchedLaws.RunKeepsAll` | kernel/task.c:175-543 | So does every state of every run |
| `SchedLaws.OnePlace` | kernel/task.c:85-119 | Running is being current; ready, waiting and blocked are being in the ready, the wait and some other queue |
| `SchedLaws.ReadyStep` | kernel/task.c:175-261 | A step dispatches nobody and the ready queue only grows at its end, or it dispatches exactly the first ready task |
| `SchedLaws.MovesUp` | kernel/task.c:85-261 | A task at place k of the ready queue moves up one place with each dispatch, whatever else happens |
| `SchedLaws.BoundedWaiting` | kernel/task.c:85-261 | It becomes current at exactly the dispatch number k + 1 |
| `SchedLaws.FallsAsleep` | kernel/task.c:360-389 | The two sleep calls put the caller into the wait queue with its target |
| `SchedLaws.SleepStep` | kernel/task.c:395-421 | Only a wakeup at or after the target ends a sleep, and it does |
| `SchedLaws.SleepsUntilTime` | kernel/task.c:360-421 | Over any run without such a wakeup a sleeper stays asleep |
| `SchedLaws.WakesAtTime` | kernel/task.c:395-421 | At the first one it is ready or running |
| `SchedLaws.SemStep` | kernel/task.c:424-455 | What each step does to a semaphore's count and queue; a release with waiters makes exactly the first ready |
| `SchedLaws.SemConserved` | kernel/task.c:424-455 | Over any run count plus grants is initial count plus releases, and a positive count means that nobody waits |
| `SchedLaws.SemMovesUp` | kernel/task.c:424-455 | A waiter at place k moves up with each release |
| `SchedLaws.SemFifo` | kernel/task.c:424-455 | The release number k + 1 makes it ready or running |
| `TaskQueues.WiringPush` | kernel/task.c:85-100 | Appending keeps first, last and next_task of all queues right, acyclic and disjoint |
| `TaskQueues.WiringPop` | kernel/task.c:102-119 | So does taking the first task; its next_task was the second one |
| `TaskQueues.WiringCut` | kernel/task.c:402-404 | So does cutting the sleepers off their queue |
| `Scheduler.Kernel.constructor` | kernel/task.c:70-78 | The globals at boot |
| `Scheduler.Kernel.TaskQueue` | kernel/task.c:85-100 | The queue gains the task at its end and nothing else changes; the assertions hold |
| `Scheduler.Kernel.TaskDequeue` | kernel/task.c:102-119 | The queue loses its first task, which is returned, or is empty and NULL is returned |
| `Scheduler.Kernel.DoSchedule` | kernel/task.c:175-258 | `__schedule` takes the step `Dispatch`; none of its assertions fails |
| `Scheduler.Kernel.ResumeIdle` | kernel/task.c:206-257 | The end of the idle loop runs the first ready task; its assertions hold |
| `Scheduler.Kernel.SchedulerLock` | kernel/task.c:263-280 | The count goes up; nothing is postponed when it was 0 |
| `Scheduler.Kernel.SchedulerUnlock` | kernel/task.c:282-296 | The count goes down, and the last unlock dispatches if that was postponed |
| `Scheduler.Kernel.Yield` | kernel/task.c:310-314 | Keeps the invariant and takes the step `Yield` |
| `Scheduler.Kernel.TaskBlock` | kernel/task.c:328-335 | Keeps the invariant and takes the step `Block` |
| `Scheduler.Kernel.TaskUnblockNext` | kernel/task.c:347-356 | Keeps the invariant and takes the step `UnblockNext` |
| `Scheduler.Kernel.TaskSleepUntil` | kernel/task.c:360-379 | Does nothing for a time that has come, otherwise keeps the invariant and takes the step `SleepUntil` |
| `Scheduler.Kernel.TaskSleepMiliseconds` | kernel/task.c:381-389 | Keeps the invariant and takes the step `SleepFor` |
| `Scheduler.Kernel.SchedulerWakeup` | kernel/task.c:395-421 | The loop that rebuilds the wait queue in place takes the step `Wakeup` |
| `Scheduler.Kernel.WakeSleepers` | kernel/task.c:402-417 | The loop splits the queue as `WakeAll` says |
| `Scheduler.Kernel.SpinLock` | kernel/arch/i686/atomic.c:14-21 | Under the scheduler lock, with the word free: its panic is not reached |
| `Scheduler.Kernel.SpinUnlock` | kernel/arch/i686/atomic.c:23-30 | Nor is the panic of the unlock |
| `Scheduler.Kernel.SemaphoreAcquire` | kernel/task.c:424-440 | Takes the step `Acquire`; the lock count is 1 at its assertion and the spin lock is free afterwards |
| `Scheduler.Kernel.SemaphoreRelease` | kernel/task.c:442-455 | Takes the step `Release`; the spin lock is free afterwards |
| `Scheduler.Kernel.TaskAdd` | kernel/task.c:494-503 | Keeps the invariant and takes the step `Add`, for a new record or one at the address of a terminated task's |
| `Scheduler.Kernel.TaskExit` | kernel/task.c:515-529 | Keeps the invariant and takes the step `Exit` |
| `Scheduler.Kernel.TaskingEnable` | kernel/task.c:531-543 | Keeps the invariant and takes the step `Enable`; its assertions hold |
| `MutexModel.StepKeeps` | kernel/task.c:458-483 | Every step of every task keeps: at most one token, lock word 1 exactly when there is one, `locked_task` names the holder, queue and places agree |
| `MutexModel.AssertsHold` | kernel/task.c:467-474 | No assertion fails at any step, and a hand-off finds a task |
| `MutexModel.MutualExclusion` | kernel/task.c:458-483 | For any number of tasks and any interleaving: mutual exclusion, the meaning of the lock word, first-in first-out hand-off, and no failing assertion |
| `MutexModel.StrandedExactly` | kernel/task.c:459-482 | After which steps a task waits on a free lock: a freeing while somebody waits, a blocking while the lock is free, and every step but a swap of `mutex_lock` when it was so before |
| `MutexModel.NeverStrandedExactly` | kernel/task.c:458-483 | Over every run of any number of tasks: no task ever waits on a free lock if and only if every freeing finds nobody waiting and every blocking finds the lock taken |
| `MutexModel.LostWakeup` | kernel/task.c:459-482 | A run that does |
| `MutexModel.LockEffect` | kernel/task.c:458-469 | The steps of an undisturbed call come to the lock or to the end of the queue |
| `MutexModel.UnlockEffect` | kernel/task.c:471-483 | ... to handing over to the first of the queue, or to a free lock |
| `MutexModel.Mutex.MutexLock` | kernel/task.c:458-469 | The function takes two of the steps, up to holding the lock or being in the queue |
| `MutexModel.Mutex.MutexUnlock` | kernel/task.c:471-483 | The function takes four of the steps and hands over or frees the lock |
| `MutexModel.Mutex.AfterBlocking` | kernel/task.c:465-469 | A task that was handed the lock finds `locked_task` NULL and takes it |
| `RingBuffers.StepKeeps` | kernel/ringbuffer.c:24-37 | Every step of reader and writer keeps the heads, the buffer contents and the semaphore in agreement |
| `RingBuffers.Fifo` | kernel/ringbuffer.c:24-37 | However they interleave, with at most size bytes outstanding, bytes come out once each and in the order written |
| `RingBuffers.UnreadExactly` | kernel/ringbuffer.c:8-14 | Between operations the answer is writes less reads if and only if the buffer is not full |
| `RingBuffers.OverrunExactly` | kernel/ringbuffer.c:32-37 | One store too many replaces the byte that is due |
| `RingBuffers.RingBuffer.constructor` | kernel/ringbuffer.c:16-23 | An empty queue |
| `RingBuffers.RingBuffer.Unread` | kernel/ringbuffer.c:8-14 | The number of bytes, or 0 for a full buffer |
| `RingBuffers.RingBuffer.ReadByte` | kernel/ringbuffer.c:24-30 | Returns and removes the first byte |
| `RingBuffers.RingBuffer.WriteByte` | kernel/ringbuffer.c:32-37 | Adds a byte at the end; in a full buffer it replaces the byte that is due |
| `Lists.List.Append` | kernel/list.c:28-45 | The node is the last one, and all links agree |
| `Lists.List.Insert` | kernel/list.c:47-55 | The value is added at the end |
| `Lists.List.Delete` | kernel/list.c:77-96 | Exactly that node goes, all links agree, and its own are NULL, so that it can be appended again |
| `Lists.List.Remove` | kernel/list.c:57-65 | The first node with that value goes, if there is one |
| `Lists.List.Dequeue` | kernel/list.c:67-75 | Returns and removes the first value |
| `Paths.PathElementSize` | kernel/fs.c:19-25 | The length up to the next slash or the end |
| `Paths.TokenizePathList` | kernel/fs.c:63-84 | The list holds the non-empty components of the path |
| `Paths.TokenizePath` | kernel/fs.c:28-60 | The buffer holds the same components, each closed by a NUL, with NULs after them, and reads back as them |
| `Paths.DecodeFlat` | kernel/fs.c:92-115 | Reading a token buffer gives the tokens that were laid out in it |
| `Paths.ScanTokens` | kernel/fs.c:37-53 | The character-wise scan finds the same components as the element-wise one |
| `Paths.TokensClean` | kernel/fs.c:19-84 | No component is empty or contains a slash or NUL |
| `Canonical.PushPath` | kernel/fs.c:86-119 | The loop over the buffer resolves the components onto the list, or stops where a ".." finds it empty |
| `Canonical.CanonicalizePathList` | kernel/fs.c:122-147 | The canonical list of parent and relative path, or a stop |
| `Canonical.DotsExactly` | kernel/fs.c:97-104 | The two comparisons with terminator recognise exactly ".." and "." |
| `Canonical.PushJoined` | kernel/fs.c:86-119 | Pushing "p/q" is pushing p and then q |
| `Canonical.PushLaws` | kernel/fs.c:97-115 | A name is added at the end, "." does nothing, and ".." takes the last element away, so that a name and ".." cancel |
| `Canonical.UpUndoesName` | kernel/fs.c:86-147 | Appending "/t/.." to any path changes nothing |
| `Canonical.NamesFollowParent` | kernel/fs.c:122-147 | Plain names behind a relative path follow the parent's elements |
| `Canonical.CanonicalizeIsCanonical` | kernel/fs.c:122-147 | The result has no ".", ".." or empty element |
| `Canonical.FixedPoint` | kernel/fs.c:122-147 | The result written as a path canonicalizes to itself, from anywhere |
| `Canonical.ParentIgnored` | kernel/fs.c:122-147 | An absolute or an empty path does not depend on the parent, and an empty one is the root |
| `Canonical.StopsExactly` | kernel/fs.c:97-103 | It stops if and only if some beginning of the path goes up more often than there are elements |
| `MountModel.FindIs` | kernel/fs.c:390-405 | A result is a child of that name, and NULL means that there is none |
| `MountModel.OnePath` | kernel/fs.c:407-422 | Only one path leads to a mount |
| `MountModel.AddKeepsTree` | kernel/fs.c:362-382 | A new mount keeps the tree and sibling names unique |
| `MountModel.FoundAfter` | kernel/fs.c:522-574 | The new path followed by any rest leads to the new mount and leaves exactly the rest |
| `MountModel.OthersAfter` | kernel/fs.c:522-574 | Every path that does not extend it resolves as before |
| `MountModel.NodesAfter` | kernel/fs.c:362-382 | The new mount has the given file system and name, and every other keeps its own |
| `MountModel.MountedExactly` | kernel/fs.c:522-574 | A mount succeeds if and only if something is mounted at the parent path and nothing at the path; it fails where something is |
| `MountModel.MountsResolve` | kernel/fs.c:522-574 | After any run of calls every path ever mounted leads to its mount, which has the file system it was mounted with, and sibling names are unique |
| `MountGraph.Mounts.FindMount` | kernel/fs.c:390-405 | The first child of that name |
| `MountGraph.Mounts.WalkMountGraph` | kernel/fs.c:407-422 | The deepest mount that the elements lead to; the list keeps exactly the rest |
| `MountGraph.Mounts.SubMount` | kernel/fs.c:362-382 | Exactly one mount is added |
| `MountGraph.Mounts.KMount` | kernel/fs.c:522-574 | True exactly when the parent path is mounted and the path is not, false exactly when the path is mounted; then the mount is added with its file system and no other changes |
| `MountGraph.Mounts.KMountLaw` | kernel/fs.c:522-574 | After success its path leads to it, with any rest left over, other paths resolve as before, and each mount has its file system |

## Left out

- Pmm.BlockMap.FindRegion: the number of blocks is a multiple of 32, because the model's map is an array of whole words.
- Pmm.BlockMap.AllocBlocks: a result of 0 stands for failure also when it is block 0, as in the source; the address is not wrapped to 32 bits.
- Vmm.PageDirectory.MapPage: page tables are arrays of the model, not frames of its physical memory; the alignment assertions hold by the choice of page numbers.
- Vmm.VmmInit: the mappings of the kernel's image that are entered later are not part of this model; directories and tables are not zeroed through their mappings but are zero as arrays.
- UserCopy.Memory.CopyToUserspace: the length is at least two pages short of 2^32, so that the page count does not wrap.
- UserCopy.Memory.CopyFromUserspace: as for `UserCopy.Memory.CopyToUserspace`.
- Fork.PageDirectoryClone: bits 10 and 11 of an entry are not copied, as the mask in the source drops them; the case of parent and child sharing a page table does not arise.
- Liballoc.Heap.Kmalloc: the headers are address-to-record maps beside the byte memory, request sizes are bounded so that no size computation wraps, and the best bet is only shown to be NULL or a linked major.
- Liballoc.Heap.Kfree: where the magic number is found, it is at the header of the live block of the pointer; a block whose client wrote the magic number into its own bytes is not told apart, as in the source; the pointer does not lead to a place where a live block lies over an older header, whose bytes the client may have changed.
- Liballoc.Heap.Krealloc: as for `Liballoc.Heap.Kfree`.
- HeapPages.LiballocAlloc: what it gives back before it halts without a frame is not part of this model.
- Fork.CloneMemory: the shared mappings and the kernel stack that `process_clone` adds to the child afterwards are not part of this model.
- HeapMemory.ShownOverRuns: what a new block holds before its client writes is not claimed; headers are not modelled as bytes of physical memory.
- HeapSystem.SystemRunKeeps: a major that wraps at the end of the address space is outside the heap's layout; `HeapPages.SupplyApart` says exactly when one comes.
- SchedModel.SplitMembers: ticks are unbounded numbers, without the wrap of a 64-bit counter.
- SchedRuns.StepKeeps: one call is one step, because interrupts are off from its first lock to its last unlock; what `task_sleep_until` tests before that may be out of date by then, and `task_add` sets the state of a task that nobody else knows, be its record new or that of a terminated task; a call that the source stops at its first assertions is not a step.
- MutexModel.MutualExclusion: it is safety only, since a waiter can be stranded; `mutex_lock` is entered with no scheduler lock held and only the holder unlocks.
- MutexModel.Mutex.MutexLock: the queue of blocked tasks is a sequence here; its pointers are those of module `TaskQueues`.
- RingBuffers.Fifo: one reader and one writer at a time; more bytes outstanding than fit are the subject of `RingBuffers.OverrunExactly`.
- Lists.List.Delete: that a node's owner is the list is its being one of the list's nodes.
- Canonical.CanonicalizePathList: allocation does not fail, and nodes are numbered by the model.
- MountGraph.Mounts.KMount: allocation does not fail, reference counts are not part of this model, and a record's list of submounts is a sequence.
- Saving and restoring registers, kernel stacks, the TLB, and whether interrupts are enabled on return: hardware effects; one global flag serves all tasks, so nothing is claimed per task.
- `blocked_list`: it does not mirror the blocked tasks, because `task_sleep_until` does not insert into it.
- `_sleep`, `task_kstack_alloc` and `task_kstack_free`: a busy loop and mappings for stacks.
- `vmm_find_dma_region`, `pmm_init` and the boot-time memory map: the search makes no first-fit promise, the others only size and fill the map.
- Processes, file descriptors, program loading and symbolic links: outside the parts modelled.
- Drivers, network protocols other than the checksums, tmpfs, tar and string helpers: device effects, packet plumbing or easy members.
