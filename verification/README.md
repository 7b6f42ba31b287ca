# Verified model of the EPOS kernel's core routines

This directory models, in Dafny, the parts of the kernel whose correctness rests on invariants that
no single function shows: the TLSF heap allocator, the word-at-a-time `memcpy` and `memset`, the task
list with its exit/wait protocol, the virtual address zones, and the bounded formatter behind
`printk`. `dafny verify dfyconfig.toml` checks everything.

Each part has the same shape. A module of plain values says what the operations mean and proves the
properties (`Heap`, `Tasks`, `Zones`, `Printf`, and the byte-by-byte functions of `MemCopy` and
`MemSet`). Beside it the C code itself is written down in imperative form, on the data it works on,
and every method is proved to end in the state the value module gives: the class `Tlsf` on block
headers, free-list pointers, `matrix` and bitmaps; the class `Kernel` on linked tcbs and wait nodes;
the class `VmSpace` on two linked lists of zones; loops over byte arrays and over the output buffer.

| file | content |
|---|---|
| `Words.dfy`, `Sequences.dfy` | unsigned 32-bit words with their bits, shifts and masks; lists without repetition |
| `Header.dfy`, `Mapping.dfy` | size words with two flags; size classes and the search rounding |
| `Tiling.dfy`, `Heap.dfy`, `HeapTheorems.dfy` | blocks tiling an area, the free lists, the three calls, and whole runs |
| `Memory.dfy`, `Tlsf.dfy` | headers and pointers in word memory; `tlsf.c` on them |
| `PoolTheorems.dfy` | blocks and their contents in a pool over whole runs |
| `MemCopy.dfy`, `MemSet.dfy` | `memcpy.c` and `memset.c` |
| `Tasks.dfy`, `TaskTheorems.dfy` | the scheduler and the exit/wait protocol; what holds over runs |
| `TaskLiveness.dfy` | which blocked threads can get out again, and how soon a READY thread runs |
| `TaskList.dfy` | `task.c` on linked structures |
| `Zones.dfy`, `ZoneList.dfy` | the zone operations of `page.c`, as values and on linked lists |
| `Printf.dfy`, `Formats.dfy` | what a format denotes without any bound; formats as data, and what each of their pieces shows |
| `Snprintf.dfy` | `snprintf.c` filling a buffer |

## What is assumed

- Words are 32 bits and pointers 4 bytes (`BHDR_OVERHEAD` 8, `MIN_BLOCK_SIZE` 8, a control structure
  of 3180 bytes), byte order is little endian, and the build has `USE_MMAP` and `USE_SBRK` 0.
- A memory pool is smaller than 2^30 bytes; a request that is not answered in place is at most
  2^30 - 2^24 bytes, which `Heap.RequestServed` shows to be exactly the 32-bit sizes that lead to a class
  of the matrix with a rounded size that holds the request; pointers given to free and realloc are live.
  The control structure is taken to be outside the area the allocator writes.
- `schedule()` is the switch point its declaration intends; what a thread does between two switch
  points is not interrupted. The idle thread neither waits nor exits. Thread ids do not wrap around.
- In the zone operations `npages * PAGE_SIZE` and every sum of an address and a size are cut to 32 bits,
  as on the machine. Allocation of a zone node succeeds.
- The formatter is called with a buffer of at least one character.

## Findings

Where the code does less than its comments or its callers might expect, the exact condition is proved,
and for the failures a lemma shows an input:

- `init_memory_pool` subtracts the unrounded size of the control structure: the last header of the
  area lies inside the pool exactly when the pool size leaves a remainder below 4 modulo 8
  (`Allocator.AreaInsidePool`); for 3244 bytes it ends 4 bytes beyond (`Allocator.SentinelOutside`). The
  blocks handed out are inside the pool for every size (`PoolTheorems.EveryRunInPool`).
- `init_memory_pool` on a pool that was set up before returns 8, the size of the block with the area
  information, where the first call returns the size of the free block (`Allocator.Tlsf.InitMemoryPool`).
- `MAPPING_SEARCH` adds its margin in 32 bits. From 2^32 - 2^26 + 1 up the sum wraps, the rounded size is
  0, and from 65 above 2^32 - 2^26 the class is in the matrix again, so that `malloc_ex`, if it
  finds a block there, would cut it to 0 bytes and hand it out (`Mapping.SearchRounds`, `Mapping.SearchIsValid`); 0xFE00_0000 gives class (18, 31)
  (`Mapping.SearchGoesWrong`). A negative shift count, which C leaves undefined, occurs only for classes
  that are outside the matrix anyway.
- `sys_task_wait` does not look where the chain of waits ends. A blocked thread can get out again if and
  only if that chain ends in a thread that waits for nobody and is not the idle thread
  (`TaskLiveness.GetsOut`). Before the call this is a test on the caller and the tid: the chain from tid
  must end, and neither in the caller nor in the idle thread (`TaskLiveness.WaitCanReturn`). A thread that
  waits for itself, one that waits for the idle thread, and two that wait for each other are reached in
  short runs (`TaskLiveness.SelfWait`, `TaskLiveness.WaitForIdle`, `TaskLiveness.TwoWait`).
- The zone operations compare ends cut to 32 bits. `page_alloc_in_addr` and `page_alloc` keep the lists in
  order if and only if they fail, or the cut size is not 0 and the range ends at a 32-bit address
  (`Zones.AllocInAddrKeeps`, `Zones.AllocKeeps`); what they promise their caller holds under the
  corresponding condition (`Zones.GivenIsFree`, `Zones.AllocIsLowest`). Every range that wraps passes all
  the guards (`Zones.WrappingPasses`); 4 MB at 0xFFE0_0000, and 0xFFC0_0000 bytes from an empty user list,
  are handed out (`Zones.InAddrLeavesRegion`, `Zones.AllocLeavesRegion`).
- `%p` converts the pointer to a signed `long`: the text reads back as the address if and only if it is
  below 2^31, as with `%d` and `%i` (`Printf.WordReadsBack`); 0xC000_0000 is printed as `-40000000`
  (`Printf.HighPointer`).
- With the `0` flag, a precision larger than the number of digits makes `fmtint` fall short of the
  minimum width; this is the only case in which the width is missed (`Printf.IntLength`), as for 5 with
  `%08.3d` (`Printf.ShortOfWidth`).

## Model

| member | source | states |
|---|---|---|
| Mapping.MsBitIsTop | lib/tlsf/tlsf.c:256-299 | `ms_bit` finds the top set bit through the byte table, for every non-zero word |
| Mapping.LsBitIsLowest | lib/tlsf/tlsf.c:256-290 | `ls_bit` finds the lowest set bit, through `i & -i` and the same table |
| Words.SetBitAtIsSet | lib/tlsf/tlsf.c:301-304 | `set_bit` sets bit nr of the array of words and no other |
| Words.ClearBitAtIsClear | lib/tlsf/tlsf.c:306-309 | `clear_bit` clears bit nr of the array of words and no other |
| Words.MaskFromKeeps | lib/tlsf/tlsf.c:346 | and-ing with the shifted ones keeps exactly the bits from the second-level index up |
| Mapping.InsertInClass | lib/tlsf/tlsf.c:331-341 | the class `MAPPING_INSERT` gives is the one whose interval of sizes holds the size |
| Mapping.InsertIsValid | lib/tlsf/tlsf.c:331-341 | that class is in the matrix if and only if the size is below 2^30 |
| Mapping.ClassesInOrder | lib/tlsf/tlsf.c:110-119 | a class earlier in (fl, sl) holds only smaller sizes: its interval ends before the later one begins |
| Mapping.InsertMonotone | lib/tlsf/tlsf.c:331-341 | `MAPPING_INSERT` is monotone in (fl, sl) |
| Mapping.SearchRounds | lib/tlsf/tlsf.c:311-329 | `MAPPING_SEARCH` returns the least size of the class it names, not below r, if and only if r is at most 2^32 - 2^26 and, when small, a multiple of 4; r is then rounded by less than r/32, and beyond that to 0 |
| Mapping.SearchIsExact | lib/tlsf/tlsf.c:311-341 | a block is in the search class or a later one if and only if it holds the rounded size |
| Mapping.SearchIsValid | lib/tlsf/tlsf.c:311-329 | for every word, the search class is in the matrix if and only if r is at most 2^30 - 2^24 or at least 2^32 - 2^26 + 65 |
| Mapping.SearchServes | lib/tlsf/tlsf.c:311-329 | it is in the matrix and the rounded size holds r if and only if r is at most 2^30 - 2^24 |
| Mapping.SearchGoesWrong | lib/tlsf/tlsf.c:311-329 | 0xFE00_0000 is rounded to 0 and searched for in class (18, 31) |
| Mapping.SearchAligned | lib/tlsf/tlsf.c:311-329 | a multiple of 8 is rounded to a multiple of 8 |
| Header.ReadFlags | lib/tlsf/tlsf.c:129-142 | the two flag bits of a header word can be read back whatever the size |
| Header.ReadSize | lib/tlsf/tlsf.c:121-142 | masking with `BLOCK_SIZE` gives the size back whatever the flags |
| Header.SetFlags | lib/tlsf/tlsf.c:765-792 | setting a flag changes neither the size nor the other flag |
| Header.ClearFlags | lib/tlsf/tlsf.c:746-748 | clearing a flag changes neither the size nor the other flag |
| Tiling.SplitTiled | lib/tlsf/tlsf.c:734-745 | cutting a block keeps the area tiled up to the sentinel, with boundary tags that lead back |
| Tiling.AbsorbTiled | lib/tlsf/tlsf.c:774-786 | joining a block with the one after it keeps the area tiled |
| Heap.RequestServed | lib/tlsf/tlsf.c:705-708 | the same for what `malloc_ex` searches for, its own rounding included: of all 32-bit requests exactly those up to 2^30 - 2^24 |
| Heap.ClaimWellFormed | lib/tlsf/tlsf.c:731-749 | taking the head of a class keeps the tiling, the coalescing and the index |
| Heap.CarveWellFormed | lib/tlsf/tlsf.c:736-745 | listing the rest of a cut block keeps them |
| Heap.MergeNextWellFormed | lib/tlsf/tlsf.c:773-777 | absorbing the free block behind keeps them |
| Heap.ReleaseWellFormed | lib/tlsf/tlsf.c:787-792 | freeing a block between used ones keeps them |
| Heap.MergePrevWellFormed | lib/tlsf/tlsf.c:778-792 | freeing into the block before keeps them, although that block changes its class and list |
| Heap.Malloc | lib/tlsf/tlsf.c:697-756 | the heap after a request is well formed; on failure it is the same; otherwise one block becomes live, every other live block keeps its place and size, and the new one is at least the rounded size and at most 8 more |
| Heap.Free | lib/tlsf/tlsf.c:759-795 | the heap is well formed, the block is gone and every other live block stays |
| HeapTheorems.MallocFailsExactly | lib/tlsf/tlsf.c:705-729 | a request fails if and only if no free block is as large as the size it is rounded to |
| HeapTheorems.MallocTakesGoodFit | lib/tlsf/tlsf.c:344-360 | the block taken heads its list, no block that would do is in an earlier class, and it is cut to the rounded size if the rest can be a block |
| HeapTheorems.MallocThenFree | lib/tlsf/tlsf.c:733-795 | free right after malloc restores the tiling and every list in its order, on both branches |
| Allocator.Tlsf.SameControl | lib/tlsf/tlsf.c:230-236 | equal lists mean an equal matrix and equal bitmaps, so the identity extends to the control structure |
| HeapTheorems.ReallocKeeps | lib/tlsf/tlsf.c:798-881 | the new block holds the request, all others keep place and size, and failure, possible only when neither the block nor the block with a free one after it is large enough, changes nothing |
| HeapTheorems.ReallocOutcome | lib/tlsf/tlsf.c:819-874 | the block stays where it is if and only if the rounded request is at most its size, or at most its size and that of a free next block together; NULL is returned if and only if neither holds and no free block is as large as the rounded search size; in place at most 8 bytes too many stay, and the exact size is given |
| HeapTheorems.SizesAddUp | lib/tlsf/tlsf.c:430-449 | headers and payloads of any well-formed heap add up to the area |
| HeapTheorems.CoveredOnce | lib/tlsf/tlsf.c:430-449 | every byte of the area is in exactly one block |
| HeapTheorems.AllFreed | lib/tlsf/tlsf.c:759-795 | with nothing live, the heap is the initial one: one free block of the initial size, whatever the order of the frees |
| HeapTheorems.EveryRun | lib/tlsf/tlsf.c:697-881 | over every run of malloc, free and realloc, blocks on account are inside the area, aligned, disjoint and as large as asked; sizes are conserved; an empty account means the initial heap |
| Memory.InsertThreaded | lib/tlsf/tlsf.c:394-402 | after the pointer stores of `INSERT_BLOCK` all lists are linked forwards and backwards, the block first on its own |
| Memory.ExtractThreaded | lib/tlsf/tlsf.c:377-392 | after those of `EXTRACT_BLOCK` all lists are linked without the block, wherever it was |
| Allocator.Tlsf.FindSuitableBlock | lib/tlsf/tlsf.c:344-360 | the two bitmap searches find the head of the first non-empty class at or after the given one, or nothing if there is none |
| Allocator.Tlsf.InsertBlock | lib/tlsf/tlsf.c:394-402 | the list gains the block at its head, and matrix, bitmaps and pointers agree with the lists |
| Allocator.Tlsf.ExtractBlockHdr | lib/tlsf/tlsf.c:363-375 | the list loses its head, and they agree |
| Allocator.Tlsf.ExtractBlock | lib/tlsf/tlsf.c:377-392 | the list loses the block wherever it is, and they agree |
| Allocator.Tlsf.ProcessArea | lib/tlsf/tlsf.c:430-449 | the stores make one used block between the area information and the sentinel |
| Allocator.Tlsf.InitMemoryPool | lib/tlsf/tlsf.c:458-502 | fails exactly on a null, misaligned or too small pool; a pool already set up is left alone and 8 is returned; otherwise the heap is one free block and its size is returned |
| Allocator.AreaInsidePool | lib/tlsf/tlsf.c:490-491 | the area lies inside the pool if and only if the pool size is below 4 modulo 8, and where exactly it ends |
| Allocator.SentinelOutside | lib/tlsf/tlsf.c:490-491 | with 3244 bytes it ends 4 bytes beyond the pool |
| Allocator.PoolInMatrix | lib/tlsf/tlsf.c:490-493 | the class of the new free block is in the matrix if and only if the pool is smaller than 2^30 + 3212 bytes |
| Allocator.Tlsf.MallocEx | lib/tlsf/tlsf.c:697-756 | memory, matrix and bitmaps end as `Heap.Malloc` says; a failed call stores nothing; no live payload changes |
| Allocator.Tlsf.FreeEx | lib/tlsf/tlsf.c:759-795 | they end as `Heap.Free` says; no other live payload changes; a null pointer changes nothing |
| Allocator.Tlsf.ReallocEx | lib/tlsf/tlsf.c:798-881 | on every path they end as `Heap.Realloc` says, which path that is being fixed by `HeapTheorems.ReallocOutcome`; the first min(old, new) payload bytes are kept, other payloads are untouched, and a failed call stores nothing |
| Allocator.Tlsf.ClientStore | lib/tlsf/tlsf.c:153-165 | a client writing inside its own block disturbs neither the heap nor another payload |
| PoolTheorems.EveryRunInPool | lib/tlsf/tlsf.c:458-502 | over every run on a new pool of any size modulo 8, the blocks held lie between the control structure and the end of the pool, and are aligned modulo 8 like the pool |
| PoolTheorems.UseKeeps | lib/tlsf/tlsf.c:697-881 | one call or one client store leaves every word on the client's ledger where the ledger says, moved blocks included |
| PoolTheorems.WordsStay | lib/tlsf/tlsf.c:697-881 | over every run, a word written to a block and neither overwritten nor cut off is found there as long as the block is held, wherever realloc has moved it |
| PoolTheorems.EveryWord | lib/tlsf/tlsf.c:458-881 | the same for every run from a new pool, whose ledger is empty |
| PoolTheorems.Perform | lib/tlsf/tlsf.c:697-881 | the methods that model the three calls, and the client's store, are such steps |
| MemCopy.ByteCopyMoves | lib/memcpy.c:299-314 | on disjoint buffers the byte-by-byte copy gives the destination the source's old bytes and leaves all else |
| MemCopy.MergeOne | lib/memcpy.c:176-181 | shifting by one byte, the merged word is bytes 1 to 3 of one word and byte 0 of the next |
| MemCopy.MergeTwo | lib/memcpy.c:176-181 | the same for two bytes |
| MemCopy.MergeThree | lib/memcpy.c:176-181 | the same for three bytes |
| MemCopy.LoadWord | lib/memcpy.c:154-181 | a word load, allowed only at aligned addresses of words that hold at least one source byte |
| MemCopy.CopyWordShifted | lib/memcpy.c:158-181 | one merged store completes four more bytes and carries the next source word |
| MemCopy.CopyRemaining | lib/memcpy.c:208-223 | the fall-through switch copies exactly the bytes left over |
| MemCopy.CopyNoShift | lib/memcpy.c:225-257 | the aligned copy, remainder loop and eightfold loop, completes the buffer for every count |
| MemCopy.CopyShift | lib/memcpy.c:261-297 | the shifted copy completes the buffer for every count and each of the three shifts |
| MemCopy.Memcpy | lib/memcpy.c:315-345 | for every count and alignment of disjoint buffers, memory ends as the byte-by-byte copy of section 7.21.2.1 of ISO/IEC 9899:1999 leaves it, and the destination is returned |
| MemSet.ByteFillStores | lib/memset.c:85-94 | the byte-by-byte fill sets the requested bytes and leaves all else |
| MemSet.FillWord | lib/memset.c:119-127 | the doubled pattern is the low byte of `c0` four times, zero included |
| MemSet.SetBytes | lib/memset.c:129-136 | the byte loop, entered with a counter of at least 1 so that it cannot wrap |
| MemSet.SetWords | lib/memset.c:138-143 | the word loop, with the same condition on its counter |
| MemSet.Memset | lib/memset.c:85-152 | for every alignment and length, memory ends as the byte-by-byte fill of section 7.21.6.1 of ISO/IEC 9899:1999 with the low byte of `c0` leaves it |
| Tasks.StepKeeps | kernel/task.c:203-438 | every step between two switch points keeps the protocol's invariant, and control ends with a READY thread |
| Tasks.TargetIsZombie | kernel/task.c:421-431 | when `sleep_on` returns inside `sys_task_wait`, the target is an allocated zombie that still holds its own exit code |
| TaskTheorems.RunKeeps | kernel/task.c:203-438 | the invariant holds after every allowed interleaving |
| TaskTheorems.WaitersSafe | kernel/task.c:234-273 | in every reachable state no waiter refers to a freed tcb, and a waiter is READY again exactly when its target has exited |
| TaskTheorems.LastOneReaps | kernel/task.c:427-434 | a thread that was joined is freed if and only if nobody waits for it any more |
| TaskTheorems.FreesZombie | kernel/task.c:427-434 | a tcb is freed only as a zombie whose queue holds at most the caller, and nobody is left waiting for it |
| TaskTheorems.FreedOnce | kernel/task.c:427-434 | over every run a tcb is freed at most once |
| TaskTheorems.WaitReturnsCode | kernel/task.c:383-438 | every successful wait returns the code its target passed to `sys_task_exit` at some step of the run |
| TaskTheorems.WaitOutcome | kernel/task.c:406-438 | `sys_task_wait` fails if and only if there is no such thread; for one that has exited it returns its code at once, and frees the tcb if and only if nobody is inside a wait for it; otherwise the caller is blocked |
| TaskTheorems.ResumeOutcome | kernel/task.c:418-437 | a wait that was blocked always succeeds, with the code of its target, which is freed if and only if nobody else is inside a wait for it |
| TaskTheorems.ExitOutcome | kernel/task.c:383-398 | the caller becomes a zombie with the code given, and exactly the threads waiting for it become READY |
| TaskTheorems.CreateOutcome | kernel/task.c:333-376 | a READY thread with a tid never used before goes to the end of the list, and nothing else changes |
| TaskTheorems.SwitchesToNearest | kernel/task.c:203-227 | after a yield, an exit and a wait that blocks, the nearest READY thread runs |
| TaskLiveness.StuckForever | kernel/task.c:406-438 | threads each of which waits for one of the group or for the idle thread are blocked in every later state |
| TaskLiveness.GetsOut | kernel/task.c:383-438 | some continuation makes a blocked thread READY, and some continuation lets it leave `sleep_on`, if and only if its chain of waits ends in a thread that waits for nobody and is not the idle thread |
| TaskLiveness.WaitCanReturn | kernel/task.c:406-438 | the same as a test on the caller and the tid before `sys_task_wait` |
| TaskLiveness.SelfWait | kernel/task.c:406-438 | a run after which a thread waits for itself |
| TaskLiveness.WaitForIdle | kernel/task.c:406-438 | a run after which a thread waits for the idle thread |
| TaskLiveness.TwoWait | kernel/task.c:406-438 | a run after which two threads wait for each other |
| TaskTheorems.ChoiceIsNearest | kernel/task.c:203-227 | the next thread is the nearest READY one other than the idle thread; without one, a READY running thread stays, and otherwise the idle thread runs |
| TaskTheorems.RunsWithinDistance | kernel/task.c:203-227 | with a fixed list a thread that stays READY runs within its cyclic distance, whatever the others do |
| TaskLiveness.ComesToRun | kernel/task.c:203-227 | over every run, with threads created, exiting and reaped, a READY thread runs before `schedule` has been called more often than its cyclic distance and the number of threads created meanwhile |
| TaskList.Kernel.Select | kernel/task.c:205-215 | the loop over `next` pointers terminates and stops at the first READY thread of the round, or back at the running one |
| TaskList.Kernel.Schedule | kernel/task.c:203-227 | the linked structures end in the state in which the chosen thread runs |
| TaskList.Kernel.SleepOn | kernel/task.c:234-243 | the node goes to the head of the queue, the thread is blocked and control switched |
| TaskList.Kernel.Dequeue | kernel/task.c:245-257 | after the switch the node is taken out of the queue wherever it is, the others keep their order |
| TaskList.Kernel.WakeUp | kernel/task.c:267-273 | the first n threads of the queue become READY, all of them when n is negative |
| TaskList.Kernel.AddTask | kernel/task.c:276-289 | the new thread is last on the list |
| TaskList.Kernel.RemoveTask | kernel/task.c:292-311 | the list leads past the thread, which may be its head |
| TaskList.Kernel.GetTask | kernel/task.c:314-325 | finds the tcb with the given id, or null if there is none |
| TaskList.Kernel.SysTaskCreate | kernel/task.c:333-376 | fails exactly on a misaligned stack or missing memory; otherwise the thread is created as the model says |
| TaskList.Kernel.SysTaskExit | kernel/task.c:383-398 | the whole state ends as the exit step says |
| TaskList.Kernel.SysTaskWait | kernel/task.c:406-438 | state and result are those of the wait step, for an unknown id, a zombie and a running target; `TaskTheorems.WaitOutcome` says which are those |
| TaskList.Kernel.SysTaskResume | kernel/task.c:245-257 | back from the switch, state and result are those of the resume step, for which see `TaskTheorems.ResumeOutcome` |
| TaskList.Kernel.SysTaskYield | kernel/task.c:455-461 | the state ends as the yield step says |
| TaskList.Kernel.constructor | kernel/task.c:466-477 | the initial system: the idle thread alone |
| Zones.AllocInAddrKeeps | kernel/page.c:72-129 | `page_alloc_in_addr`, with its 32-bit sums, keeps both lists sorted, disjoint, page aligned and in their regions, with `km0` first, if and only if it fails, or the cut size is not 0 and va + size is a 32-bit address |
| Zones.AllocKeeps | kernel/page.c:135-193 | the same for `page_alloc`, whose range begins at the first gap with real room |
| Zones.RunKeeps | kernel/page.c:57-231 | over every sequence of zone calls the lists stay in order if and only if every call meets its condition |
| Zones.ModestIsSound | kernel/page.c:57-231 | a call meets it if its range would end at a 32-bit address wherever it may begin |
| Zones.WrappingPasses | kernel/page.c:82-112 | a range whose end wraps passes every guard, and is handed out unless a zone holds its first address |
| Zones.AllocIsLowest | kernel/page.c:135-193 | `page_alloc` returns the lowest address at or above the end of the first zone whose range is free and within the limit, or fails and there is none: if and only if it fails or the first gap with room ends at a 32-bit address |
| Zones.GivenIsFree | kernel/page.c:72-129 | `page_alloc_in_addr` succeeds exactly on an aligned range inside one region that no zone of either list overlaps: if and only if it fails or the range ends at a 32-bit address |
| Zones.InAddrLeavesRegion | kernel/page.c:82-85 | 4 MB at 0xFFE0_0000 are handed out, and the kernel list is no longer in its region |
| Zones.AllocLeavesRegion | kernel/page.c:144-175 | 0xFFC0_0000 bytes from an empty user list are handed out |
| Zones.AllocThenFree | kernel/page.c:135-231 | freeing what `page_alloc` returned restores both lists |
| Zones.AllocInAddrThenFree | kernel/page.c:72-231 | the same for `page_alloc_in_addr` |
| Zones.FreeIsExact | kernel/page.c:199-231 | `page_free` succeeds if and only if the range, its size cut to 32 bits, is one whole zone other than `km0`, and takes away that zone only |
| Zones.HoldingIsUnique | kernel/page.c:237-257 | at most one zone holds an address, and the search of `page_prot` finds it |
| Zones.HoldingNone | kernel/page.c:237-257 | the search fails if and only if no zone holds the address |
| Zones.ProtectionIs | kernel/page.c:237-257 | whichever list holds it, `page_prot` answers with the protection of the zone that holds the address, and with -1 if none does |
| Zones.AllocProtects | kernel/page.c:72-193 | after a successful allocation the protection of every address of the new range, none of which was held before, is the one passed, and that of every other address is as before |
| Zones.FreeUnprotects | kernel/page.c:199-231 | after a successful release no address of the range is held, and every other is as before |
| Zones.InitialHolds | kernel/page.c:57-66 | `init_vmspace(brk)` holds exactly the addresses from USER_MAX_ADDR to brk, with every access allowed |
| Zones.NothingBelowBrk | kernel/page.c:57-231 | after every run of sound calls the kernel image up to brk is still held so, and no kernel allocation begins below brk |
| Zones.SizeIs | kernel/page.c:75-75 | the size cut to 32 bits is that asked for whenever this is a 32-bit number, and always whole pages |
| ZoneList.VmSpace.constructor | kernel/page.c:57-66 | `init_vmspace` leaves `km0` alone in the kernel list |
| ZoneList.VmSpace.PlaceFrom | kernel/page.c:100-112 | the loop fails if and only if a zone holds va or begins above it and below the end cut to 32 bits, and otherwise stops between the neighbours |
| ZoneList.VmSpace.GapFrom | kernel/page.c:144-160 | the loop stops where the value model's search with 32-bit sums does |
| ZoneList.VmSpace.PageAllocInAddr | kernel/page.c:72-129 | the linked lists and the result are those of the value model for every 32-bit va and every npages, and in order exactly under its condition; the new zone has the protection passed, so that `Zones.AllocProtects` applies |
| ZoneList.VmSpace.PageAlloc | kernel/page.c:135-193 | the same for first fit |
| ZoneList.VmSpace.PageFree | kernel/page.c:199-231 | the same for release, with its three ways to fail |
| ZoneList.VmSpace.PageProt | kernel/page.c:237-257 | the protection of the zone holding the address, or -1 |
| Printf.IntRoundTrip | lib/snprintf.c:431-519 | for bases 8, 10 and 16 and every 32-bit value, reading the emitted text gives the value back, with its sign when signed |
| Printf.IntLength | lib/snprintf.c:471-480 | the text is as long as the larger of the width and sign plus the larger of precision and digits, if and only if the `0` flag does not meet a precision above the digits and a width above both |
| Printf.ShortOfWidth | lib/snprintf.c:471-480 | `%08.3d` of 5 takes 6 places |
| Printf.WordReadsBack | lib/snprintf.c:259-342 | the text of a word reads back as the word for `%o`, `%u`, `%x` and `%X`, and for `%d`, `%i` and `%p` if and only if it is below 2^31 |
| Printf.HighPointer | lib/snprintf.c:339-342 | `%p` of 0xC000_0000 is `-40000000` |
| Printf.StrTextIs | lib/snprintf.c:392-428 | length of a padded and cut string, and which character stands where |
| Printf.DigitsAreNumeral | lib/snprintf.c:463-470 | the digits are those of the literal table for the flag, without a zero in front, and denote the value |
| Printf.NumeralIsUnique | lib/snprintf.c:463-470 | no other text is such a numeral |
| Printf.IntLayout | lib/snprintf.c:431-519 | spaces, sign, zeros, numeral, spaces: how many of each, and on which side, for every combination of flags, width and precision; which sign character stands for which value and flags |
| Printf.IntCharacters | lib/snprintf.c:449-470 | no capital without the upper-case flag and no small letter with it; `+` if and only if the conversion is signed, the value not negative and the + flag given; `-` if and only if it is signed and the value negative |
| Printf.ArgumentRead | lib/snprintf.c:258-345 | an integer argument is read modulo 2^32 as a signed long, a string up to its NUL, a null string as `<NULL>` |
| Printf.PlainText | lib/snprintf.c:160-166 | a format without a percent sign stands for itself |
| Formats.UsualSpec | lib/snprintf.c:167-256 | which flags, widths, precisions and modifiers can stand before the usual conversions without running into each other |
| Formats.SpecRead | lib/snprintf.c:167-256 | from the text of a specification `dopr` gathers its flags, its width and precision as the numbers written or as the arguments their stars take, and its modifier |
| Formats.ConversionShows | lib/snprintf.c:257-388 | what each conversion shows and how many arguments it uses, stars included: the integer conversions with base, sign and case, `%c`, `%s`, `%%` and unknown characters |
| Formats.PieceRead | lib/snprintf.c:156-388 | one piece of a format shows its text, and the rest goes on after the arguments it used |
| Formats.FormatShows | lib/snprintf.c:135-390 | a format denotes what its pieces show one after the other, each from the argument where the one before it stopped; a specification broken off at the end shows nothing |
| Formats.EveryFormat | lib/snprintf.c:135-390 | every format is the text of such pieces, so that the law is about all of them |
| Snprintf.Convert | lib/snprintf.c:463-470 | the digits of any 32-bit value in the three bases take fewer than 20 places, and are stored last digit first |
| Snprintf.DoprOutch | lib/snprintf.c:695-699 | a character is appended if it fits, and nothing beyond the limit is written |
| Snprintf.FmtInt | lib/snprintf.c:431-519 | the buffer shows what fits of the text so far followed by the integer's text, which `Printf.IntLayout` describes |
| Snprintf.FmtStr | lib/snprintf.c:392-428 | the three loops under one count emit the padded string cut at the precision |
| Snprintf.AdvanceKeeps | lib/snprintf.c:167-256 | a turn that only gathers flags, width, precision or modifier leaves what is still to be printed unchanged, and moves on |
| Snprintf.Turn | lib/snprintf.c:158-388 | every turn emits the next piece of the unbounded text and comes closer to the end of the format |
| Snprintf.Dopr | lib/snprintf.c:135-390 | the eight-state loop ends, leaving the first n - 1 characters of the unbounded text, which `Formats.FormatShows` describes, and a NUL, and nothing written beyond n |
| Snprintf.Vsnprintf | lib/snprintf.c:702-707 | the same, and the returned length is that of the text left in the buffer |

## Left out

- Heap: areas added later (`add_new_area`), locks, statistics, `calloc_ex` and the debug printers; memory is a map of words, so payloads are compared word by word.
- Heap: the `memcpy` inside `realloc_ex` is a copy of whole words here; that `memcpy` copies bytes correctly is proved in `MemCopy`.
- Heap.Malloc: does not cover requests above 2^30 - 2^24, for which the code reads outside its matrix or, for the last 2^26, hands out empty blocks; `Heap.RequestServed` draws the line.
- Allocator.Tlsf.MallocEx: the same requests.
- Allocator.Tlsf.ReallocEx: the same requests, unless they can be met in place.
- Allocator.Tlsf.InitMemoryPool: does not cover pools of 2^30 bytes and more, which from 2^30 + 3212 up do not fit the matrix (`Allocator.PoolInMatrix`); the signature found in a pool counts as proof that the pool was set up by this code, because the source has no other sign of it.
- MemCopy: overlapping buffers, which the standard excludes, and big-endian or 64-bit builds.
- Tasks: saving and restoring contexts, time slices, the FPU owner and the timer, which only asks for a switch; the separate array scheduler of the same file; reuse of a freed tcb's memory.
- TaskList.Kernel.constructor: `init_task` leaves `g_task_running` null until the first switch; the model starts with the idle thread running.
- TaskList.Kernel.SysTaskWait: always delivers the exit code, because a null result pointer only skips the store.
- TaskList.Kernel.AddTask: has no case for an empty list, because the idle thread is put on it first.
- Zones: page tables, page faults and frames; `npages * PAGE_SIZE` is a product of two `int`, whose overflow C leaves undefined, and is taken to be cut to 32 bits.
- Printf: floating-point conversions, `%n` and `%w`; an argument that is missing or of the wrong kind reads as 0 or as an empty string, where C leaves the behaviour undefined; widths and precisions do not overflow.
- `kernel/bitmap.c` and `kernel/frame.c`: the bodies that would mark a frame as used are commented out, so frames are not kept track of.
- `lib/string.c` and the device drivers: short single loops and hardware access.
