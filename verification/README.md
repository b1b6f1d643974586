# A verified model of the OS/161 demand-paging kernel

This project models the parts of the kernel in which several data structures, or many small arithmetic steps, have to
agree with something much simpler, and proves that they do. It is written in Dafny 4.11; `dafny verify dfyconfig.toml`
checks all of it. Nothing of the original program was executed.

## What is modelled

**Demand paging** (`kern/vm`). `PageTable.dfy` is the inverted page table of `pt.c`: one entry per frame, hash chains
through `next`, the victim queue through `fifonext`, kernel extents of which only the head frame is marked.
`SwapFile.dfy` is the swap map, `Tlb.dfy` the TLB policy and the counters. `Paging.dfy` says what eviction, page-in,
process start and process exit do to memory; `Machine.dfy` holds the imperative code of `coremap.c`, `vm.c` and
`addrspace.c`, proved against it. `DemandPaging.dfy` runs the whole system, one fault per step, and proves that no run
can be told from a run on plain per-process memory (`PagingIsTransparent`). `Residence.dfy` proves that the page
evicted is always the one that has been in memory longest.

**64-bit arithmetic on 32-bit words** (`common/gcc-millicode`). `QDivRem.dfy` is Algorithm D of Knuth, volume 2,
section 4.3.1, on 16-bit digits with wrapping 32-bit borrows, its step proved in any base and its digit loops for any
number of digits; `Shifts.dfy` has the normalising shifts, `Digits.dfy` the digit sequences, `Arithmetic.dfy` product
and quotient facts. `MulDi3.dfy` is the three-product multiplication of section 4.3.3, `DivDi3.dfy` signed division
and remainder.

**Kernel heap** (`kern/vm/kmalloc.c`). `Heap.dfy` is the heap as a value, with its clients and every run of requests
and releases; `Kmalloc.dfy` is the code: pagerefs on two families of linked lists (`Chains.dfy`), free lists threaded
through the free blocks, the bitmap of pagerefs. `KernelMemory.dfy` runs the heap on the page table of the paging
system, which gives it its pages.

**Threads** (`kern/thread`). `Threadlist.dfy` is the doubly linked list with bookends, `Migration.dfy` run-queue
migration with other CPUs running between its locked sections, `Synch.dfy` semaphores, locks and condition variables
as interleaved step systems, `Hangman.dfy` the deadlock detector.

**Printing and parsing** (`common/libc`). `Numerals.dfy`, `Printf.dfy` and `Atoi.dfy`: the format machine, the bounded
buffer of `vsnprintf`, and `atoi`, which undoes `%d`.

Conventions: a pointer into a table is an index and the null pointer is -1; machine words are integers with the
wrapping written out; a section under a spinlock is one step; `Basics.dfy` holds what the models share.

## Where the code falls short of its purpose

Each of these is modelled as the code has it, with the exact condition under which the purpose is met.

- The first page of the second ELF segment is read through the first segment when the two are adjacent, because the
  upper bounds in `readfromelfto` are inclusive: `Paging.ElfSegmentExact`, `FirstLoadPromised`, `FirstLoadAdjacent`.
- A process that gets the id of one that just exited inherits its TLB entries and reads its memory, because exit
  leaves the TLB alone and `vmtlb_invalidate` does nothing for the last writer's id: `DemandPaging.SpawnTlbExact`,
  `ReusedPid`, `ReusedPidWrong`. Ids are given out in circular order and the last one given out is skipped
  (kern/proc/proc.c:96-111), so it takes an id that comes round again right after its holder exits, with no other
  process switched to in between.
- The 32-bit TLB write index wraps, after which a write counted as hitting a free slot replaces a valid entry:
  `Tlb.FreeWriteExact`, `AfterWrap`, `AfterWrapExample`, `NthWrite`, and over runs `DemandPaging.FreeWritesExact`.
- `printvmstats` tests the first counter identity three times: `Tlb.WarningsExact`, `WarningMissed`. It does not
  matter, because all three identities always hold, modulo 2^32: `Tlb.FaultBalanced`, `DemandPaging.FaultStats`,
  `NeverWarns`.
- `getfreeppages` goes on with index -1 when it has evicted a page, and releases a spinlock it no longer holds, so the
  kernel gets pages if and only if a run of free frames exists beforehand: `Machine.Vmm.GetFreePpages`.
- The quotient of the smallest 64-bit number by -1 does not fit and wraps: `DivDi3.Div`.

## Model

| member | source | states |
|---|---|---|
| `PageTable.GetFreeFrames` | kern/vm/pt.c:15-26 | returns the lowest start of a run of `numpages` frames that are free and in no kernel extent, or -1 exactly when there is none (and always for zero pages), although only extent heads are marked |
| `PageTable.GetPageAddr` | kern/vm/pt.c:120-125 | walking one hash chain gives the answer of a scan of the whole table |
| `PageTable.LinkEntry` | kern/vm/pt.c:44-61 | the entry joins the end of its chain and of the queue, and no other link changes |
| `PageTable.UnlinkFromChain` | kern/vm/pt.c:66-80 | finds the entry of the page, if there is one, and takes exactly it out of its chain |
| `PageTable.UnlinkFromFifo` | kern/vm/pt.c:82-93 | takes the entry out of the queue without ever following a null `fifonext` |
| `PageTable.FindLast` | kern/vm/pt.c:94-104 | the walk ends at the last entry of the queue |
| `PageTable.InstallOk` | kern/vm/pt.c:38-63 | a user page in a truly free frame keeps keys unique, extents apart and the queue exactly the user frames |
| `PageTable.UninstallOk` | kern/vm/pt.c:65-110 | removing a user page keeps all that, and the key is gone from the table |
| `PageTable.MarkKernelOk` | kern/vm/pt.c:38-63 | marking the head of a run of truly free frames keeps extents and user frames pairwise apart and in range |
| `PageTable.UnmarkKernelOk` | kern/vm/pt.c:112-118 | clearing a head keeps the other extents and the user frames apart, in range and listed |
| `PageTable.ExtentsDisjoint` | kern/vm/pt.c:15-26 | no frame of a kernel extent is a user frame or lies in another extent |
| `PageTable.RepInstall` | kern/vm/pt.c:44-61 | after the link writes, chains are acyclic and hold exactly the user frames hashing there, and the queue holds all user frames in order with the right tail |
| `PageTable.RepRemove` | kern/vm/pt.c:65-110 | the same after the link writes of a removal, which deletes exactly one page from both lists and keeps the order of the rest |
| `PageTable.OnChain` | kern/vm/pt.c:11-13 | every user page is on the chain its key hashes to |
| `PageTable.Table.constructor` | kern/vm/coremap.c:43-48 | after boot the low frames are one-page kernel extents, the rest free, all lists empty |
| `PageTable.Table.SetPtEntry` | kern/vm/pt.c:38-63 | the table means what it meant with this frame installed or marked, and its links represent that |
| `PageTable.Table.FreeUser` | kern/vm/pt.c:65-110 | succeeds exactly if the page is in the table, removes exactly it, and keeps the order of the queue |
| `PageTable.Table.FreeKernel` | kern/vm/pt.c:112-118 | removes exactly the extent headed by the frame |
| `PageTable.Table.PageAddr` | kern/vm/pt.c:120-125 | the address a scan of the table would give |
| `PageTable.Table.Victim` | kern/vm/coremap.c:154-155 | the head of the queue, with its key and address |
| `SwapFile.SwapDevice.SwapInPage` | kern/vm/swapfile.c:44-66 | the page goes to the lowest free slot with its contents; fails exactly when no slot is free |
| `SwapFile.SwapDevice.SwapOutPage` | kern/vm/swapfile.c:68-90 | returns the contents last saved for the page and frees its slot, or reports that there is none |
| `SwapFile.SwapDevice.RemoveSwapEntries` | kern/vm/swapfile.c:92-101 | frees every slot of the process: nothing lies above `maxindswappedpage` |
| `Paging.SwapInOk` | kern/vm/swapfile.c:44-66 | a save keeps pages unique and every slot above the high-water mark free |
| `Paging.ReleaseSlotsExact` | kern/vm/swapfile.c:92-101 | scanning up to the high-water mark releases exactly the slots of the process |
| `Paging.EvictOk` | kern/vm/coremap.c:152-161 | eviction moves one page from memory to swap space; every page still reads the same |
| `Paging.PageInOk` | kern/vm/vm.c:115-134 | page-in from swap space, file or zeros moves one page into memory; every page still reads the same |
| `Paging.ReleaseWhere` | kern/vm/addrspace.c:103-104 | after an exit nothing of the process is in memory or swap space, and every other page is in the frame or slot it was in |
| `Paging.ReleaseOk` | kern/vm/addrspace.c:103-104 | an exit keeps all invariants of memory, and every other process's pages read the same |
| `Paging.StartOk` | kern/vm/segments.c:33-34 | every page of a new process reads as its first load, and nobody else's pages change |
| `Paging.SetLoadedExact` | kern/vm/vm.c:94-105 | the page index within its segment identifies the page: setting one loaded flag changes no other page's |
| `Paging.ElfSegmentExact` | kern/vm/addrspace.c:246-257 | the file read uses the page's own segment if and only if the page is not the first of a second segment that begins where the first ends |
| `Paging.FirstLoadPromised` | kern/vm/addrspace.c:241-259 | outside that case a page starts with its own part of its segment's file |
| `Paging.FirstLoadAdjacent` | kern/vm/addrspace.c:246-249 | in that case it need not: a concrete address space |
| `Tlb.FaultBalanced` | kern/vm/vmstats.c:36-39 | one fault's increments keep all three counter identities, modulo 2^32 |
| `Tlb.FreeWriteExact` | kern/vm/vm_tlb.c:36-45 | a write counted "with free" replaces a valid entry if and only if no slot is free, and that is if and only if the index has wrapped since the last flush and no hole is remembered |
| `Tlb.EnterFilled` | kern/vm/vm_tlb.c:36-50 | the slots below the index are the ones in use after every write, until the write that wraps the 32-bit index; from then on all are |
| `Tlb.AfterWrap` | kern/vm/vm_tlb.c:40-50 | the write after the one that wraps the index always replaces a valid entry and is counted "with free" |
| `Tlb.AfterWrapExample` | kern/vm/vm_tlb.c:40-44 | two valid entries, the first replaced by a write counted "with free" |
| `Tlb.NthWrite` | kern/vm/vm_tlb.c:36-50 | after `n` writes since a flush the next is counted "with free" if and only if `n` modulo 2^32 is below the number of slots, and replaces a valid entry if and only if `n` is not |
| `Tlb.TlbUnit.InvalidatePage` | kern/vm/vm_tlb.c:10-17 | drops the translation of the page, whoever's it is, and remembers the slot |
| `Tlb.TlbUnit.Invalidate` | kern/vm/vm_tlb.c:18-25 | empties the TLB, counting it, unless the process wrote last |
| `Tlb.TlbUnit.Write` | kern/vm/vm_tlb.c:26-52 | enters the translation in the slot just invalidated, the next unused one or round robin, and counts which |
| `Tlb.VmStats.Incr` | kern/vm/vmstats.c:26-30 | one counter goes up by one, modulo 2^32 |
| `Tlb.VmStats.PrintVmStats` | kern/vm/vmstats.c:32-42 | which of the three warnings are given |
| `Tlb.WarningsExact` | kern/vm/vmstats.c:37-39 | the warnings given are the ones meant if and only if the three identities hold or fail together |
| `Tlb.WarningMissed` | kern/vm/vmstats.c:37-39 | counters for which the second warning is due and not given |
| `DemandPaging.TakeFrameOk` | kern/vm/coremap.c:142-162 | the frame obtained is truly free and every page reads as before; it fails only if every frame is the kernel's, or swap space is full |
| `DemandPaging.FaultOk` | kern/vm/vm.c:94-140 | a fault on an address in no segment fails; any other ends with the page resident, translated with its segment's permission, reading as before, and all invariants kept |
| `DemandPaging.FaultStats` | kern/vm/vm.c:113-136 | after every fault TLBFAULT = FREE + REPLACE = RELOAD + DISK + ZERO and DISK = ELF + SWAP |
| `DemandPaging.TranslationOk` | kern/vm/vm_tlb.c:26-52 | a translation the running process can use leads to the frame the page table gives its page, with the right permission and contents |
| `DemandPaging.SpawnTlbExact` | kern/vm/vm_tlb.c:18-19 | starting a process keeps the TLB sound if and only if it does not take the id of the last writer while entries remain |
| `DemandPaging.ReusedPid` | kern/vm/addrspace.c:95-130 | an id reused at once: a load through an entry left behind delivers the byte of the process that exited, where the first-load byte is due |
| `DemandPaging.ReusedPidWrong` | kern/vm/vm_tlb.c:18-19 | so for every entry left behind there is a program whose load is answered wrongly |
| `DemandPaging.ActivatedOnly` | kern/vm/vm_tlb.c:18-25 | after a switch every entry of the TLB translates a page of the new process |
| `DemandPaging.StepOk` | kern/vm/vm.c:40-143 | every event keeps page table, residency, swap, TLB and counter invariants |
| `DemandPaging.StepAgrees` | kern/vm/vm.c:40-143 | every event shows what plain memory shows and leaves every page reading what plain memory holds |
| `DemandPaging.PagingIsTransparent` | kern/vm/vm.c:111-136 | over every run after boot, every load delivers the value last stored there by the same process, or the first-load contents, and so does every page at the end, wherever it is |
| `DemandPaging.RunInvariant` | kern/vm/swapfile.c:44-101 | in every state of every run each page is in exactly one of never-loaded, resident or swapped, and all other invariants hold |
| `DemandPaging.FreeWritesExact` | kern/vm/vm_tlb.c:36-50 | over every run, a write counted "with free" replaces a valid entry if and only if the TLB is full, and that is if and only if the index has wrapped since the last flush and the write fills no hole |
| `DemandPaging.FreeWritesNeverOverwrite` | kern/vm/vm_tlb.c:36-45 | in particular it never does before the index first reaches its maximum |
| `DemandPaging.NeverWarns` | kern/vm/vmstats.c:37-39 | in every state of every run no warning is given and none is due |
| `Residence.AccessQueue` | kern/vm/coremap.c:142-163 | an access leaves the queue alone, appends a frame, or moves its head to the end |
| `Residence.EvictsLongestResident` | kern/vm/coremap.c:154-160 | in every state of every run the page the next eviction takes came in before every other resident page |
| `Machine.AllocUserPage` | kern/vm/coremap.c:142-167 | the code takes a free frame or saves and frees the head of the queue, and installs the page, as the memory model says |
| `Machine.ServeFault` | kern/vm/vm.c:112-140 | hit, swap, file and zero paths compute the fault function on table, memory, swap space, TLB and counters |
| `Machine.RemovePtEntries` | kern/vm/coremap.c:185-190 | no frame of the process is left and the others keep their frames and order |
| `Machine.Vmm.constructor` | kern/vm/vm.c:18-22 | boot establishes the starting state of the run theorems |
| `Machine.Vmm.PageAddr` | kern/vm/coremap.c:177-183 | the address a scan of the table would give |
| `Machine.Vmm.VmFault` | kern/vm/vm.c:40-143 | the whole handler computes the fault function, and reports exactly its failures |
| `Machine.AlwaysCanFault` | kern/vm/vm.c:112-116 | in every sound state, what the handler needs of table and swap map holds |
| `Machine.Vmm.GetFreePpages` | kern/vm/coremap.c:62-84 | the lowest free run becomes a kernel extent; without one the call always panics, in the eviction branch too |
| `Machine.Vmm.FreeKpages` | kern/vm/coremap.c:131-139 | frees the extent headed by the frame |
| `Machine.Vmm.AsActivate` | kern/vm/addrspace.c:108-130 | the code does the step of a switch, after which the TLB holds nothing of another process |
| `Machine.Vmm.AsDestroy` | kern/vm/addrspace.c:95-106 | releases everything the process had in memory and swap space |
| `QDivRem.TrialClose` | common/gcc-millicode/qdivrem.c:193-210 | in any base, the largest digit that fits the leading digits is the true quotient digit or one more |
| `QDivRem.DigitStep` | common/gcc-millicode/qdivrem.c:193-233 | in any base, the borrow of the subtraction tells exactly whether the estimate was one too many, and what is left, with the divisor added back in that case, is the remainder |
| `QDivRem.Estimate` | common/gcc-millicode/qdivrem.c:193-210 | the corrected estimate is the largest digit whose multiple of the two leading divisor digits fits the three leading dividend digits |
| `QDivRem.EstimateClose` | common/gcc-millicode/qdivrem.c:193-210 | for any number of digits the estimate is the true quotient digit or one more |
| `QDivRem.BorrowExact` | common/gcc-millicode/qdivrem.c:217-221 | the wrapped word splits into the new digit and the exact borrow |
| `QDivRem.SubtractExact` | common/gcc-millicode/qdivrem.c:217-221 | D4 is an exact multi-digit subtraction modulo a power of the base |
| `QDivRem.AddExact` | common/gcc-millicode/qdivrem.c:232-236 | D6 is an exact multi-digit addition with carry |
| `QDivRem.OutcomeRight` | common/gcc-millicode/qdivrem.c:217-230 | with the right digit D4 leaves the remainder and no borrow |
| `QDivRem.OutcomeOver` | common/gcc-millicode/qdivrem.c:222-238 | with one too many the borrow shows, and one add-back leaves the remainder |
| `QDivRem.MultiplySubtract` | common/gcc-millicode/qdivrem.c:217-221 | the loop does exactly that subtraction in place |
| `QDivRem.AddBack` | common/gcc-millicode/qdivrem.c:232-236 | the loop does exactly that addition in place |
| `QDivRem.QuotientDigit` | common/gcc-millicode/qdivrem.c:193-239 | one round yields the quotient digit of the window, whose digits become its remainder with a zero on top |
| `QDivRem.DigitLoop` | common/gcc-millicode/qdivrem.c:179-240 | after the loop the quotient digits and the remaining digits are quotient and remainder of the scaled dividend, and the digits above are zero |
| `QDivRem.Normaliser` | common/gcc-millicode/qdivrem.c:169-171 | the shift brings the leading divisor digit to at least half the base |
| `QDivRem.FirstWindow` | common/gcc-millicode/qdivrem.c:172-175 | after scaling, the first window is below the divisor, so the first digit fits |
| `QDivRem.ScaledDivision` | common/gcc-millicode/qdivrem.c:167-175 | scaling both leaves the quotient alone and scales the remainder |
| `Shifts.ShiftLeftExact` | common/gcc-millicode/qdivrem.c:270-279 | `shl` multiplies by a power of two, less what falls out of the top digit |
| `Shifts.Shl` | common/gcc-millicode/qdivrem.c:270-279 | the in-place loop leaves exactly those digits |
| `Shifts.ShiftRightExact` | common/gcc-millicode/qdivrem.c:248-254 | the remainder shift divides, dropping the low bits of the last digit |
| `Shifts.Shr` | common/gcc-millicode/qdivrem.c:248-254 | the in-place loop leaves exactly those digits |
| `QDivRem.Short` | common/gcc-millicode/qdivrem.c:124-149 | short division by one digit gives quotient and remainder |
| `QDivRem.Long` | common/gcc-millicode/qdivrem.c:152-258 | normalisation, digit loop and remainder shift give quotient and remainder of the numbers as they were |
| `QDivRem.QDivRem` | common/gcc-millicode/qdivrem.c:67-263 | for every 64-bit u and v != 0: u = q v + r and 0 <= r < v |
| `MulDi3.AddWithCarry` | common/gcc-millicode/muldi3.c:224-232 | adding word by word with "the sum went down" as carry is exact modulo 2^64 |
| `MulDi3.SubtractWithBorrow` | common/gcc-millicode/muldi3.c:219-223 | likewise subtraction with "the difference went up" as borrow |
| `MulDi3.ThreeProducts` | common/gcc-millicode/muldi3.c:57-69 | three half-size products make the whole product, in any base |
| `MulDi3.LMulQ` | common/gcc-millicode/muldi3.c:183-241 | the exact product of any two words, although every intermediate sum wraps |
| `MulDi3.Multiply` | common/gcc-millicode/muldi3.c:124-158 | the product of any two unsigned 64-bit numbers modulo 2^64 |
| `MulDi3.Mul` | common/gcc-millicode/muldi3.c:99-159 | the product of any two signed 64-bit numbers modulo 2^64, hence the product itself whenever it fits |
| `DivDi3.Div` | common/gcc-millicode/divdi3.c:44-62 | the quotient truncated toward zero if and only if the operands are not the minimum and -1, for which it is the minimum |
| `DivDi3.Mod` | common/gcc-millicode/moddi3.c:45-62 | smaller than the divisor, of the sign of the dividend, and what the truncated quotient leaves (section 6.5.5 of ISO C99) |
| `Heap.LiveDisjoint` | kern/vm/kmalloc.c:873-1018 | the whole blocks and whole page runs of any two clients do not overlap |
| `Heap.LiveOffRoots` | kern/vm/kmalloc.c:218-251 | no block or page run of a client touches a page of pagerefs |
| `Heap.SubMallocOk` | kern/vm/kmalloc.c:905-1017 | a request is served by a block nobody held, of the right type, and nothing else changes hands |
| `Heap.SubFreeOk` | kern/vm/kmalloc.c:1116-1151 | a release gives back exactly one block; a page is given up exactly when no block of it is in use |
| `Heap.StepOk` | kern/vm/kmalloc.c:1169-1223 | every request, release and outside use of pages keeps the heap sound |
| `Heap.HeapSafe` | kern/vm/kmalloc.c:1169-1223 | over every run, live blocks and page runs are pairwise disjoint in full and at least as large as asked for |
| `Heap.MallocFresh` | kern/vm/kmalloc.c:1169-1206 | a pointer returned is not one a client already holds |
| `Heap.Routes` | kern/vm/kmalloc.c:1072-1097 | a live pointer lies on a heap page exactly when it came from the subpage allocator; that page and its offset give the block back |
| `Heap.LiveBlock` | kern/vm/kmalloc.c:1141-1148 | every listed page has a block that some client holds |
| `Heap.AllReturned` | kern/vm/kmalloc.c:1137-1148 | when no client holds a block, every heap page has gone back and both families of lists are empty |
| `Heap.PagesEnough` | kern/vm/kmalloc.c:1191 | rounding up to pages gives enough room unless it wraps, and then it asks for no page |
| `Heap.KernelExtentsMark` | kern/vm/coremap.c:62-84 | a free run of the page table is a fresh extent for the heap, and marking it adds exactly that extent |
| `Heap.KernelExtentsOk` | kern/vm/pt.c:15-26 | the kernel extents of a sound page table never overlap |
| `Heap.KernelExtentsUnmark` | kern/vm/coremap.c:131-139 | freeing a head frame removes exactly its extent |
| `KernelMemory.GrabOk` | kern/vm/coremap.c:62-84 | what the page allocator hands out is a fresh extent for the heap, never frame 0, and the table then has exactly that one more |
| `KernelMemory.UserKernel` | kern/vm/vm.c:40-143 | nothing processes do adds, moves or removes a kernel extent |
| `KernelMemory.StepOk` | kern/vm/kmalloc.c:1169-1223 | every request and release, with the pages it asks of the page table, and every event of the paging system keeps heap and paging sound and the extents of the heap those of the table |
| `KernelMemory.UserApart` | kern/vm/coremap.c:62-139 | a frame of a process keeps clear of everything a kernel client holds |
| `KernelMemory.KernelMemorySafe` | kern/vm/kmalloc.c:1169-1223 | over every run of the heap on the page table, what clients hold is clear of each other and of every frame of a process, and the loads of processes are those of plain memory |
| `Chains.ChainRemove` | kern/vm/kmalloc.c:830-844 | redirecting one link takes one node out of a linked list and keeps the rest |
| `Kmalloc.BlockType` | kern/vm/kmalloc.c:851-867 | the smallest block type that holds the request |
| `Kmalloc.FindUnused` | kern/vm/kmalloc.c:257-298 | the lowest clear bit of the bitmap, skipping full roots and words, or none exactly when all are set |
| `Kmalloc.CountsFlip` | kern/vm/kmalloc.c:281-282 | setting or clearing a bit and adjusting its root's counter keeps every counter the number of set bits |
| `Kmalloc.BuildFreeList` | kern/vm/kmalloc.c:998-1008 | a fresh page gets one free list of all its blocks, highest first, and nothing outside it is written |
| `Kmalloc.FreeNotHeld` | kern/vm/kmalloc.c:142-144 | a free block, link word included, keeps clear of the whole of what any client holds |
| `Kmalloc.ClientWrite` | kern/vm/kmalloc.c:142-144 | whatever a client writes anywhere in the block or pages it holds, no free list is disturbed |
| `Kmalloc.Bookkeeping` | kern/vm/kmalloc.c:194-198 | each root's `numinuse` is its number of listed pagerefs |
| `Kmalloc.KHeap.constructor` | kern/vm/kmalloc.c:213-346 | the cleared variables represent the empty heap |
| `Kmalloc.KHeap.AllocPageref` | kern/vm/kmalloc.c:257-298 | takes the lowest unused pageref, counts it, and gets a page for its root if there was none |
| `Kmalloc.KHeap.FreePageref` | kern/vm/kmalloc.c:304-337 | finds the one root page the pageref lies on and clears its bit |
| `Kmalloc.KHeap.RemoveLists` | kern/vm/kmalloc.c:823-845 | takes the pageref, and nothing else, off both lists |
| `Kmalloc.KHeap.SubpageKmalloc` | kern/vm/kmalloc.c:873-1018 | the code does the step of the heap, returns the address of the block it chose, and asks for a page and a pageref page only when it needs them |
| `Kmalloc.KHeap.SubpageKfree` | kern/vm/kmalloc.c:1024-1160 | an error exactly for whole-page allocations; otherwise the step of the heap |
| `Kmalloc.KHeap.Kmalloc` | kern/vm/kmalloc.c:1169-1206 | the step of the heap for every size, and the page counts it asks for |
| `Kmalloc.KHeap.Kfree` | kern/vm/kmalloc.c:1211-1223 | nothing for the null pointer, otherwise the step of the heap through the allocator the pointer came from, and the page address it returns, if any |
| `Hangman.WaitExact` | kern/thread/hangman.c:50-67 | a wait closes a cycle if and only if the holder already waits, directly or not, for the actor |
| `Hangman.AcquireAcyclic` | kern/thread/hangman.c:131-157 | getting what one waited for closes no cycle |
| `Hangman.ReleaseAcyclic` | kern/thread/hangman.c:159-182 | neither does letting go |
| `Hangman.RunAcyclic` | kern/thread/hangman.c:109-182 | over every run without a panic the waits-for graph has no cycle |
| `Hangman.TakeAndLeave` | kern/thread/hangman.c:109-182 | an uncontended wait, acquire and release never panics, makes the actor the holder in between and restores the graph |
| `Hangman.Check` | kern/thread/hangman.c:50-67 | the walk terminates and reports exactly whether the holder waits for the actor |
| `Hangman.Detector.HangmanWait` | kern/thread/hangman.c:109-129 | panics exactly if the actor already waits or the wait would close a cycle, and otherwise records it |
| `Hangman.Detector.HangmanAcquire` | kern/thread/hangman.c:131-157 | panics exactly if the actor does not wait for a free lock, and otherwise hands it over |
| `Hangman.Detector.HangmanRelease` | kern/thread/hangman.c:159-182 | panics exactly if the actor waits or is not the holder, and otherwise frees it |
| `Threadlist.InsertOk` | kern/thread/threadlist.c:105-140 | the four writes of an insertion link the new node between its neighbours, both ways |
| `Threadlist.BypassOk` | kern/thread/threadlist.c:145-157 | the four writes of a removal link the neighbours both ways and leave the node loose |
| `Threadlist.OtherList` | kern/thread/threadlist.c:105-157 | lists that share no node are not disturbed |
| `Threadlist.List.constructor` | kern/thread/threadlist.c:60-72 | the two bookends make an empty list |
| `Threadlist.List.AddHead` | kern/thread/threadlist.c:162-170 | the thread comes first, the order of the others is kept |
| `Threadlist.List.AddTail` | kern/thread/threadlist.c:172-180 | the thread comes last, the order of the others is kept |
| `Threadlist.List.RemHead` | kern/thread/threadlist.c:182-198 | the first thread, or null exactly for an empty list |
| `Threadlist.List.RemTail` | kern/thread/threadlist.c:200-216 | the last thread, or null exactly for an empty list |
| `Threadlist.List.InsertAfter` | kern/thread/threadlist.c:218-224 | the thread follows the given one |
| `Threadlist.List.InsertBefore` | kern/thread/threadlist.c:226-232 | the thread precedes the given one |
| `Threadlist.List.RemoveNode` | kern/thread/threadlist.c:234-240 | exactly the given thread leaves |
| `Migration.TakeOk` | kern/thread/thread.c:876-881 | taking a victim loses and duplicates no thread |
| `Migration.SendOk` | kern/thread/thread.c:919-924 | sending a victim to a queue below its share loses and duplicates no thread, sets `t_cpu`, and leaves the queue within its share |
| `Migration.SkipOk` | kern/thread/thread.c:913-917 | putting the current thread last loses and duplicates no thread |
| `Migration.CurrentStays` | kern/thread/thread.c:891-917 | in any run of our sections and other CPUs the current thread stays on this CPU |
| `Migration.Scheduler.TakeVictims` | kern/thread/thread.c:874-881 | the queue always holds enough threads to take: none comes back null |
| `Migration.Scheduler.Fill` | kern/thread/thread.c:888-933 | never takes from an empty victim list, never lifts the destination above its share, never sends the current thread |
| `Migration.Scheduler.PutBack` | kern/thread/thread.c:941-949 | every leftover returns to our queue |
| `Migration.Scheduler.ConsiderMigration` | kern/thread/thread.c:848-951 | however other CPUs change their queues and append to ours in between, every section of ours loses and duplicates no thread, keeps to the share and keeps `t_cpu` right, and the current thread is back on our queue if it was there |
| `Synch.SemRunOk` | kern/thread/synch.c:88-135 | over every interleaving count = initial + V's - completed P's, and while anybody sleeps at least `sem_count` threads are woken and still to run |
| `Synch.NoLostV` | kern/thread/synch.c:88-135 | from creation on, a positive count with sleepers means a woken thread is about to use it |
| `Synch.LockRunOk` | kern/thread/synch.c:178-222 | over every interleaving a free lock with sleepers has a woken thread pending, and only the owner is past the test of `lock_release` |
| `Synch.LockSafe` | kern/thread/synch.c:178-222 | at most one holder, no stale test, and the woken thread gets the free lock |
| `Synch.CvRunOk` | kern/thread/synch.c:263-299 | over every interleaving the spinlock, the lock and the channel agree with where the threads are |
| `Synch.NoLostSignal` | kern/thread/synch.c:263-299 | a waiter that has given up the lock is on the channel or already woken when a signal comes; a broadcast wakes every such waiter, a signal the first |
| `Synch.ServedInOrder` | kern/thread/thread.c:1019-1076 | a sleeper with k others ahead of it is woken within k + 1 signals, and by any broadcast |
| `Numerals.NumeralValue` | common/libc/printf/__printf.c:439-459 | reading a decimal numeral gives the number back |
| `Numerals.NumeralLength` | common/libc/printf/__printf.c:76-84 | a number below 8^k has at most k digits in base 8 or larger |
| `Printf.DigitsOf` | common/libc/printf/__printf.c:420-467 | the digits of any 64-bit number in base 8, 10 or 16, never below the start of the buffer |
| `Printf.BufferTight` | common/libc/printf/__printf.c:84 | some number needs all of the buffer |
| `Printf.FieldWidth` | common/libc/printf/__printf.c:365-404 | a field has the width asked for or the length of its text, which is all there, on the side asked for |
| `Printf.Snp.Send` | common/libc/printf/snprintf.c:73-93 | the buffer holds the longest prefix that fits of everything sent, and nothing beyond is written |
| `Printf.Printer.PrintStuff` | common/libc/printf/__printf.c:365-404 | sends one padded field |
| `Printf.Printer.PrintNum` | common/libc/printf/__printf.c:413-491 | sends sign, base prefix and numeral as one field |
| `Printf.Printer.SendChar` | common/libc/printf/__printf.c:496-563 | one character of the format sends its text and leaves the machine in its state |
| `Printf.Printer.VPrintf` | common/libc/printf/__printf.c:570-592 | the whole text of the format is sent and its length returned |
| `Printf.Vsnprintf` | common/libc/printf/snprintf.c:98-142 | the longest prefix that fits, a terminator, nothing else written, and the full length returned (section 7.19.6.12 of ISO C99) |
| `Atoi.ParseInt` | common/libc/stdlib/atoi.c:49-101 | blanks, a sign, digits and anything: the number the digits stand for, wrapped to an `int` |
| `Atoi.PrintsDecimal` | common/libc/printf/__printf.c:253-287 | `%d` prints an `int` in decimal |
| `Atoi.RoundTrip` | common/libc/stdlib/atoi.c:49-101 | every 32-bit `int` is read back from its decimal text, whatever blanks come before and non-digits after |
| `Atoi.PrintAndParse` | common/libc/printf/snprintf.c:98-142 | what `vsnprintf` stores for `%d` in a large enough buffer reads back as the same `int` |

## Left out

- Machine.Vmm.VmFault: one CPU and one step per fault; the spinlock released around swap input and output and TLB shootdown are not modelled. A run ends when no frame can be freed or swap space is full, where the code goes on with address 0 or panics.
- Machine.Vmm.GetFreePpages: what the write at index -1 in the eviction branch does to the memory in front of the page table, before the panic, is not modelled.
- Tlb.VmStats.PrintVmStats: the lines printed for the counters are not modelled, only the warnings.
- Paging.PageInOk: reading the ELF file is a function that always yields a page; parsing and unaligned segments are not modelled.
- DemandPaging.PagingIsTransparent: an access outside every segment leaves the state alone, and a store to a read-only page takes the process off the CPU; what the kernel then does to the process is not modelled. A process id is not reused while it is the last writer's and TLB entries remain (the exact condition is proved).
- QDivRem.QDivRem: a zero divisor is excluded, since the code then divides by zero on purpose; the remainder is always computed.
- Kmalloc.KHeap.Kmalloc: page allocation succeeds, its result a parameter (`KernelMemory` computes it), so the out-of-memory paths are not modelled, among them the one that leaves a pageref marked in use; an operation is one step although the code drops its spinlock around page allocation.
- Kmalloc.KHeap.Kfree: filling a freed block with a pattern, and the debugging modes that are compiled out, are not modelled.
- Migration.Scheduler.ConsiderMigration: run queues are sequences with the operations proved of the thread lists; the interrupt that wakes an idle CPU is not modelled.
- Synch.SemRunOk: a section under the spinlock is one step; memory barriers and test-and-set are taken as given, and so is that a runnable thread eventually runs.
- Synch.CvRunOk: a caller of `cv_wait`, `cv_signal` or `cv_broadcast` without the lock first takes it, which is the step of taking the lock on its own.
- Printf.Printer.VPrintf: field width and character count are not limited to an `int`; the send function is the one of `snprintf`.
- `as_copy` and `fork`, which copy no page contents; `freeuserpage`, which nothing calls.
- Allocation before the page table is active, when pages come from `ram_stealmem`.
- The context switch itself, interrupts, devices, the file system, system calls, boot and menus.
- Bitmaps, arrays, string routines, byte swapping and the one-line 64-bit operations are not modelled.
