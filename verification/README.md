# Verified memory side of the kernel

This project models the memory management of the teaching kernel under `src/kernel` and proves
it: the two page allocators, the Sv39 page tables, a process's heap, stack and mmap area with
its list of regions, copying and destroying an address space, copies between kernel and user
memory, the shared region-node pool, and the spinlock that guards the allocators.
`dafny verify dfyconfig.toml` checks everything.

## How it is built

| file | about |
|---|---|
| `Layout.dfy` | address-space constants, rounding, 32- and 64-bit wrap, VPN split, page-table entries |
| `Outcomes.dfy` | results of calls that may panic; how large invariants are kept closed |
| `PhysMem.dfy` | physical pages; the free lists that live inside the free pages |
| `PageTree.dfy`, `Kvm.dfy` | the tree of tables in memory; the walk, map and unmap, proved against a flat map from page numbers to entries |
| `Regions.dfy` | region lists as values: canonical form, coverage, insertion with merging, cutting |
| `RegionPool.dfy`, `RegionList.dfy` | region nodes as linked objects; the pointer surgery, proved against `Regions` |
| `Spaces.dfy`, `Calls.dfy`, `Runs.dfy` | an address space as a value, its invariant, what each call does to it, and whole runs |
| `Uvm.dfy`, `MmapCalls.dfy`, `MunmapCalls.dfy`, `SysCalls.dfy`, `Kernel.dfy` | the code itself, on real tables, free lists and nodes; every call is proved to be a step of `Runs` |
| `Teardown.dfy`, `HeapCopy.dfy`, `Copying.dfy` | destroy and copy; the stray heap copy of uvm.c:518 on memory as it is |
| `Lifecycle.dfy` | the first process from its creation to its teardown |
| `Processes.dfy`, `Forks.dfy` | several processes on one kernel: a call, a copy or a teardown of one leaves the others as they were, and every region node stays in exactly one place |
| `UserCopy.dfy` | copyin, copyout, copyin_str on bytes |
| `Answers.dfy` | what the calls answer and when they halt, in terms of covered addresses and area bounds alone |
| `Access.dfy` | what a process may read, write and execute along a run; user copies on its own buffers and strings |
| `Initcode.dfy` | the fourteen calls of `src/user/initcode.c`, played back |
| `Spinlock.dfy`, `LockCalls.dfy`, `PoolSharing.dfy` | any number of CPUs, locks and interrupt handlers, interleaved line by line; what the calls get done; the node pool under its lock |

C objects that are updated in place are classes (`Pmem`, `AllocRegion`, `PageTable`, `MmapRegion`,
`MmapPool`, `Proc`); their ghost fields hold the abstract value. A panic halts the kernel, so a
call returns an `Outcome`, and its contract says when it may be `Panicked`.

The invariant of an address space (`Spaces.Inv`, spelled out by `Runs.InvMeans`) says that below
the trapframe exactly the code page, the heap up to the rounded top, the pages of the region
list and the stack pages are mapped, in this order and apart, each to a user frame of its own
that is not free. `Runs.RunExact` is the whole-run theorem, and `Kernel.Serve` ties it to the code.
`Processes.ServeAmong`, `Forks.CopyAmong` and `Forks.ExitAmong` carry it over to any number of
processes: `Processes.Coexist` (each well formed with its invariant, no two sharing a table, a
frame or a node) and `Processes.Accounted` (every node free or on some list) are kept by every
memory call, copy and teardown of any of them.

## Where the code and its purpose differ

The code is modelled as it is written, and what it does wrong is proved. In four places there is
a second version beside it, the one the design asks for: a parameter of type `Version` chooses
between `AsWritten` and `Repaired`. They are the merge (`uvm.c:200-213`), the heap copy
(`uvm.c:518`), the teardown (`uvm.c:481`, `485`), and the step of the user copies (`uvm.c:21`,
`41`). `Runs` and `Kernel.Serve` take the version of the merge, so that the whole-run theorem
speaks of either.

* `uvm.c:200-213`: a request that touches only the region behind it leaves the node it has just
  freed on the list (`RegionList.MmapMerge`). The third call of the kernel's own test program is
  one (`Initcode.ThirdCallSpoils`). As written, an accepted request keeps the invariant
  exactly if the repaired code would and it does not touch only that region
  (`Calls.AsWrittenExact`; a failing input is `Calls.SpoiltRequest`).
* `uvm.c:219`, `232`, `265`: the 32-bit size is exact up to `2^32 - PGSIZE` (`Layout.Bytes32Exact`).
  For every longer length, and for every range whose end wraps, `mmap` keeps the invariant exactly
  if it refuses (`Calls.MmapExact`); a length of 2^32 on an empty list is accepted with nothing
  mapped (`Calls.HugeRequest`).
* `uvm.c:88`, `118-130`: `brk` keeps the invariant exactly for 0 and for tops above `USER_BASE`
  that `PGROUNDUP` does not wrap (`Calls.BrkExact`).
* `uvm.c:344-403`: `munmap` halts exactly if a split does not fail and the range starts inside a
  region, unaligned or empty, or ends less than a page into a region that it reaches from below
  (`MunmapCalls.UvmMunmap`). A split without a free node loses the right part of the region. Where
  the call returns, it keeps the invariant exactly if it returns 0 and the range, if it is not
  page aligned, ends inside no region (`Calls.MunmapExact`). Each of the three has an input:
  `Calls.HaltingRequest`, `Calls.FailedSplit`, `Calls.RaggedRequest`.
* `uvm.c:518`: the heap is stored to the pages from `UHEAP_START` above the copy's root table on.
  That happens exactly if the parent has a heap page (`Copying.CopyPgtbl`); for a heap of whole
  pages the call answers 0, and the copy's heap stays zero (`Copying.WholePageHeap`, and
  `Copying.OnePageHeap` for the smallest one). A free page that is hit leads its list on to an
  address that is the first word of the heap page (`Copying.FreePageHit`).
* `uvm.c:562`: `p_new->mmap` is not cleared. A stale head survives exactly if the parent has no
  region (`Copying.CopyMeans`) or no node is free for the first one (`Copying.CopyPgtbl`).
* `uvm.c:481`, `485`: the teardown panics exactly when the trapframe is mapped, and otherwise
  loses the code page and the topmost stack page (`Teardown.DestroyPgtbl`).
* `uvm.c:21`, `41`: the copies are right exactly for whole pages from a page boundary
  (`UserCopy.AsWrittenExact`, `UserCopy.HoleShows`). For any other length they answer -1 after
  moving whole pages beyond the range (`UserCopy.Overruns`), as for the 20 bytes of
  `sysfunc.c:39` (`UserCopy.FiveWords`).
* `pmem.c:83-100`: a double free is not noticed, and makes the list endless
  (`PhysMem.Pmem.Free`, `PhysMem.FreeExact`).
* `kvm.c:68`, `98`: a range whose end passes 2^64 can slip through the check, and then nothing is
  done (`Layout.SpanExact`).

## Model

| member | source | states |
|---|---|---|
| `Layout.PgRoundUpExact` | src/kernel/mem/type.h:41 | PGROUNDUP is the least page boundary at or above its argument exactly when its addition does not wrap; otherwise it is 0 |
| `Layout.Bytes32Exact` | src/kernel/mem/uvm.c:219-232 | the 32-bit page count times the 32-bit page size is the rounded length exactly up to 2^32 - PGSIZE |
| `Layout.InAreaCheckExact` | src/kernel/mem/uvm.c:265 | the range check means "inside the mmap area" exactly when the end of the range does not wrap |
| `Layout.VpnRebuilds` | src/kernel/mem/type.h:55-56 | the three VPN fields rebuild every page-aligned address below VA_MAX, and the top one is below 256 |
| `Layout.VpnInjective` | src/kernel/mem/type.h:55-56 | two addresses have the same three VPN fields exactly when they are in the same page |
| `Layout.SpanExact` | src/kernel/mem/kvm.c:64-74 | an accepted range lies below VA_MAX and the loop's end is the rounded one, unless the sum wraps: then the loop does nothing |
| `Layout.PteRoundTrip` | src/kernel/mem/type.h:58-76 | an entry made from a frame and flags decodes to the flags, and to the frame exactly when it is page aligned |
| `Layout.AddressMap` | src/kernel/mem/type.h:79-120 | the sizes of the areas: VA_MAX is half of what three levels of 512 entries reach, below it a page each for trampoline and trapframe, 4096 pages for the stack, 16384 for mmap; the heap starts at the third page |
| `Layout.BitsOfFlags` | src/kernel/mem/type.h:58-76 | the V, R, W, X and U bits of an entry are those of its flags |
| `PhysMem.Pmem.constructor` | src/kernel/mem/pmem.c:33-55 | both regions hold well-formed free lists of all their pages, last page first: KERN_PAGES for the kernel, the rest of the pages for the user; nothing is handed out |
| `PhysMem.Pmem.RegionSetup` | src/kernel/mem/pmem.c:11-29 | every whole page of the region is on the list, once, the last one first, and no page outside the region is written |
| `PhysMem.Pmem.Alloc` | src/kernel/mem/pmem.c:59-79 | panics exactly on an empty list; else the head comes off, zeroed and handed out by nobody before, and nothing else changes |
| `PhysMem.Pmem.Free` | src/kernel/mem/pmem.c:83-100 | panics exactly on an address that is no page of the region; else only the page is written and it becomes the head, before the old list if it was handed out, and heading no list at all if it was free already |
| `PhysMem.Pmem.Store` | src/kernel/mem/pmem.c:11-100 | whatever an owner writes into its page, both free lists survive |
| `PhysMem.Pmem.OwnedUserPages` | src/kernel/mem/pmem.c:83-88 | a user page handed out passes pmem_free's checks for the user region |
| `PhysMem.Pmem.OwnedKernelPages` | src/kernel/mem/pmem.c:46-51 | a kernel page handed out is never a page of the user region |
| `PhysMem.PopKeeps` | src/kernel/mem/pmem.c:65-73 | unlinking the head keeps list and partition, with the page now owned |
| `PhysMem.PushKeeps` | src/kernel/mem/pmem.c:90-96 | linking an owned page in front keeps list and partition |
| `PhysMem.WalkVisits` | src/kernel/mem/pmem.c:22-28 | following the in-page links visits the pages of the list in order and reaches NULL right after the last |
| `PhysMem.CountFree` | src/kernel/mem/pmem.c:27-97 | free pages and owned pages together number the pages of the region |
| `PhysMem.FreeExact` | src/kernel/mem/pmem.c:90-96 | pushing a page leaves a list that ends exactly when the page was not on it already |
| `PageTree.SetLeaf` | src/kernel/mem/kvm.c:83 | writing one leaf slot changes the lookup of exactly that slot and keeps the tree |
| `PageTree.LinkMid` | src/kernel/mem/kvm.c:37-44 | linking a fresh zeroed level-1 table keeps the tree and every lookup |
| `PageTree.LinkLow` | src/kernel/mem/kvm.c:37-44 | linking a fresh zeroed level-0 table keeps the tree and every lookup |
| `PageTree.TreeFrame` | src/kernel/mem/kvm.c:15-56 | writes outside a table's own pages change no lookup |
| `Kvm.MeansEntry` | src/kernel/mem/kvm.c:33-52 | what the walk reads above level 0: an invalid entry exactly where no table hangs, else one that passes PTE_CHECK and decodes to the table |
| `Kvm.MeansLeaf` | src/kernel/mem/kvm.c:27-30 | what the walk reads at level 0 is the flat map's entry, or no valid entry |
| `Kvm.OneSlotFlat` | src/kernel/mem/kvm.c:22-31 | changing one leaf slot changes the translation of exactly one page, for pages below VA_MAX |
| `Kvm.PageTable.GetPte` | src/kernel/mem/kvm.c:15-56 | the answer is the slot of the page, NULL exactly out of range or without alloc where no leaf table exists; no translation changes, only tables are written, new tables come off the kernel list |
| `Kvm.PageTable.MapPages` | src/kernel/mem/kvm.c:62-89 | for any uint64 arguments: aligned addresses, a positive length and a range below VA_MAX are mapped if two kernel pages are free for each page of it, everything else panics; every page of the range translates to the matching frame with the flags, every other translation is as before; a range that wraps maps nothing |
| `Kvm.RangeTranslates` | src/kernel/mem/kvm.c:75-87 | what a mapped range translates to: the i-th page to the i-th frame, with the flags and the valid bit; every other page as before |
| `Kvm.PageTable.UnmapPages` | src/kernel/mem/kvm.c:93-120 | exactly the pages of the range lose their translation, tables stay, with freeit exactly their frames go back; an aligned address, a positive length and a range below VA_MAX panic exactly for a frame outside the user region, everything else panics |
| `RegionPool.MmapPool.constructor` | src/kernel/mem/mmap.c:31-41 | all N_MMAP nodes are free, the last of the array first |
| `RegionPool.MmapPool.Alloc` | src/kernel/mem/mmap.c:43-56 | NULL exactly when no node is free, else the first free node, cleared |
| `RegionPool.MmapPool.Release` | src/kernel/mem/mmap.c:58-69 | the node becomes the first free one |
| `RegionPool.NodesCount` | src/kernel/mem/mmap.c:27-69 | free nodes and used nodes together are all nodes |
| `Regions.CanonicalUnique` | src/kernel/mem/uvm.c:189-420 | two sorted, disjoint, fully merged lists that cover the same addresses are equal |
| `Regions.InsertCanonical` | src/kernel/mem/uvm.c:189-214 | all four merge shapes leave a sorted, disjoint, fully merged list |
| `Regions.InsertCovers` | src/kernel/mem/uvm.c:189-214 | all four merge shapes cover exactly the old addresses and the new region |
| `Regions.PlacedBroken` | src/kernel/mem/uvm.c:189-233 | a region whose 32-bit size is not its size, one above the area, and as written one that touches only the region behind it, leave a list that is not canonical |
| `Regions.CutRemoves` | src/kernel/mem/uvm.c:327-409 | the six cut shapes leave a canonical list that covers exactly the old addresses outside the range |
| `Regions.CutExact` | src/kernel/mem/uvm.c:344-403 | the whole-page arithmetic of the cut shapes, as a function of any range: exactly the range is cut out if and only if its start is page aligned or no end of it lies inside a region |
| `RegionList.MmapMerge` | src/kernel/mem/uvm.c:189-214 | on real nodes: the list becomes the merged insertion, and list and free list together hold the nodes they held with the new one, node for node, so that the swallowed ones are free again; as written and with only the successor touching, the list is the old one with the new node put in, and the swallowed node on it is free |
| `RegionList.SameNode` | src/kernel/mem/mmap.c:27-69 | what "the same nodes" means in the rows below, node by node |
| `RegionList.LinkSwallowing` | src/kernel/mem/uvm.c:201-213 | the successor-only shape in both versions: which nodes and regions a traversal meets afterwards |
| `RegionList.DropNode` | src/kernel/mem/uvm.c:345-351 | the node leaves the list and is the first free one |
| `RegionList.SplitNode` | src/kernel/mem/uvm.c:354-367 | the node keeps the left part and a new one behind it has the right part; without a free node the right part is lost |
| `RegionList.TrimNode` | src/kernel/mem/uvm.c:384-397 | the node describes the rest, the other nodes are untouched |
| `Spaces.GainKeeps` | src/kernel/mem/uvm.c:100-300 | backing exactly the pages that become wanted keeps the address-space invariant and takes no frame from anybody |
| `Spaces.LossKeeps` | src/kernel/mem/uvm.c:118-394 | dropping exactly the pages that stop being wanted keeps the invariant and everybody else's frames |
| `Spaces.AreasApart` | src/kernel/mem/type.h:79-120 | code, heap, mmap area and stack are in this order and do not meet |
| `Calls.BrkExact` | src/kernel/syscall/sysfunc.c:90-113 | brk keeps the invariant if and only if the top is 0 or above USER_BASE and does not wrap; else the code page is unmapped or a top with nothing mapped is accepted |
| `Answers.BrkAnswers` | src/kernel/syscall/sysfunc.c:90-113 | 0 answers the top and changes nothing; a top above USER_BASE up to MMAP_BEGIN is accepted and answered; one above it is refused with nothing changed |
| `Answers.FaultAnswers` | src/kernel/mem/uvm.c:137-181 | a fault is handled exactly from MMAP_END up to the bottom of the stack, and else nothing changes |
| `Calls.FaultKeeps` | src/kernel/mem/uvm.c:137-181 | the stack grows contiguously to the faulting page, at most to 4096 pages, and that page is user read-write |
| `Calls.LowestAligned` | src/kernel/mem/uvm.c:228-247 | the lowest fit starts on a page boundary |
| `Calls.MmapExact` | src/kernel/mem/uvm.c:217-309 | for every start address and length and either merge: the invariant survives if and only if the request is sane (refused; or the 32-bit size is exact, the end does not wrap and the merge gets it right), for 2^20 pages or more if and only if it is refused; a sane one conserves nodes and covers and backs exactly its range |
| `Answers.MmapAnswers` | src/kernel/mem/uvm.c:217-309 | for lengths up to 2^32 - PGSIZE: with a start address the answer is that address if a node is free, the length is not 0 and the range lies in the mmap area with no address covered, else -1 (a range that wraps is answered with its start); without one it is the lowest address with room, and -1 exactly if there is none, no node, or the length is 0 |
| `Calls.HugeRequest` | src/kernel/mem/uvm.c:219-265 | a length of 2^32 on an empty list: accepted, the list claims 2^20 pages, not one translation or frame is added, the invariant is gone |
| `Calls.AsWrittenExact` | src/kernel/mem/uvm.c:200-213 | with the merge as written an accepted request keeps the invariant if and only if the repaired code handles it and it does not touch only the region behind it |
| `Calls.SpoiltRequest` | src/kernel/mem/uvm.c:200-213 | a failing input: one page in front of a one-page region; both the merged region and the swallowed one are on the list |
| `Calls.RemovedKeeps` | src/kernel/mem/uvm.c:312-420 | where no boundary cuts a region off a page boundary, munmap is set difference: list, translations and frames lose exactly the range, the invariant stays |
| `Calls.TruncatedBreaks` | src/kernel/mem/uvm.c:359-363 | after a failed split a page stays mapped that no region covers |
| `Calls.MunmapExact` | src/kernel/mem/uvm.c:312-420 | for every start address and length, where the call returns: the invariant survives if and only if it returns 0 and the range, unless page aligned, ends inside no region; it returns 0 unless a split is needed with no node free; list and free nodes keep their total |
| `Calls.MunmapCovers` | src/kernel/mem/uvm.c:312-420 | where the call returns 0, the list loses exactly the range if and only if the start is page aligned or the range ends inside no region |
| `Answers.MunmapAnswers` | src/kernel/mem/uvm.c:312-420 | for lengths up to 2^32 - PGSIZE: -1 exactly if no node is free and the range and the addresses next to it are covered; else it halts exactly if the range starts off a page boundary in the middle of a region or ends less than a page behind the start of one; else 0 |
| `Answers.MunmapAligned` | src/kernel/mem/uvm.c:312-420 | from a page boundary on it never halts, and with a node free it answers 0, takes exactly the range from the list, and keeps the invariant |
| `Calls.HaltingRequest` | src/kernel/mem/uvm.c:392-403 | an input on which munmap halts: a region of three pages, three pages from the middle of its first one on |
| `Calls.RaggedRequest` | src/kernel/mem/uvm.c:379-389 | an input that leaves the list ragged: two pages from half a page in front of a region of three pages on; the call returns 0, one page is unmapped, the region left starts in the middle of a page, the invariant is gone |
| `Calls.FailedSplit` | src/kernel/mem/uvm.c:354-367 | an input on which the split fails: the middle page of a region of three, with no node free; the call returns -1, the list has lost the last two pages, both stay mapped |
| `Runs.StepExact` | src/kernel/syscall/sysfunc.c:90-140 | with either merge, any call with any arguments that returns keeps the invariant if and only if it is sane, and then others' frames and kernel pages, the pages mapped for good and the node total are the same (which nodes they are is part of Kernel.Serve) |
| `Runs.RunExact` | src/kernel/mem/uvm.c:84-420 | with either merge, along every run all states have the invariant if and only if all calls were sane; others' frames, kernel pages and the node total never change |
| `Runs.InvMeans` | src/kernel/proc/proc.c:49-63 | what the invariant says, page by page: domain, order, distinct frames, none free, flags |
| `Access.FirstBits` | src/kernel/proc/proc.c:34-97 | the four pages of the first process, bit by bit: code R X U, stack R W U, trapframe R W, trampoline R X |
| `Access.RunAccess` | src/kernel/proc/proc.c:64-97 | at any point of a run from the first process's start, what the user can read are exactly the code page and the heap, mmap and stack pages, what he can write exactly the latter; these have R, W and U, the code page R, X and U but not W |
| `Access.StepPermits` | src/kernel/syscall/sysfunc.c:90-140 | a call that keeps the invariant keeps this: every mmap page has V, R, W and U, and the code page V, R, X and U but not W |
| `Answers.HaltsOnly` | src/kernel/syscall/sysfunc.c:90-140 | the calls that may halt the kernel, in numbers: too few free pages for what is asked, an unaligned start of mmap, a fault outside the stack area, and munmap as MunmapAnswers says |
| `Runs.RunTop` | src/kernel/syscall/sysfunc.c:90-113 | after any run the heap top is the argument of the last accepted brk |
| `Runs.HeapPathIndependent` | src/kernel/mem/uvm.c:84-130 | two runs with the same last top end with the same heap pages mapped, whatever else happened |
| `Runs.RunStack` | src/kernel/mem/uvm.c:137-181 | after any run the stack is one run of pages down to the lowest handled fault, never shorter and at most 4096 pages |
| `Runs.FaultStays` | src/kernel/mem/uvm.c:137-181 | a handled fault's page stays mapped user read-write for the rest of the run |
| `Runs.RoundTrip` | src/kernel/mem/uvm.c:217-420 | a sane mmap that is granted, then munmap of what it answers: munmap does not halt, succeeds, and restores list, node count, translations and frames |
| `Initcode.PlayedAnswer` | src/user/initcode.c:14-30 | the fourteen calls of the test program with the merge repaired: mmap answers the addresses asked for, the seventh page 13 of the area, and every munmap 0 |
| `Initcode.Played` | src/user/initcode.c:14-30 | the region list after each of them |
| `Initcode.AllUndone` | src/user/initcode.c:14-30 | after the last the whole address space is what it was before the first |
| `Initcode.ThirdCallSpoils` | src/user/initcode.c:14-30 | with the merge as written the third call leaves two regions that overlap on the list |
| `Uvm.MapFresh` | src/kernel/mem/uvm.c:102-111 | one page is backed by a fresh zeroed frame, and no page owned before is written except tables of this process |
| `Uvm.NewPageZero` | src/kernel/mem/pmem.c:59-79 | what "new pages are zeroed" means in the rows below, word by word |
| `Uvm.KeptPage` | src/kernel/mem/uvm.c:84-420 | what "pages of others are untouched" means in the rows below, page by page |
| `Uvm.MapUp` | src/kernel/mem/uvm.c:100-112 | the ascending loops back exactly the range, and panic only short of pages |
| `Uvm.MapDown` | src/kernel/mem/uvm.c:152-164 | the descending loop backs exactly the range |
| `Uvm.TryRelease` | src/kernel/mem/kvm.c:93-120 | unmapping a user range halts exactly on an unaligned address or an empty range, else frees exactly its frames |
| `Uvm.Proc.HeapGrow` | src/kernel/mem/uvm.c:84-116 | the code does what Calls.HeapGrow says: same top rounding, limit and refusal; every newly mapped page is zeroed and read-write, others' pages are untouched |
| `Uvm.Proc.HeapUngrow` | src/kernel/mem/uvm.c:118-130 | exactly the pages between the rounded tops are unmapped and freed |
| `Uvm.Proc.UstackGrow` | src/kernel/mem/uvm.c:137-181 | the code does what Calls.Fault says: refuses outside the stack area, else backs down to the faulting page with zeroed pages |
| `MmapCalls.FindGap` | src/kernel/mem/uvm.c:228-247 | first fit is exact: the lowest address where the request fits, and 0 if and only if there is none |
| `MmapCalls.AnyOverlap` | src/kernel/mem/uvm.c:251-261 | true if and only if the request overlaps a region, also when its end wraps |
| `MmapCalls.FindPre` | src/kernel/mem/uvm.c:279-282 | stops at the last node that starts below the request |
| `MmapCalls.Place` | src/kernel/mem/uvm.c:270-286 | the list the head leads to is the merged insertion; list and free list hold the nodes they held, node for node, and no other node is written; as written with only the successor touching it has a node in it that is free |
| `Uvm.Proc.DanglingBreaks` | src/kernel/mem/uvm.c:200-213 | a free node on the process's list means that the list is not well formed |
| `MmapCalls.Reserve` | src/kernel/mem/uvm.c:222-286 | refuses exactly for want of a node or of room, and then leaves list and pool as they were; else the list half of Calls.Mmap is done |
| `MmapCalls.UvmMmap` | src/kernel/mem/uvm.c:217-309 | for every start address and length and either merge the code does what Calls.Mmap says, on the list that its head leads to; in the spoilt case a node of that list is free, else list and pool are in order; the nodes on list and free list are the same ones as before, other nodes are not written, new pages are zeroed; panics only on an unaligned start or short of pages; a refusal changes nothing |
| `MunmapCalls.CutAdvance` | src/kernel/mem/uvm.c:327-409 | dealing with one region keeps the pass's invariant: what is kept and what is left to cut make up the cut of the original list |
| `MunmapCalls.PhaseMeets` | src/kernel/mem/uvm.c:340-403 | once a region meets the range without needing a missing node, no region needs one |
| `MunmapCalls.CutNode` | src/kernel/mem/uvm.c:345-403 | cases 3 to 6 on real nodes, tables and frames, with the halts of vm_unmappages |
| `MunmapCalls.UvmMunmap` | src/kernel/mem/uvm.c:312-420 | for every start address and length the code panics if and only if Calls.MunmapHalts says so, and otherwise does what Calls.Munmap says; the nodes on list and free list are the same ones as before and no other node is written |
| `SysCalls.PgtblInit` | src/kernel/proc/proc.c:34-47 | a fresh table that maps exactly trampoline and trapframe |
| `SysCalls.FirstInv` | src/kernel/proc/proc.c:64-97 | the first process's mappings satisfy the invariant, with nobody else's frames touched |
| `SysCalls.MakeFirst` | src/kernel/proc/proc.c:64-97 | the initial state of every run, with its four translations; the kernel pages taken, the table apart, are the trapframe's page and no other |
| `SysCalls.SysBrk` | src/kernel/syscall/sysfunc.c:90-113 | the code does what Calls.Brk says, with zeroed new pages |
| `Kernel.SysMmap` | src/kernel/syscall/sysfunc.c:123-131 | with either merge a step of Runs with flags read-write; which requests leave a free node on the list; when it may panic |
| `Kernel.SysMunmap` | src/kernel/syscall/sysfunc.c:133-140 | a step of Runs, and exactly when it panics |
| `Kernel.PageFault` | src/kernel/trap/trap_user.c:44-54 | a handled fault is a step of Runs; any other halts |
| `Kernel.Serve` | src/kernel/syscall/sysfunc.c:90-140 | with either merge every memory call of the code is a step of Runs, keeps the invariant if and only if it is sane, and then leaves the process well formed and writes no page of anybody else; new pages are zeroed, the nodes on list and free list are the same ones as before, and no other node is written; which calls may panic, and that munmap does exactly then |
| `Processes.ServeOne` | src/kernel/syscall/sysfunc.c:90-140 | a call of one process leaves begin, npages and next of every node that was neither free nor on its list, and that node on neither |
| `Processes.BesideKept` | src/kernel/syscall/sysfunc.c:90-140 | two processes with disjoint tables, frames and nodes: a call of one that keeps its invariant leaves the other well formed with its invariant, its regions, translations and page contents, and the two apart |
| `Processes.ServeAmong` | src/kernel/syscall/sysfunc.c:90-140 | any number of processes: a call of one keeps its invariant if and only if it is sane, and then all are well formed, apart, the others as they were, and every node that was free or on a list still is; a panic only where MayHalt says |
| `Processes.OnePlace` | src/kernel/mem/mmap.c:27-69 | among processes that coexist every node is in exactly one place: on the free list or on one process's list, never on two |
| `Forks.FirstAlone` | src/kernel/proc/proc.c:64-97 | the base case: with all nodes free, after proc_make_first the one process there is coexists, and every node is accounted for |
| `Teardown.UnderStep` | src/kernel/mem/uvm.c:445-452 | the tables below one entry are apart from those below all others |
| `Teardown.ChildWord` | src/kernel/mem/uvm.c:446-449 | the bits the recursion tests say exactly whether a table hangs below, and the entry decodes to it |
| `Teardown.FreeTables` | src/kernel/mem/uvm.c:441-454 | every table of the subtree goes back once, and no other page |
| `Teardown.DropRegions` | src/kernel/mem/uvm.c:459-466 | every region's pages and frames are dropped and every node is free again |
| `Teardown.ReleaseLast` | src/kernel/mem/uvm.c:481 | panics if and only if as written with the trapframe mapped |
| `Teardown.DestroyPgtbl` | src/kernel/mem/uvm.c:456-493 | gives back every user frame, table and node of the process and nothing else; as written panics exactly with the trapframe mapped, else keeps the frames of the code page and of the topmost stack page |
| `Forks.ExitAmong` | src/kernel/mem/uvm.c:456-493 | tearing one of several processes down: the others are well formed, apart and as they were, and every node is free or on one of their lists |
| `Lifecycle.WholeLife` | src/kernel/proc/proc.c:64-97 | on the real structures: make the first process, serve any calls that are sane when their turn comes, tear it down; the user frames and the nodes, each of them, are as before, and the kernel pages but for the one that is the trapframe; it panics only if memory was short when it was made, at a call that may halt in the state it is made in, or, as written, at the teardown, which it never passes |
| `Lifecycle.RunFromFirst` | src/kernel/proc/proc.c:64-97 | at any point of a run from the first process's start, what others own is what was owned before it was built and the trapframe page, which is the one it was given |
| `HeapCopy.UserFrameMeans` | src/kernel/mem/kvm.c:22-55 | the walk on memory as it is answers what the translations say while the tables are intact |
| `HeapCopy.MixedBytes` | src/kernel/mem/uvm.c:31 | storing the first k bytes of a page, in words, is storing them byte for byte |
| `HeapCopy.CopyinToMemory` | src/kernel/mem/uvm.c:16-34 | uvm_copyin into physical memory, for the page-aligned user address of line 518: answer and memory are those of the loop run on memory as it is, whatever its stores hit; which pages it stores to, that no other is written, that it stores at all if and only if the first page is the user's; what it stores up to the first page that is one of its sources, that one included; and while it hits none, which answer it gives |
| `HeapCopy.TrackNext` | src/kernel/mem/uvm.c:21-31 | one more store keeps the account: the pages in a row from the target on, nothing else written, the contents exact up to the first source hit, the sources intact before it |
| `Copying.CopyPages` | src/kernel/mem/uvm.c:550-558 | every page both sides map ends up with equal contents, and only the copy's frames are written |
| `Copying.MirrorsMore` | src/kernel/mem/uvm.c:508-596 | backing and filling more pages does not disturb the pages copied before |
| `Copying.CloneRange` | src/kernel/mem/uvm.c:508-596 | a range is backed by fresh frames that hold the parent's bytes: the loops for stack and regions, and for the heap the page loop at 520-528 in place of line 518 |
| `Copying.HeapAsWritten` | src/kernel/mem/uvm.c:505-518 | the heap step as written is what Strays says if the parent has a heap page, and does nothing else otherwise: which pages it stores to and what they then hold, exactly up to the first of the parent's tables and frames that it hits, and after that as the loop runs on |
| `Copying.WholePageHeap` | src/kernel/mem/uvm.c:518-529 | a whole-page heap: the answer is 0, so the page loop is skipped, and every heap page of the copy that no stray store has hit is all zeroes, unlike the parent's if that is not |
| `Copying.OnePageHeap` | src/kernel/mem/uvm.c:518-529 | the input heap_top = UHEAP_START + PGSIZE: exactly one page is overwritten, the one UHEAP_START above the copy's root, with the parent's heap page |
| `Copying.FreePageHit` | src/kernel/mem/uvm.c:518 | a stray store that hits a free page: walking its free list then goes on at the first word of the user's heap page, and the list is what it was only if that word is the link it replaces |
| `Copying.CopyRegion` | src/kernel/mem/uvm.c:564-602 | one region: node, pages, contents, link; or no node and nothing changed |
| `Copying.Undo` | src/kernel/mem/uvm.c:606-608 | a partial copy with a list of its own is given back completely; as written one frame is lost |
| `Copying.CopyPgtbl` | src/kernel/mem/uvm.c:496-609 | goes astray at line 518, as Strays says, if and only if that is taken as written and the parent has a heap page; else success is a complete copy with parent and everybody else unchanged, failure happens only when the nodes run out and leaves nothing taken, or, if and only if that is at the first region with a stale list head, comes to a teardown of the stale list |
| `Copying.CopyMeans` | src/kernel/mem/uvm.c:496-609 | after a success parent and copy map the same pages (the code page apart) with equal contents behind disjoint frames, tables and nodes, the parent keeps its invariant, and the copy's list is in order if and only if its head was null or there are regions; the copy's region pages have V, R, W, X and U, its trampoline is the one given, with R and X |
| `Access.CopyPermitted` | src/kernel/mem/uvm.c:496-609 | a complete copy starts with the permissions that its runs then keep |
| `Forks.CopyAmong` | src/kernel/mem/uvm.c:496-609 | copying one of several processes, made or given up: all of them are well formed, apart and as they were; a copy that is made is apart from all of them and joins them, unless a stale list head survives in it; every node is free or on one list |
| `UserCopy.CopyIn` | src/kernel/mem/uvm.c:16-34 | success exactly on the ranges the version accepts; in any case where the loop stops, exactly the bytes it has moved until then, and for -1 that it stops at the first page that may not be used, as written possibly beyond the range |
| `UserCopy.CopyOut` | src/kernel/mem/uvm.c:36-54 | the same towards user memory with write permission, and no other user byte changes |
| `UserCopy.CopyInStr` | src/kernel/mem/uvm.c:56-77 | the length with terminator exactly if a string ends within the limit on readable pages, and in any case exactly the bytes taken until it stops; with fewer frames than 2 GB hold the int counter never overflows, whatever the limit |
| `UserCopy.AsWrittenExact` | src/kernel/mem/uvm.c:21-41 | on a usable range the loops as written accept it and move every byte if and only if it is empty or whole pages from a page boundary |
| `UserCopy.Overruns` | src/kernel/mem/uvm.c:21-41 | a length that is not whole pages, on usable pages: the loops as written pass the end of the range, and go on moving whole pieces until a page may not be used |
| `UserCopy.FiveWords` | src/kernel/syscall/sysfunc.c:31-40 | the 20 bytes of sys_copyout: the answer is -1, the bytes have arrived, and where the next page is the user's too the kernel bytes a page further on have been written to it |
| `UserCopy.FewBytes` | src/kernel/mem/uvm.c:56-77 | no more bytes in a row are readable than there are user frames, and a page more at each end |
| `UserCopy.HoleShows` | src/kernel/mem/uvm.c:21-31 | for an unaligned start some memory contents come out wrong |
| `UserCopy.RoundTrip` | src/kernel/mem/uvm.c:16-54 | copyout and then copyin of the same range brings back the same bytes and leaves all other user bytes |
| `UserCopy.ProcessUsable` | src/kernel/mem/uvm.c:16-54 | in every address space with the invariant the user pages have frames in memory and share none, which is what the copies ask for |
| `Access.BufferAccepted` | src/kernel/mem/uvm.c:16-54 | the repaired copies accept exactly the ranges of a process's own pages, the ones as written whole pages of it from a page boundary |
| `Access.FromUser` | src/kernel/mem/uvm.c:16-34 | copyin on a buffer of a process: 0 exactly on pages it may read, and then every byte has arrived and no other has changed |
| `Access.ToUser` | src/kernel/mem/uvm.c:36-54 | copyout on a buffer of a process: 0 exactly on pages it may write, and then every byte has arrived and no other user byte has changed |
| `Access.StringFromUser` | src/kernel/mem/uvm.c:56-77 | a string on pages a process may read, its code page included: the answer is its length with the terminator, and its bytes have arrived |
| `Spinlock.StepKeeps` | src/kernel/lock/spinlock.c:13-80 | every line of every CPU and every interrupt keeps the invariant |
| `Spinlock.RunKeeps` | src/kernel/lock/spinlock.c:13-80 | over every interleaving from boot on every state has the invariant |
| `Spinlock.BootedInv` | src/kernel/lock/spinlock.c:36-41 | it holds after spinlock_init |
| `Spinlock.MutualExclusion` | src/kernel/lock/spinlock.c:50-80 | at most one CPU is between a successful test-and-set and its release, and a recorded cpuid names it |
| `Spinlock.HoldingExact` | src/kernel/lock/spinlock.c:44-47 | despite its two reads spinlock_holding is true if and only if this CPU is the recorded owner |
| `LockCalls.HoldingDone` | src/kernel/lock/spinlock.c:44-47 | called from client code, spinlock_holding ends two lines later with the answer whether the context has the lock, and changes nothing else |
| `LockCalls.AcquireDone` | src/kernel/lock/spinlock.c:50-64 | spinlock_acquire of a free lock ends eight lines later with the lock taken and signed, interrupts off and one more push_off outstanding, and changes nothing else |
| `LockCalls.ReleaseDone` | src/kernel/lock/spinlock.c:67-80 | spinlock_release of a lock the context has ends six lines later with the lock free and unsigned, and with no push_off left interrupts as they were before the first |
| `LockCalls.PushDone` | src/kernel/lock/spinlock.c:13-21 | push_off ends four lines later with interrupts off and their earlier state remembered if it is the first |
| `LockCalls.PopDone` | src/kernel/lock/spinlock.c:24-32 | pop_off ends two lines later, with interrupts as before the first push_off if it was the last |
| `Spinlock.HaltsOnlyOnMisuse` | src/kernel/lock/spinlock.c:24-69 | the asserts fail only when a lock is acquired twice or released without being held |
| `Spinlock.Nesting` | src/kernel/lock/spinlock.c:13-32 | with noff > 0 interrupts are off, noff is the number of outstanding push_offs with locks held or pending included |
| `Spinlock.NestRestores` | src/kernel/lock/spinlock.c:13-32 | any balanced nest restores the interrupt state that preceded it, whatever handlers and other CPUs do in between |
| `LockCalls.InterruptDone` | src/kernel/lock/spinlock.c:13-32 | an interrupt can come exactly while interrupts are on; a handler that returns at once leaves everything as it was |
| `LockCalls.ClientSteps` | src/kernel/lock/spinlock.c:13-80 | the calls that client code may make next: all of them on existing locks, pop_off for a push_off of its own, setting the interrupt state outside all nests |
| `PoolSharing.DoKeeps` | src/kernel/mem/mmap.c:43-69 | every line of alloc and free, under the lock and interleaved with everything else, keeps the pool |
| `PoolSharing.AllocDone` | src/kernel/mem/mmap.c:43-56 | the critical section of alloc takes the first free node for this CPU, or nothing if there is none, and leaves the rest in order |
| `PoolSharing.FreeDone` | src/kernel/mem/mmap.c:58-69 | the critical section of free makes the node the first free one |
| `PoolSharing.NodesConserved` | src/kernel/mem/mmap.c:43-69 | over every interleaving, from any state with the invariant, each node is either free or with exactly one holder, and none is lost |
| `PoolSharing.InitOk` | src/kernel/mem/mmap.c:31-41 | after mmap_init every node is free, on a list that ends |
| `PoolSharing.NodesConservedFromBoot` | src/kernel/mem/mmap.c:31-69 | the same from the state after spinlock_init and mmap_init on, for the N_MMAP nodes |

## Left out

- `Kvm.PageTable.UnmapPages`: with freeit, no two pages of the range share a frame; the source would free the frame twice, which `PhysMem.Pmem.Free` describes.
- `Copying.CopyPgtbl`: what the code goes on to do after a stray store of line 518, on whatever that has overwritten, and the teardown of a stale list, are not followed; code page and trapframe are not copied, as in the source.
- `HeapCopy.CopyinToMemory`: user addresses that are not page aligned (line 518 has none; `UserCopy.CopyIn` takes any); a store outside the pages of the memory map, or a walk into an address outside it, halts.
- `UserCopy.CopyInStr`: memories of 2 GB and more, where the int counter of the source could overflow; the kernel has 128 MB.
- `UserCopy.CopyIn`: the page table enters as its flat translation and kernel memory as bytes apart from the frames.
- `Spinlock.StepKeeps`: clients pop only what they pushed, and handlers close their nests before returning; memory is sequentially consistent.
- `Lifecycle.WholeLife`: calls that are not sane; what they leave is stated call by call in `Calls`.
- Calls on an address space that has lost its invariant.
- Roll-back branches after a failed pmem_alloc: it panics instead of returning NULL, so they never run.
- The bytes of initcode, the saved registers in the trapframe, and what a process computes.
- kvm_init and kvm_inithart, the TLB, satp, and the assembly trampoline.
- Devices, printf, vm_print and the show helpers; syscall dispatch, argument readers and the sys_copy test calls.
- Calls into the allocators are atomic in the sequential modules; their locking is modelled in `Spinlock` and, for the node pool, in `PoolSharing`.
