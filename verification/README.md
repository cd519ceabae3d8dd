# zOS in Dafny: copy-on-write memory, allocators, the Kconfig engine, timers and the scheduler

zOS is a small i386 kernel written in C. Its build configuration uses the Kconfig tools, which
are part of the repository. This project models the parts where most of the reasoning is and
proves what they promise for all inputs and all sequences of operations.

**Virtual memory.** `VirtualMemory` is a state machine: physical pages, reference-counted
segments, and address spaces with regions, mappings and page table entries. Its steps are
create, map, unmap, fork, exit, load, store and the write fault. `CowInvariant` and `CowSteps`
give the invariant that all steps keep. `CowRefinement` and `CowRuns` prove that every
sequence of steps shows each process what it would see if fork copied all bytes at once.
`MapExact` says exactly which mappings are granted, where they land and which ranges are taken
afterwards, and `CowFaults` when a write fault is taken for copy-on-write. `CountWidth` counts
references in 16 bits, as the kernel does, and `KernelFrames` lets the kernel take and give up
frames of its own in between. `AddressSpaces` is the same code as a class that updates its
fields. `PageTables` is the two-level table under it, over arrays; `TableView` and `TableRuns`
show that after every sequence of steps the walk of the tables finds what the model says.

**Allocators.** `Tiling` is the theory of lists of adjacent spans. `Segments` (page frames),
`Regions` (virtual ranges) and `KernelHeap` (bytes) are the three split-and-merge allocators,
each as functions on lists with their correctness lemmas. The page allocators count in pages;
`ByteLists`, `SegmentWords` and `RegionWords` are their code in 32-bit byte addresses, with the
arithmetic of the machine, and say for which requests it does what counting in pages does.
`HeapWords` is the kernel heap as it is in memory: headers and list links are words of the heap
itself, and the code that follows and rewrites them is proved to keep them the image of the list.
`HeapStore` shows that to its callers this is a store of objects by pointers.

**Kconfig expressions.** `KconfigExpr` has the syntax and the three-valued meaning;
`ExprEquality`, `ExprTransform`, `ExprJoin`, `ExprSpine`, `ExprDups` and `ExprCompare` are the
simplifier. `ExprSweep` proves that its comparison finds equal trees, `ExprResult` that no
duplicates are left. `ExprMenus` is how the menus use it. An and/or tree is a row of slots, one for each
operand; slots that differ stand for operands at different addresses.

**Kconfig symbols and text.** `SymbolEval` defines the value of every symbol, `SymbolTable` is
the memoising evaluator, `ConfigText` is the `.config` printer and reader, `Fixdep` the scanner
for `CONFIG_` words.

**Run time.** `Klist` is the circular list in the heap, `Timer` the timer table over such a list
and a wrapping tick counter, `Scheduler` the round-robin scheduler. `Common` holds what several parts use.

A *well-formed valuation* (`KconfigExpr.WellFormed`) gives the predefined symbols and the
constants their own values, bool symbols n or y, and bool and tristate symbols their letter as
string. `SymbolEval.SolutionWellFormed` shows that evaluating symbols gives such valuations.

## What the proofs say about the code

These are places where the code does not do what one would expect of it, or not what its own
comments say. The code is followed each time; where a property fails, its exact condition is proved.

- The second pass of the duplicate elimination can change an `m`: with FOO and BAR at m,
  `(FOO || BAR) && (!FOO && !BAR)` is m before and n after. One rewriting is right exactly when
  not both operands are m (`ExprDups.OpposesMeaning`), and a value n or y never changes
  (`ExprDups.EliminateDupsDecides`, witness `ExprDups.EliminateDupsChangesMod`).
- `expr_trans_compare` reads an m as the opposite of what it compares with. It is wrong if and only
  if the whole is m and that reading makes it the value compared with
  (`ExprCompare.TransCompareExact`, witness `ExprCompare.TransCompareFailsAtMod`).
- The comment at line 484 of expr.c gives `a = 'm'` as the result of a rule whose code gives
  `a = 'y'`. The code is right (`ExprJoin.JoinAndKeepsValue`).
- `region_merge` joins a free left neighbour exactly when both regions have the same size
  (`Regions.LeftMergeExact`), a free right one always (`Regions.RightMergeExact`). The list stays a partition, but a range whose pages are all free
  can be refused (`RegionWords.FreeRangeRefused`).
- `region_reserve` and `segment_reserve` compute the end of a range in 32 bits and round an
  address inside a page down. A request that is granted keeps the list a partition if and only
  if it asks for at least one page, at a page, and ends below 4 GiB (`RegionWords.ReserveExact`,
  `SegmentWords.ReserveExact`). `RegionWords.WrappingSizeGranted` and
  `RegionWords.UnalignedAddressGranted` are requests that are granted and break it. The ELF loader
  passes addresses and sizes of the file on unseen.
- `segment_reserve` also tries a free segment that ends where the wanted range begins. That is
  harmless, since two free segments are never neighbours (`Segments.ReserveCorrect`).
- A split or merged segment keeps an old copy-on-write mark, so a write that is not allowed can be
  taken for a copy-on-write fault. The first fault is handled if and only if the segment is marked,
  and unshared or there is memory for a copy (`CowFaults.FirstFaultExact`); the second if and only
  if it was shared and the copy was cut from a marked segment (`CowFaults.SecondFaultExact`); a
  third never (`CowRuns.IllegalWriteKilled`). `CowFaults.FaultsTwice` is a run from a booted memory
  in which both happen. The write itself is never carried out (`CowRuns.IllegalWriteRefused`).
- A mapping at a given address that finds no frames leaves its range reserved; one that the kernel
  chose is given back (`MapExact.MapFailedLeaves`). The invariant holds all the same
  (`CowSteps.MapFailedKeepsInv`).
- `expr_eliminate_eq` does not compare two single conditions. An entry with the very condition of
  the one above is so not put below it, while one with a further condition is
  (`ExprMenus.NestedExact`).
- `kfree` and `krealloc` refuse a pointer by the word in front of it and by nothing else
  (`HeapStore.AnyPointer`). That word is right for every live pointer, whatever programs write into
  their own objects (`HeapStore.RunIsStore`). It is still there, too, when a join has removed the
  header (`HeapStore.JoinedLooksLive`, witness `HeapStore.StaleHeaderLooksLive`), until a later
  header or object is written over it (`HeapStore.OverwrittenHeaderRefused`).
- The menus test whether an entry belongs below another one with m read as y. An entry that is m
  can so be put below one that is n: `!FOO && !BAR` below `FOO=n`, with FOO at m and BAR at n
  (`ExprMenus.NestedFailsAtMod`). It cannot happen where no symbol below an odd number of negations
  of the entry is m (`ExprMenus.NestedIsVisible`).
- `sym_set_tristate_value` with the value that is recorded already records a user value but keeps
  all marks. That is right if and only if the symbol is not marked valid, or the value is harmless
  (`SymbolTable.Table.SetValue`, `SymbolEval.SetSameExact`); `SymbolEval.SetSameCanChange` shows a
  symbol for which it is not.
- A string with a line end is written unescaped and does not read back
  (`ConfigText.StringRoundTripExact`).
- timer.h documents 0 as the result of a successful `timer_register`; the code returns 1.

## Model

| member | source | states |
|---|---|---|
| CowRuns.CopyOnWriteIsInvisible | kernel/core/mem/as.c:244-302 | after every sequence of steps each load reads exactly what it reads when fork copies all bytes at once |
| CowRuns.RunRefines | kernel/core/mem/as.c:181-302 | every sequence of steps keeps the invariant and is, step by step, a sequence of the eager machine with the same view |
| CowRuns.StepRefines | kernel/arch/i386/page_fault.c:52-102 | each step of the copy-on-write machine is an enabled step of the eager machine, or none (the write fault) |
| CowRuns.StepKeepsInv | kernel/core/mem/as.c:181-302 | all steps, failing ones too, keep the invariant |
| CowRuns.SharingDiscipline | kernel/core/mem/as.c:275-286 | in every reachable state reference counts count mappings, a writable entry has an unshared segment and a writable mapping, a read-only entry of a writable mapping has a marked segment |
| CowRuns.LegalWriteSucceeds | kernel/arch/i386/page_fault.c:15-50 | a write to a writable mapping goes through, at once or after exactly one fault, unless memory for the copy is missing |
| CowRuns.FaultMakesWritable | kernel/arch/i386/page_fault.c:15-50 | the fault on a marked segment of a writable mapping leaves the page writable |
| CowRuns.IllegalWriteRefused | kernel/arch/i386/page_fault.c:52-102 | no write goes through to a page without a writable mapping |
| CowRuns.IllegalWriteKilled | kernel/arch/i386/page_fault.c:52-102 | at most two faults in a row on one page are taken for copy-on-write |
| CowRuns.FaultRound | kernel/arch/i386/page_fault.c:15-50 | after a handled fault the segment is unshared, and after one on an unshared segment it is unmarked |
| CowFaults.FirstFaultExact | kernel/arch/i386/page_fault.c:52-102 | a write fault is handled if and only if the segment is marked, and unshared or there is memory for a copy |
| CowFaults.SecondFaultExact | kernel/arch/i386/page_fault.c:15-102 | the next fault on the page is handled too if and only if the segment was shared and its copy was cut from a marked one |
| CowFaults.CopyKeepsOldMark | kernel/core/mem/segment.c:92-151 | the copy carries the mark of the free segment it was cut from |
| CowFaults.FaultsTwice | kernel/arch/i386/page_fault.c:15-102 | a run from a booted memory to a read-only page on which a write is taken for copy-on-write exactly twice |
| CountWidth.StepKeepsOnce | kernel/core/mem/as.c:181-302 | no step makes a space map one segment twice |
| CountWidth.RefsBound | include/kernel/mem/segment.h:43-56 | so no reference count exceeds the number of living spaces by more than the one of the kernel |
| CountWidth.NarrowStepAgrees | kernel/core/mem/as.c:275-286 | with fewer than 65535 living spaces a step that counts in 16 bits is the step that counts without bound |
| CountWidth.NarrowRunAgrees | include/kernel/mem/segment.h:43-56 | so is every run in which there are never 65535 living spaces |
| CountWidth.NarrowCountsInvisible | kernel/core/mem/as.c:244-302 | from a booted memory, in every run with fewer than 65535 creations and forks, 16-bit counts are exact and copy-on-write is invisible |
| KernelFrames.HoldKeepsInv | kernel/arch/i386/mmu.c:136-158 | a frame the kernel takes for a table keeps the invariant and shows to no process |
| KernelFrames.DropKeepsInv | kernel/arch/i386/mmu.c:241-260 | nor does giving one up |
| KernelFrames.HeldIsUnseen | kernel/arch/i386/mmu.c:136-158 | no page of a process is in a frame that only the kernel holds |
| KernelFrames.TakeOverKeepsInv | kernel/core/mem/as.c:214-242 | the reference of a mapping that is unmapped without release is counted as one of the kernel |
| KernelFrames.KernelRunRefines | kernel/arch/i386/mmu.c:136-425 | every run in which the kernel takes, takes over, fills and gives up frames between the steps of processes keeps the invariant and shows what the eager machine shows |
| KernelFrames.EveryPageReturns | kernel/arch/i386/mmu.c:404-425 | after every such run that ends without mappings and frames held, all of physical memory is one free segment |
| CowRuns.AllPagesReturn | kernel/core/mem/segment.c:262-275 | once no space has a mapping, only the segments the kernel holds are in use; with none held, memory is one free segment |
| CowRuns.BootInv | kernel/core/mem/segment.c:41-90 | a memory whose segments are all free or held once satisfies the invariant with no spaces |
| CowSteps.MapFreshKeepsInv | kernel/core/mem/as.c:82-212 | mapping keeps the invariant |
| CowSteps.MapFailedKeepsInv | kernel/core/mem/as.c:137-178 | a mapping that fails keeps the invariant, whether its range is given back or stays reserved |
| CowSteps.UnmapKeepsInv | kernel/core/mem/as.c:214-242 | unmapping keeps the invariant, also when the segment is shared |
| CowSteps.ForkKeepsInv | kernel/core/mem/as.c:244-302 | forking never lacks virtual ranges and keeps the invariant |
| CowSteps.ExitKeepsInv | kernel/core/mem/as.c:414-437 | exiting gives up all references and keeps the invariant |
| CowSteps.WriteFaultKeepsInv | kernel/arch/i386/page_fault.c:15-102 | a handled write fault, with or without copy, keeps the invariant |
| CowSteps.StoreKeepsInv | kernel/arch/i386/page_fault.c:52-102 | a store keeps the invariant |
| CowSteps.CreateKeepsInv | kernel/core/mem/as.c:30-58 | a new space keeps the invariant |
| CowSteps.ReserveAllSucceeds | kernel/core/mem/as.c:256-273 | ranges that are apart can all be reserved, one after the other, in a fresh space |
| CowSteps.ShareAllTable | kernel/core/mem/as.c:275-286 | sharing a list of mappings adds to each segment one reference for each mapping of it and marks the writable ones |
| CowSteps.ShareAllMarks | kernel/core/mem/as.c:275-286 | sharing marks a segment if and only if a mapping of it is writable |
| CowSteps.ReleaseAllTable | kernel/core/mem/as.c:414-437 | releasing a list of mappings frees exactly the segments whose last references these were |
| CowInvariant.OnlyOneMapping | kernel/core/mem/as.c:275-286 | a segment with one reference belongs to one mapping of one space |
| CowInvariant.MappingCounted | kernel/core/mem/as.c:82-179 | the segment of a mapping exists, has its size, and counts the mapping |
| CowRefinement.MapFreshRefines | kernel/core/mem/as.c:82-212 | mapping shows the new pages at the address asked for and changes no page seen before |
| MapExact.MapGranted | kernel/core/mem/as.c:82-212 | a mapping is granted if and only if the space lives, pages are asked for, one free region holds the range and there are frames in a row |
| MapExact.MapPlaced | kernel/core/mem/as.c:82-212 | it lies at the address asked for, over pages and frames that were free, and takes exactly its range |
| MapExact.MapFailedLeaves | kernel/core/mem/as.c:167-178 | after a failure for want of frames a range asked for by address stays reserved, one chosen by the kernel is given back, and nothing else changes |
| MapExact.UnmapFrees | kernel/core/mem/as.c:214-242 | unmapping frees exactly the range of the mapping, in one region; an address where none begins changes nothing |
| MapExact.UnmappedMapsAgain | kernel/core/mem/as.c:181-242 | what was unmapped can be mapped again at the same place |
| MapExact.ForkRanges | kernel/core/mem/as.c:244-302 | the child has taken exactly the ranges the parent has mapped |
| MapExact.NewSpaceIsFree | kernel/core/mem/as.c:16-58 | in a new space every range of user pages can be had |
| CowRefinement.UnmapRefines | kernel/core/mem/as.c:214-242 | unmapping hides exactly the pages of the mapping |
| CowRefinement.ForkRefines | kernel/core/mem/as.c:244-302 | the child sees the parent's pages, and the parent sees what it saw |
| CowRefinement.ExitRefines | kernel/core/mem/as.c:414-437 | exiting hides the pages of that space only |
| CowRefinement.WriteFaultRefines | kernel/arch/i386/page_fault.c:15-50 | no space sees a difference when a write fault copies |
| CowRefinement.WritableFrameUnique | kernel/arch/i386/page_fault.c:17-48 | a writable entry is the only entry of all spaces with its frame |
| CowRefinement.StoreRefines | kernel/arch/i386/page_fault.c:52-102 | a store changes one byte of one page of one space |
| CowRefinement.CopyUnseen | kernel/arch/i386/page_fault.c:21-44 | filling a fresh segment changes no page that any space sees |
| AddressSpaces.Kernel.constructor | kernel/core/mem/as.c:30-58 | no spaces over the given segments and memory |
| AddressSpaces.Kernel.FindMapping | kernel/core/mem/as.c:60-80 | the first mapping that covers the page |
| AddressSpaces.Kernel.MapPages | kernel/core/mem/as.c:82-212 | the whole new state is that of the mapping step, which `MapExact.MapPlaced` describes, or the one a failed mapping leaves |
| AddressSpaces.Kernel.UnmapPages | kernel/core/mem/as.c:214-242 | the whole new state is that of the unmapping step, with or without the release of the segment |
| AddressSpaces.Kernel.ShareMappings | kernel/core/mem/as.c:256-286 | the loop over the parent's mappings adds all references and builds the child in reverse order |
| AddressSpaces.Kernel.Duplicate | kernel/core/mem/as.c:244-302 | the whole new state is that of the fork step, which always succeeds |
| AddressSpaces.Kernel.Destroy | kernel/core/mem/as.c:414-437 | the whole new state is that of the exit step |
| AddressSpaces.Kernel.CopyFrames | kernel/arch/i386/page_fault.c:21-44 | page by page copying in place equals copying the range at once, the ranges being apart |
| AddressSpaces.Kernel.HandleWriteFault | kernel/arch/i386/page_fault.c:52-102 | handled exactly when the step allows it, with the step's state |
| PageTables.AddressSpaceTables.constructor | kernel/arch/i386/mmu.c:136-158 | a space without tables maps nothing |
| PageTables.AddressSpaceTables.InstallTable | kernel/arch/i386/mmu.c:136-158 | installing a table changes the walk of no page |
| PageTables.AddressSpaceTables.MapPages | kernel/arch/i386/mmu.c:160-210 | across any number of tables page k of the range walks to frame k, and every other page walks where it did |
| PageTables.AddressSpaceTables.CleanTable | kernel/arch/i386/mmu.c:241-260 | a user table is dropped exactly when it is empty, and no walk changes |
| PageTables.AddressSpaceTables.UnmapPages | kernel/arch/i386/mmu.c:262-307 | exactly the pages of the range are unmapped and no empty user table of the range stays |
| PageTables.AddressSpaceTables.DuplicateInto | kernel/arch/i386/mmu.c:334-402 | the user half becomes read-only in the parent and equal in the child; the kernel half stays |
| PageTables.AddressSpaceTables.CopyTable | kernel/arch/i386/mmu.c:349-391 | one table is write-protected and copied, all others stay |
| TableView.MapInto | kernel/arch/i386/mmu.c:160-210 | tables that show the model's entries show those after mapping or remapping |
| TableView.UnmapFrom | kernel/arch/i386/mmu.c:262-307 | and those after unmapping a mapped range |
| TableView.TablesPresent | kernel/arch/i386/mmu.c:262-307 | a range that is mapped has all the tables that unmapping writes to |
| TableView.DuplicateBoth | kernel/arch/i386/mmu.c:334-402 | after duplicating, parent and child both show the parent's entries without write permission, as a fork step has it |
| TableRuns.Machine.PerformAllSteps | kernel/arch/i386/mmu.c:160-402 | after every sequence of steps carried out on real tables, a load by walking them reads what eager copying shows |
| TableRuns.Machine.Perform | kernel/arch/i386/mmu.c:160-402 | every step leaves each space's tables showing the entries of the model |
| TableRuns.Machine.HardwareLoads | kernel/arch/i386/mmu.c:119-134 | the load of the hardware is the load of the model |
| TableRuns.Machine.constructor | kernel/core/mem/as.c:16-28 | no spaces, no tables |
| TableRuns.TableSet.Duplicate | kernel/arch/i386/mmu.c:334-402 | parent and child show the protected entries, all other spaces what they showed |
| TableRuns.MappingBound | kernel/core/mem/as.c:82-179 | a mapping lies in the user half and all its pages have entries |
| Segments.AllocCorrect | kernel/core/mem/segment.c:125-151 | in pages: an allocation takes n free pages in a row and nothing else, and fails exactly when there are none |
| Segments.AllocLowest | kernel/core/mem/segment.c:125-151 | the lowest free pages in a row are taken |
| Segments.ReserveCorrect | kernel/core/mem/segment.c:153-188 | in pages: a reservation succeeds exactly when all its pages are free, and takes these |
| Segments.MergeKeepsInv | kernel/core/mem/segment.c:224-260 | merging restores the invariant around a freed segment and touches no segment in use |
| Segments.ReleaseCorrect | kernel/core/mem/segment.c:262-302 | a release takes one reference from the segment at that address; only the last one frees it |
| Segments.AllocRelease | kernel/core/mem/segment.c:125-302 | giving an allocated segment straight back restores the list exactly |
| SegmentWords.ReserveExact | kernel/core/mem/segment.c:153-188 | for every list and request in words, a granted reservation keeps the partition if and only if it is sound |
| SegmentWords.WrappingSizeGranted | kernel/core/mem/segment.c:153-188 | a size that wraps is granted and breaks the partition |
| SegmentWords.AllocAgrees | kernel/core/mem/segment.c:125-151 | allocating in words does what counting in pages does, for every size |
| SegmentWords.ReserveAgrees | kernel/core/mem/segment.c:153-188 | so does every sound reservation |
| SegmentWords.ReleaseAgrees | kernel/core/mem/segment.c:224-302 | so does releasing any address, with merging in words |
| SegmentWords.RunKeepsOrder | kernel/core/mem/segment.c:92-302 | every sequence of allocations, releases and sound reservations keeps a partition in bytes without two free neighbours |
| SegmentWords.RunFromOne | kernel/core/mem/segment.c:92-302 | from one free segment, when all is given back, it is one free segment again |
| SegmentWords.SegmentTable.constructor | kernel/core/mem/segment.c:69-90 | one free segment is in order |
| SegmentWords.SegmentTable.AllocPages | kernel/core/mem/segment.c:125-151 | the search loop takes the first free segment that is long enough |
| SegmentWords.SegmentTable.ReservePages | kernel/core/mem/segment.c:153-188 | the search loop takes the first free segment that holds the address, by the machine's comparisons |
| SegmentWords.SegmentTable.ReleasePages | kernel/core/mem/segment.c:277-302 | the list is the one after a release |
| ByteLists.SplitExact | kernel/core/mem/region.c:38-65 | a split that the 32-bit comparison lets through keeps the partition if and only if the request is sound |
| ByteLists.SplitAgrees | kernel/core/mem/region.c:38-65 | a sound split in words is the split in pages |
| ByteLists.JoinAgrees | kernel/core/mem/region.c:119-151 | joining in words is joining in pages |
| ByteLists.PartitionPages | include/kernel/mem/region.h:9-18 | a partition in bytes is a tiling in pages |
| SegmentMap.AllocTable | kernel/core/mem/segment.c:125-151 | an allocation adds one entry to the table of segments in use |
| SegmentMap.ReleaseTable | kernel/core/mem/segment.c:262-302 | a release lowers one count, or removes the entry at the last |
| SegmentMap.RetagTable | kernel/core/mem/as.c:275-286 | changing count or mark of one segment changes only its entry |
| Regions.ReserveCorrect | kernel/core/mem/region.c:67-117 | in pages, which is what the code does for sound requests: a reservation returns a wholly free range, at the address asked for, and succeeds exactly when one free region holds it |
| Regions.ReserveLowest | kernel/core/mem/region.c:67-117 | without an address the lowest place is taken |
| Regions.ReserveFreeRange | kernel/core/mem/region.c:67-117 | where free neighbours are joined, every free range can be had, and they stay joined |
| Regions.ReleaseCorrect | kernel/core/mem/region.c:153-174 | a release unmaps exactly the region at that address |
| Regions.MergeCorrect | kernel/core/mem/region.c:119-151 | whatever sizes the neighbours have, merging keeps the partition and all mapped regions |
| Regions.LeftMergeExact | kernel/core/mem/region.c:119-151 | a free left neighbour is joined if and only if it has the size of the released region |
| Regions.RightMergeExact | kernel/core/mem/region.c:119-151 | a right neighbour is joined if and only if it is free |
| Regions.ReleaseMakesRoom | kernel/core/mem/region.c:119-174 | the pages of a released region are in one free region |
| RegionWords.ReserveExact | kernel/core/mem/region.c:38-117 | for every list and request in words, a granted reservation keeps the partition if and only if it is sound; a refused one changes nothing |
| RegionWords.WrappingSizeGranted | kernel/core/mem/region.c:67-117 | in a fresh space a size that wraps is granted and breaks the partition |
| RegionWords.UnalignedAddressGranted | kernel/core/mem/region.c:38-65 | in a fresh space an address inside a page is granted and leaves bytes in no region |
| RegionWords.ReserveAgrees | kernel/core/mem/region.c:67-117 | a sound request does what the list counted in pages does, result included |
| RegionWords.ReleaseAgrees | kernel/core/mem/region.c:119-174 | so does releasing any address, with merging in words |
| RegionWords.RunKeepsPartition | kernel/core/mem/region.c:38-174 | every sequence of sound reservations and of any releases keeps a sorted gapless partition in bytes |
| RegionWords.UnsoundRequestBreaks | kernel/core/mem/region.c:38-174 | after such a sequence the next granted reservation keeps the partition if and only if it is sound |
| RegionWords.FreeRangeRefused | kernel/core/mem/region.c:119-151 | a sequence of requests from a fresh space after which a free range is refused |
| RegionWords.RegionList.constructor | kernel/core/mem/region.c:8-36 | one free region is a partition |
| RegionWords.RegionList.ReserveRange | kernel/core/mem/region.c:67-117 | the search loop takes the first region that suits, by the machine's comparisons |
| RegionWords.RegionList.ReleaseRange | kernel/core/mem/region.c:153-174 | the list is the one after a release |
| KernelHeap.MallocCorrect | kernel/core/mem/kmalloc.c:94-117 | an allocation brings one block of free bytes into use, header included, and fails exactly when no free bytes in a row suffice |
| KernelHeap.MallocTight | kernel/core/mem/kmalloc.c:72-117 | the lowest free bytes that suffice are taken, and at most a header more than asked for |
| KernelHeap.KFreeCorrect | kernel/core/mem/kmalloc.c:119-168 | in the list, freeing takes exactly the block behind the pointer out of use; there is nothing to free exactly for pointers behind no block |
| KernelHeap.MergeKeepsInv | kernel/core/mem/kmalloc.c:119-146 | merging leaves no free neighbours around the freed block and touches no block in use |
| KernelHeap.KFreeUndoesMalloc | kernel/core/mem/kmalloc.c:72-168 | freeing straight after allocating restores the exact list of blocks |
| KernelHeap.NewBlockApart | kernel/core/mem/kmalloc.c:94-117 | a new block shares no byte with a block in use |
| HeapWords.LinkKeepsRing | include/kernel/klist.h:23-30 | linking on addresses makes the ring with the new node behind the given one and writes only the links concerned |
| HeapWords.UnlinkKeepsRing | include/kernel/klist.h:41-50 | unlinking makes the ring without the node and writes only the links concerned |
| HeapWords.SplitEncodes | kernel/core/mem/kmalloc.c:72-92 | a split leaves in memory the headers and links of the split list, and changes no byte outside headers |
| HeapWords.JoinEncodes | kernel/core/mem/kmalloc.c:119-146 | a join leaves those of the joined list, and the pointer word of every header, the removed one too |
| HeapWords.SearchFinds | kernel/core/mem/kmalloc.c:100-110 | the walk along the links finds the first block of the list that fits |
| HeapWords.AllocEncodes | kernel/core/mem/kmalloc.c:72-117 | allocating on the bytes of the heap is allocating in the list: same pointer, same failure, memory the image of the new list |
| HeapWords.FreeEncodes | kernel/core/mem/kmalloc.c:119-168 | so is freeing the pointer to any block |
| HeapStore.AllocateRefines | kernel/core/mem/kmalloc.c:94-117 | allocation adds one object under a new pointer, leaves all others as they are, and fails exactly when no free bytes in a row suffice |
| HeapStore.GiveBackRefines | kernel/core/mem/kmalloc.c:148-168 | freeing a live pointer is never refused and removes exactly its object |
| HeapStore.ResizeRefines | kernel/core/mem/kmalloc.c:170-192 | resizing a live object moves it to a new pointer with the bytes that both sizes have, and fails exactly for want of room |
| HeapStore.ServeRefines | kernel/core/mem/kmalloc.c:72-192 | every request that uses live pointers does to memory what it does to the map of objects |
| HeapStore.RunIsStore | kernel/core/mem/kmalloc.c:50-192 | after every sequence of such requests, writes into objects included, memory encodes the list, holds exactly the objects, and the header test accepts each of their pointers |
| HeapStore.ObjectsApart | kernel/core/mem/kmalloc.c:72-117 | no two objects share a byte, and none has a byte of a header |
| HeapStore.AnyPointer | kernel/core/mem/kmalloc.c:148-168 | freeing any pointer panics if and only if the word in front of it differs; what is refused is behind no block, and what is behind a block is freed as in the list |
| HeapStore.JoinedLooksLive | kernel/core/mem/kmalloc.c:119-159 | after a free the test accepts the pointers to all blocks of before, joined ones too |
| HeapStore.StaleHeaderLooksLive | kernel/core/mem/kmalloc.c:119-159 | a header left by a join that passes the test |
| HeapStore.OverwrittenHeaderRefused | kernel/core/mem/kmalloc.c:72-159 | the same header after the next split has written over it |
| HeapStore.BootHolds | kernel/core/mem/kmalloc.c:50-70 | the first header and the list head in memory are the list of one free block |
| HeapStore.HeapArea.constructor | kernel/core/mem/kmalloc.c:50-70 | a booted heap holds no object |
| HeapStore.HeapArea.AllocBytes | kernel/core/mem/kmalloc.c:94-117 | the loop over the list in memory takes the first free block that is long enough |
| HeapStore.HeapArea.FreeBytes | kernel/core/mem/kmalloc.c:148-168 | memory is the one after freeing, for any pointer; a pointer to a block keeps it the image of the list |
| HeapStore.HeapArea.ResizeBytes | kernel/core/mem/kmalloc.c:170-192 | memory and result are those of a resizing, for any pointer |
| KconfigExpr.EliminateYnKeepsValue | scripts/kconfig/expr.c:231-312 | removing y and n keeps the value whenever these two constants have theirs |
| KconfigExpr.EliminateYn | scripts/kconfig/expr.c:231-312 | no y or n is left below an operator, and a tree that had one shrinks |
| ExprEquality.ExprEqSound | scripts/kconfig/expr.c:189-229 | expressions found equal have the same value in every valuation |
| ExprSweep.ExprEqReflexive | scripts/kconfig/expr.c:189-229 | every expression is found equal to itself |
| ExprSweep.ExprEqExact | scripts/kconfig/expr.c:130-229 | two trees of one operator over symbols, negated symbols and comparisons are found equal if and only if both hold the absorbing constant, or neither does and their other operands are the same, in any order |
| ExprSweep.ReorderedEqual | scripts/kconfig/expr.c:130-229 | in particular a tree is found equal to every reordering of it |
| ExprSweep.PassSweeps | scripts/kconfig/expr.c:130-162 | the recursion over two trees is a sweep over all pairs of their operands |
| ExprSweep.EliminateEqExact | scripts/kconfig/expr.c:164-184 | nothing is left of one such tree if and only if the other has all its operands; two single operands are not compared |
| ExprSweep.ExtractItself | scripts/kconfig/expr.c:826-875 | all of an expression can be extracted from itself |
| ExprSweep.ExtractExact | scripts/kconfig/expr.c:826-875 | a tree of symbols, negated symbols and comparisons is extracted if and only if the other has all its operands |
| ExprEquality.EliminatePassSplits | scripts/kconfig/expr.c:130-162 | both sides lose one and the same part: there is one value that each old side is made of together with its new side |
| ExprEquality.EliminateEqSound | scripts/kconfig/expr.c:164-184 | sides that are equal after elimination were equal before |
| ExprEquality.EliminateEqKeepsOrder | scripts/kconfig/expr.c:164-184 | if what is left of one side implies what is left of the other, the side implied the other |
| ExprEquality.ExtractEqMoves | scripts/kconfig/expr.c:848-875 | extraction moves the same part from both sides to the common part |
| ExprEquality.ExtractEqTopSplits | scripts/kconfig/expr.c:826-846 | each side has the value of its rest together with the common part |
| ExprJoin.JoinOrKeepsValue | scripts/kconfig/expr.c:346-408 | each rule gives the maximum of its operands in three values |
| ExprJoin.JoinOrExact | scripts/kconfig/expr.c:346-408 | the pairs that are joined: equal ones, two values of one tristate symbol, a bool symbol and its negation |
| ExprJoin.JoinAndKeepsValue | scripts/kconfig/expr.c:410-502 | each rule gives the minimum of its operands in three values |
| ExprJoin.JoinAndExact | scripts/kconfig/expr.c:410-502 | the pairs that are joined: equal ones, a symbol and a test of it, a value and an excluded value, two excluded values |
| ExprJoin.JoinShape | scripts/kconfig/expr.c:346-502 | a joined expression is no larger than its first operand and is no tree of the same operator |
| ExprSpine.RebuildValue | scripts/kconfig/expr.c:504-554 | a tree rebuilt from slots has the value of their fold, whatever its shape |
| ExprSpine.LeavesValue | scripts/kconfig/expr.c:504-554 | an and/or tree has the value of the fold of its operands |
| ExprDups.Dups1KeepsValue | scripts/kconfig/expr.c:504-554 | the aliased pairwise pass keeps the three-valued meaning |
| ExprDups.OpposesMeaning | scripts/kconfig/expr.c:556-610 | when one operand contains the negation of another, the pair is the absorbing constant if and only if not both are m |
| ExprDups.Dups2Decides | scripts/kconfig/expr.c:556-610 | the second pass never changes n or y; it may only decide an m |
| ExprDups.RoundShrinks | scripts/kconfig/expr.c:612-634 | a round that counted a change leaves y or n behind, so removing them shrinks the tree |
| ExprDups.EliminateDupsDecides | scripts/kconfig/expr.c:612-634 | the whole loop never changes n or y, in every well-formed valuation |
| ExprDups.EliminateDupsKeepsValue | scripts/kconfig/expr.c:612-634 | where no symbol is m the loop keeps the value |
| ExprDups.EliminateDupsIdempotent | scripts/kconfig/expr.c:612-634 | the loop stops at an expression it leaves alone |
| ExprDups.EliminateDupsChangesMod | scripts/kconfig/expr.c:556-634 | an expression that is m before the loop and n after it |
| ExprDups.JoinSlots | scripts/kconfig/expr.c:504-554 | one pair rewritten in place is the pair step |
| ExprDups.JoinRow | scripts/kconfig/expr.c:504-554 | one slot against all others, in place |
| ExprDups.JoinInPlace | scripts/kconfig/expr.c:504-554 | the loops over the slots in place give the first pass, with its count |
| ExprDups.RemoveDuplicates | scripts/kconfig/expr.c:612-634 | the loop ends and gives the simplified expression, of which `ExprResult.EliminateDupsNoRepeats` speaks |
| ExprResult.EliminateDupsIrredundant | scripts/kconfig/expr.c:504-634 | in the result, at every AND or OR outside negations, no two operands can be joined and none is opposed by a part of the tree |
| ExprResult.EliminateDupsNoRepeats | scripts/kconfig/expr.c:504-634 | so no two operands are equal, and none has its negation beside it |
| ExprResult.NegationOpposes | scripts/kconfig/expr.c:556-610 | an expression and its negation are recognised as opposed |
| ExprResult.OpposesExact | scripts/kconfig/expr.c:556-610 | for symbols, negated symbols and comparisons: one is opposed if and only if the other has all operands of its negation |
| ExprTransform.TransformKeepsValue | scripts/kconfig/expr.c:636-771 | the transformation keeps the three-valued meaning |
| ExprTransform.TransformNormalises | scripts/kconfig/expr.c:636-771 | in its result negations stand only on symbols other than y, m and n, and no bool symbol is compared with one of these |
| ExprTransform.TransformFixpoints | scripts/kconfig/expr.c:636-771 | it leaves exactly the normal forms alone, and is idempotent |
| ExprCompare.TransCompareMeaning | scripts/kconfig/expr.c:877-936 | what the result tests, for every expression: the comparison, with m read as the opposite |
| ExprCompare.TransCompareExact | scripts/kconfig/expr.c:877-936 | it is the comparison of the value unless that value is m and its reading is what it is compared with |
| ExprCompare.TransCompareKeepsValue | scripts/kconfig/expr.c:877-936 | it is the comparison of the value where no symbol below an odd number of negations is m |
| ExprCompare.TransCompareFailsAtMod | scripts/kconfig/expr.c:877-936 | a negated symbol at m for which it is not |
| ExprMenus.InheritedMeaning | scripts/kconfig/menu.c:314-318 | in the values of an evaluation the inherited dependency is the smaller of both, up to deciding an m |
| ExprMenus.InheritedIrredundant | scripts/kconfig/menu.c:314-318 | it has no operands that could be joined or oppose each other |
| ExprMenus.ShownMeaning | scripts/kconfig/menu.c:342-353 | comparing with n, transforming and removing duplicates tests "not n" of the reading with m as y |
| ExprMenus.ReadingOfValue | scripts/kconfig/menu.c:342-353 | what passes that test is not n; the converse holds where no symbol below an odd number of negations is m |
| ExprMenus.NestedIsSound | scripts/kconfig/menu.c:342-360 | an entry is put below another only if that one is not n whenever it is not n, both read with m as y |
| ExprMenus.NestedExact | scripts/kconfig/menu.c:342-360 | for conjunctions of symbols, negated symbols and comparisons the test is whether the entry has all conditions of the one above, unless both are single |
| ExprMenus.NestedIsVisible | scripts/kconfig/menu.c:342-360 | in plain values: an entry without m below an odd number of negations is put below another only if that one is visible whenever it is |
| ExprMenus.NestedFailsAtMod | scripts/kconfig/menu.c:342-360 | an entry that is m, put below one that is n |
| SymbolEval.SolutionSolves | scripts/kconfig/symbol.c:293-440 | acyclic definitions have values that satisfy all of them at once |
| SymbolEval.SolutionUnique | scripts/kconfig/symbol.c:293-440 | and only one such assignment |
| SymbolEval.VisibilityExact | scripts/kconfig/symbol.c:189-209 | a symbol is visible as its best prompt says, with m as y unless it is a tristate symbol and there are modules |
| SymbolEval.ValueOfUser | scripts/kconfig/symbol.c:338-388 | in every solution a visible symbol with a user value has that value, within its visibility and at least what it is selected to |
| SymbolEval.ValueOfDefault | scripts/kconfig/symbol.c:338-388 | otherwise that of the first default whose condition is not n, within that condition and at least what it is selected to |
| SymbolEval.ValueOfSelection | scripts/kconfig/symbol.c:338-388 | and without such a default what it is selected to |
| SymbolEval.ValueIsLimited | scripts/kconfig/symbol.c:338-388 | a value above the selection does not exceed the visibility, or the condition of the default it comes from |
| SymbolEval.SolutionWellFormed | scripts/kconfig/symbol.c:760-782 | evaluation gives well-formed valuations |
| SymbolEval.SetTakesEffect | scripts/kconfig/symbol.c:474-527 | a value within range is the value after setting it and evaluating again |
| SymbolEval.RangeExact | scripts/kconfig/symbol.c:474-491 | a value is in range if and only if there is a choice and setting it would give the symbol that value |
| SymbolEval.SetLeavesLower | scripts/kconfig/symbol.c:493-527 | setting a symbol changes no symbol it depends on |
| SymbolEval.SetSameExact | scripts/kconfig/symbol.c:493-527 | recording the present value as user value keeps it if and only if the symbol is invisible, visibility allows the value, or selection alone gives it |
| SymbolEval.SetSameKeepsAll | scripts/kconfig/symbol.c:493-527 | and then no symbol changes |
| SymbolEval.SetSameCanChange | scripts/kconfig/symbol.c:493-527 | a symbol whose value changes when it is set to the value it has |
| SymbolTable.Table.constructor | scripts/kconfig/symbol.c:442-452 | with all marks cleared nothing wrong is recorded |
| SymbolTable.Table.CalcValue | scripts/kconfig/symbol.c:293-440 | the memoised evaluation records the unique value, keeps all recorded values right, and marks valid all that a recorded value was computed from |
| SymbolEval.SetLeavesClosed | scripts/kconfig/symbol.c:442-527 | setting a symbol changes no value of a set of symbols that are computed from each other and do not include it |
| SymbolTable.Table.CalcVisibility | scripts/kconfig/symbol.c:189-227 | visibility and selection as defined |
| SymbolTable.Table.CalcDefault | scripts/kconfig/symbol.c:115-125 | the value of the defaults that `SymbolEval.ValueOfDefault` and `SymbolEval.ValueOfSelection` describe |
| SymbolTable.Table.CalcExpr | scripts/kconfig/expr.c:938-977 | evaluating on demand gives the value in the solution |
| SymbolTable.Table.CalcAll | scripts/kconfig/symbol.c:293-452 | calls in any order give every symbol its unique value |
| SymbolTable.Table.SetValue | scripts/kconfig/symbol.c:493-527 | decided by what is recorded, valid or not; an accepted new value in range is what evaluation gives next; accepting the recorded value leaves the table right if and only if the symbol is not marked valid or the value is harmless |
| Fixdep.WordScanIsNaive | scripts/basic/fixdep.c:236-267 | for every text the scan by words finds the names that looking at every byte from offset 1 on finds, in order |
| Fixdep.WordCoversFour | scripts/basic/fixdep.c:236-267 | one word finds what its four offsets hold, each once |
| Fixdep.FirstOnlyExact | scripts/basic/fixdep.c:214-234 | keeping first occurrences drops repeats and nothing else |
| Fixdep.ConfigSet.constructor | scripts/basic/fixdep.c:141-149 | an empty table, nothing printed |
| Fixdep.ConfigSet.IsDefined | scripts/basic/fixdep.c:164-174 | the bucket finds a name exactly when it was printed |
| Fixdep.ConfigSet.Use | scripts/basic/fixdep.c:214-234 | a name is printed unless it was before |
| Fixdep.ConfigSet.Parse | scripts/basic/fixdep.c:236-267 | a file adds the first occurrences of the names the byte scan finds, in order, without those printed before |
| Fixdep.NameInWord | scripts/basic/fixdep.c:236-267 | the four comparisons and the end-of-name rules of one word |
| Fixdep.NameExact | scripts/basic/fixdep.c:236-267 | a word behind the prefix that another character ends yields itself without a final "_MODULE", and nothing if it is "MODULE" |
| Fixdep.NameAtEnd | scripts/basic/fixdep.c:236-267 | a word that the end of the file ends yields nothing |
| ConfigText.EscapeString | scripts/kconfig/symbol.c:915-956 | the loop writes the escaped string, and the size computed for it is its length plus one |
| ConfigText.EscapePlain | scripts/kconfig/symbol.c:915-956 | a string without quotes and backslashes is only put in quotes |
| ConfigText.UnquoteInPlace | scripts/kconfig/confdata.c:155-169 | squeezing backslashes out of the buffer reads the quoted text, or refuses it when unclosed |
| ConfigText.UnquoteEscape | scripts/kconfig/confdata.c:155-169 | reading back an escaped string gives the string, whatever follows |
| ConfigText.UnquoteUnclosed | scripts/kconfig/confdata.c:155-169 | without the closing quote no escaped text is accepted |
| ConfigText.LineRoundTrip | scripts/kconfig/confdata.c:311-372 | a printed line of any kind reads back as the same value of the same symbol |
| ConfigText.UnsetRoundTrip | scripts/kconfig/confdata.c:314-345 | an "is not set" line reads back as n |
| ConfigText.PrintedForms | scripts/kconfig/confdata.c:481-502 | the lines as they are in the file |
| ConfigText.ReadLetter | scripts/kconfig/confdata.c:120-150 | the first letter decides for bool and tristate symbols; m is no value of a bool one |
| ConfigText.NoLine | scripts/kconfig/confdata.c:120-372 | a line with "=n" reads as n |
| ConfigText.LineEnds | scripts/kconfig/confdata.c:346-357 | a carriage return in front of the line end changes nothing |
| ConfigText.ReadFits | scripts/kconfig/confdata.c:120-372 | whatever is read is a value the symbol can hold |
| ConfigText.FileRoundTrip | scripts/kconfig/confdata.c:311-377 | a printed file reads back entry by entry |
| ConfigText.StringRoundTripExact | scripts/kconfig/confdata.c:481-502 | a string value reads back if and only if it has no line end |
| Klist.Init | include/kernel/klist.h:12-16 | a head alone is a ring |
| Klist.IsEmpty | include/kernel/klist.h:18-21 | empty exactly when the head is alone |
| Klist.AddAfter | include/kernel/klist.h:23-30 | the links form the ring with the new element after the given one |
| Klist.AddBefore | include/kernel/klist.h:32-39 | the links form the ring with the new element before the given one, last when that is the head |
| Klist.Delete | include/kernel/klist.h:41-50 | the links form the ring without the element |
| Klist.Walk | include/kernel/klist.h:62-65 | a walk visits the elements present at its start once each, in order, while visits delete their element and put any number of others in front, also such as this walk has deleted |
| Timer.FiringsExact | kernel/core/timer.c:50-121 | over every mix of registrations, also from callbacks, and interrupts: a one-shot fires exactly once after its time, a periodic timer at exactly its multiples, nothing else fires, across counter wraps |
| Timer.AcceptedTimerFires | kernel/core/timer.c:50-121 | the same seen from one accepted call |
| Timer.RegisterExact | kernel/core/timer.c:84-121 | when a registration is refused and why, and that an accepted one stays as it was made |
| Timer.DueTest | kernel/core/timer.c:60-60 | the 32-bit comparison says whether the timer is due, however often the counter wrapped |
| Timer.RunKeeps | kernel/core/timer.c:50-121 | in every reachable state the list holds exactly the slots not free, once each, and every slot waits for a tick of its registration |
| Timer.VisitKeeps | kernel/core/timer.c:57-70 | a visit keeps the invariant of the walk while its callback registers and its entry may be deleted |
| Timer.TimerTable.constructor | kernel/core/timer.c:39-48 | all slots free, tick 0, an empty ring |
| Timer.TimerTable.NewSlot | kernel/core/timer.c:75-82 | the lowest free slot, or -1 when there is none |
| Timer.TimerTable.RegisterTimer | kernel/core/timer.c:84-121 | the whole new state and the code returned are those of a registration, and the links have the new timer in front |
| Timer.TimerTable.HandleInterrupt | kernel/core/timer.c:50-73 | following saved next pointers through the changing ring visits the timers that were on it, and is the tick |
| Timer.TimerTable.VisitTimer | kernel/core/timer.c:57-70 | one visit is the step of the model and leaves the rest of the walk at the end of the ring |
| Timer.TimerTable.NextOf | include/kernel/klist.h:62-65 | inside the part still to visit the links lead to the next timer or back to the head |
| Timer.TimerTable.RunCallback | kernel/core/timer.c:60-69 | the callback's registrations happen before the timer is renewed or freed |
| Timer.TimerTable.SettleTimer | kernel/core/timer.c:63-68 | the whole state after a firing |
| Scheduler.ElectExact | kernel/core/scheduler/scheduler.c:44-76 | an election takes the first in line, forced the first not running, else idle; the queue is only rotated past it, at most two places |
| Scheduler.ForcedElection | kernel/core/scheduler/scheduler.c:56-71 | a forced election never takes the running queued thread, and idles only if that is alone |
| Scheduler.ElectedInTurn | kernel/core/scheduler/scheduler.c:44-146 | in every sequence of arrivals, removals and updates a ready waiting thread with k before it is among the next k + 1 elected |
| Scheduler.ElectedInTime | kernel/core/scheduler/scheduler.c:90-146 | it is elected within ten timer updates for each thread before it and the rest of the slice |
| Scheduler.StepKeepsInv | kernel/core/scheduler/scheduler.c:23-146 | the queue never holds a thread twice and the slice stays between 1 and ten |
| Scheduler.UpdateKeepsInv | kernel/core/scheduler/scheduler.c:90-146 | an election leaves a permutation of the cleaned queue |
| Scheduler.CleanedExact | kernel/core/scheduler/scheduler.c:106-133 | cleaning leaves exactly the threads that can run, in their order |
| Scheduler.UpdateRunsReady | kernel/core/scheduler/scheduler.c:90-146 | after every update the running thread can run or is idle; after an election exactly the threads that can run are queued, and idle runs only if none other can |
| Scheduler.SliceGoesOn | kernel/core/scheduler/scheduler.c:90-104 | a thread goes on exactly when it has time left, can run, nobody asks for an election and it is not idle while others wait |
| Scheduler.RunQueue.constructor | kernel/core/scheduler/scheduler.c:6-21 | an empty queue, nothing running |
| Scheduler.RunQueue.AddThread | kernel/core/scheduler/scheduler.c:23-35 | the thread comes last, and idling ends at the next update |
| Scheduler.RunQueue.ElectNext | kernel/core/scheduler/scheduler.c:44-76 | the recursive election rotates the queue as specified and ends |
| Scheduler.RunQueue.Clean | kernel/core/scheduler/scheduler.c:106-133 | exactly the blocked threads and the dead ones not running leave the queue, in order |
| Scheduler.RunQueue.Tick | kernel/core/scheduler/scheduler.c:90-146 | the whole new state of an update: count down, or clean, elect and start a new slice |

## Left out

- Kconfig: expression lists, ranges and `expr_trans_bool`; choice groups, environment symbols, `sym_check_deps` (acyclicity is taken as given by a rank), changes of `modules_val`, the change and write flags, warnings.
- Kconfig: int, hex and string symbols take part in comparisons with fixed values; their evaluation is not modelled.
- Kconfig: expression trees are values; sharing, freeing and the change counter of `expr_eliminate_eq` are not modelled. The second pass of `expr_eliminate_dups` is a function, not an in-place method.
- ExprMenus: entries that name the symbol above them as a plain dependency are put below it without the test; the rest of `menu_finalize`.
- ConfigText: choice members, `S_OTHER` lines, auto.conf and conflicting assignments while reading, other prefixes than `CONFIG_`, file access.
- Fixdep: the lower-case path printed for each name, signed characters, reading the dependency file. Offset 0 of a file is not looked at by the original either.
- CowRuns.RunRefines: a map step at a given address stands for a request that `RegionWords.SoundRequest` allows. For other requests the region list itself breaks, before there is a mapping.
- CowRuns.CopyOnWriteIsInvisible: the same holds for its map steps; for 16-bit reference counts see `CountWidth.NarrowCountsInvisible`.
- KernelFrames: which operation takes a frame for which table; frames may be taken and given up at any time. A segment of two mappings is taken over from one of them only.
- ByteLists: memory and address spaces end below 4 GiB, as the layouts of the original do.
- Segments: one initial memory area; locks.
- HeapWords: the heap ends below the top of the address space, as the one of the original does; growing it, locks.
- PageTables: permission bits of directory entries, what the frames of the tables themselves hold, running out of memory half way, the TLB. `UnmapPages` needs the tables of its range, as the original does when it writes to them.
- VirtualMemory: kernel mappings, `as_copy`, mapping given physical memory, fixed addresses without a reservation, a failure while the tables are filled. A fork that finds no memory for its tables is not modelled.
- CowRuns.BootInv: takes the segments left by booting as they are; the boot sequence is not modelled.
- Timer: interrupts do not nest, and callbacks do nothing but register timers. Only one processor is modelled, as in the original.
- Scheduler: context switching, events and wait queues, `thread_num`, destroying dead threads (which releases the lock in between), a timer update before anything runs.
- Everything else: user interfaces, file systems, channels, drivers, the boot loader, user land, libc.
