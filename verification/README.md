# Kernel-V memory management and logging, modelled and proved in Dafny

The project models two parts of Kernel-V.

**Memory management.** The bitmap frame allocator (`kernel/memory/pmm.c`), the two-level page
tables it feeds (`kernel/memory/paging.c`), the demand-paging fault handler
(`kernel/memory/page_fault.c`), the filter of the BIOS memory map
(`kernel/memory/memory_map.c`) and the boot order that ties them together
(`kernel/main/kernel.c`, lines 198 to 249).  Page tables live inside the modelled physical
memory, in frames that the allocator hands out, and the kernel reaches them through the
very translations they define.

**Logging.** The formatter `my_vsnprintf`, the circular log and `printk`
(`kernel/lib/printk.c`), and the scrolling text console (`kernel/drivers/vga/vga.c`).

Every operation has a specification as a function on values, and a class or method in the
form of the C code (arrays written in place, counters, loops) that is proved equal to it.
What the system promises is then proved about the values: for every memory map, every
sequence of faults and stores, every format and every sequence of printed texts.

| file | content |
|---|---|
| `Bits.dfy` | `&`, `\|`, `>>` defined bit by bit; masks and shifts as address arithmetic |
| `FrameTable.dfy`, `FrameTheorems.dfy`, `FrameRuns.dfy` | the allocator as a value; its loops in closed form, conservation, first fit, arbitrary runs |
| `UsableMemory.dfy` | memory maps: when the freed frames are the usable ones, and when all of them can be handed out |
| `FrameAllocator.dfy` | the class over the byte bitmap |
| `MemoryMap.dfy` | the E820 filter |
| `PageWalk.dfy`, `PageTheorems.dfy` | the walk of 32-bit paging with 4-KByte pages (Intel SDM volume 3A, sections 4.3 and 4.6), `paging_map_page`, TLB coherence (section 4.10) |
| `DemandPaging.dfy`, `KernelRuns.dfy`, `Boot.dfy` | the system invariant, runs of faults and program stores, boot |
| `FirstAccess.dfy` | boot and first heap access, end to end, on a machine with one block of memory, with all three ends of the boot; it shows that the hypotheses of the boot and run theorems can be met |
| `HeapGrowth.dfy` | which lists of heap pages can be faulted in, in clear frames; from boot, any few, all 4096, and not one after the other |
| `AvailableMemory.dfy` | from the E820 entries to the frames handed out and mapped |
| `Mmu.dfy`, `Kernel.dfy` | physical memory behind an adversarial TLB; `paging_map_page`, the handler and boot in the form of the source |
| `RingBuffer.dfy`, `Console.dfy`, `Format.dfy`, `NumberTexts.dfy`, `RenderLaws.dfy`, `Printf.dfy`, `Printk.dfy` | the logging path |

## Where the code differs from what it says

The model follows the code; each of these is stated as a lemma.

- `total_frames` counts the frames made free but serves as the index bound of allocation.  All
  usable memory is handed out before allocation fails if and only if every usable frame is
  below it (`UsableMemory.UsableHandedOutIff`, `Boot.UsableAtBootHandedOutIff`); on a map whose
  regions all fit, if and only if usable memory has no hole
  (`UsableMemory.UsableHandedOutIffNoHole`, `Boot.UsableAtBootHandedOutIffNoHole`).  The usual
  hole below 1 MByte costs as many frames at the top of memory (`Boot.LowHoleStrands`).
- `pmm_init` cuts the 64-bit base and length of a region to 32 bits.  A region above 4 GByte
  frees frames below it where there may be no memory (`UsableMemory.HighMemoryFreesLowFrame`,
  `Boot.HighMemoryAtBoot`), and one that reaches 4 GByte frees too little
  (`UsableMemory.MemoryTo4GByteIsLost`, `Boot.TopMapIsLost`); `UsableMemory.AlignedMapFreesUsable` is the exact condition.
- `pmm_init` also frees partly covered frames of a region whose base is misaligned, or whose
  end is misaligned and not in the frame of the highest end; `UsableMemory.InitFreesUsableFrames`
  is the exact condition on maps whose regions share no frame.
- `pmm_init` counts a frame of two regions twice (`FrameTheorems.TotalIsExactIffDisjoint`,
  `FrameTheorems.SharedFrameCountsTwice`), and does not leave a region whose address counter
  wraps before its end (`FrameTheorems.SteppingEnds`, `FrameTheorems.SteppingForever`).
- A reservation that ends above 0xFFFFF000 reserves nothing (`FrameTheorems.ReserveMeetsIff`,
  `FrameTheorems.LateReservationIsLost`).
- `pmm_free_frame` does not ask whether the frame was in use (`FrameTheorems.FreeConservesIffUsed`).
- The store that should raise a double fault after a guard-page hit succeeds, because address
  0 is mapped and writable (`KernelRuns.GuardFaultOverwritesWordZero`).
- The handler does not ask whether the page is absent; remapping a present page loses a frame
  (`KernelRuns.RemappingLosesFrame`).
- A page table outside the first 4 MByte cannot be written (`DemandPaging.DemandMapOutcome`); with
  all memory above 4 MByte the boot halts for that reason (`FirstAccess.HighMemoryHalts`).
- A heap used page after page from its start never grows beyond 4 MByte, however much memory
  there is: the pages take all frames below 4 MByte, where the second table would have to lie
  (`HeapGrowth.SequentialFromBoot`).  In another order all 16 MByte can be mapped
  (`HeapGrowth.WholeHeap`).
- `%u` reads its argument as signed (`NumberTexts.UnsignedIffSmall`), zero padding is written
  before the sign (`NumberTexts.ZeroPaddedDecimal`), and `%p` drops its prefix when one
  character of room is left (`Format.EmitIsPrefixIff`, `Format.PointerAtTheEdge`).
- The comment in `pmm.c` line 94 places the kernel at 0x100000, the linker script at 0x10000;
  the model takes start and end of the image as inputs.

## Model

| member | source | states |
|---|---|---|
| `Boot.BootedRun` | kernel/main/kernel.c:203-249 | from boot through any possible sequence of absent-page faults and program stores: the system invariant holds, `used_frames` = frames reserved + successful trial allocations + page tables + mapped pages, each returned fault mapped one page, at most 4096 ever return, the guard page is never mapped |
| `Boot.BootedPagesAreSafe` | kernel/memory/page_fault.c:53-76 | in every state reached from boot, two present pages above 4 MByte have different frames; each frame is marked used, above 1 MByte, no page table, outside the kernel image and the bitmap, and covered by a region, wholly inside usable memory if every region fits; each such page is writable and closed to user code |
| `Boot.BootIsGood` | kernel/main/kernel.c:234-249 | a boot that completes establishes the invariant with exactly the fifteen stack pages mapped, through one table |
| `Boot.BootOutcome` | kernel/main/kernel.c:239-249 | by the clear frames left after the trial allocations: boot completes with two inside the first 4 MByte and sixteen in all, halts on an unreachable table with two in all but not two there, and runs out of memory otherwise |
| `FirstAccess.BlockOutcome` | kernel/main/kernel.c:203-249 | on one block of memory from any frame `lo` to `m`, with the kernel image below 1 MByte, which of the three ends the boot has |
| `FirstAccess.BlockBoots` | kernel/main/kernel.c:203-249 | on one block from address 0, boot completes if there are at least 274 frames and runs out of memory otherwise, whatever memory holds |
| `FirstAccess.HighBlockHalts` | kernel/memory/paging.c:83-97 | with all memory in one block above 4 MByte, four pages larger than the gap below it, the boot halts on the table of the stack |
| `FirstAccess.HighMemoryHalts` | kernel/memory/paging.c:83-97 | 4 MByte and 16 KByte of memory from address 0x400000 is such a machine |
| `FirstAccess.OneRegionIsBlock` | kernel/memory/pmm.c:29-68 | one available region of whole pages, from frame `lo` to `m`, covers exactly these frames, each once, and sets `max_frame_idx` to `m` |
| `FirstAccess.FirstHeapAccess` | kernel/main/kernel.c:113-114 | with 276 frames, a store to any aligned heap word right after boot finds its page absent, the fault returns, and the repeated store reads back |
| `Boot.BootTakesSixteen` | kernel/main/kernel.c:239-249 | a completed boot took exactly sixteen of the clear frames the allocator can hand out, so at most sixteen of those below 4 MByte |
| `Boot.ReservationsExact` | kernel/main/kernel.c:203-206 | after the reservations a frame is clear if and only if `pmm_init` freed it, it lies above 1 MByte, and it meets neither the kernel image nor the bitmap; on a map whose regions all fit, freed means wholly inside usable memory |
| `Boot.ReserveRegionMarks` | kernel/memory/pmm.c:78-133 | for every type, the frames marked are those of low memory, image, bitmap and paging structures that its bits select |
| `AvailableMemory.ClearIffAvailable` | kernel/memory/memory_map.c:30-51 | with at most 32 entries of type 1, all fitting: the frames clear after the reservations are exactly those wholly inside such an entry and not reserved |
| `AvailableMemory.BootedClearIsMemory` | kernel/memory/memory_map.c:30-51 | in every state reached from boot, a clear frame is wholly inside an entry of type 1 |
| `AvailableMemory.BootedPageIsMemory` | kernel/memory/page_fault.c:53-64 | so is the frame of every page mapped above 4 MByte |
| `Boot.FreedAtBootHandedOutIff` | kernel/main/kernel.c:203-211 | after the reservations, every run that exhausts the allocator leaves no clear frame if and only if each covered frame (freed by the 32-bit stepping) at or above both 1 MByte and `total_frames` is in the kernel image |
| `Boot.FreedAtBootHandedOutIffNoHole` | kernel/main/kernel.c:203-211 | with the image below 1 MByte, if and only if below every covered frame above 1 MByte all frames are covered |
| `Boot.UsableAtBootHandedOutIff` | kernel/main/kernel.c:203-211 | after the reservations, every run that exhausts the allocator has handed out or reserved all usable memory the boot did not reserve, if and only if each such frame is below `total_frames` |
| `Boot.UsableAtBootHandedOutIffNoHole` | kernel/main/kernel.c:203-211 | on a map whose regions all fit, with the image below 1 MByte, if and only if below every usable frame above 1 MByte all frames are usable |
| `Boot.TopMapIsLost` | kernel/memory/pmm.c:54-68 | 4 GByte of memory in two regions: the freed frames have no hole, and no usable frame above 16 MByte is handed out in every exhausting run |
| `Boot.HighMapIsTaken` | kernel/memory/pmm.c:54-68 | 16 MByte and two pages above 4 GByte: the freed frames have a hole, and every usable frame above 1 MByte is handed out or reserved in every exhausting run |
| `Boot.BootedRunKeepsReserved` | kernel/memory/page_fault.c:53-76 | from the memory before paging to any state reached from boot, every word of a frame reserved at boot, the frame bitmap and the kernel image among them, is unchanged, except in the page directory and the first table |
| `Boot.LowHoleStrands` | kernel/memory/pmm.c:168-178 | on a map with a hole below 1 MByte, allocating until nothing is left leaves the last frames clear, as many as the hole has |
| `Boot.HighMemoryAtBoot` | kernel/memory/pmm.c:56-68 | with 16 MByte and two pages above 4 GByte, the reservations leave a frame clear that is in no region |
| `Boot.MarkingIsRedundant` | kernel/main/kernel.c:248 | marking the frame of a new stack page again changes neither bit nor counter |
| `Boot.PagingStartInv` | kernel/memory/paging.c:11-31 | over any memory contents, `paging_init` establishes the invariant with no table and no page above 4 MByte |
| `Boot.BaseUsesFew` | kernel/main/kernel.c:203-211 | with a kernel image that ends below 0x70000000, at most half of the 2^20 frames are taken before paging |
| `KernelRuns.RunKeepsGood` | kernel/memory/page_fault.c:53-76 | through any run of faults and stores the invariant holds, mapped pages keep their frames, and the number of pages grows by the number of returned faults |
| `KernelRuns.FaultsAreBounded` | kernel/memory/page_fault.c:53-64 | the faults that can still return are at most the unmapped heap pages |
| `KernelRuns.FaultProgress` | kernel/memory/page_fault.c:53-64 | a fault that returns leaves its page present and writable on a frame that was clear, keeps every other translation, and raises `used_frames` by one, or by two exactly when the directory entry was absent |
| `KernelRuns.FaultOutcome` | kernel/memory/page_fault.c:20-76 | for every address, every stack pointer and every state of tables and allocator, how the handler ends: stack overflow in the guard page; in the heap, and within 32 bytes below the stack pointer in the stack, mapped, out of memory or table out of reach according to the clear frames in all and below 4 MByte; unhandled everywhere else |
| `KernelRuns.HaltingFaultEffect` | kernel/memory/page_fault.c:20-116 | a fault that maps no page leaves the allocator as it was, and memory but for the word the guard branch stores |
| `HeapGrowth.FaultedInIff` | kernel/memory/page_fault.c:53-64 | any list of different absent heap pages can be faulted in, one after the other, if and only if the clear frames suffice: one each, and for the first page of each 4 MByte without a table two below 4 MByte |
| `HeapGrowth.FaultedInMaps` | kernel/memory/page_fault.c:53-64 | afterwards every page of the list is mapped |
| `HeapGrowth.AnyPagesReturn` | kernel/memory/page_fault.c:53-64 | after the boot of a machine with one block of memory, any list with at most four entries fewer than the boot left low frames can be faulted in, in any order |
| `HeapGrowth.TablesFirstReturn` | kernel/memory/page_fault.c:53-64 | a list that begins with a page of each of the four heap tables can be faulted in if and only if there are 278 frames more than pages in it |
| `HeapGrowth.WholeHeap` | kernel/memory/page_fault.c:53-64 | with 4374 frames all 4096 heap pages can be mapped, in one given order |
| `HeapGrowth.SequentialFromBoot` | kernel/memory/paging.c:83-101 | on no machine with one block of memory do 1025 successive heap pages from the start of the heap all return |
| `KernelRuns.OnlyHeapFaultsReturn` | kernel/memory/page_fault.c:20-76 | the guard page is absent and the stack pages are present, so only heap faults return and the stack-growth branch is never taken |
| `KernelRuns.HeapIsMemory` | kernel/memory/page_fault.c:53-64 | after any run, every word the program stored in a mapped page is still loaded from its address, whatever was faulted in since |
| `KernelRuns.StoreKeepsTables` | kernel/memory/paging.c:77-104 | a program store above 4 MByte changes no directory entry, no table entry and no translation |
| `KernelRuns.GuardFaultOverwritesWordZero` | kernel/memory/page_fault.c:39-41 | the store meant to raise a double fault hits a mapped writable page, overwrites only the first word of memory, and changes no translation |
| `KernelRuns.RemappingLosesFrame` | kernel/memory/page_fault.c:53-64 | demand mapping keeps the invariant if and only if the page was absent; a fault on a present page is not an event of a run |
| `KernelRuns.StackGrowthGap` | kernel/memory/page_fault.c:68-70 | the wrapped comparison holds if and only if the stack pointer is at least 32 and the address is 1 to 32 bytes below it |
| `KernelRuns.TableFaultHalts` | kernel/memory/paging.c:89-97 | a new table outside the first 4 MByte is not mapped at its own address, and the fault of the first store to it is one the handler only halts on |
| `DemandPaging.DemandMapKeepsInv` | kernel/memory/page_fault.c:57-62 | demand mapping of an absent page keeps the invariant and is a one-point update of the page map, with first-fit frames for page and table |
| `DemandPaging.DemandMapOutcome` | kernel/memory/paging.c:78-101 | it returns, runs out of memory, or halts on an unreachable table exactly according to how many clear frames there are in all and below 4 MByte |
| `DemandPaging.MapPageOutcome` | kernel/memory/paging.c:77-101 | for any address, frame and flags: how `paging_map_page` ends, by the clear frames, and which frames it takes |
| `DemandPaging.InitTranslations` | kernel/memory/paging.c:11-31 | after `paging_init` an address below 4 MByte walks to itself with flags 7 and 3, every other address is absent, and no frame but the directory and the first table changed |
| `DemandPaging.WindowTranslatesToItself` | kernel/memory/paging.c:22-31 | every address below 4 MByte translates to itself, writable, supervisor-only despite the user bit of its table entry |
| `DemandPaging.PageFrameIsOwn` | kernel/memory/paging.c:68-104 | every present high page has the flags the kernel gave it and a used frame that was clear before paging |
| `DemandPaging.PageFrameIsUnshared` | kernel/memory/paging.c:68-104 | no other present page and no directory entry uses its frame |
| `PageTheorems.MapPageUpdatesOneTranslation` | kernel/memory/paging.c:68-104 | mapping a page gives it exactly the requested frame and flags with the rights of its directory entry, keeps the translation of every other 32-bit address, also of the 1023 other pages of a new table, and keeps tables distinct |
| `PageTheorems.InvalidatingOnePageSuffices` | kernel/memory/paging.c:106-114 | a coherent TLB without the mapped page is coherent afterwards; with it, if and only if the cached entry already is the new translation |
| `PageWalk.MakeEntry` | kernel/memory/paging.c:103-104 | the encoded entry decodes to the requested frame and flags |
| `PageWalk.DirIndex` | kernel/memory/paging.c:70-71 | the shift is division by 4 MByte and a directory index |
| `PageWalk.TableIndex` | kernel/memory/paging.c:73-74 | shift and mask give the page number within its table |
| `KernelModel.Kernel.MapPageIn` | kernel/memory/paging.c:68-115 | the stores through the identity window, under any TLB fills and evictions, have exactly the specified effect, and the TLB is coherent again when it returns |
| `KernelModel.Kernel.ZeroTable` | kernel/memory/paging.c:94-97 | the loop clears exactly the new table if it lies below 4 MByte and otherwise faults without effect |
| `KernelModel.Kernel.NewTable` | kernel/memory/paging.c:83-101 | allocation, clearing and linking change no translation and keep the TLB coherent |
| `KernelModel.Kernel.PageFault` | kernel/memory/page_fault.c:8-116 | the handler has the specified outcome and effect, and when it returns the invariant and TLB coherence hold |
| `KernelModel.Kernel.ProgramStore` | kernel/memory/page_fault.c:53-64 | a store of the program through the TLB is the specified store and keeps invariant and coherence |
| `KernelModel.Kernel.MapKernelStack` | kernel/main/kernel.c:239-249 | the loop over stack offsets maps pages 1 to 15 in order and stops at the first failure |
| `KernelModel.Kernel.BootFrames` | kernel/main/kernel.c:203-212 | initialisation, the three reservations and the trial allocations leave the specified allocator state |
| `KernelModel.Kernel.Start` | kernel/main/kernel.c:198-249 | from the raw memory map to the mapped stack: outcome and state are the specified ones, and a completed boot satisfies the invariant |
| `MmuModel.Mmu.PagingInit` | kernel/memory/paging.c:11-58 | the two loops and the link build the specified directory and identity table, and paging starts with a coherent TLB |
| `FrameTheorems.TotalIsExactIffDisjoint` | kernel/memory/pmm.c:54-68 | `total_frames` is never below the number of frames made free, and equals it if and only if no frame below `max_frame_idx` lies in two regions |
| `FrameTheorems.SharedFrameCountsTwice` | kernel/memory/pmm.c:54-68 | two regions that meet inside a frame: three frames freed, four counted |
| `UsableMemory.InitFreesUsableFrames` | kernel/memory/pmm.c:29-68 | of the frames with 32-bit addresses, the clear ones are exactly those wholly inside a region (64-bit base and length) if every region fits: below 4 GByte, base and end aligned or in the frame of the highest end; crossing 4 GByte, only from its last page on; above, an empty truncation.  Only if, when no frame lies in two regions |
| `UsableMemory.OneRegionFreesUsable` | kernel/memory/pmm.c:54-68 | a single region below 4 GByte frees exactly its whole frames if and only if it is empty, its base is aligned or it lies in one frame; the cases at and above 4 GByte likewise |
| `UsableMemory.AlignedMapFreesUsable` | kernel/memory/pmm.c:54-68 | on a page-aligned map whose regions share no frame, freed and usable frames agree if and only if every region ends below 4 GByte, or begins above it with an empty truncation |
| `UsableMemory.HighMemoryFreesLowFrame` | kernel/memory/pmm.c:56-57 | two pages above 4 GByte clear a frame that is in no region |
| `UsableMemory.MemoryTo4GByteIsLost` | kernel/memory/pmm.c:56-59 | of the memory from 1 MByte to 4 GByte, given as one region, no frame is freed |
| `UsableMemory.StrandedIffHole` | kernel/memory/pmm.c:54-68 | after `pmm_init` no clear frame is at or above `total_frames` if and only if below each covered frame all are covered; there are as many such frames as used ones below `total_frames` |
| `UsableMemory.FreedHandedOutIffNoHole` | kernel/memory/pmm.c:142-192 | whatever is reserved, allocated and freed from `pmm_init` on, an allocator that fails has no clear frame but frame 0, if and only if the covered frames have no hole |
| `UsableMemory.AlwaysTakenIff` | kernel/memory/pmm.c:142-192 | a frame is handed out or reserved by the end of every run that exhausts the allocator if and only if it was clear at the start and below `total_frames` |
| `UsableMemory.UsableHandedOutIff` | kernel/memory/pmm.c:23-192 | every usable frame but frame 0 is so if and only if every such frame is below `total_frames` |
| `UsableMemory.UsableHandedOutIffNoHole` | kernel/memory/pmm.c:23-192 | on a map whose regions all fit, if and only if no usable frame has an unusable one below it |
| `UsableMemory.MemoryTo4GByteIsNeverTaken` | kernel/memory/pmm.c:56-59 | a map with no hole in its (empty) set of freed frames whose usable frames are not handed out |
| `UsableMemory.SevenFramesStranded` | kernel/memory/pmm.c:168 | a map with a hole of seven pages whose last seven frames are at or above `total_frames` |
| `FrameTheorems.InitConserves` | kernel/memory/pmm.c:23-71 | on regions that share no frame the counters are conserved, nothing is used, and the index bound stays inside the bitmap |
| `FrameTheorems.SteppedAddresses` | kernel/memory/pmm.c:59-61 | the closed form of a region's frames is the set of frames that the stepped addresses fall in |
| `FrameTheorems.SteppingEnds` | kernel/memory/pmm.c:59 | the 32-bit address loop leaves the region if and only if the stated bound on its end holds |
| `FrameTheorems.SteppingForever` | kernel/memory/pmm.c:59 | a region over which the address loop never ends |
| `FrameTheorems.MaxFrameIsMaximum` | kernel/memory/pmm.c:29-41 | `max_frame_idx` is the maximum of its old value and all region ends |
| `FrameTheorems.ReserveMeetsIff` | kernel/memory/pmm.c:142-160 | a reservation covers exactly the frames that meet its byte range if and only if the range ends no later than 0xFFFFF000 |
| `FrameTheorems.LateReservationIsLost` | kernel/memory/pmm.c:142-160 | a reservation up to 0xFFFFF001 changes nothing, although it meets frames |
| `FrameTheorems.ReserveConserves` | kernel/memory/pmm.c:152-160 | reserving keeps clear + used = total and counts exactly the frames it took |
| `FrameTheorems.AllocConserves` | kernel/memory/pmm.c:164-179 | allocation keeps clear + used = total |
| `FrameTheorems.FreeConservesIffUsed` | kernel/memory/pmm.c:181-192 | freeing keeps it if and only if the index is out of range, or the bit was set and something was counted as used |
| `FrameRuns.FirstFit` | kernel/memory/pmm.c:168-178 | the frame handed out is the lowest clear one in `[1, total_frames)`, and there is none exactly when all of them are used |
| `FrameRuns.StrandedFrames` | kernel/memory/pmm.c:168-178 | when allocation fails, the clear frames are frame 0, if it is, and those at or above `total_frames`, at most `max_frame_idx - total_frames + 1` |
| `FrameRuns.FreeUndoesAlloc` | kernel/memory/pmm.c:164-192 | freeing the frame just allocated restores every bit and counter |
| `FrameRuns.AllocAfterFree` | kernel/memory/pmm.c:164-192 | the next allocation returns the freed frame if and only if everything below it is used |
| `FrameRuns.AllocManyIncreases` | kernel/memory/pmm.c:168-176 | without frees the frames handed out strictly increase, were clear, and are exactly the bits that changed |
| `FrameRuns.RunAccounted` | kernel/memory/pmm.c:142-192 | under any interleaving of reserve, alloc and free of live frames: live and reserved frames are disjoint, never frame 0 live, and they are exactly the frames newly marked used, which `used_frames` counts |
| `FrameRuns.RunFromStart` | kernel/memory/pmm.c:142-192 | in particular from an allocator of which nothing was handed out |
| `FrameRuns.AllocIsFresh` | kernel/memory/pmm.c:168-175 | a frame handed out is neither live nor reserved nor frame 0 |
| `FrameAllocation.FrameAllocator.Init` | kernel/memory/pmm.c:23-71 | the loops over regions and bitmap bytes produce the specified bits and counters, with every bitmap access in bounds |
| `FrameAllocation.FrameAllocator.SetFrameBitmap` | kernel/memory/pmm.c:142-162 | the masked 32-bit loop marks the specified frame range |
| `FrameAllocation.FrameAllocator.ReserveMemoryRegion` | kernel/memory/pmm.c:78-133 | the bit tests of the type select exactly the specified ranges |
| `FrameAllocation.FrameAllocator.AllocFrame` | kernel/memory/pmm.c:164-179 | first fit on the bitmap, address 0 on failure |
| `FrameAllocation.FrameAllocator.FreeFrame` | kernel/memory/pmm.c:181-193 | the bit of the frame is cleared when its index is below `total_frames` |
| `FrameAllocation.FrameAllocator.SetBit` | kernel/memory/pmm.c:14 | the byte operation sets the one bit of the frame and no other |
| `FrameAllocation.FrameAllocator.UsedIsBit` | kernel/memory/pmm.c:11-16 | frame `f` is used when bit `f % 8` of byte `f / 8` is set |
| `FrameAllocation.FrameAllocator.ClearBit` | kernel/memory/pmm.c:15 | the byte operation clears the one bit of the frame and no other |
| `MemoryMap.AvailableKeepsOrder` | kernel/memory/memory_map.c:30-51 | the filter keeps exactly the entries of type 1, once each, in order, with their base and length |
| `MemoryMap.FirstRegionsRecord` | kernel/memory/memory_map.c:42-50 | region `k` has base, length and type of the `k`-th entry of type 1, and there are at most 32 |
| `MemoryMap.RegionTable.Parse` | kernel/memory/memory_map.c:30-51 | the table holds the first 32 of the regions it had and the Available entries; from an empty table, cell `k` is the `k`-th entry of type 1, field by field |
| `Format.EmitIsPrefixIff` | kernel/lib/printk.c:77-288 | the output is the unbounded rendering cut to the room if and only if the text of no non-null `%p` starts in the rendering at the last character of room |
| `Format.PointerAtTheEdge` | kernel/lib/printk.c:244-263 | `"%p"` into a buffer of two prints the digit of the pointer where the rendering has the zero of the prefix |
| `Format.EmitIsPrefix` | kernel/lib/printk.c:77-288 | without `%p` it always is |
| `RenderLaws.WrittenWellFormed` | kernel/lib/printk.c:87-280 | exactly when a format that begins with a directive is one the formatter can read |
| `RenderLaws.WrittenParses` | kernel/lib/printk.c:87-100 | flag and any width digits are read back, the width as their decimal value |
| `RenderLaws.RenderDecimal` | kernel/lib/printk.c:151-184 | `%d` renders the padding and the one decimal text that reads as the signed argument, then the rest with the other arguments |
| `RenderLaws.RenderUnsigned` | kernel/lib/printk.c:185-211 | `%u` likewise below 2^31; from there on each character is as far below '0' as the digit of 2^32 less the argument is above it |
| `RenderLaws.RenderHex` | kernel/lib/printk.c:212-243 | `%x` renders the lower-case hexadecimal text of the argument without leading zeros |
| `RenderLaws.RenderPointer` | kernel/lib/printk.c:244-276 | `%p` renders `0x` and the hexadecimal text, without padding |
| `RenderLaws.RenderString` | kernel/lib/printk.c:103-132 | `%s` renders the string, or `(null)`, behind its padding |
| `RenderLaws.RenderChar` | kernel/lib/printk.c:133-150 | `%c` renders the low byte behind its padding |
| `RenderLaws.RenderLetter` | kernel/lib/printk.c:273-280 | `%%` and unknown letters render the letter and use no argument |
| `RenderLaws.RenderPlain` | kernel/lib/printk.c:281-284 | other characters render as themselves |
| `Printf.MyVsnprintf` | kernel/lib/printk.c:77-288 | the buffer holds exactly the bounded rendering and a terminating zero, the bytes behind it are untouched, the length is returned, no access is out of bounds, and it terminates |
| `Printf.PutDirective` | kernel/lib/printk.c:102-280 | each conversion writes the padded text of its argument, cut to the room |
| `Printf.ParseDirective` | kernel/lib/printk.c:87-100 | flag and width loops read the directive, the width without overflow |
| `Printf.ScratchDigits` | kernel/lib/printk.c:156-162 | the scratch array holds the digits in reverse order, at most ten of them |
| `NumberTexts.DecimalRoundTrip` | kernel/lib/printk.c:151-184 | space-padded `%d` output reads back as the number at any width, and its length is max(width, digits and sign) |
| `NumberTexts.ZeroPaddedDecimal` | kernel/lib/printk.c:164-176 | zero-padded `%d` output reads back if and only if the number is not negative or no padding is needed |
| `NumberTexts.HexRoundTrip` | kernel/lib/printk.c:212-243 | `%x` output reads back for every 32-bit word with space or zero padding |
| `NumberTexts.UnsignedIffSmall` | kernel/lib/printk.c:185-211 | `%u` prints the decimal digits of its argument if and only if it is below 2^31 |
| `NumberTexts.DigitsFit` | kernel/lib/printk.c:156-167 | no 32-bit number overflows the scratch array |
| `NumberTexts.DirectiveRoundTrip` | kernel/lib/printk.c:87-100 | parsing the text of a directive returns its flag, width, conversion and remainder |
| `RingBuffer.LogIsLastBytes` | kernel/lib/printk.c:30-47 | after any sequence of writes into the circle of 1024 cells, from any empty position on, reading from tail to head gives exactly the last 1023 bytes ever written, in order |
| `RingBuffer.WindowPut` | kernel/lib/printk.c:30-38 | one byte put into the circle is one byte appended to the sequence read, the oldest dropped when full |
| `RingBuffer.WindowReads` | kernel/lib/printk.c:30-38 | what is read are the cells from the tail to the head, around the end of the 1024 |
| `RingBuffer.PutAllShows` | kernel/lib/printk.c:43-47 | writing a text byte by byte into the circle appends it to what is read and keeps the last 1023 bytes |
| `RingBuffer.LogBuffer.Write` | kernel/lib/printk.c:43-47 | cells and positions are those of the byte-by-byte writes, and the contents are the last 1023 bytes of the old contents and the text |
| `Console.ScreenIsWindowOnTape` | kernel/drivers/vga/vga.c:88-138 | after any texts in any colours the 25 rows are the last rows of an unbounded wrapped tape, with the cursor in range and where the tape says |
| `Console.ScreenAfterClear` | kernel/drivers/vga/vga.c:25-36 | in particular from a cleared screen and an empty tape on |
| `Console.TypePlain` | kernel/drivers/vga/vga.c:113-124 | on the tape, a text without line feeds fills the cells from the next position on |
| `Console.TypeLineFeed` | kernel/drivers/vga/vga.c:114-116 | a line feed moves to the next multiple of 80 and writes nothing |
| `Console.ShowsRows` | kernel/drivers/vga/vga.c:88-138 | cell by cell: the 2000 cells are those of the tape from row `max(0, row - 24)` on |
| `Console.Print1Shows` | kernel/drivers/vga/vga.c:113-134 | one character, with wrapping and scrolling, keeps screen and tape in agreement |
| `Console.PrintInParts` | kernel/drivers/vga/vga.c:112-138 | printing two texts in one colour is printing their concatenation |
| `Console.Vga.ScrollUp` | kernel/drivers/vga/vga.c:88-107 | in place, every row moves one up and the last becomes blank: byte `j` becomes byte `j + 160`, the last 160 alternate 32 and 0x0F |
| `Console.Vga.PutChar` | kernel/drivers/vga/vga.c:77-82 | the character goes to byte `2 * (80 * row + column)`, the colour to the next, nothing else changes |
| `Console.Vga.PrintString` | kernel/drivers/vga/vga.c:112-138 | the loop prints the text before the terminating zero; any tape the screen showed, with the text typed on it, it shows afterwards; even bytes are characters, odd bytes colours |
| `Console.Vga.ClearScreen` | kernel/drivers/vga/vga.c:25-36 | all 4000 bytes alternate 32 and 0x0F and the cursor returns to the origin |
| `Printk.ShownWhole` | kernel/lib/printk.c:290-301 | the screen shows all of a message if and only if no zero byte occurs in it |
| `Printk.ShownExact` | kernel/lib/printk.c:290-301 | the screen gets the low bytes of the characters before the first that is zero |
| `Printk.LevelFormat` | kernel/lib/printk.c:311-337 | a format that begins with byte 1 and a digit gets the name of that level in brackets, in its colour, and loses the two bytes |
| `Printk.PlainFormat` | kernel/lib/printk.c:303-349 | any other format is printed unchanged without prefix |
| `Printk.Logger.VPrintk` | kernel/lib/printk.c:290-301 | log and screen receive the same bounded rendering |
| `Printk.Logger.Printk` | kernel/lib/printk.c:303-349 | prefix and message go to the log and, each in its colour, to the screen; the returned length is that of both |

## Left out

- KernelModel.Kernel.Start: requires a memory map on which the address loops of `pmm_init` end, the reservations stay inside the bitmap and no frame lies in two regions, and a kernel image that ends below 0x70000000. The C code otherwise loops forever, or writes beyond the bitmap it initialised, or counts frames twice; twice counted, `total_frames` is too high (`FrameTheorems.TotalIsExactIffDisjoint`) and allocation may read beyond the bitmap.
- KernelModel.Kernel.BootFrames: requires the same of the memory map.
- KernelModel.Kernel.PageFault: covers faults on absent pages; what the handler does to a present page is stated at value level by `KernelRuns.RemappingLosesFrame`.
- Printf.MyVsnprintf: requires, of the part of the format that is read before the buffer is full, matching arguments, no directive cut off by the end of the format, widths below 2^31 and no `%d` of the smallest integer, because the C behaviour is undefined there.
- The bitmap at 0x90000 is an array of its own, not part of the word memory; `Boot.BootedRunKeepsReserved` shows that no store and no table write of a run reaches its frames.
- All 4 GByte of physical addresses behave as memory; devices and the difference between usable and absent memory enter only through the memory map.
- Stores of the kernel to its own data below 4 MByte are not events of a run; they could overwrite the tables.
- Paging-structure caches other than the TLB.
- The screen writes of the guard-page branch; its store to address 0 is modelled.
- Control-register, `cli`, `hlt` and port instructions, except for their logical effect.
- Messages printed by the allocator, the pager and the handler, breadcrumbs and self-tests.
- `panik` in test mode, where it returns; in normal mode it is a halting outcome.
- `vga_set_cursor_position`, the hardware cursor, and writes to video memory from elsewhere.
- Interrupt entry and the register frame: fault address and stack pointer are parameters.
- Descriptor tables and task state: fixed constants.
