# HuskyOS, modelled and proved

This project models five parts of the HuskyOS kernel in Dafny and proves what they do.

1. **Frames and page tables.** A bitmap with one bit per 4 KiB page, the allocator that hands pages out and keeps three
   counters, `MapMemory`, which grows a four-level tree out of those pages, and the boot loops that drive it. Words are
   naturals with explicit quotients, remainders and wrap-around; bitmap bytes are bit vectors. Physical memory is a
   sequence of 512-entry tables indexed by frame. The main results: every run of mappings and allocator calls keeps a
   proper tree exactly under a stated condition, and then refines a flat map from pages to frames.
2. **The kernel heap.** Headers in memory words, first fit, splitting, two-way coalescing, growth by pages. Lines 93, 101
   and 136 of heap.cpp contain slips, so every operation has two variants, `AsWritten` and `Intended`. For each operation
   there is an exact condition under which the code as written keeps the heap well formed; `malloc` and the runs, in which
   callers also store into their blocks, are proved for the repaired variant, down to every word of memory.
3. **The DEFLATE decoder of ssfn.h.** Canonical Huffman codes (RFC 1951, section 3.2.2), the fast table and the slow path,
   the bit buffer, block parsing with overlapping copies, and dynamic headers. What memory holds is an endless bit
   stream, because the decoder checks no end of input.
4. **Paths.** `strtok_r` on a buffer, a doubly linked list used as a stack, joining, and `kopen`, which cuts the joined
   path again and looks its components up.
5. **The ext2 initrd reader**, and **number printing** with its inverse.

Tables, byte layouts and bit positions are stated a second time, apart from their definitions (`ExtraBitsRise`,
`DezigzagIsOrder`, `FixedLengthOf`, `FlagPositions`, `MostSignificantFirst`, `U32IsLittleEndian`, `FieldsReadBack`), and
what each counter of the allocator stands for is proved for every run (`RunCounters`, `ClaimCounters`).

Where the code differs from what its names or the standard suggest, the model follows the code, a lemma names an input
that shows the difference, and a lemma gives the exact condition for agreement:

- The bounds tests of bitmap.cpp admit one index past the buffer (`GuardAdmitsOnePastTheEnd`, `LockPastTheEndUnbalances`,
  `RunBalanced`, `ReservedPastTheEndUnbalances`, `ClaimBalanced`).
- `GetFlag` reads bit 0 for every flag (`GetFlagExactly`).
- `length / 4096 + 1` pages can miss the last page of an unaligned range (`UnalignedRangeLeavesAPage`,
  `CountReachesWholeRange`).
- `RequestPages` can hand out a run that leaves the bitmap (`RequestRunLeavesTheBitmap`, `RunsStayInsideExactly`).
- `MapMemory` does not notice a null frame (`NullTableBreaksTree`, `MapKeepsTreeExactly`), nor does the kernel for its
  first table (`RootExactly`).
- The call that is meant to lock the kernel's own pages passes a link address (`KernelPageHandedOut`, `KernelLockIsEmpty`,
  `BootBitsExactly`).
- The heap's addresses lie in the part of the mapping through which tables are found (`RootInHeapWindow`,
  `HeapHidesTablesExactly`).
- The second boot loop overwrites the first one above 2^47 bytes (`MemoryIsMappedTwice`).
- The three slips of heap.cpp (`SplitExactly`, `MergeExactly`, `ReleaseExactly`, `ExpandExactly`, `TakeExactly`,
  `FirstMallocAsWritten`; `SeventeenPagesHang`, `ReturnsExactly`), and the truncation to `int32_t` in `Split`
  (`LargeSegmentTruncates`, `AllocateExactly`, `RunStaysWellFormedExactly`).
- The block parser accepts length symbols 286 and 287, distance symbols 30 and 31, and symbol 284 with extra bits 31
  (`ReservedGoesOn`, `AgreesExactly`, `FixedCodesReachReserved`).
- Components of the working directory are not resolved, so canonicalising is not always idempotent (`DotsFromDots`,
  `IdempotentExactly`), and `..` is resolved without looking at what it leaves (`OpenBelowExactly`).
- `ext2_get_inode_block` counts on 256 pointers in a block (`FirstDoubleMissed`, `SlotExactly`), knows no holes
  (`HoleIsMisread`) and multiplies in 32 bits (`AddressExactly`, `DirectExactly`); `read_initrd` computes a huge count for
  an offset past the end (`ReadPastTheEnd`, `CountExactly`); a record of length zero stops both directory walks
  (`StuckAtZero`).

## Model

| member | source | states |
|---|---|---|
| `Bitmaps.SetChangesOneBit` | Kernel/src/memory/bitmap.cpp:20-30 | writing one packed bit changes exactly that bit of the unpacked content and no other |
| `Bitmaps.MostSignificantFirst` | Kernel/src/memory/bitmap.cpp:11-14 | bit k is in byte k / 8, and the first bit of a byte is its most significant one |
| `Bitmaps.GuardAdmitsOnePastTheEnd` | Kernel/src/memory/bitmap.cpp:10-21 | the bound admits an index outside the buffer if and only if it is `Size * 8` |
| `Bitmaps.Bitmap.Get` | Kernel/src/memory/bitmap.cpp:9-18 | reads the abstract bit, and false outside the bound |
| `Bitmaps.Bitmap.Set` | Kernel/src/memory/bitmap.cpp:20-30 | updates one abstract bit, or refuses outside the bound and changes nothing |
| `FrameLedger.RequestTakesLowest` | Kernel/src/memory/pageFrameAllocator.cpp:64-82 | whatever the hint is, the lowest-numbered free page is handed out and only its bit changes; nothing changes exactly when no page is free |
| `FrameLedger.RequestNull` | Kernel/src/memory/pageFrameAllocator.cpp:64-82 | a zero result means every page is taken, or page 0 was free |
| `FrameLedger.ApplyManyBits` | Kernel/src/memory/pageFrameAllocator.cpp:127-181 | a multi-page call writes the bits of its range and no others |
| `FrameLedger.RequestRunSound` | Kernel/src/memory/pageFrameAllocator.cpp:97-125 | the pages of a run handed out were all free and are all locked, as far as the bitmap covers them, and no other bit changed |
| `FrameLedger.RequestRunLeavesTheBitmap` | Kernel/src/memory/pageFrameAllocator.cpp:97-125 | a bitmap of one byte from which a request for two pages gets a run past the end |
| `FrameLedger.RunsStayInsideExactly` | Kernel/src/memory/pageFrameAllocator.cpp:97-125 | requests of every size stay inside the bitmap if and only if its last page or the bit past it reads as taken, or the scan's stride makes it miss that last page; requests of bounded size likewise, for bitmaps of no more bits than the bound |
| `FrameLedger.RunBalanced` | Kernel/src/memory/pageFrameAllocator.cpp:64-181 | after any run of calls, used + reserved equals 4096 times the set bits and free the rest, modulo 2^64, if and only if no call writes the bit past the bitmap or the last one that does leaves it as it was |
| `FrameLedger.CallBalanced` | Kernel/src/memory/pageFrameAllocator.cpp:64-181 | the same for one call |
| `FrameLedger.RequestsBalanced` | Kernel/src/memory/pageFrameAllocator.cpp:64-125 | a request for a run unbalances the counters exactly when the run leaves the bitmap, a request for a page never |
| `FrameLedger.LockPastTheEndUnbalances` | Kernel/src/memory/pageFrameAllocator.cpp:133-141 | one lock just past the bitmap unbalances the counters |
| `FrameCounters.StepCounters` | Kernel/src/memory/pageFrameAllocator.cpp:64-181 | every call moves 4096 times the bits it changes between free memory and one counter, reserved memory for reserving and unreserving calls and used memory for all others, and leaves the third as it was |
| `FrameCounters.RunCounters` | Kernel/src/memory/pageFrameAllocator.cpp:64-181 | so after any run of calls each counter has moved by what its own calls took |
| `FrameCounters.ClaimCounters` | Kernel/src/memory/pageFrameAllocator.cpp:14-62 | after the memory map is read, reserved memory is 4096 times the pages of reserved entries and the first 0x100, used memory 4096 times the bitmap's own other pages, free memory the rest |
| `FrameLedger.RunNeverHandsOut` | Kernel/src/memory/pageFrameAllocator.cpp:64-181 | no run of calls hands out a page that was taken at the start, unless a call of the run released it |
| `MemoryMap.TotalConcat` | Kernel/src/memory/memory.cpp:3-10 | the total counts entries of every kind once, whatever their order, modulo 2^64 |
| `MemoryMap.BitmapCoversTotal` | Kernel/src/memory/pageFrameAllocator.cpp:39-43 | the bitmap has a bit for every page that the total amounts to, and at most one byte more |
| `MemoryMap.LargestIsLongest` | Kernel/src/memory/pageFrameAllocator.cpp:14-36 | the segment that gets the bitmap is the first of greatest length among the usable and the reclaimable ones; there is none only where those have no memory |
| `MemoryMap.ClaimedPages` | Kernel/src/memory/pageFrameAllocator.cpp:14-62 | exactly which in-range bits are set after the memory map is read |
| `MemoryMap.CountReachesWholeRange` | Kernel/src/memory/pageFrameAllocator.cpp:14-54 | the page count covers an entry's whole range if and only if the range does not spill into one more page |
| `MemoryMap.UnalignedRangeLeavesAPage` | Kernel/src/memory/pageFrameAllocator.cpp:14-54 | an unaligned range whose last page is missed |
| `MemoryMap.EntryReachesWholeRange` | Kernel/src/memory/pageFrameAllocator.cpp:46-50 | so it is with the pages reserved for an entry |
| `MemoryMap.ReservedBytesAreTaken` | Kernel/src/memory/pageFrameAllocator.cpp:14-181 | after the map is read every page in range that shares a byte with a page-aligned reserved entry is taken, and no later run hands it out that has not released it |
| `MemoryMap.ClaimedPagesAreNeverHandedOut` | Kernel/src/memory/pageFrameAllocator.cpp:14-181 | pages claimed by the memory map are handed out by no later run that has not released them |
| `MemoryMap.ClaimBalanced` | Kernel/src/memory/pageFrameAllocator.cpp:14-62 | reading the map leaves balanced counters if and only if memory held a one past the bitmap, or neither a reserved entry nor the first 0x100 pages nor the bitmap's own pages include the page that bit stands for |
| `MemoryMap.ReservedPastTheEndUnbalances` | Kernel/src/memory/pageFrameAllocator.cpp:14-62 | a memory map whose reserved entry includes that page |
| `PageFrameAllocators.PageFrameAllocator.LockPage` | Kernel/src/memory/pageFrameAllocator.cpp:133-141 | the object's new state is the ledger's, with wrap-around and the guard on pages already taken |
| `PageFrameAllocators.PageFrameAllocator.FreePage` | Kernel/src/memory/pageFrameAllocator.cpp:84-94 | likewise, with the hint lowered |
| `PageFrameAllocators.PageFrameAllocator.ReservePage` | Kernel/src/memory/pageFrameAllocator.cpp:167-175 | likewise |
| `PageFrameAllocators.PageFrameAllocator.UnreservePage` | Kernel/src/memory/pageFrameAllocator.cpp:149-159 | likewise |
| `PageFrameAllocators.PageFrameAllocator.LockPages` | Kernel/src/memory/pageFrameAllocator.cpp:143-147 | the loop performs the ledger's multi-page call |
| `PageFrameAllocators.PageFrameAllocator.ReservePages` | Kernel/src/memory/pageFrameAllocator.cpp:177-181 | likewise |
| `PageFrameAllocators.PageFrameAllocator.FreePages` | Kernel/src/memory/pageFrameAllocator.cpp:127-131 | likewise |
| `PageFrameAllocators.PageFrameAllocator.UnreservePages` | Kernel/src/memory/pageFrameAllocator.cpp:161-165 | likewise |
| `PageFrameAllocators.PageFrameAllocator.RequestPage` | Kernel/src/memory/pageFrameAllocator.cpp:64-82 | both loops together compute the ledger's request, about which RequestTakesLowest speaks |
| `PageFrameAllocators.PageFrameAllocator.RequestPages` | Kernel/src/memory/pageFrameAllocator.cpp:97-125 | the scan with its skips computes the ledger's run request, about which RequestRunSound speaks |
| `PageFrameAllocators.PageFrameAllocator.ReadMemoryMap` | Kernel/src/memory/pageFrameAllocator.cpp:14-54 | the loops leave the ledger's claimed state, about which ClaimedPages speaks |
| `PageFrameAllocators.PageFrameAllocator.InitBitmap` | Kernel/src/memory/pageFrameAllocator.cpp:56-62 | every byte of the bitmap is cleared |
| `PageFrameAllocators.PageFrameAllocator.GetAllFreeMemory` | Kernel/src/memory/memory.cpp:3-10 | the sum of all entries' lengths, computed once |
| `Paging.AddressRoundTrip` | Kernel/src/memory/paging.cpp:20-28 | a stored address reads back if and only if it has at most 40 bits, and the low flags stay |
| `Paging.SetFlagSetsOne` | Kernel/src/memory/paging.cpp:7-13 | setting a flag gives it its value and leaves every other flag as it was |
| `Paging.GetFlagExactly` | Kernel/src/memory/paging.cpp:15-18 | what `GetFlag` reads equals a flag on all entries if and only if the flag is Present |
| `Paging.FlagPositions` | Kernel/include/paging.h:5-17 | the bit position of every flag |
| `Paging.PageDirectoryEntry.SetFlag` | Kernel/src/memory/paging.cpp:7-13 | afterwards the flag has the value asked for and every other flag the one it had |
| `Paging.PageDirectoryEntry.GetFlag` | Kernel/src/memory/paging.cpp:15-18 | reads the Present bit whatever flag is asked for |
| `Paging.PageDirectoryEntry.SetAddress` | Kernel/src/memory/paging.cpp:24-28 | the address read back is the one stored modulo 2^40, the same one exactly for at most 40 bits; the low 12 bits and the high field stay |
| `Paging.AddressMasks` | Kernel/src/memory/paging.cpp:20-28 | on 64-bit words the masks, shifts and ORs of the source are this arithmetic |
| `Paging.FlagMasks` | Kernel/src/memory/paging.cpp:7-13 | likewise for the masks of `SetFlag` |
| `Paging.LinkedEntry` | Kernel/src/memory/PageTableManager.cpp:20-33 | linking a table changes the address and the two low flags of an entry and nothing else |
| `Paging.PageMapIndexer.constructor` | Kernel/src/memory/PageMapIndexer.cpp:3-12 | the shifts give the four indices |
| `Paging.PathDigits` | Kernel/src/memory/PageMapIndexer.cpp:3-12 | the four indices are the base-512 digits of the page number |
| `Paging.PathIsPage` | Kernel/src/memory/PageMapIndexer.cpp:3-12 | two addresses share all indices if and only if they agree in bits 12 to 47 |
| `Paging.EveryPathIsAPage` | Kernel/src/memory/PageMapIndexer.cpp:3-12 | every four indices into tables are those of one page |
| `Paging.LargePages` | Kernel/include/paging.h:12 | how the processor reads an entry with this flag: a large page, mapped as a whole |
| `PageTree.TranslateIsLeaf` | Kernel/src/memory/PageTableManager.cpp:16-72 | in a proper tree the processor's four-level walk is one lookup in a flat map |
| `PageTree.GrowKeepsTree` | Kernel/src/memory/PageTableManager.cpp:20-33 | linking a free, locked, cleared frame into an empty entry keeps the tree proper and adds one table |
| `PageTree.SetLeafKeepsTree` | Kernel/src/memory/PageTableManager.cpp:66-72 | writing a last-level entry keeps the tree and changes one page |
| `PageTree.NamedIsReachable` | Kernel/src/memory/PageTableManager.cpp:16-72 | the tables of a proper tree are exactly those reachable from the root |
| `MapMemory.MapKeepsTreeExactly` | Kernel/src/memory/PageTableManager.cpp:16-72 | mapping keeps a proper tree if and only if there are as many free frames as tables missing on the way |
| `MapMemory.MapTranslates` | Kernel/src/memory/PageTableManager.cpp:16-72 | afterwards the page translates to the frame, and every page differing in bits 12 to 47 as before |
| `MapMemory.MapWritesOnlyTables` | Kernel/src/memory/PageTableManager.cpp:16-72 | no frame outside the tables is written |
| `AddressSpace.RunKeepsTreeExactly` | Kernel/src/memory/PageTableManager.cpp:16-72 | for every run of mappings and allocator calls: a proper tree after each step if and only if mappings find their frames and no call releases page 0 or the page of a table |
| `AddressSpace.ActKeepsTreeExactly` | Kernel/src/memory/pageFrameAllocator.cpp:64-181 | the same for one act: an allocator call keeps the tree proper if and only if it releases none of those pages |
| `AddressSpace.RunRefinesFlat` | Kernel/src/memory/PageTableManager.cpp:16-72 | every such run translates all addresses as a flat map updated page by page |
| `AddressSpace.EmptyTree` | Kernel/src/kernel.cpp:57-61 | a cleared, locked root table is a proper tree that maps nothing |
| `AddressSpace.NullTableBreaksTree` | Kernel/src/memory/PageTableManager.cpp:20-33 | a system without a free page on which the first mapping links page 0 into the tree |
| `AddressSpace.MappingsFitExactly` | Kernel/src/memory/PageTableManager.cpp:20-64 | a run of mappings fits if and only if the free frames are at least the distinct tables its pages lack |
| `PageTableManagers.PageTableManager.NextTable` | Kernel/src/memory/PageTableManager.cpp:20-33 | one level of the walk, with allocation, clearing and linking, computes the model's step |
| `PageTableManagers.PageTableManager.MapMemory` | Kernel/src/memory/PageTableManager.cpp:16-72 | the whole walk in place computes the model's map, about which MapTranslates speaks |
| `KernelBoot.MemoryIsMappedTwice` | Kernel/src/kernel.cpp:63-70 | after the first two loops memory, a partial last page included, is mapped to itself if and only if it ends by 2^47 bytes; its whole pages are then also mapped at the higher half |
| `KernelBoot.BootTranslates` | Kernel/src/kernel.cpp:63-80 | after all loops each byte of memory translates from its own address, and those of whole pages from the higher half, unless a protected range names that page |
| `KernelBoot.BootMapsRanges` | Kernel/src/kernel.cpp:72-80 | after all loops each page of a protected range that no later step names leads, writable, to the frame of `physicalBase + v - virtualBase` modulo 2^64 |
| `KernelBoot.BootFitsExactly` | Kernel/src/kernel.cpp:63-80 | from a cleared root the boot loops keep the tree proper exactly when the free frames are at least the distinct tables needed |
| `KernelBoot.MapIdentity` | Kernel/src/kernel.cpp:63-65 | the loop performs the identity mappings of the model |
| `KernelBoot.MapHigherHalf` | Kernel/src/kernel.cpp:67-70 | the loop performs the higher-half mappings |
| `KernelBoot.MapPmrs` | Kernel/src/kernel.cpp:74-80 | the nested loops perform the mappings of the protected ranges |
| `KernelBoot.MapAtBoot` | Kernel/src/kernel.cpp:63-80 | the loops in order perform the boot run, about which BootTranslates speaks, and leave every protected range leading to the kernel as BootMapsRanges says |
| `KernelStarts.KernelLockIsEmpty` | linker.ld:24-25 | locking pages from `_KernelStart` on, a link address, changes nothing |
| `KernelStarts.BootBitsExactly` | Kernel/src/kernel.cpp:49-55 | so the pages taken when the kernel asks for its first table are exactly those of the memory map |
| `KernelStarts.KernelPageHandedOut` | Kernel/src/kernel.cpp:49-57 | a memory map on which the first page of the kernel becomes that table |
| `KernelStarts.RootExactly` | Kernel/src/kernel.cpp:49-61 | after the memory map is read, the table requested and cleared is a proper tree that maps nothing, above the first 0x100 pages, if and only if a page is free; else it is page 0 |
| `KernelStarts.BootExactly` | Kernel/src/kernel.cpp:49-80 | from the memory map to the last mapping, the tree is proper throughout if and only if the free pages are at least one more than the distinct tables needed; then protected ranges lead to the kernel, and every byte of memory is reached from its own address, those of whole pages from the higher half too, unless a protected range names the page |
| `KernelStarts.StartPaging` | Kernel/src/kernel.cpp:57-80 | request, clearing and all loops in place perform that boot, and protected ranges lead to the kernel at its end |
| `HeapWindows.HeapPagesAreFresh` | Kernel/src/memory/heap.cpp:10-16 | every page mapped for the heap leads to a frame that was free before, is locked now and holds no table, and no two of them to the same one |
| `HeapWindows.TablesReachableExactly` | Kernel/src/memory/heap.cpp:10-16 | after pages are mapped for the heap, every table is still found at its physical address if and only if none lies among the heap's page numbers and all were mapped to themselves before |
| `HeapWindows.HeapHidesTablesExactly` | Kernel/src/kernel.cpp:63-88 | after boot and any number of heap pages from 0x1000000 on: `MapMemory` still finds every table if and only if all lie below the end of memory and none in that window |
| `KernelStarts.RootInHeapWindow` | Kernel/src/kernel.cpp:49-88 | a memory map on which the outermost table lies where the window begins |
| `HeapWindows.RootInWindowIsLost` | Kernel/src/kernel.cpp:57-88 | such a table is lost to `MapMemory` |
| `HeapSegments.TakenSegment` | Kernel/src/memory/heap.cpp:41-53 | a segment is cut in two if and only if 16 bytes and a header would be left over, and the block then has exactly the size asked for |
| `HeapSegments.GrowthReducesShortage` | Kernel/src/memory/heap.cpp:57-58 | each expansion brings the last segment nearer to fitting, which is why `malloc` ends |
| `HeapSegments.PagesBounded` | Kernel/src/memory/heap.cpp:31-60 | how much the heap can grow for one block |
| `HeapSegments.PagesExactly` | Kernel/src/memory/heap.cpp:31-60 | and exactly how many pages one block costs: none if a segment fits, else the pages that a free last segment lacks, or those for one header more behind a segment in use; whole pages once, or twice |
| `HeapSegments.FreeUndoesTake` | Kernel/src/memory/heap.cpp:80-85 | freeing a block just taken restores every segment |
| `HeapSegments.FreeUndoesAlloc` | Kernel/src/memory/heap.cpp:31-85 | freeing what `malloc` returned leaves exactly the grown heap |
| `HeapBlocks.BlocksDisjoint` | Kernel/src/memory/heap.cpp:31-60 | live blocks are disjoint, 16-byte aligned and inside the heap |
| `HeapBlocks.TakeAddsBlock` | Kernel/src/memory/heap.cpp:44-53 | `malloc` adds exactly the block it returns |
| `HeapBlocks.FreeRemovesBlock` | Kernel/src/memory/heap.cpp:80-85 | `free` removes exactly the block it is given |
| `HeapBlocks.RunKeeps` | Kernel/src/memory/heap.cpp:31-146 | on segments: after any run whose `malloc` calls survive, all lengths are multiples of 16, no two neighbours are free, and the heap has grown by exactly the pages that the run mapped |
| `HeapBlocks.RunKeepsBlock` | Kernel/src/memory/heap.cpp:31-146 | on segments: a block keeps its place and length through every such run that does not free it |
| `HeapBlocks.FewPagesSurvive` | Kernel/src/memory/heap.cpp:31-146 | every `malloc` of every run, however long, survives int32_t where the heap's pages and those left come to less than 2^31 bytes |
| `HeapSegments.LargeSegmentTruncates` | Kernel/src/memory/heap.cpp:87-90 | a segment whose rest does not survive int32_t |
| `HeapMemory.RepresentationUnique` | Kernel/src/memory/heap.cpp:10-29 | memory determines the segments it represents |
| `HeapMemory.SplitExactly` | Kernel/src/memory/heap.cpp:87-103 | when `Split` as written keeps the heap well formed, exactly; repaired, it cuts the segment in two |
| `HeapMemory.SlipsAsWritten` | Kernel/src/memory/heap.cpp:93-137 | what the slips write: word 16 and the segment's own `last` get the new header, and LastHdr stays |
| `HeapMemory.MergeExactly` | Kernel/src/memory/heap.cpp:132-142 | the same for `CombineForward` |
| `HeapMemory.ReleaseExactly` | Kernel/src/memory/heap.cpp:80-146 | the same for `free`, which repaired merges with free neighbours on both sides |
| `HeapPayload.ExpandExactly` | Kernel/src/memory/heap.cpp:105-130 | the same for `ExpandHeap` |
| `HeapPayload.TakeExactly` | Kernel/src/memory/heap.cpp:44-53 | the same for taking the segment found, also when its rest does not fit int32_t |
| `HeapPayload.FirstMallocAsWritten` | Kernel/src/memory/heap.cpp:31-53 | as written, the first `malloc` that leaves room for another segment takes the only one and breaks the heap |
| `HeapPayload.InitialRepresents` | Kernel/src/memory/heap.cpp:10-29 | the heap starts as one free segment |
| `HeapPayload.TakeKeepsPayloads` | Kernel/src/memory/heap.cpp:44-53 | taking a segment changes no word of any live block, in either variant |
| `HeapPayload.ReleaseKeepsPayloads` | Kernel/src/memory/heap.cpp:80-146 | nor does `free`, of any block that stays |
| `HeapPayload.ExpandKeepsPayloads` | Kernel/src/memory/heap.cpp:105-130 | nor does `ExpandHeap` |
| `HeapRuns.AllocateExactly` | Kernel/src/memory/heap.cpp:31-60 | `malloc`, repaired, keeps the heap well formed if and only if the rest of the segment it takes survives int32_t; it writes no word of any block |
| `HeapRuns.RunStaysWellFormedExactly` | Kernel/src/memory/heap.cpp:31-146 | in memory: the heap is well formed after every step of a run of `malloc`, `free`, `ExpandHeap` and stores into held blocks if and only if every `malloc` of the run survives int32_t |
| `HeapRuns.RunRepresents` | Kernel/src/memory/heap.cpp:31-146 | after every such run the words represent the segments that it leaves, with `last` the inverse of `next` and LastHdr the final header |
| `HeapRuns.RunKeepsWord` | Kernel/src/memory/heap.cpp:31-146 | no such run changes a word of a block held throughout, except by a store to that word |
| `HeapRuns.LastStoreIsRead` | Kernel/src/memory/heap.cpp:31-146 | what a caller stores in its block is what it reads there until it stores anew or frees the block |
| `HeapRuns.FewPagesAreReady` | Kernel/src/memory/heap.cpp:31-146 | the bound known before a run: where the heap's pages and those left come to less than 2^31 bytes, a heap is ready for every run that the pages left suffice for |
| `HeapRuns.InitialIsReady` | Kernel/src/memory/heap.cpp:10-29 | so is the first heap |
| `HeapsAsWritten.ReturnsExactly` | Kernel/src/memory/heap.cpp:31-130 | as written, `malloc` on a well formed heap returns if and only if a segment fits at once, the block is whole pages, or one page more makes a free last segment fit, or two pages one in use; else it expands the heap for ever |
| `HeapsAsWritten.SeventeenPagesHang` | Kernel/src/memory/heap.cpp:31-130 | on the heap that the kernel starts with, a request for nearly 17 pages never returns |
| `KernelHeaps.KernelHeap.constructor` | Kernel/src/memory/heap.cpp:10-29 | `initializeHeap` represents one free segment over all pages |
| `KernelHeaps.KernelHeap.Split` | Kernel/src/memory/heap.cpp:87-103 | the pointer code cuts the segment in two and leaves a well formed heap exactly under the condition of SplitExactly; no block changes |
| `KernelHeaps.KernelHeap.CombineForward` | Kernel/src/memory/heap.cpp:132-142 | the chain afterwards is that of the merged segments in both variants, and the heap is well formed exactly when the last segment is not absorbed or the slip is repaired; no block changes |
| `KernelHeaps.KernelHeap.CombineBackward` | Kernel/src/memory/heap.cpp:144-146 | the same for a free predecessor |
| `KernelHeaps.KernelHeap.Free` | Kernel/src/memory/heap.cpp:80-85 | the segments afterwards are sound and merged on both sides, the heap is well formed exactly under the condition of ReleaseExactly, and no word of a block that stays changes |
| `KernelHeaps.KernelHeap.ExpandHeap` | Kernel/src/memory/heap.cpp:105-130 | rounding, the mapping loop and the appended header grow the segments, exactly under the condition of ExpandExactly; no block changes |
| `KernelHeaps.KernelHeap.FindSegment` | Kernel/src/memory/heap.cpp:39-56 | the search finds the first segment that fits, or the end of the list |
| `KernelHeaps.KernelHeap.Malloc` | Kernel/src/memory/heap.cpp:31-60 | repaired, it takes the first fit after as many expansions as needed: aligned, in use, long enough, no live payload changed, and the heap well formed exactly when the rest of that segment survives int32_t |
| `BitOps.BitReverseIsFlip` | Kernel/include/ssfn.h:475-487 | the mask-and-shift reversal reverses the low bits, whatever lies above them |
| `BitStreams.BitReader.FillBits` | Kernel/include/ssfn.h:548-559 | refilling leaves at least 25 bits and never changes the abstract stream |
| `BitStreams.BitReader.Receive` | Kernel/include/ssfn.h:561-569 | returns the next n bits, least significant first, and drops exactly those |
| `CanonicalCodes.PrefixFree` | Kernel/include/ssfn.h:504-515 | no code in use is a prefix of another, for all lengths that are not oversubscribed |
| `CanonicalCodes.SameLengthInOrder` | Kernel/include/ssfn.h:517-531 | the first rule of RFC 1951, section 3.2.2: codes of one length are consecutive, in symbol order |
| `CanonicalCodes.ShorterFirst` | Kernel/include/ssfn.h:504-515 | the second rule: shorter codes precede longer ones |
| `CanonicalCodes.KraftIsEnd` | Kernel/include/ssfn.h:499-512 | the running code counter ends at the sum of the space the codes take |
| `CanonicalCodes.Coverage` | Kernel/include/ssfn.h:571-579 | a window lies below the end of one length if and only if some code up to that length matches it |
| `HuffmanTables.OneOwner` | Kernel/include/ssfn.h:524-530 | no two short codes share a slot of the fast table |
| `HuffmanTables.Huffman.FillSlots` | Kernel/include/ssfn.h:524-530 | exactly the slots that start with the code are written, and each was empty |
| `HuffmanTables.Huffman.AssignRanges` | Kernel/include/ssfn.h:503-516 | fails if and only if the codes do not fit; else the ranges are those of the canonical code |
| `HuffmanTables.Huffman.Build` | Kernel/include/ssfn.h:489-533 | succeeds if and only if the lengths are not oversubscribed, and then all tables are those of the canonical code |
| `HuffmanDecoders.DecodesWhatIsThere` | Kernel/include/ssfn.h:571-597 | a symbol is decoded if and only if its code is what the stream holds next |
| `HuffmanDecoders.DecodesNothing` | Kernel/include/ssfn.h:571-597 | decoding fails if and only if no code in use comes next |
| `HuffmanDecoders.FastHit` | Kernel/include/ssfn.h:589-595 | a fast entry is the symbol to decode, with its length |
| `HuffmanDecoders.DecodeSlowly` | Kernel/include/ssfn.h:571-583 | after an empty entry the slow path finds the symbol, or -1 |
| `HuffmanDecoders.Decode` | Kernel/include/ssfn.h:585-597 | fast table and slow path together return the unique symbol and consume exactly its code, or return -1 and consume nothing |
| `DeflateBlocks.LengthsTile` | Kernel/include/ssfn.h:618-624 | the length table is consecutive ranges from 3, of which that of symbol 284 is one too long, and 258 |
| `DeflateBlocks.DistancesTile` | Kernel/include/ssfn.h:626-630 | the distance table is consecutive ranges from 1 to 32768 |
| `DeflateBlocks.ExtraBitsRise` | Kernel/include/ssfn.h:623-630 | the extra bits of RFC 1951, section 3.2.5, which with the tilings fix both tables: one bit more for every four lengths and every two distances |
| `DeflateBlocks.BasesOfStretches` | Kernel/include/ssfn.h:618-630 | the length or distance that begins each stretch of equally many extra bits |
| `DeflateBlocks.ReservedEntries` | Kernel/include/ssfn.h:618-630 | reserved symbols stand for a length or a distance of zero without extra bits |
| `DeflateBlocks.OffTableExactly` | Kernel/include/ssfn.h:618-624 | the symbols and extra bits on the standard's table are exactly those for lengths from 3 to 258, with 258 only for symbol 285 |
| `DeflateBlocks.LengthHasSymbol` | Kernel/include/ssfn.h:618-624 | every length from 3 to 258 has a symbol and extra bits of the standard's table |
| `DeflateBlocks.LengthHasOneSymbol` | Kernel/include/ssfn.h:618-624 | and only one pair of them |
| `DeflateBlocks.DistanceHasSymbol` | Kernel/include/ssfn.h:626-630 | every distance from 1 to 32768 has one |
| `DeflateBlocks.CopyIsRepeat` | Kernel/include/ssfn.h:660-666 | the byte-by-byte copy repeats the last `distance` bytes, overlapping or not |
| `DeflateBlocks.CopyOfNothing` | Kernel/include/ssfn.h:653-665 | a reserved distance symbol appends what memory held behind the output |
| `DeflateBlocks.MoreSteps` | Kernel/include/ssfn.h:632-669 | a block that ends, ends the same way however long one waits |
| `DeflateBlocks.StandardIsDecoded` | Kernel/include/ssfn.h:632-669 | whatever sections 3.2.3 and 3.2.5 of RFC 1951 accept is decoded as they say |
| `DeflateBlocks.AgreesWithStandard` | Kernel/include/ssfn.h:632-669 | codes that cannot express a copy off the standard's tables (284 with extra bits 31, 286, 287, distances 30 and 31) are decoded as the standard says on every stream, failures included |
| `DeflateEncodings.ReservedGoesOn` | Kernel/include/ssfn.h:645-665 | for all other codes the decoder goes on in some stream where the standard fails, and accepts a whole block if the codes have an end-of-block symbol |
| `DeflateEncodings.AgreesExactly` | Kernel/include/ssfn.h:632-669 | both together: agreement on all streams if and only if the codes cannot express such a copy |
| `DeflateEncodings.NeverDone` | Kernel/include/ssfn.h:643 | codes without an end-of-block symbol accept no stream |
| `DeflateEncodings.BlockReadsBack` | Kernel/include/ssfn.h:632-669 | any literals and copies, encoded with any codes, are read back from any stream that holds them, up to exactly the last bit |
| `DeflateHeaders.ItemsReadBack` | Kernel/include/ssfn.h:690-710 | code lengths written as lengths, repeats and zero runs are read back |
| `DeflateHeaders.DezigzagIsComplete` | Kernel/include/ssfn.h:673 | the transmission order names all 19 lengths |
| `DeflateHeaders.DezigzagIsOrder` | Kernel/include/ssfn.h:673 | in the order of section 3.2.7: 16, 17, 18, 0, then outwards from 8 to both sides |
| `DeflateHeaders.HeaderReadsBack` | Kernel/include/ssfn.h:671-715 | a header is read back if and only if both parts are lengths of codes |
| `DeflateHeaders.FixedCodesValid` | Kernel/include/ssfn.h:743-753 | the fixed codes are complete |
| `DeflateHeaders.FixedCodesReachReserved` | Kernel/include/ssfn.h:743-753 | they give codes to reserved symbols |
| `DeflateHeaders.FixedLengthOf` | Kernel/include/ssfn.h:743-753 | the length of each symbol's fixed code, by the ranges of section 3.2.6 |
| `Inflaters.Inflater.CopyOut` | Kernel/include/ssfn.h:659-666 | both copying loops, the shortcut for distance one included, compute the same copy |
| `Inflaters.Inflater.ParseHuffmanBlock` | Kernel/include/ssfn.h:632-669 | appends exactly what the block stands for and ends behind its last bit; fails exactly on a missing code or a distance too far back |
| `Inflaters.Inflater.ReadCodeLengths` | Kernel/include/ssfn.h:690-711 | the run-length loop computes the model's lengths |
| `Inflaters.Inflater.ComputeHuffmanCodes` | Kernel/include/ssfn.h:671-715 | succeeds if and only if the header is well formed, and then both tables describe its codes |
| `Inflaters.Inflater.BuildFixed` | Kernel/include/ssfn.h:743-753 | the default lengths always build the tables of the fixed codes |
| `CStrings.StrLen` | Kernel/src/klib/string.cpp:3-9 | the length of the string up to its NUL, the first one there is |
| `CStrings.StrCmp` | Kernel/src/klib/string.cpp:20-28 | zero if and only if the strings are equal |
| `CStrings.StrSpn` | Kernel/src/klib/string.cpp:152-169 | the length of the leading run of accepted characters |
| `CStrings.StrPBrk` | Kernel/src/klib/string.cpp:172-183 | the first accepted character, or null |
| `CStrings.LFind` | Kernel/src/klib/string.cpp:186-192 | the first occurrence of a character |
| `CStrings.TokensAreRuns` | Kernel/src/klib/string.cpp:204-223 | tokens are nonempty and free of delimiters |
| `CStrings.StrTokR` | Kernel/src/klib/string.cpp:204-223 | the token returned and the tokens of the rest are the maximal runs of the old string |
| `Lists.LinkedList.Append` | Kernel/src/klib/list.cpp:22-32 | the list refines a sequence: one value more at the end |
| `Lists.LinkedList.Insert` | Kernel/src/klib/list.cpp:34-40 | likewise, with a new node |
| `Lists.LinkedList.Delete` | Kernel/src/klib/list.cpp:71-86 | likewise, with one value taken out anywhere |
| `Lists.LinkedList.Pop` | Kernel/src/klib/list.cpp:88-93 | the last value taken off, or null exactly on the empty list |
| `Paths.SplitUndoesJoin` | Kernel/src/fs/vfs.cpp:210-243 | splitting a canonical path gives back its component stack |
| `Paths.CanonicalIsAbsolute` | Kernel/src/fs/vfs.cpp:224-243 | every result starts with a separator |
| `Paths.NamesAndDots` | Kernel/src/fs/vfs.cpp:175-213 | a name without a slash goes down, `.` stays, `..` goes up, at the root nowhere |
| `Paths.IdempotentExactly` | Kernel/src/fs/vfs.cpp:144-252 | canonicalising again, under any working directory, changes nothing if and only if no component of the result is `.` or `..` |
| `Paths.PlainFromPlain` | Kernel/src/fs/vfs.cpp:152-172 | which is so for every input when the working directory has no such component |
| `Paths.DotsFromDots` | Kernel/src/fs/vfs.cpp:152-172 | and fails for a plain name under any other working directory |
| `Paths.PathsCompose` | Kernel/src/fs/vfs.cpp:144-252 | going to a and then to b is going to a/b |
| `Canonicalizers.PushAll` | Kernel/src/fs/vfs.cpp:152-172 | pushes the working directory's components in order |
| `Canonicalizers.ResolveAll` | Kernel/src/fs/vfs.cpp:175-213 | the loop folds the input's components over the stack |
| `Canonicalizers.Join` | Kernel/src/fs/vfs.cpp:234-243 | the joining loop fills the buffer exactly, with its NUL in the last byte |
| `Canonicalizers.CanonicalizePath` | Kernel/src/fs/vfs.cpp:144-252 | the buffer returned holds the joined stack fold of both arguments and nothing else |
| `KernelOpens.WalkFailsExactly` | Kernel/src/fs/vfs.cpp:315-336 | a lookup fails if and only if some step fails after all steps before it succeeded |
| `KernelOpens.OnlyDirectoriesHaveEntries` | Kernel/src/fs/vfs.cpp:50-57 | a path through a node that is no directory, or whose driver has no lookup, finds nothing; any other step is the driver's answer |
| `KernelOpens.OpenBelow` | Kernel/src/fs/vfs.cpp:259-337 | opening a/b looks b up below what a opens, for every b that never goes up further than where it started |
| `KernelOpens.OpenBelowExactly` | Kernel/src/fs/vfs.cpp:175-337 | and for all drivers and starting points exactly for such b, since `..` is resolved without a lookup |
| `KernelOpens.CutPath` | Kernel/src/fs/vfs.cpp:287-299 | every separator becomes a NUL, and the depth counts them |
| `KernelOpens.Search` | Kernel/src/fs/vfs.cpp:310-337 | the search through the cut buffer is the lookup of the components joined there |
| `KernelOpens.KernelOpen` | Kernel/src/fs/vfs.cpp:259-337 | equals the lookup of the canonical components from the root; null without a file system or a name |
| `Ext2Blocks.SlotExactly` | Kernel/src/fs/ext2_initrd.cpp:322-340 | the code's slot is that of the ext2 layout if and only if the block is not doubly indirect or a block holds 256 pointers |
| `Ext2Blocks.FirstDoubleMissed` | Kernel/src/fs/ext2_initrd.cpp:322-340 | with 512 pointers in a block the first doubly indirect block is already missed |
| `Ext2Blocks.SlotsDistinct` | Kernel/src/fs/ext2_initrd.cpp:322-340 | each logical block has a slot of its own |
| `Ext2Blocks.CodeCountsOn256` | Kernel/src/fs/ext2_initrd.cpp:322-340 | behind the singly indirect blocks the code has the slots of the layout with 256 pointers |
| `Ext2Blocks.BlockSizeDoubles` | Kernel/src/fs/ext2_initrd.cpp:345-346 | blocks of 1 KiB, doubled for every step of the logarithm |
| `Ext2Blocks.U32IsLittleEndian` | Kernel/src/fs/ext2_initrd.cpp:328-337 | the four bytes of a number, least significant first, are read back as that number |
| `Ext2Blocks.AddressExactly` | Kernel/src/fs/ext2_initrd.cpp:342-347 | the 32-bit product finds a block if and only if it does not wrap around |
| `Ext2Blocks.ReachIsAgreement` | Kernel/src/fs/ext2_initrd.cpp:322-340 | the slots in reach are exactly those at which code and layout find the same block |
| `Ext2Blocks.BytesAgree` | Kernel/src/fs/ext2_initrd.cpp:322-347 | within reach, with pointers that are not null and do not wrap, each byte of the file is found where the layout has it |
| `Ext2Blocks.DirectExactly` | Kernel/src/fs/ext2_initrd.cpp:326-347 | for direct blocks that is exact: whatever memory holds, code and layout agree if and only if the pointer is not null and its product does not wrap |
| `Ext2Blocks.HoleIsMisread` | Kernel/src/fs/ext2_initrd.cpp:322-347 | a hole reads as the start of the image instead of zeros |
| `Ext2Blocks.NothingBehindNull` | Kernel/src/fs/ext2_initrd.cpp:322-340 | in the layout, whatever lies behind a null pointer is a hole |
| `Ext2Readers.CountExactly` | Kernel/src/fs/ext2_initrd.cpp:36-46 | the 32-bit count is what there is to read if and only if the offset is in the file and the sum does not wrap to a place in it |
| `Ext2Readers.ReadPastTheEnd` | Kernel/src/fs/ext2_initrd.cpp:36-46 | a request one byte past an empty file has a count of 2^32 - 1 |
| `Ext2Readers.ReadInitrd` | Kernel/src/fs/ext2_initrd.cpp:29-65 | the first n bytes of the buffer are the file's from the offset and the rest is unchanged, over any number of blocks |
| `Ext2Readers.ReadIsSlice` | Kernel/src/fs/ext2_initrd.cpp:29-65 | under the conditions of BytesAgree they are a slice of the file as ext2 lays it out |
| `Ext2Directories.ChainEnds` | Kernel/src/fs/ext2_initrd.cpp:141-159 | with nonzero lengths a walk meets each record once and ends after them |
| `Ext2Directories.StuckAtZero` | Kernel/src/fs/ext2_initrd.cpp:141-159 | a record of length zero is never left |
| `Ext2Directories.EndsOnlyInChains` | Kernel/src/fs/ext2_initrd.cpp:141-159 | a walk that ends has met only nonzero lengths |
| `Ext2Directories.FindRecord` | Kernel/src/fs/ext2_initrd.cpp:136-165 | finds the record at the least index with the name; none if and only if no index has it |
| `Ext2Directories.GetDirEntry` | Kernel/src/fs/ext2_initrd.cpp:349-369 | the record with the index, or null; in a block that holds a list of files, that of the file with the index |
| `Ext2Directories.WholeName` | Kernel/src/fs/ext2_initrd.cpp:150-152 | a name without NULs is compared as a whole |
| `Ext2Directories.FieldsReadBack` | Kernel/include/ext2.h:140-146 | inode number, record length and name are read back from the bytes of a record |
| `Ext2Directories.DirectoryIsChain` | Kernel/src/fs/ext2_initrd.cpp:141-159 | in a block that holds the records of a list of files, the walks meet exactly those, in order |
| `Ext2Directories.FindDirInitrd` | Kernel/src/fs/ext2_initrd.cpp:126-171 | the inode number of that record, over the directory's first block; in a block that holds the records of a list of files, it is the number of the first file with the name, and there is none exactly when no file has it |
| `Numbers.ReadUndoesPrint` | Kernel/src/klib/Utils.cpp:5-51 | reading back what was printed gives the number, for every base and every number of extra zeros |
| `Numbers.ReadUndoesPrintSigned` | Kernel/src/klib/Utils.cpp:53-62 | likewise for signed numbers, the most negative one included |
| `Numbers.PrintedShape` | Kernel/src/klib/Utils.cpp:5-51 | exactly the extra zeros asked for, then lower-case digits below the base, the first of them not zero; the number zero is one digit |
| `Numbers.DigitCount` | Kernel/src/klib/Utils.cpp:14-37 | a number below 2^b has at most b digits, so 32-bit numbers fit the scratch buffer |
| `Numbers.PrintUnsigned` | Kernel/src/klib/Utils.cpp:5-51 | the digit, zero and reversing loops write exactly the printed number and a NUL |
| `Numbers.PrintSigned` | Kernel/src/klib/Utils.cpp:53-62 | likewise with the sign |

## Left out

- KernelHeaps.KernelHeap.Malloc: stated for the repaired variant only; as written, `ReturnsExactly` says when it returns and `TakeExactly` and `ExpandExactly` when its parts keep the heap well formed, each from a well formed heap.
- KernelHeaps.KernelHeap.MapPages: the frames that `ExpandHeap` maps are a number of pages left, and their contents are arbitrary; the page tables behind them are part 1.
- HeapRuns.RunRepresents: for the repaired variant; pages for `ExpandHeap` do not run out, stores are of aligned words, and `ExpandHeap(0)`, which writes a header behind the heap, is not among the calls.
- HeapMemory.Split: memory is a map of 64-bit words that reads as zero where nothing was written; a null `next` is word 16 of the mapped page 0.
- Inflaters.Inflater.ParseHuffmanBlock: speaks of blocks that end after some number of symbols; a stream without an end-of-block symbol keeps the source's loop going.
- Inflaters.Inflater.CopyOut: the output grows without bound; `_ssfn__zexpand`, the declared size and the checks against `zout_end` are not modelled.
- Canonicalizers.CanonicalizePath: component copies are immutable strings on the list, since nothing writes to them, and `realloc` at vfs.cpp line 232 yields a new buffer of two bytes.
- KernelOpens.KernelOpen: drivers are a function from a node and a name; copies of nodes, `open_fs` and the freeing of memory have no effect in the model.
- Ext2Blocks.BytesAgree: for indirect blocks its condition is sufficient only, since the pointers on the way are themselves file-system bytes that can agree by chance.
- Ext2Readers.ReadInitrd: requires the condition of `CountExactly`, outside of which the source writes past the buffer; block numbers times block size wrap at 2^32 as in the source.
- Ext2Directories.FindRecord: a directory is one block with nonzero record lengths, as in the source.
- PageFrameAllocators.PageFrameAllocator.LockPages: pages are below 2^19, because `t * 4096` is an `int` in the source.
- PageTableManagers.PageTableManager.MapMemory: physical memory is indexed by frame, so the higher-half offset through which tables are written is not modelled, and the bitmap's own pages are apart from the tables.
- `calloc`, `realloc`, `memmove`, `list_copy`, `list_merge`, `list_remove`, `rfind`: unfinished in the source.
- Stored DEFLATE blocks, the loop over blocks, and gzip headers.
- `initrd_node_from_file`, `readdir_initrd`, the file-creation calls and mounting: copies of fields.
- Float printing, `vkprint`, ports, interrupts, PCI, AHCI, ACPI, graphics and assembly.
- TLBs, CR3 and concurrency: execution is sequential.
