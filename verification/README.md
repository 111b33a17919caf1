# NembusOS, verified in Dafny

NembusOS is a small 32-bit kernel. This project models the parts of it that manage memory and
keep state, and proves what they promise.

- **Kernel heap** (`HeapModel`, `HeapAlloc`, `HeapServe`, `HeapGrow`, `HeapTraces`, `HeapFree`,
  `HeapSettle`, `HeapFreeSound`, `HeapFreeLaws`, `HeapPristine`, `HeapRuns`, `HeapExamples`,
  `KernelHeap`, with `OrderedArray`): headers and footers as bytes in raw memory, an index of holes
  sorted by a key that lives in that memory, carving, growth by recursion, coalescing, contraction.
- **First-fit allocator** (`FreeList`): the linked list of blocks of `memory.c`.
- **Frames and address spaces** (`Frames`, `Spaces`, `SpaceLaws`, `FrameZero`, `Paging`): the frame bitmap, page
  tables, `clone_directory`, and the mapping loops of the boot.
- **Tasks** (`Tasks`, `MoveStack`): the round-robin queue, and the relocation of a live stack.
- **Ramdisk** (`Ramdisk`, `Initrd`): the program that writes the image and the kernel code that reads it.
- **Console** (`Console`): video memory as the end of a log of lines.
- **Tokenizer** (`Tokenizer`): the destructive `strtok` with its static pointer.

`Bytes` holds raw memory itself: bytes, little-endian words, `memcpy` and `memset`; `Options` a value
that may be missing.

Objects that the kernel updates in place are classes; each of their methods is proved equal to a
function on values (`Carve`, `Freed`, `Allocated`, `CloneDirectory`, `After`, `Tok`, ...), and what
the kernel promises is proved about those functions, mostly for whole runs. A failed `ASSERT` halts
the kernel: the method answers `ok == false`. Where the model shows that an assertion cannot fail,
the method asserts it.

## What is true of the code, and what is not

The code is modelled as it is. These findings limit what can be promised. Each names the theorem that
states it and, for the main ones, a concrete input where the code fails.

- The scrub loop of `free` damages the footer of the block it frees (`ScrubTags`), and the right merge
  keeps a footer that leads to the swallowed header (`RightMergeGoesStale`). `free` of the block at h follows such a stale footer when
  the word in front of h is the magic number, the header it leads to has its hole flag set, and that
  header is not the one of the region that ends at h (`LeftStale`).
- `free` leaves a heap that has a sound reading if and only if the call is `Harmless`
  (`FreeSoundIff`), which can be checked before the call. Clear of the end of the heap: no stale
  footer is followed on behalf of a block without payload. Where the freed hole reaches the end, a
  stale footer is harmless only if the heap is cut exactly in front of the block; without one, the
  hole must start at most HEAP_MIN_SIZE - 20 bytes into the heap, or be one the index had lost, start
  on a page boundary an even number of pages into the heap, and be cut off as a whole. Six calls and
  five calls on a fresh heap lead to releases that are not harmless, of an empty block and of the last
  block (`EmptyCanSpoil`, `EndCanSpoil`).
- Runs are safe under a condition on the calls alone (`OrdinaryRunIsSafe`): requests for at least one
  byte, releases of live blocks that stay clear of the end of the heap, writes of owners. Growth must
  find its top hole at the end and page-aligned requests divisible holes, as told below. Such a run
  ends early only where an assertion halts the kernel. With requests for nothing and releases at the
  end, runs are safe as long as each release is harmless (`RunIsSafe`).
- A block that is released behind a stale footer, clear of the end, becomes a hole that the index
  never lists again, in any run (`StaleIsLostForGood`, `RunKeepsLost`); two releases in order of
  address are enough for that (`TwoReleasesLose`). As long as no stale footer is followed, the index
  lists exactly the holes (`RunKeepsIndex`).
- `free` trips the assertion in line 339 of `kheap.c` if and only if the bytes behind the block pass
  for the header of a hole that is not in the index (`HaltsIff`); so releasing the block in front of a
  lost hole halts the kernel (`LostHalts`). Eight calls on a fresh heap lead there (`FreeCanHalt`).
- A page-aligned request is served correctly if and only if the hole starts at most 0xFE0 bytes into
  its page and what is left behind the block is nothing or at least 20 bytes (`AlignedServesIff`, about
  the memory that the stores leave). From 0xFE1 to 0xFEB bytes into the page the footer of the front
  part is stored over the size that the code reads back. One request on a fresh heap leaves a hole at
  0xFE4 (`AlignedCanSpoil`).
- Growth stretches the hole at the highest address even when it does not reach the end of the heap;
  the heap has a sound reading with all other regions afterwards if and only if it does
  (`GrowSoundIff`). Three calls on a fresh heap leave a block behind that hole (`GrowCanSpoil`).
- The index is sorted by size only as long as no indexed hole grows: an insertion keeps it sorted
  (`CarveKeepsSorted`, `FreeKeepsSorted`), but a left merge and the growth of the heap enlarge a hole
  where it stands, and the index stays sorted exactly when that hole is not larger than the next one
  (`LeftMergeSortedIff`, `GrowSortedIff`). Best fit (`FirstFitIsBestFit`) holds while it is sorted.
- When contraction leaves nothing of a hole, `free` looks for the wrong header in the index and never
  finds it, so the hole stays indexed if it was (`NothingToForget`).
- All the failing runs above can be made in the heap that `initialise_paging` creates (`KernelHeapCanFail`).
- With all tags intact `free` does what it is for: it never halts, and unless the hole reaches the end
  and starts too late, it leaves one maximal hole in a heap whose index is exact (`PristineFree`).
- `create_heap` and `expand` round up by a page even when the address is on a page boundary.
- `free_frame` passes a frame number where `clear_frame` expects an address, so it clears the bit of
  frame 0 and never gives a frame back (`FreedFrameStaysInUse`); a page that is freed and allocated
  again is present in frame 0 (`FreeThenAlloc`). Ownership of frames holds regardless
  (`RunKeepsOwned`). But the next clone that copies a page then overwrites frame 0 with it
  (`CloneOverwritesZero`), and its source reads differently exactly through present pages in frame 0,
  where the words differ (`SourceReadsAlike`).
- With bit 0 set, a clone reads like its source at an address if and only if the address is in a shared table or its
  page is present exactly when it has a nonzero frame (`CloneReadsLikeSource`; `CloneCanDiffer` has a
  page that is present in frame 0).
- A file whose name another file in front of it has, or that is called `dev`, cannot be looked up;
  every other can (`FindsByName`; `FilesCanHide`).

## Model

| member | source | states |
|---|---|---|
| Bytes.MemCpy | src/impl/memory.c:20-25 | copying upwards is right for regions that are apart and for overlapping ones whose destination comes first |
| Bytes.MemSet | src/impl/memory.c:27-31 | fills exactly the given bytes |
| Bytes.LittleEndian | src/include/kheap.h:20-31 | words are stored least significant byte first |
| OrderedArrays.OrderedArray.Insert | src/impl/ordered_array.c:36-57 | the shift loop puts the item in front of the first element that is not less, and loses nothing |
| OrderedArrays.OrderedArray.Lookup | src/impl/ordered_array.c:59-63 | the element at a position |
| OrderedArrays.OrderedArray.Remove | src/impl/ordered_array.c:65-73 | takes out one position and closes the gap, given a spare slot |
| OrderedArrays.InsertedSorted | src/impl/ordered_array.c:36-57 | insertion keeps the array sorted under any strict weak order |
| OrderedArrays.InsertedElements | src/impl/ordered_array.c:36-57 | insertion adds exactly the item to the multiset of elements |
| OrderedArrays.RemovedElements | src/impl/ordered_array.c:65-73 | removal takes exactly one occurrence out of the multiset |
| HeapModel.LeftNeighbour | src/impl/kheap.c:315-317 | in a tiling every region but the first has a region that ends where it starts |
| HeapModel.TilingCovers | src/impl/kheap.c:149-179 | a tiling covers every byte between start and end |
| HeapAlloc.FirstFitIsBestFit | src/impl/kheap.c:116-142 | on a sorted index the first hole that fits an unaligned request is a smallest one that does |
| HeapAlloc.AlignedFitsIff | src/impl/kheap.c:122-131 | a hole fits a page-aligned request exactly when it holds the bytes up to the first place where the payload is on a page boundary, and the request from there on |
| HeapAlloc.CarveKeepsSound | src/impl/kheap.c:233-287 | serving a request keeps tiling, tags and index; a complete index stays complete |
| HeapAlloc.CarvedBlock | src/impl/kheap.c:233-287 | the block lies at the start of the hole, or on demand at the first page boundary with room for a hole in front; it has the size asked for, or at most 19 bytes more where less than a hole would be left; nothing outside the hole changes |
| HeapAlloc.CarveKeepsSorted | src/impl/kheap.c:258-284 | an unaligned request keeps the index sorted although its keys are in the memory written to |
| HeapAlloc.CarveInsertsInOrder | src/impl/kheap.c:243-284 | a page-aligned request puts the new hole in its place in an index that is in order once the hole in front has its new size |
| HeapAlloc.CarveKeepsShape | src/impl/kheap.c:243-284 | intact footers stay intact and no two holes become neighbours |
| HeapServe.ServedIsCarved | src/impl/kheap.c:233-287 | where the hole can be divided, what alloc stores is the carved heap |
| HeapServe.BlockIsAligned | src/impl/kheap.c:245 | a page-aligned payload is at the first page boundary behind the start of the hole |
| HeapServe.AlignedServesIff | src/impl/kheap.c:237-284 | after a page-aligned request the memory has a sound reading with the block live and all other regions kept, exactly when the hole starts at most 0xFE0 bytes into its page and leaves nothing or at least 20 bytes behind the block |
| HeapGrow.GrowSoundIff | src/impl/kheap.c:188-229 | the grown memory has a sound reading with all other regions kept, exactly when no hole is indexed or the top one abuts the end |
| HeapGrow.GrowSortedIff | src/impl/kheap.c:217-224 | growth leaves a sorted index sorted exactly when the stretched hole is not larger than the next one |
| HeapGrow.GrowKeepsSound | src/impl/kheap.c:188-229 | growth keeps tiling and tags, leaves the index as it is unless it was empty, and afterwards the top hole abuts the end |
| HeapGrow.PrepareKeepsSound | src/impl/kheap.c:183-231 | the search of alloc, through any growth, ends in a sound heap with a hole that fits and leaves live blocks alone |
| HeapGrow.GrowsAtMostTwice | src/impl/kheap.c:183-231 | alloc recurs at most once for an unaligned and twice for a page-aligned request, and room for that growth suffices |
| HeapGrow.AllocIsSafe | src/impl/kheap.c:181-288 | alloc as a whole keeps the heap sound and every live block byte by byte |
| HeapTraces.AllocKeepsConsistent | src/impl/kheap.c:181-288 | alloc as a whole also keeps what the stale footers of holes lead to, keeps a complete index complete and never hands out a lost hole |
| HeapFree.ScrubTags | src/impl/kheap.c:301-311 | scrubbing spoils the block's own footer magic exactly when it has a payload, and no other tag |
| HeapFree.LeftFindsHole | src/impl/kheap.c:315-317 | what the left test finds is inside the hole that ends at the block |
| HeapFree.CoalesceTags | src/impl/kheap.c:313-341 | both merges keep the tiling, and the tags unless a stale footer meets a block without payload |
| HeapFree.CoalesceFrame | src/impl/kheap.c:301-341 | free writes to the block and the hole in front of it only |
| HeapFree.FreedIndexHoles | src/impl/kheap.c:326-366 | the index lists holes only afterwards, and all of them if it did before |
| HeapFree.LeftSeen | src/impl/kheap.c:305-324 | scrubbing does not change what the left test sees, so the header free works on is told from the memory before the call |
| HeapFree.HaltsIff | src/impl/kheap.c:326-340 | the assertion fails exactly when the bytes behind the block pass for a hole that the index does not list |
| HeapFree.StaleLeaks | src/impl/kheap.c:315-366 | behind a stale footer the block becomes a hole that is not put into the index |
| HeapSettle.StaleSize | src/impl/kheap.c:315-331 | through a stale footer, too, the size stored reaches to where the merged hole ends |
| HeapSettle.ContractCases | src/impl/kheap.c:91-114 | where the heap ends after contraction, for every header, with the mask as it is |
| HeapFreeSound.FreeKeepsConsistent | src/impl/kheap.c:290-368 | every harmless call of free, contraction included, keeps the heap consistent and every other block byte by byte |
| HeapFreeSound.FreeKeepsSorted | src/impl/kheap.c:326-366 | free without a left merge keeps the index sorted by size, with a right merge or without, and puts the hole into it |
| HeapFreeSound.FreeKeepsOrder | src/impl/kheap.c:313-366 | free with a left merge leaves the index as it is, in its order, but for the right neighbour |
| HeapFreeSound.LeftMergeSortedIff | src/impl/kheap.c:313-324 | after a left merge a sorted index is still sorted exactly when the grown hole is not indexed or not larger than the next one |
| HeapFreeSound.FreedIsScrubbed | src/impl/kheap.c:305-308 | after free the payload and the first three bytes of its footer are zero |
| HeapFreeSound.FreedFooter | src/impl/kheap.c:305-324 | what is left of the block's footer names the header of the merged hole, without its magic number if the block had a payload |
| HeapFreeSound.NothingToForget | src/impl/kheap.c:354-362 | the removal at the end of free never finds its header in the index, so a hole that is used up stays indexed |
| HeapFreeSound.RightMergeGoesStale | src/impl/kheap.c:326-332 | a right merge leaves a footer that names the swallowed header, and the release of the block behind will follow it |
| HeapFreeSound.FreeKeepsLost | src/impl/kheap.c:290-368 | what the index has lost stays lost |
| HeapFreeSound.StaleLoses | src/impl/kheap.c:305-324 | a block with payload that is released behind a stale footer is lost |
| HeapFreeSound.LostHalts | src/impl/kheap.c:326-340 | releasing the block in front of a lost hole halts the kernel |
| HeapFreeLaws.FreeSoundIff | src/impl/kheap.c:290-368 | free leaves memory with a sound reading exactly when the call is harmless, told from the heap before the call |
| HeapExamples.EmptyCanSpoil | src/impl/kheap.c:290-368 | six calls on any fresh heap, after which the release of an empty block halts or leaves memory without a sound reading |
| HeapExamples.EndCanSpoil | src/impl/kheap.c:290-368 | the same with five calls and without an empty block, for the last block of the heap |
| HeapExamples.FreeCanHalt | src/impl/kheap.c:290-368 | eight calls on any fresh heap, after which the release of a block trips the assertion because the hole behind it is lost |
| HeapExamples.AlignedCanSpoil | src/impl/kheap.c:237-284 | one request on any fresh heap, after which a page-aligned one reads the magic number back as a size and is served wrongly |
| HeapExamples.GrowCanSpoil | src/impl/kheap.c:192-224 | three calls on any fresh heap, after which growth leaves memory without a sound reading |
| HeapExamples.KernelHeapCanFail | src/impl/paging.c:128 | the heap of the kernel is an instance of all of them |
| HeapPristine.NeverHalts | src/impl/kheap.c:326-340 | with all tags intact and every hole indexed no assertion of free fails |
| HeapPristine.PristineFree | src/impl/kheap.c:290-368 | free of any live block of a heap with all tags intact: it never halts, leaves a sound heap exactly when the hole stays clear of the end or starts early enough, and then one maximal hole, an exact index and the minimum size at the end |
| HeapPristine.FreeMakesMaximalHole | src/impl/kheap.c:290-341 | with all tags intact both merges leave one maximal hole of the block and its hole neighbours |
| HeapPristine.FreeIndexesAll | src/impl/kheap.c:326-366 | without a stale footer a harmless call leaves every hole indexed, contraction included |
| HeapPristine.FreeContracts | src/impl/kheap.c:343-353 | where the merged hole reaches the end and starts early enough the heap is cut to its minimum size and ends with that hole's footer |
| HeapRuns.OrdinaryRunIsSafe | src/impl/kheap.c:181-368 | every run of requests for at least one byte, releases clear of the end and writes, up to an assertion that halts: each call can happen, the heap stays consistent, no block is empty, and untouched blocks keep their place and bytes |
| HeapRuns.ClearIsHarmless | src/impl/kheap.c:290-368 | releasing a block with payload clear of the end is harmless, whatever its left footer leads to |
| HeapRuns.RunIsSafe | src/impl/kheap.c:181-368 | in every run of requests, harmless releases and writes the heap stays consistent and untouched blocks keep their place and bytes |
| HeapRuns.RunKeepsLost | src/impl/kheap.c:181-368 | no run hands out a lost hole again |
| HeapRuns.RunKeepsIndex | src/impl/kheap.c:181-368 | in every run that follows no stale footer the index lists exactly the holes |
| HeapRuns.StaleIsLostForGood | src/impl/kheap.c:181-368 | what is released behind a stale footer is lost for the rest of every run |
| HeapRuns.TwoReleasesLose | src/impl/kheap.c:290-368 | in any heap, releasing a block with a hole behind it and then the block behind that hole loses the latter for the rest of every run |
| HeapRuns.PayloadsApart | src/impl/kheap.c:181-368 | payloads of live blocks are inside the heap and disjoint |
| KernelHeaps.KernelHeap.constructor | src/impl/kheap.c:149-179 | create_heap leaves one indexed hole in a consistent heap |
| KernelHeaps.KernelHeap.FindSmallestHole | src/impl/kheap.c:116-142 | the first index position that fits, -1 exactly if none does |
| KernelHeaps.KernelHeap.Expand | src/impl/kheap.c:67-89 | the new end, or failure exactly when it would pass the maximum |
| KernelHeaps.KernelHeap.HighestHole | src/impl/kheap.c:194-206 | the position of the highest address in the index |
| KernelHeaps.KernelHeap.Grow | src/impl/kheap.c:186-229 | the stores of the growing branch amount to the function Grow, whether or not the top hole abuts the end |
| KernelHeaps.KernelHeap.StorePieces | src/impl/kheap.c:237-283 | the stores of the serving branch, with the size read back after the footer that may overlap it, amount to the function ServedMem wherever the hole starts |
| KernelHeaps.KernelHeap.Serve | src/impl/kheap.c:233-287 | memory, index and pointer after the serving branch |
| KernelHeaps.KernelHeap.Alloc | src/impl/kheap.c:181-288 | alloc serves the request from the hole that the search ends with, after as many growths as the search counts, or halts |
| KernelHeaps.KernelHeap.Scrub | src/impl/kheap.c:305-308 | the overlapping word stores zero the payload and three bytes beyond |
| KernelHeaps.KernelHeap.Contract | src/impl/kheap.c:91-114 | the new length, with the mask as it is in the code |
| KernelHeaps.KernelHeap.JoinLeft | src/impl/kheap.c:315-324 | the left merge |
| KernelHeaps.KernelHeap.JoinRight | src/impl/kheap.c:326-341 | the right merge, failing exactly when the neighbour is not in the index |
| KernelHeaps.KernelHeap.ContractHole | src/impl/kheap.c:343-353 | end, size and footer after contraction, with all wrap-around, or nothing left of the hole |
| KernelHeaps.KernelHeap.Settle | src/impl/kheap.c:343-366 | contraction, the removal for a hole that is used up, and the final insertion by size |
| KernelHeaps.KernelHeap.Free | src/impl/kheap.c:290-368 | free halts exactly when an assertion fails and otherwise leaves the heap Freed |
| FreeList.AllocatedIsWellformed | src/impl/memory.c:36-73 | malloc keeps the blocks tiling the arena with no two free ones side by side |
| FreeList.ReleasedIsWellformed | src/impl/memory.c:76-110 | so does m_free, of any pointer |
| FreeList.TilesArena | src/impl/memory.c:36-110 | sizes and headers add up to heap_size |
| FreeList.PayloadsApart | src/impl/memory.c:36-110 | payloads are in bounds and disjoint |
| FreeList.FailsIffNoRoom | src/impl/memory.c:49-72 | malloc answers NULL exactly when no stretch of bytes without live blocks holds header and request |
| FreeList.ServesRequest | src/impl/memory.c:49-69 | first fit, split whenever a header and a byte are left, and exactly one new live block |
| FreeList.FailedChangesNothing | src/impl/memory.c:38-53 | a request that fails leaves the list as it was, or as the one free block it starts with |
| FreeList.ReleaseTakesOne | src/impl/memory.c:84-109 | m_free ends the life of the block at the pointer and of no other |
| FreeList.RunIsWellformed | src/impl/memory.c:36-110 | in every run the list is well-formed and its live blocks are the outstanding pointers |
| FreeList.AllReleased | src/impl/memory.c:76-110 | once everything is released, in any order, the arena is one free block again |
| FreeList.Arena.FirstFree | src/impl/memory.c:46-53 | the search loop finds the first fit |
| FreeList.Arena.SplitOff | src/impl/memory.c:60-68 | the new node is linked in behind the block |
| FreeList.Arena.Malloc | src/impl/memory.c:36-73 | the linked list after malloc, and the pointer, are those of the functions Allocated and Pointer |
| FreeList.Arena.JoinNext | src/impl/memory.c:97-108 | a block swallows the next one |
| FreeList.Arena.MFree | src/impl/memory.c:76-110 | the linked list after m_free is that of the function Released |
| Frames.SetBitUses | src/impl/paging.c:18-32 | setting or clearing a bit adds or removes exactly that frame |
| Frames.LeastFreeIsLeast | src/impl/paging.c:42-60 | the least frame that is not in use, 0 if there is none |
| Frames.FrameMap.SetFrame | src/impl/paging.c:18-24 | marks one frame |
| Frames.FrameMap.ClearFrame | src/impl/paging.c:26-32 | unmarks one frame |
| Frames.FrameMap.FirstFrame | src/impl/paging.c:42-60 | the search by words and bits finds the least free frame |
| Spaces.CopiesAreFresh | src/impl/paging.c:193-215 | a copied page never gets a frame in use, and no two get the same |
| Spaces.CopiesKeepFlags | src/impl/paging.c:199-210 | whatever frames there are, a copied page is present, for user mode, and as writable, accessed and dirty as its source; a page without frame is copied as an empty one |
| Spaces.CopiesKeepContent | src/impl/paging.c:199-213 | with bit 0 set and frames enough, copied pages hold the same words and no frame in use changes |
| Spaces.CloneTableFaithful | src/impl/paging.c:193-215 | for a whole table: present, user, the source's other flags, and the source's words in a frame of its own |
| Spaces.CloneEntriesFaithful | src/impl/paging.c:229-246 | the same for every private entry of a directory |
| SpaceLaws.CloneIsFaithful | src/impl/paging.c:217-248 | kernel tables are shared by identity, private ones are new and faithful |
| SpaceLaws.CloneReadsLikeSource | src/impl/paging.c:193-248 | every address reads the same through clone and source, exactly under the stated condition |
| SpaceLaws.CloneCanDiffer | src/impl/paging.c:199-213 | a concrete space in which a clone reads differently |
| SpaceLaws.WritesAreIsolated | src/impl/paging.c:193-248 | a write through an owned page is invisible through directories without its table |
| SpaceLaws.CloneIsIsolated | src/impl/paging.c:217-248 | writes through private pages of clone or source are invisible through the other |
| SpaceLaws.WriteThenRead | src/impl/paging.c:144-166 | what is written at an address is read back there and wherever else its word is mapped, and nothing else changes |
| SpaceLaws.AllocKeepsOwned | src/impl/paging.c:62-81 | alloc_frame keeps every nonzero frame marked and with one owner |
| SpaceLaws.AllocGivesLeast | src/impl/paging.c:62-81 | alloc_frame makes a page without frame present in the least free frame, with the flags asked for, and marks that frame; every other page stays |
| SpaceLaws.FreeKeepsOwned | src/impl/paging.c:83-95 | free_frame keeps it too |
| SpaceLaws.FreeTakesFrame | src/impl/paging.c:83-95 | free_frame sets the frame of the page to 0, keeps its flags, and leaves every other page alone |
| SpaceLaws.FreeThenAlloc | src/impl/paging.c:62-95 | a page that is freed and allocated again is present in frame 0, whose bit free_frame has cleared |
| SpaceLaws.MakeTableIsEmpty | src/impl/paging.c:154-161 | get_page with make adds an empty table where there is none and leaves everything else as it is |
| SpaceLaws.NewDirectoryIsEmpty | src/impl/paging.c:106-108 | a new directory maps no address |
| SpaceLaws.FreedFrameStaysInUse | src/impl/paging.c:83-95 | free_frame clears bit 0 and leaves the page's own frame marked |
| SpaceLaws.RunKeepsOwned | src/impl/paging.c:62-248 | ownership of frames in every run |
| FrameZero.CloneOverwritesZero | src/impl/paging.c:193-248 | with bit 0 clear a clone overwrites frame 0 with the first page it copies and keeps every frame in use |
| FrameZero.SourceReadsAlike | src/impl/paging.c:193-248 | and then the source reads as before exactly outside of present pages in frame 0, or where the words agree |
| PagingUnit.Paging.AllocFrame | src/impl/paging.c:62-81 | the page and the bitmap after alloc_frame |
| PagingUnit.Paging.FreeFrame | src/impl/paging.c:83-95 | the page and the bitmap after free_frame |
| PagingUnit.Paging.GetPage | src/impl/paging.c:144-166 | the table and index for an address, with an empty table made on demand |
| PagingUnit.Paging.CopyPage | src/impl/process.asm:7-37 | copies the 1024 words of a frame |
| PagingUnit.Paging.CloneTable | src/impl/paging.c:193-215 | the loop computes the function CloneTable |
| PagingUnit.Paging.CloneDirectory | src/impl/paging.c:217-248 | the loop computes the function CloneDirectory |
| PagingUnit.Paging.InitialisePaging | src/impl/paging.c:110-122 | page k is mapped to frame k for the first 4 MB, and heap page j to frame 1024 + j |
| Tasks.EveryTaskRuns | src/impl/task.c:69-184 | any task runs within n + k switches if k tasks are appended meanwhile |
| Tasks.EachRunsOnce | src/impl/task.c:88-89 | without appends n switches run every task exactly once |
| Tasks.ContextIsKept | src/impl/task.c:84-99 | until a task is left again, nothing that happens changes its record |
| Tasks.SwitchSaves | src/impl/task.c:84-86 | the task that is left has, until it is left again, the context saved by the switch, and its own id and directory |
| Tasks.AppendStarts | src/impl/task.c:111-136 | a task that is appended is last and has, until it is left, the directory and context given to it |
| Tasks.OthersUnchanged | src/impl/task.c:84-123 | a switch changes no record but that of the task it leaves; an append none |
| Tasks.Scheduler.constructor | src/impl/task.c:16-31 | one task, with id 1 |
| Tasks.Scheduler.SwitchTask | src/impl/task.c:69-100 | saves the context, moves on in the list or back to its head, puts that task's directory in force, and jumps with its context and the top of its kernel stack |
| Tasks.Scheduler.Link | src/impl/task.c:119-123 | the walk ends at the last task and links the new one behind it |
| Tasks.Scheduler.AppendTask | src/impl/task.c:102-184 | the new task is last in an acyclic list with ids in order; the new kernel stack goes to the current task |
| MoveStack.RebasedMoves | src/impl/task.c:47-63 | a pointer into the stack keeps its distance to the base, any other word stays |
| MoveStack.ChainMoves | src/impl/task.c:49-63 | the chain of saved frame pointers is the old one, moved, at every depth |
| MoveStack.Rebase | src/impl/task.c:54-63 | the scan rebases every word of the region exactly when it points into the old stack |
| MoveStack.Move | src/impl/task.c:33-67 | every word of the new stack is the old one, rebased, other words of its region are rebased in place; registers move by the same offset |
| Ramdisk.Pack | ramdisk.c:13-68 | the file written is an image of the files: count, headers, data at the offsets named |
| Ramdisk.StoreHeaders | ramdisk.c:23-44 | offsets accumulate over the files in front |
| Ramdisk.ImageLayout | ramdisk.c:4-68 | the bytes of an image: count, headers of 76 bytes from 4 on, contents from 4868 on, one behind the other |
| Initrd.ImageLoads | src/impl/initrd.c:55-59 | the written file, loaded anywhere, is the image the kernel expects |
| Initrd.ImageReadsBack | src/impl/initrd.c:13-22 | what can be parsed from an image are the packed files and nothing else |
| Initrd.RoundTrip | src/impl/initrd.c:13-110 | pack, load, mount, list, look up and read in chunks of any positive size: the listing is dev and every file once, every content is the one packed, and the lookup answers the file exactly when nothing hides it |
| Initrd.ListDirectory | src/impl/initrd.c:24-40 | calls of readdir until NULL list dev and then every file once, in order |
| Initrd.ReadFile | src/impl/initrd.c:13-22 | calls of read for any positive number of bytes until 0 give exactly the content of the file |
| Initrd.FilesCanHide | src/impl/initrd.c:42-53 | files that cannot be looked up: the second of one name, and one called dev |
| Initrd.FindsByName | src/impl/initrd.c:42-53 | finddir answers a file by its name exactly when nothing in front hides it |
| Initrd.LookedIff | src/impl/initrd.c:42-53 | for every name: dev in the root, else the first file of that name, or nothing exactly if there is none |
| Initrd.ListedIs | src/impl/initrd.c:24-40 | what either directory lists at every index |
| Initrd.SliceHolds | src/impl/initrd.c:13-22 | a read answers the bytes from the offset on, as many as were asked for and are there |
| Initrd.StrCmp | src/impl/string.c:40-52 | zero exactly for equal strings, else the difference of the first bytes that differ |
| Initrd.Filesystem.constructor | src/impl/initrd.c:55-110 | offsets are relocated in place and the nodes describe the files |
| Initrd.Filesystem.Read | src/impl/initrd.c:13-22 | copies the requested slice of the file into the buffer and answers its length |
| Initrd.Filesystem.ReadDir | src/impl/initrd.c:24-40 | overwrites the shared entry exactly when there is one to list |
| Initrd.Filesystem.FindDir | src/impl/initrd.c:42-53 | the first node of the name, or the dev node |
| Consoles.LogIsText | src/impl/vga.c:71-93 | the lines of the log, joined by newlines, are the text printed |
| Consoles.ScrolledShows | src/impl/vga.c:32-36 | a screen moved up by a row shows the log with a new line |
| Consoles.CharShows | src/impl/vga.c:38-52 | a character at the cursor continues the last line and disturbs nothing |
| Consoles.Console.Cls | src/impl/vga.c:8-20 | a blank screen |
| Consoles.Console.ScrollUp | src/impl/vga.c:22-36 | the overlapping copy acts as a shift, and the last row is blank |
| Consoles.Console.NewLine | src/impl/vga.c:54-69 | screen and cursor after a newline |
| Consoles.Console.PutChar | src/impl/vga.c:38-52 | screen and cursor after a character |
| Consoles.Console.Printf | src/impl/vga.c:71-93 | after any text with lines of at most 80 characters the screen is the last 25 lines of the log |
| Tokenizer.TokAllFindsRuns | src/impl/string.c:105-146 | a call on a text and then calls on NULL yield exactly the maximal runs without delimiters, in order, each a string of its own in the end; then NULL, for good. A text without a run leaves the static pointer where it was |
| Tokenizer.TokAllCuts | src/impl/string.c:130-145 | these calls store a zero over the delimiter behind each run and change nothing else |
| Tokenizer.StrTok.IsDelim | src/impl/string.c:95-103 | membership in the delimiters |
| Tokenizer.StrTok.Next | src/impl/string.c:105-146 | the loops compute the function Tok on buffer and static pointer |

## Left out

- KernelHeap.Alloc: covers requests for which no address or length of the growth wraps around 2^32, page-aligned ones below 2^31 - 20 bytes, and growth only where the top hole abuts the end; elsewhere the assertions of expand can be passed by a sum that has wrapped, or the search goes on in a heap that is no longer sound. The index has a spare slot for each insertion and for the slot that a removal reads; the array of the code has 0x20000 slots and no check.
- KernelHeap.Free: covers live blocks of consistent heaps whose maximum allows HEAP_MIN_SIZE bytes, where `contract` may move the end up to the minimum size; all pages of that stretch count as mapped.
- HeapFree.HaltsIff: the bytes behind the end of the heap are read as flat memory when the last block is freed, where the kernel may fault on an unmapped page (src/impl/kheap.c:326-328).
- KernelHeap.Expand: does not map the new pages, because the page tables belong to the paging model; the pages of the heap count as mapped.
- KernelHeap.Contract: does not unmap the pages given up, for the same reason.
- KernelHeap.constructor: keeps the buffer of the index apart from the memory of the heap, and takes memory in front of the start and at the last footer not to hold the magic number.
- Arena.Malloc: does not model negative sizes, and has block headers as linked objects with an address rather than as bytes that a caller could overwrite.
- Paging.CloneTable: does not model that the memset clears sizeof(page_directory_t) bytes, more than the table has, nor the physical addresses of tables.
- Paging.GetPage: takes addresses of new tables and directories from a counter, because kmalloc at boot is only a source of fresh addresses here.
- Paging: CR0 and CR3 writes and the page-fault handler are not part of this model; directories are what the processor would walk, by the 10/10/12 split of section 4.3 of the Intel SDM, Volume 3A.
- Scheduler.SwitchTask: is one atomic step; what read_eip answers and the registers are its parameters, and the jump of perform_task_switch its outcome.
- Scheduler.AppendTask: does not model the second return of fork in the child; the cloned directory is a parameter, and the kernel stack goes to the current task as in the code.
- MoveStack.Move: does not map the pages of the new stack, and takes esp, ebp and initial_esp as parameters; regions are word-aligned and apart, and less than `size` bytes are in use.
- Console.PutChar: does not model lines of more than 80 characters, which the code writes on into the next row and, on the last row, beyond video memory; the hardware cursor is left out.
- Initrd.RoundTrip: like ReadFile, takes chunks for which the length of a file plus the chunk stays below 2^32, where offset + size does not wrap.
- Filesystem.Read: takes offset + size below 2^32 and a buffer outside the memory of the image with room for `size` bytes.
- Ramdisk.Pack: takes files that can be opened, names under 64 bytes and images below 2^32 bytes.
- StrTok.Next: takes strings that end with a zero inside the buffer.
- kmalloc and its variants, kfree, the early bump allocator, `delete`, `delsym`, `scroll`, `putcharat`, `printfhex`, `itoa`, `atoi`, the VFS wrappers: easy next to the rest.
- Ports, keyboard, CMOS, timer, GDT, IDT, system calls and boot code: hardware access without algorithmic content.
