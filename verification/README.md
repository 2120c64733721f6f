# The memory allocators and the text layer of an AArch64 kernel, in Dafny

The kernel has a two-level memory allocator. `src/memory/frame_alloc.c` manages 1 GB of RAM
from 0x40000000 as 262144 frames of 4096 bytes, one bit each. `src/memory/kheap.c` builds the
kernel heap from those frames: a block header of 48 bytes sits on a physical list and, while
the block is free, on a free list threaded through the same headers. `src/lib/stdio.c` and
`src/lib/stdlib_stubs.c` print and parse numbers, and `src/lib/string.c` holds the stateful
tokenizer that the shell drives.

Each of these is modelled in the form the C code has. The frame allocator, the heap and the
tokenizer are classes whose methods update a bitmap, a word-addressed memory or a character
buffer in place; the printers, the parser and the format loop are methods with loops. Every
method is proved against a function on values, and what the code is for is proved about those
functions, over all inputs and over whole runs.

## How the files fit together

| file | contents |
|---|---|
| `Machine.dfy` | page size, RAM, memory |
| `Bitmap.dfy`, `FrameBits.dfy`, `FrameAlloc.dfy`, `FrameRuns.dfy` | the bitmap as a set of frames, the allocator on it, runs of calls |
| `HeapModel.dfy`, `FreeLinks.dfy`, `Blocks.dfy` | blocks, free links and the heap invariant; what each list operation keeps |
| `HeapOps.dfy`, `HeapGrowth.dfy` | `coalesce`, `kfree`, `expand_heap` and `kmalloc` on heap values |
| `Accounting.dfy`, `LiveBlocks.dfy`, `HeapLaws.dfy`, `Removals.dfy`, `KfreeLists.dfy` | conservation, live blocks, laws between operations, the free list under `kfree` |
| `HeapExact.dfy`, `BootExact.dfy` | what one call does to the lists, and the first calls after boot, in plain numbers |
| `HeapRuns.dfy`, `HeapWords.dfy` | whole runs of calls and client stores, and what the words of live blocks hold |
| `Tiling.dfy` | when the heap is one interval of exactly the frames it drew |
| `Headers.dfy`, `KHeap.dfy` | the headers as words of memory, and the heap as the C code writes it |
| `Boot.dfy`, `BootCases.dfy`, `Execution.dfy` | from `frame_alloc_init` to any run of calls on memory, and runs after boot that go wrong |
| `CStrings.dfy`, `Numerals.dfy`, `Strtoull.dfy`, `Kprintf.dfy`, `PrintParse.dfy` | printing, parsing, and one after the other |
| `Notation.dfy`, `FormatTexts.dfy` | positional notation by strings of digits, and the text that each conversion prints |
| `Strtok.dfy` | the tokenizer and the shell's loop |

## The heap invariant

"The free list holds all free blocks" and "no two neighbours are both free" are not invariants
of this heap: `expand_heap` flags every new page free but lists only the first, so
`kheap_init` already leaves four free pages off the list, and a later removal of such a page
rewrites `free_list_head`. What holds after every call is `HeapModel.HeapOk`:

* every block is aligned and lies in RAM, and none begins before its predecessor in the
  physical list ends;
* exactly the free blocks carry links, `next_free` and `prev_free` are mutually inverse, and
  `free_list_head` is NULL or a free block without `prev_free`;
* `next_free` always leads to a block of smaller rank, where the rank is a history variable set
  when a block is pushed. Chains that `free_list_head` does not reach are allowed. It is this
  rank that makes both searches of `kmalloc` end.

Frames come from `alloc_frame`, which hands them out in ascending order, so each lies behind
the heap and behind the frames before it (`HeapModel.SystemOk`). Nothing more is assumed of
them: links, live blocks, their contents, conservation and the refinement down to memory hold
for every run from boot, with the kernel image in the middle of the frames.

## Where the code does less than its comments say

Each of these has its exact condition, for all states or inputs, and an input that reaches it.

* Merging is decided on `is_free` alone (src/memory/kheap.c:96, 124, 142). The heap is tiled and
  covers exactly the frames it drew if and only if those frames follow one another
  (`Tiling.RunTiles` for runs, `Tiling.ExpandTiles` for one expansion); with the image at
  0x40080000, if and only if at most 128 were drawn (`Boot.BootRunTilesIff`). Otherwise a
  merge counts bytes that lie between two frames: four requests after boot end with `kmalloc`
  returning the first byte of the image (`BootCases.ImageHandedOut`, and
  `Execution.HandOutImage` on memory).
* `remove_from_free_list` takes any block without `prev_free` for the list head
  (src/memory/kheap.c:43). `FreeLinks.RemoveKeepsList` is the exact condition under which the
  rest of the list survives one removal, `KfreeLists.ReleaseKeepsList` the one for `kfree` with
  no, one or two free neighbours, and `KfreeLists.ReleaseForgetsList` says when the freed block
  ends up alone. `BootCases.ForgottenAfterBoot` is a run of three calls after boot that drops a
  free block of 4096 bytes from the list.
* "Should not happen if expansion succeeded" (src/memory/kheap.c:219) cannot happen up to 4048
  rounded bytes (`HeapLaws.SmallRequestServed`). `HeapLaws.RequestServed` is the exact condition
  for an answer on every path. After boot it happens for the first request exactly above 8144
  rounded bytes (`BootCases.BootRequest`), and after three ordinary requests for every size
  above 4048 (`BootCases.RefusedAfterBoot`).
* `kfree` right after `kmalloc` restores the physical list only under a condition on the
  neighbours; `HeapLaws.FreeUndoesMalloc` is an equivalence, and right after boot `kmalloc(4048)`
  fails it (`BootCases.NotRestoredAfterBoot`).
* `free_frame` knows nothing of reserved frames. Over runs with any arguments they stay out of
  the free set at every moment if and only if none is given back (`FrameRuns.ReservedStayOut`).
  After `free_frame(0x40080000)` on the initialized allocator, the 129th `alloc_frame` answers
  that address (`Execution.GiveImageBack`).
* An empty range marks a frame exactly where `FrameBits.EmptyRange` says; an image with equal
  boundaries off a page boundary reaches that (`FrameRuns.EmptyImage`).
* The buffer of `kprintf` holds the beginning of the expansion if and only if every `%p` and
  every unsupported directive is well placed (`Kprintf.OutputIsPrefix`, `Kprintf.PointerExact`).
  `%p` behind 1021 characters loses its `0x` (`Kprintf.PrefixDropped`), and an unsupported
  directive behind 1022 leaves the terminator no place (`Kprintf.OutputFits`,
  `Kprintf.UnsupportedAtTheEnd`). Flags and widths have no effect on any conversion, so the
  shell's `%02x` prints one digit for a byte below 16 (`FormatTexts.ByteText`), and its
  `0x%p` prints the prefix twice (`FormatTexts.AllocatedText`).
* `*endptr` is where ISO C11, section 7.22.1.4, wants it if and only if `Strtoull.EndsAsStandard`
  holds (`Strtoull.EndIsStandard`); `Strtoull.BarePrefix`, `Strtoull.OctalIsDecimal` and
  `Strtoull.LoneSign` are the three ways to fail it.

## Model

| member | source | states |
|---|---|---|
| `Execution.BootAndRun` | src/memory/kheap.c:55-302 | From boot, wherever image and bitmap lie, any run of kmalloc, kfree and client stores returns the answers and leaves the state of the model in memory, and every word of a live block holds the last value written to it since kmalloc returned it, or zero; the heap is tiled and covers exactly the frames drawn if and only if those frames follow one another |
| `Execution.HandOutImage` | src/memory/kheap.c:95-108 | kmalloc(503712), kmalloc(8144), kmalloc(4000) and kmalloc(4096) on the booted kernel, with the image right behind the low frames and a frame free beyond it: the last returns the first byte of the image, and its first page is cleared |
| `Execution.GiveImageBack` | src/memory/frame_alloc.c:162-196 | After frame_alloc_init with the image at 0x40080000, free_frame of that address makes the 129th alloc_frame answer it |
| `Execution.BootHeap` | src/memory/kheap.c:165-174 | frame_alloc_init followed by kheap_init, from any earlier contents of bitmap and statics, leaves memory, statics, bitmap and counters in the booted state of the model |
| `Execution.ReservedAbove` | src/linker.ld:8-10 | An image and a bitmap at or above the address in the linker script reserve no frame below it |
| `Execution.Execute` | src/memory/kheap.c:176-302 | Any legal run of calls and client stores on memory returns the answers and ends in the state that the value model computes, and every word of a block live at the end holds what was last written to it, zero if nothing was since kmalloc, and its old value if the block is older than the run |
| `Execution.Call` | src/memory/kheap.c:176-302 | One call or store on memory takes the modelled step with the modelled answer, and changes the words of live blocks only as the model says |
| `Execution.BootWords` | src/memory/kheap.c:165-174 | Nothing is live after boot, so what memory held then does not show in any word of a block live later |
| `HeapWords.LastWrite` | src/memory/kheap.c:259-265 | A word of a live block reads back the last value written to it, whatever kmalloc and kfree calls came in between, as long as the block is not freed |
| `HeapWords.FreshWord` | src/memory/kheap.c:259-265 | A word not written since kmalloc returned its block reads zero, whatever calls came in between |
| `HeapWords.WordStays` | src/memory/kheap.c:176-302 | A word of a live block that is neither freed nor written keeps its value through every run |
| `HeapWords.WordForgets` | src/memory/kheap.c:262 | What a word held before kmalloc handed it out does not show afterwards |
| `HeapWords.AnswerIsNew` | src/memory/kheap.c:224-262 | What kmalloc returns and clears overlaps no live payload |
| `Boot.LowFramesInLine` | src/memory/frame_alloc.c:92-160 | The first 128 frames handed out after initialization follow one another without a gap from the start of RAM |
| `Boot.ImageBreaksLine` | src/linker.ld:8-10 | With the image right behind them, no more than those 128 frames are in line |
| `Boot.BootRunTiles` | src/memory/kheap.c:55-302 | After every run from boot the heap is tiled and covers exactly the frames drawn since initialization if and only if those frames follow one another |
| `Boot.BootRunTilesIff` | src/memory/kheap.c:55-302 | With the image at 0x40080000, that is the case if and only if at most 128 frames were drawn |
| `Boot.BootRunPairs` | src/memory/kheap.c:55-302 | After every run from boot there are at most four adjacent free pairs plus those its expansions brought, and once nothing is live the heap is in at most five blocks plus as many |
| `BootCases.BootShape` | src/memory/kheap.c:165-174 | kheap_init leaves five free 4048-byte blocks from the start of RAM, the first alone on the free list and the others unlinked |
| `BootCases.BootRequest` | src/memory/kheap.c:202-221 | The first request after boot, for every size, is answered if and only if it rounds to at most 8144 bytes |
| `BootCases.RefusedAfterBoot` | src/memory/kheap.c:217-220 | After kmalloc(4048), kmalloc(4000) and kmalloc(4096) on the booted kernel, every request above 4048 rounded bytes answers NULL, with enough frames or without |
| `BootCases.ForgottenAfterBoot` | src/memory/kheap.c:39-51 | After kmalloc(4048) and kmalloc(4000) on the booted kernel, freeing the first leaves a free block of 4096 bytes off the list that held it |
| `BootCases.NotRestoredAfterBoot` | src/memory/kheap.c:118-161 | Right after boot, freeing what kmalloc(4048) returned does not restore the physical list |
| `BootCases.ImageHandedOut` | src/memory/kheap.c:95-108 | After three requests on the booted kernel, kmalloc(4096) returns 0x40080000, and a live block lies over the first page of the image |
| `BootExact.FirstRequest` | src/memory/kheap.c:226-257 | The first request after boot that rounds to at most 4048 bytes answers 0x40000030; up to 3952 bytes the first page is split and its rest is the free list, above it goes out whole and the list is empty |
| `BootExact.SplitAt3952` | src/memory/kheap.c:227 | kmalloc(3952) right after boot leaves a free block of 48 bytes behind it |
| `BootExact.WholeFrom3960` | src/memory/kheap.c:227 | kmalloc(3960) and kmalloc(3984) right after boot get all 4048 bytes |
| `BootExact.SecondRequest` | src/memory/kheap.c:202-221 | After kmalloc(3984), kmalloc(16) draws one frame and answers 0x40004030 |
| `BootExact.BeyondMemory` | src/memory/kheap.c:65-70 | kmalloc(0x40000000) after boot draws every frame and answers NULL, and kmalloc(8) then answers 0x40000030 from the unchanged list |
| `HeapExact.ServedExactly` | src/memory/kheap.c:176-266 | A request served by the first search: the answer, the whole block list and the whole free list; with 96 bytes more than the rounded size there is a live block of that size and a free block (a + 48 + n, z - n - 48) in front of the list that is left, otherwise a live block of the old size |
| `HeapExact.SplitIff` | src/memory/kheap.c:227-251 | The block is split if and only if its size is at least the rounded request plus 96 |
| `HeapExact.NothingRequested` | src/memory/kheap.c:177-179 | kmalloc(0) answers NULL and changes nothing |
| `HeapExact.ExpandedExactly` | src/memory/kheap.c:55-114 | With enough frames: one free 4048-byte block per frame behind the old ones, but the first of them taken in by a free last block, which grows by 4096 |
| `HeapExact.FailedExactly` | src/memory/kheap.c:65-70 | Without enough frames: one free 4048-byte block for every frame left, nothing merged, the free list and its head as they were, and no page linked |
| `HeapExact.StarvedExactly` | src/memory/kheap.c:202-215 | The same for a request that misses and needs more frames than are left, with NULL as answer |
| `HeapExact.FailureLeavesList` | src/memory/kheap.c:202-215 | After such a request, any request that the list could serve before gets the same answer as before |
| `HeapExact.GrownExactly` | src/memory/kheap.c:202-221 | A request that misses and finds its frames: how many it draws, and the answer and the placement of the second search on the expanded heap |
| `HeapExact.FreedExactly` | src/memory/kheap.c:118-161 | The whole block list after kfree of a live block: it takes in a free block behind it and is taken in by a free one before it, each adding 48 bytes for the header |
| `HeapExact.NothingFreed` | src/memory/kheap.c:268-290 | kfree of NULL or of a block already free changes nothing |
| `Tiling.RunTiles` | src/memory/kheap.c:55-302 | After every run from a tiled heap, the heap is tiled and covers exactly its old bytes and the frames drawn if and only if the frames drawn were in line |
| `Tiling.ExpandTiles` | src/memory/kheap.c:55-114 | The same equivalence for one expansion, complete or not |
| `Tiling.ExactIff` | src/memory/kheap.c:95-108 | A tiled heap that grew out of a tiled heap covers exactly the old bytes and the frames drawn if and only if the frames were in line |
| `Tiling.RunTiled` | src/memory/kheap.c:55-302 | While the frames drawn are in line, splits, both merges and expansions leave no gap |
| `Tiling.RunEnds` | src/memory/kheap.c:9-25 | Where a tiled heap begins and ends after a run, in bytes and frames |
| `Tiling.Covered` | src/memory/kheap.c:9-25 | Every address between the two ends of a tiled heap belongs to a block |
| `HeapRuns.RunKeepsApart` | src/memory/kheap.c:9-17 | After every run, wherever the frames came from, every block is aligned and in RAM and no address belongs to two blocks, headers included |
| `HeapRuns.RunKeepsBase` | src/memory/kheap.c:55-302 | No run moves the first block of the heap |
| `HeapRuns.RunConserves` | src/memory/kheap.c:63-108 | After every run, size + 48 summed over all blocks has grown by 4096 times the frames drawn, and frames are drawn from the front of the supply |
| `HeapRuns.RunKeepsLinks` | src/memory/kheap.c:29-51 | After every run next_free and prev_free are mutually inverse and acyclic over exactly the free blocks, live blocks have none, and free_list_head is NULL or a free block without prev_free, unlinked pages notwithstanding |
| `HeapRuns.RunKeepsLive` | src/memory/kheap.c:176-302 | A live block keeps address, size and flag through every run that does not free it |
| `HeapRuns.RunPairs` | src/memory/kheap.c:55-302 | No run adds more adjacent free pairs than pages - 1 for each successful expansion and the frames left for each failed one |
| `HeapRuns.PiecesLeft` | src/memory/kheap.c:118-161 | Once everything is freed, that also bounds the number of blocks |
| `Tiling.FrontierMoves` | src/memory/kheap.c:63-91 | Between two tiled states with the same first block and conserved bytes, the address at which the next frame must begin moves by 4096 for each frame drawn |
| `Tiling.StepTiled` | src/memory/kheap.c:55-302 | An operation whose frames are in line keeps the heap tiled |
| `Tiling.BytesIsSpan` | src/memory/kheap.c:9-25 | A tiled list covers exactly the bytes between its first header and the end of its last payload |
| `HeapLaws.FreeUndoesMalloc` | src/memory/kheap.c:176-302 | After a kmalloc served without expansion, kfree of its result restores the physical list if and only if the block used had no free left neighbour and either was split or had no free right neighbour |
| `HeapLaws.PlacedThenFreed` | src/memory/kheap.c:118-161 | The same equivalence on block lists, through split and two-sided merge |
| `HeapLaws.SecondSearch` | src/memory/kheap.c:202-221 | After a failed search and a successful expansion, the second search succeeds if and only if the request fits the block put in front or a block of the chain that the merge brought back |
| `HeapLaws.RequestServed` | src/memory/kheap.c:176-266 | kmalloc answers a positive request if and only if its first search finds a block, or enough frames are left and the request fits the block put in front or the chain brought back |
| `HeapLaws.SmallRequestServed` | src/memory/kheap.c:202-221 | With enough frames, no request of at most 4048 rounded bytes reaches the "should not happen" exit |
| `HeapLaws.LargeRequestRefused` | src/memory/kheap.c:202-221 | Every larger request that misses in the first search while the last block is live draws its frames and then answers NULL |
| `HeapLaws.ExpandedList` | src/memory/kheap.c:95-111 | The free list after a successful expansion: one block in front of what the removal of the last block left, and none of the other pages |
| `HeapLaws.ExpandedSize` | src/memory/kheap.c:63-111 | Expansion changes the size of no block except the free last one, which grows by 4096 |
| `KfreeLists.ReleaseLists` | src/memory/kheap.c:118-161 | The free list after kfree in terms of the links before it: the merged block, then the chain that the removals leave free_list_head on, without the merged neighbours |
| `KfreeLists.ReleaseForgetsList` | src/memory/kheap.c:39-51 | The freed block is alone on the list if and only if the link fields of its free neighbours leave free_list_head NULL |
| `KfreeLists.ReleaseKeepsList` | src/memory/kheap.c:268-302 | Through no, one or two removals, the list after kfree is the old one without the merged neighbours and with the merged block in front, if and only if those neighbours were on the list, inside a chain, or otherwise harmless |
| `Removals.BothRemovedKeeps` | src/memory/kheap.c:118-161 | The exact condition for two removals in a row, including the case where the second repairs what the first lost |
| `LiveBlocks.KmallocLive` | src/memory/kheap.c:176-266 | kmalloc answers NULL with the live blocks unchanged, or adds exactly one live block: 8-aligned, at least the request rounded up to 8 and less than 96 bytes more, not live before |
| `LiveBlocks.KfreeLive` | src/memory/kheap.c:268-302 | kfree ends the life of the block at its argument and of no other; NULL and a block already free change nothing |
| `LiveBlocks.ExpandLive` | src/memory/kheap.c:55-114 | Expansion, complete or not, leaves every live block as it was |
| `LiveBlocks.Disjoint` | src/memory/kheap.c:9-17 | No address belongs to two blocks, headers included |
| `Accounting.KfreeAccounts` | src/memory/kheap.c:118-161 | kfree keeps the bytes covered and, whichever sides merge, the exact number of adjacent free pairs |
| `Accounting.ExpandAccounts` | src/memory/kheap.c:55-114 | Expansion adds 4096 bytes per frame even when frames run out, and a successful one adds exactly pages - 1 adjacent free pairs |
| `Accounting.KmallocAccounts` | src/memory/kheap.c:176-266 | kmalloc conserves bytes on every path, and adds no free pair when its first search succeeds, at most pages - 1 when it expands, and at most one per frame left when the frames run out |
| `Accounting.FreedAccounts` | src/memory/kheap.c:118-161 | Flagging and merging both neighbours neither creates nor destroys bytes or free pairs |
| `Accounting.PlacedAccounts` | src/memory/kheap.c:224-257 | Placement, split or not, keeps the bytes and never adds a free pair |
| `HeapGrowth.FirstFitFits` | src/memory/kheap.c:189-199 | The search answers with the first block of its chain that is large enough, which is free, and with NULL exactly when none is |
| `HeapGrowth.AppendPagesOk` | src/memory/kheap.c:63-91 | Ascending frames keep the heap invariant, and pages join it free and unlinked with all older links untouched |
| `HeapGrowth.AppendedBlocks` | src/memory/kheap.c:63-91 | The frame loop appends one free 4048-byte block per frame, in order |
| `HeapGrowth.Expand` | src/memory/kheap.c:55-114 | Expansion keeps the invariant on every path, succeeds exactly when enough frames are left, and consumes the frames it drew even when it fails |
| `HeapGrowth.PagesNeeded` | src/memory/kheap.c:57-58 | The page count is positive and the least whose bytes cover the wanted size and a header |
| `HeapGrowth.Kmalloc` | src/memory/kheap.c:176-266 | Every path of kmalloc keeps the heap invariant |
| `HeapOps.Kfree` | src/memory/kheap.c:268-302 | kfree of NULL, of a free block or of a live block keeps the heap invariant |
| `HeapOps.CoalesceNext` | src/memory/kheap.c:124-139 | The forward merge keeps the invariant of a heap with one block waiting to be listed |
| `HeapOps.CoalescePrev` | src/memory/kheap.c:142-158 | The backward merge keeps it as well |
| `HeapOps.Place` | src/memory/kheap.c:224-257 | Removal and split keep the heap invariant |
| `FreeLinks.AddPushesFront` | src/memory/kheap.c:29-37 | add_to_free_list keeps the links well formed and puts the block in front of the list, the rest in order |
| `FreeLinks.RemoveCases` | src/memory/kheap.c:39-51 | remove_from_free_list for a block on the list, inside another chain, or at the head of another chain |
| `FreeLinks.RemoveKeepsList` | src/memory/kheap.c:39-51 | The list loses exactly the removed block if and only if the block was on it, or has a prev_free, or both the list and what follows the block are empty |
| `FreeLinks.ChainAfterRemove` | src/memory/kheap.c:39-51 | Every chain of links, listed or not, loses exactly the removed block and keeps its order |
| `FreeLinks.ChainDistinct` | src/memory/kheap.c:189-199 | No chain visits a block twice |
| `FreeLinks.Acyclic` | src/memory/kheap.c:189-199 | No number of next_free steps leads back to the start, so both searches end |
| `KHeap.KernelHeap.AddToFreeList` | src/memory/kheap.c:29-37 | The stores leave exactly the links of the model in memory, and touch headers only |
| `KHeap.KernelHeap.RemoveFromFreeList` | src/memory/kheap.c:39-51 | Likewise for removal, with sizes and physical links of all headers unchanged |
| `KHeap.KernelHeap.CoalesceForward` | src/memory/kheap.c:124-139 | The forward merge on memory gives the merged list of the model, heap_end included, and clears the swallowed header |
| `KHeap.KernelHeap.CoalesceBackward` | src/memory/kheap.c:142-158 | The backward merge on memory, as used by coalesce and by expand_heap |
| `KHeap.KernelHeap.DrawFrames` | src/memory/kheap.c:62-91 | The frame loop draws what it can, links each page at heap_end, returns the first new block, and keeps every payload |
| `KHeap.KernelHeap.ExpandHeap` | src/memory/kheap.c:55-114 | expand_heap on memory reaches the state of the model, with its answer, and keeps every payload |
| `KHeap.KernelHeap.FindFit` | src/memory/kheap.c:189-199 | The search loop over memory ends and answers as the first-fit function does |
| `KHeap.KernelHeap.PlaceBlock` | src/memory/kheap.c:224-257 | Removal and split on memory give the placed heap of the model and write headers only |
| `KHeap.KernelHeap.Kmalloc` | src/memory/kheap.c:176-266 | kmalloc on memory: state and answer of the model, the whole payload of the block zero, every other live payload unchanged |
| `KHeap.KernelHeap.Kfree` | src/memory/kheap.c:268-302 | kfree on memory: state of the model, and no payload byte of any block changed |
| `KHeap.KernelHeap.KheapInit` | src/memory/kheap.c:165-174 | kheap_init from any earlier state gives an empty heap expanded by five pages |
| `KHeap.KernelHeap.WritePayload` | src/memory/kheap.c:259-265 | A client that stores an aligned word in its payload changes that word only, and disturbs no header and no other payload |
| `Headers.HeadersKeepPayloads` | src/memory/kheap.c:9-17 | Writing headers never reaches a payload |
| `Headers.HeaderWords` | src/memory/kheap.c:10-17 | The six words of a header in memory: size, flag, the blocks behind and before, and the two free links, NULL for none |
| `Bitmap.FreeBits` | src/memory/frame_alloc.c:24-36 | Bit i % 8 of byte i / 8, from the least significant, is clear if and only if frame i is free |
| `Bitmap.ByteUpdate` | src/memory/frame_alloc.c:24-31 | Setting or clearing a bit removes or adds exactly one frame of the set that the bitmap stands for |
| `Bitmap.ShowsOne` | src/memory/frame_alloc.c:24-36 | A bitmap stands for one set only |
| `FrameBits.RangeIsMeeting` | src/memory/frame_alloc.c:39-54 | For a non-empty range in RAM without wrap, the range loops visit exactly the managed frames that share a byte with it |
| `FrameBits.EmptyRange` | src/memory/frame_alloc.c:39-54 | An empty range visits a frame if and only if it lies inside a managed page or at the very start of RAM |
| `FrameAlloc.RangeReached` | src/memory/frame_alloc.c:39-54 | For every start and end, the range loops visit frame i if and only if start is in RAM and below the end of the frame, and the frame begins below end or is the first |
| `FrameBits.SupplyOrdered` | src/memory/frame_alloc.c:141-156 | The frames still to be handed out are in strictly increasing order |
| `FrameAlloc.FrameAllocator.TestBit` | src/memory/frame_alloc.c:34-36 | The bit test decides membership in the set of free frames |
| `FrameAlloc.FrameAllocator.MarkRangeUsed` | src/memory/frame_alloc.c:39-62 | Exactly the frames of the range leave the free set, and both counters fall by 4096 per bit flipped as far as the guards allow, whatever the counters were |
| `FrameAlloc.Lowered` | src/memory/frame_alloc.c:58-59 | The guards suppress no decrement if and only if the counter covers all of them; otherwise whole pages come off until less than one is left |
| `FrameAlloc.FrameAllocator.MarkRangeFree` | src/memory/frame_alloc.c:65-90 | Exactly the frames of the range join the free set, both counters rise by 4096 per bit flipped, and the highest usable address is raised to the end of the highest frame newly freed |
| `FrameAlloc.FrameAllocator.Init` | src/memory/frame_alloc.c:92-139 | For every start and end of the image, from the boot parameters or else the linker, which frames are reserved; for an image and a bitmap in RAM the free frames are exactly those that share no byte with either; the counters agree and nothing is outstanding |
| `FrameAlloc.FrameAllocator.AllocFrame` | src/memory/frame_alloc.c:141-160 | The lowest free frame, zeroed, with nothing else in memory changed; NULL exactly when no frame is free |
| `FrameAlloc.FrameAllocator.FreeFrame` | src/memory/frame_alloc.c:162-196 | An acceptable frame becomes free; NULL, foreign, unaligned and already free arguments change nothing; free_memory stays exact, and the whole invariant survives if and only if the frame is not a reserved one |
| `FrameRuns.InitAndRun` | src/memory/frame_alloc.c:92-196 | From frame_alloc_init, whatever bitmap and counters held, every run returns the modelled answers; the frames held are those answered and not taken back; for boundaries in RAM, every page answered ends before the image and the bitmap begin or begins behind them; total_memory - free_memory is 4096 times the frames held |
| `FrameRuns.Execute` | src/memory/frame_alloc.c:141-196 | Any run of calls on bitmap and counters returns the modelled answers and ends in the modelled state, with total_memory - free_memory equal to 4096 times the frames held |
| `FrameRuns.HeldAreAnswers` | src/memory/frame_alloc.c:141-196 | The frames held after a run and those taken back are, with multiplicity, the frames held before and those answered |
| `FrameRuns.AnswersUnreserved` | src/memory/frame_alloc.c:141-160 | Every answer of every run is NULL or a managed frame that was not set aside |
| `FrameRuns.FreshOk` | src/memory/frame_alloc.c:92-139 | The state after initialization satisfies the invariant of the runs |
| `FrameRuns.ReservedStayOut` | src/memory/frame_alloc.c:162-196 | Over runs with any arguments to free_frame, no reserved frame is ever free if and only if none is given back |
| `FrameRuns.EndDoesNotTell` | src/memory/frame_alloc.c:162-196 | A run that gives a reserved frame back and ends with it handed out again, so the end alone decides nothing |
| `FrameRuns.GiveAndTake` | src/memory/frame_alloc.c:141-196 | After frame_alloc_init and free_frame of reserved frame q, with every frame below it free, call q + 1 of alloc_frame answers frame q |
| `FrameRuns.EmptyImage` | src/memory/frame_alloc.c:39-54 | An image whose start and end are equal, off a page boundary, sets the frame around it aside |
| `FrameRuns.AllocMany` | src/memory/frame_alloc.c:141-160 | What a caller of alloc_frame alone receives: the free frames in strictly increasing order, then NULLs |
| `FrameRuns.RunOk` | src/memory/frame_alloc.c:141-196 | In every run whose frees are of held frames or rejected, the frames held are distinct and are exactly those neither free nor reserved |
| `FrameRuns.CountersAgree` | src/memory/frame_alloc.c:141-196 | The counters account for the frames held and never underflow |
| `FrameRuns.HeldMissesRange` | src/memory/frame_alloc.c:92-139 | No frame ever held shares a byte with a reserved range, be it the image or the bitmap |
| `FrameRuns.AnswersAreSupply` | src/memory/frame_alloc.c:141-160 | In a run without free_frame the answers are the free frames, each once and lowest first, and NULL from then on |
| `Numerals.NumeralMeans` | src/lib/stdio.c:90-155 | The printed numeral is canonical and denotes the value |
| `Numerals.CanonicalUnique` | src/lib/stdio.c:90-155 | A canonical numeral is determined by its value, up to the case of its letters |
| `Notation.DecimalIs` | src/lib/stdio.c:87-126 | The decimal numeral is the number in the characters "0123456789", without a leading zero |
| `Notation.HexIs` | src/lib/stdio.c:145-155 | The hexadecimal numeral is the number in "0123456789abcdef" or in "0123456789ABCDEF", never a mixture |
| `Notation.PointerIs` | src/lib/stdio.c:173-185 | The digits of %p are the number in sixteen characters of "0123456789abcdef" |
| `Notation.NumeralUnique` | src/lib/stdio.c:87-155 | A number has one numeral in the characters of a given alphabet |
| `Notation.DigitIff` | src/lib/stdlib_stubs.c:47-59 | In base 2 to 16 a character is a digit if and only if it is among the first characters of "0123456789abcdef" or "0123456789ABCDEF", as many as the base |
| `Notation.DigitPlace` | src/lib/stdlib_stubs.c:47-55 | A digit has value d if and only if it stands at place d of either string |
| `Numerals.DigitsLength` | src/lib/stdio.c:11 | A value needs at most n digits if and only if it is below the nth power of the base |
| `Numerals.PaddedMeans` | src/lib/stdio.c:175-185 | The padded numeral has exactly the given width and denotes the value |
| `Numerals.WriteDecimal` | src/lib/stdio.c:118-126 | The backward loop of %u stays inside the 21-byte scratch buffer and leaves the terminated decimal numeral |
| `Numerals.WriteSigned` | src/lib/stdio.c:85-100 | Likewise for %d with its sign, for every value above INT64_MIN |
| `Numerals.WriteHex` | src/lib/stdio.c:145-155 | Likewise for %x and %X |
| `Numerals.WritePointer` | src/lib/stdio.c:173-185 | The loop of %p always writes sixteen digits |
| `Strtoull.CutoffExact` | src/lib/stdlib_stubs.c:40-74 | The overflow test holds if and only if taking the digit would exceed 2^64 - 1 |
| `Strtoull.TakeDigits` | src/lib/stdlib_stubs.c:43-78 | The digit loop ends at the end of the longest digit run, past an overflow too, with the value of the run or 2^64 - 1, whichever is smaller |
| `Strtoull.ValueGrows` | src/lib/stdlib_stubs.c:62-74 | More digits never make the value smaller, so an overflow stays one |
| `Strtoull.SimpleStrtoull` | src/lib/stdlib_stubs.c:8-90 | For every string and base the text read is all blanks there are, at most one sign, the prefix if the base admits one, and all digits there are in the base that results, each given by its characters; the value is their number or 2^64 - 1, whichever is smaller; a base outside 2 to 16 consumes nothing |
| `Strtoull.ReadsIff` | src/lib/stdlib_stubs.c:8-90 | For every string and base there is exactly one such reading, and it is what the function answers |
| `Strtoull.EndIsStandard` | src/lib/stdlib_stubs.c:14-82 | For every string and supported base, *endptr is where the standard puts it if and only if a prefix has digits behind it, no 8 or 9 ends an octal number, and a string without digits has neither blank nor sign in front |
| `Strtoull.BarePrefix` | src/lib/stdlib_stubs.c:28-30 | A bare prefix: the code consumes both characters, the standard one |
| `Strtoull.OctalIsDecimal` | src/lib/stdlib_stubs.c:28-35 | A leading 0 with base 0: decimal for the code, octal for the standard |
| `Strtoull.LoneSign` | src/lib/stdlib_stubs.c:19-25 | A sign without digits: the code consumes it, the standard does not |
| `Strtoull.DecimalRoundTrip` | src/lib/stdlib_stubs.c:14-82 | The decimal numeral of any 64-bit value parses back with base 10 or 0 |
| `Strtoull.HexRoundTrip` | src/lib/stdlib_stubs.c:14-82 | The hexadecimal numeral, in either case, parses back with base 16 |
| `Strtoull.PointerRoundTrip` | src/lib/stdlib_stubs.c:28-82 | The prefixed pointer text parses back with base 0 or 16 |
| `Strtoull.SignedRoundTrip` | src/lib/stdlib_stubs.c:14-82 | The signed numeral parses to the absolute value |
| `PrintParse.PrintThenParse` | src/lib/stdio.c:22-221 | The expansion of %llu, %llx, %llX, %lld and %p parses back to the (absolute) value with the end at the terminator |
| `PrintParse.PrintAndParse` | src/lib/stdio.c:22-221 | The same for the two functions called in a row, through the buffer |
| `PrintParse.TextWidth` | src/lib/stdio.c:11 | At most 20 characters in decimal with the sign, 16 in hexadecimal, 18 for a pointer |
| `Kprintf.Kprintf` | src/lib/stdio.c:28-211 | For every format of literal text and complete directives, unsupported ones included, the buffer holds exactly the first min(1023, n) of the n characters of the unbounded expansion, with that count returned, if and only if every %p and every unsupported directive is well placed; an expansion of at most 1023 characters is printed whole |
| `Kprintf.OutputIsPrefix` | src/lib/stdio.c:28-211 | The same equivalence for the loop from any position and any beginning |
| `Kprintf.OutputFits` | src/lib/stdio.c:197-211 | The terminator is stored inside the 1024 bytes if and only if no unsupported directive is met at place 1022 |
| `Kprintf.ExactInBounds` | src/lib/stdio.c:28-211 | Where the expansion is printed exactly, the terminator has its place |
| `Kprintf.PrefixDropped` | src/lib/stdio.c:164-193 | Behind 1021 characters of text, %p prints no pointer's prefix |
| `Kprintf.UnsupportedAtTheEnd` | src/lib/stdio.c:197-201 | Behind 1022 characters of text, an unsupported directive leaves the terminator no place |
| `Kprintf.ShortExact` | src/lib/stdio.c:28-211 | An expansion that fits the buffer meets that condition |
| `FormatTexts.CharText` | src/lib/stdio.c:62-64 | %c, with any flags, width and length modifier, prints the character |
| `FormatTexts.StringText` | src/lib/stdio.c:65-74 | %s prints the string |
| `FormatTexts.NullText` | src/lib/stdio.c:65-74 | %s prints "(null)" for NULL |
| `FormatTexts.SignedText` | src/lib/stdio.c:75-108 | %d and %i, with any flags, width and modifier, print a minus sign for a negative value and the decimal numeral of its absolute value |
| `FormatTexts.UnsignedText` | src/lib/stdio.c:109-134 | %u prints the decimal numeral |
| `FormatTexts.LowerHexText` | src/lib/stdio.c:135-163 | %x prints the hexadecimal numeral in small letters |
| `FormatTexts.UpperHexText` | src/lib/stdio.c:135-163 | %X prints the hexadecimal numeral in capitals |
| `FormatTexts.PointerText` | src/lib/stdio.c:164-193 | %p prints "0x" and sixteen digits in small letters |
| `FormatTexts.PercentText` | src/lib/stdio.c:194-196 | "%%", with any flags, width and modifier between, prints one percent sign |
| `FormatTexts.UnsupportedText` | src/lib/stdio.c:197-201 | Any other letter prints a percent sign and the letter |
| `FormatTexts.PlainText` | src/lib/stdio.c:202-206 | A format without a percent sign prints itself |
| `FormatTexts.Joined` | src/lib/stdio.c:28-208 | The expansion of two formats in a row is the expansion of the first on its arguments followed by that of the second on the others |
| `FormatTexts.PointerCut` | src/lib/stdio.c:164-193 | Behind 1021 or 1022 characters of text, %p prints the leading two digits or one, and no prefix |
| `FormatTexts.UnsupportedCopied` | src/lib/stdio.c:197-201 | Behind 1022 characters of text, an unsupported directive is copied in full |
| `FormatTexts.ByteText` | src/shell/shell.c:75 | "%02x" prints the numeral of a byte in small letters, unpadded |
| `FormatTexts.WordText` | src/shell/shell.c:71 | "%016llx" prints the numeral of a 64-bit value in small letters, unpadded |
| `FormatTexts.AllocatedText` | src/shell/shell.c:231 | What the shell prints for an allocation: the size in decimal, then "0x" twice and sixteen digits |
| `Kprintf.Format` | src/lib/stdio.c:28-211 | Whenever the terminator has its place, the loop over format and arguments leaves the modelled output, terminated |
| `Kprintf.PointerExact` | src/lib/stdio.c:164-193 | %p prints as much of its full text as fits if and only if it starts before the last two places, or in the last one with 0 as first digit |
| `Kprintf.CopyClipped` | src/lib/stdio.c:65-74 | The text is appended as far as there is room, and what was in the buffer stays |
| `Kprintf.ReadDirective` | src/lib/stdio.c:30-58 | The loops over flags and width and the length modifier find the directive |
| `Strtok.Tokenize` | src/shell/shell.c:379-384 | The shell's loop ends, and its arguments are the first maximal non-delimiter runs of the line, in order, all of them unless the vector is full: runs of characters outside the delimiter string that together hold every such character; each argument reads in the final buffer as its token and a NUL, and nothing else differs from the line but NULs behind tokens |
| `Strtok.TokensUnique` | src/lib/string.c:55-85 | A string has only one such list of tokens |
| `Strtok.NextAnswer` | src/lib/string.c:55-85 | After k tokens, the next call answers with token k of the original string, or NULL when there is none, and the cursor is again in front of the rest |
| `Strtok.SpansAreRuns` | src/lib/string.c:55-85 | Every token is a maximal run of non-delimiters, and they come in order with a delimiter between them |
| `Strtok.SpansCover` | src/lib/string.c:55-85 | Every character that is not a delimiter belongs to a token |
| `Strtok.CutTokens` | src/lib/string.c:79-82 | What the caller reads at a token already returned is that token, ended by a NUL, whatever calls followed |
| `Strtok.CutKeeps` | src/lib/string.c:79-82 | No character changes except the one behind a returned token |
| `Strtok.Tokenizer.StrSpn` | src/lib/string.c:88-108 | The loop counts exactly the leading delimiters |
| `Strtok.Tokenizer.StrPbrk` | src/lib/string.c:111-122 | The loop finds the first delimiter, or NULL when there is none |
| `Strtok.Tokenizer.Strtok` | src/lib/string.c:55-85 | One call: answer, cursor and buffer as the model of a call says, from the string or from the saved cursor |

## Left out

- The PL011 UART driver and blocking input: kprintf is modelled up to its terminated buffer.
- Boot and exception code, system calls, shell commands, the text interface, shutdown: of the shell only the strtok loop matters here.
- Diagnostics that the allocators print through kprintf: they do not touch allocator state.
- `simple_strtoul` and `abort`: a clamp that never acts on a 64-bit machine, and an endless loop.
- `memset`, `memcpy`, `strlen`, `strcmp`, `strncmp`: used as specified operations.
- KHeap.KernelHeap.Kmalloc: requests whose size arithmetic wraps around 2^64 are excluded by a precondition, so the page-count guard of src/memory/kheap.c:58 has nothing to do; the frames it draws ascend, as those of alloc_frame do while nothing is given back to free_frame.
- KHeap.KernelHeap.Kfree: takes NULL or the payload address of a block of the heap, live or already free; foreign and stale pointers are excluded, as the code reads a header there unchecked.
- Memory is a map from addresses to 64-bit words at multiples of 8; client stores are of aligned words, not of single bytes; the one-byte is_free flag counts as a word of its own, and the bitmap is an array beside that memory.
- The headers' values in memory are kept in a ghost map that a predicate ties to the words; no type-based aliasing of C is modelled.
- Kprintf.Kprintf: a format that ends in the middle of a directive is excluded, since the code reads past it, and so is one that leaves the terminator no place, which Kprintf.OutputFits characterises.
- Kprintf.Format: the same formats are excluded.
- Numerals.WriteSigned: INT64_MIN is excluded, because its negation overflows in C.
- The store of src/memory/kheap.c:257 writes a flag that is already down since the removal; the model has no second store.
