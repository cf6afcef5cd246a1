# Verified model of the heap allocator and its support code

The project models four parts of the repository and proves what they are for.

* **The allocator of `mm.c`.**  A heap of boundary-tagged blocks with immediate coalescing, footerless allocated blocks,
  16-byte mini blocks and 14 segregated free lists whose links live inside the free blocks.  `Allocator.Heap` has the
  source's variables as fields (`mem`, `segList`, `miniList`, `brk`, `heapStart`) and its functions as methods; ghost fields
  say what the words mean: which blocks there are, which are on a list, and in what order.  `Heap.Settling(x)` is the joint
  invariant over layout, tags, footers and lists with one block x that is still being worked on; `Heap.Ready()` is the case
  without exception.  The top theorem, `ObjectStore.Run`, says that over every run of malloc, calloc, realloc, free and
  payload writes the heap behaves like a store of independent objects, and that a request is refused exactly when no free
  block fits and the heap cannot grow.  `Allocator.State` holds what decides all answers, the order of the free lists
  included, and `Determinism.RunDetermined` says that the script and the limit determine every address.
* **The splay tree of `stree.c`.**  Nodes with parent links, rotated in place, refine a finite map; splaying keeps the order
  and meets the amortised bound, also over whole runs of insertions and removals, whose trees and costs are determined step
  by step.
* **The sparse memory of `memlib.c`.**  A hash table of pages, with accesses that may straddle two pages, refines a flat array
  of bytes, and fails exactly at bytes that were never stored and when its pages are used up.
* **The sampler of `fcyc.c`.**  An array that holds the k smallest samples of a stream.

## How to read it

Heap addresses are word indices: index p stands for byte address `mem_heap_lo() + 8 * p`, index 0 holds the prologue and
also stands for NULL.  Block sizes are counted in 8-byte words.  A header word is a `Word` with its three status bits and the
rest apart; `BoundaryTags.Value` and `WordOf` relate it to the 64-bit number, and payload bytes are read through them.

The modules of the allocator come in layers: `BoundaryTags` (words and sizes), `Layout` (how the heap is cut), `FreeIndex`
(lists), `Tagging` (what tags say), `Coalescing` and `Placement` (what each step does to all of these as values), `FitSearch`
(what find_fit looks for), `Allocator` (the code), `Copying` and `Reallocation`, `ObjectStore` (runs), `RoundTrip`,
`HeapCheck` (the checker), `HeapState` (what memory tells about the heap), `Determinism` and `ClientLaws` (what a script
tells).  `TreeShapes` holds the theory of splaying on values, `SplayTree` the code and `SplayRuns` its runs; `SparseMemory`
the paged memory and `SparseRuns` what is built on it; `Sampling` the sampler; `LittleEndian` numbers as bytes.

Where code and prose of the repository differ, the model follows the code:

* The class bounds of find_class are strict: a block of 32 bytes is in class 1, not 0.  Class 0 is therefore always empty
  (`FitSearch.ClassZeroEmpty`).
* find_fit does not look for the best fit.  It stops at the end of the first strictly decreasing run of fitting blocks
  (`FitSearch.EndsFirstDescent`); `FitSearch.NotSmallest` gives a heap in which a smaller fit is left behind.
* `write_prev_alloc(block, false)` changes nothing.  The successor's bit is stale until coalesce_block rewrites it, which is
  why `Settling` has an exception for one block.
* The prev link of the head of a class list is unspecified; only the others are exact (`FreeIndex.BackLinked`).
* When mm_init gets its first two words but not its first chunk, it reports failure and yet leaves a usable empty heap.
* The size computation of malloc wraps around for sizes within 23 bytes of 2^64.  `BoundaryTags.AdjustedSizeFits` says exactly
  when the result has room for the request, and `HugeRequestWraps` gives a size for which it has not; malloc, realloc and
  calloc are stated for the sizes for which it has.
* tree_find and tree_find_nearest do not splay, nor do a tree_insert that finds its key present and a tree_remove that does
  not find its key.  The amortised bounds therefore speak of the effective insertions and removals only;
  `SplayRuns.DeepSearches` builds, in n iterations at most, a tree in which a search walks down n nodes as often as it is
  repeated.

## Model

| member | source | states |
|---|---|---|
| BoundaryTags.PackAll | mm.c:236-251 | a packed header is the number size + alloc + 2 * prev_alloc + 4 * prev_mini, and its size and bits can be taken out again |
| BoundaryTags.FieldsOf | mm.c:262-392 | the status bits are bits 0, 1 and 2 of the number, the size is the number without its low four bits, and setting the prev_alloc bit adds 2 unless it is there |
| BoundaryTags.WordOf | mm.c:262-264 | every 64-bit number is the value of a cut into bits and rest |
| BoundaryTags.ValueInjective | mm.c:262-264 | words with the same 64-bit value are the same word |
| BoundaryTags.AdjustedSizeFits | mm.c:1281 | the computed block size has room for header and request if and only if size + 23 < 2^64; then it is a multiple of 16, at least 16, with 8 to 23 bytes of overhead; otherwise it is 0 or 16 |
| BoundaryTags.HugeRequestWraps | mm.c:1281 | malloc(2^64 - 1) would ask for a block of 16 bytes |
| BoundaryTags.BlockWords | mm.c:1281 | block size of malloc in words: even, at least 2, payload large enough, at most 23 bytes more than requested |
| BoundaryTags.BlockWordsAdjusted | mm.c:1281 | that size in bytes is what the code computes on 64 bits |
| BoundaryTags.Max | mm.c:204-206 | the larger of the two |
| BoundaryTags.RoundUp | mm.c:214-216 | the least multiple of n that is not smaller |
| BoundaryTags.SameClass | mm.c:554-586 | two sizes belong to the same class if and only if none of the 13 bounds separates them |
| BoundaryTags.OverflowTestExact | mm.c:1415-1423 | dividing the wrapped product by the first factor gives the second one if and only if the product fits 64 bits, for all nonzero counts |
| BoundaryTags.PointerExact | mm.c:150-166 | a stored word leads to a block exactly when it is the whole pointer to it |
| Layout.Predecessor | mm.c:494-534 | every boundary but the first has a block that ends there |
| Layout.LayoutUnique | mm.c:737-822 | a layout without adjacent free blocks is determined by its allocated blocks and its end |
| Layout.FuseTiles | mm.c:769-821 | joining the blocks between two boundaries leaves a gapless cut |
| Layout.FuseSeparates | mm.c:769-821 | joining a whole run of free blocks leaves no two free neighbours |
| Layout.CutTiles | mm.c:879-893 | splitting a block leaves a gapless cut |
| FreeIndex.InsertMini | mm.c:622-638 | pushing a mini block keeps all 15 lists exact, with the block at the head of the mini list |
| FreeIndex.InsertClass | mm.c:640-657 | pushing a larger block keeps all 15 lists exact, back links included, and writes link words only |
| FreeIndex.RemoveMini | mm.c:669-692 | unlinking any mini block keeps all 15 lists exact |
| FreeIndex.RemoveHead | mm.c:708-713 | taking the head off a class list keeps all lists exact although the new head's prev link is not repaired |
| FreeIndex.RemoveInner | mm.c:715-726 | linking the neighbours of an inner or last block to each other keeps all lists exact |
| FreeIndex.ClassPosition | mm.c:695-706 | a listed block is the head of its class or its prev link leads to the block before it |
| Tagging.TagsFrame | mm.c:150-166 | writing links of free blocks changes no header, footer or epilogue |
| Tagging.FuseTags | mm.c:769-821 | header, footer and successor as coalesce_block writes them describe the joined cut, with no stale bit left |
| Tagging.NextHeader | mm.c:418-423 | find_next from a block leads to the next block or to the epilogue, and reads its status |
| Coalescing.FindPrevCorrect | mm.c:515-534 | a clear prev_alloc bit means that a free block ends here and find_prev finds it, by the mini bit or by its footer |
| Coalescing.PrevAllocated | mm.c:750-753 | a set prev_alloc bit means that no free block ends here |
| Coalescing.RunAround | mm.c:741-758 | prev, next and their status bits delimit the maximal run of free blocks around the block |
| Coalescing.FuseAll | mm.c:737-822 | joining the run repairs layout, tags, lists and neighbour condition at once and keeps every live payload |
| Placement.Release | mm.c:1340-1347 | freeing a block leaves only that block unlisted and its successor stale; other payloads are kept |
| Placement.Claim | mm.c:1302-1309 | marking a free block allocated and telling its successor leaves everything consistent |
| Placement.Split | mm.c:870-897 | cutting an allocated block leaves only the rest unlisted and its successor stale |
| Placement.Extend | mm.c:842-850 | replacing the epilogue by a free block and a new epilogue leaves only that block unlisted |
| Placement.TailFound | mm.c:833-856 | new words at the end of the heap join the free block that ends there, if there is one, and no other |
| Placement.LonelyMerged | mm.c:760-766 | coalescing a block without free neighbours changes no layout and puts it in front of its list |
| Placement.RejoinedOrder | mm.c:760-821 | coalescing puts the union in front of its list and keeps the order of all blocks that it does not join |
| Placement.CarvedOrder | mm.c:1299-1314 | cutting a block puts the rest in front of its list and keeps the order of all other blocks |
| Placement.WritePayload | mm.c:150-166 | whatever a client writes into a live payload, the heap stays consistent and other payloads keep their words |
| Allocator.Heap.WritePack | mm.c:438-449 | header, and footer exactly for free blocks that are not mini; all other words stay |
| Allocator.Heap.WritePrevAlloc | mm.c:470-487 | sets the bit in the header, and in the footer of a free block that is not mini; with false, memory does not change at all |
| Allocator.Heap.InsertFree | mm.c:618-658 | the block is in front of its list, all other lists are as before, lists and tags stay exact, payloads are kept |
| Allocator.Heap.InsertMini | mm.c:622-638 | the block becomes the head of the mini list, and the rest keeps its order |
| Allocator.Heap.InsertClass | mm.c:640-657 | the block becomes the head of its class list, and the rest keeps its order |
| Allocator.Heap.RemoveFree | mm.c:665-727 | the block is off its list, the rest of it keeps its order, all other lists are as before, lists and tags stay exact, payloads are kept |
| Allocator.Heap.FindBefore | mm.c:684-687 | the search ends at the block in front of the one to remove |
| Allocator.Heap.FindPrevBlock | mm.c:515-534 | computes the address that FindPrevCorrect speaks of |
| Allocator.Heap.JoinNone | mm.c:760-766 | case one repairs the heap; the block is listed as it is |
| Allocator.Heap.JoinPrev | mm.c:769-781 | case two repairs the heap; the new block is the union with the block before |
| Allocator.Heap.JoinNext | mm.c:784-800 | case three repairs the heap; the new block is the union with the block after |
| Allocator.Heap.JoinBoth | mm.c:803-821 | case four repairs the heap; the new block is the union of all three |
| Allocator.Heap.CoalesceBlock | mm.c:737-822 | from one unlisted free block with a stale successor to a fully consistent heap; the result is the union of the block with its free neighbours, which are off their lists, and heads its own list; other blocks, the order of the lists and all live payloads are unchanged |
| Allocator.Heap.Sbrk | memlib.c:261-315 | moves the break by the step, or leaves it and answers -1 exactly when the step is negative, passes the limit of the heap or is not made accessible |
| Allocator.Heap.ExtendHeap | mm.c:833-856 | the heap grows by the rounded size, joined with a free tail, where the new block then starts, and it heads its list; or nothing changes, exactly when the break cannot be moved that far |
| Allocator.Heap.SplitBlock | mm.c:870-897 | cuts exactly when the rest can be a block; the allocated part keeps its place, other payloads are kept |
| Allocator.Heap.FindFit | mm.c:910-954 | NULL if and only if no free block of the heap is large enough; a mini request takes the head of the mini list; otherwise the lowest class with a fit, and in it the end of the first strictly decreasing run of fitting sizes |
| Allocator.Heap.SearchClass | mm.c:921-950 | the inner loop: NULL only if no block of the list fits, else the end of the first descent |
| FitSearch.FindClassMonotone | mm.c:554-586 | larger blocks never belong to a lower class |
| FitSearch.ClassZeroEmpty | mm.c:557-560 | list 0 is empty in every consistent heap |
| FitSearch.SearchComplete | mm.c:919-954 | if no list from the request's class on has a fit, no listed block at all fits |
| FitSearch.ScanStop | mm.c:928-942 | stopping at the first block that is not smaller returns the end of the first descent |
| FitSearch.ScanAll | mm.c:926-950 | a list scanned to its end has no fit, or the best so far ends its only descent |
| FitSearch.SmallestExactly | mm.c:926-950 | what the search takes is the smallest fit of its list if and only if no block further down the list is smaller |
| FitSearch.NotSmallest | mm.c:926-950 | a layout and its class lists in which find_fit takes a block of 160 bytes and leaves one of 144 that fits |
| FitSearch.ChosenUnique | mm.c:910-954 | find_fit has one answer |
| FitSearch.SegregatedFit | mm.c:910-954 | when a block below one of the class bounds fits, the block taken is below that bound, whatever larger ones there are and in whatever order |
| FitSearch.SmallClassFirst | mm.c:910-954 | with free blocks of 48, 144 and 112 bytes, malloc(40) takes the first one |
| Allocator.Heap.MmInit | mm.c:1217-1238 | true exactly when the prologue, the epilogue and the chunk can be had, and then the heap is one free chunk on its list; otherwise no heap, or a usable empty one when only the chunk is refused |
| Allocator.Heap.Free | mm.c:1328-1353 | exactly that block is not live any more; it is one with its free neighbours, in front of its list, the order of all other lists is kept, and all other payloads are unchanged |
| Allocator.Heap.Allocate | mm.c:1284-1319 | a fresh block of exactly n words, and NULL exactly when nothing fits and 4096 bytes, or the block size if it is larger, cannot be had; it is the one that find_fit picks, or starts at the tail of the heap, which then grows by just that; the lists are determined; on failure nothing changes |
| Allocator.Heap.Malloc | mm.c:1258-1320 | a fresh live block of the computed size, the one that find_fit picks if there is a fit and else at the tail of the heap, which grows by max(block size, 4096) bytes; a first call finds the chunk; NULL exactly for size 0 or when nothing fits and that much cannot be had; break and lists are exact in every case; all live payloads unchanged |
| Allocator.Heap.constructor | mm.c:170-176 | the globals before the first call: no heap, and Valid |
| Copying.MemCpy | memlib.c:449-464 | on word-aligned heap addresses: target bytes are the source bytes of before, all other bytes unchanged, for disjoint ranges or the target in front |
| Copying.MemSet | memlib.c:467-485 | on word-aligned heap addresses: exactly the range is filled |
| Reallocation.Realloc | mm.c:1363-1400 | keeps the first min(new size, old payload) bytes through malloc, which takes what find_fit picks, and free of the old block, with the lists of both; NULL exactly when the inner malloc fails, and then nothing changes, or for size 0 |
| Reallocation.Multiply | mm.c:1415-1423 | accepts exactly the products that fit, and then computes them |
| Reallocation.Calloc | mm.c:1411-1434 | NULL on overflow and for zero elements, with no change; otherwise the block that malloc of the product finds, the one that find_fit picks if there is a fit, with all bytes of the product zero and other payloads unchanged |
| ObjectStore.DoStep | mm.c:1258-1434 | one step of a client keeps the representation of its objects, and the heap's blocks, break, lists and answer follow from its state before: a request is met if and only if a block fits or the heap can grow, and the new block lies where find_fit picks or else at the tail |
| ObjectStore.TraceNext | mm.c:1258-1434 | a run is extended by a step when the heap's state follows from the one before by that step |
| ObjectStore.Run | mm.c:1258-1434 | over every finite script of steps, each object lies in a live block of its own with the bytes the script gave it; and the states in between form a trace in which every allocation is refused exactly when no free block fits at that point and the heap cannot grow |
| ObjectStore.RunFresh | mm.c:1258-1434 | the same from the state before the first call, for every heap limit |
| ObjectStore.NoLeaks | mm.c:1258-1434 | the live blocks are exactly those of the objects |
| ObjectStore.PayloadsApart | mm.c:1258-1434 | represented payloads are 16-byte aligned, inside the heap and pairwise disjoint |
| ObjectStore.AfterMove | mm.c:1363-1400 | moving one object to a new block leaves all other objects as they are |
| Determinism.StepDetermined | mm.c:1258-1434 | one step from one state has one answer, one address and one state after it, on any heap of the same limit |
| Determinism.RunDetermined | mm.c:1258-1434 | two runs of the same script on heaps of the same limit agree in every answer, address and state |
| ClientLaws.WriteStays | mm.c:1258-1434 | what was written into an object is found in its payload after any steps that do not overwrite it, cut it off or give it back, wherever realloc has moved it |
| ClientLaws.ZeroStays | mm.c:1411-1434 | a byte from calloc is zero until it is written |
| ClientLaws.SizeStays | mm.c:1258-1434 | an object keeps its size until it is reallocated or freed |
| RoundTrip.HistoryIndependent | mm.c:737-822 | two heaps of the same extent with the same live blocks are cut in the same way |
| RoundTrip.MallocThenFree | mm.c:1258-1353 | malloc and then free restores the cut; if the heap had to grow, the cut with the new words joined to its tail; and malloc's answer and the break are exact: the block is had whenever one fits or the heap can grow |
| RoundTrip.FreeThenMalloc | mm.c:1258-1353 | free of a block between live blocks and malloc for the same block size give the same payload back, and leave blocks, break and lists as they were |
| RoundTrip.MallocBelow | mm.c:1258-1320 | malloc takes a block below a class bound when one below it fits |
| RoundTrip.SameLiveRestored | mm.c:833-856 | a layout with the same live blocks and a later end is the old one with its tail joined |
| HeapCheck.CheckPrologueEpilogue | mm.c:962-994 | true if and only if both ends are allocated and have size zero |
| HeapCheck.GeneralHeapChecker | mm.c:1099-1135 | on any memory whose walk stays inside, true if and only if the ends and every block on the way pass all checks |
| HeapCheck.CheckSound | mm.c:1099-1135 | a positive answer means the headers cut the heap without gap or overlap into aligned blocks with no two free neighbours |
| HeapCheck.WalkComplete | mm.c:1099-1135 | on a heap in use the walk by find_next visits exactly the blocks, reads them correctly and ends at the epilogue |
| HeapCheck.HeapSize | mm.c:1099-1135 | the heap is 16 bytes larger than its blocks together |
| HeapCheck.HeaderNumber | mm.c:236-392 | on a heap in use every header is the number that mm.c defines: size, status, and the status and size of the block in front; and a free block that is not mini has it as its footer too |
| HeapCheck.CheckClass | mm.c:1145-1182 | true if and only if every block of the list is in the heap, in its class, and what its successor's prev link leads to |
| HeapCheck.CheckList | mm.c:1142-1187 | true if and only if all lists pass |
| HeapCheck.MmCheckHeap | mm.c:1197-1208 | on any memory whose walk stays inside and whose lists end, true if and only if the ends, all blocks and all class lists pass |
| HeapCheck.ReadyPasses | mm.c:1197-1208 | a heap in use meets the conditions of the checker and passes every check, so the answer is true |
| HeapState.CheckedExactly | mm.c:1197-1208 | for any memory and list heads: the invariant of the heap holds if and only if mm_checkheap passes and what it does not look at holds too: stray bits, prev bits, which blocks the class lists hold, and the mini list |
| HeapState.StateDetermined | mm.c:168-176 | memory and list heads determine which blocks there are, which are listed, and in what order |
| HeapState.ChainUnique | mm.c:926-945 | from a given head the links lead through one list only |
| HeapState.PrevBitUnseen | mm.c:1197-1208 | a heap with a wrong prev_alloc bit that passes mm_checkheap and fits no description |
| HeapState.MiniUnseen | mm.c:1197-1208 | a heap with a free mini block on no list that passes mm_checkheap and fits no description |
| LittleEndian.BytesOfJoin | memlib.c:428-432 | the bytes of the number made of some bytes are these bytes |
| LittleEndian.JoinMod | memlib.c:401-404 | masking keeps the low bytes |
| LittleEndian.BytesDigit | memlib.c:428-432 | byte i of a number is its digit with weight 256^i |
| LittleEndian.JoinDigit | memlib.c:369-405 | the number made of some bytes has them as its digits |
| TreeShapes.StepRises | stree.c:203-227 | an iteration moves the node up by two levels, or by one to the root, and there are half as many iterations as levels, rounded up |
| TreeShapes.StepRotates | stree.c:203-227 | every zig, zig-zig and zig-zag is made of rotations and keeps order and size |
| TreeShapes.SplayedInOrder | stree.c:203-227 | splaying ends with the node at the root and keeps the in-order sequence |
| TreeShapes.RankOfParts | stree.c:203-227 | of two disjoint parts of a tree one has a smaller rank than the whole |
| TreeShapes.RankIsLog | stree.c:203-227 | the rank is the logarithm: 2^rank(n) <= n < 2^(rank(n) + 1) |
| TreeShapes.StepCost | stree.c:203-227 | amortised cost of one iteration; only the single rotation at the root costs one more |
| TreeShapes.SplayCost | stree.c:203-227 | iterations plus change of potential are at most 3 * (rank of the root - rank of x) + 1 |
| TreeShapes.InsertCost | stree.c:56-70 | amortised cost of hanging a new leaf anywhere and splaying it: at most 4 * rank(n + 1) + 1 |
| TreeShapes.FirstInOrder | stree.c:240-244 | the leftmost node is the first in order, and replacing it by its right subtree removes exactly it, with no more potential |
| TreeShapes.FirstPlugged | stree.c:240-244 | taking the leftmost node out changes nothing but that its right subtree takes its place |
| TreeShapes.JoinedInOrder | stree.c:120-135 | the tree that tree_remove leaves has the nodes of both subtrees in order, one node less and no more potential |
| TreeShapes.ParentFirstTooDear | stree.c:210-219 | with the parent rotated first in the zig-zig case the bound would fail on some tree of seven nodes |
| TreeShapes.RunCost | stree.c:203-227 | any m splays on n nodes take at most m * (3 * rank(n) + 1) + n * rank(n) iterations |
| SplayTree.SplayTree.LeftRotate | stree.c:165-182 | in any context, all child and parent links and the root are those of the rotated tree |
| SplayTree.SplayTree.RightRotate | stree.c:184-201 | the mirror image |
| SplayTree.SplayTree.SplayStep | stree.c:204-226 | the loop body does the step of the theory, whatever the side tests see |
| SplayTree.SplayTree.Splay | stree.c:203-227 | the links become those of the splayed tree, x is the root, and the number of iterations is the one of the bound |
| SplayTree.SplayTree.Replace | stree.c:229-238 | the second subtree takes the place of the first, with all links |
| SplayTree.SplayTree.SubtreeMinimum | stree.c:240-244 | finds the leftmost node, with the path that leads back up to the start |
| SplayTree.SplayTree.Insert | stree.c:38-73 | false if and only if the key is present, then nothing changes and nothing is splayed; otherwise the map gains the pair, the tree is the one that splaying a new leaf up the search path gives, and the iterations are those of that path and meet the bound 4 * rank(n + 1) + 1 |
| SplayTree.SplayTree.Find | stree.c:75-88 | the record of the key, or NULL when it is absent, after as many steps as the search path is long |
| SplayTree.SplayTree.FindNearest | stree.c:90-106 | the record of the largest key that is not above the query, or NULL when there is none |
| SplayTree.SplayTree.Remove | stree.c:108-140 | the map loses the key and its record is returned; the tree is the one that splaying the node up its search path and joining its subtrees gives, with the next larger key at the root when there are keys on both sides; the iterations are those of that path and meet the bound 3 * rank(n) + 1 |
| SplayTree.SplayTree.Unlink | stree.c:121-135 | all three cases leave the links of the joined subtrees |
| SplayTree.Successor | stree.c:121-135 | the node that takes the root's place has the next larger key, beside the untouched left subtree; with one subtree empty the other one is left |
| SplayTree.InsertPays | stree.c:38-73 | the splay of an insertion costs at most 4 * rank(n + 1) + 1, amortised |
| SplayTree.RemovePays | stree.c:108-140 | the splay of a removal costs at most 3 * rank(n) + 1, amortised |
| SplayRuns.Perform | stree.c:38-140 | one operation turns the tree into the one that its path and key determine, with exactly the iterations of its splay |
| SplayRuns.Run | stree.c:38-140 | over every run of m insertions and removals from the empty tree, the tree holds what the run determines, each tree follows from the one before by its operation, and the iterations add up to the sum of the costs of these operations, at most m * (4 * rank(m) + 1) |
| SplayRuns.RunBound | stree.c:38-140 | in every history of m operations from the empty tree, the splays cost at most m * (4 * rank(m) + 1) and the searches before them take at most twice as many steps |
| SplayRuns.DeepSearches | stree.c:75-88 | for every n, inserting 1 to n in this order into the empty tree takes n iterations at most and leaves a tree in which a search takes n steps and nothing is splayed |
| SplayTree.Inserted | stree.c:56-73 | a node put where the search ends keeps key order and represents the extended map |
| SplayTree.Removed | stree.c:120-139 | without the node the sequence stays ordered and represents the smaller map |
| SplayTree.DictSize | stree.c:71-137 | node_count is the number of keys |
| SparseMemory.SparseMemory.ResetBrk | memlib.c:227-235 | all pages are free and nothing is known, whatever the pages contain |
| SparseMemory.SparseMemory.Sbrk | memlib.c:261-315 | refused exactly for negative steps and beyond the limit |
| SparseMemory.SparseMemory.Lookup | memlib.c:553-555 | the chain search finds the page of an id if and only if there is one |
| SparseMemory.SparseMemory.FindPage | memlib.c:548-578 | gives the page of the id, making one if needed; fails exactly when a page is needed and none is free |
| SparseMemory.SparseMemory.GetMemToWrite | memlib.c:548-615 | the place of the byte, with the bytes of the access marked up to the end of the page |
| SparseMemory.SparseMemory.GetMemToRead | memlib.c:548-615 | succeeds exactly when all bytes of the access within the page have been written |
| SparseMemory.SparseMemory.Write | memlib.c:409-445 | the flat memory gets exactly the low bytes of the value at the address, the digit with weight 256^i at offset i, across a page boundary or not; fails exactly when pages run out |
| SparseMemory.SparseMemory.Read | memlib.c:369-407 | succeeds exactly when all bytes have been written, and gives the number whose digits they are, a single byte as itself, across a page boundary or not |
| SparseMemory.Stitched | memlib.c:379-393 | masking one word and shifting the next one in joins the bytes of two pages; what lies behind the page does not matter |
| SparseMemory.SlotsApart | memlib.c:534-546 | addresses of one page are kept side by side and those of different pages apart |
| SparseMemory.PageBounds | memlib.c:534-545 | a page has 1024 bytes |
| SparseMemory.Pushed | memlib.c:570-576 | a page put at the head of its bucket keeps all chains exact |
| SparseRuns.OneChain | memlib.c:548-578 | a page id is found at one place only, on the chain of id mod num_buckets |
| SparseRuns.FreeAndChained | memlib.c:548-578 | free and chained pages make up all pages, and there are as many chained pages as page ids in use |
| SparseRuns.MemCpy | memlib.c:449-464 | the target gets what the source held before, for every length, when the ranges are disjoint or the target is in front; it succeeds if and only if the source is known and the pages of the target fit the memory together with those in use |
| SparseRuns.MemSet | memlib.c:467-485 | exactly the range is filled with the byte, for every length; it succeeds if and only if the pages of the range fit the memory together with those in use |
| SparseRuns.SetThenRead | memlib.c:369-485 | a byte read after memset, from within the range, is the one it was filled with |
| SparseRuns.WithPagesHas | memlib.c:534-575 | the pages in use after writing a range are those in use before and those of its bytes |
| SparseRuns.Spread | memlib.c:469-475 | the word that memset builds consists of eight equal bytes |
| SparseRuns.Run | memlib.c:369-445 | every run of reads and writes gives the answers of a flat memory, and ends exactly at the first access that reads a byte not written or writes to more pages than there are |
| SparseRuns.EnoughPages | memlib.c:556-575 | when the pages in use and those that a run writes to fit the memory, no write of it fails |
| SparseRuns.ReadBack | memlib.c:369-445 | a value just written reads back as its low bytes |
| Sampling.SortedCorrect | fcyc.c:63-83 | the reference order is ascending and has the samples as a multiset |
| Sampling.InsertPrefix | fcyc.c:65-71 | the k smallest after one more sample come from the k smallest before it and the sample |
| Sampling.Sampler.InitSampler | fcyc.c:49-60 | an empty sampler with a new array |
| Sampling.Sampler.AddSample | fcyc.c:63-83 | the array holds the min(n, kbest) smallest samples in ascending order, for the stream with one more sample |
| Sampling.Sampler.SiftDown | fcyc.c:76-82 | the loop puts the sample in its place and touches nothing behind |
| Sampling.Sampler.HasConverged | fcyc.c:86-89 | compares the true minimum with the true kbest-th smallest sample |
| Sampling.Sample | fcyc.c:49-83 | any stream of samples ends with its smallest ones |

## Left out

- Allocator.Heap.Malloc: stated for size + 23 < 2^64; beyond that the block size wraps around, as BoundaryTags.AdjustedSizeFits says.
- Reallocation.Realloc: the same bound on the new size.
- Reallocation.Calloc: the same bound on a product that fits 64 bits.
- Allocator.Heap.MmInit: stated for an empty heap; the driver calls mm_init after mem_reset_brk only.
- Allocator.Heap.Sbrk: the answer of mprotect is a function of the new break, given with the heap; which pages are mapped is not modelled beyond that.
- HeapCheck.GeneralHeapChecker: memory in which a block reaches behind the epilogue, where the code would read on behind the heap.
- HeapCheck.CheckClass: lists whose links do not end or lead elsewhere than to words of the heap, on which the code need not end.
- HeapCheck.CheckList: the same.
- SplayTree.SplayTree.LeftRotate: stated for a node with a right child; splaying rotates no other, so the guard of the code is always true.
- SplayTree.SplayTree.RightRotate: the mirror image.
- Copying.MemCpy: word-aligned addresses, which is how realloc uses it; SparseRuns.MemCpy has every alignment.
- Copying.MemSet: word-aligned addresses, which is how calloc uses it; SparseRuns.MemSet has every alignment.
- HeapCheck.MmCheckHeap: memory whose walk leaves the heap or, when the blocks pass, whose class lists do not end.  A positive answer alone does not give the whole invariant; HeapState.CheckedExactly says what is missing, and HeapState.PrevBitUnseen and MiniUnseen give heaps that pass without it.
- SparseMemory.SparseMemory.Write: accesses inside the break, as others go to memory of the host; after a failure the process ends, so nothing is said about the bytes then.
- SparseMemory.SparseMemory.Read: accesses inside the break, with checking of uninitialised reads switched on; hprobe, which switches it off, is not modelled.
- SparseRuns.Run: accesses inside the break; others go to memory of the host and are not modelled.
- The initialisation bits of a page are an array of booleans, not bits of bytes; the or of two numbers without common bits is written as their sum.
- Pages are numbered places in arrays rather than structures with pointers, as they lie in one block of memory in the source too.
- mem_read128 and mem_write128: two calls each of the operations above.
- mm-naive.c: a bump allocator that would add only easy members.
- mdriver.c, tracefile.c, clock.c, the timing loops of fcyc.c and the scripts: input, output, timing and command lines.
- mmap, munmap, sysconf, sanitizer hooks and statistics of memlib.c: system calls and output.
- tree_new, tree_free, tree_show, subtree_maximum and the comparison counter of stree.c: allocation, output and counting.  A record is a number, with 0 for NULL; running out of memory for a node, which ends the process, is not modelled.
- print and debug macros, and get_payload_size of mm.c, which nothing uses.
- Rounding of floating-point numbers in fcyc.c: samples are real numbers.
- Threads: the source has none.
