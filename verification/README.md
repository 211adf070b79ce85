# Verified model of the ChrisOS kernel core

A Dafny model of the parts of the ChrisOS kernel that everything else stands on, and proofs of what they promise:

* `RbShape`, `RbColor`, `RedBlack`: the red-black trees of `kernel/sys/tree.h`, pointer by pointer, with parent links.
* `SplayShape`, `Splay`: the top-down splay trees of the same file.
* `Range`, `RangeList`, `RangeMap`, `Align`, `Allocator`, `Pool`, `Malloc`, `Kmem`: coalescing lists of memory ranges in wrapping
  32-bit arithmetic, the first-fit allocator on them, the kernel's address space, and kmalloc on top of both.
* `Search`: Knuth-Morris-Pratt search in both directions. `HashShape`, `HashTable`: uthash. `ListShape`, `List`, `Insertion`: doubly
  linked lists, their mergesort, and that it gives what insertion gives.
* `Scheduler`, `Mutex`: the round-robin scheduler, and the mutex protocol as atomic steps of many threads on one CPU.
* `Time`, `Timers`: times of day, near and far timers, and the tick that moves them. `Numbers`: ksprintn and strtouq.

Code that changes things in place is modelled by classes whose methods change fields. Where the source links structures
through pointers, the heap is compared with a value (a tree, a sequence) that a ghost field carries, by way of a map from
nodes to their links; the lemmas are about those values. Where the source writes two mirror images, the model writes one,
with the side as a parameter. `dafny verify dfyconfig.toml` checks everything.

Some properties one might expect do not hold of the code. The model keeps the code as it is, shows an input that fails and
states exactly when the property holds:

* the union of two ranges, `Range.MergeExact` and `Range.MergeLoses`; their difference, `Range.CutExact` and `Range.CutLoses`;
  the same for lists, `RangeList.AddExact` and `RangeList.AddLoses`, `RangeList.SubtractExact` and `RangeList.SubtractLoses`, and
  the form of the list, `RangeList.SubtractWf` and `RangeList.EmptyHoleSplits`;
* the allocator's test, `Allocator.FitExact`, `Allocator.AllocExact`, `Allocator.OvershootPasses` and `Allocator.OvershootTakes`;
* kmalloc on large sizes, `Malloc.Kmalloc.Alloc`, `Malloc.ServableExact`, `Malloc.WrappedRequest` and
  `Malloc.RefusedRequest`; an allocation of no bytes, `Kmem.KernelSpace.VmAlloc`, `Kmem.SameAddress`, `Kmem.Shadowed` and
  `Kmem.EmptyBlockHides`;
* times, `Time.NormaliseValue` and `Time.NormaliseWraps`, `Time.TimeAddExact` and `Time.TimeAddWraps`, `Time.TimeCmpExact`,
  `Time.TimeCmpNormal` and `Time.TimeCmpUnnormalised`;
* timers, `Timers.NotEarly`, `Timers.DrainedExact` and `Timers.OverdueWraps`, `Timers.EarlyExact`,
  `Timers.Service.ScheduleAt` and `Timers.UnnormalisedEarly`;
* the mutex, `Mutex.TestDecides`, `Mutex.StuckForGood` and `Mutex.LostWakeUp`.

The header of `name##_merge` promises a union for every pair of ranges that touch; the code follows its pre_merge hook and
wraps when the union is the whole space, and the model follows the code. The comment on the scheduler's wait function says
that it avoids a missed wake-up; `Mutex.LostWakeUp` shows one, and the model follows the code.

## Model

| member | source | states |
|---|---|---|
| RedBlack.RbTree.Rotate | kernel/sys/tree.h:340-378 | rotating a node turns the tree below its place exactly as the textbook picture says, keeps the in-order sequence and every parent link, and returns the node that moved up |
| RedBlack.RbTree.RotateLinks | kernel/sys/tree.h:340-378 | the link by link effect of a rotation on the two nodes, the middle subtree, the parent and the root |
| RedBlack.RbTree.InsertStep | kernel/sys/tree.h:409-445 | one round of the insertion loop keeps the tree red-black except for one red pair, moves that pair up, and keeps the in-order sequence |
| RedBlack.RbTree.InsertColor | kernel/sys/tree.h:405-447 | the insertion fix-up ends with a red-black tree of the same in-order sequence |
| RedBlack.RbTree.RecolourUncle | kernel/sys/tree.h:414-419 | with a red uncle the red pair moves two levels up and the black counts stay equal |
| RedBlack.RbTree.RotateInner | kernel/sys/tree.h:420-425 | an inner grandchild is turned into an outer one without changing colours or order |
| RedBlack.RbTree.RotateOuter | kernel/sys/tree.h:426-427 | with a black uncle the recolouring and rotation at the grandparent remove the red pair for good |
| RbColor.RedUncle | kernel/sys/tree.h:414-419 | recolouring parent, uncle and grandparent keeps all black counts and can only leave a red pair two levels up |
| RbColor.BlackUncle | kernel/sys/tree.h:426-427 | after the rotation at the grandparent no red pair is left and all black counts are as before |
| RbColor.InnerToOuter | kernel/sys/tree.h:420-425 | turning the inner grandchild outward keeps the single red pair and all black counts |
| RedBlack.RbTree.RemoveStep | kernel/sys/tree.h:453-522 | one round of the removal loop on a subtree that is one black node short either repairs the tree or moves the shortage one level up, keeping the in-order sequence |
| RedBlack.RbTree.RemoveColor | kernel/sys/tree.h:449-525 | the removal fix-up turns a tree with one subtree a black node short into a red-black tree of the same in-order sequence |
| RedBlack.RbTree.LiftSibling | kernel/sys/tree.h:456-461 | a red sibling is rotated above the parent, which leaves the shortage with a black sibling |
| RedBlack.RbTree.PassUp | kernel/sys/tree.h:462-468 | with two black nephews, painting the sibling red moves the shortage to the parent |
| RedBlack.RbTree.TurnSibling | kernel/sys/tree.h:470-479 | with a black outer nephew, a rotation at the sibling makes the outer nephew red |
| RedBlack.RbTree.TurnParent | kernel/sys/tree.h:480-486 | with a red outer nephew, the final recolouring and rotation repair the shortage |
| RbColor.RedSibling | kernel/sys/tree.h:457-461 | black counts around a red sibling after the rotation |
| RbColor.BlackNephews | kernel/sys/tree.h:462-468 | painting the sibling red makes the whole parent subtree one black node short |
| RbColor.RedInnerNephew | kernel/sys/tree.h:470-479 | black counts after the rotation at the sibling |
| RbColor.RedOuterNephew | kernel/sys/tree.h:480-486 | black counts after the final rotation: the shortage is gone |
| RedBlack.RbTree.Unhook | kernel/sys/tree.h:576-587 | taking a node with at most one child out of its place puts the child there, parent links included |
| RedBlack.RbTree.Replace | kernel/sys/tree.h:556-567 | the successor takes over the entry of the removed node, with all links to it redirected |
| RedBlack.RbTree.Leftmost | kernel/sys/tree.h:536-543 | the descent finds the in-order successor of a node with two children |
| RedBlack.RbTree.RemoveOuter | kernel/sys/tree.h:576-590 | removing a node with at most one child leaves a red-black tree without just that node |
| RedBlack.RbTree.RemoveInner | kernel/sys/tree.h:536-575 | removing a node with two children by moving its successor up leaves a red-black tree without just that node |
| RedBlack.RbTree.Remove | kernel/sys/tree.h:527-592 | RB_REMOVE takes exactly the given node out of the node set and of the in-order sequence, keeps the tree red-black and returns the node |
| RedBlack.RbTree.Descent | kernel/sys/tree.h:601-611 | the search path ends at the node with the key or at the empty place where the key belongs |
| RedBlack.RbTree.Graft | kernel/sys/tree.h:612-620 | a new red leaf is linked at the place the search found |
| RedBlack.RbTree.Insert | kernel/sys/tree.h:594-623 | RB_INSERT adds exactly the given node at its place in the order, or returns the node that already has its key and writes nothing, neither to the tree nor to the node; the tree stays red-black |
| RedBlack.RbTree.Find | kernel/sys/tree.h:625-641 | RB_FIND returns the node with the key, and null exactly when there is none |
| RedBlack.RbTree.NFind | kernel/sys/tree.h:643-662 | RB_NFIND returns the node with the least key that is not below the given one, and null exactly when there is none |
| RedBlack.RbTree.Next | kernel/sys/tree.h:664-684 | RB_NEXT returns the next node in order, and null for the last |
| RedBlack.RbTree.Climb | kernel/sys/tree.h:672-682 | the upward half of RB_NEXT finds the first ancestor whose left subtree holds the node |
| RedBlack.RbTree.Invariants | kernel/sys/tree.h:51-59 | in every state between calls: strictly ascending in-order keys, exactly the expected nodes, consistent parent links, a black root, no red node with a red child, equal black counts, and 2^height at most (n+1)^2 |
| RbColor.HeightBound | kernel/sys/tree.h:51-59 | a red-black tree of n nodes has 2^height at most (n+1)^2, that is, height at most 2 lg(n+1) |
| RbColor.HeightByBlacks | kernel/sys/tree.h:51-59 | a tree of black height k has at least 2^k - 1 nodes and height at most 2k, or one more under a red root |
| RbShape.SearchOrder | kernel/sys/tree.h:318-323 | a tree linked in search order has a strictly ascending in-order sequence within its key bounds |
| RbShape.Rotated | kernel/sys/tree.h:340-378 | the heap after a rotation is linked as the rotated tree in its unchanged surroundings |
| Splay.SplayTree.Rotate | kernel/sys/tree.h:86-96 | a rotation at the root turns the middle tree and leaves both spines and all other nodes alone |
| Splay.SplayTree.Link | kernel/sys/tree.h:98-108 | the root joins the end of a spine and the in-order sequence of spine, tree, spine stays the same |
| Splay.SplayTree.Assemble | kernel/sys/tree.h:110-115 | the spines and the last root are put together into one search tree whose root separates the keys below the sought one from those above |
| Splay.SplayTree.RaiseAndShift | kernel/sys/tree.h:218-222 | a zig-zig round keeps the order of all nodes and either ends the search or leaves a lower tree |
| Splay.SplayTree.Step | kernel/sys/tree.h:215-237 | one round of the loop keeps the order of all nodes and the sides of the spines, and either ends the search or leaves a lower tree, so that the loop ends |
| Splay.SplayTree.Splay | kernel/sys/tree.h:207-240 | SPLAY on any non-empty search tree ends, keeps the in-order sequence and touches no node outside, and its root has the sought key or separates the keys below it from those above |
| SplayShape.Neighbour | kernel/sys/tree.h:158-160 | no other node has a key between the sought key and that of the root SPLAY leaves |
| SplayShape.Missing | kernel/sys/tree.h:131-134 | after SPLAY the key is in the tree exactly when the root has it |
| SplayShape.Assembled | kernel/sys/tree.h:110-115 | the heap after SPLAY_ASSEMBLE is linked as the two filled spines below the root |
| SplayShape.Pushed | kernel/sys/tree.h:98-108 | the heap after SPLAY_LINKLEFT or SPLAY_LINKRIGHT is linked as the longer spine and the smaller tree |
| Splay.SplayTree.Find | kernel/sys/tree.h:126-135 | SPLAY_FIND returns the node with the key, and null exactly when there is none; the set and order of nodes stay |
| Splay.SplayTree.Insert | kernel/sys/tree.h:162-184 | SPLAY_INSERT adds the node exactly when no node has its key, and otherwise returns that node and keeps the set |
| Splay.SplayTree.InsertAbove | kernel/sys/tree.h:170-178 | the new root takes over one side of the old root and the order is kept |
| Splay.SplayTree.Remove | kernel/sys/tree.h:186-205 | SPLAY_REMOVE takes out exactly the node with the key of its argument and returns the argument, or null when there is none |
| Splay.SplayTree.JoinKids | kernel/sys/tree.h:196-201 | splaying the left subtree for the removed key leaves its root without right child, and the right subtree is hung there |
| Splay.SplayTree.Invariants | kernel/sys/tree.h:61-78 | between calls the in-order keys ascend strictly and the nodes are exactly the set |
| Range.MergeHull | kernel/mm/range.h:93-127 | merge succeeds when the flags match and the ranges touch, and gives the smallest range holding both; two ranges that fill the space give an empty one if adjacent and nothing if they overlap |
| Range.MergeExact | kernel/mm/range.h:93-127 | merge gives the exact union of touching ranges with equal flags if and only if they do not fill the whole 32-bit space |
| Range.MergeLoses | kernel/mm/range.h:113-117 | the two halves of the space merge into an empty range |
| Range.CutExact | kernel/mm/range.h:141-191 | cut leaves exactly the bytes of a that are not in b, even of a b that runs past 2^32, unless b starts at 0 and reaches into an a that ends at 2^32; there, and only there, it does not |
| Range.CutLoses | kernel/mm/range.h:167-176 | a range that reaches the top of the space is cut away whole by the first two pages |
| RangeMap.RegionMap.Insert | kernel/mm/range.h:67-79 | the new region goes before the first one with a larger address |
| RangeMap.RegionMap.Add | kernel/mm/range.h:252-283 | add computes the specified list: merged into the first region it merges with, which then may absorb one more, or placed in order |
| RangeMap.RegionMap.CutAndStitch | kernel/mm/range.h:202-222 | the region is replaced in place by the zero, one or two pieces the cut leaves, whatever the hole |
| RangeMap.RegionMap.Subtract | kernel/mm/range.h:231-238 | every region of an ordered list is replaced by its pieces, whatever the hole |
| RangeMap.RegionMap.FindAddress | kernel/mm/range.h:291-302 | the first region that starts at the address, and none exactly when there is none |
| RangeMap.RegionMap.Remove | kernel/mm/vm_map.c:47-58 | the first region that starts at the address is taken out of the list |
| RangeList.Unique | kernel/mm/range.h:243-247 | two sorted, disjoint, fully coalesced lists with the same labelled bytes are the same list |
| RangeList.AddExact | kernel/mm/range.h:252-283 | adding a range that is disjoint from the list yields the union of the labelled bytes, in a list that stays sorted, disjoint and fully coalesced among equal flags, if and only if some byte of the space stays without the label |
| RangeList.AddBytes | kernel/mm/range.h:252-283 | adding any range, overlapping the list or not, yields the union of the labelled bytes as long as some byte of the space stays without the label |
| RangeList.AddLoses | kernel/mm/range.h:252-283 | adding the upper half of the space to the lower one leaves an empty region |
| RangeList.SubtractExact | kernel/mm/range.h:231-238 | subtracting a range removes exactly its bytes, whatever their flags, if and only if no cut wraps at the top of the space |
| RangeList.SubtractLoses | kernel/mm/range.h:231-238 | a hole at 0 that takes a region reaching 2^32 whole |
| RangeList.TakesAll | kernel/mm/range.h:231-238 | a wrapping cut leaves nothing of the whole list |
| RangeList.SubtractWf | kernel/mm/range.h:231-238 | the list stays sorted, disjoint and fully coalesced if and only if the hole is not an empty range strictly inside a region |
| RangeList.EmptyHoleSplits | kernel/mm/range.h:231-238 | an empty hole inside a region leaves two regions that could be one |
| RangeList.PiecesExact | kernel/mm/range.h:202-222 | the pieces of one region hold exactly its bytes outside the hole, under its flags, if and only if the cut does not wrap |
| Align.AlignUp | kernel/utils/mem.c:31-34 | masking with a power of two gives the least multiple of it at or above the address, or 0 when that is 2^32 |
| Align.AndMask | kernel/utils/mem.c:31-34 | clearing the low k bits subtracts the remainder modulo 2^k |
| Allocator.FirstFit | kernel/mm/allocator.c:60-78 | the first region in the list that passes the test, or the length of the list when none does |
| Allocator.FirstFitMeans | kernel/mm/allocator.c:60-78 | no region before it with the wanted flags has the size left behind its aligned start, and it has |
| Allocator.FitExact | kernel/mm/allocator.c:62-67 | for a nonzero size the test is right about a region if and only if it is not the case that its padding exceeds its size and 2^32 plus the size less the padding is at least the request |
| Allocator.OvershootPasses | kernel/mm/allocator.c:64-67 | a region of one byte that passes the test for 100 bytes at alignment 4 |
| Allocator.OvershootTakes | kernel/mm/allocator.c:68-74 | what such a region gives: a block past its end, which leaves the region as it is, or, where the start wraps to 0, its bytes below the end of the block |
| Allocator.AllocExact | kernel/mm/allocator.c:60-80 | allocation succeeds whenever some matching region holds an aligned run of the size, and fails if and only if none does, except when none does and the test is deceived |
| Allocator.CarvedBytes | kernel/mm/allocator.c:68-71 | an allocation removes exactly the bytes of the block from the list, which stays well formed, and all of them were free |
| Allocator.FreeRestores | kernel/mm/allocator.c:41-81 | freeing a block just allocated, with the flags of the region it came from, restores the very same list |
| Allocator.MemAlloc | kernel/mm/allocator.c:50-81 | allocation cuts the aligned start of the first region that passes out of an ordered list, at the alignment asked for, or at 4 when that is 0; or leaves the list alone and fails |
| Allocator.MemFree | kernel/mm/allocator.c:41-48 | freeing adds the range to the list |
| Allocator.RangeAcquire | kernel/mm/allocator.c:33-39 | acquiring subtracts the range from an ordered list, whatever the range |
| Pool.EndsAligned | kernel/mm/allocator.c:64-67 | in every reachable pool each free region ends on a 4-byte boundary, so the subtraction in the allocator never wraps |
| Pool.Take | kernel/mm/allocator.c:68-73 | carving an aligned block keeps live blocks disjoint and live plus free equal to the pages obtained |
| Pool.Give | kernel/mm/allocator.c:41-48 | freeing a live block keeps live plus free equal to the pages obtained |
| Pool.Grow | kernel/mm/malloc.c:43-44 | adding fresh pages keeps the pool invariant over the larger space |
| Pool.GrownFits | kernel/mm/malloc.c:43-47 | once a range of at least the size is free, the allocator finds a region for it |
| Pool.RoomExact | kernel/mm/allocator.c:60-80 | in every pool the kernel builds a request succeeds if and only if some free range holds an aligned run of its size |
| Pool.RunInOne | kernel/mm/range.h:252-283 | in a coalesced list a run of bytes with one label lies within a single region |
| Malloc.Kmalloc.Alloc | kernel/mm/malloc.c:23-62 | for every size: below 2^32 less the header a block served lies 4-byte aligned, disjoint from all live ones and the free regions, live plus free is exactly the pages ever obtained, and all headers are right in memory, of which only the two words of the new header change. A request the pool can serve leaves the kernel alone, and freeing the block restores the pool; any other takes exactly one range from the kernel and all its bytes become pages of the pool, or nothing changes at all. A servable request fails exactly when the pool has no room and the kernel has no room or no frames for more pages, and then nothing changes; a larger one only the pool can serve. From 2^32 less the header on a block served is too small for its header. The invariant holds afterwards if and only if no such block was served and no request that rounds to no pages reached a kernel with a free range |
| Malloc.Kmalloc.Extend | kernel/mm/malloc.c:36-49 | exactly one range goes from the available ranges of the kernel to its blocks in use, and its bytes are exactly the new pages of the pool; once pages were added the second attempt cannot fail; a size that rounds to no pages gets nothing, and breaks the invariant exactly when the kernel has a free range; without room in the kernel nothing changes |
| Malloc.Kmalloc.Carve | kernel/mm/malloc.c:33-33 | one attempt hands out a block exactly when the pool has room, and freeing it restores the pool |
| Malloc.Kmalloc.Store | kernel/mm/malloc.c:54-56 | a word that a caller stores in the data of a live block leaves every header as it is |
| Malloc.Kmalloc.Free | kernel/mm/malloc.c:69-82 | kfree of a live block returns exactly that block to the pool, found through its header; kfree of null does nothing |
| Malloc.ServableExact | kernel/mm/malloc.c:29-38 | the block covers the request and its pages cover the block if and only if the request is at most 2^32 less a page and the header |
| Malloc.WrappedRequest | kernel/mm/malloc.c:29-33 | a request of 2^32 - 8 bytes gets a block of none from every pool that is not empty |
| Malloc.RefusedRequest | kernel/mm/malloc.c:36-49 | a request of 0xFFFFF800 bytes that the pool cannot serve gets null and breaks the invariant |
| Malloc.EmptyAdded | kernel/mm/malloc.c:45-45 | an empty range given to the pool changes it by at most that range and keeps it in order |
| Kmem.KernelSpace.LoadLayout | kernel/mm/kmem.c:23-35 | the available ranges are exactly user space from the first page to the kernel, and kernel space above the bootstrap area up to 2^32 |
| Kmem.KernelSpace.VmAlloc | kernel/mm/kmem.c:220-230 | a new block is disjoint from all blocks in use, and blocks in use and available kernel ranges go on partitioning the space, if and only if the size is not 0 or there is no kernel range; for other sizes 0 exactly when no range fits; both lists as they are afterwards |
| Kmem.SameAddress | kernel/mm/kmem.c:220-230 | after a block of no bytes the next block gets the same address if and only if the first kernel range has room for it |
| Kmem.Shadowed | kernel/mm/kmem.c:232-255 | a block recorded behind an empty one at its address is not found: the lookup gives the empty one, and removal takes that |
| Kmem.EmptyBlockHides | kernel/mm/kmem.c:220-255 | with one free page both happen for every size up to a page |
| Kmem.KernelSpace.VmFree | kernel/mm/kmem.c:232-243 | the first block recorded at the address goes back to the available ranges, in a valid space the only one; for any other address the kernel panics and nothing changes |
| Kmem.KernelSpace.VmGetSize | kernel/mm/kmem.c:245-255 | the size of the first block recorded at the address, in a valid space the only one, and none exactly when there is no such block |
| Kmem.KernelSpace.Alloc | kernel/mm/kmem.c:261-276 | kmem_alloc moves exactly one range of whole pages from the available ranges to the blocks in use and gives its start, or 0 exactly when there is no room or not enough frames, and then both lists are as before; a size that rounds to 0 gives the start of a kernel range, if there is one, records an empty block there and breaks the invariant |
| Kmem.AddedNever | kernel/mm/vm_map.c:60-64 | with the never-merging policy add is plain insertion in order |
| Search.BuildTable | libs/uthash/src/utstring.h:156-192 | the table holds, for each place, the longest border not followed by the same character, and at the end the longest border of the needle |
| Search.BuildTableR | libs/uthash/src/utstring.h:196-232 | the same for the needle read from the right, stored one place up |
| Search.FindFrom | libs/uthash/src/utstring.h:236-265 | the leftmost occurrence of the needle, and -1 exactly when there is none |
| Search.FindFromR | libs/uthash/src/utstring.h:269-299 | the rightmost occurrence of the needle, and -1 exactly when there is none |
| Search.Find | libs/uthash/src/utstring.h:302-345 | from a start that is not negative, or from the start counted from the end of the text if it is negative: the leftmost occurrence at or after it; -1 exactly when there is none, the needle is empty or memory is short |
| Search.FindR | libs/uthash/src/utstring.h:348-387 | with a start that is not negative, or counted from the end of the text if it is negative: the rightmost occurrence that ends at or before it; -1 exactly when there is none, the needle is empty or memory is short |
| Search.Entry | libs/uthash/src/utstring.h:166-190 | the entry written for a place is where matching resumes after a mismatch there |
| Search.Slide | libs/uthash/src/utstring.h:248-262 | following the table after a mismatch skips no occurrence |
| Search.BorderOfBorder | libs/uthash/src/utstring.h:166-190 | the borders of a border are the shorter borders |
| HashTable.Table.Find | libs/uthash/src/uthash.h:94-105 | HASH_FIND returns an item with the key, and null exactly when there is none; with distinct keys it is the item linear search of the insertion order finds |
| HashTable.Table.FindInBkt | libs/uthash/src/uthash.h:601-612 | walking a chain finds an item with the key exactly when the chain has one |
| HashTable.Table.MakeTable | libs/uthash/src/uthash.h:141-158 | a new table of 32 empty buckets |
| HashTable.Table.Add | libs/uthash/src/uthash.h:173-196 | HASH_ADD_KEYPTR appends the item to the insertion order and puts it in front of the chain its hash selects; all other chains, counts and settings stay, unless the chain has grown to its limit and expansion is on, and then the buckets are doubled |
| HashTable.Table.Append | libs/uthash/src/uthash.h:176-187 | the item becomes the tail of the insertion-order list |
| HashTable.Table.AddToBkt | libs/uthash/src/uthash.h:615-626 | the item is put in front of its chain, and the buckets are doubled exactly when the chain has grown to its limit and expansion is not switched off |
| HashTable.Table.Delete | libs/uthash/src/uthash.h:215-248 | HASH_DELETE takes exactly the given item out of the order and of the chain its hash selects, leaves the other chains and all settings alone, and drops the table with the last item |
| HashTable.Table.PatchOrder | libs/uthash/src/uthash.h:226-242 | the links, head and tail of the order list after a deletion |
| HashTable.Table.DelInBkt | libs/uthash/src/uthash.h:629-639 | the chain loses exactly the item, the others stay, and its count drops by one |
| HashTable.Table.Expand | libs/uthash/src/uthash.h:670-716 | doubling keeps every item in the chain its hash selects; ideal_chain_maxlen is the ceiling of items over buckets, nonideal_items counts the items beyond it, and two ineffective doublings in a row turn expansion off |
| HashTable.Table.Drain | libs/uthash/src/uthash.h:687-703 | emptying one old chain moves each of its items to the new chain its hash selects and keeps the others |
| HashTable.Table.MoveCounts | libs/uthash/src/uthash.h:692-696 | counts, expand_mult and nonideal_items after moving one item |
| HashTable.Table.Fsck | libs/uthash/src/uthash.h:282-332 | HASH_FSCK passes exactly when every back link of every chain and of the insertion order is right, every bucket count is the length of its chain, and chains and order both have as many items as the table counts |
| HashTable.Table.FsckChain | libs/uthash/src/uthash.h:291-307 | whatever the chain: passes exactly when its back links and its bucket count are right |
| HashTable.Table.FsckOrder | libs/uthash/src/uthash.h:314-330 | whatever the list: passes exactly when its back links and the item count are right |
| HashTable.Table.FsckValid | libs/uthash/src/uthash.h:282-332 | none of the checks of HASH_FSCK can fire in a reachable table |
| HashShape.Moved | libs/uthash/src/uthash.h:689-702 | moving the first item of an old chain keeps every item either in its old chain or in its new one |
| HashShape.ChainsCount | libs/uthash/src/uthash.h:289-312 | the chains together hold each item exactly once, so their counts add up to the number of items |
| HashShape.IdealIsCeiling | libs/uthash/src/uthash.h:681-683 | the shift and mask compute the ceiling of items over buckets, which is not 0 while there are items |
| HashShape.LowBits | libs/uthash/src/uthash.h:198-201 | masking with 2^k - 1 is the remainder modulo 2^k |
| HashShape.LinearFinds | libs/uthash/src/uthash.h:94-105 | with distinct keys an item with the key is the one linear search finds |
| List.DList.Sort | libs/uthash/src/utlist.h:171-228 | DL_SORT ends with a sorted, stable permutation of the list for every total-preorder comparison, with all links, the link from head to tail and the NULL at the end restored |
| List.DList.Pass | libs/uthash/src/utlist.h:181-226 | one pass merges sorted runs into runs of twice the length, keeps the elements and relinks the list; it ends the sort only when one run is left |
| List.DList.MergeRuns | libs/uthash/src/utlist.h:195-217 | merging two neighbouring sorted runs gives one sorted run, with elements of the first run before equivalent ones of the second |
| List.DList.MoveOne | libs/uthash/src/utlist.h:196-216 | moving the smaller head to the output keeps the output sorted, linked both ways and ahead of what is left |
| List.DList.FindEnd | libs/uthash/src/utlist.h:188-194 | the second run starts after at most insize elements, or is absent |
| List.DList.Close | libs/uthash/src/utlist.h:220-221 | the end of a pass restores the link from the head to the tail and the NULL at the end |
| List.DList.Prepend | libs/uthash/src/utlist.h:538-548 | DL_PREPEND puts the element first and keeps the list linked |
| List.DList.Append | libs/uthash/src/utlist.h:553-565 | DL_APPEND puts the element last and keeps the list linked |
| List.DList.Delete | libs/uthash/src/utlist.h:588-604 | DL_DELETE takes out exactly the given element and keeps the list linked |
| ListShape.WovenMore | libs/uthash/src/utlist.h:196-216 | the element the comparison chooses comes before everything left in either run |
| ListShape.RunSorts | libs/uthash/src/utlist.h:222-224 | a single run is sorted, and equivalent elements stand in it as they did at the start |
| Scheduler.StepInv | kernel/kern/scheduler.c:88-207 | every scheduler call keeps both lists without repetition and disjoint, membership matching state, and no thread running but the current one |
| Scheduler.RunInv | kernel/kern/scheduler.c:88-207 | every run of scheduler calls keeps that, and so has at most one running thread |
| Scheduler.WaitStep | kernel/kern/scheduler.c:88-142 | a waiting thread never moves back in the queue, moves one place up with every rotation, and is switched to when it is first |
| Scheduler.PickedInTurn | kernel/kern/scheduler.c:88-126 | a waiting thread that nobody blocks is picked within as many rotations as there are threads up to it |
| Scheduler.SwitchInv | kernel/kern/scheduler.c:88-126 | choosing the next thread keeps the invariant |
| Scheduler.Globals.Next | kernel/kern/scheduler.c:88-126 | scheduler_next_thread keeps a running thread with time left, otherwise moves the first runnable thread to the back and runs it, and panics exactly when it has to choose and nothing is runnable |
| Scheduler.Globals.Wake | kernel/kern/scheduler.c:128-142 | scheduler_make_runnable moves a thread that is not runnable to the end of the runnable list, and keeps the invariant |
| Scheduler.Globals.Block | kernel/kern/scheduler.c:144-157 | scheduler_make_blocked moves a thread that is not blocked to the end of the blocked list, and keeps the invariant |
| Scheduler.Globals.Add | kernel/kern/scheduler.c:159-176 | scheduler_add_thread puts a new thread in the list its state asks for, and keeps the invariant |
| Scheduler.Globals.AddRunnable | kernel/kern/scheduler.c:186-190 | the thread goes to the back with a fresh time slice; the assertion cannot fail |
| Scheduler.Globals.RemoveThread | kernel/kern/scheduler.c:178-184 | the thread is in the list it is taken from |
| Scheduler.SwitchFields | kernel/kern/scheduler.c:88-126 | every field after choosing the next thread: the ticks since the last call, modulo 2^32, are charged to the current thread; it goes on exactly if it was running and has time left, and otherwise the first runnable thread runs with a fresh slice from the back of the list |
| Scheduler.PanicsWhen | kernel/kern/scheduler.c:108-113 | the choice panics exactly when nothing is runnable and the current thread cannot go on |
| Scheduler.WakeFields | kernel/kern/scheduler.c:128-142 | a runnable thread stays where it is; any other leaves its list for the end of the runnable ones, runnable, with a fresh slice; nothing else changes |
| Scheduler.BlockFields | kernel/kern/scheduler.c:144-157 | a blocked thread stays where it is; any other leaves its list for the end of the blocked ones, blocked; nothing else changes |
| Scheduler.AddFields | kernel/kern/scheduler.c:159-176 | a created or runnable thread waits at the end of the runnable list with a fresh slice, a blocked one at the end of the blocked list; nothing else changes |
| Scheduler.NewThreadRuns | kernel/kern/scheduler.c:88-176 | a thread added created or runnable is picked, unless someone blocks it, once there have been more rotations than there were runnable threads |
| Scheduler.WokenThreadRuns | kernel/kern/scheduler.c:88-142 | likewise for a blocked thread that is made runnable |
| Scheduler.BootInv | kernel/kern/thread.c:48-59 | the state with only the bootstrap thread has the invariant |
| Mutex.StepSafe | kernel/kern/mutex.c:32-96 | every atomic step of any thread keeps ownership, nesting, queue and program counters consistent |
| Mutex.RunSafe | kernel/kern/mutex.c:32-96 | every interleaving of such steps keeps them consistent |
| Mutex.Exclusion | kernel/kern/mutex.c:32-51 | in every interleaving from a fresh mutex, counted over the acquisitions and releases that the run performs: at most one thread has completed more acquisitions than releases, it is the owner, nested is exactly that difference, and every acquisition that was begun is completed or under way |
| Mutex.RunCounts | kernel/kern/mutex.c:32-51 | from every consistent state the number of holds of each thread changes by the acquisitions less the releases it performs in the run |
| Mutex.OwnerStays | kernel/kern/mutex.c:36-40 | no step but the owner's own last release changes the owner of a mutex that has one |
| Mutex.PassedOn | kernel/kern/mutex.c:55-76 | a last release with a non-empty queue makes the first waiter the owner, never leaving the mutex free, and makes it runnable |
| Mutex.QueueStep | kernel/kern/mutex.c:32-76 | no step puts anyone ahead of a waiting thread, and every hand-over that does not go to it brings it one place forward |
| Mutex.ServedInTurn | kernel/kern/mutex.c:55-76 | a queued thread has owned the mutex by the time there have been more hand-overs than threads ahead of it |
| Mutex.HandedOver | kernel/kern/scheduler.c:54-74 | however the others run, the new owner stays owner until it runs, and its first test succeeds without blocking |
| Mutex.Served | kernel/kern/scheduler.c:54-126 | the new owner gets the processor within as many rotations of the run queue as there are threads up to it |
| Mutex.TraceRuns | kernel/kern/scheduler.c:54-74 | what the mutex does to the scheduler is a run of the scheduler |
| Mutex.TestDecides | kernel/kern/scheduler.c:59-67 | the test passes exactly when the thread is owner already; it leaves the thread owner and blocked exactly when the mutex was free |
| Mutex.StuckForGood | kernel/kern/scheduler.c:59-67 | a blocked waiter that owns the mutex stays blocked and owner in every run in which nobody else wakes it |
| Mutex.LostWakeUp | kernel/kern/mutex.c:36-40 | a run of two threads from a fresh mutex into that state: the waiter queues after the release found the queue empty |
| Mutex.SafeTest | kernel/kern/scheduler.c:59-70 | the waiting test, the blocking and the switch keep the state consistent |
| Mutex.SafeHandOff | kernel/kern/mutex.c:55-76 | the hand-over keeps the state consistent |
| Time.NormaliseValue | kernel/kern/time.c:44-54 | normalising brings the microseconds into range, and names the same instant if and only if that instant can be named in 64-bit seconds |
| Time.NormaliseWraps | kernel/kern/time.c:44-54 | the instant before the epoch becomes the last nameable one |
| Time.TimeAddExact | kernel/kern/time.c:36-42 | time_add names the sum of the instants if and only if neither the seconds nor the microseconds of the sum leave their range |
| Time.TimeAddWraps | kernel/kern/time.c:41-41 | a sum of microseconds that wraps |
| Time.TimeCmpExact | kernel/kern/time.c:56-70 | time_cmp orders two instants rightly if and only if the difference of the microseconds does not outweigh that of the seconds, nor wrap for equal seconds |
| Time.TimeCmpNormal | kernel/kern/time.c:56-70 | inside the range of seconds, exactly the normalised times compare rightly with every normalised time |
| Time.TimeCmpUnnormalised | kernel/kern/time.c:63-69 | two times, one of them not normalised, that time_cmp orders wrongly |
| Time.DelayValue | kernel/kern/timer.c:239-240 | the wrapped 64-bit and 32-bit arithmetic of the conversion is the distance to the due instant, reduced once to 32 bits |
| Timers.NotEarly | kernel/kern/timer.c:199-199 | a near timer whose delay is not positive is due; its delay is the exact distance if and only if it is overdue by at most 2^31 microseconds |
| Timers.OverdueWraps | kernel/kern/timer.c:254-256 | a timer overdue by just more than 2^31 microseconds has a positive delay, and a list of it counts as drained |
| Timers.LaterOk | kernel/kern/timer.c:254-256 | when clock and delays move together every near timer keeps its due instant, and the order of those in range |
| Timers.Drained | kernel/kern/timer.c:193-213 | when the first near timer is in range and not due, no near timer in range is due |
| Timers.DrainedExact | kernel/kern/timer.c:193-213 | a drain leaves no due near timer if and only if none is overdue by more than 2^31 microseconds |
| Timers.UnnormalisedEarly | kernel/kern/timer.c:217-243 | a time that is not normalised, more than half an hour ahead, that is converted to a due timer at once |
| Timers.EarlyExact | kernel/kern/timer.c:216-246 | from a given clock on some later clock converts a time to a due timer before its time if and only if, when its seconds first come within the threshold, it is 2^31 or more microseconds away |
| Timers.TimelyNormal | kernel/kern/timer.c:216-246 | that never happens to normalised times, nor to some others |
| Timers.Service.NextId | kernel/kern/timer.c:32-38 | the next id, which starts again at 1 after the largest |
| Timers.Service.ScheduleDelay | kernel/kern/timer.c:98-126 | the new timer is due the given time from now, has a new id and joins the near list; all other timers keep their due instants |
| Timers.Service.ScheduleAt | kernel/kern/timer.c:76-96 | the new timer is due at the given time, has a new id and joins the far list; all other timers keep their due instants. The promise that no timer fires early is kept if and only if the time cannot be converted early at any later clock; the far list is in order if all its times are normalised |
| Timers.Service.Cancel | kernel/kern/timer.c:128-154 | the timer with the id leaves whichever list it is in, and the result says whether there was one |
| Timers.Service.Convert | kernel/kern/timer.c:235-246 | the first far timer becomes a near one with the same due instant |
| Timers.Service.UpdateFar | kernel/kern/timer.c:216-232 | the far timers up to the first that is not within the threshold become near ones, or are lost for lack of memory; in a list of normalised times these are exactly the timers due within ten seconds |
| Timers.Service.AdvanceClock | kernel/kern/timer.c:249-261 | all near delays shrink by the time passed, and the far timers now due within ten seconds are converted |
| Timers.Service.Pulse | kernel/ia32/ticks.c:44-52 | clock and delays move by one quantum together; no timer changes its due instant, none appears from nowhere and none disappears for want of anything but memory |
| Timers.Service.Tick | kernel/ia32/ticks.c:37-60 | the clock moves on every 50th tick only; then, with normalised times, exactly the far timers due within ten seconds leave the far list, and in any case those that leave are in the near one if there is memory, no near timer is lost or appears, and the timer thread is woken exactly when the first near timer is due |
| Timers.Service.HandleNear | kernel/kern/timer.c:193-213 | a timer fires only when it is due and only once, and is gone afterwards; the waiting timers, their due instants and the last id are then exactly what the timer calls of its callback, one after the other, make of the old ones; nothing happens exactly when the first near timer is not due |
| Timers.Service.Perform | kernel/kern/timer.c:76-154 | one call from a callback: a delay adds a near timer due so long from now and a time a far one due then, each under the next id, a cancellation takes out the timer with the id, and all else stays |
| Timers.Service.NextDelay | kernel/kern/timer.c:171-191 | -1 exactly without near timers; if the first is in range, 0 exactly when it is due, and otherwise the time until the first timer in range is due |
| Timers.SortNearOk | kernel/kern/timer.c:105-106 | the sorted near list has the same timers in order of delay |
| Timers.EnterNear | kernel/kern/timer.c:105-106 | DL_PREPEND and DL_SORT on the linked list of near timers enter a timer just as the model does, whenever the keys order the elements as the delays do |
| Timers.NearByDue | kernel/kern/timer.c:64-74 | the due instants are such keys at every clock at which the timers are in range |
| Timers.EnterFar | kernel/kern/timer.c:87-88 | likewise for far timers |
| Timers.FarAgree | kernel/kern/timer.c:58-62 | for normalised times the instants are such keys |
| Insertion.SortsLikeInsertion | libs/uthash/src/utlist.h:171-228 | every sorted, stable permutation of a list, as DL_SORT leaves, is the one that insertion gives |
| Numbers.Ksprintn | kernel/utils/kprintf.c:53-73 | the digits of the number in the base, most significant last in the buffer behind a NUL, within MAXNBUF and with nothing else changed |
| Numbers.DigitsNumber | kernel/utils/kprintf.c:66-69 | the digits written name the number |
| Numbers.DigitsLength | kernel/utils/kprintf.c:50-51 | a 64-bit number has at most 64 digits in any base |
| Numbers.Strtouq | kernel/utils/strtouq.c:44-104 | however the text is split into spaces, sign, prefix, the longest run of digits and the rest: the number these digits name in the base; UQUAD_MAX whatever the sign when it exceeds that, and otherwise negated modulo 2^64 after a minus sign; the end is behind the digits, or the start when there are none |
| Numbers.HasParts | kernel/utils/strtouq.c:56-97 | every text can be split into such parts |
| Numbers.HeaderParts | kernel/utils/strtouq.c:56-74 | the part before the digits is exactly the spaces, at most one sign, and 0x or 0X exactly when the base is 16 or open; an open base is 16 after the prefix, 8 after a leading 0 and otherwise 10 |
| Numbers.Meaning | kernel/utils/strtouq.c:56-97 | the digits that are read are exactly the longest run in the base after that part |
| Numbers.DigitTable | kernel/sys/ctype.h:42-54 | digits are exactly the characters 0 to 9 and the 26 letters in either case, in order, and spaces exactly the six C spaces |
| Numbers.ParseDigits | kernel/utils/strtouq.c:78-96 | the digit loop computes the exact value, or flags overflow exactly when the value of all digits exceeds UQUAD_MAX |
| Numbers.Cutoff | kernel/utils/strtouq.c:76-89 | the overflow test holds exactly when taking the digit in would exceed UQUAD_MAX |
| Numbers.RoundTrip | kernel/utils/strtouq.c:67-103 | parsing the printed text of any 64-bit number in the same base gives the number and consumes the text |
| Numbers.PrintAndParse | kernel/utils/kprintf.c:59-73 | ksprintn into a buffer of MAXNBUF bytes, read from the last character back, and strtouq in the same base give the number back |
| Numbers.DigitRoundTrip | kernel/sys/ctype.h:42-54 | the character written for a digit is read as that digit, in either case |

## Left out

- Drivers, interrupt and page tables, boot code, the terminal and formatted output: hardware access and plumbing.
- kmem_page_free, kmem_free, frame cloning and krealloc: unfinished frame accounting, or copies beyond the old block.
- Recycling of region structs: the lists hold the regions as values.
- mutex_trylock, thread_exit, processes: incomplete, or at odds with their own contracts; threads in the model never exit.
- Spinlocks: every section that runs under one is a single step here, since interrupts are off on the only CPU.
- RB_PREV, RB_MINMAX, SPLAY_NEXT and SPLAY_MINMAX, and the singly linked list macros: they would only add easy members.
- Hash mixing functions, the Bloom filter, HASH_SELECT, HASH_SRT: the hash is an arbitrary function of the key.
- The sorts of kernel/utils/sort.c, memory copies and string functions.
- Allocator.MemAlloc: requires regions in order and without overlap, as add leaves them.
- Allocator.RangeAcquire: likewise.
- RangeMap.RegionMap.Subtract: likewise.
- RangeMap.RegionMap.CutAndStitch: requires the neighbours of the region to be in order.
- Malloc.Kmalloc.Alloc: whether there are frames for new pages is a parameter; memory is stored word by word at aligned addresses.
- Search.Find: the table allocation is a parameter; a start position before the string is excluded, since the source then reads before it.
- Search.FindR: likewise for a start position behind the string.
- HashTable.Table.Add: counters do not wrap, and memory for the buckets is always there, as the source's fatal error on shortage is an assertion.
- HashTable.Table.Fsck: requires chains that end; on others the walk of the source does not end either.
- List.DList.Sort: the run length is unbounded, where the source doubles an int; the comparison is a function of a constant key, for far timers the instant their time names.
- Scheduler.Globals.Next: the two lists are sequences here; that DL_APPEND and DL_DELETE keep such sequences linked is proved in `List`. The switch to the chosen thread is part of the step.
- Mutex.Exclusion: the nesting count does not wrap, and only threads that were added to the scheduler use the mutex.
- Timers.Service.Tick: the clock stays within what 64-bit seconds can name, and one tick's quantum is below a second.
- Timers.Service.ScheduleAt: locking, and with it the lock this function leaves held, is not modelled.
- Timers.Service.ScheduleDelay: ids do not run out; after 2^31 timers the source starts again at 1 and could reuse a live id.
- Timers.Service.HandleNear: the callback acts on timers only through the calls given, with times that cannot be converted early.
- Numbers.Strtouq: a leading 0x is skipped even when no hexadecimal digit follows, as the source does; the C standard would end parsing behind the 0.
