# Containers and algorithms of the gcc2 C++ runtime headers, modelled in Dafny

The headers under headers/cpp are the SGI STL as shipped for gcc2. This project models the parts of it that depend on
invariants no single function shows, and proves what they promise for all inputs and, for objects, after every run of
their operations: each class states its invariant as `Valid()`, the constructor establishes it and every method keeps it
(one, under Findings, only on a condition).

| files | what they model |
|---|---|
| `Basics`, `Order` | what several parts share |
| `Rb*` | the red-black tree of stl_tree.h: nodes in a store with parent, left and right links and a header cell that caches root and ends; ghost trees and paths say what the links mean |
| `RopeTree`, `RopeConcat`, `RopeSlice` | ropes as values: concatenation with Fibonacci rebalancing, lazy substrings, flattening |
| `RopeTrail`, `RopeIterator` | rope iterators, which cache the last four nodes of the path and its turns |
| `RopeShare`, `RopeKeep`, `RopeInPlace`, `RopeHeap` | ropes as shared, reference-counted nodes: what counts, cached C strings and in-place changes mean for all ropes at once; making, changing and releasing nodes |
| `RopeBalance`, `RopeOps` | concatenation and rebalancing on counted nodes, with the slots of the forest as counted references, and the operations on ropes |
| `Pool*`, `LinkChain` | the pool allocator of stl_alloc.h: every byte ever obtained has one owner |
| `SortOrder`, `Ranges`, `InsertionSort`, `Heap`, `HeapRange`, `Introsort` | `sort`, `partial_sort` and the heap operations |
| `Reversal`, `Permutation`, `Rotate`, `RotateCycles` | `reverse`, `next_permutation` and `prev_permutation`, the three forms of `rotate` |
| `Stable*` | `stable_sort` and `inplace_merge` with every kind of merge |
| `List*` | the circular list: transfer, splice, merge, reverse, sort |
| `Hash*` | the chained hash table: insertion, erasure, resizing, iteration |
| `Deque*` | the deque: iterator arithmetic, both ends, insertion and erasure in the middle, of one element and of many, map reallocation |

Comparisons are parameters, with a strict weak order as the only requirement; the hash table takes an equivalence and a
hash that respects it. Arrays are modelled in place. Ghost parameters such as `pre`, `post`, `front`, `back` and `path`
name the parts of the state that an iterator argument stands for; they are no inputs of the operations. Where the source
writes the left and the right case out twice, the model has one body with a side as parameter. Template variants with and
without a comparison object are one member each.

stl_config.h:90 selects the malloc allocator for this build; the pool allocator is modelled as it is written.

The comment at headers/cpp/ropeimpl.h:1088 says that a tree in slot i of the forest has depth i, and the disabled assertion
at line 1160 asks for more than holds. The bound that the code keeps is depth at most i + 1, and it is enough for the limit
of 45. Three operations do not do what their interface promises; they are listed under Findings.

`dafny verify dfyconfig.toml` verifies the whole project.

## Model

| member | source | states |
|---|---|---|
| `RbLinks.LinkStore.Rotate` | headers/cpp/stl_tree.h:217-252 | A rotation, to either side, keeps every parent and child link mutually consistent and turns the tree at the node as the picture says, with all of the tree around it in place; the cached ends in the header stay |
| `RbLinks.LinkStore.Rebalance` | headers/cpp/stl_tree.h:254-297 | The loop ends in a red-black tree with black root whose in-order sequence of nodes is the old one with the new node at its place |
| `RbInsertFix.PushUpPending` | headers/cpp/stl_tree.h:261-267 | Recolouring under a red uncle moves the only possible fault two levels up and nowhere else |
| `RbInsertFix.RaiseFinishes` | headers/cpp/stl_tree.h:268-275 | The final rotation leaves no fault: the whole tree is red-black |
| `RbLinks.LinkStore.RebalanceForErase` | headers/cpp/stl_tree.h:299-429 | For every node of every red-black tree: the node is taken out of the links, everything left is a red-black tree with consistent links and exact leftmost and rightmost, the in-order sequence is the old one without exactly this node, and no node but it goes |
| `RbLinks.LinkStore.FixShortage` | headers/cpp/stl_tree.h:365-427 | The loop of the four sibling cases, from any place where one black node is missing, ends in a red-black tree with the same in-order sequence |
| `RbEraseFix.SettleFinishes` | headers/cpp/stl_tree.h:390-394 | The last case, with a red outer nephew, repairs the shortage completely |
| `RbEraseFix.PassUpShort` | headers/cpp/stl_tree.h:375-381 | With two black nephews the shortage moves exactly one level up |
| `RbUnlink.SuccessorMoved` | headers/cpp/stl_tree.h:319-341 | Relinking the successor into the place of the erased node, next to it or further down, gives the tree with that node gone and the successor in its place and colour |
| `RbLinks.LinkStore.Increment` | headers/cpp/stl_tree.h:109-125 | The next node in order, and the header after the last, also where the root has no right child |
| `RbLinks.LinkStore.Decrement` | headers/cpp/stl_tree.h:127-145 | The previous node in order, and from the header the last one |
| `RbLinks.LinkStore.BlackCount` | headers/cpp/stl_tree.h:1256-1268 | The number of black nodes from a node up to the root |
| `RbHeight.HeightBound` | headers/cpp/stl_tree.h:44-52 | Every red-black tree with n nodes has height at most 2 log2(n + 1) |
| `RbHeight.DepthBound` | headers/cpp/stl_tree.h:44-52 | The same for the way down to every single node |
| `RbTree.RbTree.InsertNode` | headers/cpp/stl_tree.h:822-853 | A new node at a leaf place chosen by the caller: all invariants of the tree and the header hold again, nothing but the new node is added, at the place in the order that the leaf place stands for |
| `RbTree.RbTree.InsertEqual` | headers/cpp/stl_tree.h:855-869 | The new element comes behind all elements that are not greater and before all that are; every other node keeps its value and place |
| `RbTree.RbTree.InsertUnique` | headers/cpp/stl_tree.h:873-896 | Inserts exactly if no equivalent key is there, else names the node that has it; keys stay distinct |
| `RbTree.RbTree.InsertUniqueHint` | headers/cpp/stl_tree.h:900-930 | With any valid hint, the same outcome as the plain form: the same condition for inserting, and the only place the order allows |
| `RbTree.RbTree.InsertEqualHint` | headers/cpp/stl_tree.h:933-963 | Where the hinted place is right for the key, the element comes right there, between the two neighbours the hint names; everywhere else it comes behind all that are not greater. Which of the two, is a test of the neighbours' keys |
| `RbTree.RbTree.Erase` | headers/cpp/stl_tree.h:1024-1035 | The in-order sequence loses exactly this node; every survivor keeps its identity and its value, and all invariants hold |
| `RbTree.RbTree.EraseKey` | headers/cpp/stl_tree.h:1037-1047 | All elements equivalent to the key go, no others, and their number is the result |
| `RbTree.RbTree.EraseRange` | headers/cpp/stl_tree.h:1093-1102 | Exactly the elements from the first iterator up to the last go, also when that is the whole tree |
| `RbTree.RbTree.Find` | headers/cpp/stl_tree.h:1112-1129 | An equivalent element if there is one; the header exactly if there is none |
| `RbTree.RbTree.LowerBound` | headers/cpp/stl_tree.h:1162-1178 | The first element that is not less: the order splits there into all that are less and all that are not |
| `RbTree.RbTree.UpperBound` | headers/cpp/stl_tree.h:1198-1214 | The first element that is greater, splitting the order |
| `RbTree.RbTree.EqualRange` | headers/cpp/stl_tree.h:1234-1243 | The two iterators enclose exactly the equivalent elements |
| `RbTree.RbTree.Verify` | headers/cpp/stl_tree.h:1271-1304 | Every tree that satisfies the invariants, hence every reachable one, passes the checker |
| `RopeTree.TableIsFibonacci` | headers/cpp/ropeimpl.h:1062-1077 | Each entry of the table of minimal lengths is the sum of the two before it, and the table grows |
| `RopeConcat.TreeConcat` | headers/cpp/ropeimpl.h:443-476 | The text is left followed by right and the depth at most 45, whether or not the result had to be rebalanced, for texts up to the maximal size; termination of the mutual recursion with balancing is part of it |
| `RopeConcat.ConcatRopes` | headers/cpp/ropeimpl.h:590-632 | The text is left followed by right also where leaves are merged; the result is rebalanced exactly where the plain node would be too deep |
| `RopeConcat.ConcatAndSetBalanced` | headers/cpp/stl_rope.h:1576-1588 | Inside balancing, no concatenation is ever too deep: none re-enters the balancer |
| `RopeConcat.RoughlyIsFine` | headers/cpp/stl_rope.h:1564-1573 | A rope whose size is at least the table entry two below its depth is within the depth limit, so that the abort is out of reach |
| `RopeConcat.AddLeafToForest` | headers/cpp/ropeimpl.h:1131-1180 | The forest keeps its invariant, each tree in slot i having a size from entry i up to entry i + 1 and a depth of at most i + 1, and its text grows by the leaf's |
| `RopeConcat.AddToForest` | headers/cpp/ropeimpl.h:1113-1129 | The same for a whole rope, cut at its balanced parts |
| `RopeConcat.Balance` | headers/cpp/ropeimpl.h:1079-1111 | Balancing keeps the text; the result has a size of at least the table entry two below its depth, hence a depth of at most 45 |
| `RopeConcat.Assemble` | headers/cpp/ropeimpl.h:1096-1106 | Putting the forest together, smallest first, keeps order, text and balance |
| `RopeSlice.SubstringOf` | headers/cpp/ropeimpl.h:634-746 | The text of a substring is the slice with both ends clamped, through concatenations, copies, lazy nodes and lazy nodes of lazy nodes |
| `RopeSlice.NestedSlice` | headers/cpp/ropeimpl.h:700-714 | A slice of a lazy slice is a slice of its base |
| `RopeSlice.Fetch` | headers/cpp/ropeimpl.h:1182-1222 | The walk down the tree finds the character of the text at that position |
| `RopeTree.FunctionText` | headers/cpp/ropeimpl.h:1213-1219 | The text of a function node is what its producer gives for positions 0 up to its length, each asked for at exactly its own position |
| `RopeTree.LazyFunctionText` | headers/cpp/ropeimpl.h:700-714 | And that of a lazy slice of it, what the producer gives from the start of the slice on |
| `RopeSlice.SliceIs` | headers/cpp/ropeimpl.h:634-746 | What a clamped slice is, by where its ends lie |
| `RopeSlice.FlattenInto` | headers/cpp/ropeimpl.h:960-993 | The buffer receives exactly the text, and nothing outside it changes |
| `RopeIterator.Iterator.SetBuf` | headers/cpp/ropeimpl.h:31-73 | The buffer then holds the characters of the rope around the position |
| `RopeIterator.Iterator.SetCache` | headers/cpp/ropeimpl.h:77-147 | The cached nodes and direction bits become the true end of the path from the root to the leaf at the position, or the root alone where it has a C string at that moment; one may come between any two operations |
| `RopeIterator.Iterator.SetCacheForIncr` | headers/cpp/ropeimpl.h:151-213 | Moving on from the end of a leaf by way of the cached nodes gives a cache that is as true as one made afresh |
| `RopeIterator.Iterator.Incr` | headers/cpp/ropeimpl.h:215-229 | The position moves forward and whatever is cached then describes the new position |
| `RopeIterator.Iterator.Decr` | headers/cpp/ropeimpl.h:231-242 | The position moves back and whatever is cached then describes the new position |
| `RopeIterator.Iterator.Deref` | headers/cpp/stl_rope.h:961-964 | After any run of the other operations the character found through the cache is the character of the text at the position |
| `RopeTrail.TrailText` | headers/cpp/ropeimpl.h:77-147 | Whatever path of left and right turns leads to a node, the text of the root holds the node's text from the offset that the path stands for |
| `RopeShare.OnlyVariable` | headers/cpp/stl_rope.h:403-416 | A node with count one that a rope variable holds is below no node and belongs to no other rope |
| `RopeShare.TextSame` | headers/cpp/stl_rope.h:18-22 | A change to some nodes leaves the text of every node that has none of them below it |
| `RopeInPlace.AlongUpward` | headers/cpp/ropeimpl.h:1226-1270 | If every node on the way down to a character has count one, no other rope and no node off the way can see that character |
| `RopeInPlace.PutCharOk` | headers/cpp/ropeimpl.h:1324-1335 | Writing the character there changes that one character of that one rope, and removing the cached strings along the way keeps every other cached string right |
| `RopeHeap.Heap.GrowLeaf` | headers/cpp/ropeimpl.h:408-436 | A leaf that only this rope holds grows in place; every other rope keeps its text |
| `RopeHeap.CapacityStays` | headers/cpp/ropeimpl.h:408-436 | A leaf that grows within the capacity computed from its length keeps that capacity: every later test is against the block it has |
| `RopeOps.ConcatChars` | headers/cpp/ropeimpl.h:478-528 | A new rope with the characters appended, rebalanced where the plain node would be too deep; no existing node changes |
| `RopeOps.DestrConcat` | headers/cpp/ropeimpl.h:532-586 | The destructive form: the same text as the other one, whichever of the in-place cases applies, and every other rope keeps its text and its depth, rebalancing included |
| `RopeBalance.ConcatNodes` | headers/cpp/ropeimpl.h:590-632 | The text is left followed by right; nodes are shared or copied, none changes, and where no rebalancing was due the result is exactly the value that concatenation of rope values gives |
| `RopeBalance.TreeConcat` | headers/cpp/ropeimpl.h:443-476 | On counted nodes: the two references handed in are used up, the text is left followed by right, what any other variable holds stays node for node, in the branch that rebalances and in the other; the mutual recursion with balancing ends |
| `RopeBalance.ConcatAndSetBalanced` | headers/cpp/stl_rope.h:1576-1588 | The mark is set on a node made here, or was set before: no node that another rope may hold changes |
| `RopeBalance.AddLeafToForest` | headers/cpp/ropeimpl.h:1131-1180 | The slots are counted references: the old slots, the gathered small parts and each superseded tree are released, what the other variables hold stays, the forest keeps its invariant and its text grows by the node's |
| `RopeBalance.AddToForest` | headers/cpp/ropeimpl.h:1113-1129 | The same for a whole node, cut at its balanced parts, each of which may be shared |
| `RopeBalance.Assemble` | headers/cpp/ropeimpl.h:1096-1106 | The slots are emptied from the lowest up; one variable is left, with all the text, roughly balanced |
| `RopeBalance.Balance` | headers/cpp/ropeimpl.h:1079-1111 | A roughly balanced rope of the same text and a depth of at most 45 that shares the balanced parts; every node that was there is there as it was, all slots and temporaries are gone, and counts equal references again |
| `RopeOps.SubstringNode` | headers/cpp/ropeimpl.h:634-746 | The clamped slice as a new rope that shares nodes, of legal depth; after the temporaries have gone, every node that was there is there, as it was |
| `RopeHeap.Heap.Unref` | headers/cpp/ropeimpl.h:327-365 | Giving up a reference frees nodes, on and on downward, but none that the other variables hold, directly or through other nodes; counts stay equal to the number of references |
| `RopeKeep.NotKept` | headers/cpp/ropeimpl.h:327-365 | A node whose last counted reference goes is held by no variable that stays |
| `RopeOps.Append` | headers/cpp/stl_rope.h:1879-1885 | This rope's text grows by the characters and no other rope's text changes, however they share nodes |
| `RopeOps.AppendRope` | headers/cpp/stl_rope.h:1925-1933 | The same for appending a rope, also a rope to itself |
| `RopeOps.Replace` | headers/cpp/stl_rope.h:1951-1971 | With p + n within the text, what is before p, the other rope's text, what is from p + n on; with p + n beyond the end, the first two; with p beyond the end, the text and the other's. No other rope changes; with length zero this is insertion of a rope (lines 1974-1982) |
| `RopeOps.Erase` | headers/cpp/stl_rope.h:2105-2109 | What is before p and from p + n on, as far as the text goes; no other rope changes |
| `RopeOps.EraseOne` | headers/cpp/stl_rope.h:2112-2114 | The one-argument form passes an end where a length is expected: it takes out just the character at the position if and only if that is the first or the last |
| `RopeOps.EraseOneTakesThree` | headers/cpp/stl_rope.h:2112-2114 | Position 2 of abcdef: the rope is abf afterwards |
| `RopeOps.Substr` | headers/cpp/stl_rope.h:2190-2193 | A new rope with the characters from p up to q, as far as the text goes; no other rope changes |
| `RopeOps.MakeFromProducer` | headers/cpp/stl_rope.h:1662-1669 | A new rope of the n characters that the producer gives for positions 0 to n - 1; no other rope changes |
| `RopeHeap.Heap.FetchPtr` | headers/cpp/ropeimpl.h:1226-1270 | Not null if and only if every node on the way to the position has count one and the way ends in a leaf, and then it is the place of that character |
| `RopeOps.PutChar` | headers/cpp/ropeimpl.h:1321-1353 | This rope has the new character at the position and every other rope its old text, whether the write was in place or through a new rope of the pieces |
| `RopeHeap.Heap.CString` | headers/cpp/ropeimpl.h:1444-1469 | The string is the text, also when it comes from the cache: no update leaves a wrong cached string |
| `RopeHeap.Heap.Copy` | headers/cpp/stl_rope.h:1671-1675 | A copy has the same text and shares all nodes |
| `PoolAlloc.RoundUp` | headers/cpp/stl_alloc.h:334-337 | The least multiple of 8 that is not less |
| `PoolAlloc.Index` | headers/cpp/stl_alloc.h:350-352 | The list whose blocks have exactly the rounded size; one of the 16 for sizes up to 128 |
| `PoolAlloc.Allocator.Allocate` | headers/cpp/stl_alloc.h:405-427 | A block that overlaps nothing given out before, of the rounded size: the head of its list, else the first block of a newly cut chunk; null exactly if the list, the bump region, both answers of malloc and all larger lists are exhausted; the bytes owned by the allocator grow by exactly what malloc gave |
| `PoolAlloc.Allocator.AllocateOnBoundaries` | headers/cpp/stl_alloc.h:405-427 | If malloc answers at multiples of 8 and every block and the bump region start at one, so they do afterwards, and the result is one |
| `PoolAlloc.SourceOnBoundaries` | headers/cpp/stl_alloc.h:465-524 | Wherever the next chunk comes from, every free block and the region still start at multiples of 8 |
| `PoolAlloc.Allocator.Deallocate` | headers/cpp/stl_alloc.h:430-449 | The block goes to the front of the list of its size class, or back to free; every other block stays as it is, byte by byte, and all blocks still start at multiples of 8 |
| `PoolAlloc.Allocator.ChunkAlloc` | headers/cpp/stl_alloc.h:465-524 | The lesser of the number asked for and the number that fits into the region the chunk is cut from: the bump region if it has room for one, else malloc's memory, else the first block of the smallest class that has one, else the last resort. Malloc and the last resort are asked for, and only they add, twice what was asked for and a sixteenth of all bytes so far, rounded up; null exactly if everything is exhausted; the list of the requested class is still empty afterwards on every path; at most one repetition |
| `PoolAlloc.Allocator.Scavenge` | headers/cpp/stl_alloc.h:495-513 | Finds a block exactly if some list from this class on has one, turns it into the bump region and leaves the list of the class empty if it was |
| `PoolAlloc.Allocator.Recycle` | headers/cpp/stl_alloc.h:487-493 | What is left of the bump region becomes the first block of the list of exactly its size, which is smaller than the request; nothing is lost |
| `PoolAlloc.Allocator.Refill` | headers/cpp/stl_alloc.h:531-559 | Up to 20 blocks are cut: the first is the result and the others are the list of their class, in the order of their addresses; overwriting the head of that list loses nothing, since it was empty |
| `PoolAlloc.Allocator.ClientWrite` | headers/cpp/stl_alloc.h:300-308 | Whatever the owner of a live block writes into it, the free lists stay intact |
| `PoolBytes.Cut` | headers/cpp/stl_alloc.h:466-477 | Splitting a block keeps the partition: every byte has exactly one owner |
| `PoolBooks.Carve` | headers/cpp/stl_alloc.h:470-477 | Taking objects from the bump region keeps the partition of all bytes into live blocks, free blocks of their class size and the one bump region with a length that is a multiple of 8 |
| `PoolBooks.ShelveRest` | headers/cpp/stl_alloc.h:540-557 | Cutting a chunk into blocks for a free list keeps the partition |
| `Introsort.Sort` | headers/cpp/stl_algo.h:1325-1335 | For every strict weak order and every range: the range is sorted, a permutation of what it was, and nothing outside changes |
| `Introsort.MedianStops` | headers/cpp/stl_algo.h:61-77 | The median of three has an element not less and an element not greater in the range: both unguarded scans stop |
| `Introsort.Partition` | headers/cpp/stl_algo.h:1128-1144 | No scan leaves the range, the cut is strictly inside it, what is before the cut is not greater than the pivot and what is behind not less, and the elements are the same |
| `Introsort.IntrosortLoop` | headers/cpp/stl_algo.h:1293-1313 | Afterwards the elements are the same and the range is nearly sorted: pieces of at most 16 elements or sorted ones, in order, whether by partitioning or by the heap fallback |
| `Introsort.FirstIsLeast` | headers/cpp/stl_algo.h:1254-1263 | A least element is among the first 16, so the unguarded insertion of all others stays in range |
| `Introsort.FinalInsertionSort` | headers/cpp/stl_algo.h:1254-1263 | The result is the stable insertion of all elements in turn |
| `Introsort.Lg` | headers/cpp/stl_algo.h:1265-1270 | The largest power of two that is not greater |
| `InsertionSort.UnguardedInsert` | headers/cpp/stl_algo.h:1162-1173 | Given an element not greater than the value, the scan stays in range and the value lands behind all elements that it does not precede |
| `InsertionSort.InsertSort` | headers/cpp/stl_algo.h:1206-1212 | The result is the stable insertion of all elements in turn |
| `SortOrder.InsertAllSorts` | headers/cpp/stl_algo.h:1206-1212 | Insertion of elements in turn gives a sorted permutation |
| `HeapRange.PushHeap` | headers/cpp/stl_heap.h:72-85 | The hole rises as the pure form does |
| `Heap.RiseIsHeap` | headers/cpp/stl_heap.h:72-85 | Rising restores the heap |
| `HeapRange.AdjustHeap` | headers/cpp/stl_heap.h:153-173 | The hole sinks to the bottom and the value rises from there, as the pure form does |
| `Heap.AdjustIsHeap` | headers/cpp/stl_heap.h:153-173 | Afterwards the range below the top is a heap again, and nothing is lost |
| `Heap.PopHeapTakesGreatest` | headers/cpp/stl_heap.h:175-194 | A greatest element ends up at the end, and the rest is a heap |
| `Heap.MakeHeapIsHeap` | headers/cpp/stl_heap.h:228-244 | A heap with the same elements |
| `Heap.SortHeapSorts` | headers/cpp/stl_heap.h:262-269 | Sorting a heap gives a sorted sequence |
| `HeapRange.PartialSortOf` | headers/cpp/stl_algo.h:1577-1586 | The range becomes what the pure partial sort says |
| `Heap.PartialSortSorts` | headers/cpp/stl_algo.h:1577-1586 | The first part is sorted and no element behind it is less than any in it |
| `Reversal.ReverseRange` | headers/cpp/stl_algo.h:666-671 | Swapping ends inward reverses the range |
| `Reversal.ReverseStepping` | headers/cpp/stl_algo.h:656-664 | The form for bidirectional iterators, which must also stop in the middle of an even range, does the same |
| `Permutation.NextPermutation` | headers/cpp/stl_algo.h:2557-2585 | True exactly if a lexicographically larger arrangement of the same elements exists, and then the result is a least such one; otherwise the result is in sorted order; equivalent elements allowed |
| `Permutation.PrevPermutation` | headers/cpp/stl_algo.h:2616-2644 | The same downward |
| `Permutation.PrevUndoesNext` | headers/cpp/stl_algo.h:2557-2644 | On a total order any arrangement that the specification of prev allows after next is the original one, also across the wrap-around |
| `Permutation.NextThenPrev` | headers/cpp/stl_algo.h:2557-2644 | Running both gives the array back, duplicates included, and both report the same |
| `Rotate.RotateForward` | headers/cpp/stl_algo.h:704-735 | The second part followed by the first, by swaps forward only; returns first + (last - middle) |
| `Rotate.RotateBidirectional` | headers/cpp/stl_algo.h:738-763 | The same result from reversals |
| `RotateCycles.RotateRandomAccess` | headers/cpp/stl_algo.h:765-816 | The same result from cycles, whose walks all stay in range |
| `RotateCycles.Gcd` | headers/cpp/stl_algo.h:692-702 | The divisor and coprime quotients, with the coefficients that witness it |
| `RotateCycles.AtInjective` | headers/cpp/stl_algo.h:765-816 | Each slot is on only one of the gcd(n, k) cycles, under one number |
| `RotateCycles.WhenInjective` | headers/cpp/stl_algo.h:765-816 | Two places of a cycle have different steps of the walk, so that each is visited once |
| `RotateCycles.CycledAll` | headers/cpp/stl_algo.h:765-816 | When all cycles are done, every slot holds the element of the rotation |
| `StableOrder.StableUnique` | headers/cpp/stl_algo.h:1337-1368 | The stable result is unique: two sorted sequences that keep the order of equivalent elements of the same input are equal |
| `StableOrder.MergeOfSorted` | headers/cpp/stl_algo.h:1354-1368 | Merging the stable sorts of two halves is the stable sort of the whole |
| `StableOrder.MergeBackIsMerge` | headers/cpp/stl_algo.h:2105-2132 | The merge from behind is the same as the merge from the front |
| `StableOrder.MergeApart` | headers/cpp/stl_algo.h:2015-2050 | At a cut that separates the halves the merge falls apart into two merges |
| `StableMerge.MergeForward` | headers/cpp/stl_algo.h:1959-1975 | With the first half in the buffer, the merge over overlapping storage never overwrites an element still needed |
| `StableMerge.MergeBackward` | headers/cpp/stl_algo.h:2105-2132 | The same from behind, with the second half in the buffer |
| `StableMerge.RotateAdaptive` | headers/cpp/stl_algo.h:2053-2073 | A rotation, through the buffer from either side or in place |
| `StableMerge.MergeWithoutBuffer` | headers/cpp/stl_algo.h:2015-2050 | Divide and rotate gives the simple stable merge |
| `StableMerge.MergeAdaptive` | headers/cpp/stl_algo.h:2176-2217 | The simple stable merge for every buffer size |
| `StableMerge.InplaceMerge` | headers/cpp/stl_algo.h:2237-2275 | The range becomes the simple stable merge of its two sorted halves, for every buffer size from 0 up, and nothing outside changes |
| `StableMerge.LowerBound` | headers/cpp/stl_algo.h:1753-1775 | The first element that is not less, by halving |
| `StableMerge.UpperBound` | headers/cpp/stl_algo.h:1815-1837 | The first element that is greater, by halving |
| `StableSorting.InplaceStableSort` | headers/cpp/stl_algo.h:1354-1368 | The stable sort without a buffer |
| `StableSorting.ChunkInsertionSort` | headers/cpp/stl_algo.h:1425-1435 | Every chunk of 7 becomes its stable sort |
| `StableSorting.MergeSortLoop` | headers/cpp/stl_algo.h:1389-1410 | Sorted chunks of n become sorted chunks of 2n in the other array |
| `StableSorting.MergeSortWithBuffer` | headers/cpp/stl_algo.h:1455-1472 | Forth and back between range and buffer until one chunk is left: the stable sort |
| `StableSorting.StableSortAdaptive` | headers/cpp/stl_algo.h:1492-1514 | The stable sort with a buffer of any size |
| `StableSorting.StableSortRange` | headers/cpp/stl_algo.h:1527-1555 | For every buffer size from 0 up: the unique stable result, a permutation of the range, and nothing outside changes |
| `ListStore.Store.Transfer` | headers/cpp/stl_list.h:468-483 | A stretch is moved before a position; in both directions all links around it are right, and no other link changes |
| `ListStore.Store.SpliceAcross` | headers/cpp/stl_list.h:484-497 | Both rings stay well formed and hold their nodes with the stretch moved, also where it is empty |
| `ListStore.Store.SpliceWithin` | headers/cpp/stl_list.h:488-497 | The same within one ring, for every position outside the stretch, before it, right behind it or further on |
| `ListStore.Store.MergeLists` | headers/cpp/stl_list.h:782-799 | The first ring holds the simple stable merge of the two, the other is empty, all other lists stay |
| `ListStore.Store.ReverseList` | headers/cpp/stl_list.h:709-723 | The ring holds the reverse |
| `ListSort.CarryOn` | headers/cpp/stl_list.h:811-818 | A full slot is merged with the carry: the slot's elements are older, and the carry doubles |
| `ListSort.CarryRests` | headers/cpp/stl_list.h:811-821 | With fewer than 2 to the 64 elements the carry finds an empty slot among the 64; each slot i holds none or 2 to the i elements, older than those in lower slots |
| `ListSort.Sort` | headers/cpp/stl_list.h:801-825 | The list becomes the stable sort of its nodes; every other list stays |
| `HashTables.HashTable.Find` | headers/cpp/stl_hashtable.h:458-466 | A node with an equal key if there is one anywhere in the table, null exactly if there is none |
| `HashTables.HashTable.InsertUniqueNoResize` | headers/cpp/stl_hashtable.h:698-714 | Inserts exactly if no equal key is in the table, at the head of its bucket; the number of buckets stays |
| `HashTables.HashTable.InsertEqualNoResize` | headers/cpp/stl_hashtable.h:717-738 | Adds the element right behind the first of its equals in the order of iteration, or at the head of its bucket; the number of buckets stays |
| `HashTables.HashTable.InsertUnique` | headers/cpp/stl_hashtable.h:354-358 | The same after growing the table: it has at least as many buckets as elements with the new one, as long as the list of sizes reaches, the least such size when it grows, and it does not grow where there are enough |
| `HashTables.HashTable.InsertEqual` | headers/cpp/stl_hashtable.h:360-364 | The same after growing the table, by the same rule |
| `HashTables.HashTable.EqualRange` | headers/cpp/stl_hashtable.h:761-780 | In the order of iteration, exactly all elements with an equal key lie between the two iterators |
| `HashTables.HashTable.EraseKey` | headers/cpp/stl_hashtable.h:811-843 | Exactly the elements with an equal key go, and their number is the result |
| `HashTables.HashTable.EraseNode` | headers/cpp/stl_hashtable.h:845-873 | Exactly this node goes: the order of iteration is the old one without it |
| `HashTables.HashTable.EraseRange` | headers/cpp/stl_hashtable.h:876-895 | What is left is the order of iteration without the range if and only if the range is empty, ends in another bucket or begins at the head of its chain; else everything from the first node to the end of the chain goes |
| `HashTables.HashTable.EraseOnward` | headers/cpp/stl_hashtable.h:956-976 | From the head of a chain the nodes up to the last go; from any other node on, all the rest of the chain |
| `HashTables.RangeEraseLosesNodes` | headers/cpp/stl_hashtable.h:956-976 | A chain of three: erasing the range of the second alone leaves only the first |
| `HashTables.HashTable.Resize` | headers/cpp/stl_hashtable.h:916-953 | The same nodes, each in the bucket of its hash, with equal keys together, although the chains are reversed. A table with fewer buckets than asked for gets the least size of the list that is not below, or the last where there is none; any other stays as large as it is |
| `HashTables.HashTable.constructor` | headers/cpp/stl_hashtable.h:511-517 | An empty table of the least size of the list that is not below the number asked for, or of the last |
| `HashTables.NextPrimeIsLeast` | headers/cpp/stl_hashtable.h:159-165 | The search gives the least entry of the list that is not below, or the last |
| `HashTables.RehashOne` | headers/cpp/stl_hashtable.h:928-936 | Moving one node keeps equal keys together in the new chain, because equals leave the old chain one after the other |
| `HashTables.HashTable.Increment` | headers/cpp/stl_hashtable.h:564-576 | The next node in the order of iteration, over empty buckets too, and null after the last |
| `HashTables.HashTable.VisitedOnce` | headers/cpp/stl_hashtable.h:564-576 | The order of iteration has every node exactly once |
| `DequePlace.AddIsShift` | headers/cpp/stl_deque.h:174-194 | Moving an iterator by any distance, forward or back, is arithmetic on places, and it stays inside a node |
| `DequePlace.MinusIsDifference` | headers/cpp/stl_deque.h:141-144 | The distance of two iterators is the difference of their places |
| `DequePlace.NextIsShift` | headers/cpp/stl_deque.h:146-153 | One step forward, across node borders too |
| `DequePlace.PreviousUndoesNext` | headers/cpp/stl_deque.h:160-167 | A step back undoes a step forward, and the other way round |
| `DequePlace.BeforeIsLess` | headers/cpp/stl_deque.h:205-210 | The order of iterators is the order of places |
| `Deques.Deque.PushBack` | headers/cpp/stl_deque.h:694-701 | The sequence with the element behind it; the class invariant, with exactly the nodes from start to finish allocated, holds |
| `Deques.Deque.PushBackAux` | headers/cpp/stl_deque.h:1147-1160 | The same where the last node is full |
| `Deques.Deque.PushFront` | headers/cpp/stl_deque.h:712-719 | The sequence with the element before it |
| `Deques.Deque.PushFrontAux` | headers/cpp/stl_deque.h:1178-1191 | The same where the first node is full |
| `Deques.Deque.PopBack` | headers/cpp/stl_deque.h:731-738 | The sequence without its last element; a node that has become unused is given back |
| `Deques.Deque.PopBackAux` | headers/cpp/stl_deque.h:1209-1217 | The case where finish leaves its node: the node before it exists and is full |
| `Deques.Deque.PopFront` | headers/cpp/stl_deque.h:740-747 | The sequence without its first element |
| `Deques.Deque.PopFrontAux` | headers/cpp/stl_deque.h:1223-1231 | The case where start leaves its node |
| `Deques.Deque.Index` | headers/cpp/stl_deque.h:543-546 | Element n of the sequence |
| `Deques.Deque.Size` | headers/cpp/stl_deque.h:561-561 | The length of the sequence |
| `Deques.Deque.Insert` | headers/cpp/stl_deque.h:751-765 | The sequence with the element put in, and an iterator on it |
| `Deques.Deque.InsertAux` | headers/cpp/stl_deque.h:1276-1307 | The same in the middle, from whichever side is shorter |
| `Deques.Deque.InsertCounted` | headers/cpp/stl_deque.h:963-981 | The sequence with n copies put in, for every position and every n, zero included |
| `Deques.Deque.InsertCountedAux` | headers/cpp/stl_deque.h:1338-1392 | The same in the middle, in each of the four ways of making room, over storage not yet constructed and overlapping moves |
| `Deques.Deque.ReserveElementsAtFront` | headers/cpp/stl_deque.h:895-900 | Nodes for n places before the first element, and no node more |
| `Deques.Deque.ReserveElementsAtBack` | headers/cpp/stl_deque.h:902-907 | Nodes for n places behind the last element and for the place of finish, and no node more |
| `DequeFill.NodesBehind` | headers/cpp/stl_deque.h:1595-1614 | The number of new nodes is exactly how far the iterator n places on reaches beyond the last node |
| `DequeFill.NodesBefore` | headers/cpp/stl_deque.h:1574-1593 | The same at the front |
| `Deques.Deque.Erase` | headers/cpp/stl_deque.h:814-827 | The sequence without the element, from whichever side is shorter, and an iterator on the next |
| `Deques.Deque.EraseRange` | headers/cpp/stl_deque.h:1041-1067 | The sequence without the stretch, and an iterator on what follows it; the class invariant, with exactly the nodes from start to finish allocated, holds again if and only if the front was not moved into another node |
| `Deques.RangeEraseKeepsNode` | headers/cpp/stl_deque.h:1049-1056 | Three elements in a node each: without the first the sequence is right and its node is still allocated |
| `Deques.Deque.ReallocateMap` | headers/cpp/stl_deque.h:1616-1650 | The sequence stays and there is room for the nodes asked for on the side that asked, whether the map moves within itself, overlapping, or is made anew, with the size and the place that the source computes |
| `Deques.RoomForNodes` | headers/cpp/stl_deque.h:1621-1646 | The new place for the nodes is inside the map with that room beside it |

## Findings

The code is modelled as it is. Three promises fail on some inputs; each holds if and only if the condition does, and the
condition can be tested before the call.

| operation | promise | fails on | holds if and only if | proved in |
|---|---|---|---|---|
| hash table `erase(first, last)` (headers/cpp/stl_hashtable.h:956-976) | exactly the nodes of the range go | a chain of three, the range of the second: the third goes too (`HashTables.RangeEraseLosesNodes`) | first equals last, or they are in different buckets, or first is the head of its chain | `HashTables.HashTable.EraseRange` |
| deque `erase(first, last)` (headers/cpp/stl_deque.h:1055) | exactly the nodes from start to finish stay allocated | three elements in a node each, the range of the first: its node stays (`Deques.RangeEraseKeepsNode`) | the front does not move, or it moves within its node | `Deques.Deque.EraseRange` |
| rope `erase(p)` (headers/cpp/stl_rope.h:2112-2114) | exactly the character at p goes | position 2 of abcdef: three go (`RopeOps.EraseOneTakesThree`) | p is the first or the last position | `RopeOps.EraseOne` |

## Left out

- RopeBalance.TreeConcat: here and in all operations on counted ropes, ropes of up to `max_size()` characters; beyond it the library gives no guarantee (headers/cpp/stl_rope.h:1831-1836). The operations keep every rope within it and within the depth limit.
- RopeOps.PutChar: positions beyond the end are excluded, as the reference proxy has no meaning there.
- RopeHeap.Heap.CString: basic character types only, where a leaf's own data serves as its string.
- RopeIterator.Iterator.SetCache: the buffer is a copy; that `delete_c_str` (headers/cpp/stl_rope.h:1783-1795) frees a string that an iterator's buffer may still point into is not modelled.
- RopeConcat.ConcatRopes: ropes of up to `max_size()` characters; beyond it the library gives no guarantee (headers/cpp/stl_rope.h:1831-1836).
- RbTree.RbTree.Verify: that the checker accepts every valid tree; it would also accept some invalid ones, because it counts black nodes only at nodes without children (headers/cpp/stl_tree.h:1294).
- RbTree.RbTree.Clear: frees all nodes at once, without the recursion of `_M_erase`.
- HashTables.HashTable.Resize: where the hint is beyond the last prime of the table (headers/cpp/stl_hashtable.h:151-157) the number of buckets stays at that prime, as in the source.
- ListStore.Store.SpliceWithin: a position inside the stretch is excluded, as the source's callers must; the forms for a whole list and for one element only choose the stretch.
- ListSort.Sort: fewer than 2 to the 64 elements; the list takes over the ring of a counter slot, so the result names its header instead of swapping two header pointers.
- PoolAlloc.Allocator.ChunkAlloc: the answers of malloc and of the out-of-memory allocator are parameters; a null second answer stands for the exception that the source assumes there.
- StableSorting.StableSortRange: here and in StableMerge.InplaceMerge the size of the temporary buffer is a parameter.
- Permutation.PrevPermutation: one body with the flipped comparison, where the source repeats the code.
- Deques.Deque.ReallocateMap: what a map slot outside start to finish holds means nothing in the model, as in the source.
- Integers are unbounded: the wrap-around of sizes and of reference counts is not modelled.
- Exceptions and their clean-up, threads and locks, the garbage-collected variant, construction and destruction of elements.
- Copying of trees, hash tables, deques and lists; the range forms of insert and assign.
- Range insert of the deque, and its constructors with elements.
- `_S_apply_to_pieces` and rope comparison.
- `reallocate` of the pool allocator.
- `nth_element`, `stable_partition`, `search`, `find_end` and the simple algorithms of stl_algo.h and stl_algobase.h.
- map, set, hash_map, stack, queue and the other wrappers; vector, slist, bit_vector; iostreams.
