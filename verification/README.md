# Verified models of the resource allocators and search structures

This project models, in Dafny, the stateful cores of a target-utilities library and proves what they promise.
`dafny verify dfyconfig.toml` checks all of it.

## What is modelled

**The power-of-two allocator** (`PowerTwoAllocator.dfy` and the modules under it). An allocator hands out blocks of an index
range. Free indices live in one ordered map per size class, blocks in use in another map. A free gap is cut greedily: the
chunk at `cur` goes to class `min(ctz(cur), ceil(log2(rest)), classes - 1)`. The class `Allocator` keeps those maps and the
source's loops. Its invariant `Valid()` is the one the source never states: the free lists hold exactly the greedy cut of
every maximal gap between the blocks in use.

- `BitUtils.dfy`: trailing zeroes, logarithms, powers of two, masks.
- `Decomposition.dfy`: the greedy cut. It is the set of maximal aligned blocks; its prefixes do not move when the end moves,
  and it composes at chunk ends and at multiples of the largest size.
- `FreeSpace.dfy`: gaps, the cut of all gaps, and what taking out or giving back a block does to it.
- `Neighbours.dfy`, `Runs.dfy`, `Accounting.dfy`: the lookups around an index, runs of blocks, sums of sizes.
- `AllocatorProperties.dfy`: what holds in every reachable state, over runs of operations, and for round trips.
- `InvariantChecker.dfy`: the source's own run-time checker, which accepts exactly the valid states.

**The red-black tree with parent pointers** (`RbTrees.dfy`, `RbDeletion.dfy`, `RedBlackTree.dfy`, `RbRuns.dfy`). Nodes are heap
objects with `left`, `right`, `parent`, `red`, `key` and `data`. A ghost tree describes the shape; a ghost context (the path to
the root) describes what surrounds the node that a method works on. Deletion copies in-order neighbours along until a leaf is
left, rebalances while this doomed leaf is still linked, and cuts it off at the end. While it rebalances, the doomed leaf's key
may occur twice; `Ordered` therefore lets the doomed node's key equal a bound, and `Balanced` counts it as a missing leaf. The
rebalancing loop terminates on a measure of depth and case, because the red-sibling case lowers the node but turns its parent
red.

**Argument rotation** (`ArgumentRotation.dfy`). `permute_args` swaps two adjacent blocks of an array along gcd-many cycles. The
proof shows that the cycles are disjoint and reach every position.

**Searches for runs of free bits** (`FastBitset.dfy`, `IdAllocator.dfy`), over an ordered set, and **bit fields** in 64-bit words
(`Words.dfy`, `Bitset.dfy`), where machine words are natural numbers below 2^64 and the operators are proved bit by bit.

**Judy branches, lookup and counting** (`JudyBranches.dfy`, `JudyIndexes.dfy`, `JudyTrees.dfy`, `JudyGet.dfy`,
`JudyByCount.dfy`, `JudyCount.dfy`). The three representations of a 256-way branch, the conversions between them, the walk that
tests an index, and the two walks that map an index to its ordinal and back, each with its scans that add upwards or subtract
downwards. An index is its bytes; `JudyIndexes.dfy` ties the bytes to the word. `Judy.dfy` specifies the ordered sets and maps
that the other modules use.

Where the code and its documentation disagree:

- `power2_allocator_reserve` promises to refuse a range that is not free. Its bound check adds two 32-bit numbers, so a size
  that wraps past 2^32 can be accepted. `Neighbours.ReserveExact` gives the exact condition, `Neighbours.ReserveWraps` an input.
- `bf_id_allocator_allocate_contiguous` hands out ids at or past the size when a used id beyond the size closes a long enough
  gap across it. `IdAllocator.OverrunIff` gives the exact condition, `IdAllocator.OverrunExample` an input.

Methods that the source writes as one function are split where a part has a contract of its own (`Store`, `Take`, `CarveOut`,
`Hang`, `Unlink`, the cases of the deletion loop, `Search`, `Lookup`, `TestLeaf`, `Expand`, `Subtract` and similar). Return
codes of helpers that the source asserts to be zero are dropped, since the proofs show that the assertions hold.

## Model

| member | source | states |
|---|---|---|
| BitUtils.CtzIff | include/target-utils/bit_utils/bit_utils.h:61-69 | the count of trailing zeroes (32 for zero) reaches j exactly when 2^j divides the word |
| BitUtils.Log2CeilIff | include/target-utils/bit_utils/bit_utils.h:35-43 | the clz expression is at most j exactly when 2^j reaches the number, so it is the ceiling of the logarithm |
| BitUtils.Log2FloorIff | include/target-utils/bit_utils/bit_utils.h:50-58 | the clz expression is at least j exactly when the number reaches 2^j |
| BitUtils.IsPower2Iff | include/target-utils/bit_utils/bit_utils.h:74-76 | x & (x - 1) is zero for a positive x exactly when x is a power of two |
| BitUtils.Log2CeilOfPower | src/power2_allocator/power2_allocator.c:351-371 | a size that passes the power test is 2 to its ceiling logarithm, so the top list holds chunks of max_size |
| BitUtils.MaskRoundsDown | src/power2_allocator/power2_allocator.c:443 | masking with the complement of 2^l - 1 gives the greatest multiple of 2^l not above the index |
| Judy.First | third-party/judy-1.0.5/src/JudyCommon/JudyFirst.c:20-68 | inclusive search: the least key at or after the index, none exactly when every key is below it |
| Judy.Next | third-party/judy-1.0.5/src/JudyCommon/JudyFirst.c:20-23 | exclusive search: the least key after the index |
| Judy.FirstEmpty | third-party/judy-1.0.5/src/JudyCommon/JudyFirst.c:20-23 | the least index at or after the argument that is no key, with only keys before it |
| Judy.LastEmpty | third-party/judy-1.0.5/src/JudyCommon/JudyFirst.c:20-23 | the greatest index at or before the argument that is no key, none exactly when all are keys |
| Decomposition.FirstChunk | src/power2_allocator/power2_allocator.c:147-186 | the next chunk is aligned to its class, longer than half of it, and shorter than full only when it ends the interval |
| Decomposition.FirstChunkAsserts | src/power2_allocator/power2_allocator.c:147-186 | the alignment, class and length assertions that the splitting loops make of each chunk hold |
| Decomposition.GreedyIsMaximal | src/power2_allocator/power2_allocator.c:136-189 | the chunks of an interval are exactly its maximal aligned blocks, whatever order made them |
| Decomposition.GreedyCovers | src/power2_allocator/power2_allocator.c:136-189 | every index of the interval lies in a chunk |
| Decomposition.GreedyDisjoint | src/power2_allocator/power2_allocator.c:136-189 | two chunks that share an index are the same |
| Decomposition.GreedyPrefix | src/power2_allocator/power2_allocator.c:416-474 | moving the end of an interval, while it stays past a chunk's start, keeps every chunk before that start |
| Decomposition.GreedyCompose | src/power2_allocator/power2_allocator.c:450-465 | the cut of an interval is the union of the cuts of its parts at a sufficiently aligned point |
| Decomposition.GreedyComposeAtMultiple | src/power2_allocator/power2_allocator.c:783-821 | multiples of max_size are always chunk boundaries |
| Decomposition.BlockInChunk | src/power2_allocator/power2_allocator.c:427-435 | an aligned block inside an interval lies inside one chunk of a class that is large enough |
| FreeSpace.FreeChunksAreMaximal | src/power2_allocator/power2_allocator.c:1088-1172 | the chunks of all gaps are exactly the maximal aligned free blocks |
| FreeSpace.FreeChunksCover | src/power2_allocator/power2_allocator.c:1134-1145 | an index is free exactly when a chunk covers it |
| FreeSpace.CarveChunk | src/power2_allocator/power2_allocator.c:442-470 | putting a block into one chunk replaces that chunk by the cuts of its two remainders and leaves the rest |
| FreeSpace.Restore | src/power2_allocator/power2_allocator.c:498-538 | removing a block merges the cuts on both sides into the cut of the whole gap |
| FreeSpace.RestoreAtMultiple | src/power2_allocator/power2_allocator.c:783-820 | at a multiple of max_size the merge may leave the cut on the left as it is |
| FreeSpace.AlignedRunInChunk | src/power2_allocator/power2_allocator.c:427-440 | a free run that starts at a multiple of the rounded-up size lies inside one listed chunk of a class that alloc searches |
| Neighbours.ReserveExact | src/power2_allocator/power2_allocator.c:564-592 | the checks accept exactly the free ranges if and only if the 32-bit end of the range does not wrap to or below the next block |
| Neighbours.ReserveWraps | src/power2_allocator/power2_allocator.c:590-592 | a size whose end wraps is accepted although the range is not free |
| Runs.FindRun | src/power2_allocator/power2_allocator.c:649-683 | the scan that jumps ahead and steps back returns the least aligned start with count stored slots, and fails only when there is none |
| Runs.CheckRun | src/power2_allocator/power2_allocator.c:659-673 | the inner loop accepts a start exactly when all count slots hold enough |
| Runs.SlotStoredIff | src/power2_allocator/power2_allocator.c:659-668 | a top-list entry with enough room at a slot exists exactly when that many indices are free there |
| Runs.RunStoredIff | src/power2_allocator/power2_allocator.c:659-673 | the run is in the top list exactly when it is aligned and all its slots are free |
| Runs.SearchIsExact | src/power2_allocator/power2_allocator.c:730-747 | the total and the alignment, computed with 32-bit wrap-around, still select exactly the aligned free runs that fit |
| Accounting.UsedStep | src/power2_allocator/power2_allocator.c:863-866 | adding the next block's size adds exactly its indices to the count of those used so far |
| Accounting.SumListsIsHeld | src/power2_allocator/power2_allocator.c:1107-1121 | the sizes in all lists add up to the number of indices the entries hold |
| PowerTwoAllocator.RoundingFindsLastFit | src/power2_allocator/power2_allocator.c:442-449 | rounding down, with one step back, gives the last aligned place of the chunk that has room, so both assertions hold |
| PowerTwoAllocator.NoRun | src/power2_allocator/power2_allocator.c:427-440 | when no list from the size's class on has a long enough entry, no aligned free run exists anywhere |
| PowerTwoAllocator.Allocator.Create | src/power2_allocator/power2_allocator.c:345-377 | null exactly for a size that is no power of two; otherwise a valid allocator with everything free |
| PowerTwoAllocator.Allocator.MakeCopy | src/power2_allocator/power2_allocator.c:277-331 | a second allocator with the same lists and blocks that shares no state with the first |
| PowerTwoAllocator.Allocator.InsertOneFree | src/power2_allocator/power2_allocator.c:136-189 | adds exactly the chunks of the interval; no stored chunk is overwritten |
| PowerTwoAllocator.Allocator.RemoveFreeIndex | src/power2_allocator/power2_allocator.c:43-95 | removes exactly the chunks of the interval, every lookup succeeding with the expected size |
| PowerTwoAllocator.Allocator.RemoveOneFree | src/power2_allocator/power2_allocator.c:100-134 | takes the first entry of the list that is long enough, or changes nothing when there is none |
| PowerTwoAllocator.Allocator.TakeChunk | src/power2_allocator/power2_allocator.c:427-440 | takes the first long enough entry of the lowest list, from the size's class up, that has one; nothing changes when none has |
| PowerTwoAllocator.FirstInLists | src/power2_allocator/power2_allocator.c:427-435 | the chunk chosen has no long enough entry in a lower list, nor an earlier one in its own |
| PowerTwoAllocator.Allocator.Alloc | src/power2_allocator/power2_allocator.c:416-474 | -1 exactly when the size is too large or no free run is suitably aligned; otherwise the block lies at the last aligned place with room in the first long enough entry of the lowest list that has one, was wholly free, and only it becomes used; keeps the invariant |
| PowerTwoAllocator.Allocator.Release | src/power2_allocator/power2_allocator.c:484-541 | 0 exactly for the start of a block, which alone stops being used; keeps the invariant |
| PowerTwoAllocator.Allocator.Reserve | src/power2_allocator/power2_allocator.c:555-627 | 0 exactly when the range is free, which then becomes a block; otherwise nothing changes; keeps the invariant |
| PowerTwoAllocator.Allocator.AllocIntV2 | src/power2_allocator/power2_allocator.c:629-705 | takes the lowest multiple of the alignment where every slot has room, -1 exactly when there is none |
| PowerTwoAllocator.Allocator.AllocMultiple | src/power2_allocator/power2_allocator.c:718-758 | the lowest aligned start where all count slots of max_size have size free indices, -1 exactly when none exists or the size is not of the top class |
| PowerTwoAllocator.Allocator.ReleaseMultiple | src/power2_allocator/power2_allocator.c:768-825 | gives back all blocks of an aligned run although it never merges to the left; keeps the invariant |
| PowerTwoAllocator.Allocator.Usage | src/power2_allocator/power2_allocator.c:857-868 | the number of indices that some block covers |
| AllocatorProperties.EntryIffMaximal | src/power2_allocator/power2_allocator.c:1107-1121 | in a valid state an entry of list k is a maximal aligned free block, and every such block is an entry |
| AllocatorProperties.EntriesDisjoint | src/power2_allocator/power2_allocator.c:1114-1118 | no two entries of any lists overlap, and all lie below the total |
| AllocatorProperties.EntryAt | src/power2_allocator/power2_allocator.c:1134-1145 | an index is free exactly when some list has an entry over it |
| AllocatorProperties.Conservation | src/power2_allocator/power2_allocator.c:857-868 | the used indices and the sizes of all list entries add up to the total |
| AllocatorProperties.HistoryIndependence | src/power2_allocator/power2_allocator.c:268-331 | states with the same blocks in use have the same free lists |
| AllocatorProperties.Perform | src/power2_allocator/power2_allocator.c:416-825 | what each request does to the blocks in use, request by request, and that it keeps the invariant |
| AllocatorProperties.Execute | src/power2_allocator/power2_allocator.c:416-825 | any sequence of requests with defined arguments leads through states that follow one another by those effects, all valid |
| AllocatorProperties.RunDetermined | src/power2_allocator/power2_allocator.c:416-825 | the same requests from the same blocks in use lead through the same states, wherever the chosen chunks and runs come from |
| AllocatorProperties.RunsConverge | src/power2_allocator/power2_allocator.c:345-825 | two runs from creation, each by the effects of its requests, that end with the same blocks end with the same lists |
| AllocatorProperties.AllocThenRelease | src/power2_allocator/power2_allocator.c:416-541 | releasing what was just allocated restores every list |
| AllocatorProperties.ReserveThenRelease | src/power2_allocator/power2_allocator.c:484-627 | releasing what was just reserved restores every list |
| AllocatorProperties.AllocMultipleThenRelease | src/power2_allocator/power2_allocator.c:718-825 | releasing a run that was just allocated restores every list |
| AllocatorProperties.RunReleaseMatchesSingles | src/power2_allocator/power2_allocator.c:768-825 | releasing a run at once gives the lists of releasing its blocks one by one with full merging |
| InvariantChecker.MarkLists | src/power2_allocator/power2_allocator.c:1103-1121 | the first pass passes exactly when all entries have sizes of their class and none overlap |
| InvariantChecker.FreeListAssert | src/power2_allocator/power2_allocator.c:1039-1086 | passes exactly when every chunk of the range is stored, and never for a range that wraps past 32 bits |
| InvariantChecker.GapsAssert | src/power2_allocator/power2_allocator.c:1147-1161 | passes in every valid state, and only when all blocks fit the total and the cut of every gap is stored |
| InvariantChecker.ChecksSuffice | src/power2_allocator/power2_allocator.c:1088-1172 | a state that passes every check satisfies the invariant: no further entry can be stored |
| InvariantChecker.Check | src/power2_allocator/power2_allocator.c:1088-1172 | the run-time checker passes exactly in the valid states |
| InvariantChecker.CheckAfterRun | src/power2_allocator/power2_allocator.c:1088-1172 | whatever requests lead to from a valid state, the run-time checker passes |
| RbTrees.RotatedRightOrdered | src/rbt/rbt.c:31-59 | a right rotation keeps the order and the keys |
| RbTrees.RotatedLeftOrdered | src/rbt/rbt.c:61-89 | a left rotation keeps the order and the keys |
| RbTrees.StraightBalanced | src/rbt/rbt.c:91-130 | after one colour-swapping rotation a tree with a red node below a red node is balanced again |
| RbTrees.ZigzagBalanced | src/rbt/rbt.c:91-130 | after two rotations the inner case is balanced again |
| RbTrees.RecolourGoesUp | src/rbt/rbt.c:251-270 | painting both children black and their parent red moves the one possible red-red pair up |
| RbTrees.RedBlackIsShallow | src/rbt/rbt.c:150-184 | the height is at most twice the logarithm of the size plus one |
| RedBlackTree.RbTree.RotateRight | src/rbt/rbt.c:31-59 | the heap holds the rotated tree, all parent links, the head and the surroundings included |
| RedBlackTree.RbTree.RotateLeft | src/rbt/rbt.c:61-89 | the mirror image |
| RedBlackTree.RbTree.PerformRotation | src/rbt/rbt.c:91-130 | each of the four cases ends with a valid tree of the same nodes and entries |
| RedBlackTree.RbTree.GetNeighColor | src/rbt/rbt.c:221-235 | the colour of the sibling, although the side is found by comparing keys |
| RedBlackTree.RbTree.ColorFix | src/rbt/rbt.c:251-270 | recolouring and rebalancing further up ends with a valid tree of the same nodes and entries |
| RedBlackTree.RbTree.BalancePostInsertion | src/rbt/rbt.c:272-287 | from a tree with at most one red-red pair, on the key's side, to a valid tree; the mutual recursion climbs |
| RedBlackTree.RbTree.Insert | src/rbt/rbt.c:289-330 | keeps every red-black and link invariant; returns the node with the key, or adds exactly one new entry |
| RedBlackTree.RbTree.GetLowerBound | src/rbt/rbt.c:150-166 | the node with the greatest key not above the argument, null exactly when there is none, after as many steps as the search path has nodes, which are logarithmically many |
| RedBlackTree.RbTree.GetUpperBound | src/rbt/rbt.c:168-184 | the node with the least key not below the argument, null exactly when there is none, after as many steps as the search path has nodes, which are logarithmically many |
| RedBlackTree.RbTree.GetNeighbor | src/rbt/rbt.c:237-249 | the sibling, also while one key occurs twice |
| RedBlackTree.RbTree.GetDirection | src/rbt/rbt.c:212-219 | the side of the parent that the node hangs on, also while one key occurs twice |
| RbDeletion.SuccessorOrdered | src/rbt/rbt.c:353-361 | copying the successor into a node moves the one duplicate key to the successor |
| RbDeletion.PredecessorOrdered | src/rbt/rbt.c:353-361 | the same for the predecessor |
| RbDeletion.CopyStep | src/rbt/rbt.c:357-360 | a copying step keeps what the nodes other than the doomed one hold |
| RbDeletion.UnlinkedIsRedBlack | src/rbt/rbt.c:447-458 | once rebalanced, the tree without the doomed leaf is red-black and holds what the other nodes held |
| RedBlackTree.RbTree.GetSuccessor | src/rbt/rbt.c:132-139 | the leftmost node of the right subtree, null exactly when that is empty |
| RedBlackTree.RbTree.GetPredecessor | src/rbt/rbt.c:141-148 | the rightmost node of the left subtree, null exactly when that is empty |
| RedBlackTree.RbTree.CopyStepDown | src/rbt/rbt.c:353-361 | one copy, with the doom moved to the copied node, strictly lower in the tree |
| RedBlackTree.RbTree.BstDeletion | src/rbt/rbt.c:332-364 | null exactly for an absent key; otherwise a leaf such that the other nodes hold exactly the remaining keys and data |
| RedBlackTree.RbTree.TurnSiblingRed | src/rbt/rbt.c:377-392 | a sibling without red children turns red and the missing black node is made up for at a red parent or moves to the parent |
| RedBlackTree.RbTree.FarCase | src/rbt/rbt.c:393-408 | one rotation and a black far child restore the balance |
| RedBlackTree.RbTree.NearCase | src/rbt/rbt.c:409-422 | rotating the sibling makes the near red child a far one |
| RedBlackTree.RbTree.RedSiblingCase | src/rbt/rbt.c:423-428 | rotating a red sibling up leaves the node below a red parent with a black sibling |
| RedBlackTree.RbTree.BalancePostDeletion | src/rbt/rbt.c:366-432 | from any black doomed leaf the loop terminates with a tree that is red-black without that leaf |
| RedBlackTree.RbTree.Remove | src/rbt/rbt.c:434-462 | keeps every red-black and link invariant; removes exactly the key and leaves every other key with its data; exactly one node, the one to free, leaves the tree; says so when the key is absent |
| RedBlackTree.RbTree.SetData | include/target-utils/rbt/rbt.h:30-45 | a caller's write to a node's data changes that key's data only and keeps the tree valid |
| RbRuns.Perform | src/rbt/rbt.c:289-462 | a removal takes out the pair of its key, a write replaces or adds it, an insertion adds 0 to a new key, and all other pairs stay |
| RbRuns.Execute | src/rbt/rbt.c:289-462 | every run from a new tree ends valid; a key has the data of the last request that gave it some, and is absent exactly when there was none or it was dropped after that |
| RbRuns.AfterIs | src/rbt/rbt.c:289-462 | the map of a run, built request by request, is what the requests leave when each key is looked up from the end |
| RbRuns.SizeIsMap | src/rbt/rbt.c:150-184 | the tree has as many nodes as the map has keys |
| RbRuns.Query | src/rbt/rbt.c:150-184 | after any run both bound searches answer as the map does, within twice the logarithm of its size |
| ArgumentRotation.Gcd | third-party/klish/libc/getopt.c:105-118 | a common divisor that is a combination of the arguments |
| ArgumentRotation.GcdIsGreatest | third-party/klish/libc/getopt.c:105-118 | such a divisor is at least as large as any other common divisor |
| ArgumentRotation.VisitsDistinct | third-party/klish/libc/getopt.c:136-152 | the positions of one cycle are distinct |
| ArgumentRotation.VisitSurjective | third-party/klish/libc/getopt.c:136-152 | every position whose offset belongs to a cycle is reached by it |
| ArgumentRotation.RunCycle | third-party/klish/libc/getopt.c:139-153 | one cycle of swaps puts every entry of its class in place and touches no other |
| ArgumentRotation.PermuteArgs | third-party/klish/libc/getopt.c:125-154 | the two blocks change places with their inner order kept, and nothing outside moves |
| FastBitset.Bitset.Set | src/fbitset/fbitset.c:28-43 | sets or clears one position and returns its previous value |
| FastBitset.Bitset.FirstClrContiguous | src/fbitset/fbitset.c:106-153 | the least start after the position of count clear bits inside the width, -1 exactly when there is none |
| FastBitset.Bitset.PrevClrContiguous | src/fbitset/fbitset.c:56-103 | the greatest start of count clear bits that end before the position, -1 exactly when there is none |
| FastBitset.Bitset.ClearToNext | src/fbitset/fbitset.c:134-143 | a run is clear exactly when it ends inside the width and before the next set position |
| FastBitset.Bitset.FirstSet | src/fbitset/fbitset.c:156-169 | the least set position after the argument, -1 when there is none |
| IdAllocator.Allocator.Search | src/id/id.c:126-161 | the least acceptable start, found for every set of used ids; none exactly when nothing is acceptable |
| IdAllocator.Allocator.AllocateContiguous | src/id/id.c:77-173 | marks exactly the count ids of the least acceptable start and returns that start, or one more when ids count from one; -1 exactly when there is none, changing nothing |
| IdAllocator.ChoiceIsLowestFit | src/id/id.c:77-173 | the choice is the lowest free run inside the size, and nothing is chosen exactly when none exists, if and only if no used id strays past the size in the way of OverrunIff; with all used ids below the size none does |
| IdAllocator.OverrunIff | src/id/id.c:126-161 | ids at or past the size are handed out exactly when no run fits inside and a used id beyond the size ends a long enough gap across it |
| IdAllocator.OverrunExample | src/id/id.c:126-161 | a concrete set of used ids with which that happens |
| IdAllocator.Allocator.Release | src/id/id.c:188-207 | frees the id, or the one below it when ids count from one, and no other |
| IdAllocator.Allocator.Set | src/id/id.c:214-234 | marks the id, or the one below it when ids count from one, and no other |
| IdAllocator.Allocator.IsSet | src/id/id.c:241-255 | whether the id is marked; never for 0 when ids count from one |
| IdAllocator.Allocator.GetNext | src/id/id.c:285-314 | the least marked id after the given one, in the same numbering; none exactly when there is none, and for 0 when ids count from one |
| IdAllocator.AllocateThenRelease | src/id/id.c:77-255 | every id handed out is marked, and releasing them one by one leaves what was marked before |
| Words.Shl | src/bitset/bitset.c:226-233 | bit k of a shifted word is bit k - s of the word |
| Words.Shr | src/bitset/bitset.c:253-261 | bit k of a shifted word is bit k + s of the word |
| Words.Ffs | src/bitset/bitset.c:106-109 | one more than the place of the lowest one bit, 0 exactly when there is none |
| Words.PopCountOfWord | src/bitset/bitset.c:302 | the population count is the number of one bits |
| Bitset.WordBitset.MaskTop | src/bitset/bitset.c:73-76 | clears every bit past the width and keeps the members |
| Bitset.WordBitset.Set | src/bitset/bitset.c:38-57 | adds or removes exactly one member and returns its previous value |
| Bitset.WordBitset.Get | src/bitset/bitset.c:59-71 | membership of one position |
| Bitset.WordBitset.SetAll | src/bitset/bitset.c:78-89 | all positions of the width or none, with nothing set past the width |
| Bitset.WordBitset.SetWord | src/bitset/bitset.c:213-239 | exactly the positions of the field inside the width become the bits of the value, across a word boundary; bits past the width stay clear |
| Bitset.WordBitset.GetWord | src/bitset/bitset.c:241-266 | the bits of the field inside the width, zero above |
| Bitset.WriteThenRead | src/bitset/bitset.c:213-266 | reading back a written field gives the value cut to the bits that fit |
| Bitset.WordBitset.FirstSet | src/bitset/bitset.c:91-126 | the least member after the argument, -1 exactly when there is none |
| Bitset.Equal | src/bitset/bitset.c:198-212 | true exactly for sets of the same width and members |
| Bitset.WordBitset.CountOnes | src/bitset/bitset.c:296-304 | the number of members |
| JudyBranches.LookupL | third-party/judy-1.0.5/src/JudyCommon/JudyGet.c:210-224 | the child listed with the digit, none exactly when the digit is not listed |
| JudyBranches.LookupB | third-party/judy-1.0.5/src/JudyCommon/JudyGet.c:284-302 | the bit test and the population count of the lower bits select the child at the digit's rank |
| JudyBranches.OffsetIsRank | third-party/judy-1.0.5/src/JudyCommon/JudyGet.c:298-300 | counting the bits under the mask less one gives the number of set bits below |
| JudyBranches.CreateBranchB | third-party/judy-1.0.5/src/JudyCommon/JudyCreateBranch.c:89-190 | the bitmap branch gives the linear branch's child for every digit |
| JudyBranches.CreateBranchU | third-party/judy-1.0.5/src/JudyCommon/JudyCreateBranch.c:201-314 | the uncompressed branch gives the bitmap branch's child for every digit |
| JudyBranches.BranchBToBranchL | third-party/judy-1.0.5/src/JudyCommon/JudyDecascade.c:232-310 | the linear branch gives the bitmap branch's child for every digit, with its digits sorted |
| JudyByCount.FindUpInBitmap | third-party/judy-1.0.5/src/JudyCommon/JudyByCount.c:363-401 | the upward scan finds the child that holds the ordinal |
| JudyByCount.FindDownInBitmap | third-party/judy-1.0.5/src/JudyCommon/JudyByCount.c:404-447 | the downward scan finds the child that holds the ordinal |
| JudyByCount.FindUpInPlain | third-party/judy-1.0.5/src/JudyCommon/JudyByCount.c:505-536 | the upward scan of an uncompressed branch finds the slot whose child holds the ordinal |
| JudyByCount.FindDownInPlain | third-party/judy-1.0.5/src/JudyCommon/JudyByCount.c:539-574 | the downward scan of an uncompressed branch finds the slot whose child holds the ordinal |
| JudyTrees.PlainStep | third-party/judy-1.0.5/src/JudyCommon/JudyByCount.c:505-536 | the slot of a digit holds its child, whose population is the step from one digit to the next |
| JudyByCount.FoundOnce | third-party/judy-1.0.5/src/JudyCommon/JudyByCount.c:359-574 | an ordinal has one such child, so the two directions of a scan agree |
| JudyByCount.FindInLinear | third-party/judy-1.0.5/src/JudyCommon/JudyByCount.c:268-299 | the scan of a linear branch finds the child that holds the ordinal |
| JudyByCount.FindInBits | third-party/judy-1.0.5/src/JudyCommon/JudyByCount.c:690-770 | either scan of a bitmap leaf finds the digit with the ordinal |
| JudyByCount.BitmapDigit | third-party/judy-1.0.5/src/JudyCommon/JudyPrivate.h:842-864 | the shifting loop finds the set bit with the given number of set bits below |
| JudyByCount.ByCount | third-party/judy-1.0.5/src/JudyCommon/JudyByCount.c:98-954 | writes the key with the given ordinal over whatever the caller's index held; nothing is found exactly for an ordinal of 0 or past the population |
| JudyCount.AboveUpInBitmap | third-party/judy-1.0.5/src/JudyCommon/JudyCount.c:581-634 | subtracting upwards leaves the population above the digit |
| JudyCount.AboveDownInBitmap | third-party/judy-1.0.5/src/JudyCommon/JudyCount.c:636-692 | adding downwards gives the same population |
| JudyCount.AboveInPlain | third-party/judy-1.0.5/src/JudyCommon/JudyCount.c:728-786 | both directions give the population above the digit |
| JudyCount.AboveInLinear | third-party/judy-1.0.5/src/JudyCommon/JudyCount.c:449-467 | the scan from the end gives the population above the digit |
| JudyCount.AboveCountsKeys | third-party/judy-1.0.5/src/JudyCommon/JudyCount.c:449-786 | the population above a digit is the number of keys with a greater byte there |
| JudyCount.CountLeafB1 | third-party/judy-1.0.5/src/JudyCommon/JudyCount.c:979-1053 | both directions give the number of keys below a digit of a bitmap leaf |
| JudyCount.CountSM | third-party/judy-1.0.5/src/JudyCommon/JudyCount.c:351-959 | the result counts from the end of the keys to the given key, inclusive |
| JudyCount.RankCountsFrom | third-party/judy-1.0.5/src/JudyCommon/JudyCount.c:327-334 | that result is the number of keys from the index on, in the order of the words |
| JudyGet.SearchLeaf | third-party/judy-1.0.5/src/JudyCommon/JudyPrivate.h:534-553 | the binary search, with its lower end wrapped below 0, finds the key or the place where it would go |
| JudyGet.InBranch | third-party/judy-1.0.5/src/JudyCommon/JudyGet.c:160-393 | a word is below a branch exactly when its next bytes are the skipped ones and its rest is below the child of the byte after them |
| JudyGet.InLeaf | third-party/judy-1.0.5/src/JudyCommon/JudyGet.c:398-571 | a word is in a leaf exactly when its skipped bytes match and its last ones are listed, or their bit is set, or the leaf is full |
| JudyGet.Test | third-party/judy-1.0.5/src/JudyCommon/JudyGet.c:52-794 | the walk through all kinds of branches and leaves answers yes exactly for the keys |
| JudyTrees.FullRanks | third-party/judy-1.0.5/src/JudyCommon/JudyCount.c:869-883 | in the full leaf every digit is its own offset |
| JudyCount.CountRange | third-party/judy-1.0.5/src/JudyCommon/JudyCount.c:122-324 | the number of keys from the first index to the second, inclusive, through every shortcut |
| JudyCount.CountIsUnique | third-party/judy-1.0.5/src/JudyCommon/JudyCount.c:327-334 | a key has one count |
| JudyTrees.KeysAscending | third-party/judy-1.0.5/src/JudyCommon/JudyCount.c:327-334 | the keys of a tree stand in increasing order, so the ordinals count by it |
| JudyCount.SelectAfterRank | third-party/judy-1.0.5/src/JudyCommon/JudyByCount.c:26-32 | counting a key and then walking to the ordinal of that count ends at the key |
| JudyCount.RankAfterSelect | third-party/judy-1.0.5/src/JudyCommon/JudyByCount.c:26-32 | walking to an ordinal and then counting the key found there gives the ordinal back |
| JudyIndexes.LessIsNumeric | third-party/judy-1.0.5/src/JudyCommon/JudyPrivate.h:536-553 | the order of the bytes, first to last, is the order of the words |
| JudyIndexes.DigitIsByte | third-party/judy-1.0.5/src/JudyCommon/JudyPrivateBranch.h:380-381 | the shifted and truncated word is the byte at that state |
| JudyIndexes.SetDigitSetsByte | third-party/judy-1.0.5/src/JudyCommon/JudyPrivate.h:1003-1006 | clearing and setting the bits of a digit replaces exactly that byte |
| JudyIndexes.DigitBits | third-party/judy-1.0.5/src/JudyCommon/JudyPrivateBranch.h:380-381 | the digit has the eight bits of the word at its state and no others |
| JudyIndexes.SetDigitBits | third-party/judy-1.0.5/src/JudyCommon/JudyPrivate.h:1003-1006 | the eight bits at the state become the digit's and every other bit of the word stays |
| JudyIndexes.DigitsOfWords | third-party/judy-1.0.5/src/JudyCommon/JudyPrivate.h:1003-1006 | on 64-bit words both are the source's shifts, masks and ors |
| JudyIndexes.PowerIsPow2 | third-party/judy-1.0.5/src/JudyCommon/JudyPrivateBranch.h:375-390 | a byte is eight bits: n bytes are 8n places, and eight bytes are the whole word |
| JudyTrees.ConversionKeepsKeys | third-party/judy-1.0.5/src/JudyCommon/JudyCreateBranch.c:201-314 | a branch that changes form with the same children keeps its keys and stays countable |

## Left out

- PowerTwoAllocator.Allocator.Reserve: does not cover size 0, for which the source would record an empty block, nor a size whose 32-bit end wraps into an accepted range; Neighbours.ReserveExact says exactly when that is, and the source then edits its lists with wrapped sizes.
- PowerTwoAllocator.Allocator.Alloc: does not cover size 0, for which the source would record an empty block and fail its own assertion on the next lookup.
- PowerTwoAllocator.Allocator.Create: does not cover totals of 2^31 or more, because indices are returned as signed 32-bit numbers.
- PowerTwoAllocator.Allocator.AllocMultiple: does not cover size 0, as for Alloc, nor sizes above 2^31, whose power of two does not fit the 32-bit shift.
- PowerTwoAllocator.Allocator.ReleaseMultiple: is stated for the runs that alloc_multiple makes; on other arguments the source's skipped merge breaks its invariant or its assertions.
- InvariantChecker.Check: takes states whose blocks are not empty and whose entries end below 2^32, so that the checker's own 32-bit additions do not wrap.
- RedBlackTree.RbTree.Insert: is stated for a descent that starts at the head, as the callers do; the source would accept any node to start from.
- RedBlackTree.RbTree.Remove: says which node leaves the tree, but does not model the release of its memory.
- IdAllocator.Allocator.AllocateContiguous: sizes are below 2^31 - 1, because the result is a signed 32-bit number; the count is the source's 8-bit parameter.
- JudyBranches.CreateBranchB: does not model the freeing of earlier subarrays when an allocation fails.
- JudyCount.AboveInBitmap: leaves the choice of direction open, because it depends on cache-line constants only; both directions are proved.
- JudyGet.Test: compares the bytes that a node skips, where the source compares all bytes decoded so far, and leaves out JudyL's pointer to the value.
- JudyByCount.ByCount: immediate entries are treated as short linear leaves, and the copies out of leaves of odd byte sizes as copies of bytes.
- JudyCount.CountRange: the two searches of the array that the source makes first are parameters, specified by what they answer.
- Judy.First: Judy arrays are specified as ordered sets and maps for the other modules; insertion, deletion, cascading and memory layout inside the library are not modelled.
- Words.PopCount: the population count is taken as its meaning, not as the masked additions of the library.
- `bf_bs_first_clr`, `bf_bs_copy`, `bf_bs_copy_range`, `bf_bs_all_1s`, `bf_bs_all_0s`, and `bf_id_allocator_get_first`, whose code departs from its header or which add only easy members.
- `power2_allocator_destroy`, `power2_allocator_set`, counting and iterating over the blocks in use, and the highest and lowest key of the tree.
- The list macros in `bf_list.h`, the hash table and map wrappers, logging, printing, allocation failure and null arguments.
- The command shell, terminal and socket code, and the option parser around `permute_args`.
