# Verified models of the data structures library

This project models the code of a small C library of data structures and proves what the code keeps: the
on-disk B-tree with its space manager (`btrees/btree.c`), the AVL tree (`avl_trees/avl_tree.c`), the
write-back block cache (`bcache/bcache.c`), the shortest-path searches of both graph modules
(`graphs/udw_graph/udw_graph.c`, `graphs/ud_graph/ud_graph.c`), and the heap and the ring buffer under them
(`queues/heaps/heap.c`, `queues/fifos/fifo.c`). Verify everything with `dafny verify dfyconfig.toml`.

The source changes things in place, and so does the model: the tree, node store, bitmap, cache, heap and
ring buffer are classes whose methods follow the C functions branch by branch. What is promised about them
is stated over ghost views and specification functions, and proved about those in lemmas.

| modules | what they model |
|---|---|
| `Bitmaps`, `SpaceManagers` | the bitmap blocks, byte by byte, and the allocator over all of them |
| `BtreeNode`, `BtreeSplit`, `BtreeStore` | records and nodes with their byte counts, the split-point search, the operations on one node |
| `BtreeShape`, `BtreeOrder`, `BtreeSteps`, `BtreeLinks` | the blocks seen as a tree, with routing ranges and levels the blocks do not store |
| `BtreeOutcome`, `BtreeRemoval`, `BtreeRoot`, `BtreeMap`, `Btrees` | insertion, search and removal from the root; the finite map the tree stands for; where every block is |
| `BtreeRuns`, `BtreeScenarios`, `BtreeFailures` | any number of calls, from the newly created tree on, and the calls that lead to the failures below |
| `BtreeLevels`, `BtreeWalk`, `BtreeCheck` | the level-order walk over the disk with its callbacks, and the check of the file |
| `AvlShape`, `AvlTrees` | the AVL tree at pointer level, beside its true heights |
| `BcacheState`, `BlockCache`, `BcacheRuns` | the cache as a transition system, the class whose methods are its steps, and any sequence of requests to it |
| `UdwSearch`, `UdwGraph` | best-first search with non-negative weights |
| `UdPaths`, `UdLayers`, `UdGraph` | depth-first search with a length to beat, breadth-first search |
| `PriorityHeap`, `FifoQueue`, `Callbacks`, `Common` | the queues, callbacks on items in turn, and the result codes |

A failing assertion of the C code is not assumed away: where it can fail, the model returns `Aborted`, and
the contract says exactly when that happens.

Where the code and its stated intent part, the model follows the code:

- **Split sizes.** `btn_insert_split` suspects records above half a node of not fitting, and asserts it. A
  quarter of a node is the exact limit below which the assertion never fails for any node
  (`SplitLimitIsExact`). Five insertions into a new tree, the last of a record three bytes above that limit and
  far below the one that `bt_insert` enforces, stop the program (`ReachStoppingSplit`).
- **Lost blocks.** The block for a split is allocated before the duplicate check. An insertion loses that block
  exactly if its key is present, the leaf of the key has no room for the record, and a block is free
  (`LosesBlock`, `RoomDecides`). No other call loses one, and the loss is counted exactly (`RunRefines`,
  `RunConservesBlocks`). `LoseBlocks` loses any number of them, up to all but one. The file then no longer passes
  its own check (`PerformAndCheck`).
- **Blocks that run out half-way.** The insert into the parent and the allocation of a new root are asserted to
  succeed (btrees/btree.c:1565-1566, 1686-1694). They fail exactly if a new key's insertion needs several blocks
  and only some of them are free (`InsertErr`). A new tree gets there by duplicates that lose all blocks but one,
  and a record that splits the root (`StopForLackOfBlocks`).
- **Sizes above 64 KB.** The size checks of `bt_insert` are made on 16-bit sums. They miss a record that is too
  long exactly if it has 64 KB or more and its sums wrap to allowed ones (`ChecksMissWrapped`,
  `WrappedRecordPasses`).
- **Freeing into a full bitmap.** `bm_bfree` asserts a non-zero free count, so emptying a leaf whose bitmap
  has no free block stops the program (`RemoveErr`). A new tree gets there by five insertions, duplicates until
  no block is free, and the removal of the only record of a leaf (`FillBitmap`).
- **A root split without a split point.** `btn_insert_split` changes flags and free space of a root it splits
  (btrees/btree.c:897-902) and calls `bc_dirty` for it only if records move or the new record goes into it; for an
  index node `_bt_insert` flags the root anyway (btrees/btree.c:1621). So an insertion into a tree whose changed
  blocks are all flagged leaves a changed block without a flag if and only if it succeeds, the root is a leaf that
  splits and has no split point, and the root is not flagged already; that block is the old root (`InsertTracked`,
  `RootForgotten`). Three insertions, a sync and a fourth insertion do it: when the cache lets go of the old root
  it is read back as a root, and the tree is broken (`LoseOldRoot`).
- **Best-first search.** `udwg_shortest_path_bf` returns ENOENT whenever its queue runs dry, even if it has
  found the path (`SearchTwoNodes`). With positive weights and no two shortest walks to the same node it
  returns a path if and only if some shortest walk can be prolonged past the goal by an edge to a node that is
  not on it (`SomeDetour`). With ties or weights of zero, the order of equal paths in the heap decides between
  two conditions: `SomeSureDetour` implies a path, and a path implies `SomeDetour`.
- **Cache size.** The test for a full cache adds in 32 bits. It is right exactly if one block above the
  capacity does not wrap (`SizeTestIsExact`); that is what the cache's constructor requires.

## Model

| member | source | states |
|---|---|---|
| Bitmaps.MasksAgree | btrees/btree.c:117-129 | the mask that walks through a byte by shifts is the mask computed from the bit's offset |
| Bitmaps.MaskTouchesOneBit | btrees/btree.c:211-239 | setting or clearing with a mask changes one bit of the byte and no other |
| Bitmaps.BitUpdate | btrees/btree.c:167-239 | setting or clearing bit `i` of the bitmap changes bit `i` only |
| Bitmaps.ClearBitsUpdate | btrees/btree.c:167-239 | what one bit's update does to the set of clear bits |
| Bitmaps.ClearBitsDetermine | btrees/btree.c:2585-2613 | two bitmaps are the same bytes exactly if they have the same clear bits |
| Bitmaps.AllocateThenFree | btrees/btree.c:167-239 | allocating a free block and freeing it again restores every byte of the bitmap |
| Bitmaps.Bitmap.Leading | btrees/btree.c:1237-1254 | the first bitmap of a new file has exactly its first bits set, and the right free count |
| Bitmaps.Bitmap.Trailing | btrees/btree.c:1276-1290 | the last bitmap has exactly the bits past the end of the file set, and the right free count |
| Bitmaps.NextBit | btrees/btree.c:184-201 | the byte-and-mask scan stays in step with the bit's index |
| Bitmaps.Bitmap.FirstClear | btrees/btree.c:167-209 | with a non-zero free count the scan finds the least clear bit, with its byte and mask |
| Bitmaps.Bitmap.Balloc | btrees/btree.c:167-209 | hands out the least clear bit and sets exactly that one; ENOENT exactly if the free count, which is the number of clear bits, is zero |
| Bitmaps.Bitmap.Bfree | btrees/btree.c:211-239 | clears exactly the given bit and counts it |
| SpaceManagers.LeastFree | btrees/btree.c:338-388 | the least clear bit of the first bitmap that has one is the least free block number of all |
| SpaceManagers.BlocksOfABitmap | include/btree.h:79-84 | a block shares its bitmap with the others of its group of 8128; with the blocks from 8100 on free block 5000 can be freed, with those from 8128 on it cannot |
| SpaceManagers.FileInNumbers | include/btree.h:9-24 | a new file has 65536 blocks and nine bitmaps, and the blocks from 11 on are free |
| SpaceManagers.SpaceManager.FirstWithFree | btrees/btree.c:338-388 | finds the first bitmap with a free block |
| SpaceManagers.SpaceManager.Balloc | btrees/btree.c:338-388 | hands out the least free block and takes exactly it; ENOSPC exactly if there is none, and then nothing changes |
| SpaceManagers.SpaceManager.Bfree | btrees/btree.c:390-424 | frees exactly the given block; stops exactly if none of the 8128 blocks of its bitmap is free |
| BtreeNode.NoThirdNode | btrees/btree.c:904-916 | with records up to the limit the split never needs a third node |
| BtreeNode.CleanSplit | btrees/btree.c:847-969 | within the limit both halves are non-empty, both fit, and one after the other they are the old records with the new one in its place |
| BtreeNode.CleanHalves | btrees/btree.c:925-969 | the new record goes into the half it belongs to, where it fits without another split |
| BtreeNode.SplitPlan | btrees/btree.c:847-948 | what the search for the split point found decides the division and the half of the new record |
| BtreeNode.SplitPointIsFirst | btrees/btree.c:853-890 | the split point is the first record with 507 bytes before it, the new record counted if it belongs there or further left |
| BtreeNode.LongerRecordsAbort | btrees/btree.c:904-907 | a full leaf of records one byte above the limit on which the split stops at its assertion |
| BtreeNode.SplitLimitIsExact | btrees/btree.c:904-907 | splitting never stops at its assertion for any node if and only if records are at most a quarter of a node |
| BtreeSplit.FindSplit | btrees/btree.c:847-890 | the loop finds the duplicate, or the split point, the new record's place and the bytes that move, as the recursive specification defines them |
| BtreeStore.NodeStore.Alloc | btrees/btree.c:687-704 | takes a free block and sets up an empty node in it; ENOSPC exactly if there is none |
| BtreeStore.NodeStore.Scan | btrees/btree.c:706-765 | the place of a key in a node, or that it is a duplicate |
| BtreeStore.NodeStore.InsertFitting | btrees/btree.c:706-765 | inserts in order and takes the bytes off the free space, or EEXIST with the node unchanged |
| BtreeStore.NodeStore.InsertFirst | btrees/btree.c:767-791 | the pointer and the first record take exactly their bytes of an empty index node; a fresh node becomes a sound one |
| BtreeStore.NodeStore.MoveTail | btrees/btree.c:918-948 | the records from the split point on move to the new node, and both free-space counts stay right |
| BtreeStore.NodeStore.DivideNode | btrees/btree.c:892-969 | the node and the new node hold the two halves, and the byte counts of both add up to the block size |
| BtreeStore.NodeStore.InsertSplit | btrees/btree.c:793-1003 | ENOSPC, EEXIST or a split into two halves, with the right half's first key and block handed up; the new block is taken even if the key is a duplicate |
| BtreeStore.NodeStore.Insert | btrees/btree.c:706-765 | exact outcome of inserting into one node: result, records, free space, block taken |
| BtreeStore.NodeStore.Remove | btrees/btree.c:1005-1055 | removes exactly the key's record and gives back its bytes, or ENOENT with the node unchanged |
| BtreeStore.NodeStore.Sync | btrees/btree.c:1446-1451 | writes the flagged blocks, and the changed blocks without a flag stay what they are |
| BtreeStore.NodeStore.Evict | bcache/bcache.c:183-217 | a block that is not changed or is flagged comes back as it was, any other as it is on disk |
| BtreeOrder.Locate | btrees/btree.c:1528-1546 | a key is in the range of the child it is routed to; a zero pointer is followed at the lowest index level only |
| BtreeOrder.SearchInKid | btrees/btree.c:1756-1817 | a key is in the tree exactly if it is in the child it is routed to, with the same record |
| BtreeOrder.RecsOk | btrees/btree.c:2386-2435 | the leaves' records, one after the other, are in strictly ascending order and in range |
| BtreeSteps.IndexDivided | btrees/btree.c:925-937 | the halves of a split index node are well formed in their ranges; the right half's zero first pointer lies below its range |
| BtreeSteps.LeafDivided | btrees/btree.c:925-969 | the halves of a split leaf are well formed in their ranges |
| BtreeSteps.KidSplit | btrees/btree.c:1559-1570 | a child's two halves and their separator in place of the child keep the node well formed |
| BtreeOutcome.DemandBounds | btrees/btree.c:1502-1636 | an insertion takes at most one block a level, and all of them exactly if the root splits |
| BtreeOutcome.SeparatorIsNew | btrees/btree.c:1563-1566 | the key handed up by a split child is never in its parent, and fits the size limit |
| BtreeOutcome.SeparatorOutcome | btrees/btree.c:1559-1570 | the asserted insert into the parent never fails on a key; only the lack of a block for the parent's own split can stop it |
| BtreeRoot.RootSplits | btrees/btree.c:1679-1694 | a root split asks for one more block, and stops exactly if there is none |
| BtreeRoot.RootGrown | btrees/btree.c:1679-1713 | the tree under the new root is whole: shape, stored bytes, node count, use of blocks |
| BtreeRoot.RootRemoved | btrees/btree.c:1841-1900 | a removal keeps the whole tree sound, and frees exactly the emptied leaf's block |
| BtreeRoot.MapInserted | btrees/btree.c:1638-1754 | an insertion adds exactly its record to the map; EEXIST means present, success absent |
| BtreeRoot.MapRemoved | btrees/btree.c:1841-1918 | a removal takes exactly its key out of the map |
| BtreeRoot.BlocksConserved | btrees/btree.c:2442-2456 | free blocks, counted nodes, lost blocks and the space manager's own add up to the file, and a block is in use exactly if it is one of the last three |
| BtreeRoot.RoomDecides | btrees/btree.c:842-870 | for a present key an insertion asks for a block exactly if the leaf of the key has no room for the record |
| BtreeMap.InsertionRefines | btrees/btree.c:706-765 | insertion into an ordered list is insertion into the finite map |
| BtreeMap.RemovalRefines | btrees/btree.c:1005-1055 | removal from an ordered list is removal from the finite map |
| Btrees.Btree.constructor | btrees/btree.c:1166-1343 | a new file is a sound tree with no records, and every block is accounted for |
| Btrees.Btree.RouteChild | btrees/btree.c:1518-1526 | follows the last separator that is not above the key |
| Btrees.Btree.Descend | btrees/btree.c:1518-1551 | goes to the child of the key; a zero pointer gets a new leaf, at the right level, counted in the root |
| Btrees.Btree.AddSeparator | btrees/btree.c:1559-1622 | a split child's new node is counted and its separator put into the parent |
| Btrees.Btree.InsertInto | btrees/btree.c:1502-1636 | exact outcome of inserting below any node: result, one or two trees in place of the old, blocks taken and counted |
| Btrees.Btree.AddRoot | btrees/btree.c:1679-1713 | a new root above the halves, with the node count handed on |
| Btrees.Btree.InsertTracked | btrees/btree.c:897-948 | if all changed blocks were flagged, they are after the call, but for the old root exactly if it was an unflagged leaf that split without a split point |
| Btrees.Btree.Insert | btrees/btree.c:1638-1754 | exact result in every case, among them E2BIG, EEXIST, ENOSPC and the stops; the map gains exactly the record, and the tree stays sound |
| Btrees.Btree.FindIn | btrees/btree.c:1756-1817 | search below any node finds the stored record exactly if there is one |
| Btrees.Btree.Find | btrees/btree.c:1819-1835 | returns the stored record exactly if the key is in the map |
| Btrees.Btree.FreeNode | btrees/btree.c:1057-1077 | frees the block of a node and counts it off |
| Btrees.Btree.DropChild | btrees/btree.c:1880-1888 | an emptied leaf is freed and its pointer cleared; the tree stays sound |
| Btrees.Btree.RemoveFrom | btrees/btree.c:1841-1900 | exact outcome of removing below any node |
| Btrees.Btree.Remove | btrees/btree.c:1902-1918 | exact result; the map loses exactly the key, and the blocks given back are exactly the emptied leaf's |
| Btrees.Btree.Evict | bcache/bcache.c:183-217 | between two calls the cache may give up any block but the root, and the tree stays what it is as long as that block's changes are flagged |
| BtreeRuns.ChecksMissWrapped | btrees/btree.c:1651-1661 | the size checks refuse only records that are too long, and let one pass exactly if it has 64 KB or more and its 16-bit sizes wrap to allowed ones |
| BtreeRuns.ChecksInNumbers | btrees/btree.c:1651-1661 | the sizes that are refused, in numbers |
| BtreeRuns.WrappedRecordPasses | btrees/btree.c:1097-1103 | a record of 65542 bytes that passes as one of 6 |
| BtreeRuns.StepAnswers | btrees/btree.c:1502-1918 | each call answers and changes the map as a finite map would, but for a full disk and for records that the size checks refuse |
| BtreeRuns.RunRefines | btrees/btree.c:1502-1918 | every run from the empty tree refines the finite map, call by call; blocks are lost exactly at duplicates that come to a leaf without room while a block is free |
| BtreeRuns.RunConservesBlocks | btrees/btree.c:2585-2613 | after every run the blocks add up to the file; with no such duplicate the used blocks are exactly the tree's nodes and the space manager's |
| BtreeScenarios.Perform | btrees/btree.c:1638-1918 | any sequence of calls on a new tree answers as the finite map does and accounts for every block, until an assertion stops it; then the condition for that stop holds |
| BtreeScenarios.PerformAndCheck | btrees/btree.c:2464-2638 | after any sequence of calls the file passes its check if and only if no duplicate came to a leaf without room while a block was free |
| BtreeFailures.LoseBlocks | btrees/btree.c:842-870 | four insertions into a new tree, and a longer record for one of their keys any number of times: each time a block is lost |
| BtreeFailures.StopForLackOfBlocks | btrees/btree.c:1679-1694 | with one block left a record that splits the root stops the program; duplicates on a new tree lead there |
| BtreeFailures.ReachStoppingSplit | btrees/btree.c:904-907 | four insertions within the limit lead to a leaf on which a record three bytes above it, which the size checks let pass, stops the program |
| BtreeFailures.FillBitmap | btrees/btree.c:211-221 | calls on a new tree that end with the removal of a present key that stops the program |
| BtreeFailures.ReachSplitWithoutPoint | btrees/btree.c:897-948 | three insertions lead to a root leaf that splits without a split point: the leaf keeps its records, and the new record is alone in the new node |
| BtreeFailures.LoseOldRoot | btrees/btree.c:897-948 | a sync and one more insertion later the old root is changed and not flagged; once the cache has let go of it, it is read back as a root, and the tree is not sound |
| BtreeLevels.UniformDepth | btrees/btree.c:1528-1546 | all leaves of a well-formed tree are at one depth |
| BtreeLevels.OrderOfTree | btrees/btree.c:1945-2027 | with all leaves at one depth, level order comes upon every block once and upon the records in the order of the tree |
| BtreeLevels.LevelByLevel | btrees/btree.c:1965-2027 | the nodes come level by level: no node lies higher than one that came before it |
| BtreeWalk.VisitNext | btrees/btree.c:1973-2027 | one block of the walk is read and shown to the callbacks and, unless they stop, its children are queued; the slots stay in level order |
| Callbacks.VisitInTurn | btrees/btree.c:1987-2010 | the calls are made in turn, each with the context the one before left; none but the last fails or asks to stop, the last one does unless all items were passed, and the outcome is the last call's error, stop and context |
| Callbacks.FirstEndDecides | btrees/btree.c:1998-2002 | the first item on which the callback fails or asks to stop is the last one shown, and its error is the outcome |
| BtreeWalk.EventsInOrder | btrees/btree.c:1987-2010 | the nodes are shown in the order of the walk, and a leaf is followed by its own records, first to last |
| BtreeWalk.OnlyNodes | btrees/btree.c:1987-1993 | without a callback for records the nodes are shown one after the other |
| BtreeWalk.WalkShown | btrees/btree.c:1920-2042 | what a walk shows and in which turn, with both callbacks or with one |
| BtreeWalk.OnlyRecords | btrees/btree.c:1994-2010 | without a callback for nodes the records of the leaves are shown one after the other |
| BtreeWalk.IterateDisk | btrees/btree.c:1920-2042 | over any blocks that read as a tree of no more nodes than the root counts, the callbacks see the nodes and records in level order, up to the first error or stop; the slots hold the visited blocks |
| Btrees.Btree.IterateDisk | btrees/btree.c:2048-2107 | from the root of any sound tree each reachable node is shown once, a leaf before its records, in calls made in turn; a record callback alone is called on the records in strictly ascending order, a node callback alone on the nodes in level order, and the first error or stop ends the walk and is its outcome |
| BtreeCheck.CheckNodeExact | btrees/btree.c:2399-2427 | a node whose records fit passes exactly if an index node has records and the free space is what the records leave; any other is EILSEQ and leaves the context alone |
| BtreeCheck.CheckNodeWraps | btrees/btree.c:2399-2427 | the same for any node, with the 16-bit sum of the check |
| BtreeCheck.CheckWalk | btrees/btree.c:2386-2462 | over any blocks that read as a tree: if every node is sane each is counted once and has its children marked, and if one is not the walk ends in EILSEQ |
| BtreeCheck.SameBitmaps | btrees/btree.c:2596-2613 | the bitmap blocks are compared byte by byte, as far as the check's own bitmap reaches |
| BtreeCheck.SameMeansUsed | btrees/btree.c:2596-2613 | the bytes agree exactly if the marked blocks are the ones in use |
| BtreeCheck.CheckFile | btrees/btree.c:2464-2638 | the check of a file, sound or not, passes if and only if every node is sane, the root counts the nodes, and the used blocks are the nodes' and the space manager's; else EILSEQ |
| BtreeCheck.CheckDisk | btrees/btree.c:2464-2638 | the check of a sound tree passes if and only if no block has been lost |
| AvlShape.RotationArithmetic | avl_trees/avl_tree.c:131-243 | the balances a rotation computes are the true ones exactly if the child's balance is at least -2 |
| AvlShape.RebalancedRightHeavyHeight | avl_trees/avl_tree.c:245-282 | balancing makes the tree lower by one, unless the heavy child was balanced; after an insertion it never is |
| AvlShape.RebalancedLeftHeavyHeight | avl_trees/avl_tree.c:245-282 | the same on the other side |
| AvlShape.BalancedTreesAreFull | avl_trees/avl_tree.c:55-87 | a balanced tree of height `h` has at least Fib(h+2)-1 nodes |
| AvlShape.SearchDepth | avl_trees/avl_tree.c:388-403 | so a search makes logarithmically many comparisons |
| AvlShape.LoneRightChildIsSingle | avl_trees/avl_tree.c:453-503 | without a left child, the right subtree is a single node, so the recursive branch for the minimum is never taken |
| AvlShape.LastIsRemoved | avl_trees/avl_tree.c:409-451 | taking out a last node without right child removes the greatest item and lowers the tree by one |
| AvlShape.RootTakesMax | avl_trees/avl_tree.c:528-561 | the left subtree's greatest item in place of the root keeps the search order and drops exactly the root's item |
| AvlShape.InOrderListsItems | avl_trees/avl_tree.c:643-689 | the in-order list holds exactly the items, in ascending order |
| AvlTrees.AvlTree.RotateRight | avl_trees/avl_tree.c:131-186 | the pointers and stored balances after the rotation are those of the rotated tree, a child transiently at -2 included |
| AvlTrees.AvlTree.RotateLeft | avl_trees/avl_tree.c:188-243 | the same to the left |
| AvlTrees.AvlTree.Rebalance | avl_trees/avl_tree.c:245-282 | a tree at -2 or 2 becomes balanced with the same items in order and true balances |
| AvlTrees.AvlTree.SettleInsert | avl_trees/avl_tree.c:313-344 | after an insertion below, the balance is true again, and the height change handed up is the true one |
| AvlTrees.AvlTree.InsertInto | avl_trees/avl_tree.c:284-351 | inserts below any node: EEXIST and no change exactly if the key is there; height change exact |
| AvlTrees.AvlTree.Insert | avl_trees/avl_tree.c:353-386 | adds exactly the item, or EEXIST with the tree unchanged; the tree stays valid |
| AvlTrees.AvlTree.Find | avl_trees/avl_tree.c:388-407 | finds an item of equal key exactly if there is one; the nodes compared with are one way down from the root, each the child on the side of the key, in number bounded by the Fibonacci numbers |
| AvlTrees.AvlTree.GetMaxForRemoval | avl_trees/avl_tree.c:409-451 | takes the greatest item out of the subtree, with its true height change |
| AvlTrees.AvlTree.GetMinForRemoval | avl_trees/avl_tree.c:453-495 | takes out the only item of the subtree |
| AvlTrees.AvlTree.SettleRemove | avl_trees/avl_tree.c:572-614 | after a removal below, the balance is true again, and the height change handed up is the true one |
| AvlTrees.AvlTree.RemoveFrom | avl_trees/avl_tree.c:505-621 | removes below any node: ENOENT and no change exactly if the key is absent; height change true exactly if the subtree is lower by one |
| AvlTrees.AvlTree.Remove | avl_trees/avl_tree.c:623-636 | removes exactly the item of the key, or ENOENT with the tree unchanged; the tree stays valid |
| AvlTrees.AvlTree.Iterate | avl_trees/avl_tree.c:643-693 | the callback is called on the items in order, in turn; the first error or stop ends the calls and is the outcome |
| BcacheState.SizeTestIsExact | bcache/bcache.c:172-173 | the 32-bit test for a full cache is right at every reachable size exactly if no sum wraps |
| BcacheState.TestInNumbers | bcache/bcache.c:172-173 | the test in 32-bit arithmetic |
| BcacheState.NoneFreeMeans | bcache/bcache.c:172-182 | ENOMEM exactly on a miss in a full cache with every block held |
| BcacheState.NoneGiven | bcache/bcache.c:172-182 | a block is refused exactly if the clients hold as many other numbers as the cache has room for |
| BcacheState.OldestGoes | bcache/bcache.c:177-183 | the block that gives way is the one released longest ago |
| BcacheState.FoundKeeps | bcache/bcache.c:154-300 | a hit, an eviction with write-back, or an allocation keeps the cache sound, and the block has the content last written to its number |
| BcacheState.WriteBackKeeps | bcache/bcache.c:185-195 | writing a dirty block back keeps the cache sound |
| BcacheState.RekeyKeeps | bcache/bcache.c:197-217 | giving an evicted block another number keeps the cache sound |
| BcacheState.DirtyKeeps | bcache/bcache.c:302-310 | flagging a block keeps the dirty list the list of flagged blocks |
| BcacheState.ReleaseKeeps | bcache/bcache.c:312-320 | releasing keeps the free list the unreferenced blocks, in the order of their release |
| BcacheState.FlushKeeps | bcache/bcache.c:353-386 | a flush empties the dirty list and keeps the cache sound |
| BcacheState.FlushedAgrees | bcache/bcache.c:353-386 | after a flush the disk holds the last content of every block that is not waiting for `bc_dirty` |
| BcacheState.StepKeeps | bcache/bcache.c:154-386 | every call that the clients' rules allow keeps the cache sound and in step with what the calls alone tell, and keeps its promise: what a get hands out, when it is refused, what the disk holds after a flush |
| BcacheState.RunKeeps | bcache/bcache.c:154-386 | the same over every run from an empty cache: the clients deal with a plain block array that takes their writes, whatever is evicted, flushed or read again |
| BcacheState.HeldIsCurrent | bcache/bcache.c:154-386 | at any time in a run a held block has the number it was asked for by, and the array's content |
| BcacheState.CountsAgree | bcache/bcache.c:388-421 | the buckets together hold as many blocks as are cached |
| BlockCache.Bcache.Lookup | bcache/bcache.c:162-170 | the search of the bucket finds a block exactly if it is cached |
| BlockCache.Bcache.Evict | bcache/bcache.c:183-217 | the eviction step on the lists, buckets and disk |
| BlockCache.Bcache.Get | bcache/bcache.c:154-300 | ENOMEM exactly if no block can be had, and then nothing changes; else the block with the content last written to its number, and one more reference |
| BlockCache.Bcache.Dirty | bcache/bcache.c:302-310 | the step of flagging a block |
| BlockCache.Bcache.Release | bcache/bcache.c:312-320 | the step of dropping a reference |
| BlockCache.Bcache.Flush | bcache/bcache.c:353-386 | the step of a flush, and the agreement of disk and contents after it |
| BlockCache.Bcache.Check | bcache/bcache.c:388-424 | the program's own check passes exactly if each block in the table is on neither list twice, on the free list if unreferenced and on the dirty list if flagged, and the sizes agree; every sound cache passes |
| BcacheRuns.Make | bcache/bcache.c:154-386 | a client's request is served by a call of its kind exactly if the rules allow it, and the client's list of what it holds and has changed stays right |
| BcacheRuns.Perform | bcache/bcache.c:154-386 | any sequence of requests on a new cache: each is served in turn or passed over, exactly as the rules say, and every call keeps its promise about the plain array |
| PriorityHeap.RootDominates | queues/heaps/heap.c:43-60 | in an ordered heap no element ranks above the first |
| PriorityHeap.SiftUpStep | queues/heaps/heap.c:43-60 | swapping with a lower parent moves the only violation up |
| PriorityHeap.SiftDownStep | queues/heaps/heap.c:85-126 | swapping with the higher child moves the only violation down |
| PriorityHeap.Heap.Upheap | queues/heaps/heap.c:43-60 | restores the order with the same elements |
| PriorityHeap.Heap.Downheap | queues/heaps/heap.c:85-126 | restores the order with the same elements |
| PriorityHeap.Heap.Insert | queues/heaps/heap.c:62-83 | adds exactly the element and keeps the order, across growth |
| PriorityHeap.Heap.Pop | queues/heaps/heap.c:132-145 | takes out an element that none ranks above, and keeps the rest in order |
| PriorityHeap.PopAll | queues/heaps/heap.c:132-149 | popping until empty gives everything inserted, ordered by the compare function |
| FifoQueue.HoldsAppended | queues/fifos/fifo.c:102-127 | filling the slot after the last one appends to the sequence |
| FifoQueue.HoldsWithoutHead | queues/fifos/fifo.c:129-154 | clearing the head's slot drops the first element of the sequence |
| FifoQueue.Fifo.Grow | queues/fifos/fifo.c:66-100 | doubling from any wrapped position keeps the sequence |
| FifoQueue.Fifo.Enq | queues/fifos/fifo.c:102-127 | appends the element |
| FifoQueue.Fifo.Deq | queues/fifos/fifo.c:129-154 | removes and returns the first element, or ENOENT on an empty queue |
| FifoQueue.Fifo.Check | queues/fifos/fifo.c:181-207 | the check passes exactly if the occupied slots are the arc from head to tail, and on every valid queue |
| UdwSearch.WalkBounded | graphs/udw_graph/udw_graph.c:438-527 | every node on a walk shorter than all that is queued was visited at no greater distance |
| UdwSearch.BackEdgeCovered | graphs/udw_graph/udw_graph.c:329-330 | skipping an edge back to a node on the path loses no shorter walk |
| UdwSearch.TakePath | graphs/udw_graph/udw_graph.c:493-513 | the first path popped for a node settles it |
| UdwSearch.TreeIsNearest | graphs/udw_graph/udw_graph.c:499-513 | the path on which a node was first popped is a shortest walk to it |
| UdwSearch.BestIsShortest | graphs/udw_graph/udw_graph.c:486-491 | no walk to the goal is shorter than the best path, once every queued path is at least as long |
| UdwSearch.StopIsShortest | graphs/udw_graph/udw_graph.c:486-491 | when the search stops early its best path is a shortest walk |
| UdwSearch.StopShowsPast | graphs/udw_graph/udw_graph.c:486-491 | it stops early only if a shortest walk can be prolonged past the goal |
| UdwSearch.DryMeansNone | graphs/udw_graph/udw_graph.c:518-521 | if the queue runs dry, no shortest walk can surely be prolonged past the goal |
| UdwSearch.DryMeansFarthest | graphs/udw_graph/udw_graph.c:518-521 | and no node reached without passing the goal lies farther away than it |
| UdwSearch.SureIfUnique | graphs/udw_graph/udw_graph.c:438-527 | the two conditions are the same for positive weights if no two shortest walks lead to the same node |
| UdwGraph.PathLen | graphs/udw_graph/udw_graph.c:299-312 | the length of a path, which is the sum of its weights |
| UdwGraph.FollowEdge | graphs/udw_graph/udw_graph.c:321-368 | an edge is passed over, makes the best path, or makes a queued path; what was followed stays settled |
| UdwGraph.TakeShortest | graphs/udw_graph/udw_graph.c:370-387 | the heap gives a path that none in it is shorter than |
| UdwGraph.ShortestPath | graphs/udw_graph/udw_graph.c:438-540 | on success a walk from start to goal of least total weight among all walks; a sure detour past the goal means success, success means a detour, and the two are the same for positive weights without ties |
| UdwGraph.SearchTwoNodes | graphs/udw_graph/udw_graph.c:482-521 | ENOENT between two nodes joined by an edge, although the edge is a shortest path |
| UdPaths.SimplePathExists | graphs/ud_graph/ud_graph.c:460-584 | every walk can be cut to a path without repetition that is no longer |
| UdPaths.ViaNeighbour | graphs/ud_graph/ud_graph.c:516-574 | the best route through one neighbour, from the best route from there under the length to beat |
| UdPaths.MergeBest | graphs/ud_graph/ud_graph.c:554-574 | trying one more neighbour under the lowered length to beat keeps the best of all tried |
| UdPaths.BestIsShortest | graphs/ud_graph/ud_graph.c:586-639 | the best route from the start is a shortest path, so pruning loses nothing |
| UdLayers.NewlyReached | graphs/ud_graph/ud_graph.c:654-697 | a node seen for the first time joins the queue one layer below the node in hand |
| UdLayers.WalkLong | graphs/ud_graph/ud_graph.c:699-784 | no walk leads to an unseen node in fewer edges than the layer in hand |
| UdLayers.BackStep | graphs/ud_graph/ud_graph.c:742-771 | each back pointer leads one layer up, so inserting at the head never collides |
| UdLayers.BackPathIsShortest | graphs/ud_graph/ud_graph.c:742-771 | the path along the back pointers is simple and as short as any |
| UdLayers.EmptyMeansUnreachable | graphs/ud_graph/ud_graph.c:699-784 | if the queue runs empty the goal cannot be reached |
| UdGraph.TryNeighbour | graphs/ud_graph/ud_graph.c:507-584 | the best route through a neighbour within the length to beat |
| UdGraph.SearchFrom | graphs/ud_graph/ud_graph.c:460-505 | the best simple route from a node that avoids the current path and beats the length, if there is one |
| UdGraph.ShortestPathDepthFirst | graphs/ud_graph/ud_graph.c:586-639 | a simple path with the fewest edges, or none exactly if the goal cannot be reached |
| UdGraph.TraceBack | graphs/ud_graph/ud_graph.c:742-771 | the back pointers give a shortest path, and no insertion fails |
| UdGraph.SearchBreadthFirst | graphs/ud_graph/ud_graph.c:699-784 | a shortest path, or none exactly if the goal cannot be reached |
| UdGraph.ShortestPathBreadthFirst | graphs/ud_graph/ud_graph.c:800-847 | the same answer as the depth-first search promises |
| UdGraph.AnswersAgree | graphs/ud_graph/ud_graph.c:586-847 | two right answers have paths of the same length, or both none |
| UdGraph.SearchBothWays | graphs/ud_graph/ud_graph.c:586-847 | both searches, made on the same graph, find paths of the same length or both none |

## Left out

- Btrees.Btree.Insert: takes records of at most a quarter of a node, or records that are refused. Between these
  limits the split may stop the program (`ReachStoppingSplit`) or take its unfinished path for a third node
  (btrees/btree.c:961-968, 1571-1617, 1715-1724). Records of 64 KB or more that pass the checks
  (`ChecksMissWrapped`) are copied in part only; what the node then holds is not modelled. The state after a stop
  is not described.
- Btrees.Btree.InsertInto: within the size limit only, as `Btrees.Btree.Insert`.
- Btrees.Btree.AddSeparator: without the branch for a child that split into three nodes, which the size limit
  rules out (`NoThirdNode`).
- Btrees.Btree.InsertTracked: within the size limit only; from a tree that already has a changed block without a
  flag, only that no other one joins it but the old root (`InsertSized`).
- BtreeStore.NodeStore.Insert: within the size limit only.
- BtreeStore.NodeStore.InsertSplit: within the size limit only.
- BtreeStore.NodeStore.DivideNode: within the size limit only.
- Btrees.Btree.Find: a failed `bt_find` does not release the child it holds (btrees/btree.c:1806-1816);
  references are the cache's, and the tree's model does not count them.
- BtreeScenarios.Perform: requests with records of at most a quarter of a node, or that are refused, as
  `Btrees.Btree.Insert`.
- BtreeScenarios.PerformAndCheck: the same requests as `BtreeScenarios.Perform`.
- BtreeCheck.CheckFile: the pointers lead to nodes whose records fit, in the file and without a cycle, and to no more
  of them than the root counts; otherwise the C code reads blocks that are no nodes (EIO, EILSEQ), does not end, or
  writes past its work array. The types of blocks and the unused flags of nodes are not modelled. The check's own
  bitmap is a value that the callback hands on; the file has as many blocks as the bitmap has bits, so the branch
  for extra bits is not there.
- UdwGraph.ShortestPath: for graphs with ties or weights of zero ENOENT lies between two conditions, because the
  order in which the heap gives out equal paths is not part of its contract. With negative weights only a walk is
  promised. If a path has been popped when the queue runs dry, the C code destroys it a second time before it
  returns ENOENT (graphs/udw_graph/udw_graph.c:515, 534-535); the model has no memory to free, and its ENOENT is
  what the C code returns if it gets that far. In `SearchTwoNodes` nothing has been popped.
- BlockCache.Bcache.Get: read and write errors, failing memory allocation and failing block initialisers; after
  those the C code leaves a block half changed, and the invariant does not hold.
- BlockCache.Bcache.Check: the check that each kind of block makes of its own content (`bco_check`).
- UdGraph.ShortestPathBreadthFirst: `*spath` is not assigned for a goal without neighbours
  (graphs/ud_graph/ud_graph.c:811-812); the model answers `NotSet`.
- The B-tree's blocks go through the block cache in C. The node store is a plain array of blocks with the flags
  and the disk that a sync and an eviction between two calls need; which blocks the cache evicts, evictions within
  a call, and the flags of the bitmap blocks and of the space manager's block are not modelled. The two models are
  not joined: the cache is proved to stand for an array as long as its clients flag what they change, and
  `InsertTracked` says when the tree does not.
- Keys are ranks: the compare function is any total preorder on bounded byte strings. A record is a key, a
  size and a content; the packing of bytes is not modelled, their number is.
- The block and file sizes are those of `bt_create`; node counts are unbounded numbers, which 32 bits hold
  for a file of that size.
- Path lengths are unbounded integers; the C code adds 64-bit weights and can overflow.
- Failing allocation of memory, locks and threads: each call is one atomic step.
- The two contexts of the walk's callbacks are one value, and a missing callback is one that does nothing.
- Adjacency trees and sets of visited nodes in the graph searches are finite maps and sets; lists of a path
  are sequences whose insertion refuses duplicates, as the C lists do.
- Building graphs, iterating over graphs, `bt_update` and `bt_iterate` (stubs), dumping and destroying.
- `hash_tables/hash_table.c`, `linked_lists/linked_list.c`, `binary_trees/binary_tree.c`: simpler members.
