/** What an insertion means for the whole tree: order, node count and the use of every block. */
module BtreeRoot {
  import opened Common
  import opened Bitmaps
  import opened SpaceManagers
  import opened BtreeNode
  import opened BtreeShape
  import opened BtreeOrder
  import opened BtreeSteps
  import opened BtreeStore
  import opened BtreeLinks
  import opened BtreeOutcome
  import opened BtreeRemoval
  import opened BtreeMap

  /** The blocks that never hold nodes: the space manager's and the bitmaps. */
  ghost function SystemBlocks(): set<nat> {
    {SM_BLKNO} + Range(ROOT_BLKNO + 1, NBITMAPS + 2)
  }

  /** Every block is exactly one of: free, a node of the tree, lost, or a block of the space manager. */
  ghost predicate Accounted(free: set<nat>, nodes: set<nat>, leaked: set<nat>) {
    free !! nodes !! leaked !! SystemBlocks() && free + nodes + leaked + SystemBlocks() == Range(0, NBLOCKS)
  }

  lemma InitiallyAccounted()
    ensures Accounted(Range(NBITMAPS + 2, NBLOCKS), {ROOT_BLKNO}, {})
    ensures SetOf(Blocks(Leaf(ROOT_BLKNO, []))) == {ROOT_BLKNO}
  {
    var all := Range(NBITMAPS + 2, NBLOCKS) + {ROOT_BLKNO} + {} + SystemBlocks();
    forall b: nat ensures b in all <==> b in Range(0, NBLOCKS) {
      assert Within(0, b, NBLOCKS) <==> b < NBLOCKS;
    }
  }

  function WholePlace(t: Tree, level: nat): Place {
    Place(t, level, None, None, true)
  }

  /** The whole tree is sound, the root's node count is right, and every block is accounted for. */
  ghost predicate WholeOk(s: Snap, root: nat, t: Tree, level: nat, leaked: set<nat>) {
    && Ready(s, root, WholePlace(t, level)) && s.infos[root] == |Blocks(t)|
    && Accounted(s.free, SetOf(Blocks(t)), leaked)
  }

  /** Blocks taken from the free ones are used once each. */
  lemma TakenBlocksUnique(s0: Snap, t: Tree, free: set<nat>, blks: multiset<nat>)
    requires InUse(s0, t) && free <= s0.free && 0 !in s0.free && blks == Blocks(t) + multiset(s0.free - free)
    ensures Unique(blks) && 0 !in blks && SetOf(blks) !! free
    ensures SetOf(blks) == SetOf(Blocks(t)) + (s0.free - free)
    ensures |blks| == |Blocks(t)| + |s0.free| - |free|
  {
    forall b ensures blks[b] <= 1 {
      assert Blocks(t)[b] <= 1;
      if b in Blocks(t) {
        assert b in SetOf(Blocks(t));
      }
    }
    assert s0.free == free + (s0.free - free);
    assert |s0.free| == |free| + |s0.free - free|;
  }

  lemma MoveAccounts(free: set<nat>, nodes: set<nat>, leaked: set<nat>, free': set<nat>, toLeaked: bool)
    requires Accounted(free, nodes, leaked) && free' <= free
    ensures if toLeaked then Accounted(free', nodes, leaked + (free - free')) else Accounted(free', nodes + (free - free'), leaked)
  {
  }

  lemma RootOfTree(blocks: map<nat, Node>, t: Tree, level: nat)
    requires Stored(blocks, t, true) && Shape(t, level, None, None)
    ensures !t.Nil? && t.blk in blocks && blocks[t.blk].isRoot && t.blk in SetOf(Blocks(t))
  {
    assert RootStored(blocks, t, true);
    assert t.blk in Blocks(t);
  }

  /** The parts that make a sound tree. */
  lemma WholeFrom(s: Snap, root: nat, t: Tree, level: nat, leaked: set<nat>)
    requires BlkOf(t) == root && Shape(t, level, None, None) && Stored(s.blocks, t, true)
    requires Unique(Blocks(t)) && 0 !in Blocks(t) && SetOf(Blocks(t)) !! s.free && 0 !in s.free
    requires root in s.infos && s.infos[root] == |Blocks(t)| && Accounted(s.free, SetOf(Blocks(t)), leaked)
    ensures WholeOk(s, root, t, level, leaked)
  {
    hide Shape, Stored, Accounted;
    RootOfTree(s.blocks, t, level);
  }

  lemma WholeParts(s: Snap, root: nat, t: Tree, level: nat, leaked: set<nat>)
    requires WholeOk(s, root, t, level, leaked)
    ensures root == BlkOf(t) && InUse(s, t) && 0 !in s.free && root in s.infos && s.infos[root] == |Blocks(t)|
    ensures Accounted(s.free, SetOf(Blocks(t)), leaked)
  {
  }

  /** A newly created tree is sound. */
  lemma InitiallyWhole(s: Snap)
    requires s == Snap(map[ROOT_BLKNO := FreshNode(true, true)], map[ROOT_BLKNO := 1], Range(NBITMAPS + 2, NBLOCKS))
    ensures WholeOk(s, ROOT_BLKNO, Leaf(ROOT_BLKNO, []), 0, {})
  {
    InitiallyAccounted();
    hide Accounted;
    assert RootStored(s.blocks, Leaf(ROOT_BLKNO, []), true);
    WholeFrom(s, ROOT_BLKNO, Leaf(ROOT_BLKNO, []), 0, {});
  }

  /** No split of the root. */
  lemma RootKept(s0: Snap, s: Snap, root: nat, t: Tree, level: nat, leaked: set<nat>, r: Rec, t1: Tree, t2: Tree)
    requires WholeOk(s0, root, t, level, leaked)
    requires Outcome(s0, s, root, WholePlace(t, level), r, Ok, NoSplit, t1, t2)
    ensures WholeOk(s, root, t1, level, leaked) && !Has(Recs(t), r.key.rank) && Recs(t1) == Ins(Recs(t), r)
    ensures Demand(t, r, true) == 0 ==> t1 == WithRecord(t, r)
  {
    hide WholeOk, Outcome, Demand, Carry, Accounted, Shape, Stored, InUse;
    WholeParts(s0, root, t, level, leaked);
    GrownFacts(s0, s, root, WholePlace(t, level), r, t1, t2);
    GrownAccounts(s0, s.free, t, leaked, Blocks(t1));
    WholeFrom(s, root, t1, level, leaked);
  }

  /** A duplicate leaves the tree; a block allocated for it is lost. */
  lemma RootDuplicate(s0: Snap, s: Snap, root: nat, t: Tree, level: nat, leaked: set<nat>, r: Rec, t1: Tree, t2: Tree)
    requires WholeOk(s0, root, t, level, leaked)
    requires Outcome(s0, s, root, WholePlace(t, level), r, EEXIST, NoSplit, t1, t2)
    ensures WholeOk(s, root, t, level, leaked + (s0.free - s.free)) && Has(Recs(t), r.key.rank)
    ensures |s0.free - s.free| == if Demand(t, r, true) == 0 then 0 else 1
  {
    hide WholeOk, Outcome, Accounted, Shape, Stored, Demand, Recs, Has, Blocks;
    WholeParts(s0, root, t, level, leaked);
    DuplicateFacts(s0, s, root, t, level, leaked, r, t1, t2);
    MoveAccounts(s0.free, SetOf(Blocks(t)), leaked, s.free, true);
    assert s0.free == s.free + (s0.free - s.free);
    assert |s0.free| == |s.free| + |s0.free - s.free|;
    WholeFrom(s, root, t, level, leaked + (s0.free - s.free));
  }

  lemma DuplicateFacts(s0: Snap, s: Snap, root: nat, t: Tree, level: nat, leaked: set<nat>, r: Rec, t1: Tree, t2: Tree)
    requires WholeOk(s0, root, t, level, leaked)
    requires Outcome(s0, s, root, WholePlace(t, level), r, EEXIST, NoSplit, t1, t2)
    ensures s.free <= s0.free && Shape(t, level, None, None) && Stored(s.blocks, t, true) && Has(Recs(t), r.key.rank)
    ensures root in s.infos && s.infos[root] == |Blocks(t)|
    ensures |s0.free| - |s.free| == if Demand(t, r, true) == 0 then 0 else 1
  {
    hide Accounted, Shape, Stored, Demand, Carry, Recs, Has, Blocks;
  }

  /** The state after a new root has been set up above two trees. */
  ghost predicate RootAdded(s1: Snap, s: Snap, oldRoot: nat, bsi: SplitInfo, newRoot: nat)
    requires bsi.Split?
  {
    && newRoot in s1.free && s.free == s1.free - {newRoot}
    && s.infos == s1.infos[newRoot := bsi.nnodes + 2]
    && NodeIs(s.blocks, newRoot, false, true, oldRoot, [IndexRec(bsi.key, bsi.ptr)])
    && SameOutside(s1.blocks, s.blocks, {newRoot})
  }

  function TreeOfTwo(newRoot: nat, t1: Tree, k: Key, t2: Tree): Tree {
    Index(newRoot, [k], [t1, t2])
  }

  lemma TwoContents(newRoot: nat, t1: Tree, k: Key, t2: Tree)
    ensures Recs(TreeOfTwo(newRoot, t1, k, t2)) == Recs(t1) + Recs(t2)
    ensures Blocks(TreeOfTwo(newRoot, t1, k, t2)) == multiset{newRoot} + Blocks(t1) + Blocks(t2)
  {
    assert [t1, t2][1..] == [t2];
    RecsSingle(t2);
  }

  lemma TwoShape(newRoot: nat, t1: Tree, k: Key, t2: Tree, level: nat)
    requires TwoInPlace(t1, k, t2, level, None, None)
    ensures Shape(TreeOfTwo(newRoot, t1, k, t2), level + 1, None, None)
  {
    var t := TreeOfTwo(newRoot, t1, k, t2);
    assert KidFits(t, level + 1, None, None, 0);
    assert KidFits(t, level + 1, None, None, 1);
  }

  /** The blocks of a tree that has grown a new root. */
  lemma GrownBlocks(s0: Snap, s1: Snap, s: Snap, t: Tree, newRoot: nat, blks: multiset<nat>)
    requires s1.free <= s0.free && newRoot in s1.free && s.free == s1.free - {newRoot}
    requires blks == Blocks(t) + multiset(s0.free - s1.free)
    ensures multiset{newRoot} + blks == Blocks(t) + multiset(s0.free - s.free)
    ensures |s.free| == |s1.free| - 1
  {
    FreeChain(s0.free, s1.free, s.free);
    assert s1.free - s.free == {newRoot};
  }

  lemma TwoKidsStoredAgain(s1: Snap, s: Snap, newRoot: nat, t1: Tree, t2: Tree)
    requires SameOutside(s1.blocks, s.blocks, {newRoot}) && newRoot !in Blocks(t1) && newRoot !in Blocks(t2)
    requires Stored(s1.blocks, t1, false) && Stored(s1.blocks, t2, false)
    ensures StoredAll(s.blocks, [t1, t2])
  {
    StoredFrame(s1.blocks, s.blocks, t1, false);
    StoredFrame(s1.blocks, s.blocks, t2, false);
    assert [t1, t2][1..] == [t2];
    StoredSingle(s.blocks, t2);
  }

  lemma NewRootStored(blocks: map<nat, Node>, newRoot: nat, t1: Tree, k: Key, t2: Tree)
    requires NodeIs(blocks, newRoot, false, true, BlkOf(t1), [IndexRec(k, BlkOf(t2))]) && StoredAll(blocks, [t1, t2])
    ensures Stored(blocks, TreeOfTwo(newRoot, t1, k, t2), true)
  {
    assert IndexRecs([k], [t1, t2]) == [IndexRec(k, BlkOf(t2))];
  }

  lemma BlocksApart(b: nat, x: multiset<nat>, y: multiset<nat>)
    requires Unique(multiset{b} + x + y)
    ensures b !in x && b !in y
  {
    assert (multiset{b} + x + y)[b] <= 1;
  }

  /** The blocks of the grown tree: each used once, and all accounted for. */
  lemma GrownAccounts(s0: Snap, free: set<nat>, t: Tree, leaked: set<nat>, blks: multiset<nat>)
    requires InUse(s0, t) && free <= s0.free && blks == Blocks(t) + multiset(s0.free - free)
    requires Accounted(s0.free, SetOf(Blocks(t)), leaked)
    ensures Unique(blks) && 0 !in blks && SetOf(blks) !! free && Accounted(free, SetOf(blks), leaked)
    ensures |blks| == |Blocks(t)| + |s0.free| - |free|
  {
    TakenBlocksUnique(s0, t, free, blks);
    MoveAccounts(s0.free, SetOf(Blocks(t)), leaked, free, false);
  }

  lemma GrownStored(s1: Snap, s: Snap, root: nat, bsi: SplitInfo, t1: Tree, t2: Tree, newRoot: nat)
    requires bsi.Split? && RootAdded(s1, s, root, bsi, newRoot) && BlkOf(t1) == root && BlkOf(t2) == bsi.ptr
    requires Stored(s1.blocks, t1, false) && Stored(s1.blocks, t2, false)
    requires Unique(multiset{newRoot} + Blocks(t1) + Blocks(t2))
    ensures Stored(s.blocks, TreeOfTwo(newRoot, t1, bsi.key, t2), true)
  {
    BlocksApart(newRoot, Blocks(t1), Blocks(t2));
    TwoKidsStoredAgain(s1, s, newRoot, t1, t2);
    NewRootStored(s.blocks, newRoot, t1, bsi.key, t2);
  }

  lemma GrownUnique(s0: Snap, s1: Snap, s: Snap, t: Tree, newRoot: nat, x: multiset<nat>, y: multiset<nat>)
    requires InUse(s0, t) && 0 !in s0.free && x + y == Blocks(t) + multiset(s0.free - s1.free)
    requires s1.free <= s0.free && newRoot in s1.free && s.free == s1.free - {newRoot}
    ensures multiset{newRoot} + x + y == Blocks(t) + multiset(s0.free - s.free)
    ensures Unique(multiset{newRoot} + x + y)
  {
    GrownBlocks(s0, s1, s, t, newRoot, x + y);
    assert multiset{newRoot} + x + y == multiset{newRoot} + (x + y);
    TakenBlocksUnique(s0, t, s.free, multiset{newRoot} + x + y);
  }

  lemma GrownTree(s0: Snap, s1: Snap, s: Snap, root: nat, t: Tree, level: nat, leaked: set<nat>, r: Rec,
                  bsi: SplitInfo, t1: Tree, t2: Tree, newRoot: nat) returns (u: Tree)
    requires InUse(s0, t) && 0 !in s0.free && Accounted(s0.free, SetOf(Blocks(t)), leaked)
    requires root in s0.infos && root in s1.infos && bsi.Split? && s1.free <= s0.free && BlkOf(t) == root
    requires TwoTrees(s0, s1, root, WholePlace(t, level), r, bsi, t1, t2)
    requires RootAdded(s1, s, root, bsi, newRoot)
    ensures u.Index? && u.blk == newRoot && Shape(u, level + 1, None, None) && Stored(s.blocks, u, true)
    ensures Recs(u) == Ins(Recs(t), r) && Blocks(u) == Blocks(t) + multiset(s0.free - s.free)
    ensures u.seps == [bsi.key] && |u.kids| == 2 && BlkOf(u.kids[0]) == BlkOf(t)
  {
    hide TwoInPlace, Accounted, Shape, Stored, NodeIs, InUse;
    u := TreeOfTwo(newRoot, t1, bsi.key, t2);
    TwoContents(newRoot, t1, bsi.key, t2);
    TwoShape(newRoot, t1, bsi.key, t2, level);
    GrownUnique(s0, s1, s, t, newRoot, Blocks(t1), Blocks(t2));
    GrownStored(s1, s, root, bsi, t1, t2, newRoot);
  }

  lemma WholeAgain(s0: Snap, s: Snap, t: Tree, leaked: set<nat>, newRoot: nat, u: Tree, level: nat)
    requires InUse(s0, t) && s.free <= s0.free && 0 !in s0.free && Accounted(s0.free, SetOf(Blocks(t)), leaked)
    requires Blocks(u) == Blocks(t) + multiset(s0.free - s.free)
    requires u.Index? && u.blk == newRoot && Shape(u, level, None, None) && Stored(s.blocks, u, true)
    requires newRoot in s0.free && newRoot !in s.free && newRoot in s.infos
    requires s.infos[newRoot] == |Blocks(t)| + |s0.free| - |s.free|
    ensures WholeOk(s, newRoot, u, level, leaked)
  {
    GrownAccounts(s0, s.free, t, leaked, Blocks(u));
  }

  /** The root has split, and a new root stands above the two parts. */
  lemma RootGrown(s0: Snap, s1: Snap, s: Snap, root: nat, t: Tree, level: nat, leaked: set<nat>, r: Rec,
                  bsi: SplitInfo, t1: Tree, t2: Tree, newRoot: nat) returns (u: Tree)
    requires WholeOk(s0, root, t, level, leaked) && bsi.Split? && root in s1.infos && s1.free <= s0.free
    requires TwoTrees(s0, s1, root, WholePlace(t, level), r, bsi, t1, t2)
    requires RootAdded(s1, s, root, bsi, newRoot)
    ensures WholeOk(s, newRoot, u, level + 1, leaked) && Recs(u) == Ins(Recs(t), r)
    ensures u.Index? && u.seps == [bsi.key] && |u.kids| == 2 && BlkOf(u.kids[0]) == BlkOf(t)
  {
    u := GrownTree(s0, s1, s, root, t, level, leaked, r, bsi, t1, t2, newRoot);
    WholeAgain(s0, s, t, leaked, newRoot, u, level + 1);
  }

  /** The node count handed up by a root that splits is never zero. */
  lemma CountNotZero(s0: Snap, s1: Snap, root: nat, t: Tree, level: nat, leaked: set<nat>, r: Rec,
                     bsi: SplitInfo, t1: Tree, t2: Tree)
    requires WholeOk(s0, root, t, level, leaked) && bsi.Split?
    requires Outcome(s0, s1, root, WholePlace(t, level), r, Ok, bsi, t1, t2)
    ensures bsi.nnodes != 0 && IndexSize(bsi.key) <= SIZE_LIMIT
    ensures root in s1.infos && s1.free <= s0.free && TwoTrees(s0, s1, root, WholePlace(t, level), r, bsi, t1, t2)
  {
    assert t.blk in Blocks(t);
    DemandBounds(t, r, true, level, None, None);
  }

  lemma WholeIsReady(s: Snap, root: nat, t: Tree, level: nat, leaked: set<nat>, k: int)
    requires WholeOk(s, root, t, level, leaked)
    ensures Ready(s, root, WholePlace(t, level)) && root == t.blk && InRange(WholePlace(t, level), k)
  {
  }

  // The whole operation

  /** The blocks an insertion takes in all, a new root included. */
  ghost function Need(t: Tree, r: Rec): nat {
    Demand(t, r, true) + (if Carry(t, r, true).Some? then 1 else 0)
  }

  /** The result of an insertion, from the tree and the number of free blocks. */
  ghost function InsertErr(t: Tree, free: set<nat>, r: Rec): Err {
    if Need(t, r) > 0 && free == {} then ENOSPC
    else if Has(Recs(t), r.key.rank) then EEXIST
    else if |free| < Need(t, r) then Aborted
    else Ok
  }

  /** Where the record went. A root that has split stands in two halves under a new one, with one separator. */
  ghost predicate Placed(t: Tree, t': Tree, r: Rec) {
    && (Need(t, r) == 0 ==> t' == WithRecord(t, r))
    && (Carry(t, r, true).Some? ==>
          !t.Nil? && t'.Index? && t'.seps == [Carry(t, r, true).value] && |t'.kids| == 2 && BlkOf(t'.kids[0]) == t.blk)
  }

  /** What an insertion does to the records and to the use of blocks. */
  ghost predicate Inserted(s0: Snap, t: Tree, leaked: set<nat>, s: Snap, t': Tree, leaked': set<nat>, r: Rec, err: Err) {
    && err == InsertErr(t, s0.free, r)
    && match err
       case Ok =>
         && Recs(t') == Ins(Recs(t), r) && Placed(t, t', r)
         && leaked' == leaked && |s.free| == |s0.free| - Need(t, r)
       case EEXIST =>
         && t' == t && leaked' == leaked + (s0.free - s.free)
         && |s0.free - s.free| == if Need(t, r) == 0 then 0 else 1
       case ENOSPC => s == s0 && t' == t && leaked' == leaked
       case _ => true
  }

  /** The root is a leaf that splits and keeps all its records: nothing calls `bc_dirty` for it. */
  ghost predicate RootForgotten(t: Tree, r: Rec) {
    t.Leaf? && Carry(t, r, true).Some? && SplitPoint(t.recs, RecSize(r), Pos(t.recs, r.key.rank), 0).None?
  }

  /** The old root is a child of the new one, and no root. */
  lemma OldRootIsChild(s: Snap, root: nat, t': Tree, level: nat, leaked: set<nat>, b: nat)
    requires WholeOk(s, root, t', level, leaked) && t'.Index? && |t'.kids| > 0 && BlkOf(t'.kids[0]) == b && b != 0
    ensures b in s.blocks && !s.blocks[b].isRoot
  {
    hide Shape, Accounted;
    StoredAround(s.blocks, t', true, 0);
  }

  lemma ForgottenPlaced(s0: Snap, t: Tree, leaked: set<nat>, s: Snap, t': Tree, leaked': set<nat>, r: Rec)
    requires Inserted(s0, t, leaked, s, t', leaked', r, Ok) && RootForgotten(t, r)
    ensures t.Leaf? && t'.Index? && |t'.kids| > 0 && BlkOf(t'.kids[0]) == t.blk
  {
    hide Carry, Need, InsertErr, WithRecord;
  }

  /** What the node read at a place says about it. */
  lemma LeafOrIndex(s: Snap, root: nat, p: Place, r: Rec)
    requires Ready(s, root, p)
    ensures !p.t.Nil? && p.t.blk in s.blocks && (s.blocks[p.t.blk].isLeaf <==> p.t.Leaf?)
    ensures p.t.Index? ==> p.level > 0 && |p.t.kids| == |p.t.seps| + 1 && !RootForgotten(p.t, r)
  {
    NodeInUse(s, root, p);
  }

  lemma NewRootIsNew(s0: Snap, s1: Snap, s: Snap, root: nat, t: Tree, level: nat, leaked: set<nat>, bsi: SplitInfo, newRoot: nat)
    requires WholeOk(s0, root, t, level, leaked) && s1.free <= s0.free && bsi.Split? && RootAdded(s1, s, root, bsi, newRoot)
    ensures newRoot != root
  {
  }

  lemma StoppedInsertion(s0: Snap, t: Tree, leaked: set<nat>, s: Snap, t': Tree, leaked': set<nat>, r: Rec)
    requires InsertErr(t, s0.free, r) == Aborted
    ensures Inserted(s0, t, leaked, s, t', leaked', r, Aborted)
  {
  }

  lemma StoppedBefore(s0: Snap, t: Tree, leaked: set<nat>, s: Snap, t': Tree, leaked': set<nat>, r: Rec)
    requires Inserted(s0, t, leaked, s, t', leaked', r, Aborted)
    ensures Inserted(s0, t, leaked, s, t, leaked, r, Aborted)
  {
  }

  lemma NeedsFromDemand(t: Tree, r: Rec)
    ensures Need(t, r) == 0 <==> Demand(t, r, true) == 0
  {
  }

  /** An insertion that leaves the root where it is. */
  lemma RootStays(s0: Snap, s: Snap, root: nat, t: Tree, level: nat, leaked: set<nat>, r: Rec,
                  err: Err, bsi: SplitInfo, t1: Tree, t2: Tree) returns (t': Tree, leaked': set<nat>)
    requires WholeOk(s0, root, t, level, leaked) && (err != Ok || bsi.NoSplit?)
    requires Outcome(s0, s, root, WholePlace(t, level), r, err, bsi, t1, t2)
    ensures Inserted(s0, t, leaked, s, t', leaked', r, err)
    ensures err != Aborted ==> WholeOk(s, root, t', level, leaked')
  {
    t', leaked' := t, leaked;
    NeedsFromDemand(t, r);
    if err == EEXIST {
      RootDuplicate(s0, s, root, t, level, leaked, r, t1, t2);
      leaked' := leaked + (s0.free - s.free);
    } else if err == Ok {
      RootKept(s0, s, root, t, level, leaked, r, t1, t2);
      t' := t1;
    }
  }

  /** An insertion that splits the root: it needs one more block than it has taken. */
  lemma RootSplits(s0: Snap, s1: Snap, root: nat, t: Tree, level: nat, leaked: set<nat>, r: Rec,
                   bsi: SplitInfo, t1: Tree, t2: Tree)
    requires WholeOk(s0, root, t, level, leaked) && bsi.Split?
    requires Outcome(s0, s1, root, WholePlace(t, level), r, Ok, bsi, t1, t2)
    ensures bsi.nnodes != 0 && IndexSize(bsi.key) <= SIZE_LIMIT
    ensures root in s1.infos && s1.free <= s0.free && TwoTrees(s0, s1, root, WholePlace(t, level), r, bsi, t1, t2)
    ensures |s1.free| == |s0.free| - Need(t, r) + 1 && Carry(t, r, true) == Some(bsi.key) && Need(t, r) > 0 && !t.Nil?
    ensures InsertErr(t, s0.free, r) == if s1.free == {} then Aborted else Ok
  {
    hide TwoTrees, IndexSize, Carry, Stored, Accounted;
    CountNotZero(s0, s1, root, t, level, leaked, r, bsi, t1, t2);
    DemandBounds(t, r, true, level, None, None);
    assert s1.free == {} <==> |s1.free| == 0;
  }

  lemma RootReplaced(s0: Snap, s1: Snap, s: Snap, root: nat, t: Tree, level: nat, leaked: set<nat>, r: Rec,
                     bsi: SplitInfo, t1: Tree, t2: Tree, newRoot: nat) returns (u: Tree)
    requires WholeOk(s0, root, t, level, leaked) && bsi.Split?
    requires Outcome(s0, s1, root, WholePlace(t, level), r, Ok, bsi, t1, t2)
    requires RootAdded(s1, s, root, bsi, newRoot)
    ensures Inserted(s0, t, leaked, s, u, leaked, r, Ok) && WholeOk(s, newRoot, u, level + 1, leaked) && newRoot != root
  {
    RootSplits(s0, s1, root, t, level, leaked, r, bsi, t1, t2);
    u := RootGrown(s0, s1, s, root, t, level, leaked, r, bsi, t1, t2, newRoot);
    NewRootIsNew(s0, s1, s, root, t, level, leaked, bsi, newRoot);
  }

  // Removal

  /** A removal's blocks return to the free ones; everything stays accounted for. */
  lemma FreedAccounts(free: set<nat>, freed: set<nat>, nodes: set<nat>, nodes': set<nat>, leaked: set<nat>)
    requires Accounted(free, nodes, leaked) && freed <= nodes && nodes' == nodes - freed
    ensures Accounted(free + freed, nodes', leaked)
  {
  }

  lemma BlocksExist(free: set<nat>, t: Tree, leaked: set<nat>)
    requires Accounted(free, SetOf(Blocks(t)), leaked)
    ensures forall b <- Blocks(t) :: b < NBLOCKS
  {
    forall b | b in Blocks(t) ensures b < NBLOCKS {
      assert b in SetOf(Blocks(t));
      assert b in Range(0, NBLOCKS);
    }
  }

  /** The blocks left after some were freed. */
  lemma RemainingBlocks(blks: multiset<nat>, blks': multiset<nat>, freed: set<nat>)
    requires Unique(blks) && blks' + multiset(freed) == blks
    ensures Unique(blks') && freed <= SetOf(blks) && SetOf(blks') == SetOf(blks) - freed
    ensures |blks'| == |blks| - |freed| && blks' <= blks
  {
    forall b ensures blks'[b] + (if b in freed then 1 else 0) == blks[b] <= 1 {
      assert (blks' + multiset(freed))[b] == blks[b];
    }
    assert |multiset(freed)| == |freed|;
  }

  /** The result of a removal. */
  ghost function RemoveErr(t: Tree, free: set<nat>, k: int): Err {
    if !Has(Recs(t), k) then ENOENT
    else if Empties(t, k) && !RoomToFree(free, LeafFor(t, k).blk) then Aborted
    else Ok
  }

  lemma EmptiesHas(t: Tree, level: nat, lo: Option<int>, hi: Option<int>, k: int)
    requires Shape(t, level, lo, hi) && Above(lo, k) && Below(hi, k)
    ensures LeafFor(t, k).Leaf? || LeafFor(t, k).Nil?
    ensures Has(Recs(t), k) <==> LeafFor(t, k).Leaf? && Has(LeafFor(t, k).recs, k)
    decreases level
  {
    if t.Index? {
      var j := Route(t.seps, k);
      SearchInKid(t, level, lo, hi, k);
      Locate(t, level, lo, hi, k);
      assert KidFits(t, level, lo, hi, j);
      if !t.kids[j].Nil? {
        EmptiesHas(t.kids[j], level - 1, LoOf(t.seps, lo, j), HiOf(t.seps, hi, j), k);
      }
    }
  }

  lemma TreeRemoved(s0: Snap, s: Snap, root: nat, t: Tree, level: nat, leaked: set<nat>, k: int, t1: Tree)
    requires WholeOk(s0, root, t, level, leaked) && root in s.infos
    requires RemovedTree(s0, s, WholePlace(t, level), k, t1)
    requires s.free == s0.free + Freed(t, k) && s.infos[root] == s0.infos[root] - |Freed(t, k)|
    ensures WholeOk(s, root, t1, level, leaked)
  {
    hide WholeOk, Freed, Accounted, LeafFor, Shape, Stored;
    WholeParts(s0, root, t, level, leaked);
    RemainingBlocks(Blocks(t), Blocks(t1), Freed(t, k));
    FreedAccounts(s0.free, Freed(t, k), SetOf(Blocks(t)), SetOf(Blocks(t1)), leaked);
    WholeFrom(s, root, t1, level, leaked);
  }

  /** A removal from the whole tree. */
  lemma RootRemoved(s0: Snap, s: Snap, root: nat, t: Tree, level: nat, leaked: set<nat>, k: int, err: Err, t1: Tree)
    requires WholeOk(s0, root, t, level, leaked)
    requires RemoveOutcome(s0, s, root, WholePlace(t, level), k, err, t1)
    ensures err == RemoveErr(t, s0.free, k)
    ensures err == Ok ==>
      WholeOk(s, root, t1, level, leaked) && Recs(t1) == Del(Recs(t), k) && s.free == s0.free + Freed(t, k)
    ensures err == ENOENT ==> s == s0
  {
    EmptiesHas(t, level, None, None, k);
    if err == Ok {
      TreeRemoved(s0, s, root, t, level, leaked, k, t1);
    }
  }

  // Room

  /** The leaf the key is routed to has no room for the record. */
  ghost predicate NoRoomFor(t: Tree, r: Rec) {
    var l := LeafFor(t, r.key.rank);
    l.Leaf? && Sum(l.recs) + RecSize(r) > Capacity(true, t.Leaf?)
  }

  /** For a key that is present, the room in its leaf alone decides whether an insertion asks for a block. */
  lemma {:induction false} RoomDecides(t: Tree, r: Rec, isRoot: bool, level: nat, lo: Option<int>, hi: Option<int>)
    requires Shape(t, level, lo, hi) && Above(lo, r.key.rank) && Below(hi, r.key.rank) && Has(Recs(t), r.key.rank)
    ensures LeafFor(t, r.key.rank).Leaf?
    ensures Demand(t, r, isRoot) > 0 <==>
      Sum(LeafFor(t, r.key.rank).recs) + RecSize(r) > Capacity(true, isRoot && t.Leaf?)
    decreases level
  {
    hide Sum, Has, RecSize, Capacity;
    if t.Index? {
      var j := Route(t.seps, r.key.rank);
      SearchInKid(t, level, lo, hi, r.key.rank);
      Locate(t, level, lo, hi, r.key.rank);
      NilHasNothing(r.key.rank);
      KidShaped(t, level, lo, hi, j);
      RoomDecides(t.kids[j], r, false, level - 1, LoOf(t.seps, lo, j), HiOf(t.seps, hi, j));
    }
  }

  lemma NilHasNothing(k: int)
    ensures !Has([], k) && Recs(Nil) == []
  {
  }

  // The tree as a map

  lemma MapInserted(t: Tree, level: nat, t': Tree, r: Rec, err: Err, s0: Snap, leaked: set<nat>, s: Snap, leaked': set<nat>)
    requires Shape(t, level, None, None) && Inserted(s0, t, leaked, s, t', leaked', r, err) && err != Aborted
    ensures err == EEXIST ==> r.key.rank in AsMap(Recs(t))
    ensures err == Ok ==> r.key.rank !in AsMap(Recs(t))
    ensures AsMap(Recs(t')) == if err == Ok then AsMap(Recs(t))[r.key.rank := r] else AsMap(Recs(t))
  {
    RecsOk(t, level, None, None);
    Lookup(Recs(t), r.key.rank);
    if err == Ok {
      InsertionRefines(Recs(t), r);
    }
  }

  lemma WholeMapInserted(root: nat, t: Tree, level: nat, t': Tree, r: Rec, err: Err,
                         s0: Snap, leaked: set<nat>, s: Snap, leaked': set<nat>)
    requires WholeOk(s0, root, t, level, leaked) && Inserted(s0, t, leaked, s, t', leaked', r, err) && err != Aborted
    ensures err == EEXIST ==> r.key.rank in AsMap(Recs(t))
    ensures err == Ok ==> r.key.rank !in AsMap(Recs(t))
    ensures AsMap(Recs(t')) == if err == Ok then AsMap(Recs(t))[r.key.rank := r] else AsMap(Recs(t))
  {
    hide Inserted, AsMap, Stored, Accounted, Recs, Shape;
    MapInserted(t, level, t', r, err, s0, leaked, s, leaked');
  }

  lemma MapRemoved(t: Tree, level: nat, k: int)
    requires Shape(t, level, None, None)
    ensures Has(Recs(t), k) <==> k in AsMap(Recs(t))
    ensures AsMap(Del(Recs(t), k)) == AsMap(Recs(t)) - {k}
  {
    hide Shape, AsMap, Has, Recs;
    RecsOk(t, level, None, None);
    Lookup(Recs(t), k);
    if Has(Recs(t), k) {
      RemovalRefines(Recs(t), k);
    } else {
      NothingRemoved(Recs(t), k);
    }
  }

  // Conservation

  lemma {:induction false} UniqueSize(m: multiset<nat>)
    requires Unique(m)
    ensures |SetOf(m)| == |m|
    decreases |m|
  {
    if m != multiset{} {
      var x :| x in m;
      var rest := m - multiset{x};
      assert m[x] == 1;
      assert Unique(rest) by {
        forall b ensures rest[b] <= 1 {
          assert m[b] <= 1;
        }
      }
      UniqueSize(rest);
      assert SetOf(m) == SetOf(rest) + {x};
    }
  }

  lemma SystemSize()
    ensures |SystemBlocks()| == NBITMAPS + 1
  {
    RangeSize(ROOT_BLKNO + 1, NBITMAPS + 2);
    assert SM_BLKNO !in Range(ROOT_BLKNO + 1, NBITMAPS + 2);
  }

  lemma FourParts(a: set<nat>, b: set<nat>, c: set<nat>, d: set<nat>)
    requires a !! b !! c !! d
    ensures |a + b + c + d| == |a| + |b| + |c| + |d|
  {
    assert |a + b| == |a| + |b|;
    assert |a + b + c| == |a + b| + |c|;
  }

  /** Blocks are neither lost nor made: free blocks, counted nodes, lost blocks and the space manager's own
      add up to the size of the file. */
  lemma BlocksConserved(s: Snap, root: nat, t: Tree, level: nat, leaked: set<nat>)
    requires WholeOk(s, root, t, level, leaked)
    ensures |s.free| + s.infos[root] + |leaked| + NBITMAPS + 1 == NBLOCKS
    ensures forall b: nat :: b < NBLOCKS ==> (b !in s.free <==> b in SystemBlocks() || b in Blocks(t) || b in leaked)
  {
    UniqueSize(Blocks(t));
    SystemSize();
    RangeSize(0, NBLOCKS);
    FourParts(s.free, SetOf(Blocks(t)), leaked, SystemBlocks());
    forall b: nat | b < NBLOCKS ensures b !in s.free <==> b in SystemBlocks() || b in Blocks(t) || b in leaked {
      assert b in Range(0, NBLOCKS);
    }
  }
}
