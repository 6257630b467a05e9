/** What one recursive removal of btrees/btree.c (`_bt_remove`) does to the blocks, the free blocks and the
    node count. */
module BtreeRemoval {
  import opened Common
  import opened SpaceManagers
  import opened BtreeNode
  import opened BtreeShape
  import opened BtreeOrder
  import opened BtreeSteps
  import opened BtreeStore
  import opened BtreeLinks
  import opened BtreeOutcome
  import opened BtreeMap

  /** The leaf a key is routed to, or `Nil` where the pointer to it is zero. */
  ghost function LeafFor(t: Tree, k: int): Tree
    decreases t
  {
    match t
    case Nil => Nil
    case Leaf(_, _) => t
    case Index(_, seps, kids) => var j := Route(seps, k); if j < |kids| then LeafFor(kids[j], k) else Nil
  }

  /** Removing the key empties a leaf that is not the root. */
  ghost predicate Empties(t: Tree, k: int) {
    var l := LeafFor(t, k);
    t.Index? && l.Leaf? && |l.recs| == 1 && Has(l.recs, k)
  }

  /** The blocks a removal frees. */
  ghost function Freed(t: Tree, k: int): set<nat> {
    if Empties(t, k) then {LeafFor(t, k).blk} else {}
  }

  /** The blocks of the tree exist, and the root's count covers them. */
  ghost predicate Counts(s: Snap, root: nat, t: Tree) {
    root in s.infos && s.infos[root] >= |Blocks(t)| && forall b <- Blocks(t) :: b < NBLOCKS
  }

  /** The outcome of a removal. A leaf that becomes empty is freed, unless it is the root; the program stops
      if the leaf's bitmap has no free block at all. */
  ghost predicate RemoveOutcome(s0: Snap, s: Snap, root: nat, p: Place, k: int, err: Err, t1: Tree) {
    && root in s0.infos && root in s.infos
    && match err
       case Ok =>
         && Has(Recs(p.t), k) && (Empties(p.t, k) ==> RoomToFree(s0.free, LeafFor(p.t, k).blk))
         && RemovedTree(s0, s, p, k, t1)
         && s.free == s0.free + Freed(p.t, k) && s.infos[root] == s0.infos[root] - |Freed(p.t, k)|
       case ENOENT => s == s0 && !Has(Recs(p.t), k)
       case Aborted => Empties(p.t, k) && !RoomToFree(s0.free, LeafFor(p.t, k).blk)
       case _ => false
  }

  ghost predicate RemovedTree(s0: Snap, s: Snap, p: Place, k: int, t1: Tree) {
    && Shape(t1, p.level, p.lo, p.hi) && BlkOf(t1) == BlkOf(p.t) && Stored(s.blocks, t1, p.isRoot)
    && Recs(t1) == Del(Recs(p.t), k) && Blocks(t1) + multiset(Freed(p.t, k)) == Blocks(p.t)
    && SameOutside(s0.blocks, s.blocks, SetOf(Blocks(p.t)))
  }

  lemma DelLeafOk(recs: seq<Rec>, k: int, lo: Option<int>, hi: Option<int>)
    requires LeafOk(recs, lo, hi)
    ensures LeafOk(Del(recs, k), lo, hi)
  {
    hide Sorted, Pos, Has;
    DelSorted(recs, k);
    assert forall r <- Del(recs, k) :: r in recs;
  }

  lemma LeafRewritten(s0: Snap, s: Snap, root: nat, p: Place, k: int)
    requires Ready(s0, root, p) && p.t.Leaf? && Has(p.t.recs, k) && p.t.blk in s0.blocks
    requires var n, recs := s0.blocks[p.t.blk], Del(p.t.recs, k);
      s.blocks == s0.blocks[p.t.blk := n.(recs := recs, freespace := n.freespace + Sum(n.recs) - Sum(recs))]
    ensures NodeIs(s.blocks, p.t.blk, true, p.isRoot, 0, Del(p.t.recs, k))
    ensures SameOutside(s0.blocks, s.blocks, SetOf(Blocks(p.t)))
  {
    LeafUsable(s0, root, p);
    SumWithout(p.t.recs, Pos(p.t.recs, k));
    assert p.t.blk in SetOf(Blocks(p.t));
  }

  /** Removal from a leaf. */
  lemma LeafRemoved(s0: Snap, s: Snap, root: nat, p: Place, k: int)
    requires Ready(s0, root, p) && p.t.Leaf? && Has(p.t.recs, k)
    requires s.free == s0.free && s.infos == s0.infos && p.t.blk in s0.blocks
    requires var n, recs := s0.blocks[p.t.blk], Del(p.t.recs, k);
      s.blocks == s0.blocks[p.t.blk := n.(recs := recs, freespace := n.freespace + Sum(n.recs) - Sum(recs))]
    ensures RemoveOutcome(s0, s, root, p, k, Ok, Leaf(p.t.blk, Del(p.t.recs, k)))
  {
    LeafRewritten(s0, s, root, p, k);
    DelLeafOk(p.t.recs, k, p.lo, p.hi);
    hide Del, Has, Sum, NodeIs, LeafOk;
  }

  lemma KidCounts(s: Snap, root: nat, p: Place, j: nat)
    requires Ready(s, root, p) && p.t.Index? && j < |p.t.kids| && Counts(s, root, p.t)
    ensures Counts(s, root, p.t.kids[j]) && s.infos[root] > |Blocks(p.t.kids[j])|
  {
    SplitAtKid(p.t.kids, j);
    assert Blocks(p.t) == Blocks(p.t.kids[j]) + (multiset{p.t.blk} + BlocksAll(p.t.kids[..j]) + BlocksAll(p.t.kids[j + 1..]));
    KidUnique(p.t, j);
  }

  // An index node: `p.t` with child `j`, which the key is routed to

  ghost predicate AtKid(s0: Snap, root: nat, p: Place, k: int, j: nat) {
    && Ready(s0, root, p) && InRange(p, k) && p.t.Index? && j == Route(p.t.seps, k) && p.level > 0
    && j < |p.t.kids| == |p.t.seps| + 1
  }

  /** There is nothing to remove behind a zero pointer. */
  lemma KidMissing(s: Snap, root: nat, p: Place, k: int, j: nat)
    requires AtKid(s, root, p, k, j) && p.t.kids[j].Nil?
    ensures RemoveOutcome(s, s, root, p, k, ENOENT, Nil)
  {
    SearchInKid(p.t, p.level, p.lo, p.hi, k);
  }

  /** What empties a leaf below the child, or the child itself, empties a leaf of the tree. */
  lemma KidEmpties(t: Tree, k: int, j: nat)
    requires t.Index? && j == Route(t.seps, k) && j < |t.kids|
    ensures LeafFor(t, k) == LeafFor(t.kids[j], k)
    ensures t.kids[j].Index? ==> (Empties(t, k) <==> Empties(t.kids[j], k)) && Freed(t, k) == Freed(t.kids[j], k)
    ensures t.kids[j].Leaf? ==> (Empties(t, k) <==> |t.kids[j].recs| == 1 && Has(t.kids[j].recs, k))
  {
  }

  lemma KidNotRemoved(s0: Snap, s1: Snap, root: nat, p: Place, k: int, j: nat, err: Err, k1: Tree)
    requires AtKid(s0, root, p, k, j) && err != Ok
    requires RemoveOutcome(s0, s1, root, KidPlace(p, j, p.t.kids[j]), k, err, k1)
    ensures RemoveOutcome(s0, s1, root, p, k, err, p.t)
  {
    SearchInKid(p.t, p.level, p.lo, p.hi, k);
    KidEmpties(p.t, k, j);
  }

  /** The rest of the node when the blocks of the child change. */
  lemma KidChanged(s0: Snap, s1: Snap, root: nat, p: Place, j: nat)
    requires Ready(s0, root, p) && p.t.Index? && j < |p.t.kids| && !p.t.kids[j].Nil?
    requires SameOutside(s0.blocks, s1.blocks, SetOf(Blocks(p.t.kids[j])))
    ensures Around(s1.blocks, p.t, p.isRoot, j, p.t.kids[j])
    ensures SameOutside(s0.blocks, s1.blocks, SetOf(Blocks(p.t)))
  {
    OldKidDescended(s0, root, p, j);
    KidUnique(p.t, j);
    AroundFrame(s0.blocks, s1.blocks, p.t, p.isRoot, j, p.t.kids[j], SetOf(Blocks(p.t.kids[j])));
  }

  /** The records and blocks of the tree, from those of the changed child. */
  lemma KidDelContents(p: Place, k: int, j: nat, k1: Tree, freed: multiset<nat>)
    requires Shape(p.t, p.level, p.lo, p.hi) && p.t.Index? && InRange(p, k) && j == Route(p.t.seps, k)
    requires Recs(k1) == Del(Recs(p.t.kids[j]), k) && Blocks(k1) + freed == Blocks(p.t.kids[j])
    ensures Has(Recs(p.t), k) <==> Has(Recs(p.t.kids[j]), k)
    ensures Recs(WithKid(p.t, j, k1)) == Del(Recs(p.t), k) && Blocks(WithKid(p.t, j, k1)) + freed == Blocks(p.t)
  {
    KidRecs(p, Rec(Key(k, 0), Ptr(0)), j);
    KidReplacedContents(p.t, j, k1);
    SplitAtKid(p.t.kids, j);
  }

  /** As long as the child is not left empty, the tree loses the blocks that the child loses. */
  lemma KeptFreed(s0: Snap, s1: Snap, root: nat, p: Place, k: int, j: nat, k1: Tree)
    requires AtKid(s0, root, p, k, j) && !p.t.kids[j].Nil? && !EmptyLeaf(k1)
    requires RemoveOutcome(s0, s1, root, KidPlace(p, j, p.t.kids[j]), k, Ok, k1)
    ensures Freed(p.t, k) == Freed(p.t.kids[j], k) && (Empties(p.t, k) ==> Empties(p.t.kids[j], k))
    ensures LeafFor(p.t, k) == LeafFor(p.t.kids[j], k)
  {
    KidEmpties(p.t, k, j);
    if p.t.kids[j].Leaf? {
      assert KidFits(p.t, p.level, p.lo, p.hi, j);
      assert Shape(p.t.kids[j], p.level - 1, LoOf(p.t.seps, p.lo, j), HiOf(p.t.seps, p.hi, j));
      assert k1.Leaf?;
    }
  }

  lemma KeptStored(s0: Snap, s1: Snap, root: nat, p: Place, j: nat, k1: Tree)
    requires Ready(s0, root, p) && p.t.Index? && j < |p.t.kids| && !p.t.kids[j].Nil?
    requires SameOutside(s0.blocks, s1.blocks, SetOf(Blocks(p.t.kids[j])))
    requires Stored(s1.blocks, k1, false) && BlkOf(k1) == BlkOf(p.t.kids[j])
    ensures Stored(s1.blocks, WithKid(p.t, j, k1), p.isRoot)
    ensures SameOutside(s0.blocks, s1.blocks, SetOf(Blocks(p.t)))
  {
    KidChanged(s0, s1, root, p, j);
    AroundSameBlock(s1.blocks, p.t, p.isRoot, j, p.t.kids[j], k1);
    AroundStored(s1.blocks, p.t, p.isRoot, j, k1);
  }

  /** The child stays. */
  lemma KidKept(s0: Snap, s1: Snap, root: nat, p: Place, k: int, j: nat, k1: Tree)
    requires AtKid(s0, root, p, k, j) && !p.t.kids[j].Nil? && !EmptyLeaf(k1)
    requires RemoveOutcome(s0, s1, root, KidPlace(p, j, p.t.kids[j]), k, Ok, k1)
    ensures RemoveOutcome(s0, s1, root, p, k, Ok, WithKid(p.t, j, k1))
  {
    KeptStored(s0, s1, root, p, j, k1);
    KidReplaced(p.t, p.level, p.lo, p.hi, j, k1);
    KeptFreed(s0, s1, root, p, k, j, k1);
    KidDelContents(p, k, j, k1, multiset(Freed(p.t, k)));
  }

  /** The node without its child: the block is free, the pointer zero. */
  ghost predicate KidGone(s0: Snap, s1: Snap, s2: Snap, root: nat, p: Place, j: nat, k1: Tree) {
    && AtKidBlock(s1, p, j) && RootStored(s2.blocks, WithKid(p.t, j, Nil), p.isRoot)
    && SameOutside(s1.blocks, s2.blocks, {p.t.blk})
    && s2.free == s1.free + {p.t.kids[j].blk}
    && root in s1.infos && root in s2.infos && s2.infos[root] + 1 == s1.infos[root]
  }

  ghost predicate AtKidBlock(s: Snap, p: Place, j: nat) {
    p.t.Index? && j < |p.t.kids| && !p.t.kids[j].Nil?
  }

  /** A child left empty by the removal was a leaf with one record. */
  lemma EmptiedKid(s0: Snap, s1: Snap, root: nat, p: Place, k: int, j: nat, k1: Tree)
    requires AtKid(s0, root, p, k, j) && !p.t.kids[j].Nil? && EmptyLeaf(k1)
    requires RemoveOutcome(s0, s1, root, KidPlace(p, j, p.t.kids[j]), k, Ok, k1)
    ensures p.level == 1 && p.t.kids[j].Leaf? && Empties(p.t, k) && LeafFor(p.t, k) == p.t.kids[j]
    ensures Freed(p.t, k) == {p.t.kids[j].blk} && Blocks(p.t.kids[j]) == multiset{p.t.kids[j].blk}
    ensures s1.free == s0.free && s1.infos[root] == s0.infos[root] && Del(p.t.kids[j].recs, k) == []
  {
    assert KidFits(p.t, p.level, p.lo, p.hi, j);
    KidEmpties(p.t, k, j);
  }

  /** Only the node itself changes. */
  lemma NodeRewritten(before: map<nat, Node>, after: map<nat, Node>, t: Tree, isRoot: bool, j: nat, kid: Tree, kid': Tree)
    requires Around(before, t, isRoot, j, kid) && Unique(Blocks(t)) && SameOutside(before, after, {t.blk})
    requires RootStored(after, WithKid(t, j, kid'), isRoot)
    ensures Around(after, t, isRoot, j, kid')
  {
    NodeApart(t, j);
    StoredAllFrame(before, after, t.kids[..j]);
    StoredAllFrame(before, after, t.kids[j + 1..]);
  }

  lemma GoneStored(s0: Snap, s1: Snap, s2: Snap, root: nat, p: Place, j: nat, k1: Tree)
    requires Ready(s0, root, p) && KidGone(s0, s1, s2, root, p, j, k1)
    requires SameOutside(s0.blocks, s1.blocks, SetOf(Blocks(p.t.kids[j])))
    ensures Stored(s2.blocks, WithKid(p.t, j, Nil), p.isRoot)
    ensures SameOutside(s0.blocks, s2.blocks, SetOf(Blocks(p.t)))
  {
    KidChanged(s0, s1, root, p, j);
    NodeRewritten(s1.blocks, s2.blocks, p.t, p.isRoot, j, p.t.kids[j], Nil);
    AroundStored(s2.blocks, p.t, p.isRoot, j, Nil);
    assert p.t.blk in SetOf(Blocks(p.t));
  }

  /** The child has become empty and has been freed. */
  lemma KidFreed(s0: Snap, s1: Snap, s2: Snap, root: nat, p: Place, k: int, j: nat, k1: Tree)
    requires AtKid(s0, root, p, k, j) && !p.t.kids[j].Nil? && EmptyLeaf(k1)
    requires RemoveOutcome(s0, s1, root, KidPlace(p, j, p.t.kids[j]), k, Ok, k1)
    requires RoomToFree(s1.free, p.t.kids[j].blk) && KidGone(s0, s1, s2, root, p, j, k1)
    ensures RemoveOutcome(s0, s2, root, p, k, Ok, WithKid(p.t, j, Nil))
  {
    hide Shape, Stored, Has, Del, LeafFor, Empties, RoomToFree, RootStored;
    EmptiedKid(s0, s1, root, p, k, j, k1);
    GoneStored(s0, s1, s2, root, p, j, k1);
    KidReplaced(p.t, p.level, p.lo, p.hi, j, Nil);
    KidDelContents(p, k, j, Nil, multiset{p.t.kids[j].blk});
  }

  /** The emptied child cannot be freed. */
  lemma KidStuck(s0: Snap, s1: Snap, s2: Snap, root: nat, p: Place, k: int, j: nat, k1: Tree)
    requires AtKid(s0, root, p, k, j) && !p.t.kids[j].Nil? && EmptyLeaf(k1) && root in s2.infos
    requires RemoveOutcome(s0, s1, root, KidPlace(p, j, p.t.kids[j]), k, Ok, k1)
    requires !RoomToFree(s1.free, p.t.kids[j].blk)
    ensures RemoveOutcome(s0, s2, root, p, k, Aborted, p.t)
  {
    EmptiedKid(s0, s1, root, p, k, j, k1);
  }

  lemma DropStored(s0: Snap, s1: Snap, root: nat, p: Place, j: nat, k1: Tree)
    requires Ready(s0, root, p) && p.t.Index? && j < |p.t.kids| && !p.t.kids[j].Nil?
    requires SameOutside(s0.blocks, s1.blocks, SetOf(Blocks(p.t.kids[j]))) && BlkOf(k1) == BlkOf(p.t.kids[j])
    ensures RootStored(s1.blocks, WithKid(p.t, j, k1), p.isRoot)
  {
    KidChanged(s0, s1, root, p, j);
    AroundSameBlock(s1.blocks, p.t, p.isRoot, j, p.t.kids[j], k1);
  }

  lemma DropCounts(s: Snap, root: nat, p: Place, j: nat)
    requires Ready(s, root, p) && p.t.Index? && j < |p.t.kids| && p.t.kids[j].Leaf? && Counts(s, root, p.t)
    ensures p.t.kids[j].blk < NBLOCKS && p.t.kids[j].blk !in s.free && s.infos[root] > 0
  {
    KidCounts(s, root, p, j);
    KidUnique(p.t, j);
    assert p.t.kids[j].blk in Blocks(p.t.kids[j]);
    assert p.t.kids[j].blk in SetOf(Blocks(p.t));
  }

  /** The emptied child's block is in use and counted, and the node still points to it. */
  lemma KidThere(s0: Snap, root: nat, p: Place, k: int, j: nat)
    requires AtKid(s0, root, p, k, j)
    ensures p.t.Index? && j < |p.t.kids|
  {
  }

  lemma DropReady(s0: Snap, s1: Snap, root: nat, p: Place, k: int, j: nat, k1: Tree)
    requires AtKid(s0, root, p, k, j) && !p.t.kids[j].Nil? && EmptyLeaf(k1) && Counts(s0, root, p.t)
    requires RemoveOutcome(s0, s1, root, KidPlace(p, j, p.t.kids[j]), k, Ok, k1)
    ensures AtKidBlock(s1, p, j) && RootStored(s1.blocks, WithKid(p.t, j, k1), p.isRoot)
    ensures p.t.kids[j].blk < NBLOCKS && p.t.kids[j].blk !in s1.free && root in s1.infos && s1.infos[root] > 0
    ensures WithKid(WithKid(p.t, j, k1), j, Nil) == WithKid(p.t, j, Nil)
  {
    hide Ready, Counts, Shape, Stored, Empties, Del;
    EmptiedKid(s0, s1, root, p, k, j, k1);
    DropCounts(s0, root, p, j);
    DropStored(s0, s1, root, p, j, k1);
  }
}
