/** What one recursive insertion of btrees/btree.c (`_bt_insert`) does to the blocks, the free blocks and
    the node count, and how the outcome for a child becomes the outcome for its parent. */
module BtreeOutcome {
  import opened Common
  import opened BtreeNode
  import opened BtreeShape
  import opened BtreeOrder
  import opened BtreeSteps
  import opened BtreeStore
  import opened BtreeLinks

  /** The part of the tree an insertion is about. */
  datatype Place = Place(t: Tree, level: nat, lo: Option<int>, hi: Option<int>, isRoot: bool)

  ghost predicate InRange(p: Place, k: int) {
    Above(p.lo, k) && Below(p.hi, k)
  }

  ghost predicate RootHere(s: Snap, root: nat) {
    root in s.blocks && s.blocks[root].isRoot && root in s.infos && root !in s.free && 0 !in s.free
  }

  ghost predicate InUse(s: Snap, t: Tree) {
    Unique(Blocks(t)) && 0 !in Blocks(t) && SetOf(Blocks(t)) !! s.free
  }

  ghost predicate Ready(s: Snap, root: nat, p: Place) {
    && RootHere(s, root)
    && Shape(p.t, p.level, p.lo, p.hi) && Stored(s.blocks, p.t, p.isRoot) && InUse(s, p.t)
    && (if p.isRoot then root == p.t.blk else root !in Blocks(p.t))
  }

  /** The separator that reaches the parent of `t` when the record is inserted: the leaf its key is routed
      to splits if it has no room, and so does every node above that has no room for the separator. */
  ghost function Carry(t: Tree, r: Rec, isRoot: bool): Option<Key>
    decreases t
  {
    match t
    case Nil => None
    case Leaf(_, recs) =>
      if Sum(recs) + RecSize(r) <= Capacity(true, isRoot) then None else Some(SeparatorKey(recs, r))
    case Index(_, seps, kids) =>
      var j := Route(seps, r.key.rank);
      if |kids| != |seps| + 1 || Carry(kids[j], r, false).None? then None
      else CarryOn(IndexRecs(seps, kids), Carry(kids[j], r, false).value, isRoot)
  }

  ghost function CarryOn(recs: seq<Rec>, k: Key, isRoot: bool): Option<Key> {
    if Sum(recs) + IndexSize(k) <= Capacity(false, isRoot) then None else Some(SeparatorKey(recs, IndexRec(k, 0)))
  }

  /** The blocks an insertion takes: one for each node that splits, or one for a missing leaf. */
  ghost function Demand(t: Tree, r: Rec, isRoot: bool): nat
    decreases t
  {
    (match t
     case Nil => 1
     case Leaf(_, _) => 0
     case Index(_, seps, kids) =>
       var j := Route(seps, r.key.rank); if j < |kids| then Demand(kids[j], r, false) else 0)
    + (if Carry(t, r, isRoot).Some? then 1 else 0)
  }

  /** The tree with the record in the leaf its key is routed to. */
  ghost function WithRecord(t: Tree, r: Rec): Tree
    decreases t
  {
    match t
    case Nil => Nil
    case Leaf(blk, recs) => Leaf(blk, Ins(recs, r))
    case Index(_, seps, kids) =>
      var j := Route(seps, r.key.rank); if j < |kids| then WithKid(t, j, WithRecord(kids[j], r)) else t
  }

  /** At most one block for each level; as many as that exactly if a separator is left over. */
  lemma {:induction false} DemandBounds(t: Tree, r: Rec, isRoot: bool, level: nat, lo: Option<int>, hi: Option<int>)
    requires Shape(t, level, lo, hi) && Above(lo, r.key.rank) && Below(hi, r.key.rank)
    ensures Demand(t, r, isRoot) <= level + 1
    ensures Demand(t, r, isRoot) == level + 1 <==> Carry(t, r, isRoot).Some?
    decreases level
  {
    if t.Index? {
      var j := Route(t.seps, r.key.rank);
      Locate(t, level, lo, hi, r.key.rank);
      assert KidFits(t, level, lo, hi, j);
      if !t.kids[j].Nil? {
        DemandBounds(t.kids[j], r, false, level - 1, LoOf(t.seps, lo, j), HiOf(t.seps, hi, j));
      }
    }
  }

  ghost function Taken(s0: Snap, s: Snap): int {
    |s0.free| - |s.free|
  }

  /** Only the blocks of the tree and free blocks were touched, and free blocks were only taken. */
  ghost predicate Confined(s0: Snap, s: Snap, root: nat, t: Tree) {
    s.free <= s0.free && SameOutside(s0.blocks, s.blocks, SetOf(Blocks(t)) + s0.free) && root in s.infos && root in s0.infos
  }

  ghost predicate Unchanged(s0: Snap, s: Snap, root: nat, p: Place)
    requires root in s0.infos && root in s.infos
  {
    Stored(s.blocks, p.t, p.isRoot) && s.infos[root] == s0.infos[root]
  }

  ghost predicate OneTree(s0: Snap, s: Snap, root: nat, p: Place, r: Rec, t1: Tree)
    requires root in s0.infos && root in s.infos
  {
    && InPlace(p.t, t1, p.level, p.lo, p.hi) && BlkOf(t1) == BlkOf(p.t)
    && Stored(s.blocks, t1, p.isRoot)
    && Recs(t1) == Ins(Recs(p.t), r)
    && Blocks(t1) == Blocks(p.t) + multiset(s0.free - s.free)
    && s.infos[root] == s0.infos[root] + Taken(s0, s)
    && (Demand(p.t, r, p.isRoot) == 0 ==> t1 == WithRecord(p.t, r))
  }

  ghost predicate TwoTrees(s0: Snap, s: Snap, root: nat, p: Place, r: Rec, bsi: SplitInfo, t1: Tree, t2: Tree)
    requires root in s0.infos && root in s.infos && bsi.Split?
  {
    && TwoInPlace(t1, bsi.key, t2, p.level, p.lo, p.hi) && BlkOf(t1) == BlkOf(p.t) && BlkOf(t2) == bsi.ptr
    && Stored(s.blocks, t1, false) && Stored(s.blocks, t2, false)
    && Recs(t1) + Recs(t2) == Ins(Recs(p.t), r)
    && Blocks(t1) + Blocks(t2) == Blocks(p.t) + multiset(s0.free - s.free)
    && (if p.isRoot then bsi.nnodes else s.infos[root]) == s0.infos[root] + Taken(s0, s) - 1
  }

  /** The outcome of an insertion. A duplicate costs a block exactly when the leaf had no room for the
      record. If there is a block for the leaf but not for every node above it that splits, the program
      stops. */
  ghost predicate Outcome(s0: Snap, s: Snap, root: nat, p: Place, r: Rec, err: Err, bsi: SplitInfo, t1: Tree, t2: Tree) {
    match err
    case Aborted => 0 < |s0.free| < Demand(p.t, r, p.isRoot) && !Has(Recs(p.t), r.key.rank)
    case ENOSPC => s == s0 && s0.free == {} && Demand(p.t, r, p.isRoot) > 0 && bsi.NoSplit?
    case EEXIST =>
      && Confined(s0, s, root, p.t) && Unchanged(s0, s, root, p) && bsi.NoSplit?
      && Has(Recs(p.t), r.key.rank)
      && Taken(s0, s) == if Demand(p.t, r, p.isRoot) == 0 then 0 else 1
    case Ok =>
      && Confined(s0, s, root, p.t)
      && !Has(Recs(p.t), r.key.rank) && Taken(s0, s) == Demand(p.t, r, p.isRoot)
      && (if bsi.NoSplit? then Carry(p.t, r, p.isRoot) == None else Carry(p.t, r, p.isRoot) == Some(bsi.key))
      && (if bsi.NoSplit? then OneTree(s0, s, root, p, r, t1) else TwoTrees(s0, s, root, p, r, bsi, t1, t2))
    case _ => false
  }

  lemma InsLeafOk(recs: seq<Rec>, r: Rec, lo: Option<int>, hi: Option<int>)
    requires LeafOk(recs, lo, hi) && !Has(recs, r.key.rank) && SizeOk(r)
    requires Above(lo, r.key.rank) && Below(hi, r.key.rank)
    ensures LeafOk(Ins(recs, r), lo, hi) && Ins(recs, r) != []
  {
    InsSorted(recs, r);
  }

  /** A leaf is a node the node operations accept. */
  lemma LeafUsable(s: Snap, root: nat, p: Place)
    requires Ready(s, root, p) && p.t.Leaf?
    ensures p.t.blk in s.blocks && p.t.blk !in s.free
    ensures s.blocks[p.t.blk] == Node(true, p.isRoot, 0, p.t.recs, Capacity(true, p.isRoot) - Sum(p.t.recs))
    ensures Sorted(p.t.recs) && forall x <- p.t.recs :: RecSize(x) <= SIZE_LIMIT
  {
    assert p.t.blk in Blocks(p.t);
    assert p.t.blk in SetOf(Blocks(p.t));
  }

  /** Taking one block. */
  lemma TookOne(s0: Snap, s: Snap, root: nat, nblk: nat)
    requires RootHere(s0, root) && TookBlock(s0, s, nblk)
    ensures root in s.infos && s.infos[root] == s0.infos[root] && Taken(s0, s) == 1 && s0.free - s.free == {nblk}
  {
    assert |s0.free| == |s0.free - {nblk}| + 1;
  }

  /** Insertion into a leaf. */
  lemma LeafOutcome(s0: Snap, s: Snap, root: nat, p: Place, r: Rec,
                    err: Err, bsi: SplitInfo, nblk: nat, left: seq<Rec>, right: seq<Rec>)
    returns (t1: Tree, t2: Tree)
    requires Ready(s0, root, p) && p.t.Leaf? && InRange(p, r.key.rank) && SizeOk(r)
    requires p.t.blk in s0.blocks && NodeOutcome(s0, s, p.t.blk, r, err, bsi, nblk, left, right)
    ensures Outcome(s0, s, root, p, r, err, bsi, t1, t2)
  {
    t1, t2 := p.t, Nil;
    LeafUsable(s0, root, p);
    if err == EEXIST {
      LeafDuplicateOutcome(s0, s, root, p, r, bsi, nblk, left, right);
    } else if err == Ok {
      InsLeafOk(p.t.recs, r, p.lo, p.hi);
      if bsi.NoSplit? {
        t1 := Leaf(p.t.blk, Ins(p.t.recs, r));
        LeafGrownOutcome(s0, s, root, p, r, nblk, left, right);
      } else {
        t1, t2 := Leaf(p.t.blk, left), Leaf(nblk, right);
        LeafSplitOutcome(s0, s, root, p, r, bsi, nblk, left, right);
      }
    }
  }

  /** The blocks of a leaf are its own. */
  lemma LeafBlocks(t: Tree)
    requires t.Leaf?
    ensures SetOf(Blocks(t)) == {t.blk}
  {
  }

  /** A leaf splits exactly if it has no room. */
  lemma LeafRoom(s: Snap, root: nat, p: Place, r: Rec)
    requires Ready(s, root, p) && p.t.Leaf?
    ensures p.t.blk in s.blocks && s.blocks[p.t.blk].recs == p.t.recs
    ensures Demand(p.t, r, p.isRoot) == if RecSize(r) <= s.blocks[p.t.blk].freespace then 0 else 1
  {
    LeafUsable(s, root, p);
  }

  lemma DuplicateKeepsLeaf(s0: Snap, s: Snap, root: nat, p: Place, touched: set<nat>)
    requires Ready(s0, root, p) && p.t.Leaf? && touched <= s0.free && SameOutside(s0.blocks, s.blocks, touched)
    ensures Stored(s.blocks, p.t, p.isRoot)
  {
    LeafUsable(s0, root, p);
  }

  lemma LeafDuplicateOutcome(s0: Snap, s: Snap, root: nat, p: Place, r: Rec,
                             bsi: SplitInfo, nblk: nat, left: seq<Rec>, right: seq<Rec>)
    requires Ready(s0, root, p) && p.t.Leaf? && p.t.blk in s0.blocks
    requires NodeOutcome(s0, s, p.t.blk, r, EEXIST, bsi, nblk, left, right)
    ensures Outcome(s0, s, root, p, r, EEXIST, bsi, p.t, Nil)
  {
    hide IsSplit, Shape, Stored, Demand, Carry, Outcome, NodeIs;
    LeafRoom(s0, root, p, r);
    LeafBlocks(p.t);
    if Demand(p.t, r, p.isRoot) > 0 {
      TookOne(s0, s, root, nblk);
      DuplicateKeepsLeaf(s0, s, root, p, {nblk});
    } else {
      DuplicateKeepsLeaf(s0, s, root, p, {});
    }
    DuplicateOutcome(s0, s, root, p, r);
  }

  lemma DuplicateOutcome(s0: Snap, s: Snap, root: nat, p: Place, r: Rec)
    requires Confined(s0, s, root, p.t) && Unchanged(s0, s, root, p) && Has(Recs(p.t), r.key.rank)
    requires Taken(s0, s) == if Demand(p.t, r, p.isRoot) == 0 then 0 else 1
    ensures Outcome(s0, s, root, p, r, EEXIST, NoSplit, p.t, Nil)
  {
  }

  lemma LeafGrownOutcome(s0: Snap, s: Snap, root: nat, p: Place, r: Rec, nblk: nat, left: seq<Rec>, right: seq<Rec>)
    requires Ready(s0, root, p) && p.t.Leaf? && p.t.blk in s0.blocks
    requires LeafOk(Ins(p.t.recs, r), p.lo, p.hi)
    requires NodeOutcome(s0, s, p.t.blk, r, Ok, NoSplit, nblk, left, right)
    ensures Outcome(s0, s, root, p, r, Ok, NoSplit, Leaf(p.t.blk, Ins(p.t.recs, r)), Nil)
  {
    hide LeafOk, Has, Sum, Pos;
    LeafUsable(s0, root, p);
    assert SetOf(Blocks(p.t)) == {p.t.blk};
    assert s0.free - s.free == {};
  }

  lemma LeafSplitOutcome(s0: Snap, s: Snap, root: nat, p: Place, r: Rec,
                         bsi: SplitInfo, nblk: nat, left: seq<Rec>, right: seq<Rec>)
    requires Ready(s0, root, p) && p.t.Leaf? && Carry(p.t, r, p.isRoot).Some?
    requires LeafOk(Ins(p.t.recs, r), p.lo, p.hi) && !Has(p.t.recs, r.key.rank)
    requires TookBlock(s0, s, nblk) && IsSplit(s0, s.blocks, p.t.blk, r, bsi, nblk, left, right)
    ensures Outcome(s0, s, root, p, r, Ok, bsi, Leaf(p.t.blk, left), Leaf(nblk, right))
  {
    hide LeafOk, Shape, Stored, TwoInPlace, Outcome, Carry, Demand, TwoTrees, IsSplit, Has, Ins;
    LeafUsable(s0, root, p);
    LeafDemand(s0, s.blocks, p, r, bsi, nblk, left, right);
    TookOne(s0, s, root, nblk);
    LeafBlocks(p.t);
    LeafSplitTrees(s0, s, root, p, r, bsi, nblk, left, right);
    SplitOutcome(s0, s, root, p, r, bsi, Leaf(p.t.blk, left), Leaf(nblk, right));
  }

  /** A leaf that splits takes one block and hands up the right half's first key. */
  lemma LeafDemand(s0: Snap, blocks: map<nat, Node>, p: Place, r: Rec, bsi: SplitInfo, nblk: nat, left: seq<Rec>, right: seq<Rec>)
    requires p.t.Leaf? && Carry(p.t, r, p.isRoot).Some? && p.t.blk in s0.blocks && s0.blocks[p.t.blk].recs == p.t.recs
    requires IsSplit(s0, blocks, p.t.blk, r, bsi, nblk, left, right)
    ensures bsi.Split? && Carry(p.t, r, p.isRoot) == Some(bsi.key) && Demand(p.t, r, p.isRoot) == 1
    ensures Recs(p.t) == p.t.recs && p.t.blk != nblk && SameOutside(s0.blocks, blocks, {p.t.blk, nblk})
  {
    hide Sum, NodeIs, Halves, SeparatorKey;
  }

  lemma LeafSplitTrees(s0: Snap, s: Snap, root: nat, p: Place, r: Rec,
                       bsi: SplitInfo, nblk: nat, left: seq<Rec>, right: seq<Rec>)
    requires Ready(s0, root, p) && p.t.Leaf? && LeafOk(Ins(p.t.recs, r), p.lo, p.hi)
    requires TookBlock(s0, s, nblk) && IsSplit(s0, s.blocks, p.t.blk, r, bsi, nblk, left, right)
    ensures root in s.infos && TwoTrees(s0, s, root, p, r, bsi, Leaf(p.t.blk, left), Leaf(nblk, right))
  {
    hide LeafOk, TwoInPlace, Carry, Demand, IsSplit, Ins, Has, Sum, Capacity;
    LeafUsable(s0, root, p);
    TookOne(s0, s, root, nblk);
    LeafHalves(s0, s.blocks, p.t, p.isRoot, r, bsi, nblk, left, right);
    LeafDivided(left, right, p.lo, p.hi, p.t.blk, nblk);
  }

  lemma LeafHalves(s0: Snap, blocks: map<nat, Node>, t: Tree, isRoot: bool, r: Rec,
                   bsi: SplitInfo, nblk: nat, left: seq<Rec>, right: seq<Rec>)
    requires t.Leaf? && t.blk in s0.blocks && s0.blocks[t.blk] == Node(true, isRoot, 0, t.recs, Capacity(true, isRoot) - Sum(t.recs))
    requires IsSplit(s0, blocks, t.blk, r, bsi, nblk, left, right)
    ensures left + right == Ins(t.recs, r) && left != [] && right != [] && t.blk != nblk
    ensures bsi.Split? && bsi.key == right[0].key && bsi.ptr == nblk && (isRoot ==> t.blk in s0.infos && bsi.nnodes == s0.infos[t.blk])
    ensures NodeIs(blocks, t.blk, true, false, 0, left) && NodeIs(blocks, nblk, true, false, 0, right)
    ensures SameOutside(s0.blocks, blocks, {t.blk, nblk})
  {
    hide Ins, Sum, Capacity, NodeIs, SameOutside;
  }

  // An index node: `p.t` with child `j`, which the key is routed to

  ghost function KidPlace(p: Place, j: nat, kid: Tree): Place
    requires p.t.Index? && j <= |p.t.seps| && p.level > 0
  {
    Place(kid, p.level - 1, LoOf(p.t.seps, p.lo, j), HiOf(p.t.seps, p.hi, j), false)
  }

  /** The search has gone down to child `kid`: the child there was, or a new empty leaf in the place of a
      zero pointer. */
  ghost predicate Descended(s0: Snap, s: Snap, root: nat, p: Place, j: nat, kid: Tree) {
    && p.t.Index? && p.level > 0 && j < |p.t.kids| == |p.t.seps| + 1
    && Confined(s0, s, root, p.t) && RootHere(s, root)
    && Around(s.blocks, p.t, p.isRoot, j, kid) && Stored(s.blocks, kid, false) && !kid.Nil?
    && (if p.t.kids[j].Nil? then
          && kid == Leaf(kid.blk, []) && p.level == 1
          && kid.blk in s0.free && s.free == s0.free - {kid.blk} && s.infos[root] == s0.infos[root] + 1
        else kid == p.t.kids[j] && s == s0)
  }

  /** A new leaf is a place to insert into. */
  lemma NewLeafReady(s0: Snap, s: Snap, root: nat, p: Place, j: nat, kid: Tree)
    requires Ready(s0, root, p) && Descended(s0, s, root, p, j, kid) && p.t.kids[j].Nil?
    ensures Ready(s, root, KidPlace(p, j, kid))
  {
    assert Blocks(kid) == multiset{kid.blk};
    assert SetOf(Blocks(kid)) == {kid.blk};
  }

  lemma KidShaped(t: Tree, level: nat, lo: Option<int>, hi: Option<int>, j: nat)
    requires Shape(t, level, lo, hi) && t.Index? && j < |t.kids| && !t.kids[j].Nil?
    ensures level > 0 && Shape(t.kids[j], level - 1, LoOf(t.seps, lo, j), HiOf(t.seps, hi, j))
  {
    assert KidFits(t, level, lo, hi, j);
  }

  lemma OldKidReady(s0: Snap, s: Snap, root: nat, p: Place, j: nat)
    requires Ready(s0, root, p) && p.t.Index? && j < |p.t.kids| && !p.t.kids[j].Nil?
    requires Descended(s0, s, root, p, j, p.t.kids[j])
    ensures Ready(s, root, KidPlace(p, j, p.t.kids[j]))
  {
    hide Shape, Stored, Around, Confined, Blocks;
    var kid := p.t.kids[j];
    KidUnique(p.t, j);
    KidShaped(p.t, p.level, p.lo, p.hi, j);
    forall b | b in SetOf(Blocks(kid)) ensures b !in s.free {
      assert b in SetOf(Blocks(p.t));
    }
    if p.isRoot && root in Blocks(kid) {
      KidApart(p.t, j, root);
    }
  }

  /** The child, old or new, is a place to insert into. */
  lemma KidReady(s0: Snap, s: Snap, root: nat, p: Place, j: nat, kid: Tree, k: int)
    requires Ready(s0, root, p) && Descended(s0, s, root, p, j, kid) && InRange(p, k) && j == Route(p.t.seps, k)
    ensures Ready(s, root, KidPlace(p, j, kid)) && InRange(KidPlace(p, j, kid), k)
  {
    Locate(p.t, p.level, p.lo, p.hi, k);
    if p.t.kids[j].Nil? {
      NewLeafReady(s0, s, root, p, j, kid);
    } else {
      OldKidReady(s0, s, root, p, j);
    }
  }

  /** The block of a tree is in use, and no child but a missing one has block number 0. */
  lemma NodeInUse(s: Snap, root: nat, p: Place)
    requires Ready(s, root, p)
    ensures !p.t.Nil? && p.t.blk in s.blocks && p.t.blk !in s.free && RootStored(s.blocks, p.t, p.isRoot)
    ensures s.blocks[p.t.blk].isLeaf <==> p.t.Leaf?
  {
    assert p.t.blk in Blocks(p.t);
    assert p.t.blk in SetOf(Blocks(p.t));
  }

  /** No block for a missing leaf. */
  lemma NoLeafOutcome(s: Snap, root: nat, p: Place, r: Rec)
    requires Ready(s, root, p) && p.t.Index? && s.free == {}
    requires Route(p.t.seps, r.key.rank) < |p.t.kids| && p.t.kids[Route(p.t.seps, r.key.rank)].Nil?
    ensures Outcome(s, s, root, p, r, ENOSPC, NoSplit, p.t, Nil)
  {
  }

  lemma ZeroMeansNil(s: Snap, root: nat, p: Place, j: nat)
    requires Ready(s, root, p) && p.t.Index? && j < |p.t.kids|
    ensures RootStored(s.blocks, p.t, p.isRoot) && (BlkOf(p.t.kids[j]) == 0 <==> p.t.kids[j].Nil?)
  {
    KidUnique(p.t, j);
    assert !p.t.kids[j].Nil? ==> p.t.kids[j].blk in Blocks(p.t.kids[j]);
  }

  lemma OldKidDescended(s: Snap, root: nat, p: Place, j: nat)
    requires Ready(s, root, p) && p.t.Index? && j < |p.t.kids| && !p.t.kids[j].Nil?
    ensures Descended(s, s, root, p, j, p.t.kids[j])
  {
    StoredAround(s.blocks, p.t, p.isRoot, j);
  }

  /** A fresh leaf has been allocated. */
  ghost predicate LeafAllocated(s0: Snap, s: Snap, child: nat) {
    && child in s0.free && s.free == s0.free - {child}
    && s.blocks == s0.blocks[child := FreshNode(true, false)] && s.infos == s0.infos[child := 0]
  }

  lemma AllocationKeepsNode(s0: Snap, s: Snap, root: nat, p: Place, child: nat)
    requires Ready(s0, root, p) && LeafAllocated(s0, s, child)
    ensures RootStored(s.blocks, p.t, p.isRoot) && child != p.t.blk && child != root
    ensures root in s.infos && s.infos[root] == s0.infos[root]
    ensures SameOutside(s0.blocks, s.blocks, {p.t.blk, child})
  {
    NodeInUse(s0, root, p);
  }

  /** Blocks apart from the two that are written stay the same. */
  lemma PartSame(before: map<nat, Node>, after: map<nat, Node>, part: multiset<nat>, whole: multiset<nat>, b: nat, c: nat)
    requires SameOutside(before, after, {b, c}) && part <= whole && b !in part && c !in whole
    ensures SameOn(before, after, part)
  {
    forall x | x in part ensures x != b && x != c {
      assert part[x] <= whole[x];
    }
  }

  lemma FreeIsApart(s: Snap, t: Tree, b: nat)
    requires InUse(s, t) && b in s.free
    ensures b !in Blocks(t)
  {
    hide Blocks;
    assert b in Blocks(t) ==> b in SetOf(Blocks(t));
  }

  lemma OtherKidsStored(s0: Snap, after: map<nat, Node>, root: nat, p: Place, j: nat, child: nat)
    requires Ready(s0, root, p) && p.t.Index? && j < |p.t.kids| && child in s0.free
    requires SameOutside(s0.blocks, after, {p.t.blk, child})
    ensures StoredAll(after, p.t.kids[..j]) && StoredAll(after, p.t.kids[j + 1..])
  {
    hide Blocks, BlocksAll, Stored, StoredAll, SameOutside;
    StoredAround(s0.blocks, p.t, p.isRoot, j);
    KidUnique(p.t, j);
    NodeApart(p.t, j);
    FreeIsApart(s0, p.t, child);
    PartSame(s0.blocks, after, BlocksAll(p.t.kids[..j]), Blocks(p.t), p.t.blk, child);
    PartSame(s0.blocks, after, BlocksAll(p.t.kids[j + 1..]), Blocks(p.t), p.t.blk, child);
    StoredAllFrame(s0.blocks, after, p.t.kids[..j]);
    StoredAllFrame(s0.blocks, after, p.t.kids[j + 1..]);
  }

  lemma NewLeafDescended(s0: Snap, s: Snap, root: nat, p: Place, j: nat, child: nat)
    requires Ready(s0, root, p) && p.t.Index? && j < |p.t.kids| && p.t.kids[j].Nil? && p.level == 1
    requires child in s0.free && s.free == s0.free - {child}
    requires RootStored(s.blocks, WithKid(p.t, j, Leaf(child, [])), p.isRoot)
    requires child in s.blocks && s.blocks[child] == FreshNode(true, false)
    requires SameOutside(s0.blocks, s.blocks, {p.t.blk, child})
    requires root in s.infos && s.infos[root] == s0.infos[root] + 1
    ensures Descended(s0, s, root, p, j, Leaf(child, []))
  {
    NodeInUse(s0, root, p);
    assert p.t.blk in SetOf(Blocks(p.t));
    OtherKidsStored(s0, s.blocks, root, p, j, child);
  }

  lemma FreeChain(a: set<nat>, b: set<nat>, c: set<nat>)
    requires c <= b <= a
    ensures multiset(a - b) + multiset(b - c) == multiset(a - c)
  {
  }

  lemma KidTouched(s0: Snap, s1: Snap, root: nat, p: Place, j: nat, kid: Tree)
    requires Ready(s0, root, p) && Descended(s0, s1, root, p, j, kid)
    ensures var touched := SetOf(Blocks(kid)) + s1.free;
      && touched <= SetOf(Blocks(p.t)) + s0.free
      && forall b <- touched :: b in Blocks(p.t) ==> b in Blocks(p.t.kids[j])
  {
    KidUnique(p.t, j);
    forall b | b in SetOf(Blocks(kid)) + s1.free && b in Blocks(p.t) ensures b in Blocks(p.t.kids[j]) {
      assert b in SetOf(Blocks(p.t));
    }
  }

  /** What happens below the child stays inside the tree, and leaves the rest of the node as it was. */
  lemma KidConfined(s0: Snap, s1: Snap, s2: Snap, root: nat, p: Place, j: nat, kid: Tree)
    requires Ready(s0, root, p) && Descended(s0, s1, root, p, j, kid) && Confined(s1, s2, root, kid)
    ensures Confined(s0, s2, root, p.t) && Around(s2.blocks, p.t, p.isRoot, j, kid)
  {
    var touched := SetOf(Blocks(kid)) + s1.free;
    KidTouched(s0, s1, root, p, j, kid);
    AroundFrame(s1.blocks, s2.blocks, p.t, p.isRoot, j, kid, touched);
  }

  /** The blocks of the tree after its child took blocks on the way down and below. */
  lemma KidBlocks(s0: Snap, s1: Snap, s2: Snap, root: nat, p: Place, j: nat, kid: Tree, below: multiset<nat>)
    requires Ready(s0, root, p) && Descended(s0, s1, root, p, j, kid) && s2.free <= s1.free
    requires below == Blocks(kid) + multiset(s1.free - s2.free)
    ensures below == Blocks(p.t.kids[j]) + multiset(s0.free - s2.free)
  {
    FreeChain(s0.free, s1.free, s2.free);
    if p.t.kids[j].Nil? {
      assert s0.free - s1.free == {kid.blk};
    } else {
      assert s0.free - s1.free == {};
    }
  }

  lemma DescentTaken(s0: Snap, s1: Snap, root: nat, p: Place, j: nat, kid: Tree)
    requires Descended(s0, s1, root, p, j, kid)
    ensures Taken(s0, s1) == if p.t.kids[j].Nil? then 1 else 0
    ensures s1.infos[root] == s0.infos[root] + Taken(s0, s1)
  {
    if p.t.kids[j].Nil? {
      assert |s0.free| == |s0.free - {kid.blk}| + 1;
    }
  }

  /** A new leaf has room for any record within the limits. */
  lemma EmptyLeafFits(blk: nat, r: Rec)
    requires SizeOk(r)
    ensures Demand(Leaf(blk, []), r, false) == 0 && !Has([], r.key.rank)
  {
  }

  lemma DuplicateDemand(p: Place, r: Rec, j: nat)
    requires p.t.Index? && j == Route(p.t.seps, r.key.rank) && j < |p.t.kids|
    ensures Demand(p.t, r, p.isRoot) == 0 <==> Demand(p.t.kids[j], r, false) == 0
  {
  }

  /** A duplicate found below the child leaves the tree as it was. */
  lemma KidDuplicate(s0: Snap, s2: Snap, root: nat, p: Place, r: Rec, j: nat, bsi: SplitInfo, k1: Tree, k2: Tree)
    requires Ready(s0, root, p) && InRange(p, r.key.rank) && p.t.Index? && j == Route(p.t.seps, r.key.rank)
    requires Descended(s0, s0, root, p, j, p.t.kids[j])
    requires Outcome(s0, s2, root, KidPlace(p, j, p.t.kids[j]), r, EEXIST, bsi, k1, k2)
    ensures Outcome(s0, s2, root, p, r, EEXIST, NoSplit, p.t, Nil)
  {
    hide Shape, Stored, Around, Recs, Has, Demand;
    DuplicateDemand(p, r, j);
    KidConfined(s0, s0, s2, root, p, j, p.t.kids[j]);
    AroundStored(s2.blocks, p.t, p.isRoot, j, p.t.kids[j]);
    assert WithKid(p.t, j, p.t.kids[j]) == p.t;
    SearchInKid(p.t, p.level, p.lo, p.hi, r.key.rank);
  }

  /** A run that stops below the child stops. */
  lemma KidAborted(s0: Snap, s2: Snap, root: nat, p: Place, r: Rec, j: nat, bsi: SplitInfo, k1: Tree, k2: Tree)
    requires Ready(s0, root, p) && InRange(p, r.key.rank) && p.t.Index? && j == Route(p.t.seps, r.key.rank)
    requires j <= |p.t.seps| && p.level > 0
    requires Outcome(s0, s2, root, KidPlace(p, j, p.t.kids[j]), r, Aborted, bsi, k1, k2)
    ensures Outcome(s0, s2, root, p, r, Aborted, NoSplit, p.t, Nil)
  {
    SearchInKid(p.t, p.level, p.lo, p.hi, r.key.rank);
  }

  /** If the child reports an error, the tree is what it was. */
  lemma KidFailed(s0: Snap, s1: Snap, s2: Snap, root: nat, p: Place, r: Rec, j: nat, kid: Tree,
                  err: Err, bsi: SplitInfo, k1: Tree, k2: Tree)
    requires Ready(s0, root, p) && InRange(p, r.key.rank) && SizeOk(r) && Descended(s0, s1, root, p, j, kid)
    requires j == Route(p.t.seps, r.key.rank)
    requires Outcome(s1, s2, root, KidPlace(p, j, kid), r, err, bsi, k1, k2) && err != Ok
    ensures Outcome(s0, s2, root, p, r, err, NoSplit, p.t, Nil)
  {
    if p.t.kids[j].Nil? {
      DescentTaken(s0, s1, root, p, j, kid);
      EmptyLeafFits(kid.blk, r);
    } else if err == EEXIST {
      KidDuplicate(s0, s2, root, p, r, j, bsi, k1, k2);
    } else if err == Aborted {
      KidAborted(s0, s2, root, p, r, j, bsi, k1, k2);
    }
  }

  /** The child took the record without a split. */
  lemma KidGrew(s0: Snap, s1: Snap, s2: Snap, root: nat, p: Place, r: Rec, j: nat, kid: Tree, k1: Tree, k2: Tree)
    requires Ready(s0, root, p) && InRange(p, r.key.rank) && Descended(s0, s1, root, p, j, kid)
    requires j == Route(p.t.seps, r.key.rank)
    requires Outcome(s1, s2, root, KidPlace(p, j, kid), r, Ok, NoSplit, k1, k2)
    ensures Outcome(s0, s2, root, p, r, Ok, NoSplit, WithKid(p.t, j, k1), Nil)
  {
    hide Outcome, Demand, Carry, Around, Stored, Recs, Blocks, Ins, Has;
    KidGrewDemand(s0, s1, s2, root, p, r, j, kid, k1, k2);
    GrownFacts(s1, s2, root, KidPlace(p, j, kid), r, k1, k2);
    KidConfined(s0, s1, s2, root, p, j, kid);
    AroundSameBlock(s2.blocks, p.t, p.isRoot, j, kid, k1);
    AroundStored(s2.blocks, p.t, p.isRoot, j, k1);
    KidReplaced(p.t, p.level, p.lo, p.hi, j, k1);
    KidGrewContents(s0, s1, s2, root, p, r, j, kid, k1);
    KidRecordAdded(s0, s1, root, p, r, j, kid, k1);
    GrownOutcome(s0, s2, root, p, r, WithKid(p.t, j, k1));
  }

  lemma KidRecordAdded(s0: Snap, s1: Snap, root: nat, p: Place, r: Rec, j: nat, kid: Tree, k1: Tree)
    requires Descended(s0, s1, root, p, j, kid) && j == Route(p.t.seps, r.key.rank)
    requires Demand(kid, r, false) == 0 ==> k1 == WithRecord(kid, r)
    ensures Demand(p.t, r, p.isRoot) == 0 ==> WithKid(p.t, j, k1) == WithRecord(p.t, r)
  {
    hide Stored, Around, Carry, Ins;
    assert Demand(p.t, r, p.isRoot) >= Demand(p.t.kids[j], r, false);
    if p.t.kids[j].Nil? {
      assert Demand(p.t.kids[j], r, false) >= 1;
    } else {
      assert WithRecord(p.t, r) == WithKid(p.t, j, WithRecord(kid, r));
    }
  }

  lemma GrownFacts(s0: Snap, s: Snap, root: nat, p: Place, r: Rec, t1: Tree, t2: Tree)
    requires Outcome(s0, s, root, p, r, Ok, NoSplit, t1, t2)
    ensures Confined(s0, s, root, p.t) && OneTree(s0, s, root, p, r, t1) && !Has(Recs(p.t), r.key.rank)
  {
  }

  lemma GrownOutcome(s0: Snap, s: Snap, root: nat, p: Place, r: Rec, t1: Tree)
    requires Confined(s0, s, root, p.t) && !Has(Recs(p.t), r.key.rank) && Taken(s0, s) == Demand(p.t, r, p.isRoot)
    requires Carry(p.t, r, p.isRoot) == None && OneTree(s0, s, root, p, r, t1)
    ensures Outcome(s0, s, root, p, r, Ok, NoSplit, t1, Nil)
  {
  }

  lemma KidGrewDemand(s0: Snap, s1: Snap, s2: Snap, root: nat, p: Place, r: Rec, j: nat, kid: Tree, k1: Tree, k2: Tree)
    requires Descended(s0, s1, root, p, j, kid) && j == Route(p.t.seps, r.key.rank)
    requires Outcome(s1, s2, root, KidPlace(p, j, kid), r, Ok, NoSplit, k1, k2)
    ensures Taken(s0, s2) == Demand(p.t, r, p.isRoot) && Carry(p.t, r, p.isRoot) == None
    ensures root in s0.infos && root in s2.infos && s2.infos[root] == s0.infos[root] + Taken(s0, s2)
  {
    hide Stored, Around, Shape, InPlace;
    DescentTaken(s0, s1, root, p, j, kid);
  }

  /** Changing the records of the routed child changes the records of the tree in the same way. */
  lemma KidRecs(p: Place, r: Rec, j: nat)
    requires Shape(p.t, p.level, p.lo, p.hi) && p.t.Index? && InRange(p, r.key.rank) && j == Route(p.t.seps, r.key.rank)
    ensures var a, m, b := RecsAll(p.t.kids[..j]), Recs(p.t.kids[j]), RecsAll(p.t.kids[j + 1..]);
      && (Has(Recs(p.t), r.key.rank) <==> Has(m, r.key.rank))
      && Ins(Recs(p.t), r) == a + Ins(m, r) + b
      && Del(Recs(p.t), r.key.rank) == a + Del(m, r.key.rank) + b
  {
    var a, m, b := RecsAll(p.t.kids[..j]), Recs(p.t.kids[j]), RecsAll(p.t.kids[j + 1..]);
    Locate(p.t, p.level, p.lo, p.hi, r.key.rank);
    SplitAtKid(p.t.kids, j);
    PosMiddle(a, m, b, r.key.rank);
    InsMiddle(a, m, b, r);
    DelMiddle(a, m, b, r.key.rank);
  }

  lemma DescendedRecs(s0: Snap, s1: Snap, root: nat, p: Place, j: nat, kid: Tree)
    requires Descended(s0, s1, root, p, j, kid)
    ensures Recs(kid) == Recs(p.t.kids[j])
  {
  }

  lemma KidGrewContents(s0: Snap, s1: Snap, s2: Snap, root: nat, p: Place, r: Rec, j: nat, kid: Tree, k1: Tree)
    requires Ready(s0, root, p) && InRange(p, r.key.rank) && Descended(s0, s1, root, p, j, kid)
    requires j == Route(p.t.seps, r.key.rank) && s2.free <= s1.free
    requires Recs(k1) == Ins(Recs(kid), r) && Blocks(k1) == Blocks(kid) + multiset(s1.free - s2.free)
    requires !Has(Recs(kid), r.key.rank)
    ensures Recs(WithKid(p.t, j, k1)) == Ins(Recs(p.t), r) && !Has(Recs(p.t), r.key.rank)
    ensures Blocks(WithKid(p.t, j, k1)) == Blocks(p.t) + multiset(s0.free - s2.free)
  {
    hide Confined, Stored, Around, Shape, Ins, Has, Recs, Blocks;
    DescendedRecs(s0, s1, root, p, j, kid);
    KidBlocks(s0, s1, s2, root, p, j, kid, Blocks(k1));
    KidInsContents(p, r, j, k1, multiset(s0.free - s2.free));
  }

  lemma KidInsContents(p: Place, r: Rec, j: nat, k1: Tree, more: multiset<nat>)
    requires Shape(p.t, p.level, p.lo, p.hi) && p.t.Index? && InRange(p, r.key.rank) && j == Route(p.t.seps, r.key.rank)
    requires j < |p.t.kids| && Recs(k1) == Ins(Recs(p.t.kids[j]), r) && Blocks(k1) == Blocks(p.t.kids[j]) + more
    ensures Has(Recs(p.t), r.key.rank) <==> Has(Recs(p.t.kids[j]), r.key.rank)
    ensures Recs(WithKid(p.t, j, k1)) == Ins(Recs(p.t), r) && Blocks(WithKid(p.t, j, k1)) == Blocks(p.t) + more
  {
    hide Ins, Has, Shape;
    KidRecs(p, r, j);
    KidReplacedContents(p.t, j, k1);
    SplitAtKid(p.t.kids, j);
  }

  // The child has split

  /** The child the key is routed to has split in two; its parent has not changed yet. */
  ghost predicate KidIsSplit(s0: Snap, s2: Snap, root: nat, p: Place, r: Rec, j: nat, bsi: SplitInfo, k1: Tree, k2: Tree) {
    && Ready(s0, root, p) && InRange(p, r.key.rank) && p.t.Index? && j == Route(p.t.seps, r.key.rank)
    && Descended(s0, s0, root, p, j, p.t.kids[j])
    && bsi.Split? && Outcome(s0, s2, root, KidPlace(p, j, p.t.kids[j]), r, Ok, bsi, k1, k2)
  }

  lemma SplitHere(s0: Snap, s2: Snap, root: nat, p: Place, r: Rec, j: nat, bsi: SplitInfo, k1: Tree, k2: Tree)
    requires KidIsSplit(s0, s2, root, p, r, j, bsi, k1, k2)
    ensures bsi.Split?
  {
  }

  /** Only a child that was there can split. */
  lemma SplitKidIsOld(s0: Snap, s1: Snap, s2: Snap, root: nat, p: Place, r: Rec, j: nat, kid: Tree,
                      bsi: SplitInfo, k1: Tree, k2: Tree)
    requires Ready(s0, root, p) && InRange(p, r.key.rank) && SizeOk(r) && Descended(s0, s1, root, p, j, kid)
    requires j == Route(p.t.seps, r.key.rank) && bsi.Split?
    requires Outcome(s1, s2, root, KidPlace(p, j, kid), r, Ok, bsi, k1, k2)
    ensures KidIsSplit(s0, s2, root, p, r, j, bsi, k1, k2)
  {
    if p.t.kids[j].Nil? {
      EmptyLeafFits(kid.blk, r);
    }
  }

  /** The parent is a node the node operations accept. */
  lemma ParentUsable(s0: Snap, s2: Snap, root: nat, p: Place, r: Rec, j: nat, bsi: SplitInfo, k1: Tree, k2: Tree)
    requires KidIsSplit(s0, s2, root, p, r, j, bsi, k1, k2)
    ensures |p.t.kids| == |p.t.seps| + 1 && p.t.blk !in s2.free
    ensures var recs := IndexRecs(p.t.seps, p.t.kids);
      && NodeIs(s2.blocks, p.t.blk, false, p.isRoot, BlkOf(p.t.kids[0]), recs)
      && Sorted(recs) && recs != [] && (forall x <- recs :: RecSize(x) <= SIZE_LIMIT)
  {
    KidConfined(s0, s0, s2, root, p, j, p.t.kids[j]);
    assert p.t.kids[j := p.t.kids[j]] == p.t.kids;
    IndexRecsOk(p.t.seps, p.t.kids, p.lo, p.hi);
    assert p.t.blk in SetOf(Blocks(p.t));
  }

  /** The new separator is not in the parent yet, and goes right after the child. */
  lemma SeparatorIsNew(s0: Snap, s2: Snap, root: nat, p: Place, r: Rec, j: nat, bsi: SplitInfo, k1: Tree, k2: Tree)
    requires KidIsSplit(s0, s2, root, p, r, j, bsi, k1, k2)
    ensures RecSize(IndexRec(bsi.key, bsi.ptr)) <= SIZE_LIMIT
    ensures var recs, u := IndexRecs(p.t.seps, p.t.kids), WithTwoKids(p.t, j, k1, bsi.key, k2);
      && !Has(recs, bsi.key.rank)
      && BlkOf(u.kids[0]) == BlkOf(p.t.kids[0]) && Ins(recs, IndexRec(bsi.key, bsi.ptr)) == IndexRecs(u.seps, u.kids)
  {
    assert p.t.kids[j := p.t.kids[j]] == p.t.kids;
    InsertSeparator(p.t, j, p.t.kids[j], k1, bsi.key, k2);
  }

  /** The parent's block and the free blocks lie outside the children. */
  lemma KidsApart(s0: Snap, s2: Snap, root: nat, p: Place, r: Rec, j: nat, bsi: SplitInfo, k1: Tree, k2: Tree, b: nat)
    requires KidIsSplit(s0, s2, root, p, r, j, bsi, k1, k2) && (b == p.t.blk || b in s2.free)
    ensures b !in Blocks(k1) && b !in Blocks(k2)
    ensures b !in BlocksAll(p.t.kids[..j]) && b !in BlocksAll(p.t.kids[j + 1..])
  {
    SplitAtKid(p.t.kids, j);
    assert p.t.blk in SetOf(Blocks(p.t));
    assert Blocks(p.t)[b] <= 1;
    assert b in SetOf(Blocks(p.t)) <==> b in Blocks(p.t);
    assert (Blocks(k1) + Blocks(k2))[b] == Blocks(p.t.kids[j])[b] + multiset(s0.free - s2.free)[b];
  }

  /** The two children and their neighbours stay stored while the parent changes. */
  lemma KidsStayStored(s0: Snap, s2: Snap, root: nat, p: Place, r: Rec, j: nat, bsi: SplitInfo, k1: Tree, k2: Tree,
                       after: map<nat, Node>, touched: set<nat>)
    requires KidIsSplit(s0, s2, root, p, r, j, bsi, k1, k2)
    requires SameOutside(s2.blocks, after, touched) && touched <= {p.t.blk} + s2.free
    ensures StoredAll(after, WithTwoKids(p.t, j, k1, bsi.key, k2).kids)
  {
    KidConfined(s0, s0, s2, root, p, j, p.t.kids[j]);
    forall b | b in touched
      ensures b !in Blocks(k1) && b !in Blocks(k2)
      ensures b !in BlocksAll(p.t.kids[..j]) && b !in BlocksAll(p.t.kids[j + 1..])
    {
      KidsApart(s0, s2, root, p, r, j, bsi, k1, k2, b);
    }
    StoredFrame(s2.blocks, after, k1, false);
    StoredFrame(s2.blocks, after, k2, false);
    StoredAllFrame(s2.blocks, after, p.t.kids[..j]);
    StoredAllFrame(s2.blocks, after, p.t.kids[j + 1..]);
    TwoKidsStored(after, p.t, p.isRoot, j, k1, bsi.key, k2);
  }

  /** The tree with both children, before the question whether the parent has room for the separator. */
  lemma WithBothKids(s0: Snap, s2: Snap, root: nat, p: Place, r: Rec, j: nat, bsi: SplitInfo, k1: Tree, k2: Tree)
    requires KidIsSplit(s0, s2, root, p, r, j, bsi, k1, k2)
    ensures var u := WithTwoKids(p.t, j, k1, bsi.key, k2);
      && Shape(u, p.level, p.lo, p.hi) && Recs(u) == Ins(Recs(p.t), r) && !Has(Recs(p.t), r.key.rank)
      && Blocks(u) == Blocks(p.t) + multiset(s0.free - s2.free)
  {
    hide KidIsSplit, Shape, TwoInPlace, Ins, Has;
    SplitKidFacts(s0, s2, root, p, r, j, bsi, k1, k2);
    KidSplit(p.t, p.level, p.lo, p.hi, j, k1, bsi.key, k2);
    BothKidsContents(p, r, j, k1, bsi.key, k2, multiset(s0.free - s2.free));
  }

  /** What the split of a child says about its two halves. */
  lemma SplitKidFacts(s0: Snap, s2: Snap, root: nat, p: Place, r: Rec, j: nat, bsi: SplitInfo, k1: Tree, k2: Tree)
    requires KidIsSplit(s0, s2, root, p, r, j, bsi, k1, k2)
    ensures p.t.Index? && j == Route(p.t.seps, r.key.rank) && j < |p.t.kids| && InRange(p, r.key.rank)
    ensures bsi.Split? && p.level > 0 && Shape(p.t, p.level, p.lo, p.hi) && |p.t.kids| == |p.t.seps| + 1
    ensures TwoInPlace(k1, bsi.key, k2, p.level - 1, LoOf(p.t.seps, p.lo, j), HiOf(p.t.seps, p.hi, j))
    ensures Recs(k1) + Recs(k2) == Ins(Recs(p.t.kids[j]), r) && !Has(Recs(p.t.kids[j]), r.key.rank)
    ensures Blocks(k1) + Blocks(k2) == Blocks(p.t.kids[j]) + multiset(s0.free - s2.free)
    ensures j == 0 ==> Above(p.lo, bsi.key.rank)
  {
    hide Shape, Stored, Around, Recs, Blocks, Ins, Has, Demand, Carry, Confined;
  }

  lemma BothKidsContents(p: Place, r: Rec, j: nat, k1: Tree, k: Key, k2: Tree, more: multiset<nat>)
    requires Shape(p.t, p.level, p.lo, p.hi) && p.t.Index? && InRange(p, r.key.rank) && j == Route(p.t.seps, r.key.rank)
    requires Recs(k1) + Recs(k2) == Ins(Recs(p.t.kids[j]), r) && !Has(Recs(p.t.kids[j]), r.key.rank)
    requires Blocks(k1) + Blocks(k2) == Blocks(p.t.kids[j]) + more
    ensures var u := WithTwoKids(p.t, j, k1, k, k2);
      Recs(u) == Ins(Recs(p.t), r) && !Has(Recs(p.t), r.key.rank) && Blocks(u) == Blocks(p.t) + more
  {
    hide Ins, Has;
    KidSplitContents(p.t, j, k1, k, k2);
    KidRecs(p, r, j);
    SplitAtKid(p.t.kids, j);
  }

  /** The node count goes up by the child's new node, before the parent is changed. */
  ghost function Counted(s: Snap, root: nat): Snap
    requires root in s.infos
  {
    s.(infos := s.infos[root := s.infos[root] + 1])
  }

  /** The parent's insertion of the separator, with everything it starts from. */
  ghost predicate SeparatorInserted(s0: Snap, s2: Snap, s4: Snap, root: nat, p: Place, r: Rec, j: nat, bsi: SplitInfo, k1: Tree, k2: Tree,
                                    err: Err, bsi2: SplitInfo, nblk: nat, left: seq<Rec>, right: seq<Rec>)
  {
    && KidIsSplit(s0, s2, root, p, r, j, bsi, k1, k2) && root in s2.infos && p.t.blk in s2.blocks
    && NodeOutcome(Counted(s2, root), s4, p.t.blk, IndexRec(bsi.key, bsi.ptr), err, bsi2, nblk, left, right)
  }

  lemma SplitKidConfined(s0: Snap, s2: Snap, s4: Snap, root: nat, p: Place, r: Rec, j: nat, bsi: SplitInfo, k1: Tree, k2: Tree,
                         touched: set<nat>)
    requires KidIsSplit(s0, s2, root, p, r, j, bsi, k1, k2)
    requires s4.free <= s2.free && root in s4.infos
    requires SameOutside(s2.blocks, s4.blocks, touched) && touched <= {p.t.blk} + s2.free
    ensures Confined(s0, s4, root, p.t)
  {
    KidConfined(s0, s0, s2, root, p, j, p.t.kids[j]);
    assert p.t.blk in SetOf(Blocks(p.t));
  }

  /** The separator splits the parent if there is no room for it, and the parent's separator is the one
      handed on. */
  lemma ParentDemand(s0: Snap, s2: Snap, root: nat, p: Place, r: Rec, j: nat, bsi: SplitInfo, k1: Tree, k2: Tree)
    requires KidIsSplit(s0, s2, root, p, r, j, bsi, k1, k2)
    ensures Carry(p.t, r, p.isRoot) == CarryOn(IndexRecs(p.t.seps, p.t.kids), bsi.key, p.isRoot)
    ensures Demand(p.t, r, p.isRoot) == Taken(s0, s2) + (if Carry(p.t, r, p.isRoot).Some? then 1 else 0)
    ensures Taken(s0, s2) > 0
  {
  }

  /** The parent's node and its use of blocks when the separator is inserted. */
  lemma ParentRoom(s0: Snap, s2: Snap, root: nat, p: Place, r: Rec, j: nat, bsi: SplitInfo, k1: Tree, k2: Tree)
    requires KidIsSplit(s0, s2, root, p, r, j, bsi, k1, k2)
    ensures p.t.blk in s2.blocks
    ensures Demand(p.t, r, p.isRoot) ==
      Taken(s0, s2) + (if RecSize(IndexRec(bsi.key, bsi.ptr)) <= s2.blocks[p.t.blk].freespace then 0 else 1)
    ensures Carry(p.t, r, p.isRoot) ==
      if RecSize(IndexRec(bsi.key, bsi.ptr)) <= s2.blocks[p.t.blk].freespace then None
      else Some(SeparatorKey(s2.blocks[p.t.blk].recs, IndexRec(bsi.key, bsi.ptr)))
  {
    ParentUsable(s0, s2, root, p, r, j, bsi, k1, k2);
    ParentDemand(s0, s2, root, p, r, j, bsi, k1, k2);
    SeparatorOfKey(IndexRecs(p.t.seps, p.t.kids), IndexRec(bsi.key, 0), IndexRec(bsi.key, bsi.ptr));
  }

  /** The parent had room: one tree, with both children. */
  lemma ParentGrew(s0: Snap, s2: Snap, s4: Snap, root: nat, p: Place, r: Rec, j: nat, bsi: SplitInfo, k1: Tree, k2: Tree,
                   nblk: nat, left: seq<Rec>, right: seq<Rec>)
    requires SeparatorInserted(s0, s2, s4, root, p, r, j, bsi, k1, k2, Ok, NoSplit, nblk, left, right)
    ensures Outcome(s0, s4, root, p, r, Ok, NoSplit, WithTwoKids(p.t, j, k1, bsi.key, k2), Nil)
  {
    ParentRoom(s0, s2, root, p, r, j, bsi, k1, k2);
    ParentGrewStored(s0, s2, s4, root, p, r, j, bsi, k1, k2, nblk, left, right);
    SplitKidConfined(s0, s2, s4, root, p, r, j, bsi, k1, k2, {p.t.blk});
    WithBothKids(s0, s2, root, p, r, j, bsi, k1, k2);
  }

  lemma ParentGrewStored(s0: Snap, s2: Snap, s4: Snap, root: nat, p: Place, r: Rec, j: nat, bsi: SplitInfo, k1: Tree, k2: Tree,
                         nblk: nat, left: seq<Rec>, right: seq<Rec>)
    requires SeparatorInserted(s0, s2, s4, root, p, r, j, bsi, k1, k2, Ok, NoSplit, nblk, left, right)
    ensures Stored(s4.blocks, WithTwoKids(p.t, j, k1, bsi.key, k2), p.isRoot)
  {
    ParentUsable(s0, s2, root, p, r, j, bsi, k1, k2);
    SeparatorIsNew(s0, s2, root, p, r, j, bsi, k1, k2);
    KidsStayStored(s0, s2, root, p, r, j, bsi, k1, k2, s4.blocks, {p.t.blk});
  }

  lemma TookAnother(s0: Snap, s2: Snap, s4: Snap, root: nat, nblk: nat)
    requires s2.free <= s0.free && RootHere(s0, root) && root in s2.infos && TookBlock(Counted(s2, root), s4, nblk)
    ensures Taken(s0, s4) == Taken(s0, s2) + 1 && root in s4.infos && s4.infos[root] == s2.infos[root] + 1
    ensures s4.free <= s2.free && multiset(s0.free - s4.free) == multiset(s0.free - s2.free) + multiset{nblk}
  {
    assert |s2.free| == |s2.free - {nblk}| + 1;
    FreeChain(s0.free, s2.free, s4.free);
    assert s2.free - s4.free == {nblk};
  }

  lemma ParentSplitStored(s0: Snap, s2: Snap, s4: Snap, root: nat, p: Place, r: Rec, j: nat, bsi: SplitInfo, k1: Tree, k2: Tree,
                          bsi2: SplitInfo, nblk: nat, left: seq<Rec>, right: seq<Rec>)
    requires SeparatorInserted(s0, s2, s4, root, p, r, j, bsi, k1, k2, Ok, bsi2, nblk, left, right) && bsi2.Split?
    ensures var u, i := WithTwoKids(p.t, j, k1, bsi.key, k2), |left|;
      && 0 < i < |u.seps| && bsi2.key == u.seps[i] && bsi2.ptr == nblk
      && Stored(s4.blocks, LeftOf(u, i), false) && Stored(s4.blocks, RightOf(u, i, nblk), false)
  {
    var u := WithTwoKids(p.t, j, k1, bsi.key, k2);
    ParentUsable(s0, s2, root, p, r, j, bsi, k1, k2);
    SeparatorIsNew(s0, s2, root, p, r, j, bsi, k1, k2);
    hide KidIsSplit, Stored, StoredAll;
    KidsStayStored(s0, s2, root, p, r, j, bsi, k1, k2, s4.blocks, {p.t.blk, nblk});
    DividedRecs(u, left, right, nblk);
    DividedStored(s4.blocks, u, |left|, nblk);
  }

  /** The node count after a split: the caller still has to count the new node. */
  lemma ParentSplitCount(s0: Snap, s2: Snap, s4: Snap, root: nat, p: Place, r: Rec, j: nat, bsi: SplitInfo, k1: Tree, k2: Tree,
                         bsi2: SplitInfo, nblk: nat, left: seq<Rec>, right: seq<Rec>)
    requires SeparatorInserted(s0, s2, s4, root, p, r, j, bsi, k1, k2, Ok, bsi2, nblk, left, right) && bsi2.Split?
    ensures Confined(s0, s4, root, p.t) && Taken(s0, s4) == Demand(p.t, r, p.isRoot)
    ensures Carry(p.t, r, p.isRoot) == Some(bsi2.key)
    ensures (if p.isRoot then bsi2.nnodes else s4.infos[root]) == s0.infos[root] + Taken(s0, s4) - 1
    ensures multiset(s0.free - s4.free) == multiset(s0.free - s2.free) + multiset{nblk}
  {
    ParentRoom(s0, s2, root, p, r, j, bsi, k1, k2);
    ParentRootInfo(s0, s2, root, p, r, j, bsi, k1, k2);
    TookAnother(s0, s2, s4, root, nblk);
    SplitKidConfined(s0, s2, s4, root, p, r, j, bsi, k1, k2, {p.t.blk, nblk});
  }

  lemma ParentRootInfo(s0: Snap, s2: Snap, root: nat, p: Place, r: Rec, j: nat, bsi: SplitInfo, k1: Tree, k2: Tree)
    requires KidIsSplit(s0, s2, root, p, r, j, bsi, k1, k2)
    ensures s2.free <= s0.free && RootHere(s0, root) && root in s2.infos && p.t.blk in s2.blocks
    ensures s2.blocks[p.t.blk].isRoot == p.isRoot && (p.isRoot ==> p.t.blk == root)
    ensures s2.infos[root] == s0.infos[root] + Taken(s0, s2) - 1
  {
    ParentUsable(s0, s2, root, p, r, j, bsi, k1, k2);
  }

  lemma SplitOutcome(s0: Snap, s: Snap, root: nat, p: Place, r: Rec, bsi: SplitInfo, t1: Tree, t2: Tree)
    requires Confined(s0, s, root, p.t) && !Has(Recs(p.t), r.key.rank) && Taken(s0, s) == Demand(p.t, r, p.isRoot)
    requires bsi.Split? && Carry(p.t, r, p.isRoot) == Some(bsi.key) && TwoTrees(s0, s, root, p, r, bsi, t1, t2)
    ensures Outcome(s0, s, root, p, r, Ok, bsi, t1, t2)
  {
  }

  /** The parent had no room and divided: two trees. */
  lemma ParentSplit(s0: Snap, s2: Snap, s4: Snap, root: nat, p: Place, r: Rec, j: nat, bsi: SplitInfo, k1: Tree, k2: Tree,
                    bsi2: SplitInfo, nblk: nat, left: seq<Rec>, right: seq<Rec>)
    returns (t1: Tree, t2: Tree)
    requires SeparatorInserted(s0, s2, s4, root, p, r, j, bsi, k1, k2, Ok, bsi2, nblk, left, right) && bsi2.Split?
    ensures Outcome(s0, s4, root, p, r, Ok, bsi2, t1, t2)
  {
    hide Outcome, Ready, NodeOutcome, IsSplit, Stored, TwoInPlace;
    var u, i := WithTwoKids(p.t, j, k1, bsi.key, k2), |left|;
    ParentSplitStored(s0, s2, s4, root, p, r, j, bsi, k1, k2, bsi2, nblk, left, right);
    ParentSplitCount(s0, s2, s4, root, p, r, j, bsi, k1, k2, bsi2, nblk, left, right);
    WithBothKids(s0, s2, root, p, r, j, bsi, k1, k2);
    IndexDivided(u, p.level, p.lo, p.hi, i, nblk);
    IndexDividedContents(u, i, nblk);
    t1, t2 := LeftOf(u, i), RightOf(u, i, nblk);
    SplitOutcome(s0, s4, root, p, r, bsi2, t1, t2);
  }

  lemma SeparatorFits(s0: Snap, s2: Snap, root: nat, p: Place, r: Rec, j: nat, bsi: SplitInfo, k1: Tree, k2: Tree)
    requires KidIsSplit(s0, s2, root, p, r, j, bsi, k1, k2)
    ensures RecSize(IndexRec(bsi.key, bsi.ptr)) <= SIZE_LIMIT
  {
  }

  /** The separator is never a duplicate: only the lack of a block for a split stops the program. */
  lemma SeparatorRefused(s0: Snap, s2: Snap, s4: Snap, root: nat, p: Place, r: Rec, j: nat, bsi: SplitInfo, k1: Tree, k2: Tree,
                         err: Err, bsi2: SplitInfo, nblk: nat, left: seq<Rec>, right: seq<Rec>)
    requires SeparatorInserted(s0, s2, s4, root, p, r, j, bsi, k1, k2, err, bsi2, nblk, left, right) && err != Ok
    ensures Outcome(s0, s4, root, p, r, Aborted, NoSplit, Nil, Nil)
  {
    SeparatorIsNew(s0, s2, root, p, r, j, bsi, k1, k2);
    ParentUsable(s0, s2, root, p, r, j, bsi, k1, k2);
    ParentRoom(s0, s2, root, p, r, j, bsi, k1, k2);
    ParentDemand(s0, s2, root, p, r, j, bsi, k1, k2);
    SearchInKid(p.t, p.level, p.lo, p.hi, r.key.rank);
  }

  lemma SeparatorOutcome(s0: Snap, s2: Snap, s4: Snap, root: nat, p: Place, r: Rec, j: nat, bsi: SplitInfo, k1: Tree, k2: Tree,
                         err: Err, bsi2: SplitInfo, nblk: nat, left: seq<Rec>, right: seq<Rec>)
    returns (t1: Tree, t2: Tree)
    requires SeparatorInserted(s0, s2, s4, root, p, r, j, bsi, k1, k2, err, bsi2, nblk, left, right)
    ensures Outcome(s0, s4, root, p, r, if err == Ok then Ok else Aborted, if err == Ok then bsi2 else NoSplit, t1, t2)
  {
    t1, t2 := Nil, Nil;
    if err != Ok {
      SeparatorRefused(s0, s2, s4, root, p, r, j, bsi, k1, k2, err, bsi2, nblk, left, right);
    } else if bsi2.NoSplit? {
      ParentGrew(s0, s2, s4, root, p, r, j, bsi, k1, k2, nblk, left, right);
      t1 := WithTwoKids(p.t, j, k1, bsi.key, k2);
    } else {
      t1, t2 := ParentSplit(s0, s2, s4, root, p, r, j, bsi, k1, k2, bsi2, nblk, left, right);
    }
  }
}
