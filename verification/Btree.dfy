/** The B-tree of btrees/btree.c: insertion, search and removal from the root. */
module Btrees {
  import opened Common
  import opened SpaceManagers
  import opened BtreeNode
  import opened BtreeShape
  import opened BtreeOrder
  import opened BtreeSteps
  import opened BtreeStore
  import opened BtreeLinks
  import opened BtreeOutcome
  import opened BtreeRemoval
  import opened BtreeRoot
  import opened BtreeMap
  import opened Callbacks
  import opened BtreeLevels
  import opened BtreeWalk
  import opened BtreeRuns

  /** An insertion after which a changed block is not flagged. */
  ghost predicate Forgets(t: Tree, flagged: set<nat>, r: Rec, err: Err) {
    err == Ok && RootForgotten(t, r) && t.blk !in flagged
  }

  lemma RootWasRoot(s: Snap, root: nat, t: Tree, level: nat, leaked: set<nat>)
    requires WholeOk(s, root, t, level, leaked)
    ensures root in s.blocks && s.blocks[root].isRoot && root == BlkOf(t) && root != 0
  {
  }

  /** What a search below a node rests on: the records of a leaf, or the child of the key. */
  lemma SearchFacts(s: Snap, root: nat, p: Place, k: int)
    requires Ready(s, root, p) && InRange(p, k)
    ensures p.t.blk in s.blocks && !p.t.Nil?
    ensures p.t.Leaf? ==> Sorted(s.blocks[p.t.blk].recs) && s.blocks[p.t.blk].recs == Recs(p.t)
    ensures p.t.Index? ==>
      var j := Route(p.t.seps, k);
      && p.level > 0 && j < |p.t.kids| && j <= |p.t.seps| && (BlkOf(p.t.kids[j]) == 0 <==> p.t.kids[j].Nil?)
      && (Has(Recs(p.t), k) <==> Has(Recs(p.t.kids[j]), k)) && (p.t.kids[j].Nil? ==> !Has(Recs(p.t), k))
      && (Has(Recs(p.t), k) ==> Recs(p.t)[Pos(Recs(p.t), k)] == Recs(p.t.kids[j])[Pos(Recs(p.t.kids[j]), k)])
      && (!p.t.kids[j].Nil? ==> var kid := KidPlace(p, j, p.t.kids[j]); Ready(s, root, kid) && InRange(kid, k))
  {
    hide Has, Pos;
    NodeInUse(s, root, p);
    if p.t.Index? {
      var j := Route(p.t.seps, k);
      SearchInKid(p.t, p.level, p.lo, p.hi, k);
      ZeroMeansNil(s, root, p, j);
      NilHasNothing(k);
      if !p.t.kids[j].Nil? {
        OldKidDescended(s, root, p, j);
        KidReady(s, s, root, p, j, p.t.kids[j], k);
      }
    }
  }

  class Btree {
    const store: NodeStore
    /** The root node held by the open tree, and the root's block number in the space manager's block. */
    var root: nat
    var rblkno: nat
    ghost var tree: Tree
    ghost var level: nat
    /** Allocated blocks that no pointer leads to. */
    ghost var leaked: set<nat>

    /** The tree is sound, the node count is right, and every block is accounted for. */
    ghost predicate Valid()
      reads this, store, store.sm, store.sm.Repr
    {
      && this !in store.sm.Repr && store.Valid() && rblkno == root
      && WholeOk(store.State(), root, tree, level, leaked)
    }

    /** The tree with all it rests on, as a run sees it. */
    ghost function State(): Whole
      requires store.Valid()
      reads this, store, store.sm, store.sm.Repr
    {
      Whole(store.State(), root, tree, level, leaked)
    }

    ghost predicate StoreReady(p: Place)
      reads this, store, store.sm, store.sm.Repr
    {
      this !in store.sm.Repr && store.Valid() && Ready(store.State(), root, p)
    }

    /** The ordered list of all records. */
    ghost function Contents(): seq<Rec>
      reads this
    {
      Recs(tree)
    }

    /** The finite map the tree stands for. */
    ghost function Model(): map<int, Rec>
      reads this
    {
      AsMap(Contents())
    }

    /** A newly created tree: an empty leaf as the root. */
    constructor ()
      ensures Valid() && Contents() == [] && leaked == {} && fresh(store) && fresh(store.sm) && fresh(store.sm.Repr)
      ensures Run([State()], [], []) && tree == Leaf(ROOT_BLKNO, []) && store.flagged == {} && store.Stale() == {}
    {
      hide WholeOk, Run, Accounted, Blocks, Recs;
      var sm := new SpaceManager();
      store := new NodeStore(sm);
      root, rblkno := ROOT_BLKNO, ROOT_BLKNO;
      tree, level, leaked := Leaf(ROOT_BLKNO, []), 0, {};
      new;
      store.blocks := map[ROOT_BLKNO := FreshNode(true, true)];
      store.infos := map[ROOT_BLKNO := 1];
      store.disk, store.diskInfos := store.blocks, store.infos;
      InitiallyWhole(store.State());
      NewRun(State());
    }

    /** Records what the blocks now hold. */
    ghost method SetTree(t: Tree, level': nat, leaked': set<nat>)
      requires this !in store.sm.Repr && store.Valid() && rblkno == root
      requires WholeOk(store.State(), root, t, level', leaked')
      modifies `tree, `level, `leaked
      ensures Valid() && tree == t && level == level' && leaked == leaked'
      ensures store.State() == old(store.State())
    {
      hide WholeOk;
      tree, level, leaked := t, level', leaked';
    }

    /** The pointer to follow for a key: the last one whose separator is not above it. */
    method RouteChild(blk: nat, k: int, ghost t: Tree, ghost isRoot: bool) returns (j: nat, ptr: nat)
      requires t.Index? && blk == t.blk && RootStored(store.blocks, t, isRoot)
      ensures j == Route(t.seps, k) && ptr == BlkOf(t.kids[j])
    {
      var n := store.blocks[blk];
      ptr, j := n.first, 0;
      while j < |n.recs|
        invariant j <= Route(t.seps, k) && ptr == BlkOf(t.kids[j])
      {
        var comp := k - n.recs[j].key.rank;
        if comp < 0 {
          return;
        }
        ptr := n.recs[j].val.blkno;
        j := j + 1;
      }
    }

    /** Points child `j` of an index node at a block. */
    method SetPointer(blk: nat, j: nat, ptr: nat, ghost t: Tree, ghost isRoot: bool, ghost kid: Tree)
      requires t.Index? && blk == t.blk && RootStored(store.blocks, t, isRoot) && j < |t.kids| && ptr == BlkOf(kid)
      modifies store`blocks, store`flagged
      ensures RootStored(store.blocks, WithKid(t, j, kid), isRoot)
      ensures SameOutside(old(store.blocks), store.blocks, {blk}) && store.Stale() <= old(store.Stale())
    {
      var n := store.blocks[blk];
      if j == 0 {
        n := n.(first := ptr);
      } else {
        var r := n.recs[j - 1];
        n := n.(recs := n.recs[j - 1 := r.(val := Ptr(ptr))]);
        SumReplaced(store.blocks[blk].recs, j - 1, r.(val := Ptr(ptr)));
      }
      store.blocks := store.blocks[blk := n];
      store.flagged := store.flagged + {blk};
      assert n.recs == IndexRecs(t.seps, t.kids[j := kid]);
    }

    /** The node count of the tree lives in the root. */
    method CountNode()
      requires root in store.infos
      modifies store`infos
      ensures store.infos == old(store.infos)[root := old(store.infos)[root] + 1]
      ensures store.Stale() <= old(store.Stale()) + {root}
    {
      store.infos := store.infos[root := store.infos[root] + 1];
    }

    method FlagRoot()
      modifies store`flagged
      ensures store.Stale() == old(store.Stale()) - {root}
    {
      store.flagged := store.flagged + {root};
    }

    /** Goes down to the child the key is routed to; a zero pointer gets a new leaf. */
    method Descend(blk: nat, k: int, ghost p: Place) returns (err: Err, child: nat, ghost kid: Tree)
      requires StoreReady(p) && p.t.Index? && blk == p.t.blk && InRange(p, k)
      modifies store`blocks, store`infos, store`flagged, store.sm.Repr
      ensures store.Valid()
      ensures err == Ok || err == ENOSPC
      ensures err == Ok ==> Descended(old(store.State()), store.State(), root, p, Route(p.t.seps, k), kid) && child == BlkOf(kid)
      ensures err == ENOSPC ==>
        store.State() == old(store.State()) && store.State().free == {} && p.t.kids[Route(p.t.seps, k)].Nil?
      ensures store.Stale() <= old(store.Stale())
    {
      var j, ptr := RouteChild(blk, k, p.t, p.isRoot);
      Locate(p.t, p.level, p.lo, p.hi, k);
      ZeroMeansNil(store.State(), root, p, j);
      kid := p.t.kids[j];
      if ptr != 0 {
        OldKidDescended(store.State(), root, p, j);
        return Ok, ptr, kid;
      }
      err, child, kid := NewLeaf(blk, j, p);
    }

    /** Allocates a leaf for the zero pointer at child `j` of a lowest index node. */
    method NewLeaf(blk: nat, j: nat, ghost p: Place) returns (err: Err, child: nat, ghost kid: Tree)
      requires StoreReady(p) && p.t.Index? && blk == p.t.blk && j < |p.t.kids| && p.t.kids[j].Nil? && p.level == 1
      modifies store`blocks, store`infos, store`flagged, store.sm.Repr
      ensures store.Valid()
      ensures err == Ok || err == ENOSPC
      ensures err == Ok ==> Descended(old(store.State()), store.State(), root, p, j, kid) && child == BlkOf(kid)
      ensures err == ENOSPC ==> store.State() == old(store.State()) && store.State().free == {}
      ensures store.Stale() <= old(store.Stale())
    {
      hide Ready, RootStored, Descended;
      ghost var s0 := store.State();
      NodeInUse(s0, root, p);
      kid := Nil;
      err, child := store.Alloc(true, false);
      if err != Ok {
        return;
      }
      kid := Leaf(child, []);
      AllocationKeepsNode(s0, store.State(), root, p, child);
      SetPointer(blk, j, child, p.t, p.isRoot, kid);
      CountNode();
      FlagRoot();
      NewLeafDescended(s0, store.State(), root, p, j, child);
    }

    method InsertIntoLeaf(blk: nat, r: Rec, ghost p: Place)
      returns (err: Err, bsi: SplitInfo, ghost t1: Tree, ghost t2: Tree)
      requires StoreReady(p) && p.t.Leaf? && blk == p.t.blk && InRange(p, r.key.rank) && SizeOk(r)
      modifies store`blocks, store`infos, store`flagged, store.sm.Repr
      ensures store.Valid() && Outcome(old(store.State()), store.State(), root, p, r, err, bsi, t1, t2)
      ensures err != Aborted ==>
        store.Stale() <= old(store.Stale()) + if err == Ok && p.isRoot && RootForgotten(p.t, r) then {blk} else {}
      ensures err == Ok && p.isRoot && RootForgotten(p.t, r) ==> (blk in store.flagged <==> blk in old(store.flagged))
    {
      ghost var s0 := store.State();
      LeafUsable(s0, root, p);
      ghost var nblk, left, right;
      err, bsi, nblk, left, right := store.Insert(blk, r);
      t1, t2 := LeafOutcome(s0, store.State(), root, p, r, err, bsi, nblk, left, right);
    }

    method CountAndInsert(blk: nat, r: Rec)
      returns (err: Err, bsi: SplitInfo, ghost nblk: nat, ghost left: seq<Rec>, ghost right: seq<Rec>)
      requires store.Valid() && this !in store.sm.Repr && root in store.infos
      requires store.Usable(blk) && RecSize(r) <= SIZE_LIMIT && (store.blocks[blk].isRoot ==> blk in store.infos)
      modifies store`blocks, store`infos, store`flagged, store.sm.Repr
      ensures store.Valid() && NodeOutcome(Counted(old(store.State()), root), store.State(), blk, r, err, bsi, nblk, left, right)
      ensures store.Stale() <= old(store.Stale()) + {root} + if old(store.blocks)[blk].isRoot then {blk} else {}
    {
      hide NodeOutcome;
      CountNode();
      assert store.Usable(blk);
      err, bsi, nblk, left, right := store.Insert(blk, r);
    }

    /** Counts the new node and puts its separator into the parent. The key is always new there; only the
        lack of a free block for a split of the parent stops the program. */
    method AddSeparator(blk: nat, bsi: SplitInfo, ghost s0: Snap, ghost p: Place, ghost r: Rec, ghost j: nat, ghost k1: Tree, ghost k2: Tree)
      returns (err: Err, bsi2: SplitInfo, ghost t1: Tree, ghost t2: Tree)
      requires store.Valid() && this !in store.sm.Repr && root in store.infos && p.t.Index? && blk == p.t.blk
      requires KidIsSplit(s0, store.State(), root, p, r, j, bsi, k1, k2)
      modifies store`blocks, store`infos, store`flagged, store.sm.Repr
      ensures store.Valid() && Outcome(s0, store.State(), root, p, r, err, bsi2, t1, t2)
      ensures err != Aborted ==> store.Stale() <= old(store.Stale())
    {
      hide KidIsSplit, Outcome, NodeOutcome, SeparatorInserted, IndexSize;
      ghost var s2 := store.State();
      SplitHere(s0, s2, root, p, r, j, bsi, k1, k2);
      ParentUsable(s0, s2, root, p, r, j, bsi, k1, k2);
      ParentRootInfo(s0, s2, root, p, r, j, bsi, k1, k2);
      SeparatorFits(s0, s2, root, p, r, j, bsi, k1, k2);
      ghost var nblk, left, right;
      err, bsi2, nblk, left, right := CountAndInsert(blk, IndexRec(bsi.key, bsi.ptr));
      t1, t2 := SeparatorOutcome(s0, s2, store.State(), root, p, r, j, bsi, k1, k2, err, bsi2, nblk, left, right);
      if err != Ok {
        return Aborted, NoSplit, t1, t2;
      }
      FlagRoot();
    }

    method InsertInto(blk: nat, r: Rec, ghost p: Place)
      returns (err: Err, bsi: SplitInfo, ghost t1: Tree, ghost t2: Tree)
      requires StoreReady(p) && blk == p.t.blk && InRange(p, r.key.rank) && SizeOk(r)
      modifies store`blocks, store`infos, store`flagged, store.sm.Repr
      ensures store.Valid() && Outcome(old(store.State()), store.State(), root, p, r, err, bsi, t1, t2)
      ensures err != Aborted ==>
        store.Stale() <= old(store.Stale()) + if err == Ok && p.isRoot && RootForgotten(p.t, r) then {blk} else {}
      ensures err == Ok && p.isRoot && RootForgotten(p.t, r) ==> (blk in store.flagged <==> blk in old(store.flagged))
      decreases p.level
    {
      hide Outcome, Ready, Descended, RootForgotten, KidIsSplit;
      ghost var s0 := store.State();
      LeafOrIndex(s0, root, p, r);
      if store.blocks[blk].isLeaf {
        err, bsi, t1, t2 := InsertIntoLeaf(blk, r, p);
        return;
      }
      bsi, t1, t2 := NoSplit, p.t, Nil;
      ghost var j := Route(p.t.seps, r.key.rank);
      var child;
      ghost var kid;
      err, child, kid := Descend(blk, r.key.rank, p);
      if err != Ok {
        NoLeafOutcome(s0, root, p, r);
        return;
      }
      ghost var s1 := store.State();
      KidReady(s0, s1, root, p, j, kid, r.key.rank);
      ghost var k1, k2;
      var cbsi;
      err, cbsi, k1, k2 := InsertInto(child, r, KidPlace(p, j, kid));
      ghost var s2 := store.State();
      if err != Ok {
        KidFailed(s0, s1, s2, root, p, r, j, kid, err, cbsi, k1, k2);
      } else if cbsi.NoSplit? {
        KidGrew(s0, s1, s2, root, p, r, j, kid, k1, k2);
        t1 := WithKid(p.t, j, k1);
      } else {
        SplitKidIsOld(s0, s1, s2, root, p, r, j, kid, cbsi, k1, k2);
        ParentRootInfo(s0, s2, root, p, r, j, cbsi, k1, k2);
        err, bsi, t1, t2 := AddSeparator(blk, cbsi, s0, p, r, j, k1, k2);
      }
    }

    /** Puts the halves of the old root under the new one, with the node count. */
    method FillRoot(newRoot: nat, oldRblkno: nat, bsi: SplitInfo)
      requires newRoot in store.blocks && store.blocks[newRoot] == FreshNode(false, true)
      requires bsi.Split? && IndexSize(bsi.key) <= SIZE_LIMIT
      modifies store`blocks, store`infos, store`flagged
      ensures store.infos == old(store.infos)[newRoot := bsi.nnodes + 2]
      ensures NodeIs(store.blocks, newRoot, false, true, oldRblkno, [IndexRec(bsi.key, bsi.ptr)])
      ensures SameOutside(old(store.blocks), store.blocks, {newRoot})
      ensures newRoot in old(store.flagged) ==> store.Stale() <= old(store.Stale()) && store.flagged == old(store.flagged)
    {
      store.infos := store.infos[newRoot := bsi.nnodes + 2];
      store.InsertFirst(newRoot, oldRblkno, IndexRec(bsi.key, bsi.ptr));
    }

    /** Sets up a new root above the two parts of the old one. The program stops if there is no block. */
    method AddRoot(bsi: SplitInfo) returns (err: Err)
      requires store.Valid() && this !in store.sm.Repr && bsi.Split? && IndexSize(bsi.key) <= SIZE_LIMIT
      requires bsi.nnodes != 0
      modifies `root, `rblkno, store`blocks, store`infos, store`flagged, store.sm.Repr
      ensures store.Valid()
      ensures err == if old(store.sm.Free()) == {} then Aborted else Ok
      ensures err == Ok ==> rblkno == root && RootAdded(old(store.State()), store.State(), old(rblkno), bsi, root)
      ensures store.Stale() <= old(store.Stale()) && (err == Ok ==> store.flagged == old(store.flagged) + {root})
    {
      hide NodeIs, NodeStore.Stale, IndexSize;
      var oldRblkno := rblkno;
      var newRoot;
      err, newRoot := store.Alloc(false, true);
      if err != Ok {
        return Aborted;
      }
      root, rblkno := newRoot, newRoot;
      FillRoot(newRoot, oldRblkno, bsi);
    }

    /** Inserts a record within the size limits. */
    method InsertSized(r: Rec) returns (err: Err)
      requires Valid() && SizeOk(r)
      modifies this, store`blocks, store`infos, store`flagged, store.sm.Repr
      ensures store.Valid() && (err != Aborted ==> Valid())
      ensures Inserted(old(store.State()), old(tree), old(leaked), store.State(), tree, leaked, r, err)
      ensures err != Aborted ==>
        store.Stale() <= old(store.Stale()) + if err == Ok && RootForgotten(old(tree), r) then {old(root)} else {}
      ensures err == Ok && RootForgotten(old(tree), r) ==> (old(root) in store.flagged <==> old(root) in old(store.flagged))
    {
      hide Outcome, Inserted, Ready, WholeOk, RootForgotten;
      ghost var s0, place := store.State(), WholePlace(tree, level);
      WholeIsReady(s0, root, tree, level, leaked, r.key.rank);
      var bsi;
      ghost var t1, t2;
      err, bsi, t1, t2 := InsertInto(root, r, place);
      if err != Ok || bsi.NoSplit? {
        ghost var s := store.State();
        ghost var t', leaked' := RootStays(s0, s, root, tree, level, leaked, r, err, bsi, t1, t2);
        if err != Aborted {
          SetTree(t', level, leaked');
        } else {
          StoppedBefore(s0, tree, leaked, s, t', leaked', r);
        }
      } else {
        err := GrowRoot(s0, bsi, r, t1, t2);
      }
    }

    /** The root has split: the tree gets a new root. */
    method GrowRoot(ghost s0: Snap, bsi: SplitInfo, ghost r: Rec, ghost t1: Tree, ghost t2: Tree) returns (err: Err)
      requires store.Valid() && this !in store.sm.Repr && rblkno == root && bsi.Split?
      requires WholeOk(s0, root, tree, level, leaked)
      requires Outcome(s0, store.State(), root, WholePlace(tree, level), r, Ok, bsi, t1, t2)
      modifies this, store`blocks, store`infos, store`flagged, store.sm.Repr
      ensures store.Valid() && (err != Aborted ==> Valid())
      ensures Inserted(s0, old(tree), old(leaked), store.State(), tree, leaked, r, err)
      ensures store.Stale() <= old(store.Stale()) && (err == Ok || err == Aborted)
      ensures err == Ok ==> (old(root) in store.flagged <==> old(root) in old(store.flagged))
    {
      hide Outcome, Inserted, WholeOk, TwoTrees, RootAdded, IndexSize, InsertErr, Need, Carry, Blocks, Recs, Sum, NodeStore.Stale;
      ghost var s1 := store.State();
      RootSplits(s0, s1, root, tree, level, leaked, r, bsi, t1, t2);
      err := AddRoot(bsi);
      if err == Ok {
        ghost var s := store.State();
        ghost var u := RootReplaced(s0, s1, s, old(root), tree, level, leaked, r, bsi, t1, t2, root);
        SetTree(u, level + 1, leaked);
      } else {
        StoppedInsertion(s0, tree, leaked, store.State(), tree, leaked, r);
      }
    }

    /** Inserts a record within the size limits, and says exactly which changed block is left without a flag. */
    method InsertTracked(r: Rec) returns (err: Err)
      requires Valid() && SizeOk(r)
      modifies this, store`blocks, store`infos, store`flagged, store.sm.Repr
      ensures store.Valid() && (err != Aborted ==> Valid())
      ensures Inserted(old(store.State()), old(tree), old(leaked), store.State(), tree, leaked, r, err)
      ensures err != Aborted && old(store.Stale()) == {} ==>
        store.Stale() == if Forgets(old(tree), old(store.flagged), r, err) then {old(root)} else {}
    {
      hide WholeOk, Inserted, RootForgotten;
      RootWasRoot(store.State(), root, tree, level, leaked);
      err := InsertSized(r);
      if err == Ok && RootForgotten(old(tree), r) {
        ForgottenPlaced(old(store.State()), old(tree), old(leaked), store.State(), tree, leaked, r);
        OldRootIsChild(store.State(), root, tree, level, leaked, old(root));
      }
    }

    /** Inserts a record. A record too long for a node, or a key too long for the root, is refused; so is a
        key that is already present. */
    method Insert(r: Rec) returns (err: Err)
      requires Valid() && (SizeOk(r) || TooBig(r))
      modifies this, store`blocks, store`infos, store`flagged, store.sm.Repr
      ensures store.Valid() && (err != Aborted ==> Valid())
      ensures TooBig(r) ==> err == E2BIG && store.State() == old(store.State()) && tree == old(tree) && leaked == old(leaked)
      ensures !TooBig(r) ==> Inserted(old(store.State()), old(tree), old(leaked), store.State(), tree, leaked, r, err)
      ensures err == EEXIST ==> r.key.rank in old(Model())
      ensures err == Ok ==> r.key.rank !in old(Model())
      ensures err != Aborted ==> Step(old(State()), Insertion(r), err, State())
      ensures err != Aborted ==> Model() == if err == Ok then old(Model())[r.key.rank := r] else old(Model())
      ensures err != Aborted && old(store.Stale()) == {} ==>
        store.Stale() == if Forgets(old(tree), old(store.flagged), r, err) then {old(root)} else {}
    {
      hide WholeOk, Inserted, RootForgotten, AsMap, IndexSize16, RecSize16, Recs;
      if IndexSize16(r.key) > MAX_INLINE - INFO_SIZE - PTR_SIZE {
        return E2BIG;
      }
      if RecSize16(r) > MAX_INLINE {
        return E2BIG;
      }
      err := InsertTracked(r);
      if err != Aborted {
        WholeMapInserted(old(root), old(tree), old(level), tree, r, err, old(store.State()), old(leaked), store.State(), leaked);
      }
    }

    // Search

    /** Finds the record of a key in a leaf: every record is compared. */
    method FindInLeaf(blk: nat, k: int) returns (err: Err, found: Option<Rec>)
      requires blk in store.blocks && Sorted(store.blocks[blk].recs)
      ensures var recs := store.blocks[blk].recs;
        && err == (if Has(recs, k) then Ok else ENOENT)
        && found == (if Has(recs, k) then Some(recs[Pos(recs, k)]) else None)
    {
      var recs := store.blocks[blk].recs;
      HasMeansMember(recs, k);
      var comp, i := -1, 0;
      while i < |recs|
        invariant i <= |recs| && comp != 0 && forall j :: 0 <= j < i ==> recs[j].key.rank != k
      {
        comp := k - recs[i].key.rank;
        if comp == 0 {
          PosUnique(recs, k, i);
          return Ok, Some(recs[i]);
        }
        i := i + 1;
      }
      return ENOENT, None;
    }

    /** Searches below one node. */
    method FindIn(blk: nat, k: int, ghost p: Place) returns (err: Err, found: Option<Rec>)
      requires StoreReady(p) && blk == p.t.blk && InRange(p, k)
      ensures err == if Has(Recs(p.t), k) then Ok else ENOENT
      ensures found == if Has(Recs(p.t), k) then Some(Recs(p.t)[Pos(Recs(p.t), k)]) else None
      decreases p.level
    {
      hide Has, Pos, Ready, InRange, Shape, RootStored, Recs, Sorted;
      ghost var s := store.State();
      NodeInUse(s, root, p);
      SearchFacts(s, root, p, k);
      if store.blocks[blk].isLeaf {
        err, found := FindInLeaf(blk, k);
        return;
      }
      var j, ptr := RouteChild(blk, k, p.t, p.isRoot);
      if ptr == 0 {
        return ENOENT, None;
      }
      err, found := FindIn(ptr, k, KidPlace(p, j, p.t.kids[j]));
    }

    /** Finds the record of a key: the stored record exactly if there is one. */
    method Find(k: int) returns (err: Err, found: Option<Rec>)
      requires Valid()
      ensures err == if k in Model() then Ok else ENOENT
      ensures found == if k in Model() then Some(Model()[k]) else None
      ensures Step(State(), Search(k, found), err, State())
    {
      WholeIsReady(store.State(), root, tree, level, leaked, k);
      RecsOk(tree, level, None, None);
      Lookup(Contents(), k);
      err, found := FindIn(root, k, WholePlace(tree, level));
    }

    // Removal

    /** Frees the block of a node and counts it off. */
    method FreeNode(blk: nat) returns (err: Err)
      requires store.Valid() && this !in store.sm.Repr && root in store.infos && store.infos[root] > 0
      requires blk < NBLOCKS && blk !in store.sm.Free()
      modifies store`infos, store`flagged, store.sm.Repr
      ensures store.Valid()
      ensures err == if RoomToFree(old(store.sm.Free()), blk) then Ok else Aborted
      ensures err == Ok ==> store.sm.Free() == old(store.sm.Free()) + {blk}
      ensures store.infos == if err == Ok then old(store.infos)[root := old(store.infos)[root] - 1] else old(store.infos)
      ensures store.Stale() <= old(store.Stale())
    {
      err := store.sm.Bfree(blk);
      if err == Ok {
        store.infos := store.infos[root := store.infos[root] - 1];
        FlagRoot();
      }
    }

    method RemoveFromLeaf(blk: nat, k: int, ghost p: Place) returns (err: Err, ghost t1: Tree)
      requires StoreReady(p) && p.t.Leaf? && blk == p.t.blk
      modifies store`blocks, store`infos, store`flagged, store.sm.Repr
      ensures store.Valid() && RemoveOutcome(old(store.State()), store.State(), root, p, k, err, t1)
      ensures store.Stale() <= old(store.Stale())
    {
      ghost var s0 := store.State();
      LeafUsable(s0, root, p);
      err := store.Remove(blk, k);
      t1 := Leaf(blk, Del(p.t.recs, k));
      if err == Ok {
        LeafRemoved(s0, store.State(), root, p, k);
      }
    }

    /** Removes a key below one node. A child leaf that is left empty is freed, and its pointer cleared. */
    method RemoveFrom(blk: nat, k: int, ghost p: Place) returns (err: Err, ghost t1: Tree)
      requires StoreReady(p) && blk == p.t.blk && InRange(p, k) && Counts(store.State(), root, p.t)
      modifies store`blocks, store`infos, store`flagged, store.sm.Repr
      ensures store.Valid() && RemoveOutcome(old(store.State()), store.State(), root, p, k, err, t1)
      ensures store.Stale() <= old(store.Stale())
      decreases p.level
    {
      ghost var s0 := store.State();
      NodeInUse(s0, root, p);
      if store.blocks[blk].isLeaf {
        err, t1 := RemoveFromLeaf(blk, k, p);
        return;
      }
      var j, ptr := RouteChild(blk, k, p.t, p.isRoot);
      ZeroMeansNil(s0, root, p, j);
      t1 := p.t;
      if ptr == 0 {
        KidMissing(s0, root, p, k, j);
        return ENOENT, Nil;
      }
      KidCounts(s0, root, p, j);
      OldKidDescended(s0, root, p, j);
      KidReady(s0, s0, root, p, j, p.t.kids[j], k);
      ghost var k1;
      err, k1 := RemoveFrom(ptr, k, KidPlace(p, j, p.t.kids[j]));
      ghost var s1 := store.State();
      if err != Ok {
        KidNotRemoved(s0, s1, root, p, k, j, err, k1);
        return;
      }
      if store.blocks[ptr].isLeaf && |store.blocks[ptr].recs| == 0 {
        err, t1 := DropChild(blk, j, ptr, k, s0, p, k1);
      } else {
        KidKept(s0, s1, root, p, k, j, k1);
        t1 := WithKid(p.t, j, k1);
      }
    }

    /** Frees a child leaf that the removal has left empty. */
    method DropChild(blk: nat, j: nat, ptr: nat, k: int, ghost s0: Snap, ghost p: Place, ghost k1: Tree)
      returns (err: Err, ghost t1: Tree)
      requires store.Valid() && this !in store.sm.Repr
      requires AtKid(s0, root, p, k, j) && !p.t.kids[j].Nil? && EmptyLeaf(k1)
      requires Counts(s0, root, p.t) && blk == p.t.blk && ptr == p.t.kids[j].blk
      requires RemoveOutcome(s0, store.State(), root, KidPlace(p, j, p.t.kids[j]), k, Ok, k1)
      modifies store`blocks, store`infos, store`flagged, store.sm.Repr
      ensures store.Valid() && RemoveOutcome(s0, store.State(), root, p, k, err, t1)
      ensures store.Stale() <= old(store.Stale())
    {
      hide RemoveOutcome, AtKid, Counts, RoomToFree, RootStored;
      ghost var s1 := store.State();
      KidThere(s0, root, p, k, j);
      t1 := WithKid(p.t, j, Nil);
      DropReady(s0, s1, root, p, k, j, k1);
      err := FreeNode(ptr);
      if err != Ok {
        KidStuck(s0, s1, store.State(), root, p, k, j, k1);
        return Aborted, p.t;
      }
      SetPointer(blk, j, 0, WithKid(p.t, j, k1), p.isRoot, Nil);
      KidFreed(s0, s1, store.State(), root, p, k, j, k1);
    }

    /** Removes a key: its record and no other goes. */
    method Remove(k: int) returns (err: Err)
      requires Valid()
      modifies this, store`blocks, store`infos, store`flagged, store.sm.Repr
      ensures store.Valid() && (err != Aborted ==> Valid())
      ensures err == RemoveErr(old(tree), old(store.sm.Free()), k)
      ensures err == Ok ==>
        Contents() == Del(old(Contents()), k) && store.sm.Free() == old(store.sm.Free()) + Freed(old(tree), k)
      ensures err == ENOENT ==> tree == old(tree) && store.State() == old(store.State())
      ensures err == Ok ==> k in old(Model())
      ensures err != Aborted ==> Model() == old(Model()) - {k}
      ensures err != Aborted ==> Step(old(State()), Removal(k), err, State())
      ensures leaked == old(leaked) && store.Stale() <= old(store.Stale())
    {
      ghost var s0 := store.State();
      WholeIsReady(s0, root, tree, level, leaked, k);
      BlocksExist(s0.free, tree, leaked);
      ghost var t1;
      err, t1 := RemoveFrom(root, k, WholePlace(tree, level));
      RootRemoved(s0, store.State(), root, tree, level, leaked, k, err, t1);
      if err == Ok {
        SetTree(t1, level, leaked);
      }
      MapRemoved(old(tree), level, k);
    }

    // The cache below

    /** `bt_sync`: every flagged block is written. */
    method Sync()
      requires Valid()
      modifies store`flagged, store`disk, store`diskInfos
      ensures Valid() && State() == old(State()) && store.flagged == {} && store.Stale() == old(store.Stale())
    {
      hide WholeOk;
      store.Sync();
    }

    /** Between two calls the cache gives up any block but the root, which the tree holds. Nothing is lost as
        long as every changed block is flagged. */
    method Evict(b: nat)
      requires Valid() && b != root && b in store.blocks && (b in store.flagged || b in store.disk)
      modifies store`blocks, store`infos, store`flagged, store`disk, store`diskInfos
      ensures store.Valid() && store.Stale() == old(store.Stale()) - {b}
      ensures b !in old(store.Stale()) ==> Valid() && State() == old(State())
      ensures b in old(store.Stale()) ==> store.blocks == old(store.blocks)[b := old(store.disk)[b]]
    {
      hide WholeOk;
      store.Evict(b);
    }

    /** Walks the tree on disk. Each node is shown to the first callback and each record to the second, until
        one fails or asks to stop. A walk that is not stopped comes upon every block of the tree once, as many
        as the root's count says; the records come in ascending order. */
    method IterateDisk<S(!new)>(nodeCallback: (Node, S) -> Reply<S>, recordCallback: (Rec, S) -> Reply<S>, ctx: S)
      returns (slots: array<nat>, outcome: Reply<S>)
      requires Valid()
      ensures slots.Length == store.infos[root] && AllReadable(store.blocks, [tree])
      ensures outcome == Visit(WalkEvents(store.blocks, [tree]), OnEvent(nodeCallback, recordCallback), ctx)
      ensures var es := WalkEvents(store.blocks, [tree]);
        && CalledInTurn(es, OnEvent(nodeCallback, recordCallback), ctx, Contexts(es, OnEvent(nodeCallback, recordCallback), ctx), outcome)
        && RecordsOf(es) == Contents() && Sorted(Contents()) && LeavesFirst(es)
        && (Passive(nodeCallback) ==>
              CalledInTurn(Contents(), recordCallback, ctx, Contexts(Contents(), recordCallback, ctx), outcome))
        && (Passive(recordCallback) ==>
              CalledInTurn(NodesOf(es), nodeCallback, ctx, Contexts(NodesOf(es), nodeCallback, ctx), outcome))
      ensures AllLive([tree]) && AllReadable(store.blocks, LevelOrder([tree]))
      ensures NodesOf(WalkEvents(store.blocks, [tree])) == NodesAt(store.blocks, LevelOrder([tree]))
      ensures multiset(BlksOf(LevelOrder([tree]))) == Blocks(tree) && Unique(Blocks(tree))
      ensures !Ends(outcome) ==> slots[..] == BlksOf(LevelOrder([tree]))
    {
      hide Visit, Events, LevelOrder, Contexts, CalledInTurn, LeavesFirst, NodesOf, RecordsOf, NodesAt, WholeOk, Passive;
      WalkOfWhole(store.State(), root, tree, level, leaked);
      slots, outcome := BtreeWalk.IterateDisk(store.blocks, store.infos, rblkno, nodeCallback, recordCallback, ctx, tree);
      WalkShown(store.blocks, tree, nodeCallback, recordCallback, ctx);
    }
  }

  /** What the walk over a sound tree rests on. */
  lemma WalkOfWhole(s: Snap, root: nat, t: Tree, level: nat, leaked: set<nat>)
    requires WholeOk(s, root, t, level, leaked)
    ensures !t.Nil? && t.blk == root && AllReadable(s.blocks, [t]) && 0 !in Blocks(t) && Unique(Blocks(t))
    ensures root in s.infos && s.infos[root] == |Blocks(t)|
    ensures AllLive([t]) && multiset(BlksOf(LevelOrder([t]))) == Blocks(t)
    ensures LeafRecs(LevelOrder([t])) == Recs(t) && Sorted(Recs(t))
  {
    hide LevelOrder, Blocks, Recs, Shape, Stored, LeavesAt, BlksOf, LeafRecs, Accounted, Unique;
    RootOfTree(s.blocks, t, level);
    UniformDepth(t, level, None, None);
    RecsOk(t, level, None, None);
    OrderOfTree(t, level);
    StoredIsReadable(s.blocks, t, true);
    ReadFromBlock(s.blocks, t);
  }
}
