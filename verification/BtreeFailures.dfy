/** Histories that lead to the failures of btrees/btree.c, each from a new tree. */
module BtreeFailures {
  import opened Common
  import opened SpaceManagers
  import opened BtreeNode
  import opened BtreeShape
  import opened BtreeOrder
  import opened BtreeMap
  import opened BtreeOutcome
  import opened BtreeRemoval
  import opened BtreeRoot
  import opened BtreeRuns
  import opened Btrees

  // Filling a leaf

  /** The free blocks, from the number of nodes. */
  lemma CountsFree(a: Whole)
    requires Sound(a)
    ensures |a.disk.free| + |Blocks(a.tree)| + |a.leaked| + NBITMAPS + 1 == NBLOCKS
    ensures a.tree.Leaf? ==> |Blocks(a.tree)| == 1
  {
    BlocksConserved(a.disk, a.root, a.tree, a.level, a.leaked);
  }

  lemma PassesChecks(r: Rec)
    requires SizeOk(r)
    ensures !TooBig(r)
  {
  }

  /** A record for which no block is needed. */
  lemma Fits(a: Whole, r: Rec)
    requires SizeOk(r) && Need(a.tree, r) == 0
    ensures !TooBig(r) && InsertErr(a.tree, a.disk.free, r) != Aborted && !RootForgotten(a.tree, r)
  {
    hide TooBig, SplitPoint;
    PassesChecks(r);
  }

  lemma FitsIn(a: Whole, r: Rec, err: Err, b: Whole)
    requires Step(a, Insertion(r), err, b) && SizeOk(r) && Need(a.tree, r) == 0 && !Has(Recs(a.tree), r.key.rank)
    ensures err == Ok && b.tree == WithRecord(a.tree, r) && b.leaked == a.leaked
  {
    hide TooBig, Need, Has, WithRecord, Recs, Ins;
    PassesChecks(r);
  }

  lemma FitsIntoLeaf(t: Tree, r: Rec)
    requires t.Leaf? && Sum(t.recs) + RecSize(r) <= Capacity(true, true)
    ensures Need(t, r) == 0 && Recs(t) == t.recs && WithRecord(t, r) == Leaf(t.blk, Ins(t.recs, r))
  {
  }

  /** Records in ascending order, all within the limits, that fit into a root leaf together. */
  ghost predicate FillsLeaf(recs: seq<Rec>) {
    Sorted(recs) && Sum(recs) <= Capacity(true, true) && forall r <- recs :: SizeOk(r)
  }

  /** The next record of an ascending list goes to the end. */
  lemma NextInOrder(recs: seq<Rec>, i: nat)
    requires FillsLeaf(recs) && i < |recs|
    ensures Ins(recs[..i], recs[i]) == recs[..i + 1] && !Has(recs[..i], recs[i].key.rank) && SizeOk(recs[i])
    ensures Sum(recs[..i]) + RecSize(recs[i]) <= Capacity(true, true)
  {
    PosUnique(recs[..i], recs[i].key.rank, i);
    SumStep(recs, i);
    SumSplit(recs, i + 1);
  }

  /** A new tree, filled until it is one leaf with these records. */
  method FillLeaf(recs: seq<Rec>) returns (t: Btree)
    requires FillsLeaf(recs)
    ensures fresh(t) && fresh(t.store) && fresh(t.store.sm) && fresh(t.store.sm.Repr)
    ensures t.Valid() && t.tree.Leaf? && t.tree.recs == recs && t.leaked == {} && t.store.Stale() == {}
  {
    hide WholeOk, Step, FillsLeaf, Sum, Ins, Has, Need, RootForgotten, Inserted, WithRecord, Recs;
    t := new Btree();
    for i := 0 to |recs|
      invariant fresh(t) && fresh(t.store) && fresh(t.store.sm) && fresh(t.store.sm.Repr)
      invariant t.Valid() && t.tree.Leaf? && t.tree.recs == recs[..i] && t.leaked == {} && t.store.Stale() == {}
    {
      NextInOrder(recs, i);
      ghost var before := t.State();
      FitsIntoLeaf(before.tree, recs[i]);
      Fits(before, recs[i]);
      var err := t.Insert(recs[i]);
      NotStopped(before, t.State(), recs[i], err);
      FitsIn(before, recs[i], err, t.State());
    }
    assert recs[..|recs|] == recs;
  }

  lemma NotStopped(a: Whole, b: Whole, r: Rec, err: Err)
    requires Inserted(a.disk, a.tree, a.leaked, b.disk, b.tree, b.leaked, r, err)
    ensures err == InsertErr(a.tree, a.disk.free, r)
  {
  }

  function RecOfSize(rank: int, size: nat): (r: Rec)
    requires size >= 12
    ensures RecSize(r) == size && r.key.rank == rank && IndexSize(r.key) == 20
  {
    Rec(Key(rank, 8), Data(size - 12, 0))
  }

  // Duplicates

  /** A duplicate that comes to a leaf without room: it is refused, and a block is lost as long as there is one. */
  lemma Refused(a: Whole, r: Rec, err: Err, b: Whole)
    requires Sound(a) && Step(a, Insertion(r), err, b) && SizeOk(r) && r.key.rank in a.Model() && NoRoomFor(a.tree, r)
    ensures b.tree == a.tree
    ensures a.disk.free == {} ==> err == ENOSPC && b.disk.free == {} && b.leaked == a.leaked
    ensures a.disk.free != {} ==>
      err == EEXIST && |b.leaked| == |a.leaked| + 1 && |b.disk.free| == |a.disk.free| - 1
  {
    hide TooBig, NoRoomFor, AsMap, Sound, Has, Need;
    PassesChecks(r);
    PresentHas(a, r.key.rank);
    Demanding(a, r);
    StepSound(a, Insertion(r), err, b);
    StepLoses(a, Insertion(r), err, b);
    CountsFree(a);
    CountsFree(b);
  }

  lemma PresentHas(a: Whole, k: int)
    requires Sound(a)
    ensures k in a.Model() <==> Has(Recs(a.tree), k)
  {
    hide Stored, Accounted;
    RecsOk(a.tree, a.level, None, None);
    Lookup(Recs(a.tree), k);
  }

  lemma Demanding(a: Whole, r: Rec)
    requires Sound(a) && Has(Recs(a.tree), r.key.rank) && NoRoomFor(a.tree, r)
    ensures Need(a.tree, r) > 0 && InsertErr(a.tree, a.disk.free, r) != Aborted
  {
    hide Stored, Accounted, Has;
    NeedsFromDemand(a.tree, r);
    RoomDecides(a.tree, r, true, a.level, None, None);
  }

  lemma FullLeafRefuses(t: Tree, r: Rec)
    requires t.Leaf? && Sum(t.recs) + RecSize(r) > Capacity(true, true)
    ensures NoRoomFor(t, r) && Recs(t) == t.recs
  {
  }

  lemma SumOfFour(a: Rec, b: Rec, c: Rec, d: Rec)
    ensures Sum([a, b, c, d]) == RecSize(a) + RecSize(b) + RecSize(c) + RecSize(d)
    ensures Sum([b, c, d]) == RecSize(b) + RecSize(c) + RecSize(d) && Sum([a]) == RecSize(a)
  {
    SumConcat([a], [b, c, d]);
    SumConcat([b], [c, d]);
    SumConcat([c], [d]);
    assert [a] + [b, c, d] == [a, b, c, d] && [b] + [c, d] == [b, c, d] && [c] + [d] == [c, d];
  }

  /** A root leaf with two bytes left. */
  function FullLeaf(): (s: seq<Rec>)
    ensures |s| == 4
  {
    [RecOfSize(0, 252), RecOfSize(10, 252), RecOfSize(20, 252), RecOfSize(30, 252)]
  }

  lemma FullLeafFills()
    ensures FillsLeaf(FullLeaf()) && Sum(FullLeaf()) == 4 * 252 && Has(FullLeaf(), 10) && !Has(FullLeaf(), 40)
  {
    var s := FullLeaf();
    SumOfFour(s[0], s[1], s[2], s[3]);
    PosUnique(s, 10, 1);
    PosUnique(s, 40, 4);
  }

  /** Inserts a longer record for a key of a full leaf `n` times: it is refused, and every block allocated for it
      is lost. */
  method LoseBlocks(n: nat) returns (t: Btree)
    requires n < NBLOCKS - NBITMAPS - 2
    ensures fresh(t) && fresh(t.store) && fresh(t.store.sm) && fresh(t.store.sm.Repr)
    ensures t.Valid() && t.tree.Leaf? && t.tree.recs == FullLeaf() && |t.leaked| == n
    ensures |t.store.sm.Free()| == NBLOCKS - NBITMAPS - 2 - n
  {
    hide WholeOk, Step, FillsLeaf, Sum, Has, Inserted, AsMap, NoRoomFor, FullLeaf;
    FullLeafFills();
    t := FillLeaf(FullLeaf());
    for i := 0 to n
      invariant fresh(t) && fresh(t.store) && fresh(t.store.sm) && fresh(t.store.sm.Repr)
      invariant t.Valid() && t.tree.Leaf? && t.tree.recs == FullLeaf() && |t.leaked| == i
    {
      ghost var before := t.State();
      var r := RecOfSize(10, 253);
      FullLeafRefuses(before.tree, r);
      CountsFree(before);
      PresentHas(before, 10);
      Demanding(before, r);
      PassesChecks(r);
      var err := t.Insert(r);
      NotStopped(before, t.State(), r, err);
      Refused(before, r, err, t.State());
    }
    CountsFree(t.State());
  }

  /** Duplicates have used up all blocks but one. A record that splits the root asks for two: the program stops
      at the assertion that there is a block for the new root. */
  method StopForLackOfBlocks() returns (err: Err)
    ensures err == Aborted
  {
    hide WholeOk, Step, Sum, Has, Inserted, AsMap, FullLeaf, Recs;
    var t := LoseBlocks(NBLOCKS - NBITMAPS - 3);
    var r := RecOfSize(40, 253);
    ghost var before := t.State();
    FullLeafFills();
    OneBlockIsTooFew(before, r);
    err := t.Insert(r);
    if err != Aborted {
      NotStopped(before, t.State(), r, err);
    }
  }

  lemma OneBlockIsTooFew(a: Whole, r: Rec)
    requires SizeOk(r) && a.tree.Leaf? && !Has(a.tree.recs, r.key.rank) && |a.disk.free| == 1
    requires Sum(a.tree.recs) + RecSize(r) > Capacity(true, true)
    ensures !TooBig(r) && InsertErr(a.tree, a.disk.free, r) == Aborted && Stops(a, Insertion(r))
  {
    hide TooBig, Sum, Has;
    PassesChecks(r);
  }

  // Splits

  lemma SomeFree(a: Whole)
    requires Sound(a) && a.tree.Leaf? && a.leaked == {}
    ensures |a.disk.free| == NBLOCKS - NBITMAPS - 2 && a.disk.free != {}
  {
    hide Sound;
    CountsFree(a);
  }

  /** Records within the limit, and a longer one that would have to go before the second. */
  function TightLeaf(): (s: seq<Rec>)
    ensures |s| == 4
  {
    [RecOfSize(0, 251), RecOfSize(20, 253), RecOfSize(30, 253), RecOfSize(40, 253)]
  }

  function LongerRecord(): Rec { RecOfSize(10, SIZE_LIMIT + 3) }

  lemma LongerRecordStops()
    ensures Full(true, true, TightLeaf(), LongerRecord(), SIZE_LIMIT + 3) && SplitAborts(TightLeaf(), LongerRecord())
    ensures !TooBig(LongerRecord()) && FillsLeaf(TightLeaf())
    ensures Sum(TightLeaf()) + RecSize(LongerRecord()) > Capacity(true, true)
  {
    TightSums();
    PosUnique(TightLeaf(), 10, 1);
    SplitsAtOne(TightLeaf(), SIZE_LIMIT + 3);
    hide Sum, SplitPoint;
  }

  lemma TightSums()
    ensures var s := TightLeaf();
      Sum(s[..0]) == 0 && Sum(s[..1]) == 251 && Sum(s[1..]) == 3 * SIZE_LIMIT && Sum(s) == Capacity(true, true)
  {
    var s := TightLeaf();
    SumOfFour(s[0], s[1], s[2], s[3]);
    assert s[..0] == [] && s[..1] == [s[0]] && s[1..] == [s[1], s[2], s[3]];
  }

  lemma SplitsAtOne(s: seq<Rec>, n: nat)
    requires |s| > 1 && Sum(s[..0]) < MAX_INLINE / 2 <= Sum(s[..1]) + n
    ensures SplitPoint(s, n, 1, 0) == Some(1)
  {
    assert SplitPoint(s, n, 1, 0) == SplitPoint(s, n, 1, 1);
  }

  /** Four insertions within the size limit bring a new tree to a leaf at which a record three bytes above the
      limit, which `bt_insert` lets pass, stops the program at the assertion of the split. */
  method ReachStoppingSplit() returns (t: Btree)
    ensures t.Valid() && t.tree.Leaf? && t.tree.recs == TightLeaf() && t.store.sm.Free() != {}
    ensures !TooBig(LongerRecord()) && SplitAborts(t.tree.recs, LongerRecord())
    ensures Sum(t.tree.recs) + RecSize(LongerRecord()) > Capacity(true, true)
  {
    hide SplitAborts, FillsLeaf, WholeOk, TightLeaf, LongerRecord, Sum, Full;
    LongerRecordStops();
    t := FillLeaf(TightLeaf());
    SomeFree(t.State());
  }

  /** A root leaf whose records, but for the last, take less than half a node. */
  function LateLeaf(): (s: seq<Rec>)
    ensures |s| == 3
  {
    [RecOfSize(0, 252), RecOfSize(10, 253), RecOfSize(20, 253)]
  }

  lemma LateSums()
    ensures var s := LateLeaf(); Sum(s[..0]) == 0 && Sum(s[..1]) == 252 && Sum(s[..2]) == 505 && Sum(s) == 758
  {
    var s := LateLeaf();
    assert s[..3] == s;
    SumStep(s, 0);
    SumStep(s, 1);
    SumStep(s, 2);
  }

  /** Three insertions bring a new tree to a root leaf that splits without a split point: all its records stay,
      and only its flags and free space change. */
  method ReachSplitWithoutPoint() returns (t: Btree)
    ensures fresh(t) && fresh(t.store) && fresh(t.store.sm) && fresh(t.store.sm.Repr)
    ensures t.Valid() && t.tree.Leaf? && t.tree.recs == LateLeaf() && t.leaked == {} && |t.store.sm.Free()| > 1
    ensures t.store.Stale() == {}
    ensures var s, r := LateLeaf(), RecOfSize(30, 253);
      && Sum(s) + RecSize(r) > Capacity(true, true) && !Has(s, 30)
      && SplitPoint(s, RecSize(r), Pos(s, 30), 0) == None && LeftPart(s, r) == s && RightPart(s, r) == [r]
  {
    hide SplitPoint, FillsLeaf, WholeOk, LateLeaf, Sum, LeftPart, RightPart, Has;
    LateLeafSplits();
    LateLeafFills();
    t := FillLeaf(LateLeaf());
    SomeFree(t.State());
  }

  lemma LateLeafFills()
    ensures FillsLeaf(LateLeaf())
  {
    LateSums();
  }

  lemma LateLeafSplits()
    ensures var s, r := LateLeaf(), RecOfSize(30, 253);
      && Sum(s) + RecSize(r) > Capacity(true, true) && !Has(s, 30)
      && SplitPoint(s, RecSize(r), Pos(s, 30), 0) == None && LeftPart(s, r) == s && RightPart(s, r) == [r]
  {
    var s := LateLeaf();
    LateSums();
    PosUnique(s, 30, 3);
    hide Sum;
    assert SplitPoint(s, 253, 3, 3) == None;
    assert SplitPoint(s, 253, 3, 2) == None;
    assert SplitPoint(s, 253, 3, 1) == None;
  }

  // The old root

  /** A record that splits a root leaf, while there are blocks enough. */
  lemma RootSplitsWell(a: Whole, r: Rec)
    requires SizeOk(r) && a.tree.Leaf? && !Has(a.tree.recs, r.key.rank) && |a.disk.free| > 1
    requires Sum(a.tree.recs) + RecSize(r) > Capacity(true, true)
    ensures !TooBig(r) && InsertErr(a.tree, a.disk.free, r) == Ok && Need(a.tree, r) == 2
    ensures Carry(a.tree, r, true) == Some(SeparatorKey(a.tree.recs, r))
  {
    hide TooBig, Sum, Has, SeparatorKey;
    PassesChecks(r);
  }

  lemma LateIsForgotten(t: Tree, r: Rec)
    requires t.Leaf? && t.recs == LateLeaf() && r == RecOfSize(30, 253)
    ensures RootForgotten(t, r) && SizeOk(r) && !Has(t.recs, r.key.rank) && Sum(t.recs) + RecSize(r) > Capacity(true, true)
  {
    hide Sum, Has, SplitPoint, LateLeaf;
    LateLeafSplits();
  }

  lemma OldRootApart(a: Whole, b: Whole, r: Rec)
    requires Sound(a) && Sound(b) && Inserted(a.disk, a.tree, a.leaked, b.disk, b.tree, b.leaked, r, Ok) && RootForgotten(a.tree, r)
    ensures a.root in a.disk.blocks && a.disk.blocks[a.root].isRoot && a.tree.blk == a.root
    ensures a.root != b.root && a.root in b.disk.blocks
  {
    hide Inserted, RootForgotten, Shape, Accounted, Stored;
    RootWasRoot(a.disk, a.root, a.tree, a.level, a.leaked);
    ForgottenPlaced(a.disk, a.tree, a.leaked, b.disk, b.tree, b.leaked, r);
    OldRootIsChild(b.disk, b.root, b.tree, b.level, b.leaked, a.root);
    RootWasRoot(b.disk, b.root, b.tree, b.level, b.leaked);
  }

  /** A tree whose old root was read back as a root is not sound any more. */
  lemma RootReadBack(a: Whole, b: Whole, c: Whole, r: Rec)
    requires Sound(a) && Sound(b) && Inserted(a.disk, a.tree, a.leaked, b.disk, b.tree, b.leaked, r, Ok) && RootForgotten(a.tree, r)
    requires c.tree == b.tree && c.root == b.root && c.level == b.level && c.leaked == b.leaked
    requires a.root in c.disk.blocks && c.disk.blocks[a.root].isRoot
    ensures !Sound(c)
  {
    hide Inserted, RootForgotten, Shape, Accounted, Stored;
    RootWasRoot(a.disk, a.root, a.tree, a.level, a.leaked);
    ForgottenPlaced(a.disk, a.tree, a.leaked, b.disk, b.tree, b.leaked, r);
    if Sound(c) {
      OldRootIsChild(c.disk, c.root, c.tree, c.level, c.leaked, a.root);
    }
  }

  /** Three insertions, a sync, and a fourth insertion that splits the root leaf without a split point. The old
      root is changed and not flagged. When the cache lets go of it, the change is lost: it is read back as a
      root, and the tree is broken. */
  method LoseOldRoot() returns (t: Btree, err: Err, b: nat)
    ensures err == Ok && b in t.store.blocks && b != t.root && t.store.blocks[b].isRoot && !t.Valid()
  {
    hide Inserted, RootForgotten, Sum, Has, InsertErr, Need, LateLeaf, SplitPoint, WholeOk, LeftPart, RightPart;
    t := ReachSplitWithoutPoint();
    t.Sync();
    var r := RecOfSize(30, 253);
    ghost var before := t.State();
    LateIsForgotten(before.tree, r);
    RootSplitsWell(before, r);
    b := t.root;
    err := t.Insert(r);
    NotStopped(before, t.State(), r, err);
    ghost var after := t.State();
    OldRootApart(before, after, r);
    t.Evict(b);
    RootReadBack(before, after, t.State(), r);
  }

  // A full bitmap

  lemma {:induction false} NoKids(ts: seq<Tree>)
    ensures RecsAll(ts) != [] ==> |BlocksAll(ts)| > 0
  {
    if ts != [] {
      NoKids(ts[1..]);
      assert |BlocksAll(ts)| == |Blocks(ts[0])| + |BlocksAll(ts[1..])|;
      if !ts[0].Nil? {
        assert ts[0].blk in Blocks(ts[0]);
        assert |Blocks(ts[0])| > 0;
      } else {
        assert RecsAll(ts) == [] + RecsAll(ts[1..]);
      }
    }
  }

  /** A tree of one node that holds records is a leaf. */
  lemma OneNodeIsLeaf(t: Tree)
    requires Recs(t) != []
    ensures |Blocks(t)| > 0 && (|Blocks(t)| == 1 ==> t.Leaf?)
  {
    if t.Index? {
      assert |Blocks(t)| == 1 + |BlocksAll(t.kids)|;
      NoKids(t.kids);
    }
  }

  lemma TwoKids(t: Tree)
    requires t.Index? && |t.kids| == 2
    ensures Recs(t) == Recs(t.kids[0]) + Recs(t.kids[1])
    ensures |Blocks(t)| == 1 + |Blocks(t.kids[0])| + |Blocks(t.kids[1])|
  {
    assert t.kids == [t.kids[0], t.kids[1]];
    TwoContents(t.blk, t.kids[0], Key(0, 0), t.kids[1]);
  }

  /** The keys of two children lie on either side of their separator. */
  lemma KidsAtSeparator(t: Tree, level: nat)
    requires Shape(t, level, None, None) && t.Index? && |t.seps| == 1 && |t.kids| == 2
    ensures |Recs(t.kids[0])| == Pos(Recs(t), t.seps[0].rank)
  {
    var a, b, k := t.kids[0], t.kids[1], t.seps[0].rank;
    TwoKids(t);
    assert KidFits(t, level, None, None, 0) && KidFits(t, level, None, None, 1);
    if !a.Nil? {
      RecsOk(a, level - 1, None, Some(k));
    }
    if !b.Nil? {
      RecsOk(b, level - 1, Some(k), None);
    }
    SidesMeet(Recs(a), Recs(b), k);
  }

  lemma SidesMeet(a: seq<Rec>, b: seq<Rec>, k: int)
    requires (forall r <- a :: r.key.rank < k) && (forall r <- b :: k <= r.key.rank)
    ensures Pos(a + b, k) == |a|
  {
    var s := a + b;
    forall i | 0 <= i < |a| ensures s[i].key.rank < k {
      assert s[i] in a;
    }
    assert |b| > 0 ==> s[|a|] == b[0] && b[0] in b;
    PosUnique(s, k, |a|);
  }

  /** Two leaves under a root, from their records and the number of blocks. */
  lemma TwoLeaves(t: Tree, level: nat)
    requires Shape(t, level, None, None) && t.Index? && |t.seps| == 1 && |t.kids| == 2 && |Blocks(t)| == 3
    requires 0 < Pos(Recs(t), t.seps[0].rank) < |Recs(t)|
    ensures var i := Pos(Recs(t), t.seps[0].rank);
      && t.kids[0].Leaf? && t.kids[0].recs == Recs(t)[..i] && t.kids[1].Leaf? && t.kids[1].recs == Recs(t)[i..]
  {
    hide Shape, Pos, Recs, Blocks;
    TwoKids(t);
    KidsAtSeparator(t, level);
    OneNodeIsLeaf(t.kids[0]);
    OneNodeIsLeaf(t.kids[1]);
    LeafHolds(t.kids[0]);
    LeafHolds(t.kids[1]);
  }

  lemma LeafHolds(t: Tree)
    ensures t.Leaf? ==> Recs(t) == t.recs
  {
  }

  /** Two leaves: all of `LateLeaf`, and one more record. */
  ghost predicate LateTree(t: Tree, left: seq<Rec>) {
    && t.Index? && |t.seps| == 1 && t.seps[0].rank == 30 && IndexSize(t.seps[0]) == 20 && |t.kids| == 2
    && t.kids[0].Leaf? && t.kids[0].recs == left && t.kids[1].Leaf? && t.kids[1].recs == [RecOfSize(30, 253)]
  }

  /** The fourth record splits the leaf; the tree has three nodes, and the separator is the new key. */
  lemma LateSplitFacts(a: Whole, r: Rec, err: Err, b: Whole)
    requires Sound(a) && a.tree.Leaf? && a.tree.recs == LateLeaf() && a.leaked == {} && r == RecOfSize(30, 253)
    requires Step(a, Insertion(r), err, b)
    ensures err == Ok && b.tree.Index? && b.tree.seps == [r.key] && |b.tree.kids| == 2 && b.leaked == {}
    ensures Recs(b.tree) == LateLeaf() + [r] && |Blocks(b.tree)| == 3 && Sound(b)
  {
    hide TooBig, Sound, SplitPoint, Sum, LateLeaf, Blocks, Has, Need, Carry, InsertErr, Ins, RootForgotten, SeparatorKey;
    LateIsForgotten(a.tree, r);
    SomeFree(a);
    RootSplitsWell(a, r);
    StepSound(a, Insertion(r), err, b);
    LateInserted(r);
    CountsFree(a);
    CountsFree(b);
  }

  lemma LateSplit(a: Whole, r: Rec, err: Err, b: Whole)
    requires Sound(a) && a.tree.Leaf? && a.tree.recs == LateLeaf() && a.leaked == {} && r == RecOfSize(30, 253)
    requires Step(a, Insertion(r), err, b)
    ensures err == Ok && LateTree(b.tree, LateLeaf()) && b.leaked == {} && Sound(b)
  {
    hide Step, TooBig, Sound, Shape, LateLeaf, Blocks, Ins, Pos, Recs;
    LateSplitFacts(a, r, err, b);
    LateInserted(r);
    SoundShape(b);
    TwoLeaves(b.tree, b.level);
  }

  lemma SoundShape(a: Whole)
    requires Sound(a)
    ensures Shape(a.tree, a.level, None, None)
  {
  }

  lemma LateInserted(r: Rec)
    requires r == RecOfSize(30, 253)
    ensures var s := LateLeaf(); Ins(s, r) == s + [r] && Pos(Ins(s, r), 30) == 3 && SeparatorKey(s, r) == r.key && IndexSize(r.key) == 20
  {
    var s := LateLeaf();
    LateLeafSplits();
    PosUnique(s, 30, 3);
    PosUnique(s + [r], 30, 3);
  }

  /** One more record fits into the left leaf, and no other does then. */
  function LateFull(): seq<Rec> {
    Ins(LateLeaf(), RecOfSize(5, 253))
  }

  lemma LateFullSums()
    ensures Sum(LateFull()) == 1011 && Has(LateFull(), 5) && !Has(LateLeaf(), 5)
  {
    var s, r := LateLeaf(), RecOfSize(5, 253);
    LateSums();
    PosUnique(s, 5, 1);
    SumInsertAt(s, 1, r);
    PosUnique(LateFull(), 5, 1);
  }

  lemma LateRouted(t: Tree, left: seq<Rec>)
    requires LateTree(t, left)
    ensures Route(t.seps, 5) == 0 && Route(t.seps, 30) == 1
    ensures Recs(t) == left + [RecOfSize(30, 253)] && LeafFor(t, 5) == t.kids[0] && LeafFor(t, 30) == t.kids[1]
  {
    TwoKids(t);
    assert LeafFor(t.kids[0], 5) == t.kids[0] && LeafFor(t.kids[1], 30) == t.kids[1];
  }

  lemma LateGrows(t: Tree, r: Rec)
    requires LateTree(t, LateLeaf()) && r == RecOfSize(5, 253)
    ensures Need(t, r) == 0 && !Has(Recs(t), 5) && LateTree(WithRecord(t, r), LateFull())
  {
    hide LateLeaf, Sum;
    LateRouted(t, LateLeaf());
    LateSums();
    LateFullSums();
    NotLater(LateLeaf(), [RecOfSize(30, 253)], 5);
    assert Demand(t.kids[0], r, false) == 0 && Carry(t.kids[0], r, false) == None;
  }

  lemma NotLater(a: seq<Rec>, b: seq<Rec>, k: int)
    requires !Has(a, k) && |b| > 0 && k < b[0].key.rank
    ensures !Has(a + b, k)
  {
    PosUnique(a + b, k, Pos(a, k));
  }

  lemma LateRefuses(a: Whole, r: Rec)
    requires Sound(a) && LateTree(a.tree, LateFull()) && r == RecOfSize(5, 253)
    ensures NoRoomFor(a.tree, r) && 5 in a.Model() && SizeOk(r) && !TooBig(r) && InsertErr(a.tree, a.disk.free, r) != Aborted
  {
    hide TooBig, LateFull, Sum, Sound, AsMap;
    PassesChecks(r);
    LateFullSums();
    LateRouted(a.tree, LateFull());
    HasInFirst(LateFull(), [RecOfSize(30, 253)], 5);
    PresentHas(a, 5);
    Demanding(a, r);
  }

  lemma HasInFirst(a: seq<Rec>, b: seq<Rec>, k: int)
    requires Has(a, k)
    ensures Has(a + b, k)
  {
    PosUnique(a + b, k, Pos(a, k));
  }

  /** With no block free, the removal of the only record of the right leaf cannot free its block. */
  lemma LateStops(a: Whole)
    requires Sound(a) && LateTree(a.tree, LateFull()) && a.disk.free == {}
    ensures RemoveErr(a.tree, a.disk.free, 30) == Aborted && 30 in a.Model()
  {
    hide LateFull, Sound, AsMap;
    var r := RecOfSize(30, 253);
    LateRouted(a.tree, LateFull());
    LateFullBelow();
    SidesMeet(LateFull(), [r], 30);
    PosUnique([r], 30, 0);
    PresentHas(a, 30);
  }

  lemma LateFullBelow()
    ensures forall x <- LateFull() :: x.key.rank < 30
  {
    PosUnique(LateLeaf(), 5, 1);
  }

  /** Five insertions into a new tree, and duplicates until every block is used up: the removal of the only
      record of a leaf then stops the program, because no block of the bitmap is free. */
  method FillBitmap() returns (t: Btree, err: Err, ghost before: Whole)
    ensures err == Aborted && Sound(before) && Stops(before, Removal(30)) && 30 in before.Model()
  {
    hide Inserted, Step, WholeOk, RootForgotten, Sum, Has, InsertErr, Need, LateLeaf, LateFull, SplitPoint, AsMap, LateTree, NoRoomFor,
      TooBig, RemoveErr, LeftPart, RightPart;
    t := ReachSplitWithoutPoint();
    before := t.State();
    LateIsForgotten(before.tree, RecOfSize(30, 253));
    RootSplitsWell(before, RecOfSize(30, 253));
    err := t.Insert(RecOfSize(30, 253));
    NotStopped(before, t.State(), RecOfSize(30, 253), err);
    LateSplit(before, RecOfSize(30, 253), err, t.State());
    var r := RecOfSize(5, 253);
    before := t.State();
    LateGrows(before.tree, r);
    Fits(before, r);
    err := t.Insert(r);
    NotStopped(before, t.State(), r, err);
    FitsIn(before, r, err, t.State());
    while true
      invariant fresh(t) && fresh(t.store) && fresh(t.store.sm) && fresh(t.store.sm.Repr)
      invariant t.Valid() && LateTree(t.tree, LateFull())
      decreases |t.store.sm.Free()|
    {
      before := t.State();
      LateRefuses(before, r);
      err := t.Insert(r);
      NotStopped(before, t.State(), r, err);
      Refused(before, r, err, t.State());
      if err == ENOSPC {
        break;
      }
    }
    before := t.State();
    LateStops(before);
    err := t.Remove(30);
  }
}
