/** The check of a tree's file: btrees/btree.c, `bt_check_disk`. */
module BtreeCheck {
  import opened Common
  import opened Callbacks
  import opened Bitmaps
  import opened SpaceManagers
  import opened BtreeNode
  import opened BtreeShape
  import opened BtreeOrder
  import opened BtreeStore
  import opened BtreeLinks
  import opened BtreeLevels
  import opened BtreeWalk
  import opened BtreeRoot
  import opened Btrees

  // The check's own bitmap: one bit for each block of the file

  const OWN_BLOCKS: nat := (NBLOCKS + BLKS_PER_OWN - 1) / BLKS_PER_OWN
  const BLKS_PER_OWN: nat := BtreeNode.BLKSZ * 8
  const OWN_BYTES: nat := OWN_BLOCKS * BtreeNode.BLKSZ

  ghost function SetBits(bm: seq<bv8>): set<nat> {
    set i: nat | 0 <= i < |bm| * 8 && BitAt(bm, i)
  }

  /** Marks a block. A number beyond the bitmap is not written. */
  function Mark(bm: seq<bv8>, blkno: nat): (after: seq<bv8>)
    ensures |after| == |bm|
  {
    if blkno < |bm| * 8 then WithBit(bm, blkno, true) else bm
  }

  lemma MarkSets(bm: seq<bv8>, blkno: nat)
    requires blkno < |bm| * 8
    ensures SetBits(Mark(bm, blkno)) == SetBits(bm) + {blkno}
  {
    forall k: nat | k < |bm| * 8 ensures BitAt(Mark(bm, blkno), k) <==> k == blkno || BitAt(bm, k) {
      BitUpdate(bm, blkno, true, k);
    }
  }

  lemma NothingSet(bm: seq<bv8>)
    requires forall j :: 0 <= j < |bm| ==> bm[j] == 0
    ensures SetBits(bm) == {}
  {
    forall i: nat | i < |bm| * 8 ensures !BitAt(bm, i) {
      ByteOfOnes(i % 8);
    }
  }

  // The callback

  /** The check's own bitmap and the number of nodes seen. */
  datatype Checked = Checked(bm: seq<bv8>, nnodes: nat)

  function MarkPtr(bm: seq<bv8>, ptr: nat): (after: seq<bv8>)
    ensures |after| == |bm|
  {
    if ptr == 0 then bm else Mark(bm, ptr)
  }

  function PtrOf(r: Rec): nat {
    if r.val.Ptr? then r.val.blkno else 0
  }

  function MarkPtrs(bm: seq<bv8>, recs: seq<Rec>): (after: seq<bv8>)
    ensures |after| == |bm|
    decreases |recs|
  {
    if recs == [] then bm else MarkPtrs(MarkPtr(bm, PtrOf(recs[0])), recs[1..])
  }

  /** The free space of a node as the check computes it, in 16 bits. */
  function MaxFree(n: Node): nat {
    MAX_INLINE - if n.isRoot then INFO_SIZE else 0
  }

  function FreeLeft(n: Node): nat {
    (MaxFree(n) - (if n.isLeaf then 0 else PTR_SIZE) - Sum(n.recs)) % 0x1_0000
  }

  /** Checks one node, counts it and marks its children. */
  function CheckNode(n: Node, c: Checked): Reply<Checked> {
    if !n.isLeaf && |n.recs| == 0 then Reply(EILSEQ, false, c)
    else if n.freespace > MaxFree(n) then Reply(EILSEQ, false, c)
    else if n.freespace != FreeLeft(n) then Reply(EILSEQ, false, c)
    else Reply(Ok, false, Checked(if n.isLeaf then c.bm else MarkPtrs(MarkPtr(c.bm, n.first), n.recs), c.nnodes + 1))
  }

  function PassRecord(r: Rec, c: Checked): Reply<Checked> {
    Reply(Ok, false, c)
  }

  // What the callback makes of a node

  /** What the check asks of a node: records in an index node, and as free space what the records leave of 1014
      bytes, of which the root's count takes 4 and the first pointer of an index node 8. */
  ghost predicate Sane(n: Node) {
    && (n.isLeaf || n.recs != [])
    && n.freespace == 1014 - (if n.isRoot then 4 else 0) - (if n.isLeaf then 0 else 8) - Sum(n.recs)
  }

  ghost predicate RecordsFit(n: Node) {
    Sum(n.recs) <= Capacity(n.isLeaf, n.isRoot)
  }

  /** Any node, its records counted as the check counts them: modulo 65536. */
  lemma CheckNodeWraps(n: Node, c: Checked)
    ensures CheckNode(n, c).err == Ok <==>
      && (n.isLeaf || n.recs != []) && 0 <= n.freespace <= 1014 - (if n.isRoot then 4 else 0)
      && (n.freespace + Sum(n.recs) - Capacity(n.isLeaf, n.isRoot)) % 65536 == 0
    ensures CheckNode(n, c).err != Ok ==> CheckNode(n, c) == Reply(EILSEQ, false, c)
  {
    hide Sum, MarkPtrs, MarkPtr;
    if 0 <= n.freespace < 65536 {
      FreeLeftWraps(n.freespace, Capacity(n.isLeaf, n.isRoot) - Sum(n.recs));
    }
  }

  lemma FreeLeftWraps(x: int, y: int)
    requires 0 <= x < 65536
    ensures x == y % 65536 <==> (x - y) % 65536 == 0
  {
    assert x - y == x - y % 65536 - 65536 * (y / 65536);
  }

  /** A node whose records fit passes exactly if it is sane, and then it is counted. Any other is refused. */
  lemma CheckNodeExact(n: Node, c: Checked)
    requires RecordsFit(n)
    ensures var r := CheckNode(n, c);
      && r.err == (if Sane(n) then Ok else EILSEQ) && !r.stop
      && (if Sane(n) then r.ctx.nnodes == c.nnodes + 1 && |r.ctx.bm| == |c.bm| else r.ctx == c)
      && (Sane(n) && n.isLeaf ==> r.ctx.bm == c.bm)
  {
    hide Sum, MarkPtrs, MarkPtr;
  }

  /** The blocks of the children that are there. */
  ghost function Roots(ts: seq<Tree>): set<nat> {
    set t <- ts | !t.Nil? :: t.blk
  }

  lemma {:induction false} MarkPtrsSets(bm: seq<bv8>, seps: seq<Key>, kids: seq<Tree>)
    requires |kids| == |seps| + 1 && forall t <- kids[1..] :: BlkOf(t) < |bm| * 8 && (BlkOf(t) == 0 <==> t.Nil?)
    ensures SetBits(MarkPtrs(bm, IndexRecs(seps, kids))) == SetBits(bm) + Roots(kids[1..])
    decreases |seps|
  {
    var recs := IndexRecs(seps, kids);
    if seps != [] {
      var next := MarkPtr(bm, PtrOf(recs[0]));
      assert kids[1] in kids[1..] && kids[1..][1..] == kids[2..];
      assert recs[1..] == IndexRecs(seps[1..], kids[1..]);
      MarkPtrSets(bm, kids[1]);
      MarkPtrsSets(next, seps[1..], kids[1..]);
      assert Roots(kids[1..]) == Roots([kids[1]]) + Roots(kids[2..]) by {
        assert kids[1..] == [kids[1]] + kids[2..];
      }
    }
  }

  lemma MarkPtrSets(bm: seq<bv8>, t: Tree)
    requires BlkOf(t) < |bm| * 8 && (BlkOf(t) == 0 <==> t.Nil?)
    ensures SetBits(MarkPtr(bm, BlkOf(t))) == SetBits(bm) + Roots([t])
  {
    if !t.Nil? {
      MarkSets(bm, t.blk);
      assert t in [t];
    }
  }

  /** All index nodes have separators. */
  ghost predicate Forked(t: Tree)
    decreases t
  {
    t.Index? ==> |t.seps| > 0 && forall j :: 0 <= j < |t.kids| ==> Forked(t.kids[j])
  }

  lemma {:induction false} ShapeForked(t: Tree, level: nat, lo: Option<int>, hi: Option<int>)
    requires Shape(t, level, lo, hi)
    ensures Forked(t)
    decreases level
  {
    if t.Index? {
      forall j | 0 <= j < |t.kids| ensures Forked(t.kids[j]) {
        assert KidFits(t, level, lo, hi, j);
        if !t.kids[j].Nil? {
          ShapeForked(t.kids[j], level - 1, LoOf(t.seps, lo, j), HiOf(t.seps, hi, j));
        }
      }
    }
  }

  /** All blocks of the queued subtrees hold nodes whose records fit. */
  ghost predicate AllFit(blocks: map<nat, Node>, bs: multiset<nat>) {
    forall b <- bs :: b in blocks && RecordsFit(blocks[b])
  }

  ghost predicate AllSane(blocks: map<nat, Node>, bs: multiset<nat>) {
    forall b <- bs :: b in blocks && Sane(blocks[b])
  }

  /** The queued subtrees lie within the bitmap, and are marked already. */
  ghost predicate Checkable(blocks: map<nat, Node>, ts: seq<Tree>, bm: seq<bv8>) {
    && AllReadable(blocks, ts) && 0 !in BlocksAll(ts) && (forall b <- BlocksAll(ts) :: b < |bm| * 8)
    && AllFit(blocks, BlocksAll(ts)) && Roots(ts) <= SetBits(bm)
  }

  lemma HeadInQueue(ts: seq<Tree>)
    requires ts != [] && !ts[0].Nil?
    ensures ts[0].blk in BlocksAll(ts)
  {
    assert ts[0].blk in Blocks(ts[0]);
  }

  lemma CheckNodeMarks(n: Node, c: Checked)
    ensures CheckNode(n, c).err == Ok ==>
      CheckNode(n, c).ctx.bm == if n.isLeaf then c.bm else MarkPtrs(MarkPtr(c.bm, n.first), n.recs)
  {
    hide MarkPtrs, MarkPtr, FreeLeft, MaxFree;
  }

  lemma ReadKind(n: Node, t: Tree)
    requires ReadsAs(n, t)
    ensures n.isLeaf <==> t.Leaf?
    ensures t.Index? ==> |t.kids| == |t.seps| + 1 && n.first == BlkOf(t.kids[0]) && n.recs == IndexRecs(t.seps, t.kids)
  {
  }

  /** The first node of the queue is counted and its children are marked, or it is refused. */
  lemma HeadChecked(blocks: map<nat, Node>, ts: seq<Tree>, c: Checked)
    requires Checkable(blocks, ts, c.bm) && ts != []
    ensures BlkOf(ts[0]) in blocks && RecordsFit(blocks[BlkOf(ts[0])])
    ensures var n := blocks[BlkOf(ts[0])];
      Sane(n) ==> SetBits(CheckNode(n, c).ctx.bm) == SetBits(c.bm) + Roots(KidsOf(ts[0]))
  {
    hide Readable, Sane, RecordsFit, FreeLeft, MaxFree, MarkPtrs, MarkPtr, SetBits, CheckNode, ReadsAs, Blocks;
    var t := ts[0];
    HeadInQueue(ts);
    var n := blocks[t.blk];
    ReadFromBlock(blocks, t);
    ReadKind(n, t);
    CheckNodeExact(n, c);
    CheckNodeMarks(n, c);
    if t.Index? {
      KidPtrs(blocks, ts, |c.bm| * 8);
      MarkPtrSets(c.bm, t.kids[0]);
      MarkPtrsSets(MarkPtr(c.bm, n.first), t.seps, t.kids);
      assert t.kids == [t.kids[0]] + t.kids[1..];
      RootsConcat([t.kids[0]], t.kids[1..]);
    }
  }

  lemma RootsConcat(a: seq<Tree>, b: seq<Tree>)
    ensures Roots(a + b) == Roots(a) + Roots(b)
  {
  }

  lemma KidPtrs(blocks: map<nat, Node>, ts: seq<Tree>, limit: nat)
    requires AllReadable(blocks, ts) && ts != [] && ts[0].Index? && 0 !in BlocksAll(ts) && forall b <- BlocksAll(ts) :: b < limit
    requires |ts[0].kids| > 0
    ensures forall t <- ts[0].kids :: BlkOf(t) < limit && (BlkOf(t) == 0 <==> t.Nil?)
  {
    var kids := ts[0].kids;
    assert ts[0].blk in BlocksAll(ts) by {
      assert ts[0].blk in Blocks(ts[0]);
    }
    forall t | t in kids ensures BlkOf(t) < limit && (BlkOf(t) == 0 <==> t.Nil?) {
      var j :| 0 <= j < |kids| && kids[j] == t;
      BlockInKids(kids, j);
      assert BlocksAll(kids) <= Blocks(ts[0]) <= BlocksAll(ts);
    }
  }

  lemma NextCheckable(blocks: map<nat, Node>, ts: seq<Tree>, bm: seq<bv8>, bm': seq<bv8>)
    requires Checkable(blocks, ts, bm) && ts != []
    requires |bm'| == |bm| && SetBits(bm') == SetBits(bm) + Roots(KidsOf(ts[0]))
    ensures Checkable(blocks, After(ts), bm')
    ensures AllLive(ts) && BlocksAll(ts) == multiset{ts[0].blk} + BlocksAll(After(ts))
  {
    NextSmaller(ts);
    NextReadable(blocks, ts);
    NextRoots(ts);
    PartOf(ts[0].blk, BlocksAll(After(ts)), BlocksAll(ts));
    hide SetBits, AllReadable, BlocksAll, After, Roots, RecordsFit;
  }

  lemma PartOf(b: nat, part: multiset<nat>, whole: multiset<nat>)
    requires whole == multiset{b} + part
    ensures forall x :: x in whole <==> x == b || x in part
  {
  }

  /** All nodes are sane exactly if the first one is and those after it are. */
  lemma SaneStep(blocks: map<nat, Node>, ts: seq<Tree>)
    requires AllLive(ts) && ts != [] && BlocksAll(ts) == multiset{ts[0].blk} + BlocksAll(After(ts)) && ts[0].blk in blocks
    ensures AllSane(blocks, BlocksAll(ts)) <==> Sane(blocks[ts[0].blk]) && AllSane(blocks, BlocksAll(After(ts)))
  {
    hide BlocksAll, After, Sane;
    PartOf(ts[0].blk, BlocksAll(After(ts)), BlocksAll(ts));
  }

  lemma NextRoots(ts: seq<Tree>)
    requires ts != []
    ensures Roots(After(ts)) <= Roots(ts) + Roots(KidsOf(ts[0]))
  {
    RootsConcat(ts[1..], Present(KidsOf(ts[0])));
  }

  /** If all nodes are sane, each is counted and all are marked. If one is not, the walk ends in EILSEQ. */
  lemma {:induction false} CheckWalk(blocks: map<nat, Node>, ts: seq<Tree>, c: Checked)
    requires Checkable(blocks, ts, c.bm)
    ensures var o := Visit(WalkEvents(blocks, ts), OnEvent(CheckNode, PassRecord), c);
      if AllSane(blocks, BlocksAll(ts)) then
        && !Ends(o) && |o.ctx.bm| == |c.bm| && o.ctx.nnodes == c.nnodes + |BlocksAll(ts)|
        && SetBits(o.ctx.bm) == SetBits(c.bm) + SetOf(BlocksAll(ts))
      else o.err == EILSEQ
    decreases |BlocksAll(ts)|
  {
    var onEvent := OnEvent(CheckNode, PassRecord);
    hide SetBits, Readable, CheckNode, Sane, RecordsFit;
    if ts == [] {
      VisitNone(onEvent, c);
    } else {
      var n := blocks[BlkOf(ts[0])];
      HeadChecked(blocks, ts, c);
      CheckNodeExact(n, c);
      WalkEventsStep(blocks, ts);
      NodeVisited(n, c);
      VisitConcat(NodeEvents(n), WalkEvents(blocks, After(ts)), onEvent, c);
      NextSmaller(ts);
      SaneStep(blocks, ts);
      if Sane(n) {
        var c1 := CheckNode(n, c).ctx;
        NextCheckable(blocks, ts, c.bm, c1.bm);
        CheckWalk(blocks, After(ts), c1);
        MarksAdd(blocks, ts, c.bm);
      }
    }
  }

  /** The children's blocks are marked again when they are visited themselves. */
  lemma MarksAdd(blocks: map<nat, Node>, ts: seq<Tree>, bm: seq<bv8>)
    requires Checkable(blocks, ts, bm) && ts != []
    ensures SetBits(bm) + Roots(KidsOf(ts[0])) + SetOf(BlocksAll(After(ts))) == SetBits(bm) + SetOf(BlocksAll(ts))
  {
    hide SetBits, Readable, BlocksAll;
    NextSmaller(ts);
    assert ts[0] in ts && ts[0].blk in SetBits(bm);
    KidsAfter(ts);
  }

  lemma KidsAfter(ts: seq<Tree>)
    requires ts != []
    ensures forall b <- Roots(KidsOf(ts[0])) :: b in BlocksAll(After(ts))
  {
    var kids := KidsOf(ts[0]);
    PresentContents(kids);
    BlocksConcat(ts[1..], Present(kids));
    forall b | b in Roots(kids) ensures b in BlocksAll(After(ts)) {
      var t :| t in kids && !t.Nil? && t.blk == b;
      var j :| 0 <= j < |kids| && kids[j] == t;
      BlockInKids(kids, j);
    }
  }

  lemma NodeVisited(n: Node, c: Checked)
    requires !CheckNode(n, c).stop
    ensures Visit(NodeEvents(n), OnEvent(CheckNode, PassRecord), c)
         == Reply(CheckNode(n, c).err, CheckNode(n, c).err != Ok, CheckNode(n, c).ctx)
  {
    var onEvent, recs := OnEvent(CheckNode, PassRecord), if n.isLeaf then AtRecords(n.recs) else [];
    hide CheckNode;
    assert NodeEvents(n)[1..] == recs;
    RecordsPassed(n.recs, CheckNode, PassRecord, CheckNode(n, c).ctx);
    VisitNone(onEvent, CheckNode(n, c).ctx);
  }

  // The space manager's bitmaps against the check's own

  /** `memcmp` of a bitmap's first bytes. */
  method SameBytes(bytes: array<bv8>, bm: seq<bv8>, from: nat, n: nat) returns (same: bool)
    requires n <= bytes.Length && from + n <= |bm|
    ensures same <==> forall j :: 0 <= j < n ==> bytes[j] == bm[from + j]
  {
    same := true;
    var i := 0;
    while i < n
      invariant i <= n && forall j :: 0 <= j < i ==> bytes[j] == bm[from + j]
    {
      if bytes[i] != bm[from + i] {
        return false;
      }
      i := i + 1;
    }
  }

  /** The first `n` bytes of all bitmaps taken together are those of the check's bitmap. */
  ghost predicate SameUpTo(sm: SpaceManager, bm: seq<bv8>, n: nat)
    requires sm.Valid() && |bm| == OWN_BYTES
    reads sm, sm.Repr
  {
    forall k :: 0 <= k < n && k < OWN_BYTES ==> sm.bitmaps[k / BM_BYTES].bytes[k % BM_BYTES] == bm[k]
  }

  lemma ByteNumber(i: nat, j: nat)
    requires j < BM_BYTES
    ensures (i * BM_BYTES + j) / BM_BYTES == i && (i * BM_BYTES + j) % BM_BYTES == j
  {
  }

  lemma SameLess(sm: SpaceManager, bm: seq<bv8>, n: nat, m: nat)
    requires sm.Valid() && |bm| == OWN_BYTES
    ensures n <= m && SameUpTo(sm, bm, m) ==> SameUpTo(sm, bm, n)
    ensures n >= OWN_BYTES ==> (SameUpTo(sm, bm, n) <==> SameUpTo(sm, bm, OWN_BYTES))
    ensures SameUpTo(sm, bm, 0)
  {
  }

  /** The bytes that are compared of bitmap `i`. */
  ghost predicate IsPart(i: nat, n: nat) {
    && i < NBITMAPS && i * BM_BYTES + n <= OWN_BYTES
    && n == if OWN_BYTES - i * BM_BYTES < BM_BYTES then OWN_BYTES - i * BM_BYTES else BM_BYTES
  }

  ghost predicate SamePart(sm: SpaceManager, bm: seq<bv8>, i: nat, n: nat)
    requires sm.Valid() && |bm| == OWN_BYTES && IsPart(i, n)
    reads sm, sm.Repr
  {
    forall j :: 0 <= j < n ==> sm.bitmaps[i].bytes[j] == bm[i * BM_BYTES + j]
  }

  lemma PartOfAll(sm: SpaceManager, bm: seq<bv8>, i: nat, n: nat)
    requires sm.Valid() && |bm| == OWN_BYTES && IsPart(i, n) && SameUpTo(sm, bm, (i + 1) * BM_BYTES)
    ensures SamePart(sm, bm, i, n)
  {
    forall j | 0 <= j < n ensures sm.bitmaps[i].bytes[j] == bm[i * BM_BYTES + j] {
      ByteNumber(i, j);
      var k := i * BM_BYTES + j;
      assert sm.bitmaps[k / BM_BYTES].bytes[k % BM_BYTES] == bm[k];
    }
  }

  lemma PartAdded(sm: SpaceManager, bm: seq<bv8>, i: nat, n: nat)
    requires sm.Valid() && |bm| == OWN_BYTES && IsPart(i, n) && SameUpTo(sm, bm, i * BM_BYTES) && SamePart(sm, bm, i, n)
    ensures SameUpTo(sm, bm, (i + 1) * BM_BYTES)
  {
    forall k | 0 <= k < (i + 1) * BM_BYTES && k < OWN_BYTES
      ensures sm.bitmaps[k / BM_BYTES].bytes[k % BM_BYTES] == bm[k]
    {
      if k >= i * BM_BYTES {
        var j := k - i * BM_BYTES;
        ByteNumber(i, j);
        assert sm.bitmaps[i].bytes[j] == bm[i * BM_BYTES + j];
      }
    }
  }

  /** One bitmap more has been compared. */
  lemma SameStep(sm: SpaceManager, bm: seq<bv8>, i: nat, n: nat)
    requires sm.Valid() && |bm| == OWN_BYTES && IsPart(i, n)
    ensures SameUpTo(sm, bm, (i + 1) * BM_BYTES) <==> SameUpTo(sm, bm, i * BM_BYTES) && SamePart(sm, bm, i, n)
  {
    hide SameUpTo, SamePart;
    SameLess(sm, bm, i * BM_BYTES, (i + 1) * BM_BYTES);
    if SameUpTo(sm, bm, (i + 1) * BM_BYTES) {
      PartOfAll(sm, bm, i, n);
    } else if SameUpTo(sm, bm, i * BM_BYTES) && SamePart(sm, bm, i, n) {
      PartAdded(sm, bm, i, n);
    }
  }

  method SameAsPart(sm: SpaceManager, bm: seq<bv8>, i: nat, n: nat, byte: nat) returns (same: bool)
    requires sm.Valid() && |bm| == OWN_BYTES && IsPart(i, n) && byte == i * BM_BYTES
    ensures same <==> SamePart(sm, bm, i, n)
  {
    same := SameBytes(sm.bitmaps[i].bytes, bm, byte, n);
  }

  /** Compares the bitmaps one after the other, as far as the check's own reaches. */
  method SameBitmaps(sm: SpaceManager, bm: seq<bv8>) returns (same: bool)
    requires sm.Valid() && |bm| == OWN_BYTES
    ensures same <==> SameUpTo(sm, bm, OWN_BYTES)
  {
    hide SameUpTo, SamePart;
    var remaining, byte := OWN_BYTES, 0;
    SameLess(sm, bm, 0, 0);
    same := true;
    for i := 0 to NBITMAPS
      invariant byte == i * BM_BYTES && SameUpTo(sm, bm, byte) && same
      invariant i < NBITMAPS ==> remaining == OWN_BYTES - byte
    {
      var n := if remaining < BM_BYTES then remaining else BM_BYTES;
      SameStep(sm, bm, i, n);
      SameLess(sm, bm, byte + BM_BYTES, OWN_BYTES + BM_BYTES);
      same := SameAsPart(sm, bm, i, n, byte);
      byte := byte + BM_BYTES;
      if !same {
        SameLess(sm, bm, OWN_BYTES + BM_BYTES, OWN_BYTES);
        return;
      }
      remaining := if remaining < BM_BYTES then 0 else remaining - BM_BYTES;
    }
    SameLess(sm, bm, byte, OWN_BYTES);
  }

  /** The bit of a block, in the bitmap it belongs to and in the check's own. */
  lemma BlockBit(sm: SpaceManager, b: nat)
    requires sm.Valid() && b < NBLOCKS
    ensures b / 8 < OWN_BYTES && b / 8 / BM_BYTES < NBITMAPS && b / 8 % BM_BYTES < BM_BYTES
    ensures b in sm.Free() <==> sm.bitmaps[b / 8 / BM_BYTES].bytes[b / 8 % BM_BYTES] & Mask(b % 8) == 0
  {
    var i, k := b / BLKS_PER_BM, b % BLKS_PER_BM;
    BitNumber(b);
    InBitmap(sm, b, i, k);
  }

  /** A block's bit, counted from the start of its bitmap and from the start of all. */
  lemma BitNumber(b: nat)
    ensures b / 8 / BM_BYTES == b / BLKS_PER_BM && b / 8 % BM_BYTES == b % BLKS_PER_BM / 8 && b % 8 == b % BLKS_PER_BM % 8
    ensures b < NBLOCKS ==> b / 8 < OWN_BYTES && b / BLKS_PER_BM < NBITMAPS
  {
    var i, k := b / BLKS_PER_BM, b % BLKS_PER_BM;
    var q, off := k / 8, k % 8;
    assert b == (i * BM_BYTES + q) * 8 + off;
    assert b / 8 == i * BM_BYTES + q && b % 8 == off;
    ByteNumber(i, q);
  }

  lemma InBitmap(sm: SpaceManager, b: nat, i: nat, k: nat)
    requires sm.Valid() && i == b / BLKS_PER_BM < NBITMAPS && k == b % BLKS_PER_BM
    ensures b in sm.Free() <==> sm.bitmaps[i].bytes[k / 8] & Mask(k % 8) == 0
  {
    var bytes := sm.bitmaps[i].bytes[..];
    assert sm.Clear()[i] == ClearBits(bytes);
    assert b in sm.Free() <==> k in ClearBits(bytes);
    assert k in ClearBits(bytes) <==> !BitAt(bytes, k);
  }

  lemma SameIsUsed(sm: SpaceManager, bm: seq<bv8>, b: nat)
    requires sm.Valid() && |bm| == OWN_BYTES && SameUpTo(sm, bm, OWN_BYTES)
    ensures b in SetBits(bm) <==> b in Range(0, NBLOCKS) - sm.Free()
  {
    hide Mask, Range, SameUpTo, BitAt;
    InRangeOfBlocks(b);
    if b < NBLOCKS {
      BitAgrees(sm, bm, b, b / 8);
    }
  }

  lemma BitAgrees(sm: SpaceManager, bm: seq<bv8>, b: nat, k: nat)
    requires sm.Valid() && |bm| == OWN_BYTES && SameUpTo(sm, bm, OWN_BYTES) && b < NBLOCKS && k == b / 8
    ensures b in sm.Free() <==> !BitAt(bm, b)
  {
    hide Mask;
    BlockBit(sm, b);
    assert sm.bitmaps[k / BM_BYTES].bytes[k % BM_BYTES] == bm[k];
  }

  lemma InRangeOfBlocks(b: nat)
    ensures b in Range(0, NBLOCKS) <==> b < NBLOCKS
    ensures NBLOCKS == OWN_BYTES * 8
  {
    assert Within(0, b, NBLOCKS) <==> b < NBLOCKS;
  }

  lemma UsedByte(sm: SpaceManager, bm: seq<bv8>, k: nat)
    requires sm.Valid() && |bm| == OWN_BYTES && k < OWN_BYTES && SetBits(bm) == Range(0, NBLOCKS) - sm.Free()
    ensures k / BM_BYTES < NBITMAPS && sm.bitmaps[k / BM_BYTES].bytes[k % BM_BYTES] == bm[k]
  {
    hide SetBits, Range, Mask;
    UsedBit(sm, bm, k, 0);
    forall off: nat | off < 8
      ensures sm.bitmaps[k / BM_BYTES].bytes[k % BM_BYTES] & Mask(off) != 0 <==> bm[k] & Mask(off) != 0
    {
      UsedBit(sm, bm, k, off);
    }
    ByteOfBits(sm.bitmaps[k / BM_BYTES].bytes[k % BM_BYTES], bm[k]);
  }

  /** The bytes agree exactly if the check has marked the blocks that are in use, and no others. */
  lemma SameMeansUsed(sm: SpaceManager, bm: seq<bv8>)
    requires sm.Valid() && |bm| == OWN_BYTES
    ensures SameUpTo(sm, bm, OWN_BYTES) <==> SetBits(bm) == Range(0, NBLOCKS) - sm.Free()
  {
    hide SetBits, Range;
    if SameUpTo(sm, bm, OWN_BYTES) {
      forall b: nat ensures b in SetBits(bm) <==> b in Range(0, NBLOCKS) - sm.Free() {
        SameIsUsed(sm, bm, b);
      }
    }
    if SetBits(bm) == Range(0, NBLOCKS) - sm.Free() {
      forall k | 0 <= k < OWN_BYTES ensures sm.bitmaps[k / BM_BYTES].bytes[k % BM_BYTES] == bm[k] {
        UsedByte(sm, bm, k);
      }
    }
  }

  lemma UsedBit(sm: SpaceManager, bm: seq<bv8>, k: nat, off: nat)
    requires sm.Valid() && |bm| == OWN_BYTES && k < OWN_BYTES && off < 8
    requires SetBits(bm) == Range(0, NBLOCKS) - sm.Free()
    ensures k / BM_BYTES < NBITMAPS
    ensures sm.bitmaps[k / BM_BYTES].bytes[k % BM_BYTES] & Mask(off) != 0 <==> bm[k] & Mask(off) != 0
  {
    var b := k * 8 + off;
    assert b / 8 == k && b % 8 == off && b < NBLOCKS;
    BlockBit(sm, b);
    assert Within(0, b, NBLOCKS);
    assert b in SetBits(bm) <==> BitAt(bm, b);
  }

  // The whole check

  /** Marks the space manager's block and the bitmap blocks. */
  method MarkSystem() returns (bm: seq<bv8>)
    ensures |bm| == OWN_BYTES && SetBits(bm) == SystemBlocks()
  {
    bm := seq(OWN_BYTES, _ => 0);
    NothingSet(bm);
    MarkSets(bm, SM_BLKNO);
    bm := Mark(bm, SM_BLKNO);
    RangeGrows(0);
    for i := 0 to NBITMAPS
      invariant |bm| == OWN_BYTES && SetBits(bm) == {SM_BLKNO} + Range(ROOT_BLKNO + 1, ROOT_BLKNO + 1 + i)
    {
      MarkSets(bm, ROOT_BLKNO + 1 + i);
      RangeGrows(i);
      bm := Mark(bm, ROOT_BLKNO + 1 + i);
    }
  }

  lemma RangeGrows(i: nat)
    ensures Range(ROOT_BLKNO + 1, ROOT_BLKNO + 1) == {}
    ensures Range(ROOT_BLKNO + 1, ROOT_BLKNO + 2 + i) == Range(ROOT_BLKNO + 1, ROOT_BLKNO + 1 + i) + {ROOT_BLKNO + 1 + i}
  {
    var more, fewer := Range(ROOT_BLKNO + 1, ROOT_BLKNO + 2 + i), Range(ROOT_BLKNO + 1, ROOT_BLKNO + 1 + i);
    forall b: nat ensures b in more <==> b in fewer + {ROOT_BLKNO + 1 + i} {
      assert Within(ROOT_BLKNO + 1, b, ROOT_BLKNO + 2 + i) <==> ROOT_BLKNO + 1 <= b < ROOT_BLKNO + 2 + i;
      assert Within(ROOT_BLKNO + 1, b, ROOT_BLKNO + 1 + i) <==> ROOT_BLKNO + 1 <= b < ROOT_BLKNO + 1 + i;
    }
  }

  /** What the check finds in a file: every node is sane, the root counts the nodes, and the blocks in use are
      those that are found, and the space manager's. */
  ghost predicate FileOk(blocks: map<nat, Node>, nnodes: nat, t: Tree, free: set<nat>) {
    && AllSane(blocks, Blocks(t)) && nnodes == |Blocks(t)|
    && SystemBlocks() + SetOf(Blocks(t)) == Range(0, NBLOCKS) - free
  }

  /** A file in which the pointers from the root on lead to nodes, as many as the root counts or fewer. */
  ghost predicate Walkable(blocks: map<nat, Node>, infos: map<nat, nat>, rblkno: nat, t: Tree) {
    && !t.Nil? && t.blk == rblkno && Readable(blocks, t) && 0 !in Blocks(t)
    && (forall b <- Blocks(t) :: b < NBLOCKS) && AllFit(blocks, Blocks(t))
    && rblkno in infos && infos[rblkno] >= |Blocks(t)|
  }

  /** The check of a file, sound or not. */
  method CheckFile(sm: SpaceManager, blocks: map<nat, Node>, infos: map<nat, nat>, rblkno: nat, ghost t: Tree) returns (err: Err)
    requires sm.Valid() && Walkable(blocks, infos, rblkno, t)
    ensures err == if FileOk(blocks, infos[rblkno], t, sm.Free()) then Ok else EILSEQ
  {
    hide SetBits, SystemBlocks, SameUpTo, AllSane, Readable;
    var bm := MarkSystem();
    CheckStarts(blocks, infos, rblkno, t, bm);
    bm := Mark(bm, rblkno);
    CheckWalk(blocks, [t], Checked(bm, 0));
    var slots, reply := BtreeWalk.IterateDisk(blocks, infos, rblkno, CheckNode, PassRecord, Checked(bm, 0), t);
    if reply.err != Ok {
      return reply.err;
    }
    if infos[rblkno] != reply.ctx.nnodes {
      return EILSEQ;
    }
    bm := reply.ctx.bm;
    SameMeansUsed(sm, bm);
    var same := SameBitmaps(sm, bm);
    err := if same then Ok else EILSEQ;
  }

  lemma CheckStarts(blocks: map<nat, Node>, infos: map<nat, nat>, rblkno: nat, t: Tree, bm: seq<bv8>)
    requires Walkable(blocks, infos, rblkno, t) && |bm| == OWN_BYTES && SetBits(bm) == SystemBlocks()
    ensures AllReadable(blocks, [t]) && BlocksAll([t]) == Blocks(t)
    ensures |Mark(bm, rblkno)| == OWN_BYTES && SetBits(Mark(bm, rblkno)) + SetOf(Blocks(t)) == SystemBlocks() + SetOf(Blocks(t))
    ensures Checkable(blocks, [t], Mark(bm, rblkno))
  {
    hide SetBits, SystemBlocks, Readable, Mark, RecordsFit, Blocks, BlocksAll, ReadsAs;
    ReadFromBlock(blocks, t);
    RecsSingle(t);
    RootIsBlock(t);
    MarkSets(bm, rblkno);
  }

  /** The check of a sound tree passes if and only if no block has been lost. */
  method CheckDisk(t: Btree) returns (err: Err)
    requires t.Valid()
    ensures err == if t.leaked == {} then Ok else EILSEQ
  {
    hide WholeOk, FileOk, Walkable, Accounted;
    ghost var s := t.store.State();
    SoundFile(s, t.root, t.tree, t.level, t.leaked);
    err := CheckFile(t.store.sm, t.store.blocks, t.store.infos, t.rblkno, t.tree);
  }

  /** The file of a sound tree. */
  lemma SoundFile(s: Snap, root: nat, t: Tree, level: nat, leaked: set<nat>)
    requires WholeOk(s, root, t, level, leaked)
    ensures Walkable(s.blocks, s.infos, root, t) && (FileOk(s.blocks, s.infos[root], t, s.free) <==> leaked == {})
  {
    hide Readable, SystemBlocks, LevelOrder, LeafRecs, RecordsFit, Sane, Shape, Stored;
    WalkOfWhole(s, root, t, level, leaked);
    assert [t][0] == t;
    WholeParts(s, root, t, level, leaked);
    ShapeForked(t, level, None, None);
    StoredSane(s.blocks, t, true);
    BlocksExist(s.free, t, leaked);
    LostMeansMismatch(s.free, SetOf(Blocks(t)), leaked, SystemBlocks() + SetOf(Blocks(t)));
  }

  lemma {:induction false} StoredSane(blocks: map<nat, Node>, t: Tree, isRoot: bool)
    requires Stored(blocks, t, isRoot) && Forked(t)
    ensures AllSane(blocks, Blocks(t)) && AllFit(blocks, Blocks(t))
    decreases t, 0
  {
    if t.Index? {
      AllStoredSane(blocks, t.kids);
    }
  }

  lemma {:induction false} AllStoredSane(blocks: map<nat, Node>, ts: seq<Tree>)
    requires StoredAll(blocks, ts) && forall i :: 0 <= i < |ts| ==> Forked(ts[i])
    ensures AllSane(blocks, BlocksAll(ts)) && AllFit(blocks, BlocksAll(ts))
    decreases ts, 1
  {
    if ts != [] {
      StoredSane(blocks, ts[0], false);
      AllStoredSane(blocks, ts[1..]);
    }
  }

  lemma RootIsBlock(t: Tree)
    ensures !t.Nil? ==> t.blk in Blocks(t)
  {
  }

  lemma LostMeansMismatch(free: set<nat>, nodes: set<nat>, leaked: set<nat>, marked: set<nat>)
    requires Accounted(free, nodes, leaked) && marked == SystemBlocks() + nodes
    ensures marked == Range(0, NBLOCKS) - free <==> leaked == {}
  {
    hide SystemBlocks, Range;
    assert Range(0, NBLOCKS) - free == marked + leaked;
  }
}
