/** The node operations of btrees/btree.c on the blocks they change: allocation, insertion with and without
    a split, and removal. */
module BtreeStore {
  import opened Common
  import opened SpaceManagers
  import opened BtreeNode
  import opened BtreeSplit
  import opened BtreeShape

  /** What a split reports to the caller: the separator and block of the new node, and the node count taken
      from a root that is a root no more. */
  datatype SplitInfo = NoSplit | Split(key: Key, ptr: nat, nnodes: nat)

  /** What the node operations read and write: node blocks, node counts, free blocks. */
  datatype Snap = Snap(blocks: map<nat, Node>, infos: map<nat, nat>, free: set<nat>)

  /** A node as `btn_init_phys` leaves it. */
  function FreshNode(isLeaf: bool, isRoot: bool): Node {
    Node(isLeaf, isRoot, 0, [], MAX_INLINE - (if isRoot then INFO_SIZE else 0))
  }

  /** Every block outside a set is unchanged. */
  ghost predicate SameOutside(before: map<nat, Node>, after: map<nat, Node>, touched: set<nat>) {
    forall b <- before :: b !in touched ==> b in after && after[b] == before[b]
  }

  /** The outcome of a split: two nodes hold the old records and the new one, in order. */
  ghost predicate IsSplit(s0: Snap, blocks: map<nat, Node>, blk: nat, r: Rec,
                          bsi: SplitInfo, nblk: nat, left: seq<Rec>, right: seq<Rec>)
  {
    && blk in s0.blocks && blk != nblk
    && var n := s0.blocks[blk];
    && (n.isRoot ==> blk in s0.infos)
    && Halves(n.isLeaf, Ins(n.recs, r), left, right)
    && right[0].key == SeparatorKey(n.recs, r)
    && bsi == Split(right[0].key, nblk, if n.isRoot then s0.infos[blk] else 0)
    && NodeIs(blocks, blk, n.isLeaf, false, n.first, left) && NodeIs(blocks, nblk, n.isLeaf, false, 0, right)
    && SameOutside(s0.blocks, blocks, {blk, nblk})
  }

  /** A node with the free space that its records leave. */
  ghost predicate Divided(blocks: map<nat, Node>, blk: nat, isLeaf: bool, first: nat, recs: seq<Rec>) {
    blk in blocks && blocks[blk] == Node(isLeaf, false, first, recs, Capacity(isLeaf, false) - Sum(recs))
  }

  /** One block was taken: it was free, and its node count is cleared. */
  ghost predicate TookBlock(s0: Snap, s: Snap, nblk: nat) {
    nblk in s0.free && s.free == s0.free - {nblk} && s.infos == s0.infos[nblk := 0]
  }

  /** The outcome of `btn_insert`. */
  ghost predicate NodeOutcome(s0: Snap, s: Snap, blk: nat, r: Rec,
                              err: Err, bsi: SplitInfo, nblk: nat, left: seq<Rec>, right: seq<Rec>)
    requires blk in s0.blocks
  {
    var n := s0.blocks[blk];
    var fits, dup := RecSize(r) <= n.freespace, Has(n.recs, r.key.rank);
    && err == (if !fits && s0.free == {} then ENOSPC else if dup then EEXIST else Ok)
    && (err == ENOSPC ==> s == s0)
    && (fits ==> s.free == s0.free && s.infos == s0.infos)
    && (!fits && err != ENOSPC ==> TookBlock(s0, s, nblk))
    && (err == EEXIST ==> SameOutside(s0.blocks, s.blocks, if fits then {} else {nblk}))
    && (err == Ok && fits ==>
          NodeIs(s.blocks, blk, n.isLeaf, n.isRoot, n.first, Ins(n.recs, r)) && SameOutside(s0.blocks, s.blocks, {blk}))
    && (err == Ok && !fits ==> IsSplit(s0, s.blocks, blk, r, bsi, nblk, left, right))
    && (fits || err != Ok ==> bsi == NoSplit)
  }

  /** A root whose records all stay when it splits: its flags and free space change, and `bc_dirty` is not
      called for it. */
  ghost predicate NotFlagged(n: Node, r: Rec) {
    n.isRoot && SplitPoint(n.recs, RecSize(r), Pos(n.recs, r.key.rank), 0).None?
  }

  lemma NodeIsFull(blocks: map<nat, Node>, after: map<nat, Node>, blk: nat, r: Rec)
    requires blk in blocks && blk in after && after[blk] == blocks[blk] && var n := blocks[blk];
      && NodeIs(blocks, blk, n.isLeaf, n.isRoot, n.first, n.recs) && Sorted(n.recs) && !Has(n.recs, r.key.rank)
      && (forall x <- n.recs :: RecSize(x) <= SIZE_LIMIT) && n.freespace < RecSize(r) <= SIZE_LIMIT
    ensures var n := blocks[blk]; Full(n.isLeaf, n.isRoot, n.recs, r, SIZE_LIMIT) && NodeIs(after, blk, n.isLeaf, n.isRoot, n.first, n.recs)
  {
  }

  /** A split after the new block was allocated, seen from before. */
  lemma SplitFromBefore(s0: Snap, infos: map<nat, nat>, blocks: map<nat, Node>, blk: nat, r: Rec,
                        bsi: SplitInfo, nblk: nat, left: seq<Rec>, right: seq<Rec>)
    requires blk in s0.blocks && blk != nblk && infos == s0.infos[nblk := 0] && (s0.blocks[blk].isRoot ==> blk in s0.infos)
    requires IsSplit(Snap(s0.blocks[nblk := FreshNode(s0.blocks[blk].isLeaf, false)], infos, {}), blocks, blk, r, bsi, nblk, left, right)
    ensures IsSplit(s0, blocks, blk, r, bsi, nblk, left, right)
  {
    hide NodeIs, Halves, Ins, SeparatorKey;
  }

  class NodeStore {
    const sm: SpaceManager
    /** The node blocks, through the block cache. */
    var blocks: map<nat, Node>
    /** The node count in the last bytes of a block; it has a meaning in the root only. */
    var infos: map<nat, nat>
    /** The blocks for which `bc_dirty` was called since they were last written to disk, and the disk. */
    var flagged: set<nat>
    var disk: map<nat, Node>
    var diskInfos: map<nat, nat>

    ghost predicate OnDisk(b: nat)
      reads this
    {
      && b in blocks && b in disk && disk[b] == blocks[b]
      && (b in infos <==> b in diskInfos) && (b in infos ==> diskInfos[b] == infos[b])
    }

    /** Blocks that were changed and not flagged: if the cache lets go of one, the change is lost. */
    ghost function Stale(): set<nat>
      reads this
    {
      set b <- blocks | b !in flagged && !OnDisk(b)
    }

    ghost predicate Valid()
      reads this, sm, sm.Repr
    {
      sm.Valid() && this !in sm.Repr
    }

    ghost function State(): Snap
      requires Valid()
      reads this, sm, sm.Repr
    {
      Snap(blocks, infos, sm.Free())
    }

    /** A block in use that holds a node in order and within the size limit. */
    ghost predicate Usable(blk: nat)
      requires Valid()
      reads this, sm, sm.Repr
    {
      && blk in blocks && blk !in sm.Free()
      && (var n := blocks[blk];
          && NodeIs(blocks, blk, n.isLeaf, n.isRoot, n.first, n.recs)
          && Sorted(n.recs) && (forall x <- n.recs :: RecSize(x) <= SIZE_LIMIT)
          && (!n.isLeaf ==> n.recs != []))
    }

    constructor (sm: SpaceManager)
      requires sm.Valid()
      ensures Valid() && this.sm == sm && blocks == map[] && infos == map[] && flagged == {}
    {
      this.sm := sm;
      blocks, infos := map[], map[];
      disk, diskInfos, flagged := map[], map[], {};
    }

    method Alloc(isLeaf: bool, isRoot: bool) returns (err: Err, blk: nat)
      requires Valid()
      modifies `blocks, `infos, `flagged, sm.Repr
      ensures Valid()
      ensures err == if old(sm.Free()) == {} then ENOSPC else Ok
      ensures err != Ok ==> blocks == old(blocks) && infos == old(infos) && sm.Free() == old(sm.Free())
      ensures err == Ok ==> blk in old(sm.Free()) && sm.Free() == old(sm.Free()) - {blk}
      ensures err == Ok ==> blocks == old(blocks)[blk := FreshNode(isLeaf, isRoot)] && infos == old(infos)[blk := 0]
      ensures Stale() <= old(Stale()) && flagged == if err == Ok then old(flagged) + {blk} else old(flagged)
    {
      err, blk := sm.Balloc();
      if err == Ok {
        blocks := blocks[blk := FreshNode(isLeaf, isRoot)];
        infos := infos[blk := 0];
        flagged := flagged + {blk};
      }
    }

    /** The first record of an index node; `ptr` becomes its leading child pointer. A fresh node becomes a
        sound one: its free space is what the pointer and the record leave over. */
    method InsertFirst(blk: nat, ptr: nat, r: Rec)
      requires blk in blocks && !blocks[blk].isLeaf && blocks[blk].recs == []
      requires RecSize(r) + PTR_SIZE <= blocks[blk].freespace
      modifies `blocks, `flagged
      ensures blk in blocks && SameOutside(old(blocks), blocks, {blk})
      ensures var n, n' := old(blocks)[blk], blocks[blk];
        && n'.recs == [r] && n'.first == ptr && !n'.isLeaf && n'.isRoot == n.isRoot
        && n'.freespace + Sum(n'.recs) + PTR_SIZE == n.freespace
      ensures var isRoot := old(blocks)[blk].isRoot;
        old(blocks)[blk] == FreshNode(false, isRoot) ==> NodeIs(blocks, blk, false, isRoot, ptr, [r])
      ensures Stale() <= old(Stale()) && flagged == old(flagged) + {blk}
    {
      var n := blocks[blk];
      var recsz := RecSize(r) + PTR_SIZE;
      blocks := blocks[blk := n.(first := ptr, recs := [r], freespace := n.freespace - recsz)];
      flagged := flagged + {blk};
    }

    /** Finds the place of a key among the records of a node. */
    method Scan(blk: nat, k: int) returns (dup: bool, pos: nat)
      requires blk in blocks
      ensures pos == Pos(blocks[blk].recs, k) && (dup <==> Has(blocks[blk].recs, k))
    {
      var recs := blocks[blk].recs;
      pos := 0;
      while pos < |recs|
        invariant pos <= Pos(recs, k)
      {
        var comp := k - recs[pos].key.rank;
        if comp <= 0 {
          PosReached(recs, k, pos);
          return comp == 0, pos;
        }
        pos := pos + 1;
      }
      dup := false;
    }

    /** Insertion into a node that has room: in order, unless the key is taken. */
    method InsertFitting(blk: nat, r: Rec) returns (err: Err)
      requires blk in blocks && RecSize(r) <= blocks[blk].freespace
      modifies `blocks, `flagged
      ensures err == if Has(old(blocks[blk]).recs, r.key.rank) then EEXIST else Ok
      ensures err != Ok ==> blocks == old(blocks)
      ensures err == Ok ==>
        var n := old(blocks[blk]);
        blocks == old(blocks)[blk := n.(recs := Ins(n.recs, r), freespace := n.freespace - RecSize(r))]
      ensures Stale() <= old(Stale()) && flagged == if err == Ok then old(flagged) + {blk} else old(flagged)
    {
      var recsz := RecSize(r);
      var dup, i := Scan(blk, r.key.rank);
      if dup {
        return EEXIST;
      }
      var n := blocks[blk];
      blocks := blocks[blk := n.(recs := n.recs[..i] + [r] + n.recs[i..], freespace := n.freespace - recsz)];
      flagged := flagged + {blk};
      err := Ok;
    }

    /** Moves the records from the split point on to the fresh node `nblk`. `tailsz` counts their bytes, and
        those of the new record if it goes there too. */
    method MoveTail(blk: nat, nblk: nat, sp: Option<nat>, newInTail: bool, tailsz: nat, nrecsz: nat)
      requires blk in blocks && nblk in blocks && blk != nblk
      requires var n := blocks[blk];
        && !n.isRoot && n.freespace == Capacity(n.isLeaf, false) - Sum(n.recs)
        && blocks[nblk] == FreshNode(n.isLeaf, false)
        && (sp.Some? ==> sp.value < |n.recs| && tailsz == Sum(n.recs[sp.value..]) + (if newInTail then nrecsz else 0))
      modifies `blocks, `flagged
      ensures var n := old(blocks[blk]); var d := if sp.Some? then sp.value else |n.recs|;
        && Divided(blocks, blk, n.isLeaf, n.first, n.recs[..d])
        && (if sp.Some? then Divided(blocks, nblk, n.isLeaf, 0, n.recs[d..])
            else nblk in blocks && blocks[nblk] == FreshNode(n.isLeaf, false))
      ensures SameOutside(old(blocks), blocks, {blk, nblk})
      ensures Stale() <= old(Stale()) && flagged == old(flagged) + if sp.Some? then {blk, nblk} else {}
    {
      var n, nn := blocks[blk], blocks[nblk];
      if sp.None? {
        assert n.recs[..|n.recs|] == n.recs;
        return;
      }
      var movesz := tailsz;
      if newInTail {
        movesz := movesz - nrecsz;
      }
      SumSplit(n.recs, sp.value);
      nn := nn.(recs := n.recs[sp.value..], freespace := nn.freespace - movesz);
      if !nn.isLeaf {
        nn := nn.(freespace := nn.freespace - PTR_SIZE);
      }
      blocks := blocks[blk := n.(recs := n.recs[..sp.value], freespace := n.freespace + movesz)][nblk := nn];
      flagged := flagged + {blk, nblk};
    }

    /** Puts the new record into the half it belongs to; a new index node without records takes it as its
        first, with a zero pointer before it. */
    method InsertIntoHalf(blk: nat, r: Rec)
      requires blk in blocks && !Has(blocks[blk].recs, r.key.rank)
      requires var n := blocks[blk];
        && Sum(n.recs) + RecSize(r) <= Capacity(n.isLeaf, n.isRoot)
        && (if n.recs == [] then n == FreshNode(n.isLeaf, n.isRoot) else n.freespace == Capacity(n.isLeaf, n.isRoot) - Sum(n.recs))
      modifies `blocks, `flagged
      ensures var n := old(blocks[blk]); NodeIs(blocks, blk, n.isLeaf, n.isRoot, n.first, Ins(n.recs, r))
      ensures SameOutside(old(blocks), blocks, {blk})
      ensures Stale() <= old(Stale()) && flagged == old(flagged) + {blk}
    {
      SumInsertAt(blocks[blk].recs, Pos(blocks[blk].recs, r.key.rank), r);
      if !blocks[blk].isLeaf && |blocks[blk].recs| == 0 {
        InsertFirst(blk, 0, r);
        assert Ins([], r) == [r];
      } else {
        var err := InsertFitting(blk, r);
      }
    }

    /** Divides the records and puts the new one on its side. */
    method DivideNode(blk: nat, nblk: nat, r: Rec, sp: Option<nat>, ins: Option<nat>, tailsz: nat, ghost wasRoot: bool)
      returns (ghost left: seq<Rec>, ghost right: seq<Rec>)
      requires blk in blocks && nblk in blocks && blk != nblk
      requires var n := blocks[blk];
        && !n.isRoot && n.freespace == Capacity(n.isLeaf, false) - Sum(n.recs)
        && blocks[nblk] == FreshNode(n.isLeaf, false)
        && Full(n.isLeaf, wasRoot, n.recs, r, SIZE_LIMIT)
      requires var n, pos := blocks[blk], Pos(blocks[blk].recs, r.key.rank);
        && sp == SplitPoint(n.recs, RecSize(r), pos, 0)
        && ins == (if pos < |n.recs| then Some(pos) else None)
        && tailsz == TailSize(n.recs, RecSize(r), pos, sp)
      modifies `blocks, `flagged
      ensures var n := old(blocks[blk]);
        && Halves(n.isLeaf, Ins(n.recs, r), left, right) && right == RightPart(n.recs, r)
        && NodeIs(blocks, blk, n.isLeaf, false, n.first, left) && NodeIs(blocks, nblk, n.isLeaf, false, 0, right)
        && SameOutside(old(blocks), blocks, {blk, nblk})
      ensures Stale() <= old(Stale()) && flagged == old(flagged) + if sp.Some? then {blk, nblk} else {nblk}
    {
      hide SplitPoint, TailSize, Full, Pos, DivideAt, Ins, ThirdNode, Sum, Has, RightPart, LeftPart, RecSize;
      SplitPlan(blocks[blk].isLeaf, wasRoot, blocks[blk].recs, r, sp, ins, tailsz);
      ghost var d;
      d, left, right := CleanHalves(blocks[blk].isLeaf, wasRoot, blocks[blk].recs, r);
      var nrecsz := RecSize(r);
      var newInTail := ins.None? || sp.None? || ins.value >= sp.value;
      if newInTail && tailsz > MAX_INLINE {
        assert false;
      }
      MoveTail(blk, nblk, sp, newInTail, tailsz, nrecsz);
      var room := blocks[blk].freespace;
      var inHead := (ins.Some? && sp.Some? && ins.value < sp.value) || (tailsz > MAX_INLINE && nrecsz <= room);
      PlaceRecord(blk, nblk, r, inHead, blocks[blk].recs, blocks[nblk].recs);
    }

    /** Puts the new record into one of the two nodes. */
    method PlaceRecord(blk: nat, nblk: nat, r: Rec, inHead: bool, ghost head: seq<Rec>, ghost tail: seq<Rec>)
      requires blk != nblk && blk in blocks && nblk in blocks && blocks[blk].isLeaf == blocks[nblk].isLeaf
      requires head != [] && Divided(blocks, blk, blocks[blk].isLeaf, blocks[blk].first, head)
      requires if tail == [] then blocks[nblk] == FreshNode(blocks[blk].isLeaf, false)
               else Divided(blocks, nblk, blocks[blk].isLeaf, 0, tail)
      requires var cap := Capacity(blocks[blk].isLeaf, false);
        if inHead then !Has(head, r.key.rank) && Sum(head) + RecSize(r) <= cap && tail != [] && Sum(tail) <= cap
        else !Has(tail, r.key.rank) && Sum(tail) + RecSize(r) <= cap && Sum(head) <= cap
      modifies `blocks, `flagged
      ensures var n := old(blocks[blk]);
        && NodeIs(blocks, blk, n.isLeaf, false, n.first, if inHead then Ins(head, r) else head)
        && NodeIs(blocks, nblk, n.isLeaf, false, 0, if inHead then tail else Ins(tail, r))
      ensures SameOutside(old(blocks), blocks, {blk, nblk})
      ensures Stale() <= old(Stale()) && flagged == old(flagged) + {if inHead then blk else nblk}
    {
      hide Ins, Has, Sum;
      if inHead {
        InsertIntoHalf(blk, r);
      } else {
        InsertIntoHalf(nblk, r);
      }
    }

    /** Splits a full node: allocates the new node before it looks at the records, so that a duplicate found
        then leaves an allocated block that no pointer leads to. */
    method InsertSplit(blk: nat, r: Rec)
      returns (err: Err, bsi: SplitInfo, ghost nblk: nat, ghost left: seq<Rec>, ghost right: seq<Rec>)
      requires Valid() && Usable(blk) && RecSize(r) <= SIZE_LIMIT && RecSize(r) > blocks[blk].freespace
      requires blocks[blk].isRoot ==> blk in infos
      modifies `blocks, `infos, `flagged, sm.Repr
      ensures Valid()
      ensures err == if old(sm.Free()) == {} then ENOSPC else if Has(old(blocks)[blk].recs, r.key.rank) then EEXIST else Ok
      ensures err == ENOSPC ==> blocks == old(blocks) && infos == old(infos) && sm.Free() == old(sm.Free())
      ensures err != ENOSPC ==> nblk in old(sm.Free()) && sm.Free() == old(sm.Free()) - {nblk} && infos == old(infos)[nblk := 0]
      ensures err == EEXIST ==> SameOutside(old(blocks), blocks, {nblk})
      ensures err == Ok ==> IsSplit(old(State()), blocks, blk, r, bsi, nblk, left, right)
      ensures err != Ok ==> bsi == NoSplit
      ensures Stale() <= old(Stale()) + if err == Ok && NotFlagged(old(blocks)[blk], r) then {blk} else {}
      ensures err == Ok && NotFlagged(old(blocks)[blk], r) ==> flagged == old(flagged) + {nblk}
    {
      hide SplitPoint, TailSize, Pos, Has, Full, IsSplit, NodeIs, Sorted;
      bsi, left, right := NoSplit, [], [];
      var n := blocks[blk];
      ghost var s0 := State();
      var newBlk;
      err, newBlk := Alloc(n.isLeaf, false);
      nblk := newBlk;
      if err != Ok {
        return;
      }
      var dup, sp, ins, tailsz := FindSplit(n.recs, r);
      if dup {
        return EEXIST, NoSplit, nblk, [], [];
      }
      NodeIsFull(s0.blocks, blocks, blk, r);
      ghost var infos1 := infos;
      bsi, left, right := CompleteSplit(blk, newBlk, r, sp, ins, tailsz);
      SplitFromBefore(s0, infos1, blocks, blk, r, bsi, nblk, left, right);
    }

    /** A root that splits is a root no more: its node count goes up to the caller. */
    method CompleteSplit(blk: nat, nblk: nat, r: Rec, sp: Option<nat>, ins: Option<nat>, tailsz: nat)
      returns (bsi: SplitInfo, ghost left: seq<Rec>, ghost right: seq<Rec>)
      requires blk in blocks && nblk in blocks && blk != nblk
      requires var n := blocks[blk];
        && NodeIs(blocks, blk, n.isLeaf, n.isRoot, n.first, n.recs)
        && blocks[nblk] == FreshNode(n.isLeaf, false)
        && Full(n.isLeaf, n.isRoot, n.recs, r, SIZE_LIMIT) && (n.isRoot ==> blk in infos)
      requires var n, pos := blocks[blk], Pos(blocks[blk].recs, r.key.rank);
        && sp == SplitPoint(n.recs, RecSize(r), pos, 0)
        && ins == (if pos < |n.recs| then Some(pos) else None)
        && tailsz == TailSize(n.recs, RecSize(r), pos, sp)
      modifies `blocks, `flagged
      ensures IsSplit(Snap(old(blocks), infos, {}), blocks, blk, r, bsi, nblk, left, right)
      ensures Stale() <= old(Stale()) + if NotFlagged(old(blocks)[blk], r) then {blk} else {}
      ensures sp.None? ==> flagged == old(flagged) + {nblk}
    {
      var n := blocks[blk];
      var nnodes := 0;
      if n.isRoot {
        nnodes := infos[blk];
        blocks := blocks[blk := n.(isRoot := false, freespace := n.freespace + INFO_SIZE)];
      }
      left, right := DivideNode(blk, nblk, r, sp, ins, tailsz, n.isRoot);
      bsi := Split(blocks[nblk].recs[0].key, nblk, nnodes);
    }

    /** `btn_insert` on a node that has records or is a leaf. */
    method Insert(blk: nat, r: Rec)
      returns (err: Err, bsi: SplitInfo, ghost nblk: nat, ghost left: seq<Rec>, ghost right: seq<Rec>)
      requires Valid() && Usable(blk) && RecSize(r) <= SIZE_LIMIT
      requires blocks[blk].isRoot ==> blk in infos
      modifies `blocks, `infos, `flagged, sm.Repr
      ensures Valid()
      ensures NodeOutcome(old(State()), State(), blk, r, err, bsi, nblk, left, right)
      ensures Stale() <= old(Stale()) + if bsi.Split? && NotFlagged(old(blocks)[blk], r) then {blk} else {}
      ensures bsi.Split? && NotFlagged(old(blocks)[blk], r) ==> flagged == old(flagged) + {nblk}
    {
      bsi, nblk, left, right := NoSplit, 0, [], [];
      if RecSize(r) > blocks[blk].freespace {
        err, bsi, nblk, left, right := InsertSplit(blk, r);
      } else {
        SumInsertAt(blocks[blk].recs, Pos(blocks[blk].recs, r.key.rank), r);
        err := InsertFitting(blk, r);
      }
    }

    /** Writes a flagged block to disk. */
    method WriteOut(b: nat)
      modifies `flagged, `disk, `diskInfos
      ensures flagged == old(flagged) - {b} && Stale() == old(Stale()) - {b}
      ensures b in blocks ==> OnDisk(b)
    {
      if b in blocks {
        disk := disk[b := blocks[b]];
        diskInfos := if b in infos then diskInfos[b := infos[b]] else diskInfos - {b};
      }
      flagged := flagged - {b};
    }

    /** `bt_sync`: all flagged blocks are written. */
    method Sync()
      modifies `flagged, `disk, `diskInfos
      ensures flagged == {} && Stale() == old(Stale())
    {
      while flagged != {}
        invariant flagged <= old(flagged) && Stale() == old(Stale())
        decreases flagged
      {
        var b :| b in flagged;
        WriteOut(b);
      }
    }

    /** The cache gives the room of a block that nobody holds to another, and reads the block again later. A
        flagged block is written first; of any other, what is on disk comes back. */
    method Evict(b: nat)
      requires b in blocks && (b in flagged || b in disk)
      modifies `blocks, `infos, `flagged, `disk, `diskInfos
      ensures b !in old(Stale()) ==> blocks == old(blocks) && infos == old(infos)
      ensures b in old(Stale()) ==> blocks == old(blocks)[b := old(disk)[b]]
      ensures Stale() == old(Stale()) - {b} && flagged == old(flagged) - {b}
    {
      if b in flagged {
        WriteOut(b);
      }
      blocks := blocks[b := disk[b]];
      infos := if b in diskInfos then infos[b := diskInfos[b]] else infos - {b};
    }

    /** Removes the record of the given key from a node. */
    method Remove(blk: nat, k: int) returns (err: Err)
      requires blk in blocks && Sorted(blocks[blk].recs)
      modifies `blocks, `flagged
      ensures err == if Has(old(blocks)[blk].recs, k) then Ok else ENOENT
      ensures err != Ok ==> blocks == old(blocks)
      ensures err == Ok ==> var n := old(blocks)[blk]; var recs := Del(n.recs, k);
        blocks == old(blocks)[blk := n.(recs := recs, freespace := n.freespace + Sum(n.recs) - Sum(recs))]
      ensures Stale() <= old(Stale())
    {
      var dup, i := Scan(blk, k);
      if !dup {
        return ENOENT;
      }
      var n := blocks[blk];
      var recsz := RecSize(n.recs[i]);
      SumWithout(n.recs, i);
      blocks := blocks[blk := n.(recs := n.recs[..i] + n.recs[i + 1..], freespace := n.freespace + recsz)];
      flagged := flagged + {blk};
      err := Ok;
    }
  }
}
