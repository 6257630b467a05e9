/** The space manager: the bitmaps of btrees/btree.c taken together (`sm_balloc`, `sm_bfree`) and their
    initial contents (`bt_create`). */
module SpaceManagers {
  import opened Common
  import opened Bitmaps

  const START_SIZE: nat := 64 * 1024 * 1024
  const NBLOCKS: nat := START_SIZE / BLKSZ
  const NBITMAPS: nat := (NBLOCKS + BLKS_PER_BM - 1) / BLKS_PER_BM
  const SM_BLKNO: nat := 0
  const ROOT_BLKNO: nat := 1

  /** The free block numbers, given the clear bits of each bitmap. */
  ghost function FreeOf(clear: seq<set<nat>>): set<nat> {
    set b: nat | 0 <= b < |clear| * BLKS_PER_BM && b % BLKS_PER_BM in clear[b / BLKS_PER_BM]
  }

  lemma BlockNumber(i: nat, k: nat)
    requires k < BLKS_PER_BM
    ensures (BLKS_PER_BM * i + k) / BLKS_PER_BM == i && (BLKS_PER_BM * i + k) % BLKS_PER_BM == k
  {
  }

  lemma FreeOfUpdate(clear: seq<set<nat>>, i: nat, k: nat, on: bool)
    requires i < |clear| && k < BLKS_PER_BM
    ensures FreeOf(clear[i := if on then clear[i] - {k} else clear[i] + {k}])
         == if on then FreeOf(clear) - {BLKS_PER_BM * i + k} else FreeOf(clear) + {BLKS_PER_BM * i + k}
  {
    BlockNumber(i, k);
  }

  /** The first free block of the first bitmap that has one is the lowest of all. */
  lemma LeastFree(clear: seq<set<nat>>, i: nat, k: nat)
    requires i < |clear| && IsLeast(k, clear[i]) && k < BLKS_PER_BM
    requires forall j :: 0 <= j < i ==> clear[j] == {}
    ensures IsLeast(BLKS_PER_BM * i + k, FreeOf(clear))
  {
    BlockNumber(i, k);
    forall b | b in FreeOf(clear) ensures BLKS_PER_BM * i + k <= b {
      assert clear[b / BLKS_PER_BM] != {};
    }
  }

  lemma NoneFree(clear: seq<set<nat>>)
    requires forall i :: 0 <= i < |clear| ==> clear[i] == {}
    ensures FreeOf(clear) == {}
  {
    forall b: nat ensures b !in FreeOf(clear) {
      if b < |clear| * BLKS_PER_BM {
        assert clear[b / BLKS_PER_BM] == {};
      }
    }
  }

  /** Some block of the same bitmap is free. */
  ghost predicate RoomToFree(free: set<nat>, blkno: nat) {
    exists f <- free :: f / BLKS_PER_BM == blkno / BLKS_PER_BM
  }

  /** A block's bitmap, and its bit there. */
  lemma BlockIn(clear: seq<set<nat>>, blkno: nat)
    requires |clear| == NBITMAPS && blkno < NBLOCKS
    ensures blkno / BLKS_PER_BM < NBITMAPS && BLKS_PER_BM * (blkno / BLKS_PER_BM) + blkno % BLKS_PER_BM == blkno
    ensures blkno in FreeOf(clear) <==> blkno % BLKS_PER_BM in clear[blkno / BLKS_PER_BM]
  {
  }

  lemma BitsBelow(bytes: seq<bv8>)
    ensures forall k <- ClearBits(bytes) :: k < |bytes| * 8
  {
  }

  /** A bitmap stands for 8128 blocks. */
  lemma BlocksOfABitmap(free: set<nat>, blkno: nat)
    ensures RoomToFree(free, blkno) <==> exists f <- free :: blkno / 8128 * 8128 <= f < (blkno / 8128 + 1) * 8128
    ensures RoomToFree(Range(8100, NBLOCKS), 5000) && !RoomToFree(Range(8128, NBLOCKS), 5000)
  {
    forall f: nat ensures f / BLKS_PER_BM == blkno / BLKS_PER_BM <==> blkno / 8128 * 8128 <= f < (blkno / 8128 + 1) * 8128 {
    }
    assert Within(8100, 8100, NBLOCKS) && 8100 in Range(8100, NBLOCKS) && 8100 / BLKS_PER_BM == 5000 / BLKS_PER_BM == 0;
    forall f | f in Range(8128, NBLOCKS) ensures f / BLKS_PER_BM != 5000 / BLKS_PER_BM {
      assert Within(8128, f, NBLOCKS);
    }
  }

  /** A file of 64 MB: 65536 blocks, of which the space manager, the root and nine bitmaps are not free. */
  lemma FileInNumbers()
    ensures NBLOCKS == 65536 && NBITMAPS == 9 && SM_BLKNO == 0 && ROOT_BLKNO == 1
    ensures |Range(NBITMAPS + 2, NBLOCKS)| == 65525 && Range(NBITMAPS + 2, NBLOCKS) == Range(11, 65536)
  {
    RangeSize(NBITMAPS + 2, NBLOCKS);
  }

  lemma RoomIn(clear: seq<set<nat>>, mind: nat, blkno: nat)
    requires mind < |clear| && mind == blkno / BLKS_PER_BM && clear[mind] != {} && forall k <- clear[mind] :: k < BLKS_PER_BM
    ensures RoomToFree(FreeOf(clear), blkno)
  {
    var k :| k in clear[mind];
    BlockNumber(mind, k);
    assert BLKS_PER_BM * mind + k in FreeOf(clear);
  }

  lemma NoRoomIn(clear: seq<set<nat>>, mind: nat, blkno: nat)
    requires mind < |clear| && mind == blkno / BLKS_PER_BM && |clear[mind]| == 0
    ensures !RoomToFree(FreeOf(clear), blkno)
  {
    assert clear[mind] == {};
  }

  ghost function InitiallyClear(i: nat): set<nat> {
    Range(if i == 0 then NBITMAPS + 2 else 0,
          if i == NBITMAPS - 1 then BLKS_PER_BM - (NBITMAPS * BLKS_PER_BM - NBLOCKS) else BLKS_PER_BM)
  }

  lemma InitialRanges()
    ensures InitiallyClear(0) == Range(NBITMAPS + 2, BLKS_PER_BM)
    ensures forall i :: 1 <= i < NBITMAPS ==>
      InitiallyClear(i) == Range(0, BLKS_PER_BM - if i == NBITMAPS - 1 then NBITMAPS * BLKS_PER_BM - NBLOCKS else 0)
  {
  }

  lemma InitiallyFree(clear: seq<set<nat>>)
    requires |clear| == NBITMAPS && forall i :: 0 <= i < NBITMAPS ==> clear[i] == InitiallyClear(i)
    ensures FreeOf(clear) == Range(NBITMAPS + 2, NBLOCKS) && forall b <- FreeOf(clear) :: b < NBLOCKS
  {
  }

  class SpaceManager {
    /** The bitmap blocks, in the order of the space manager's map. */
    const bitmaps: seq<Bitmap>
    ghost const Repr: set<object>

    ghost predicate Valid()
      reads this, Repr
    {
      && Distinct()
      && (forall i :: 0 <= i < NBITMAPS ==> bitmaps[i].Valid())
      && (forall b <- Free() :: b < NBLOCKS)
    }

    ghost predicate Distinct() {
      && |bitmaps| == NBITMAPS
      && (forall i :: 0 <= i < NBITMAPS ==> bitmaps[i] in Repr && bitmaps[i].bytes in Repr)
      && (forall i, j :: 0 <= i < j < NBITMAPS ==> bitmaps[i] != bitmaps[j] && bitmaps[i].bytes != bitmaps[j].bytes)
    }

    /** The clear bits of each bitmap, as block numbers within it. */
    ghost function Clear(): seq<set<nat>>
      requires Distinct()
      reads Repr
    {
      seq(|bitmaps|, i requires 0 <= i < |bitmaps| reads Repr => ClearBits(bitmaps[i].bytes[..]))
    }

    /** The block numbers whose bit is clear. */
    ghost function Free(): set<nat>
      requires Distinct()
      reads Repr
    {
      FreeOf(Clear())
    }

    /** The initial bitmaps: the space manager's own block, the root and the bitmap blocks are allocated,
        and so are the bits of the last bitmap that lie beyond the last block. */
    constructor ()
      ensures Valid() && fresh(Repr) && this in Repr
      ensures Free() == Range(NBITMAPS + 2, NBLOCKS) && |Free()| == 65525
    {
      hide ClearBits, FreeOf, Range, InitiallyClear;
      InitialRanges();
      var bms: seq<Bitmap> := [];
      var bm := new Bitmap.Leading(NBITMAPS + 2);
      bms := [bm];
      ghost var repr: set<object> := {bm, bm.bytes};
      for i := 1 to NBITMAPS
        invariant |bms| == i && fresh(repr)
        invariant forall k :: 0 <= k < i ==> bms[k] in repr && bms[k].bytes in repr && bms[k].Valid()
        invariant forall k, l :: 0 <= k < l < i ==> bms[k] != bms[l] && bms[k].bytes != bms[l].bytes
        invariant forall k :: 0 <= k < i ==> ClearBits(bms[k].bytes[..]) == InitiallyClear(k)
      {
        var nextra := if i == NBITMAPS - 1 then NBITMAPS * BLKS_PER_BM - NBLOCKS else 0;
        bm := new Bitmap.Trailing(nextra);
        bms := bms + [bm];
        repr := repr + {bm, bm.bytes};
      }
      bitmaps := bms;
      Repr := repr + {this};
      new;
      InitiallyFree(Clear());
      FileInNumbers();
    }

    /** Allocates the lowest free block over all bitmaps. */
    method Balloc() returns (err: Err, blkno: nat)
      requires Valid()
      modifies Repr
      ensures Valid()
      ensures err == if old(Free()) == {} then ENOSPC else Ok
      ensures err != Ok ==> Free() == old(Free())
      ensures err == Ok ==> IsLeast(blkno, old(Free())) && Free() == old(Free()) - {blkno}
    {
      hide FreeOf, ClearBits;
      var i := FirstWithFree();
      ghost var before := Clear();
      if i == NBITMAPS {
        NoneFree(before);
        return ENOSPC, 0;
      }
      assert forall b <- FreeOf(before) :: b < NBLOCKS by {
        assert Free() == FreeOf(before);
      }
      var bmind;
      err, bmind := AllocateIn(i);
      LeastFree(before, i, bmind);
      FreeOfUpdate(before, i, bmind, true);
      blkno := BLKS_PER_BM * i + bmind;
      assert Clear() == before[i := before[i] - {bmind}];
      assert Free() == FreeOf(before) - {blkno} && blkno in FreeOf(before);
      assert forall b <- Free() :: b < NBLOCKS;
    }

    /** The first bitmap that has a free block. */
    method FirstWithFree() returns (i: nat)
      requires Valid()
      ensures i <= NBITMAPS && (forall k :: 0 <= k < i ==> Clear()[k] == {})
      ensures i < NBITMAPS ==> bitmaps[i].nfree != 0
    {
      i := 0;
      while i < NBITMAPS && bitmaps[i].nfree == 0
        invariant i <= NBITMAPS
        invariant forall k :: 0 <= k < i ==> Clear()[k] == {}
      {
        assert |Clear()[i]| == 0;
        i := i + 1;
      }
    }

    /** Allocates from bitmap `i` and leaves the other bitmaps alone. */
    method AllocateIn(i: nat) returns (err: Err, bmind: nat)
      requires Valid() && i < NBITMAPS && bitmaps[i].nfree != 0
      modifies Repr
      ensures Distinct() && (forall j :: 0 <= j < NBITMAPS ==> bitmaps[j].Valid())
      ensures err == Ok && IsLeast(bmind, old(Clear())[i]) && bmind < BLKS_PER_BM
      ensures Clear() == old(Clear())[i := old(Clear())[i] - {bmind}]
    {
      err, bmind := bitmaps[i].Balloc();
    }

    /** Frees in bitmap `i` and leaves the other bitmaps alone. */
    method FreeIn(i: nat, bmind: nat)
      requires Valid() && i < NBITMAPS && bitmaps[i].nfree != 0 && bmind < BLKS_PER_BM && bmind !in Clear()[i]
      modifies Repr
      ensures Distinct() && (forall j :: 0 <= j < NBITMAPS ==> bitmaps[j].Valid())
      ensures Clear() == old(Clear())[i := old(Clear())[i] + {bmind}]
    {
      bitmaps[i].Bfree(bmind);
    }

    /** Frees an allocated block, unless its bitmap is completely full: then the program's assertion
        about the bitmap stops it. */
    method Bfree(blkno: nat) returns (err: Err)
      requires Valid() && blkno < NBLOCKS && blkno !in Free()
      modifies Repr
      ensures Valid()
      ensures err == if RoomToFree(old(Free()), blkno) then Ok else Aborted
      ensures err == Ok ==> Free() == old(Free()) + {blkno}
      ensures err != Ok ==> Free() == old(Free())
    {
      hide FreeOf, ClearBits, RoomToFree;
      ghost var before := Clear();
      BlockIn(before, blkno);
      var mind := blkno / BLKS_PER_BM;
      var bmind := blkno % BLKS_PER_BM;
      if bitmaps[mind].nfree == 0 {
        NoRoomIn(before, mind, blkno);
        return Aborted;
      }
      assert before[mind] != {};
      BitsBelow(bitmaps[mind].bytes[..]);
      RoomIn(before, mind, blkno);
      FreeIn(mind, bmind);
      FreeOfUpdate(before, mind, bmind, false);
      err := Ok;
    }
  }
}
