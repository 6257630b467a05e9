/** The write-back block cache of bcache/bcache.c. */
module BlockCache {
  import opened Common
  import opened BcacheState

  class Blk<D> {
    var blkno: nat
    var refcnt: nat
    var dirty: bool
    var phys: D
    /** When the last reference to the block was released. */
    ghost var released: nat

    constructor (blkno: nat, phys: D, ghost now: nat)
      ensures this.blkno == blkno && this.phys == phys && refcnt == 0 && !dirty && released == now
    {
      this.blkno, this.phys, refcnt, dirty, released := blkno, phys, 0, false, now;
    }
  }

  class Bcache<D> {
    const blksz: nat
    const maxsz: nat
    /** How many blocks the maximum size allows; there are twice as many buckets. */
    const capacity: nat
    var ht: seq<seq<Blk<D>>>
    /** The free list and the dirty list. */
    var fl: seq<Blk<D>>
    var dl: seq<Blk<D>>
    var currsz: nat
    var disk: map<nat, D>
    ghost var blocks: set<Blk<D>>
    ghost var cached: map<nat, Blk<D>>
    ghost var view: map<nat, D>
    ghost var pending: set<Blk<D>>
    ghost var clock: nat

    ghost function At(): map<Blk<D>, Facts<D>>
      reads `blocks, blocks
    {
      map b | b in blocks :: Facts(b.blkno, b.refcnt, b.dirty, b.phys, b.released)
    }

    ghost function State(): Cache<Blk<D>, D>
      reads this, blocks
    {
      Cache(ht, fl, dl, cached, At(), disk, view, pending, clock)
    }

    /** The call that gives the block `b`. */
    ghost function Given(blkno: nat, b: Blk<D>): Call<Blk<D>, D> {
      GetCall(blkno, Some(b))
    }

    ghost predicate Valid()
      reads this, blocks
    {
      && capacity > 0 && |ht| == capacity * 2 && SizesOk(capacity, blksz, maxsz, currsz, |cached|)
      && CacheOk(State())
    }

    /** An empty cache over a disk. */
    constructor (blksz: nat, maxsz: nat, disk: map<nat, D>)
      requires 0 < blksz <= maxsz && (maxsz / blksz + 1) * blksz < UINT32
      ensures Valid() && cached == map[] && view == disk && this.disk == disk && pending == {} && IsNew(State()) && blocks == {}
    {
      this.blksz, this.maxsz, this.disk, view := blksz, maxsz, disk, disk;
      capacity := maxsz / blksz;
      ht := seq(maxsz / blksz * 2, _ => []);
      fl, dl, currsz := [], [], 0;
      cached, blocks, pending, clock := map[], {}, {}, 0;
      new;
      NewIsKept(State(), capacity);
      hide CacheOk, Matches;
    }

    /** Looks a block number up in its bucket. */
    method Lookup(blkno: nat) returns (b: Blk?<D>)
      requires Valid()
      ensures if blkno in cached then b == cached[blkno] else b == null
    {
      hide CacheOk, SizesOk;
      var bl := ht[blkno % (capacity * 2)];
      LookupIn(State(), blkno);
      var i := 0;
      while i < |bl|
        invariant i <= |bl| && forall j :: 0 <= j < i ==> bl[j].blkno != blkno
      {
        assert bl[i] in bl;
        if bl[i].blkno == blkno {
          return bl[i];
        }
        i := i + 1;
      }
      b := null;
    }

    /** Writes a flagged block to disk. */
    method WriteBack(b: Blk<D>)
      requires Valid() && b in blocks && b.dirty
      modifies this`disk, this`dl, b`dirty
      ensures State() == WrittenBack(old(State()), b)
    {
      hide CacheOk, Without, SizesOk;
      disk := disk[b.blkno := b.phys];
      b.dirty := false;
      dl := Without(dl, b);
      assert At() == old(At())[b := old(At())[b].(dirty := false)];
    }

    /** Reads a block in where another was, and moves it to its new bucket. */
    method Rekey(b: Blk<D>, blkno: nat)
      requires Valid() && b in blocks && blkno in disk && blkno !in cached
      modifies this`ht, this`cached, b`blkno, b`phys
      ensures State() == Rekeyed(old(State()), b, blkno)
    {
      hide CacheOk, Without, SizesOk;
      var bucket, newBucket := b.blkno % (capacity * 2), blkno % (capacity * 2);
      cached := (cached - {b.blkno})[blkno := b];
      b.phys := disk[blkno];
      b.blkno := blkno;
      ht := ht[bucket := Without(ht[bucket], b)];
      ht := ht[newBucket := [b] + ht[newBucket]];
      assert At() == old(At())[b := old(At())[b].(blkno := blkno, phys := disk[blkno])];
    }

    /** A new block with the content of the disk. */
    method ReadIn(blkno: nat) returns (b: Blk<D>)
      requires blkno in disk
      modifies `blocks, `clock
      ensures fresh(b) && blocks == old(blocks) + {b} && clock == old(clock) + 1
      ensures At() == old(At())[b := Facts(blkno, 0, false, disk[blkno], clock)]
    {
      b := new Blk(blkno, disk[blkno], clock + 1);
      blocks, clock := blocks + {b}, clock + 1;
    }

    /** Allocates a block and reads it in. */
    method Allocate(blkno: nat) returns (b: Blk<D>)
      requires Valid() && blkno in disk && blkno !in cached
      modifies this`ht, this`fl, this`currsz, this`cached, this`blocks, this`clock
      ensures fresh(b) && blocks == old(blocks) + {b} && currsz == old(currsz) + blksz
      ensures State() == Added(old(State()), b, blkno)
    {
      hide CacheOk, SizesOk;
      b := ReadIn(blkno);
      var bucket := blkno % (capacity * 2);
      ht := ht[bucket := [b] + ht[bucket]];
      fl := fl + [b];
      currsz := currsz + blksz;
      cached := cached[blkno := b];
    }

    method CountReference(b: Blk<D>)
      requires b in blocks
      modifies b`refcnt
      ensures At() == old(At())[b := old(At())[b].(refcnt := old(At())[b].refcnt + 1)]
    {
      b.refcnt := b.refcnt + 1;
    }

    method TakeOffFreeList(b: Blk<D>)
      requires Valid() && b in blocks
      modifies `fl
      ensures fl == Without(old(fl), b) && At() == old(At())
    {
      hide CacheOk, Without, SizesOk;
      if b.refcnt == 0 {
        fl := Without(fl, b);
      } else {
        HeldIsNotFree(State(), b);
      }
    }

    /** Takes a reference; a block that was free leaves the free list. */
    method Hold(b: Blk<D>)
      requires Valid() && b in blocks
      modifies `fl, b`refcnt
      ensures State() == Held(old(State()), b)
    {
      hide CacheOk, Without, SizesOk;
      TakeOffFreeList(b);
      CountReference(b);
    }

    /** Gives a block that nobody holds another number; if it is flagged, it is written first. */
    method Evict(b: Blk<D>, blkno: nat)
      requires Valid() && blkno in disk && blkno !in cached && b in fl && b in blocks
      modifies `disk, `dl, `ht, `cached, b`dirty, b`blkno, b`phys
      ensures State() == Rekeyed(Cleaned(old(State()), b), b, blkno)
    {
      hide CacheOk, SizesOk, WrittenBack, Rekeyed, Cleaned;
      CleanKeeps(State(), b);
      CleanedIs(State(), b);
      if b.dirty {
        WriteBack(b);
      }
      Rekey(b, blkno);
    }

    /** Takes a block for a number that is not cached: a new one while there is room, else the first of the
        free list. */
    method Take(blkno: nat) returns (err: Err, b: Blk?<D>)
      requires Valid() && blkno in disk && blkno !in cached
      modifies this, blocks
      ensures Valid()
      ensures err == if NoneFree(old(State()), capacity, blkno) then ENOMEM else Ok
      ensures err != Ok ==> State() == old(State())
      ensures err == Ok ==> b != null && Took(old(State()), State(), capacity, blkno, b) && (b in old(blocks) || fresh(b))
      ensures fresh(blocks - old(blocks))
    {
      hide CacheOk, Took, SizesOk, TooFull, Rekeyed, Cleaned, Added;
      ghost var c := State();
      FullTested(capacity, blksz, maxsz, currsz, |cached|);
      if TooFull(currsz, blksz, maxsz) {
        if |fl| == 0 {
          return ENOMEM, null;
        }
        b := fl[0];
        FirstIsFree(c);
        Evict(b, blkno);
        EvictionTakes(c, capacity, blkno);
      } else {
        b := Allocate(blkno);
        AllocationTakes(c, capacity, blkno, b);
      }
      err := Ok;
    }

    /** Gets the block of a number and takes a reference to it. There is none to be had exactly if the cache
        is full and every block in it is held. */
    method Get(blkno: nat) returns (err: Err, b: Blk?<D>)
      requires Valid() && blkno in disk
      modifies this, blocks
      ensures Valid() && view == old(view) && pending == old(pending)
      ensures err == if NoneFree(old(State()), capacity, blkno) then ENOMEM else Ok
      ensures err != Ok ==> State() == old(State())
      ensures err == Ok ==> b != null && Got(old(State()), State(), capacity, blkno, b)
      ensures err != Ok ==> Effect(old(State()), State(), capacity, GetCall(blkno, None))
      ensures err == Ok ==> b != null && Effect(old(State()), State(), capacity, Given(blkno, b))
      ensures err == Ok ==> b in blocks && b.blkno == blkno && b.phys == view[blkno] && (b in old(blocks) || fresh(b))
      ensures fresh(blocks - old(blocks))
    {
      hide CacheOk, SizesOk, Took, NoneFree, Held, Got, Effect;
      ghost var c := State();
      b := Lookup(blkno);
      if b == null {
        var taken;
        err, taken := Take(blkno);
        if err != Ok {
          NoneIsGot(c, capacity, blkno);
          return;
        }
        b := taken;
      } else {
        CachedIsTaken(c, capacity, blkno);
      }
      err := Ok;
      ghost var c1 := State();
      TakenIsGot(c, c1, capacity, blkno, b);
      Hold(b);
    }

    /** A client changes a block it holds. */
    method Mutate(b: Blk<D>, v: D)
      requires Valid() && b in blocks && b.refcnt > 0
      modifies `view, `pending, b`phys
      ensures Valid() && State() == Mutated(old(State()), b, v)
      ensures Effect(old(State()), State(), capacity, MutateCall(b, v))
    {
      hide CacheOk, SizesOk;
      MutateKeeps(State(), b, v);
      b.phys := v;
      view, pending := view[b.blkno := v], pending + {b};
      assert At() == old(At())[b := old(At())[b].(phys := v)];
    }

    /** A client says that it has changed a block: the block is flagged. */
    method Dirty(b: Blk<D>)
      requires Valid() && b in blocks && b.refcnt > 0
      modifies `dl, `pending, b`dirty
      ensures Valid() && State() == Dirtied(old(State()), b)
      ensures Effect(old(State()), State(), capacity, DirtyCall(b))
    {
      hide CacheOk, SizesOk;
      DirtyKeeps(State(), b);
      if !b.dirty {
        b.dirty := true;
        dl := [b] + dl;
      }
      pending := pending - {b};
      assert At() == old(At())[b := old(At())[b].(dirty := true)];
    }

    /** Gives a reference back; the last one puts the block at the end of the free list. */
    method Release(b: Blk<D>)
      requires Valid() && b in blocks && b.refcnt > 0 && (b in pending ==> b.refcnt > 1)
      modifies `fl, `clock, b`refcnt, b`released
      ensures Valid() && State() == Released(old(State()), b)
      ensures Effect(old(State()), State(), capacity, ReleaseCall(b))
    {
      hide CacheOk, SizesOk;
      ReleaseKeeps(State(), b);
      b.refcnt := b.refcnt - 1;
      clock := clock + 1;
      b.released := clock;
      if b.refcnt == 0 {
        fl := fl + [b];
      }
      assert At() == old(At())[b := old(At())[b].(refcnt := b.refcnt, released := clock)];
    }

    /** Writes every flagged block to disk. */
    method Flush()
      requires Valid()
      modifies `disk, `dl, blocks
      ensures Valid() && State() == Flushed(old(State()))
      ensures Effect(old(State()), State(), capacity, FlushCall)
      ensures dl == [] && view == old(view) && pending == old(pending) && cached == old(cached)
      ensures forall k <- disk :: (k in cached ==> cached[k] !in pending) ==> disk[k] == view[k]
    {
      hide CacheOk, SizesOk, WrittenBack, Flushed;
      FlushKeeps(State());
      while |dl| > 0
        invariant Valid() && Flushed(State()) == Flushed(old(State())) && blocks == old(blocks)
        decreases |dl|
      {
        FlushStep(State());
        WriteBack(dl[0]);
      }
      FlushEnds(old(State()), State());
    }

    ghost predicate Once(list: seq<Blk<D>>, b: Blk<D>) {
      forall i, j :: 0 <= i < j < |list| && list[i] == b ==> list[j] != b
    }

    ghost function InTable(): set<Blk<D>>
      reads `ht
    {
      set b <- Flat(ht)
    }

    /** What the program's check asks of a block in the table: on neither list twice, on the free list if it has
        no reference, and on the dirty list if it is flagged. */
    ghost predicate BlockPasses(b: Blk<D>)
      reads `dl, `fl, b
    {
      && Once(dl, b) && Once(fl, b)
      && (b.refcnt == 0 ==> b in fl) && (b.dirty ==> b in dl)
    }

    /** What the check asks of the cache. The sizes are 32-bit numbers. */
    ghost predicate Passes()
      reads this, InTable()
    {
      (forall b <- InTable() :: BlockPasses(b)) && currsz == |Flat(ht)| * blksz % UINT32 && currsz <= maxsz
    }

    /** Whether a block is on a list. The program's check stops at a second occurrence. */
    method OnList(list: seq<Blk<D>>, b: Blk<D>) returns (ok: bool, found: bool)
      ensures found <==> b in list
      ensures ok <==> Once(list, b)
    {
      found, ok := false, true;
      for i := 0 to |list|
        invariant found <==> b in list[..i]
        invariant ok <==> Once(list[..i], b)
      {
        assert list[..i + 1] == list[..i] + [list[i]];
        if list[i] == b {
          if found {
            ghost var k :| 0 <= k < i && list[k] == b;
            assert list[..i + 1][k] == list[..i + 1][i] == b;
            ok := false;
          }
          found := true;
        }
      }
      assert list[..|list|] == list;
    }

    /** The program's own consistency check, on any cache. A valid one passes. */
    method Check() returns (ok: bool)
      requires |ht| == capacity * 2
      ensures ok <==> Passes()
      ensures Valid() ==> ok
    {
      hide Valid, BlockPasses, Flat;
      if Valid() {
        ValidPasses();
      }
      var nblocks := 0;
      NothingFlat(ht);
      for i := 0 to capacity * 2
        invariant nblocks == |Flat(ht[..i])| && forall b <- Flat(ht[..i]) :: BlockPasses(b)
      {
        FlatStep(ht, i);
        assert allocated(Flat(ht[..i]));
        ok := CheckBucket(ht[i]);
        if !ok {
          return;
        }
        forall b | b in Flat(ht[..i + 1]) ensures BlockPasses(b) {
          assert b in Flat(ht[..i]) || b in ht[i];
        }
        nblocks := nblocks + |ht[i]|;
      }
      assert ht[..capacity * 2] == ht;
      ok := currsz == nblocks * blksz % UINT32 && currsz <= maxsz;
    }

    method CheckBucket(list: seq<Blk<D>>) returns (ok: bool)
      ensures ok <==> forall b <- list :: BlockPasses(b)
    {
      hide BlockPasses;
      for j := 0 to |list|
        invariant forall k :: 0 <= k < j ==> BlockPasses(list[k])
      {
        ok := CheckBlock(list[j]);
        if !ok {
          return;
        }
      }
      ok := true;
    }

    method CheckBlock(b: Blk<D>) returns (ok: bool)
      ensures ok <==> BlockPasses(b)
    {
      hide Once;
      var onceDirty, dirty := OnList(dl, b);
      var onceFree, free := OnList(fl, b);
      ok := onceDirty && onceFree && ((free && b.refcnt == 0) || b.refcnt > 0) && (!b.dirty || dirty);
    }

    lemma ValidPasses()
      requires Valid()
      ensures Passes()
    {
      hide CacheOk;
      FoundIsListed(State());
      CountsAgree(State());
      SizesTested(capacity, blksz, maxsz, currsz, |cached|);
      forall b | b in InTable() ensures BlockPasses(b) {
        assert Listed(State(), b);
      }
    }
  }
}
