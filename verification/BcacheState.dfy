/** What the block cache of bcache/bcache.c keeps: its lists, and the agreement of cache and disk. Each call
    runs under the cache's lock, so each is one step from state to state. */
module BcacheState {
  import opened Common

  // Intrusive lists, as sequences without repetition

  ghost predicate NoRepeats<T>(s: seq<T>) {
    forall i, j :: 0 <= i < j < |s| ==> s[i] != s[j]
  }

  function Without<T(==)>(s: seq<T>, x: T): (r: seq<T>)
    ensures forall y <- r :: y in s
    ensures forall y <- s :: y != x ==> y in r
  {
    if s == [] then [] else if s[0] == x then s[1..] else [s[0]] + Without(s[1..], x)
  }

  lemma TailCut<T>(s: seq<T>, j: nat)
    requires j < |s| - 1
    ensures [s[0]] + (s[1..][..j] + s[1..][j + 1..]) == s[..j + 1] + s[j + 2..]
  {
    assert s[1..][..j] == s[1..j + 1] && s[1..][j + 1..] == s[j + 2..];
    assert [s[0]] + s[1..j + 1] == s[..j + 1];
  }

  lemma {:induction false} WithoutCut<T>(s: seq<T>, x: T) returns (i: nat)
    requires x in s
    ensures i < |s| && s[i] == x && Without(s, x) == s[..i] + s[i + 1..]
  {
    if s[0] == x {
      i := 0;
    } else {
      var j := WithoutCut(s[1..], x);
      i := j + 1;
      TailCut(s, j);
    }
  }

  lemma CutIndex<T>(s: seq<T>, n: nat, i: nat)
    requires n < |s| && i < |s| - 1
    ensures (s[..n] + s[n + 1..])[i] == s[if i < n then i else i + 1]
  {
  }

  lemma WithoutOnce<T>(s: seq<T>, x: T)
    requires x in s && NoRepeats(s)
    ensures NoRepeats(Without(s, x)) && x !in Without(s, x)
  {
    var n := WithoutCut(s, x);
    var r := Without(s, x);
    forall i | 0 <= i < |r| ensures r[i] != x && forall j :: i < j < |r| ==> r[i] != r[j] {
      CutIndex(s, n, i);
      forall j | i < j < |r| ensures r[i] != r[j] {
        CutIndex(s, n, j);
      }
    }
  }

  // The size test

  const UINT32: nat := 0x1_0000_0000

  /** The program's test whether one more block would exceed the maximum, in 32-bit arithmetic. */
  predicate TooFull(currsz: nat, blksz: nat, maxsz: nat) {
    (currsz + blksz) % UINT32 > maxsz
  }

  /** The test in numbers: it is that of unbounded sums as long as they stay below 2 to the 32. */
  lemma TestInNumbers(currsz: nat, blksz: nat, maxsz: nat)
    ensures TooFull(currsz, blksz, maxsz) <==> (currsz + blksz) % 4294967296 > maxsz
    ensures currsz + blksz < 4294967296 ==> (TooFull(currsz, blksz, maxsz) <==> currsz + blksz > maxsz)
  {
  }

  /** `q` blocks fit into the cache, and no more. */
  predicate Holds(q: nat, blksz: nat, maxsz: nat) {
    q * blksz <= maxsz < (q + 1) * blksz
  }

  lemma Multiples(n: nat, q: nat, m: nat)
    ensures n <= q ==> n * m <= q * m && (n + 1) * m <= (q + 1) * m
    ensures n > q ==> n * m >= (q + 1) * m
    ensures (n + 1) * m == n * m + m
  {
    if n <= q {
      assert n * m <= q * m;
      assert (n + 1) * m == n * m + m && (q + 1) * m == q * m + m;
    } else {
      assert n * m >= (q + 1) * m;
    }
  }

  lemma SumTested(size: nat, blksz: nat, maxsz: nat)
    requires size + blksz < UINT32
    ensures TooFull(size, blksz, maxsz) <==> size + blksz > maxsz
  {
  }

  lemma SumWrapped(size: nat, blksz: nat, maxsz: nat)
    requires size <= maxsz < UINT32 && blksz <= maxsz && size + blksz >= UINT32
    ensures !TooFull(size, blksz, maxsz)
  {
  }

  /** At any size the cache can reach, the test tells a full cache from one with room for another block,
      if no sum wraps. */
  lemma SizeTestAt(n: nat, q: nat, blksz: nat, maxsz: nat)
    requires Holds(q, blksz, maxsz) && (q + 1) * blksz < UINT32 && n * blksz <= maxsz
    ensures n <= q && (n + 1) * blksz == n * blksz + blksz
    ensures TooFull(n * blksz, blksz, maxsz) <==> n == q
    ensures n < q ==> (n + 1) * blksz <= maxsz
  {
    Multiples(n, q, blksz);
    Multiples(n + 1, q, blksz);
    SumTested(n * blksz, blksz, maxsz);
  }

  /** The sizes of a cache of `n` blocks. */
  predicate SizesOk(capacity: nat, blksz: nat, maxsz: nat, currsz: nat, n: nat) {
    Holds(capacity, blksz, maxsz) && (capacity + 1) * blksz < UINT32 && currsz == n * blksz <= maxsz
  }

  lemma FullTested(capacity: nat, blksz: nat, maxsz: nat, currsz: nat, n: nat)
    requires SizesOk(capacity, blksz, maxsz, currsz, n)
    ensures TooFull(currsz, blksz, maxsz) <==> n == capacity
    ensures n != capacity ==> SizesOk(capacity, blksz, maxsz, currsz + blksz, n + 1)
  {
    SizeTestAt(n, capacity, blksz, maxsz);
  }

  lemma SizesTested(capacity: nat, blksz: nat, maxsz: nat, currsz: nat, n: nat)
    requires SizesOk(capacity, blksz, maxsz, currsz, n)
    ensures currsz == n * blksz <= maxsz && currsz < UINT32
  {
  }

  /** The test is right at every size the cache can reach exactly if no sum wraps. */
  lemma SizeTestIsExact(q: nat, blksz: nat, maxsz: nat)
    requires 0 < blksz <= maxsz < UINT32 && Holds(q, blksz, maxsz)
    ensures (q + 1) * blksz < UINT32 <==>
      forall n: nat :: n * blksz <= maxsz ==> (TooFull(n * blksz, blksz, maxsz) <==> n == q)
  {
    if (q + 1) * blksz < UINT32 {
      forall n: nat | n * blksz <= maxsz ensures TooFull(n * blksz, blksz, maxsz) <==> n == q {
        SizeTestAt(n, q, blksz, maxsz);
      }
    } else {
      Multiples(q, q, blksz);
      SumWrapped(q * blksz, blksz, maxsz);
    }
  }

  // States. `B` stands for the identity of a cached block.

  datatype Facts<D> = Facts(blkno: nat, refcnt: nat, dirty: bool, phys: D, released: nat)

  /** `ht`, `fl` and `dl` are the buckets, the free list and the dirty list. The rest is what they are about:
      the cached blocks by number, the disk, what was last written to each block number, the blocks changed by
      a client that still has to call `bc_dirty`, and the time of the last release. */
  datatype Cache<B, D> = Cache(ht: seq<seq<B>>, fl: seq<B>, dl: seq<B>, cached: map<nat, B>, at: map<B, Facts<D>>,
                               disk: map<nat, D>, view: map<nat, D>, pending: set<B>, clock: nat)

  ghost predicate Keyed<B, D>(c: Cache<B, D>) {
    && (forall k <- c.cached :: c.cached[k] in c.at && c.at[c.cached[k]].blkno == k)
    && (forall b <- c.at :: c.at[b].blkno in c.cached && c.cached[c.at[b].blkno] == b)
  }

  /** Each cached block is in the bucket of its own number, once. */
  ghost predicate Bucketed<B, D>(c: Cache<B, D>) {
    && |c.ht| > 0
    && (forall i :: 0 <= i < |c.ht| ==> NoRepeats(c.ht[i]) && InBucket(c, i))
    && (forall b <- c.at :: b in c.ht[c.at[b].blkno % |c.ht|])
  }

  ghost predicate InBucket<B, D>(c: Cache<B, D>, i: nat)
    requires i < |c.ht|
  {
    forall b <- c.ht[i] :: b in c.at && c.at[b].blkno % |c.ht| == i
  }

  /** The free list holds the blocks without references, in the order in which they were released. */
  ghost predicate FreeListed<B, D>(c: Cache<B, D>) {
    && (forall b <- c.fl :: b in c.at && c.at[b].refcnt == 0 && c.at[b].released <= c.clock)
    && (forall b <- c.at :: c.at[b].refcnt == 0 ==> b in c.fl)
    && ByRelease(c, c.fl)
  }

  ghost predicate ByRelease<B, D>(c: Cache<B, D>, s: seq<B>)
    requires forall b <- s :: b in c.at
  {
    forall i, j :: 0 <= i < j < |s| ==> c.at[s[i]].released < c.at[s[j]].released
  }

  /** The dirty list holds the flagged blocks. */
  ghost predicate DirtyListed<B, D>(c: Cache<B, D>) {
    && NoRepeats(c.dl)
    && (forall b <- c.dl :: b in c.at && c.at[b].dirty)
    && (forall b <- c.at :: c.at[b].dirty ==> b in c.dl)
  }

  /** Cache and disk together hold what was last written. A cached block that differs from the disk is
      flagged, or its client still has to call `bc_dirty`. */
  ghost predicate Agrees<B, D>(c: Cache<B, D>) {
    && c.view.Keys == c.disk.Keys && c.cached.Keys <= c.disk.Keys
    && (forall k <- c.disk :: k !in c.cached ==> c.view[k] == c.disk[k])
    && (forall b <- c.at :: c.at[b].blkno in c.disk && c.view[c.at[b].blkno] == c.at[b].phys)
    && (forall b <- c.at :: c.at[b].phys == c.disk[c.at[b].blkno] || c.at[b].dirty || b in c.pending)
    && (forall b <- c.pending :: b in c.at && c.at[b].refcnt > 0)
  }

  ghost predicate CacheOk<B, D>(c: Cache<B, D>) {
    Keyed(c) && Bucketed(c) && FreeListed(c) && DirtyListed(c) && Agrees(c)
  }

  /** A block number is cached exactly if its bucket holds a block of that number. */
  lemma LookupIn<B, D>(c: Cache<B, D>, k: nat)
    requires CacheOk(c)
    ensures |c.ht| > 0 && (k in c.cached ==> c.cached[k] in c.ht[k % |c.ht|] && c.cached[k] in c.at)
    ensures forall b <- c.ht[k % |c.ht|] :: b in c.at && (c.at[b].blkno == k <==> k in c.cached && c.cached[k] == b)
  {
    assert InBucket(c, k % |c.ht|);
  }

  lemma HeldIsNotFree<B, D>(c: Cache<B, D>, b: B)
    requires CacheOk(c) && b in c.at
    ensures c.at[b].refcnt > 0 ==> Without(c.fl, b) == c.fl
  {
    if c.at[b].refcnt > 0 {
      WithoutAbsent(c.fl, b);
    }
  }

  // Steps

  lemma TableExists<B, D>(c: Cache<B, D>)
    requires CacheOk(c)
    ensures |c.ht| > 0
  {
  }

  /** As long as no block changes its number, it stays where it is found. */
  lemma PlacesKept<B, D>(c: Cache<B, D>, c': Cache<B, D>)
    requires Keyed(c) && Bucketed(c) && c'.ht == c.ht && c'.cached == c.cached
    requires c'.at.Keys == c.at.Keys && forall b <- c.at :: c'.at[b].blkno == c.at[b].blkno
    ensures Keyed(c') && Bucketed(c')
  {
    forall i | 0 <= i < |c'.ht| ensures NoRepeats(c'.ht[i]) && InBucket(c', i) {
      assert InBucket(c, i);
    }
  }

  /** A flagged block is written to disk. */
  ghost function WrittenBack<B, D>(c: Cache<B, D>, b: B): Cache<B, D>
    requires b in c.at
  {
    c.(disk := c.disk[c.at[b].blkno := c.at[b].phys], dl := Without(c.dl, b), at := c.at[b := c.at[b].(dirty := false)])
  }

  lemma WriteBackLists<B, D>(c: Cache<B, D>, b: B)
    requires FreeListed(c) && DirtyListed(c) && b in c.dl
    ensures FreeListed(WrittenBack(c, b)) && DirtyListed(WrittenBack(c, b))
  {
    WithoutOnce(c.dl, b);
  }

  lemma WriteBackAgrees<B, D>(c: Cache<B, D>, b: B)
    requires Keyed(c) && Agrees(c) && b in c.at
    ensures Agrees(WrittenBack(c, b))
  {
  }

  lemma WriteBackKeeps<B, D>(c: Cache<B, D>, b: B)
    requires CacheOk(c) && b in c.at && b in c.dl
    ensures CacheOk(WrittenBack(c, b))
  {
    hide Agrees, FreeListed, DirtyListed, Keyed, Bucketed;
    WriteBackLists(c, b);
    WriteBackAgrees(c, b);
    PlacesKept(c, WrittenBack(c, b));
  }

  /** A block nobody holds is given another number. */
  ghost function Rekeyed<B, D>(c: Cache<B, D>, b: B, blkno: nat): Cache<B, D>
    requires b in c.at && |c.ht| > 0 && blkno in c.disk
  {
    var old_ := c.at[b].blkno;
    var i, j := old_ % |c.ht|, blkno % |c.ht|;
    var ht1 := c.ht[i := Without(c.ht[i], b)];
    c.(ht := ht1[j := [b] + ht1[j]], cached := (c.cached - {old_})[blkno := b],
       at := c.at[b := c.at[b].(blkno := blkno, phys := c.disk[blkno])])
  }

  lemma RekeyKeyed<B, D>(c: Cache<B, D>, b: B, blkno: nat)
    requires Keyed(c) && |c.ht| > 0 && b in c.at && blkno !in c.cached && blkno in c.disk
    ensures Keyed(Rekeyed(c, b, blkno)) && |Rekeyed(c, b, blkno).cached| == |c.cached|
  {
    var old_ := c.at[b].blkno;
    assert (c.cached - {old_}).Keys == c.cached.Keys - {old_};
    assert Rekeyed(c, b, blkno).cached.Keys == c.cached.Keys - {old_} + {blkno};
    assert |c.cached.Keys - {old_}| == |c.cached.Keys| - 1;
  }

  lemma RekeyBucketed<B, D>(c: Cache<B, D>, b: B, blkno: nat)
    requires Bucketed(c) && b in c.at && blkno in c.disk
    ensures Bucketed(Rekeyed(c, b, blkno))
  {
    var c', i, j := Rekeyed(c, b, blkno), c.at[b].blkno % |c.ht|, blkno % |c.ht|;
    WithoutOnce(c.ht[i], b);
    forall n | 0 <= n < |c'.ht| ensures NoRepeats(c'.ht[n]) && InBucket(c', n) {
      assert InBucket(c, n);
      assert b in c.ht[n] ==> n == i;
    }
  }

  lemma RekeyAgrees<B, D>(c: Cache<B, D>, b: B, blkno: nat)
    requires Keyed(c) && Agrees(c) && |c.ht| > 0 && b in c.at && c.at[b].refcnt == 0 && !c.at[b].dirty
    requires blkno !in c.cached && blkno in c.disk
    ensures Agrees(Rekeyed(c, b, blkno))
  {
  }

  lemma RekeyLists<B, D>(c: Cache<B, D>, b: B, blkno: nat)
    requires FreeListed(c) && DirtyListed(c) && |c.ht| > 0 && b in c.at && blkno in c.disk
    ensures FreeListed(Rekeyed(c, b, blkno)) && DirtyListed(Rekeyed(c, b, blkno))
  {
  }

  lemma RekeyKeeps<B, D>(c: Cache<B, D>, b: B, blkno: nat)
    requires CacheOk(c) && b in c.at && c.at[b].refcnt == 0 && !c.at[b].dirty && blkno !in c.cached && blkno in c.disk
    ensures CacheOk(Rekeyed(c, b, blkno)) && |Rekeyed(c, b, blkno).cached| == |c.cached|
  {
    hide Agrees, FreeListed, DirtyListed, Keyed, Bucketed;
    TableExists(c);
    RekeyKeyed(c, b, blkno);
    RekeyBucketed(c, b, blkno);
    RekeyAgrees(c, b, blkno);
    RekeyLists(c, b, blkno);
  }

  /** A new block is read in, and put at the end of the free list for the moment. */
  ghost function Added<B, D>(c: Cache<B, D>, b: B, blkno: nat): Cache<B, D>
    requires |c.ht| > 0 && blkno in c.disk
  {
    var j := blkno % |c.ht|;
    c.(ht := c.ht[j := [b] + c.ht[j]], fl := c.fl + [b], cached := c.cached[blkno := b], clock := c.clock + 1,
       at := c.at[b := Facts(blkno, 0, false, c.disk[blkno], c.clock + 1)])
  }

  lemma AddPlaces<B, D>(c: Cache<B, D>, b: B, blkno: nat)
    requires Keyed(c) && Bucketed(c) && b !in c.at && blkno !in c.cached && blkno in c.disk
    ensures Keyed(Added(c, b, blkno)) && Bucketed(Added(c, b, blkno))
  {
    hide Bucketed, Keyed;
    TableOf(c);
    AddBuckets(c, b, blkno);
    AddKeyed(c, b, blkno);
  }

  lemma TableOf<B, D>(c: Cache<B, D>)
    requires Bucketed(c)
    ensures |c.ht| > 0
  {
  }

  lemma AddKeyed<B, D>(c: Cache<B, D>, b: B, blkno: nat)
    requires Keyed(c) && |c.ht| > 0 && b !in c.at && blkno !in c.cached && blkno in c.disk
    ensures Keyed(Added(c, b, blkno))
  {
  }

  lemma AddBuckets<B, D>(c: Cache<B, D>, b: B, blkno: nat)
    requires Bucketed(c) && b !in c.at && blkno in c.disk
    ensures Bucketed(Added(c, b, blkno))
  {
    var c' := Added(c, b, blkno);
    forall n | 0 <= n < |c'.ht| ensures NoRepeats(c'.ht[n]) && InBucket(c', n) {
      assert InBucket(c, n);
    }
  }

  lemma AddLists<B, D>(c: Cache<B, D>, b: B, blkno: nat)
    requires FreeListed(c) && DirtyListed(c) && Agrees(c) && b !in c.at && |c.ht| > 0 && blkno !in c.cached && blkno in c.disk
    ensures FreeListed(Added(c, b, blkno)) && DirtyListed(Added(c, b, blkno)) && Agrees(Added(c, b, blkno))
  {
    AddFree(c, b, blkno);
    AddAgrees(c, b, blkno);
    hide FreeListed, Agrees;
  }

  lemma AddFree<B, D>(c: Cache<B, D>, b: B, blkno: nat)
    requires FreeListed(c) && b !in c.at && |c.ht| > 0 && blkno in c.disk
    ensures FreeListed(Added(c, b, blkno))
  {
  }

  lemma AddAgrees<B, D>(c: Cache<B, D>, b: B, blkno: nat)
    requires Agrees(c) && b !in c.at && |c.ht| > 0 && blkno !in c.cached && blkno in c.disk
    ensures Agrees(Added(c, b, blkno))
  {
  }

  lemma OneMoreKey<B>(m: map<nat, B>, k: nat, b: B)
    requires k !in m
    ensures |m[k := b]| == |m| + 1
  {
    assert m[k := b].Keys == m.Keys + {k};
  }

  lemma AddKeeps<B, D>(c: Cache<B, D>, b: B, blkno: nat)
    requires CacheOk(c) && b !in c.at && blkno !in c.cached && blkno in c.disk
    ensures CacheOk(Added(c, b, blkno)) && |Added(c, b, blkno).cached| == |c.cached| + 1
  {
    hide Agrees, FreeListed, DirtyListed, Keyed, Bucketed;
    TableExists(c);
    AddPlaces(c, b, blkno);
    AddLists(c, b, blkno);
    OneMoreKey(c.cached, blkno, b);
  }

  /** One more reference; a held block is not free. */
  ghost function Held<B, D>(c: Cache<B, D>, b: B): Cache<B, D>
    requires b in c.at
  {
    c.(fl := Without(c.fl, b), at := c.at[b := c.at[b].(refcnt := c.at[b].refcnt + 1)])
  }

  lemma OrderWithout<B, D>(c: Cache<B, D>, s: seq<B>, b: B)
    requires (forall x <- s :: x in c.at) && ByRelease(c, s)
    ensures ByRelease(c, Without(s, b)) && b !in Without(s, b)
  {
    if b in s {
      assert NoRepeats(s) by {
        forall i, j | 0 <= i < j < |s| ensures s[i] != s[j] {
          assert c.at[s[i]].released < c.at[s[j]].released;
        }
      }
      WithoutOnce(s, b);
      OrderCut(c, s, b);
    } else {
      WithoutAbsent(s, b);
    }
  }

  lemma OrderCut<B, D>(c: Cache<B, D>, s: seq<B>, b: B)
    requires (forall x <- s :: x in c.at) && ByRelease(c, s) && b in s
    ensures ByRelease(c, Without(s, b))
  {
    hide Without;
    var n := WithoutCut(s, b);
    var r := Without(s, b);
    forall i, j | 0 <= i < j < |r| ensures r[i] in c.at && r[j] in c.at && c.at[r[i]].released < c.at[r[j]].released {
      CutIndex(s, n, i);
      CutIndex(s, n, j);
    }
  }

  lemma HoldFree<B, D>(c: Cache<B, D>, b: B)
    requires FreeListed(c) && b in c.at
    ensures FreeListed(Held(c, b))
  {
    OrderWithout(c, c.fl, b);
  }

  lemma HoldRest<B, D>(c: Cache<B, D>, b: B)
    requires DirtyListed(c) && Agrees(c) && b in c.at
    ensures DirtyListed(Held(c, b)) && Agrees(Held(c, b))
  {
  }

  lemma {:induction false} WithoutAbsent<T>(s: seq<T>, x: T)
    requires x !in s
    ensures Without(s, x) == s
  {
    if s != [] {
      WithoutAbsent(s[1..], x);
    }
  }

  lemma HoldKeeps<B, D>(c: Cache<B, D>, b: B)
    requires CacheOk(c) && b in c.at
    ensures CacheOk(Held(c, b))
  {
    hide Agrees, FreeListed, DirtyListed, Keyed, Bucketed;
    HoldFree(c, b);
    HoldRest(c, b);
    PlacesKept(c, Held(c, b));
  }

  /** One reference less; the last one puts the block at the end of the free list. */
  ghost function Released<B, D>(c: Cache<B, D>, b: B): Cache<B, D>
    requires b in c.at && c.at[b].refcnt > 0
  {
    var n := c.at[b].refcnt - 1;
    c.(fl := if n == 0 then c.fl + [b] else c.fl, clock := c.clock + 1,
       at := c.at[b := c.at[b].(refcnt := n, released := c.clock + 1)])
  }

  lemma ReleaseKeeps<B, D>(c: Cache<B, D>, b: B)
    requires CacheOk(c) && b in c.at && c.at[b].refcnt > 0 && (b in c.pending ==> c.at[b].refcnt > 1)
    ensures CacheOk(Released(c, b))
  {
    hide Agrees, FreeListed, DirtyListed, Keyed, Bucketed;
    ReleaseLists(c, b);
    ReleaseAgrees(c, b);
    PlacesKept(c, Released(c, b));
  }

  lemma ReleaseLists<B, D>(c: Cache<B, D>, b: B)
    requires FreeListed(c) && DirtyListed(c) && b in c.at && c.at[b].refcnt > 0
    ensures FreeListed(Released(c, b)) && DirtyListed(Released(c, b))
  {
  }

  lemma ReleaseAgrees<B, D>(c: Cache<B, D>, b: B)
    requires Agrees(c) && b in c.at && c.at[b].refcnt > 0 && (b in c.pending ==> c.at[b].refcnt > 1)
    ensures Agrees(Released(c, b))
  {
  }

  /** A client says that it has changed a block. */
  ghost function Dirtied<B, D>(c: Cache<B, D>, b: B): Cache<B, D>
    requires b in c.at
  {
    c.(dl := if c.at[b].dirty then c.dl else [b] + c.dl, pending := c.pending - {b},
       at := c.at[b := c.at[b].(dirty := true)])
  }

  lemma DirtyLists<B, D>(c: Cache<B, D>, b: B)
    requires FreeListed(c) && DirtyListed(c) && Agrees(c) && b in c.at
    ensures FreeListed(Dirtied(c, b)) && DirtyListed(Dirtied(c, b)) && Agrees(Dirtied(c, b))
  {
  }

  lemma DirtyKeeps<B, D>(c: Cache<B, D>, b: B)
    requires CacheOk(c) && b in c.at
    ensures CacheOk(Dirtied(c, b))
  {
    hide Agrees, FreeListed, DirtyListed, Keyed, Bucketed;
    DirtyLists(c, b);
    PlacesKept(c, Dirtied(c, b));
  }

  /** A client that holds a block changes it. */
  ghost function Mutated<B, D>(c: Cache<B, D>, b: B, v: D): Cache<B, D>
    requires b in c.at
  {
    c.(at := c.at[b := c.at[b].(phys := v)], view := c.view[c.at[b].blkno := v], pending := c.pending + {b})
  }

  lemma MutateAgrees<B, D>(c: Cache<B, D>, b: B, v: D)
    requires Keyed(c) && Agrees(c) && b in c.at && c.at[b].refcnt > 0
    ensures Agrees(Mutated(c, b, v))
  {
    assert c.view.Keys + {c.at[b].blkno} == c.view.Keys;
  }

  lemma MutateLists<B, D>(c: Cache<B, D>, b: B, v: D)
    requires FreeListed(c) && DirtyListed(c) && b in c.at
    ensures FreeListed(Mutated(c, b, v)) && DirtyListed(Mutated(c, b, v))
  {
  }

  lemma MutateKeeps<B, D>(c: Cache<B, D>, b: B, v: D)
    requires CacheOk(c) && b in c.at && c.at[b].refcnt > 0
    ensures CacheOk(Mutated(c, b, v))
  {
    hide Agrees, FreeListed, DirtyListed, Keyed, Bucketed;
    MutateAgrees(c, b, v);
    MutateLists(c, b, v);
    PlacesKept(c, Mutated(c, b, v));
  }

  // Whole calls

  /** A block before it gives way: written back if it is flagged. */
  ghost function Cleaned<B, D>(c: Cache<B, D>, b: B): (c': Cache<B, D>)
    requires CacheOk(c) && b in c.at
    ensures b in c'.at && |c'.ht| > 0 && c'.disk.Keys == c.disk.Keys
  {
    if c.at[b].dirty then WrittenBack(c, b) else c
  }

  /** There is no block to be had: not in the cache, no room for another, nothing free. */
  ghost predicate NoneFree<B, D>(c: Cache<B, D>, capacity: nat, blkno: nat) {
    blkno !in c.cached && |c.cached| == capacity && c.fl == []
  }

  /** The block that `bc_get` takes for a block number: the cached one; else `newBlk`, which is allocated
      while there is room; else the first of the free list. */
  ghost function BlockFor<B, D>(c: Cache<B, D>, capacity: nat, blkno: nat, newBlk: B): B
    requires !NoneFree(c, capacity, blkno)
  {
    if blkno in c.cached then c.cached[blkno] else if |c.cached| != capacity then newBlk else c.fl[0]
  }

  ghost predicate CanTake<B, D>(c: Cache<B, D>, capacity: nat, blkno: nat, newBlk: B) {
    && CacheOk(c) && blkno in c.disk && !NoneFree(c, capacity, blkno)
    && (blkno !in c.cached && |c.cached| != capacity ==> newBlk !in c.at)
  }

  /** The cache once the block number is cached, before the reference is counted. */
  ghost function Found<B, D>(c: Cache<B, D>, capacity: nat, blkno: nat, newBlk: B): Cache<B, D>
    requires CanTake(c, capacity, blkno, newBlk)
  {
    if blkno in c.cached then c
    else if |c.cached| != capacity then Added(c, newBlk, blkno)
    else Rekeyed(Cleaned(c, c.fl[0]), c.fl[0], blkno)
  }

  lemma CleanKeeps<B, D>(c: Cache<B, D>, b: B)
    requires CacheOk(c) && b in c.at
    ensures CacheOk(Cleaned(c, b)) && !Cleaned(c, b).at[b].dirty
    ensures Cleaned(c, b).at[b].refcnt == c.at[b].refcnt && Cleaned(c, b).cached == c.cached && Cleaned(c, b).fl == c.fl
    ensures Cleaned(c, b).view == c.view && Cleaned(c, b).pending == c.pending
  {
    if c.at[b].dirty {
      WriteBackKeeps(c, b);
    }
  }

  /** Taking a block keeps the invariant, and its content is what was last written to the block number. */
  lemma FoundKeeps<B, D>(c: Cache<B, D>, capacity: nat, blkno: nat, newBlk: B)
    requires CanTake(c, capacity, blkno, newBlk)
    ensures var c', b := Found(c, capacity, blkno, newBlk), BlockFor(c, capacity, blkno, newBlk);
      && CacheOk(c') && c'.view == c.view && c'.pending == c.pending
      && blkno in c'.cached && c'.cached[blkno] == b && b in c'.at && c'.at[b].phys == c.view[blkno]
      && |c'.cached| == if blkno !in c.cached && |c.cached| != capacity then |c.cached| + 1 else |c.cached|
  {
    var c', b := Found(c, capacity, blkno, newBlk), BlockFor(c, capacity, blkno, newBlk);
    if blkno !in c.cached {
      if |c.cached| != capacity {
        AddKeeps(c, newBlk, blkno);
      } else {
        assert b in c.fl;
        CleanKeeps(c, b);
        RekeyKeeps(Cleaned(c, b), b, blkno);
      }
    }
    assert c'.cached[blkno] == b;
  }

  lemma FirstIsFree<B, D>(c: Cache<B, D>)
    requires CacheOk(c) && c.fl != []
    ensures c.fl[0] in c.at && c.at[c.fl[0]].refcnt == 0
  {
    assert c.fl[0] in c.fl;
  }

  ghost predicate Took<B, D>(c: Cache<B, D>, c': Cache<B, D>, capacity: nat, blkno: nat, b: B) {
    CanTake(c, capacity, blkno, b) && b == BlockFor(c, capacity, blkno, b) && c' == Found(c, capacity, blkno, b)
  }

  /** The step that `bc_get` makes when it gives the block `b`. */
  ghost predicate Got<B, D>(c: Cache<B, D>, c': Cache<B, D>, capacity: nat, blkno: nat, b: B) {
    && CanTake(c, capacity, blkno, b) && b == BlockFor(c, capacity, blkno, b)
    && b in Found(c, capacity, blkno, b).at && c' == Held(Found(c, capacity, blkno, b), b)
  }

  lemma CachedIsTaken<B, D>(c: Cache<B, D>, capacity: nat, blkno: nat)
    requires CacheOk(c) && blkno in c.cached && blkno in c.disk
    ensures Took(c, c, capacity, blkno, c.cached[blkno]) && !NoneFree(c, capacity, blkno)
  {
  }

  lemma EvictionTakes<B, D>(c: Cache<B, D>, capacity: nat, blkno: nat)
    requires CacheOk(c) && blkno !in c.cached && blkno in c.disk && |c.cached| == capacity && c.fl != []
    ensures c.fl[0] in c.at && var c' := Rekeyed(Cleaned(c, c.fl[0]), c.fl[0], blkno);
      Took(c, c', capacity, blkno, c.fl[0]) && CacheOk(c') && |c'.cached| == capacity && |c'.ht| == |c.ht|
  {
    hide Without, Agrees, DirtyListed, Bucketed, Keyed;
    FirstIsFree(c);
    FoundKeeps(c, capacity, blkno, c.fl[0]);
  }

  lemma AllocationTakes<B, D>(c: Cache<B, D>, capacity: nat, blkno: nat, b: B)
    requires CacheOk(c) && blkno !in c.cached && blkno in c.disk && |c.cached| != capacity && b !in c.at
    ensures var c' := Added(c, b, blkno);
      Took(c, c', capacity, blkno, b) && CacheOk(c') && |c'.cached| == |c.cached| + 1 && |c'.ht| == |c.ht|
  {
    FoundKeeps(c, capacity, blkno, b);
  }

  lemma TakenIsGot<B, D>(c: Cache<B, D>, c': Cache<B, D>, capacity: nat, blkno: nat, b: B)
    requires Took(c, c', capacity, blkno, b)
    ensures b in c'.at && c'.at[b].phys == c.view[blkno] && c'.at[b].blkno == blkno
    ensures Got(c, Held(c', b), capacity, blkno, b) && CacheOk(Held(c', b)) && CacheOk(c)
    ensures Effect(c, Held(c', b), capacity, GetCall(blkno, Some(b))) && !NoneFree(c, capacity, blkno)
    ensures Held(c', b).view == c.view && Held(c', b).pending == c.pending
    ensures Held(c', b).at[b].phys == c.view[blkno] && Held(c', b).at[b].blkno == blkno
  {
    hide Agrees, FreeListed, DirtyListed, Bucketed, Found, BlockFor;
    FoundKeeps(c, capacity, blkno, b);
    HoldKeeps(c', b);
  }

  lemma NoneIsGot<B, D>(c: Cache<B, D>, capacity: nat, blkno: nat)
    requires CacheOk(c) && NoneFree(c, capacity, blkno)
    ensures Effect(c, c, capacity, GetCall(blkno, None))
  {
  }

  lemma CleanedIs<B, D>(c: Cache<B, D>, b: B)
    requires CacheOk(c) && b in c.at
    ensures Cleaned(c, b) == if c.at[b].dirty then WrittenBack(c, b) else c
  {
  }

  /** The cache has no block to give exactly if it is full and every block in it is held. */
  lemma NoneFreeMeans<B, D>(c: Cache<B, D>, capacity: nat, blkno: nat)
    requires CacheOk(c)
    ensures NoneFree(c, capacity, blkno) <==>
      blkno !in c.cached && |c.cached| == capacity && forall b <- c.at :: c.at[b].refcnt > 0
  {
    if c.fl != [] {
      assert c.fl[0] in c.fl;
    }
  }

  /** The block that gives way is the one released longest ago of those nobody holds. */
  lemma OldestGoes<B, D>(c: Cache<B, D>, b: B)
    requires CacheOk(c) && c.fl != [] && b in c.at && c.at[b].refcnt == 0
    ensures c.fl[0] in c.at && c.at[c.fl[0]].refcnt == 0 && c.at[c.fl[0]].released <= c.at[b].released
  {
    var i :| 0 <= i < |c.fl| && c.fl[i] == b;
    assert c.fl[0] in c.fl;
  }

  /** `bc_flush`: every block of the dirty list is written. */
  ghost function Flushed<B, D>(c: Cache<B, D>): Cache<B, D>
    requires CacheOk(c)
    decreases |c.dl|
  {
    if c.dl == [] then c
    else
      WriteBackKeeps(c, c.dl[0]);
      Flushed(WrittenBack(c, c.dl[0]))
  }

  lemma {:induction false} FlushKeeps<B, D>(c: Cache<B, D>)
    requires CacheOk(c)
    ensures CacheOk(Flushed(c)) && Flushed(c).dl == []
    ensures Flushed(c).view == c.view && Flushed(c).pending == c.pending && Flushed(c).cached == c.cached
    decreases |c.dl|
  {
    if c.dl != [] {
      WriteBackKeeps(c, c.dl[0]);
      FlushKeeps(WrittenBack(c, c.dl[0]));
    }
  }

  /** A flush leaves numbers and references alone. */
  lemma {:induction false} FlushKeepsBlocks<B, D>(c: Cache<B, D>)
    requires CacheOk(c)
    ensures Flushed(c).at.Keys == c.at.Keys
    ensures forall b <- c.at :: Flushed(c).at[b].refcnt == c.at[b].refcnt && Flushed(c).at[b].blkno == c.at[b].blkno
    decreases |c.dl|
  {
    hide CacheOk;
    if c.dl != [] {
      FlushStep(c);
      FlushKeepsBlocks(WrittenBack(c, c.dl[0]));
    }
  }

  /** After a flush the disk holds what was last written to every block, but for blocks whose client still
      has to call `bc_dirty`. */
  lemma FlushedAgrees<B, D>(c: Cache<B, D>, k: nat)
    requires CacheOk(c) && k in c.disk && (k in c.cached ==> c.cached[k] !in c.pending)
    ensures k in Flushed(c).disk && Flushed(c).disk[k] == c.view[k]
  {
    FlushKeeps(c);
  }

  lemma FlushStep<B, D>(c: Cache<B, D>)
    requires CacheOk(c) && c.dl != []
    ensures c.dl[0] in c.at && c.at[c.dl[0]].dirty
    ensures var c' := WrittenBack(c, c.dl[0]);
      && CacheOk(c') && Flushed(c) == Flushed(c') && |c'.dl| == |c.dl| - 1 && c'.ht == c.ht && c'.cached == c.cached
  {
    assert c.dl[0] in c.dl;
    WriteBackKeeps(c, c.dl[0]);
  }

  lemma FlushEnds<B, D>(c: Cache<B, D>, c': Cache<B, D>)
    requires CacheOk(c) && CacheOk(c') && c'.dl == [] && Flushed(c') == Flushed(c)
    ensures c' == Flushed(c) && c'.view == c.view && c'.pending == c.pending && c'.cached == c.cached
    ensures forall k <- c'.disk :: (k in c'.cached ==> c'.cached[k] !in c'.pending) ==> c'.disk[k] == c'.view[k]
  {
    FlushKeeps(c);
    forall k | k in c'.disk && (k in c'.cached ==> c'.cached[k] !in c'.pending) ensures c'.disk[k] == c'.view[k] {
      FlushedAgrees(c', k);
    }
  }

  // What clients may do, and what they are promised

  /** A call as its client sees it, with the block it was given. */
  datatype Call<B, D> =
    | GetCall(blkno: nat, given: Option<B>)
    | MutateCall(b: B, v: D)
    | DirtyCall(b: B)
    | ReleaseCall(b: B)
    | FlushCall

  /** The references to a block, and the number it was asked for by. */
  datatype Grip = Grip(blkno: nat, refs: nat)

  /** What can be told from the calls alone: the blocks that clients hold, those they have changed and not yet
      flagged, and a plain array of blocks that takes every write. */
  datatype Ledger<B, D> = Ledger(held: map<B, Grip>, unflagged: set<B>, blocks: map<nat, D>)

  ghost function Noted<B, D>(l: Ledger<B, D>, call: Call<B, D>): Ledger<B, D> {
    match call
    case GetCall(_, None) => l
    case GetCall(k, Some(b)) => l.(held := l.held[b := Grip(k, if b in l.held then l.held[b].refs + 1 else 1)])
    case MutateCall(b, v) =>
      if b in l.held then l.(blocks := l.blocks[l.held[b].blkno := v], unflagged := l.unflagged + {b}) else l
    case DirtyCall(b) => l.(unflagged := l.unflagged - {b})
    case ReleaseCall(b) =>
      if b !in l.held then l
      else if l.held[b].refs <= 1 then l.(held := l.held - {b})
      else l.(held := l.held[b := Grip(l.held[b].blkno, l.held[b].refs - 1)])
    case FlushCall => l
  }

  /** A client asks for blocks that exist. It changes, flags and releases only blocks it holds, and flags a
      block it has changed before it lets go of the last reference. */
  ghost predicate Allowed<B, D>(l: Ledger<B, D>, call: Call<B, D>) {
    match call
    case GetCall(k, _) => k in l.blocks
    case MutateCall(b, _) => b in l.held
    case DirtyCall(b) => b in l.held
    case ReleaseCall(b) => b in l.held && (l.held[b].refs == 1 ==> b !in l.unflagged)
    case FlushCall => true
  }

  /** The numbers of the blocks that clients hold. */
  ghost function Numbers<B, D>(l: Ledger<B, D>): set<nat> {
    set b <- l.held :: l.held[b].blkno
  }

  /** The numbers of the blocks that are changed and not yet flagged. */
  ghost function Unflagged<B, D>(l: Ledger<B, D>): set<nat> {
    set b <- l.held | b in l.unflagged :: l.held[b].blkno
  }

  /** What a call gives its client. A block is refused exactly if the clients hold as many other numbers as
      the cache has room for. A block that is given holds the array's content, and is the same for all who
      hold its number. After a flush the disk is the array, but for blocks still to be flagged. */
  ghost predicate Promised<B, D>(l: Ledger<B, D>, capacity: nat, call: Call<B, D>, c': Cache<B, D>) {
    match call
    case GetCall(k, None) => |Numbers(l)| == capacity && k !in Numbers(l)
    case GetCall(k, Some(b)) =>
      && !(|Numbers(l)| == capacity && k !in Numbers(l))
      && k in l.blocks && b in c'.at && c'.at[b].phys == l.blocks[k]
      && forall x <- l.held :: x == b <==> l.held[x].blkno == k
    case FlushCall => forall k <- l.blocks :: k !in Unflagged(l) ==> k in c'.disk && c'.disk[k] == l.blocks[k]
    case _ => true
  }

  /** The cache bears out the ledger. */
  ghost predicate Matches<B, D>(c: Cache<B, D>, l: Ledger<B, D>) {
    && l.blocks == c.view && l.unflagged == c.pending
    && (forall b <- l.held :: b in c.at && c.at[b].refcnt > 0 && l.held[b] == Grip(c.at[b].blkno, c.at[b].refcnt))
    && (forall b <- c.at :: c.at[b].refcnt > 0 ==> b in l.held)
  }

  ghost predicate Kept<B, D>(c: Cache<B, D>, l: Ledger<B, D>, capacity: nat) {
    CacheOk(c) && Matches(c, l) && |c.cached| <= capacity
  }

  /** What a call does to a sound cache. */
  ghost predicate Effect<B, D>(c: Cache<B, D>, c': Cache<B, D>, capacity: nat, call: Call<B, D>)
    requires CacheOk(c)
  {
    match call
    case GetCall(k, None) => NoneFree(c, capacity, k) && c' == c
    case GetCall(k, Some(b)) => !NoneFree(c, capacity, k) && Got(c, c', capacity, k, b)
    case MutateCall(b, v) => b in c.at && c' == Mutated(c, b, v)
    case DirtyCall(b) => b in c.at && c' == Dirtied(c, b)
    case ReleaseCall(b) => b in c.at && c.at[b].refcnt > 0 && c' == Released(c, b)
    case FlushCall => c' == Flushed(c)
  }

  lemma NoneGiven<B, D>(c: Cache<B, D>, l: Ledger<B, D>, capacity: nat, k: nat)
    requires Kept(c, l, capacity)
    ensures NoneFree(c, capacity, k) <==> |Numbers(l)| == capacity && k !in Numbers(l)
  {
    hide Bucketed, DirtyListed, Agrees;
    assert Numbers(l) <= c.cached.Keys;
    if NoneFree(c, capacity, k) {
      AllHeld(c, l);
    } else if |Numbers(l)| == capacity {
      SubsetOfSize(Numbers(l), c.cached.Keys);
      NotAllHeld(c, l);
    }
  }

  lemma SubsetOfSize(a: set<nat>, b: set<nat>)
    requires a <= b && |b| <= |a|
    ensures a == b
  {
    assert b == a + (b - a);
    assert |b| == |a| + |b - a|;
  }

  lemma EmptyIfAllHeld<B, D>(c: Cache<B, D>)
    requires FreeListed(c)
    ensures c.fl == [] <==> forall b <- c.at :: c.at[b].refcnt > 0
  {
    if c.fl != [] {
      assert c.fl[0] in c.fl;
    }
  }

  lemma AllHeld<B, D>(c: Cache<B, D>, l: Ledger<B, D>)
    requires Keyed(c) && FreeListed(c) && Matches(c, l) && c.fl == []
    ensures Numbers(l) == c.cached.Keys
  {
    forall n | n in c.cached ensures n in Numbers(l) {
      assert c.cached[n] in l.held;
    }
  }

  lemma NotAllHeld<B, D>(c: Cache<B, D>, l: Ledger<B, D>)
    requires Keyed(c) && FreeListed(c) && Matches(c, l) && Numbers(l) == c.cached.Keys
    ensures c.fl == []
  {
    forall b | b in c.at ensures c.at[b].refcnt > 0 {
      assert c.at[b].blkno in Numbers(l);
    }
    EmptyIfAllHeld(c);
  }

  lemma FoundMatches<B, D>(c: Cache<B, D>, l: Ledger<B, D>, capacity: nat, k: nat, b: B)
    requires CanTake(c, capacity, k, b) && Matches(c, l) && b == BlockFor(c, capacity, k, b)
    ensures Matches(Found(c, capacity, k, b), l)
    ensures b in Found(c, capacity, k, b).at && Found(c, capacity, k, b).at[b].blkno == k
    ensures forall x <- l.held :: x == b <==> l.held[x].blkno == k
  {
    hide Matches, Bucketed, DirtyListed, FreeListed, Agrees, Cleaned;
    if k in c.cached {
      CachedShared(c, l, k);
    } else if |c.cached| == capacity {
      FirstIsFree(c);
      CleanKeeps(c, b);
      CleanMatches(c, l, b);
      RekeyMatches(Cleaned(c, b), l, b, k);
      NotShared(c, l, k, b);
    } else {
      TableExists(c);
      AddMatches(c, l, b, k);
      NotShared(c, l, k, b);
    }
  }

  /** Whoever holds the number of a cached block holds that block. */
  lemma CachedShared<B, D>(c: Cache<B, D>, l: Ledger<B, D>, k: nat)
    requires Keyed(c) && Matches(c, l) && k in c.cached
    ensures forall x <- l.held :: x == c.cached[k] <==> l.held[x].blkno == k
  {
  }

  lemma NotShared<B, D>(c: Cache<B, D>, l: Ledger<B, D>, k: nat, b: B)
    requires Keyed(c) && Matches(c, l) && k !in c.cached && (b in c.at ==> c.at[b].refcnt == 0)
    ensures forall x <- l.held :: x != b && l.held[x].blkno != k
  {
  }

  lemma CleanMatches<B, D>(c: Cache<B, D>, l: Ledger<B, D>, b: B)
    requires CacheOk(c) && Matches(c, l) && b in c.at
    ensures Matches(Cleaned(c, b), l)
  {
    hide Keyed, Bucketed, FreeListed, DirtyListed, Agrees;
  }

  lemma RekeyMatches<B, D>(c: Cache<B, D>, l: Ledger<B, D>, b: B, k: nat)
    requires Matches(c, l) && b in c.at && c.at[b].refcnt == 0 && |c.ht| > 0 && k in c.disk
    ensures Matches(Rekeyed(c, b, k), l)
  {
  }

  lemma AddMatches<B, D>(c: Cache<B, D>, l: Ledger<B, D>, b: B, k: nat)
    requires Matches(c, l) && b !in c.at && |c.ht| > 0 && k in c.disk
    ensures Matches(Added(c, b, k), l)
  {
  }

  lemma HeldMatches<B, D>(c: Cache<B, D>, l: Ledger<B, D>, k: nat, b: B)
    requires Matches(c, l) && b in c.at && c.at[b].blkno == k
    ensures Matches(Held(c, b), Noted(l, GetCall(k, Some(b))))
  {
    hide Without;
    assert b in l.held <==> c.at[b].refcnt > 0;
  }

  lemma GetKept<B, D>(c: Cache<B, D>, c': Cache<B, D>, l: Ledger<B, D>, capacity: nat, k: nat, b: B)
    requires Kept(c, l, capacity) && !NoneFree(c, capacity, k) && Got(c, c', capacity, k, b)
    ensures Kept(c', Noted(l, GetCall(k, Some(b))), capacity) && Promised(l, capacity, GetCall(k, Some(b)), c')
  {
    hide CacheOk, Matches, Found, BlockFor, NoneFree, Numbers, Noted;
    var c1 := Found(c, capacity, k, b);
    NoneGiven(c, l, capacity, k);
    FoundKeeps(c, capacity, k, b);
    FoundMatches(c, l, capacity, k, b);
    HoldKeeps(c1, b);
    HeldMatches(c1, l, k, b);
    ViewMatches(c, l, k);
    RoomKept(c, capacity, k, b);
  }

  lemma ViewMatches<B, D>(c: Cache<B, D>, l: Ledger<B, D>, k: nat)
    requires CacheOk(c) && Matches(c, l) && k in c.disk
    ensures k in l.blocks && l.blocks[k] == c.view[k]
  {
  }

  lemma RoomKept<B, D>(c: Cache<B, D>, capacity: nat, k: nat, b: B)
    requires CanTake(c, capacity, k, b) && |c.cached| <= capacity && b == BlockFor(c, capacity, k, b)
    ensures |Found(c, capacity, k, b).cached| <= capacity
  {
    hide CacheOk;
    FoundKeeps(c, capacity, k, b);
  }

  lemma MutateKept<B, D>(c: Cache<B, D>, l: Ledger<B, D>, capacity: nat, b: B, v: D)
    requires Kept(c, l, capacity) && b in l.held
    ensures b in c.at && Kept(Mutated(c, b, v), Noted(l, MutateCall(b, v)), capacity)
  {
    hide CacheOk;
    MutateKeeps(c, b, v);
  }

  lemma DirtyKept<B, D>(c: Cache<B, D>, l: Ledger<B, D>, capacity: nat, b: B)
    requires Kept(c, l, capacity) && b in l.held
    ensures b in c.at && Kept(Dirtied(c, b), Noted(l, DirtyCall(b)), capacity)
  {
    hide CacheOk;
    DirtyKeeps(c, b);
  }

  lemma ReleaseKept<B, D>(c: Cache<B, D>, l: Ledger<B, D>, capacity: nat, b: B)
    requires Kept(c, l, capacity) && Allowed(l, ReleaseCall(b))
    ensures b in c.at && c.at[b].refcnt > 0 && Kept(Released(c, b), Noted(l, ReleaseCall(b)), capacity)
  {
    hide CacheOk;
    ReleaseKeeps(c, b);
  }

  lemma FlushKept<B, D>(c: Cache<B, D>, l: Ledger<B, D>, capacity: nat)
    requires Kept(c, l, capacity)
    ensures Kept(Flushed(c), l, capacity) && Promised(l, capacity, FlushCall, Flushed(c))
  {
    hide CacheOk, Flushed;
    FlushKeeps(c);
    FlushKeepsBlocks(c);
    forall k | k in l.blocks && k !in Unflagged(l) ensures k in Flushed(c).disk && Flushed(c).disk[k] == l.blocks[k] {
      PendingIsUnflagged(c, l, k);
      FlushedAgrees(c, k);
    }
  }

  lemma PendingIsUnflagged<B, D>(c: Cache<B, D>, l: Ledger<B, D>, k: nat)
    requires CacheOk(c) && Matches(c, l) && k in l.blocks
    ensures k in c.disk && (k in c.cached && c.cached[k] in c.pending ==> k in Unflagged(l))
  {
    hide Bucketed, DirtyListed, FreeListed;
    if k in c.cached && c.cached[k] in c.pending {
      assert c.cached[k] in l.held;
    }
  }

  /** Every call that a client may make keeps the cache sound and in step with the ledger, and keeps its promise. */
  lemma StepKeeps<B, D>(c: Cache<B, D>, c': Cache<B, D>, l: Ledger<B, D>, capacity: nat, call: Call<B, D>)
    requires Kept(c, l, capacity) && Allowed(l, call) && Effect(c, c', capacity, call)
    ensures Kept(c', Noted(l, call), capacity) && Promised(l, capacity, call, c')
  {
    hide CacheOk, Got, Flushed, Matches, NoneFree, Numbers, Mutated, Dirtied, Released;
    match call
    case GetCall(k, None) => NoneGiven(c, l, capacity, k);
    case GetCall(k, Some(b)) => GetKept(c, c', l, capacity, k, b);
    case MutateCall(b, v) => MutateKept(c, l, capacity, b, v);
    case DirtyCall(b) => DirtyKept(c, l, capacity, b);
    case ReleaseCall(b) => ReleaseKept(c, l, capacity, b);
    case FlushCall => FlushKept(c, l, capacity);
  }

  // Every run

  /** An empty cache over a disk. */
  ghost predicate IsNew<B, D>(c: Cache<B, D>) {
    && |c.ht| > 0 && (forall i :: 0 <= i < |c.ht| ==> c.ht[i] == [])
    && c.fl == [] && c.dl == [] && c.cached == map[] && c.at == map[] && c.view == c.disk && c.pending == {}
  }

  /** The ledger after the first `n` calls. */
  ghost function LedgerAt<B, D>(disk: map<nat, D>, calls: seq<Call<B, D>>, n: nat): Ledger<B, D>
    requires n <= |calls|
  {
    if n == 0 then Ledger(map[], {}, disk) else Noted(LedgerAt(disk, calls, n - 1), calls[n - 1])
  }

  ghost predicate Disciplined<B, D>(disk: map<nat, D>, calls: seq<Call<B, D>>) {
    forall i :: 0 <= i < |calls| ==> Allowed(LedgerAt(disk, calls, i), calls[i])
  }

  ghost predicate Step<B, D>(c: Cache<B, D>, c': Cache<B, D>, capacity: nat, call: Call<B, D>) {
    CacheOk(c) ==> Effect(c, c', capacity, call)
  }

  /** A run from a new cache: `cs[i + 1]` follows from `cs[i]` by `calls[i]`. */
  ghost predicate IsRun<B, D>(cs: seq<Cache<B, D>>, calls: seq<Call<B, D>>, capacity: nat) {
    && |cs| == |calls| + 1 && IsNew(cs[0])
    && forall i :: 0 <= i < |calls| ==> Step(cs[i], cs[i + 1], capacity, calls[i])
  }

  lemma NewIsKept<B, D>(c: Cache<B, D>, capacity: nat)
    requires IsNew(c)
    ensures Kept(c, Ledger(map[], {}, c.disk), capacity)
  {
  }

  /** Over every run in which the clients keep to the rules, whatever is evicted, written or read again, the
      cache is sound and every call keeps its promise about the plain array. */
  lemma {:induction false} RunKeeps<B, D>(cs: seq<Cache<B, D>>, calls: seq<Call<B, D>>, capacity: nat, n: nat)
    requires IsRun(cs, calls, capacity) && Disciplined(cs[0].disk, calls) && n <= |calls|
    ensures Kept(cs[n], LedgerAt(cs[0].disk, calls, n), capacity)
    ensures forall i :: 0 <= i < n ==> Promised(LedgerAt(cs[0].disk, calls, i), capacity, calls[i], cs[i + 1])
  {
    hide IsNew, Noted, Allowed, Effect, Promised, CacheOk, Matches;
    if n == 0 {
      NewIsKept(cs[0], capacity);
    } else {
      RunKeeps(cs, calls, capacity, n - 1);
      assert Step(cs[n - 1], cs[n - 1 + 1], capacity, calls[n - 1]);
      StepKeeps(cs[n - 1], cs[n], LedgerAt(cs[0].disk, calls, n - 1), capacity, calls[n - 1]);
    }
  }

  /** At any time in such a run a held block has the number it was asked for by, and the array's content. */
  lemma HeldIsCurrent<B, D>(cs: seq<Cache<B, D>>, calls: seq<Call<B, D>>, capacity: nat, n: nat, b: B)
    requires IsRun(cs, calls, capacity) && Disciplined(cs[0].disk, calls) && n <= |calls|
    requires b in LedgerAt(cs[0].disk, calls, n).held
    ensures var l := LedgerAt(cs[0].disk, calls, n);
      && b in cs[n].at && cs[n].at[b].refcnt == l.held[b].refs
      && l.held[b].blkno in l.blocks && cs[n].at[b].phys == l.blocks[l.held[b].blkno]
  {
    hide IsRun, Disciplined, LedgerAt;
    RunKeeps(cs, calls, capacity, n);
  }

  // Counting

  ghost function Flat<B>(ht: seq<seq<B>>): seq<B> {
    if ht == [] then [] else Flat(ht[..|ht| - 1]) + ht[|ht| - 1]
  }

  lemma {:induction false} FlatHas<B>(ht: seq<seq<B>>, i: nat, b: B)
    requires i < |ht| && b in ht[i]
    ensures b in Flat(ht)
  {
    if i < |ht| - 1 {
      FlatHas(ht[..|ht| - 1], i, b);
    }
  }

  lemma {:induction false} FlatOk<B, D>(c: Cache<B, D>, n: nat)
    requires Bucketed(c) && n <= |c.ht|
    ensures NoRepeats(Flat(c.ht[..n]))
    ensures forall b <- Flat(c.ht[..n]) :: b in c.at && c.at[b].blkno % |c.ht| < n
  {
    if n > 0 {
      FlatOk(c, n - 1);
      assert c.ht[..n][..n - 1] == c.ht[..n - 1];
      assert InBucket(c, n - 1);
      var a, z := Flat(c.ht[..n - 1]), c.ht[n - 1];
      forall i, j | 0 <= i < j < |a + z| ensures (a + z)[i] != (a + z)[j] {
        if i < |a| <= j {
          assert a[i] in a && z[j - |a|] in z;
        }
      }
    }
  }

  ghost function Elements(s: seq<nat>): set<nat> {
    set x | x in s
  }

  lemma {:induction false} NoRepeatsSize(s: seq<nat>)
    requires NoRepeats(s)
    ensures |Elements(s)| == |s|
  {
    if s != [] {
      NoRepeatsSize(s[1..]);
      assert Elements(s) == Elements(s[1..]) + {s[0]};
    }
  }

  /** The block numbers found in the buckets are the cached ones, each once. */
  lemma NumbersIn<B, D>(c: Cache<B, D>) returns (numbers: seq<nat>)
    requires CacheOk(c)
    ensures |numbers| == |Flat(c.ht)| && NoRepeats(numbers) && forall k <- numbers :: k in c.cached
    ensures forall i :: 0 <= i < |numbers| ==> Flat(c.ht)[i] in c.at && numbers[i] == c.at[Flat(c.ht)[i]].blkno
  {
    hide Agrees, FreeListed, DirtyListed, Bucketed, Flat;
    var f := Flat(c.ht);
    FlatOk(c, |c.ht|);
    assert c.ht[..|c.ht|] == c.ht;
    assert forall i :: 0 <= i < |f| ==> f[i] in f;
    numbers := seq(|f|, i requires 0 <= i < |f| => c.at[f[i]].blkno);
  }

  lemma NumberFound<B, D>(c: Cache<B, D>, numbers: seq<nat>, k: nat)
    requires CacheOk(c) && |numbers| == |Flat(c.ht)| && k in c.cached
    requires forall i :: 0 <= i < |numbers| ==> Flat(c.ht)[i] in c.at && numbers[i] == c.at[Flat(c.ht)[i]].blkno
    ensures k in numbers
  {
    FlatHas(c.ht, k % |c.ht|, c.cached[k]);
    var i :| 0 <= i < |Flat(c.ht)| && Flat(c.ht)[i] == c.cached[k];
    assert numbers[i] == k;
  }

  /** The buckets together hold as many blocks as there are cached block numbers. */
  lemma CountsAgree<B, D>(c: Cache<B, D>)
    requires CacheOk(c)
    ensures |Flat(c.ht)| == |c.cached|
  {
    hide CacheOk;
    var numbers := NumbersIn(c);
    NoRepeatsSize(numbers);
    forall k | k in c.cached ensures k in numbers {
      NumberFound(c, numbers, k);
    }
    assert Elements(numbers) == c.cached.Keys;
  }

  /** What the program's own check demands of a cached block. */
  ghost predicate Listed<B, D>(c: Cache<B, D>, b: B) {
    && NoRepeats(c.dl) && NoRepeats(c.fl) && b in c.at
    && (b in c.fl <==> c.at[b].refcnt == 0) && (b in c.dl <==> c.at[b].dirty)
  }

  lemma CachedIsListed<B, D>(c: Cache<B, D>, b: B)
    requires CacheOk(c) && b in c.at
    ensures Listed(c, b)
  {
    forall j, k | 0 <= j < k < |c.fl| ensures c.fl[j] != c.fl[k] {
      assert c.at[c.fl[j]].released < c.at[c.fl[k]].released;
    }
  }

  /** Every block in a bucket is on the lists it belongs on. */
  lemma FoundIsListed<B, D>(c: Cache<B, D>)
    requires CacheOk(c)
    ensures forall b <- Flat(c.ht) :: Listed(c, b)
  {
    hide Agrees, FreeListed, DirtyListed, Listed, Flat;
    FlatOk(c, |c.ht|);
    assert c.ht[..|c.ht|] == c.ht;
    forall b | b in Flat(c.ht) ensures Listed(c, b) {
      CachedIsListed(c, b);
    }
  }

  lemma NothingFlat<B>(ht: seq<seq<B>>)
    ensures Flat(ht[..0]) == []
  {
  }

  lemma {:induction false} FlatStep<B>(ht: seq<seq<B>>, i: nat)
    requires i < |ht|
    ensures Flat(ht[..i + 1]) == Flat(ht[..i]) + ht[i]
    ensures forall b <- ht[i] :: b in Flat(ht)
  {
    assert ht[..i + 1][..i] == ht[..i];
    forall b | b in ht[i] ensures b in Flat(ht) {
      FlatHas(ht, i, b);
    }
  }
}
