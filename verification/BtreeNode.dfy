/** Records and nodes of the on-disk B-tree, and how a full node splits (btrees/btree.c). */
module BtreeNode {
  import opened Common

  const BLKSZ: nat := 1024
  const NODE_HEADER: nat := 10
  const INFO_SIZE: nat := 4
  const REC_HEADER: nat := 4
  const PTR_SIZE: nat := 8

  /** `bt_max_inline_record_size`: what a node without a root's info can hold. */
  const MAX_INLINE: nat := BLKSZ - NODE_HEADER

  /** The largest record, and the largest index record, with which every split is clean
      (`SplitLimitIsExact`). */
  const SIZE_LIMIT: nat := MAX_INLINE / 4

  /** `rank` places the key in the order of the compare function. Keys are bounded byte strings, so every
      total preorder on them has such ranks. */
  datatype Key = Key(rank: int, size: nat)

  datatype Val = Data(size: nat, content: int) | Ptr(blkno: nat)

  datatype Rec = Rec(key: Key, val: Val)

  function ValSize(v: Val): nat {
    if v.Data? then v.size else PTR_SIZE
  }

  function RecSize(r: Rec): nat {
    REC_HEADER + r.key.size + ValSize(r.val)
  }

  function IndexSize(k: Key): nat {
    REC_HEADER + k.size + PTR_SIZE
  }

  function IndexRec(k: Key, blkno: nat): Rec {
    Rec(k, Ptr(blkno))
  }

  /** The size limits under which records are stored: both the record and an index record for its key. */
  predicate SizeOk(r: Rec) {
    RecSize(r) <= SIZE_LIMIT && IndexSize(r.key) <= SIZE_LIMIT
  }

  /** A node block. `first` is the leading child pointer of an index node, 0 in a leaf. */
  datatype Node = Node(isLeaf: bool, isRoot: bool, first: nat, recs: seq<Rec>, freespace: int)

  function Sum(recs: seq<Rec>): (n: nat)
    ensures |recs| > 0 ==> n >= REC_HEADER
  {
    if recs == [] then 0 else RecSize(recs[0]) + Sum(recs[1..])
  }

  /** Bytes for records in a node that already holds its first pointer, if it has one. */
  function Capacity(isLeaf: bool, isRoot: bool): (c: nat)
    ensures MAX_INLINE - INFO_SIZE - PTR_SIZE <= c <= MAX_INLINE
  {
    MAX_INLINE - (if isRoot then INFO_SIZE else 0) - (if isLeaf then 0 else PTR_SIZE)
  }

  lemma {:induction false} SumConcat(a: seq<Rec>, b: seq<Rec>)
    ensures Sum(a + b) == Sum(a) + Sum(b)
  {
    if a == [] {
      assert a + b == b;
    } else {
      assert (a + b)[1..] == a[1..] + b;
      SumConcat(a[1..], b);
    }
  }

  lemma SumSplit(s: seq<Rec>, i: nat)
    requires i <= |s|
    ensures Sum(s) == Sum(s[..i]) + Sum(s[i..])
  {
    assert s == s[..i] + s[i..];
    SumConcat(s[..i], s[i..]);
  }

  lemma SumStep(s: seq<Rec>, i: nat)
    requires i < |s|
    ensures Sum(s[..i + 1]) == Sum(s[..i]) + RecSize(s[i])
    ensures Sum(s[i..]) == RecSize(s[i]) + Sum(s[i + 1..])
  {
    assert s[..i + 1] == s[..i] + [s[i]];
    SumConcat(s[..i], [s[i]]);
    assert Sum([s[i]]) == RecSize(s[i]);
    assert s[i..][1..] == s[i + 1..];
  }

  lemma SumReplaced(s: seq<Rec>, i: nat, r: Rec)
    requires i < |s|
    ensures Sum(s[i := r]) == Sum(s) - RecSize(s[i]) + RecSize(r)
  {
    SumSplit(s, i);
    SumStep(s, i);
    var s' := s[i := r];
    assert s'[..i] == s[..i] && s'[i + 1..] == s[i + 1..];
    SumSplit(s', i);
    SumStep(s', i);
  }

  // Ordered record lists

  ghost predicate Sorted(s: seq<Rec>) {
    forall i, j :: 0 <= i < j < |s| ==> s[i].key.rank < s[j].key.rank
  }

  /** The position of the first record not below `k`. */
  function Pos(s: seq<Rec>, k: int): (p: nat)
    ensures p <= |s|
    ensures forall i :: 0 <= i < p ==> s[i].key.rank < k
    ensures p < |s| ==> k <= s[p].key.rank
  {
    if s == [] || k <= s[0].key.rank then 0 else 1 + Pos(s[1..], k)
  }

  predicate Has(s: seq<Rec>, k: int) {
    var p := Pos(s, k); p < |s| && s[p].key.rank == k
  }

  function InsertAt(s: seq<Rec>, p: nat, r: Rec): seq<Rec>
    requires p <= |s|
  {
    s[..p] + [r] + s[p..]
  }

  /** The ordered list with a new record. */
  function Ins(s: seq<Rec>, r: Rec): seq<Rec> {
    InsertAt(s, Pos(s, r.key.rank), r)
  }

  /** The ordered list without the record of key `k`. */
  function Del(s: seq<Rec>, k: int): seq<Rec> {
    var p := Pos(s, k); if Has(s, k) then s[..p] + s[p + 1..] else s
  }

  /** The position is the only place that keeps records below `k` before it and the others after it. */
  lemma {:induction false} PosUnique(s: seq<Rec>, k: int, p: nat)
    requires p <= |s|
    requires forall i :: 0 <= i < p ==> s[i].key.rank < k
    requires p < |s| ==> k <= s[p].key.rank
    ensures Pos(s, k) == p
  {
    if p > 0 {
      assert s[0].key.rank < k;
      PosUnique(s[1..], k, p - 1);
    }
  }

  lemma {:induction false} PosMonotone(s: seq<Rec>, k: int, k': int)
    requires k <= k'
    ensures Pos(s, k) <= Pos(s, k')
  {
    if s != [] && s[0].key.rank < k {
      PosMonotone(s[1..], k, k');
    }
  }

  /** A record below the key lies before its position. */
  lemma {:induction false} PosAfter(s: seq<Rec>, k: int, i: nat)
    requires Sorted(s) && i < |s| && s[i].key.rank < k
    ensures i < Pos(s, k)
  {
    if i > 0 {
      assert s[0].key.rank < s[i].key.rank;
      PosAfter(s[1..], k, i - 1);
    }
  }

  lemma PosInPart(s: seq<Rec>, k: int, d: nat)
    requires d <= |s|
    ensures Pos(s, k) < d ==> Pos(s[..d], k) == Pos(s, k) && (Has(s[..d], k) <==> Has(s, k))
    ensures Pos(s, k) >= d ==> Pos(s[d..], k) == Pos(s, k) - d && (Has(s[d..], k) <==> Has(s, k))
  {
    if Pos(s, k) < d {
      PosUnique(s[..d], k, Pos(s, k));
    } else {
      PosUnique(s[d..], k, Pos(s, k) - d);
    }
  }

  lemma HasMeansMember(s: seq<Rec>, k: int)
    requires Sorted(s)
    ensures Has(s, k) <==> exists i :: 0 <= i < |s| && s[i].key.rank == k
  {
    if i :| 0 <= i < |s| && s[i].key.rank == k {
      PosUnique(s, k, i);
    }
  }

  lemma InsSorted(s: seq<Rec>, r: Rec)
    requires Sorted(s) && !Has(s, r.key.rank)
    ensures Sorted(Ins(s, r))
  {
    var p := Pos(s, r.key.rank);
    forall i | p <= i < |s| ensures r.key.rank < s[i].key.rank {
      assert r.key.rank < s[p].key.rank <= s[i].key.rank;
    }
  }

  lemma SumInsertAt(s: seq<Rec>, p: nat, r: Rec)
    requires p <= |s|
    ensures Sum(InsertAt(s, p, r)) == Sum(s) + RecSize(r)
  {
    SumConcat(s[..p] + [r], s[p..]);
    SumConcat(s[..p], [r]);
    assert Sum([r]) == RecSize(r);
    SumSplit(s, p);
  }

  lemma SumWithout(s: seq<Rec>, i: nat)
    requires i < |s|
    ensures Sum(s[..i] + s[i + 1..]) == Sum(s) - RecSize(s[i])
  {
    SumConcat(s[..i], s[i + 1..]);
    SumSplit(s, i);
    SumStep(s, i);
  }

  // Splitting a full node. `pos` is where the new record of size `n` belongs.

  /** The record at which the search for a split point stops: the first one before which half a node
      has been counted, the new record included once its place is reached. */
  function SplitPoint(s: seq<Rec>, n: nat, pos: nat, i: nat): (sp: Option<nat>)
    requires i <= |s|
    ensures sp.Some? ==> i <= sp.value < |s|
    decreases |s| - i
  {
    if i == |s| then None
    else if Sum(s[..i]) + (if pos <= i then n else 0) >= MAX_INLINE / 2 then Some(i)
    else SplitPoint(s, n, pos, i + 1)
  }

  /** What the program computes as the size of the new node's records. */
  function TailSize(s: seq<Rec>, n: nat, pos: nat, sp: Option<nat>): nat
    requires sp.Some? ==> sp.value <= |s|
  {
    if sp.None? then 0 else Sum(s[sp.value..]) + (if pos >= sp.value then n else 0)
  }

  /** The program suspects that two nodes do not suffice. It then asserts that the new record is longer
      than half a node. */
  predicate ThirdNode(s: seq<Rec>, n: nat, pos: nat) {
    var sp := SplitPoint(s, n, pos, 0);
    (sp.None? || pos >= sp.value) && TailSize(s, n, pos, sp) > MAX_INLINE
  }

  /** The bytes counted before the split point when the search ends. */
  function HeadSize(s: seq<Rec>, n: nat, pos: nat, sp: Option<nat>): nat
    requires sp.Some? ==> sp.value <= |s|
  {
    Sum(s[..if sp.Some? then sp.value else |s|]) + (if pos < |s| then n else 0)
  }

  /** One of the assertions that go with this suspicion fails. */
  predicate SplitAborts(s: seq<Rec>, r: Rec) {
    var n, pos := RecSize(r), Pos(s, r.key.rank);
    ThirdNode(s, n, pos) && !(n > MAX_INLINE / 2 && HeadSize(s, n, pos, SplitPoint(s, n, pos, 0)) + n > MAX_INLINE)
  }

  /** The properties of a split point: enough before it, and not enough one record earlier. */
  lemma {:induction false} SplitPointBounds(s: seq<Rec>, n: nat, pos: nat, i: nat)
    requires i <= |s| && pos <= |s|
    requires i > 0 ==> Sum(s[..i - 1]) + (if pos <= i - 1 then n else 0) < MAX_INLINE / 2
    ensures var sp := SplitPoint(s, n, pos, i);
      && (sp.Some? ==> Sum(s[..sp.value]) + (if pos <= sp.value then n else 0) >= MAX_INLINE / 2)
      && (var last := if sp.Some? then sp.value else |s|;
          last > 0 ==> Sum(s[..last - 1]) + (if pos <= last - 1 then n else 0) < MAX_INLINE / 2)
    decreases |s| - i
  {
    if i < |s| && SplitPoint(s, n, pos, i) != Some(i) {
      SplitPointBounds(s, n, pos, i + 1);
    }
  }

  /** Half a node, 507 bytes, lies before record `i`, the new record included if it belongs there or further left. */
  ghost predicate HalfBefore(s: seq<Rec>, n: nat, pos: nat, i: nat)
    requires i <= |s|
  {
    Sum(s[..i]) + (if pos <= i then n else 0) >= 507
  }

  lemma {:induction false} HalfStays(s: seq<Rec>, n: nat, pos: nat, i: nat, j: nat)
    requires i <= j <= |s| && HalfBefore(s, n, pos, i)
    ensures HalfBefore(s, n, pos, j)
  {
    SumSplit(s[..j], i);
    assert s[..j][..i] == s[..i];
  }

  /** The node is split before the first record that has half a node before it. */
  lemma SplitPointIsFirst(s: seq<Rec>, n: nat, pos: nat, i: nat)
    requires pos <= |s|
    ensures SplitPoint(s, n, pos, 0) == Some(i)
      <==> i < |s| && HalfBefore(s, n, pos, i) && forall j :: 0 <= j < i ==> !HalfBefore(s, n, pos, j)
  {
    SplitPointBounds(s, n, pos, 0);
    hide SplitPoint;
    var sp := SplitPoint(s, n, pos, 0);
    var last := if sp.Some? then sp.value else |s|;
    assert sp.Some? ==> HalfBefore(s, n, pos, sp.value);
    if i < |s| && HalfBefore(s, n, pos, i) && last > i {
      HalfStays(s, n, pos, i, last - 1);
    }
    if sp == Some(i) {
      forall j | 0 <= j < i ensures !HalfBefore(s, n, pos, j) {
        if HalfBefore(s, n, pos, j) {
          HalfStays(s, n, pos, j, i - 1);
        }
      }
    }
  }

  /** A node that has no room for a new record, where no record is longer than `limit`. */
  ghost predicate Full(isLeaf: bool, isRoot: bool, s: seq<Rec>, r: Rec, limit: nat) {
    && Sorted(s) && !Has(s, r.key.rank)
    && Sum(s) <= Capacity(isLeaf, isRoot) < Sum(s) + RecSize(r)
    && RecSize(r) <= limit && forall x <- s :: RecSize(x) <= limit
  }

  /** Where the old records are divided: at the split point, or after the last one. */
  function DivideAt(s: seq<Rec>, r: Rec): (d: nat)
    ensures d <= |s|
  {
    var sp := SplitPoint(s, RecSize(r), Pos(s, r.key.rank), 0);
    if sp.Some? then sp.value else |s|
  }

  /** The records of the old node after the split, the new record included if it belongs there. */
  function LeftPart(s: seq<Rec>, r: Rec): seq<Rec> {
    var d, p := DivideAt(s, r), Pos(s, r.key.rank);
    if p < d then InsertAt(s[..d], p, r) else s[..d]
  }

  function RightPart(s: seq<Rec>, r: Rec): seq<Rec> {
    var d, p := DivideAt(s, r), Pos(s, r.key.rank);
    if p < d then s[d..] else InsertAt(s[d..], p - d, r)
  }

  /** The key that a split hands to the parent: the first one of the new node. */
  function SeparatorKey(s: seq<Rec>, r: Rec): Key {
    var right := RightPart(s, r);
    if right == [] then r.key else right[0].key
  }

  /** Where a node is divided depends on the sizes and the order, not on what the new record holds. */
  lemma SeparatorOfKey(s: seq<Rec>, r: Rec, r': Rec)
    requires r.key == r'.key && ValSize(r.val) == ValSize(r'.val)
    ensures SeparatorKey(s, r) == SeparatorKey(s, r')
  {
  }

  /** The sizes behind a clean split, as numbers: `head` bytes lie before the division and `size` is the
      last record there. */
  lemma DivideArithmetic(capacity: nat, total: nat, n: nat, head: nat, size: nat, before: bool, at: bool, found: bool)
    requires MAX_INLINE - INFO_SIZE - PTR_SIZE <= capacity <= MAX_INLINE
    requires total <= capacity < total + n && n <= SIZE_LIMIT && size <= SIZE_LIMIT && size <= head
    requires found ==> head + (if before || at then n else 0) >= MAX_INLINE / 2
    requires !found ==> head == total
    requires !(before && at) && head - size + (if before then n else 0) < MAX_INLINE / 2
    ensures head > 0 && (!found ==> !before)
    ensures head + (if before then n else 0) <= MAX_INLINE - PTR_SIZE
    ensures total - head + (if before then 0 else n) < capacity
  {
  }

  /** What the search for the split point has counted where it divides the records. */
  lemma DividePoint(s: seq<Rec>, n: nat, p: nat, d: nat)
    requires p <= |s| && d == if SplitPoint(s, n, p, 0).Some? then SplitPoint(s, n, p, 0).value else |s|
    ensures d <= |s|
    ensures d < |s| ==> Sum(s[..d]) + (if p <= d then n else 0) >= MAX_INLINE / 2
    ensures d > 0 ==> Sum(s[..d - 1]) + (if p < d then n else 0) < MAX_INLINE / 2
  {
    hide Sum;
    SplitPointBounds(s, n, p, 0);
  }

  lemma DivideBounds(s: seq<Rec>, r: Rec, p: nat, d: nat)
    requires p == Pos(s, r.key.rank) && d == DivideAt(s, r)
    ensures d < |s| ==> Sum(s[..d]) + (if p <= d then RecSize(r) else 0) >= MAX_INLINE / 2
    ensures d > 0 ==>
      Sum(s[..d]) == Sum(s[..d - 1]) + RecSize(s[d - 1]) && Sum(s[..d - 1]) + (if p < d then RecSize(r) else 0) < MAX_INLINE / 2
    ensures d == 0 ==> Sum(s[..d]) == 0
  {
    hide Pos, Sum, SplitPoint, RecSize;
    DividePoint(s, RecSize(r), p, d);
    NoSum(s);
    if d > 0 {
      SumStep(s, d - 1);
    }
  }

  lemma NoSum(s: seq<Rec>)
    ensures Sum(s[..0]) == 0
  {
  }

  /** Both parts of a division within the size limit: at least one old record stays, and neither part is
      longer than a node. */
  lemma DivideSizes(isLeaf: bool, isRoot: bool, s: seq<Rec>, r: Rec, p: nat, d: nat)
    requires Full(isLeaf, isRoot, s, r, SIZE_LIMIT) && p == Pos(s, r.key.rank) && d == DivideAt(s, r)
    ensures d > 0 && (d == |s| ==> p == |s|)
    ensures Sum(s[..d]) + (if p < d then RecSize(r) else 0) <= Capacity(isLeaf, false)
    ensures Sum(s[d..]) + (if p < d then 0 else RecSize(r)) <= Capacity(isLeaf, false)
  {
    var n := RecSize(r);
    DivideBounds(s, r, p, d);
    SumSplit(s, d);
    var size := if d > 0 then RecSize(s[d - 1]) else 0;
    assert d > 0 ==> s[d - 1] in s;
    assert d == |s| ==> s[..d] == s;
    DivideArithmetic(Capacity(isLeaf, isRoot), Sum(s), n, Sum(s[..d]), size, p < d, p == d, d < |s|);
  }

  lemma PartsJoin(s: seq<Rec>, r: Rec, p: nat, d: nat)
    requires p <= |s| && d <= |s|
    ensures InsertAt(s, p, r) == if p < d then InsertAt(s[..d], p, r) + s[d..] else s[..d] + InsertAt(s[d..], p - d, r)
  {
    if p < d {
      assert s[..d][..p] == s[..p];
      assert s[..d][p..] + s[d..] == s[p..];
    } else {
      assert s[..d] + s[d..][..p - d] == s[..p];
      assert s[d..][p - d..] == s[p..];
    }
  }

  /** Within the size limit a full node splits into two: neither is empty, both fit, together they hold the
      old records and the new one in order, and the program never looks for a third node. */
  lemma CleanSplit(isLeaf: bool, isRoot: bool, s: seq<Rec>, r: Rec)
    requires Full(isLeaf, isRoot, s, r, SIZE_LIMIT)
    ensures !ThirdNode(s, RecSize(r), Pos(s, r.key.rank))
    ensures SplitPoint(s, RecSize(r), Pos(s, r.key.rank), 0).None? ==> Pos(s, r.key.rank) == |s|
    ensures |LeftPart(s, r)| > 0 && |RightPart(s, r)| > 0
    ensures Sum(LeftPart(s, r)) <= Capacity(isLeaf, false) && Sum(RightPart(s, r)) <= Capacity(isLeaf, false)
    ensures LeftPart(s, r) + RightPart(s, r) == Ins(s, r)
  {
    hide SplitPoint, ThirdNode, Full, Sum, DivideAt;
    var p, d := Pos(s, r.key.rank), DivideAt(s, r);
    DivideSizes(isLeaf, isRoot, s, r, p, d);
    NoThirdNode(isLeaf, isRoot, s, r);
    PartSums(s, r);
    PartsJoin(s, r, p, d);
  }

  lemma PartSums(s: seq<Rec>, r: Rec)
    ensures var p, d := Pos(s, r.key.rank), DivideAt(s, r);
      && Sum(LeftPart(s, r)) == Sum(s[..d]) + (if p < d then RecSize(r) else 0)
      && Sum(RightPart(s, r)) == Sum(s[d..]) + (if p < d then 0 else RecSize(r))
  {
    var p, d := Pos(s, r.key.rank), DivideAt(s, r);
    if p < d {
      SumInsertAt(s[..d], p, r);
    } else {
      SumInsertAt(s[d..], p - d, r);
    }
  }

  lemma NoThirdNode(isLeaf: bool, isRoot: bool, s: seq<Rec>, r: Rec)
    requires Full(isLeaf, isRoot, s, r, SIZE_LIMIT)
    ensures !ThirdNode(s, RecSize(r), Pos(s, r.key.rank))
    ensures SplitPoint(s, RecSize(r), Pos(s, r.key.rank), 0).None? ==> Pos(s, r.key.rank) == |s|
  {
    DivideSizes(isLeaf, isRoot, s, r, Pos(s, r.key.rank), DivideAt(s, r));
  }

  /** A clean split as the program carries it out: the records from `d` on move, and the new record goes
      into the half it belongs to, where it fits. */
  lemma CleanHalves(isLeaf: bool, isRoot: bool, s: seq<Rec>, r: Rec) returns (d: nat, left: seq<Rec>, right: seq<Rec>)
    requires Full(isLeaf, isRoot, s, r, SIZE_LIMIT)
    ensures d == DivideAt(s, r) && left == LeftPart(s, r) && right == RightPart(s, r)
    ensures !ThirdNode(s, RecSize(r), Pos(s, r.key.rank))
    ensures SplitPoint(s, RecSize(r), Pos(s, r.key.rank), 0).None? ==> Pos(s, r.key.rank) == |s|
    ensures Pos(s, r.key.rank) < d ==>
      !Has(s[..d], r.key.rank) && Sum(s[..d]) + RecSize(r) <= Capacity(isLeaf, false) && left == Ins(s[..d], r) && right == s[d..]
    ensures Pos(s, r.key.rank) >= d ==>
      !Has(s[d..], r.key.rank) && Sum(s[d..]) + RecSize(r) <= Capacity(isLeaf, false) && left == s[..d] && right == Ins(s[d..], r)
    ensures Halves(isLeaf, Ins(s, r), left, right)
  {
    d, left, right := DivideAt(s, r), LeftPart(s, r), RightPart(s, r);
    DivideSizes(isLeaf, isRoot, s, r, Pos(s, r.key.rank), d);
    PosInPart(s, r.key.rank, d);
    CleanSplit(isLeaf, isRoot, s, r);
  }

  /** Two non-empty halves of a record list that fit into a node each. */
  ghost predicate Halves(isLeaf: bool, s: seq<Rec>, left: seq<Rec>, right: seq<Rec>) {
    && left + right == s && left != [] && right != []
    && Sum(left) <= Capacity(isLeaf, false) && Sum(right) <= Capacity(isLeaf, false)
  }

  /** What the program has found out before it moves anything: where the split lies, where the new record
      goes, and that the new node is not too long. */
  lemma SplitPlan(isLeaf: bool, isRoot: bool, s: seq<Rec>, r: Rec, sp: Option<nat>, ins: Option<nat>, tailsz: nat)
    requires Full(isLeaf, isRoot, s, r, SIZE_LIMIT) && sp == SplitPoint(s, RecSize(r), Pos(s, r.key.rank), 0)
    requires ins == (if Pos(s, r.key.rank) < |s| then Some(Pos(s, r.key.rank)) else None)
    requires tailsz == TailSize(s, RecSize(r), Pos(s, r.key.rank), sp)
    ensures var newInTail := ins.None? || sp.None? || ins.value >= sp.value;
      && 0 < DivideAt(s, r) == (if sp.Some? then sp.value else |s|)
      && (newInTail <==> DivideAt(s, r) <= Pos(s, r.key.rank)) && (newInTail ==> tailsz <= MAX_INLINE)
      && (sp.Some? ==> sp.value < |s| && tailsz == Sum(s[sp.value..]) + if newInTail then RecSize(r) else 0)
  {
    NoThirdNode(isLeaf, isRoot, s, r);
    DivideSizes(isLeaf, isRoot, s, r, Pos(s, r.key.rank), DivideAt(s, r));
  }

  /** Four records that fill a node, and a fifth, one byte above the limit. */
  function LongRecords(): (s: seq<Rec>)
    ensures |s| == 4
  {
    [Rec(Key(0, 8), Data(241, 0)), Rec(Key(10, 8), Data(242, 0)), Rec(Key(20, 8), Data(242, 0)), Rec(Key(30, 8), Data(241, 0))]
  }

  function LongRecord(): Rec {
    Rec(Key(5, 8), Data(242, 0))
  }

  lemma LongSums()
    ensures var s := LongRecords();
      Sum(s[..0]) == 0 && Sum(s[..1]) == SIZE_LIMIT && Sum(s[1..]) == 3 * SIZE_LIMIT + 2 && Sum(s) == MAX_INLINE
  {
    var s := LongRecords();
    assert s[0..] == s && Sum(s[4..]) == 0;
    SumStep(s, 0);
    SumStep(s, 1);
    SumStep(s, 2);
    SumStep(s, 3);
  }

  lemma LongSplitPoint()
    ensures Pos(LongRecords(), LongRecord().key.rank) == 1
    ensures SplitPoint(LongRecords(), SIZE_LIMIT + 1, 1, 0) == Some(1)
  {
    PosUnique(LongRecords(), 5, 1);
    LongSums();
    hide Sum, LongRecords;
    assert SplitPoint(LongRecords(), SIZE_LIMIT + 1, 1, 0) == SplitPoint(LongRecords(), SIZE_LIMIT + 1, 1, 1);
  }

  /** A node on which the assertions fail as soon as records one byte above the limit are allowed. */
  lemma LongerRecordsAbort()
    ensures Full(true, false, LongRecords(), LongRecord(), SIZE_LIMIT + 1) && SplitAborts(LongRecords(), LongRecord())
  {
    LongSums();
    LongSplitPoint();
  }

  /** The size limit is exact: the split assertions hold for every full node with records up to a limit
      if and only if the limit is at most a quarter of what a node holds. */
  lemma SplitLimitIsExact(limit: nat)
    ensures (forall isLeaf, isRoot, s, r :: Full(isLeaf, isRoot, s, r, limit) ==> !SplitAborts(s, r))
       <==> limit <= SIZE_LIMIT
  {
    if limit <= SIZE_LIMIT {
      forall isLeaf, isRoot, s, r | Full(isLeaf, isRoot, s, r, limit) ensures !SplitAborts(s, r) {
        CleanSplit(isLeaf, isRoot, s, r);
      }
    } else {
      LongerRecordsAbort();
      assert Full(true, false, LongRecords(), LongRecord(), limit);
    }
  }
}
