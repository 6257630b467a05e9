/** The B-tree as a tree: ghost views of the blocks of btrees/btree.c, with the routing ranges and levels
    that the blocks do not store. */
module BtreeShape {
  import opened Common
  import opened BtreeNode

  /** `Nil` stands for a zero child pointer. Child `j` of an index node holds the keys from separator
      `j - 1` up to separator `j`. */
  datatype Tree = Nil | Leaf(blk: nat, recs: seq<Rec>) | Index(blk: nat, seps: seq<Key>, kids: seq<Tree>)

  function BlkOf(t: Tree): nat {
    if t.Nil? then 0 else t.blk
  }

  ghost function Recs(t: Tree): seq<Rec>
    decreases t
  {
    match t
    case Nil => []
    case Leaf(_, recs) => recs
    case Index(_, _, kids) => RecsAll(kids)
  }

  ghost function RecsAll(ts: seq<Tree>): seq<Rec>
    decreases ts
  {
    if ts == [] then [] else Recs(ts[0]) + RecsAll(ts[1..])
  }

  ghost function Blocks(t: Tree): multiset<nat>
    decreases t
  {
    match t
    case Nil => multiset{}
    case Leaf(blk, _) => multiset{blk}
    case Index(blk, _, kids) => multiset{blk} + BlocksAll(kids)
  }

  ghost function BlocksAll(ts: seq<Tree>): multiset<nat>
    decreases ts
  {
    if ts == [] then multiset{} else Blocks(ts[0]) + BlocksAll(ts[1..])
  }

  lemma {:induction false} RecsConcat(a: seq<Tree>, b: seq<Tree>)
    ensures RecsAll(a + b) == RecsAll(a) + RecsAll(b)
    decreases |a|
  {
    if a == [] {
      assert a + b == b;
    } else {
      assert (a + b)[1..] == a[1..] + b;
      RecsConcat(a[1..], b);
    }
  }

  lemma {:induction false} BlocksConcat(a: seq<Tree>, b: seq<Tree>)
    ensures BlocksAll(a + b) == BlocksAll(a) + BlocksAll(b)
    decreases |a|
  {
    if a == [] {
      assert a + b == b;
    } else {
      assert (a + b)[1..] == a[1..] + b;
      BlocksConcat(a[1..], b);
    }
  }

  // Routing

  /** The child the search descends to: the number of leading separators not above the key. */
  function Route(seps: seq<Key>, k: int): (j: nat)
    ensures j <= |seps|
    ensures forall i :: 0 <= i < j ==> seps[i].rank <= k
    ensures j < |seps| ==> k < seps[j].rank
  {
    if seps == [] || k < seps[0].rank then 0 else 1 + Route(seps[1..], k)
  }

  ghost predicate Above(lo: Option<int>, k: int) {
    lo.Some? ==> lo.value <= k
  }

  ghost predicate Below(hi: Option<int>, k: int) {
    hi.Some? ==> k < hi.value
  }

  /** The range of keys routed to child `j`. */
  ghost function LoOf(seps: seq<Key>, lo: Option<int>, j: nat): Option<int>
    requires j <= |seps|
  {
    if j == 0 then lo else Some(seps[j - 1].rank)
  }

  ghost function HiOf(seps: seq<Key>, hi: Option<int>, j: nat): Option<int>
    requires j <= |seps|
  {
    if j == |seps| then hi else Some(seps[j].rank)
  }

  ghost predicate Ascending(seps: seq<Key>) {
    forall i, j :: 0 <= i < j < |seps| ==> seps[i].rank < seps[j].rank
  }

  /** A leaf's records: in order, in range, within the size limits. */
  ghost predicate LeafOk(recs: seq<Rec>, lo: Option<int>, hi: Option<int>) {
    Sorted(recs) && forall r <- recs :: Above(lo, r.key.rank) && Below(hi, r.key.rank) && SizeOk(r)
  }

  ghost predicate SepsOk(seps: seq<Key>, lo: Option<int>, hi: Option<int>) {
    && |seps| > 0 && Ascending(seps)
    && Above(lo, seps[0].rank) && Below(hi, seps[|seps| - 1].rank)
    && forall s <- seps :: IndexSize(s) <= SIZE_LIMIT
  }

  /** A well-formed tree of the given level whose keys lie in the given range. Every leaf lies at level 0.
      Only the lowest index nodes have missing children, except that the first pointer of a higher node may
      be zero if no key is routed there. */
  ghost predicate Shape(t: Tree, level: nat, lo: Option<int>, hi: Option<int>)
    decreases level, 1
  {
    match t
    case Nil => false
    case Leaf(_, recs) => level == 0 && LeafOk(recs, lo, hi)
    case Index(_, seps, kids) =>
      && level > 0 && SepsOk(seps, lo, hi) && |kids| == |seps| + 1
      && forall j :: 0 <= j < |kids| ==> KidFits(t, level, lo, hi, j)
  }

  ghost predicate KidFits(t: Tree, level: nat, lo: Option<int>, hi: Option<int>, j: nat)
    requires t.Index? && level > 0 && |t.kids| == |t.seps| + 1 && |t.seps| > 0 && j < |t.kids|
    decreases level, 0
  {
    if t.kids[j].Nil? then level == 1 || (j == 0 && lo == Some(t.seps[0].rank))
    else Shape(t.kids[j], level - 1, LoOf(t.seps, lo, j), HiOf(t.seps, hi, j)) && !EmptyLeaf(t.kids[j])
  }

  ghost predicate EmptyLeaf(t: Tree) {
    t.Leaf? && t.recs == []
  }

  // The blocks

  /** The block holds this node; its free space is what the records leave over. */
  ghost predicate NodeIs(store: map<nat, Node>, blk: nat, isLeaf: bool, isRoot: bool, first: nat, recs: seq<Rec>) {
    && blk in store
    && store[blk] == Node(isLeaf, isRoot, first, recs, Capacity(isLeaf, isRoot) - Sum(recs))
    && Sum(recs) <= Capacity(isLeaf, isRoot)
  }

  /** The index records of a node: each separator with the block of the child to its right. */
  ghost function IndexRecs(seps: seq<Key>, kids: seq<Tree>): (recs: seq<Rec>)
    requires |kids| == |seps| + 1
    ensures |recs| == |seps|
  {
    seq(|seps|, j requires 0 <= j < |seps| => IndexRec(seps[j], BlkOf(kids[j + 1])))
  }

  ghost predicate RootStored(store: map<nat, Node>, t: Tree, isRoot: bool) {
    match t
    case Nil => true
    case Leaf(blk, recs) => NodeIs(store, blk, true, isRoot, 0, recs)
    case Index(blk, seps, kids) =>
      |kids| == |seps| + 1 && NodeIs(store, blk, false, isRoot, BlkOf(kids[0]), IndexRecs(seps, kids))
  }

  /** The blocks hold the tree. */
  ghost predicate Stored(store: map<nat, Node>, t: Tree, isRoot: bool)
    decreases t
  {
    RootStored(store, t, isRoot) && (t.Index? ==> StoredAll(store, t.kids))
  }

  ghost predicate StoredAll(store: map<nat, Node>, ts: seq<Tree>)
    decreases ts
  {
    ts != [] ==> Stored(store, ts[0], false) && StoredAll(store, ts[1..])
  }

  lemma {:induction false} StoredConcat(store: map<nat, Node>, a: seq<Tree>, b: seq<Tree>)
    ensures StoredAll(store, a + b) <==> StoredAll(store, a) && StoredAll(store, b)
    decreases |a|
  {
    if a == [] {
      assert a + b == b;
    } else {
      assert (a + b)[1..] == a[1..] + b;
      StoredConcat(store, a[1..], b);
    }
  }

  ghost predicate SameOn(store: map<nat, Node>, store': map<nat, Node>, blks: multiset<nat>) {
    forall b <- blks :: b in store ==> b in store' && store'[b] == store[b]
  }

  /** A tree stays stored while its blocks stay the same. */
  lemma {:induction false} StoredFrame(store: map<nat, Node>, store': map<nat, Node>, t: Tree, isRoot: bool)
    requires Stored(store, t, isRoot) && SameOn(store, store', Blocks(t))
    ensures Stored(store', t, isRoot)
    decreases t
  {
    if !t.Nil? {
      assert t.blk in Blocks(t);
      if t.Index? {
        StoredAllFrame(store, store', t.kids);
      }
    }
  }

  lemma {:induction false} StoredAllFrame(store: map<nat, Node>, store': map<nat, Node>, ts: seq<Tree>)
    requires StoredAll(store, ts) && SameOn(store, store', BlocksAll(ts))
    ensures StoredAll(store', ts)
    decreases ts
  {
    if ts != [] {
      StoredFrame(store, store', ts[0], false);
      StoredAllFrame(store, store', ts[1..]);
    }
  }
}
