/** What insertion does to the tree, one node at a time: a child replaced, a child split, a node divided. */
module BtreeSteps {
  import opened Common
  import opened BtreeNode
  import opened BtreeShape
  import opened BtreeOrder

  /** `u` is a well-formed tree in the place of `t`, and not an empty leaf. */
  ghost predicate InPlace(t: Tree, u: Tree, level: nat, lo: Option<int>, hi: Option<int>) {
    Shape(u, level, lo, hi) && !EmptyLeaf(u)
  }

  /** `u1` and `u2` are well-formed trees that meet at separator `k`. */
  ghost predicate TwoInPlace(u1: Tree, k: Key, u2: Tree, level: nat, lo: Option<int>, hi: Option<int>) {
    && Shape(u1, level, lo, Some(k.rank)) && !EmptyLeaf(u1)
    && Shape(u2, level, Some(k.rank), hi) && !EmptyLeaf(u2)
    && IndexSize(k) <= SIZE_LIMIT
    && (lo.Some? ==> lo.value < k.rank) && Below(hi, k.rank)
  }

  function WithKid(t: Tree, i: nat, kid: Tree): Tree
    requires t.Index? && i < |t.kids|
  {
    Index(t.blk, t.seps, t.kids[i := kid])
  }

  function WithTwoKids(t: Tree, i: nat, kid1: Tree, k: Key, kid2: Tree): Tree
    requires t.Index? && i < |t.kids| && |t.kids| == |t.seps| + 1
  {
    Index(t.blk, t.seps[..i] + [k] + t.seps[i..], t.kids[..i] + [kid1, kid2] + t.kids[i + 1..])
  }

  /** Replacing the child a key is routed to. */
  lemma KidReplaced(t: Tree, level: nat, lo: Option<int>, hi: Option<int>, i: nat, kid: Tree)
    requires Shape(t, level, lo, hi) && t.Index? && i < |t.kids|
    requires if kid.Nil? then level == 1
             else Shape(kid, level - 1, LoOf(t.seps, lo, i), HiOf(t.seps, hi, i)) && !EmptyLeaf(kid)
    ensures Shape(WithKid(t, i, kid), level, lo, hi)
  {
    var u := WithKid(t, i, kid);
    forall j | 0 <= j < |u.kids| ensures KidFits(u, level, lo, hi, j) {
      assert KidFits(t, level, lo, hi, j);
    }
  }

  lemma KidReplacedContents(t: Tree, i: nat, kid: Tree)
    requires t.Index? && i < |t.kids|
    ensures RecsAll(t.kids[i := kid]) == RecsAll(t.kids[..i]) + Recs(kid) + RecsAll(t.kids[i + 1..])
    ensures BlocksAll(t.kids[i := kid]) == BlocksAll(t.kids[..i]) + Blocks(kid) + BlocksAll(t.kids[i + 1..])
  {
    var kids := t.kids[i := kid];
    SplitAtKid(kids, i);
    assert kids[..i] == t.kids[..i] && kids[i + 1..] == t.kids[i + 1..];
  }

  /** Putting two children and a separator in the place of one child. */
  lemma KidSplit(t: Tree, level: nat, lo: Option<int>, hi: Option<int>, i: nat, kid1: Tree, k: Key, kid2: Tree)
    requires Shape(t, level, lo, hi) && t.Index? && i < |t.kids|
    requires TwoInPlace(kid1, k, kid2, level - 1, LoOf(t.seps, lo, i), HiOf(t.seps, hi, i))
    requires i == 0 ==> Above(lo, k.rank)
    ensures Shape(WithTwoKids(t, i, kid1, k, kid2), level, lo, hi)
  {
    var u := WithTwoKids(t, i, kid1, k, kid2);
    SepsWithOneMore(t.seps, lo, hi, i, k);
    forall j | 0 <= j < |u.kids| ensures KidFits(u, level, lo, hi, j) {
      RangesWithOneMore(t.seps, lo, hi, i, k, j);
      if j < i {
        assert KidFits(t, level, lo, hi, j) && u.kids[j] == t.kids[j] && (j == 0 ==> u.seps[0] == t.seps[0]);
      } else if j > i + 1 {
        assert KidFits(t, level, lo, hi, j - 1) && u.kids[j] == t.kids[j - 1];
      } else {
        assert u.kids[j] == if j == i then kid1 else kid2;
      }
    }
  }

  /** How the ranges of the children move when child `i` gives way to two. */
  lemma RangesWithOneMore(seps: seq<Key>, lo: Option<int>, hi: Option<int>, i: nat, k: Key, j: nat)
    requires i <= |seps| && j <= |seps| + 1
    ensures var s := seps[..i] + [k] + seps[i..];
      && LoOf(s, lo, j) == (if j <= i then LoOf(seps, lo, j) else if j == i + 1 then Some(k.rank) else LoOf(seps, lo, j - 1))
      && HiOf(s, hi, j) == (if j < i then HiOf(seps, hi, j) else if j == i then Some(k.rank) else HiOf(seps, hi, j - 1))
  {
  }

  lemma SepsWithOneMore(seps: seq<Key>, lo: Option<int>, hi: Option<int>, i: nat, k: Key)
    requires SepsOk(seps, lo, hi) && i <= |seps| && IndexSize(k) <= SIZE_LIMIT
    requires Above(lo, k.rank) && Below(hi, k.rank)
    requires i > 0 ==> seps[i - 1].rank < k.rank
    requires i < |seps| ==> k.rank < seps[i].rank
    ensures SepsOk(seps[..i] + [k] + seps[i..], lo, hi)
  {
    var s := seps[..i] + [k] + seps[i..];
    forall a, b | 0 <= a < b < |s| ensures s[a].rank < s[b].rank {
      assert a < i ==> seps[a].rank <= seps[i - 1].rank;
      assert b > i ==> seps[i].rank <= seps[b - 1].rank;
    }
  }

  lemma KidSplitContents(t: Tree, i: nat, kid1: Tree, k: Key, kid2: Tree)
    requires t.Index? && i < |t.kids| && |t.kids| == |t.seps| + 1
    ensures var u := WithTwoKids(t, i, kid1, k, kid2);
      && RecsAll(u.kids) == RecsAll(t.kids[..i]) + (Recs(kid1) + Recs(kid2)) + RecsAll(t.kids[i + 1..])
      && BlocksAll(u.kids) == BlocksAll(t.kids[..i]) + (Blocks(kid1) + Blocks(kid2)) + BlocksAll(t.kids[i + 1..])
  {
    var a, m, b := t.kids[..i], [kid1, kid2], t.kids[i + 1..];
    RecsConcat(a + m, b);
    RecsConcat(a, m);
    BlocksConcat(a + m, b);
    BlocksConcat(a, m);
    assert m[1..] == [kid2];
    RecsSingle(kid2);
  }

  function LeftOf(t: Tree, j: nat): Tree
    requires t.Index? && |t.kids| == |t.seps| + 1 && j <= |t.seps|
  {
    Index(t.blk, t.seps[..j], t.kids[..j + 1])
  }

  /** The new node on the right keeps its first separator as a record; its first pointer is zero. */
  function RightOf(t: Tree, j: nat, blk: nat): Tree
    requires t.Index? && |t.kids| == |t.seps| + 1 && j <= |t.seps|
  {
    Index(blk, t.seps[j..], [Nil] + t.kids[j + 1..])
  }

  /** Dividing an index node before separator `j`. No key is ever routed to the zero first pointer of the
      right part: it lies below the range of that part. */
  lemma IndexDivided(t: Tree, level: nat, lo: Option<int>, hi: Option<int>, j: nat, blk: nat)
    requires Shape(t, level, lo, hi) && t.Index? && 0 < j < |t.seps|
    ensures TwoInPlace(LeftOf(t, j), t.seps[j], RightOf(t, j, blk), level, lo, hi)
  {
    var l, r, k := LeftOf(t, j), RightOf(t, j, blk), t.seps[j];
    SepInRange(t.seps, lo, hi, j);
    assert t.seps[0].rank < t.seps[j].rank;
    forall i | 0 <= i < |l.kids| ensures KidFits(l, level, lo, Some(k.rank), i) {
      assert KidFits(t, level, lo, hi, i);
    }
    forall i | 0 <= i < |r.kids| ensures KidFits(r, level, Some(k.rank), hi, i) {
      if i > 0 {
        assert KidFits(t, level, lo, hi, j + i);
      }
    }
    assert SepsOk(l.seps, lo, Some(k.rank));
    assert SepsOk(r.seps, Some(k.rank), hi);
  }

  lemma IndexDividedContents(t: Tree, j: nat, blk: nat)
    requires t.Index? && |t.kids| == |t.seps| + 1 && j <= |t.seps|
    ensures Recs(LeftOf(t, j)) + Recs(RightOf(t, j, blk)) == Recs(t)
    ensures Blocks(LeftOf(t, j)) + Blocks(RightOf(t, j, blk)) == Blocks(t) + multiset{blk}
  {
    hide RecsAll, BlocksAll;
    var a, b := t.kids[..j + 1], t.kids[j + 1..];
    assert t.kids == a + b;
    RecsConcat(a, b);
    BlocksConcat(a, b);
    RecsConcat([Nil], b);
    BlocksConcat([Nil], b);
    RecsSingle(Nil);
  }

  /** Some of a leaf's records, in a narrower range if they are in that. */
  lemma PartLeafOk(s: seq<Rec>, i: nat, j: nat, lo: Option<int>, hi: Option<int>)
    requires LeafOk(s, lo, hi) && i <= j <= |s|
    ensures LeafOk(s[i..j], if i < |s| && i > 0 then Some(s[i].key.rank) else lo, if j < |s| then Some(s[j].key.rank) else hi)
  {
    var part := s[i..j];
    forall r | r in part ensures r in s && (i < |s| ==> s[i].key.rank <= r.key.rank) && (j < |s| ==> r.key.rank < s[j].key.rank) {
      var k :| 0 <= k < |part| && part[k] == r;
      assert r == s[i + k];
    }
  }

  /** A leaf divided in two. */
  lemma LeafDivided(left: seq<Rec>, right: seq<Rec>, lo: Option<int>, hi: Option<int>, blk: nat, nblk: nat)
    requires LeafOk(left + right, lo, hi) && left != [] && right != []
    ensures TwoInPlace(Leaf(blk, left), right[0].key, Leaf(nblk, right), 0, lo, hi)
  {
    var s := left + right;
    assert s[0] == left[0] && s[|left|] == right[0] && left[0] in s && right[0] in s;
    PartLeafOk(s, 0, |left|, lo, hi);
    PartLeafOk(s, |left|, |s|, lo, hi);
    assert s[0..|left|] == left && s[|left|..|s|] == right;
    assert Sorted(s);
    hide Sorted;
  }
}
