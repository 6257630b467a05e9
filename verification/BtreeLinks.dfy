/** How the blocks of an index node and its children hold a tree while one child is being changed. */
module BtreeLinks {
  import opened Common
  import opened BtreeNode
  import opened BtreeShape
  import opened BtreeOrder
  import opened BtreeSteps
  import opened BtreeStore

  ghost function SetOf(m: multiset<nat>): set<nat> {
    set b | b in m
  }

  /** No block is reached twice. */
  ghost predicate Unique(blks: multiset<nat>) {
    forall b :: blks[b] <= 1
  }

  /** The node of `t` is stored with `kid` as child `j`, and the other children are stored. */
  ghost predicate Around(store: map<nat, Node>, t: Tree, isRoot: bool, j: nat, kid: Tree) {
    && t.Index? && j < |t.kids| && |t.kids| == |t.seps| + 1
    && RootStored(store, WithKid(t, j, kid), isRoot)
    && StoredAll(store, t.kids[..j]) && StoredAll(store, t.kids[j + 1..])
  }

  lemma StoredSingle(store: map<nat, Node>, t: Tree)
    ensures StoredAll(store, [t]) <==> Stored(store, t, false)
  {
    assert [t][1..] == [];
  }

  lemma StoredAround(store: map<nat, Node>, t: Tree, isRoot: bool, j: nat)
    requires Stored(store, t, isRoot) && t.Index? && j < |t.kids|
    ensures Around(store, t, isRoot, j, t.kids[j]) && Stored(store, t.kids[j], false)
  {
    assert t.kids == t.kids[..j] + [t.kids[j]] + t.kids[j + 1..];
    StoredConcat(store, t.kids[..j] + [t.kids[j]], t.kids[j + 1..]);
    StoredConcat(store, t.kids[..j], [t.kids[j]]);
    StoredSingle(store, t.kids[j]);
    assert t.kids[j := t.kids[j]] == t.kids;
  }

  lemma AroundStored(store: map<nat, Node>, t: Tree, isRoot: bool, j: nat, kid: Tree)
    requires Around(store, t, isRoot, j, kid) && Stored(store, kid, false)
    ensures Stored(store, WithKid(t, j, kid), isRoot)
  {
    assert t.kids[j := kid] == t.kids[..j] + [kid] + t.kids[j + 1..];
    StoredConcat(store, t.kids[..j] + [kid], t.kids[j + 1..]);
    StoredConcat(store, t.kids[..j], [kid]);
    StoredSingle(store, kid);
  }

  /** A changed child in the same block needs no new pointer. */
  lemma AroundSameBlock(store: map<nat, Node>, t: Tree, isRoot: bool, j: nat, kid: Tree, kid': Tree)
    requires Around(store, t, isRoot, j, kid) && BlkOf(kid) == BlkOf(kid')
    ensures Around(store, t, isRoot, j, kid')
  {
    assert IndexRecs(t.seps, t.kids[j := kid]) == IndexRecs(t.seps, t.kids[j := kid']);
  }

  lemma TwoKidsStored(store: map<nat, Node>, t: Tree, isRoot: bool, j: nat, kid1: Tree, k: Key, kid2: Tree)
    requires t.Index? && j < |t.kids| && |t.kids| == |t.seps| + 1
    requires StoredAll(store, t.kids[..j]) && StoredAll(store, t.kids[j + 1..])
    requires Stored(store, kid1, false) && Stored(store, kid2, false)
    ensures StoredAll(store, WithTwoKids(t, j, kid1, k, kid2).kids)
  {
    StoredConcat(store, t.kids[..j] + [kid1, kid2], t.kids[j + 1..]);
    StoredConcat(store, t.kids[..j], [kid1, kid2]);
    assert [kid1, kid2] == [kid1] + [kid2];
    StoredConcat(store, [kid1], [kid2]);
    StoredSingle(store, kid1);
    StoredSingle(store, kid2);
  }

  lemma DividedStored(store: map<nat, Node>, t: Tree, j: nat, blk: nat)
    requires t.Index? && |t.kids| == |t.seps| + 1 && j <= |t.seps| && StoredAll(store, t.kids)
    ensures StoredAll(store, LeftOf(t, j).kids) && StoredAll(store, RightOf(t, j, blk).kids)
  {
    assert t.kids == t.kids[..j + 1] + t.kids[j + 1..];
    StoredConcat(store, t.kids[..j + 1], t.kids[j + 1..]);
    StoredConcat(store, [Nil], t.kids[j + 1..]);
    StoredSingle(store, Nil);
  }

  /** The blocks of one child are apart from the node and from the other children. */
  lemma KidApart(t: Tree, j: nat, b: nat)
    requires t.Index? && j < |t.kids| && Unique(Blocks(t)) && b in Blocks(t.kids[j])
    ensures b in Blocks(t) && b != t.blk && b !in BlocksAll(t.kids[..j]) && b !in BlocksAll(t.kids[j + 1..])
  {
    SplitAtKid(t.kids, j);
    assert Blocks(t)[b] <= 1;
  }

  lemma KidUnique(t: Tree, j: nat)
    requires t.Index? && j < |t.kids| && Unique(Blocks(t))
    ensures Unique(Blocks(t.kids[j])) && Blocks(t.kids[j]) <= Blocks(t)
    ensures t.blk in Blocks(t)
    ensures BlocksAll(t.kids[..j]) <= Blocks(t) && BlocksAll(t.kids[j + 1..]) <= Blocks(t)
  {
    hide BlocksAll, Unique;
    SplitAtKid(t.kids, j);
    assert Blocks(t) == multiset{t.blk} + BlocksAll(t.kids);
    PartUnique(Blocks(t.kids[j]), Blocks(t));
  }

  lemma PartUnique(part: multiset<nat>, whole: multiset<nat>)
    requires part <= whole && Unique(whole)
    ensures Unique(part)
  {
    forall b ensures part[b] <= 1 {
      assert whole[b] <= 1;
    }
  }

  lemma NodeApart(t: Tree, j: nat)
    requires t.Index? && j < |t.kids| && Unique(Blocks(t))
    ensures t.blk !in BlocksAll(t.kids[..j]) && t.blk !in BlocksAll(t.kids[j + 1..])
  {
    SplitAtKid(t.kids, j);
    assert Blocks(t)[t.blk] <= 1;
  }

  /** Changes to the blocks of one child, and to blocks outside the tree, leave the rest stored. */
  lemma AroundFrame(before: map<nat, Node>, after: map<nat, Node>, t: Tree, isRoot: bool, j: nat, kid: Tree,
                    touched: set<nat>)
    requires Around(before, t, isRoot, j, kid) && Unique(Blocks(t)) && SameOutside(before, after, touched)
    requires forall b <- touched :: b in Blocks(t) ==> b in Blocks(t.kids[j])
    ensures Around(after, t, isRoot, j, kid)
  {
    KidUnique(t, j);
    forall b | b in touched && b in Blocks(t)
      ensures b != t.blk && b !in BlocksAll(t.kids[..j]) && b !in BlocksAll(t.kids[j + 1..])
    {
      KidApart(t, j, b);
    }
    hide Unique, Blocks, BlocksAll, Stored, StoredAll, SameOutside;
    ApartSame(before, after, BlocksAll(t.kids[..j]), Blocks(t), touched);
    ApartSame(before, after, BlocksAll(t.kids[j + 1..]), Blocks(t), touched);
    StoredAllFrame(before, after, t.kids[..j]);
    StoredAllFrame(before, after, t.kids[j + 1..]);
    assert t.blk !in touched;
    NodeSame(before, after, t, isRoot, j, kid, touched);
  }

  lemma ApartSame(before: map<nat, Node>, after: map<nat, Node>, part: multiset<nat>, whole: multiset<nat>, touched: set<nat>)
    requires SameOutside(before, after, touched) && part <= whole && forall b <- touched :: b in whole ==> b !in part
    ensures SameOn(before, after, part)
  {
    forall b | b in part ensures b !in touched {
      assert part[b] <= whole[b];
    }
  }

  lemma NodeSame(before: map<nat, Node>, after: map<nat, Node>, t: Tree, isRoot: bool, j: nat, kid: Tree, touched: set<nat>)
    requires t.Index? && j < |t.kids| && RootStored(before, WithKid(t, j, kid), isRoot)
    requires SameOutside(before, after, touched) && t.blk !in touched
    ensures RootStored(after, WithKid(t, j, kid), isRoot)
  {
  }

  // The records of an index node

  lemma IndexRecsOk(seps: seq<Key>, kids: seq<Tree>, lo: Option<int>, hi: Option<int>)
    requires SepsOk(seps, lo, hi) && |kids| == |seps| + 1
    ensures Sorted(IndexRecs(seps, kids)) && IndexRecs(seps, kids) != []
    ensures forall r <- IndexRecs(seps, kids) :: RecSize(r) <= SIZE_LIMIT
  {
    forall r | r in IndexRecs(seps, kids) ensures RecSize(r) <= SIZE_LIMIT {
      var j :| 0 <= j < |seps| && r == IndexRec(seps[j], BlkOf(kids[j + 1]));
      assert seps[j] in seps;
    }
  }

  /** The separator of a split child is new to its parent, and lands right after the child. */
  lemma InsertSeparator(t: Tree, j: nat, kid: Tree, kid1: Tree, k: Key, kid2: Tree)
    requires t.Index? && j < |t.kids| && |t.kids| == |t.seps| + 1 && Ascending(t.seps)
    requires j > 0 ==> t.seps[j - 1].rank < k.rank
    requires j < |t.seps| ==> k.rank < t.seps[j].rank
    requires BlkOf(kid1) == BlkOf(kid)
    ensures var recs := IndexRecs(t.seps, t.kids[j := kid]); var u := WithTwoKids(t, j, kid1, k, kid2);
      && !Has(recs, k.rank)
      && Ins(recs, IndexRec(k, BlkOf(kid2))) == IndexRecs(u.seps, u.kids)
      && BlkOf(u.kids[0]) == BlkOf(t.kids[j := kid][0])
  {
    var recs := IndexRecs(t.seps, t.kids[j := kid]);
    var u := WithTwoKids(t, j, kid1, k, kid2);
    forall i | 0 <= i < j ensures recs[i].key.rank < k.rank {
      assert i < j - 1 ==> t.seps[i].rank < t.seps[j - 1].rank;
    }
    PosUnique(recs, k.rank, j);
    hide Pos, Ascending;
    SeparatorPlaced(t, j, kid, kid1, k, kid2);
  }

  /** The index records with one more separator and child. */
  lemma SeparatorPlaced(t: Tree, j: nat, kid: Tree, kid1: Tree, k: Key, kid2: Tree)
    requires t.Index? && j < |t.kids| && |t.kids| == |t.seps| + 1 && BlkOf(kid1) == BlkOf(kid)
    ensures var recs := IndexRecs(t.seps, t.kids[j := kid]); var u := WithTwoKids(t, j, kid1, k, kid2);
      InsertAt(recs, j, IndexRec(k, BlkOf(kid2))) == IndexRecs(u.seps, u.kids)
  {
    var recs := IndexRecs(t.seps, t.kids[j := kid]);
    var u := WithTwoKids(t, j, kid1, k, kid2);
    var left, right := IndexRecs(u.seps, u.kids), InsertAt(recs, j, IndexRec(k, BlkOf(kid2)));
    assert |left| == |right|;
    forall i | 0 <= i < |left| ensures left[i] == right[i] {
      if i < j {
        assert u.seps[i] == t.seps[i] && BlkOf(u.kids[i + 1]) == BlkOf(t.kids[j := kid][i + 1]);
      } else if i > j {
        assert u.seps[i] == t.seps[i - 1] && u.kids[i + 1] == t.kids[j := kid][i];
      }
    }
  }

  lemma PartsOf<T>(s: seq<T>, left: seq<T>, right: seq<T>)
    requires left + right == s
    ensures left == s[..|left|] && right == s[|left|..]
  {
  }

  /** Dividing the records of an index node divides the node. */
  lemma DividedRecs(t: Tree, left: seq<Rec>, right: seq<Rec>, blk: nat)
    requires t.Index? && |t.kids| == |t.seps| + 1 && left + right == IndexRecs(t.seps, t.kids)
    requires left != [] && right != []
    ensures var j := |left|;
      && 0 < j < |t.seps| && right[0].key == t.seps[j]
      && left == IndexRecs(LeftOf(t, j).seps, LeftOf(t, j).kids)
      && right == IndexRecs(RightOf(t, j, blk).seps, RightOf(t, j, blk).kids)
  {
    PartsOf(IndexRecs(t.seps, t.kids), left, right);
    assert left == IndexRecs(LeftOf(t, |left|).seps, LeftOf(t, |left|).kids);
    assert right == IndexRecs(RightOf(t, |left|, blk).seps, RightOf(t, |left|, blk).kids);
  }
}
