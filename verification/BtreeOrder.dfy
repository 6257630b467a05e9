/** Order in the B-tree: the records of a tree are one ascending list, and a key is routed to the one
    child whose part of that list it belongs in. */
module BtreeOrder {
  import opened Common
  import opened BtreeNode
  import opened BtreeShape

  ghost predicate AllBelow(s: seq<Rec>, k: int) {
    forall i :: 0 <= i < |s| ==> s[i].key.rank < k
  }

  ghost predicate AllAbove(s: seq<Rec>, k: int) {
    forall i :: 0 <= i < |s| ==> k < s[i].key.rank
  }

  lemma PosMiddle(a: seq<Rec>, m: seq<Rec>, b: seq<Rec>, k: int)
    requires AllBelow(a, k) && AllAbove(b, k)
    ensures Pos(a + m + b, k) == |a| + Pos(m, k)
    ensures Has(a + m + b, k) <==> Has(m, k)
  {
    var s, p := a + m + b, |a| + Pos(m, k);
    forall i | 0 <= i < p ensures s[i].key.rank < k {
      if i >= |a| {
        assert s[i] == m[i - |a|];
      }
    }
    PosUnique(s, k, p);
  }

  /** Insertion and deletion happen inside the part of the list that the key belongs to. */
  lemma InsMiddle(a: seq<Rec>, m: seq<Rec>, b: seq<Rec>, r: Rec)
    requires AllBelow(a, r.key.rank) && AllAbove(b, r.key.rank)
    ensures Ins(a + m + b, r) == a + Ins(m, r) + b
  {
    var p := Pos(m, r.key.rank);
    PosMiddle(a, m, b, r.key.rank);
    SliceMiddle(a, m, b, p);
    Regroup(a, m[..p], [r], m[p..], b);
  }

  lemma DelMiddle(a: seq<Rec>, m: seq<Rec>, b: seq<Rec>, k: int)
    requires AllBelow(a, k) && AllAbove(b, k)
    ensures Del(a + m + b, k) == a + Del(m, k) + b
  {
    hide Pos, AllBelow, AllAbove, Has, Del;
    PosMiddle(a, m, b, k);
    DelIs(m, k);
    DelIs(a + m + b, k);
    if Has(m, k) {
      CutMiddle(a, m, b, Pos(m, k));
    }
  }

  lemma Regroup<T>(a: seq<T>, x: seq<T>, y: seq<T>, z: seq<T>, b: seq<T>)
    ensures (a + x) + y + (z + b) == a + (x + y + z) + b
  {
  }

  lemma DelIs(s: seq<Rec>, k: int)
    ensures !Has(s, k) ==> Del(s, k) == s
    ensures Has(s, k) ==> Pos(s, k) < |s| && Del(s, k) == s[..Pos(s, k)] + s[Pos(s, k) + 1..]
  {
  }

  lemma CutMiddle<T>(a: seq<T>, m: seq<T>, b: seq<T>, p: nat)
    requires p < |m|
    ensures (a + m + b)[..|a| + p] + (a + m + b)[|a| + p + 1..] == a + (m[..p] + m[p + 1..]) + b
  {
    SliceMiddle(a, m, b, p);
    SliceMiddle(a, m, b, p + 1);
  }

  lemma SliceMiddle<T>(a: seq<T>, m: seq<T>, b: seq<T>, p: nat)
    requires p <= |m|
    ensures (a + m + b)[..|a| + p] == a + m[..p] && (a + m + b)[|a| + p..] == m[p..] + b
  {
  }

  lemma JoinOk(a: seq<Rec>, b: seq<Rec>, lo: Option<int>, mid: int, hi: Option<int>)
    requires LeafOk(a, lo, Some(mid)) && LeafOk(b, Some(mid), hi)
    requires Above(lo, mid) && (hi.Some? ==> mid <= hi.value)
    ensures LeafOk(a + b, lo, hi)
  {
    forall i, j | 0 <= i < j < |a + b| ensures (a + b)[i].key.rank < (a + b)[j].key.rank {
      if i < |a| <= j {
        assert a[i] in a && b[j - |a|] in b;
      }
    }
  }

  /** The ranges of the children of a well-formed index node lie inside its own. */
  lemma SepInRange(seps: seq<Key>, lo: Option<int>, hi: Option<int>, j: nat)
    requires SepsOk(seps, lo, hi) && j < |seps|
    ensures Above(lo, seps[j].rank) && Below(hi, seps[j].rank)
  {
  }

  /** The records of a well-formed tree are ascending and lie in its range. */
  lemma {:induction false} RecsOk(t: Tree, level: nat, lo: Option<int>, hi: Option<int>)
    requires Shape(t, level, lo, hi)
    ensures LeafOk(Recs(t), lo, hi)
    decreases level, 2
  {
    if t.Index? {
      PrefixOk(t, level, lo, hi, |t.kids|);
      assert t.kids[..|t.kids|] == t.kids;
    }
  }

  lemma {:induction false} KidOk(t: Tree, level: nat, lo: Option<int>, hi: Option<int>, j: nat)
    requires Shape(t, level, lo, hi) && t.Index? && j < |t.kids|
    ensures LeafOk(Recs(t.kids[j]), LoOf(t.seps, lo, j), HiOf(t.seps, hi, j))
    decreases level, 0
  {
    assert KidFits(t, level, lo, hi, j);
    if !t.kids[j].Nil? {
      RecsOk(t.kids[j], level - 1, LoOf(t.seps, lo, j), HiOf(t.seps, hi, j));
    }
  }

  lemma {:induction false} PrefixOk(t: Tree, level: nat, lo: Option<int>, hi: Option<int>, j: nat)
    requires Shape(t, level, lo, hi) && t.Index? && 0 < j <= |t.kids|
    ensures LeafOk(RecsAll(t.kids[..j]), lo, HiOf(t.seps, hi, j - 1))
    decreases level, 1, j
  {
    KidOk(t, level, lo, hi, j - 1);
    assert t.kids[..j] == t.kids[..j - 1] + [t.kids[j - 1]];
    RecsConcat(t.kids[..j - 1], [t.kids[j - 1]]);
    RecsSingle(t.kids[j - 1]);
    if j > 1 {
      PrefixOk(t, level, lo, hi, j - 1);
      SepInRange(t.seps, lo, hi, j - 2);
      if j <= |t.seps| {
        SepInRange(t.seps, lo, hi, j - 1);
      }
      JoinOk(RecsAll(t.kids[..j - 1]), Recs(t.kids[j - 1]), lo, t.seps[j - 2].rank, HiOf(t.seps, hi, j - 1));
    } else {
      assert RecsAll(t.kids[..0]) == [];
    }
  }

  lemma {:induction false} SuffixOk(t: Tree, level: nat, lo: Option<int>, hi: Option<int>, j: nat)
    requires Shape(t, level, lo, hi) && t.Index? && j < |t.kids|
    ensures LeafOk(RecsAll(t.kids[j..]), LoOf(t.seps, lo, j), hi)
    decreases |t.kids| - j
  {
    KidOk(t, level, lo, hi, j);
    assert t.kids[j..] == [t.kids[j]] + t.kids[j + 1..];
    RecsConcat([t.kids[j]], t.kids[j + 1..]);
    RecsSingle(t.kids[j]);
    if j < |t.seps| {
      SuffixOk(t, level, lo, hi, j + 1);
      SepInRange(t.seps, lo, hi, j);
      JoinOk(Recs(t.kids[j]), RecsAll(t.kids[j + 1..]), LoOf(t.seps, lo, j), t.seps[j].rank, hi);
    } else {
      assert RecsAll(t.kids[j + 1..]) == [];
    }
  }

  lemma RecsSingle(t: Tree)
    ensures RecsAll([t]) == Recs(t) && BlocksAll([t]) == Blocks(t)
  {
    assert [t][1..] == [];
  }

  lemma SplitAtKid(kids: seq<Tree>, i: nat)
    requires i < |kids|
    ensures RecsAll(kids) == RecsAll(kids[..i]) + Recs(kids[i]) + RecsAll(kids[i + 1..])
    ensures BlocksAll(kids) == BlocksAll(kids[..i]) + Blocks(kids[i]) + BlocksAll(kids[i + 1..])
  {
    hide RecsAll, BlocksAll, Recs, Blocks;
    var a, m, b := kids[..i], [kids[i]], kids[i + 1..];
    assert kids == a + m + b;
    RecsConcat(a + m, b);
    RecsConcat(a, m);
    BlocksConcat(a + m, b);
    BlocksConcat(a, m);
    RecsSingle(kids[i]);
  }

  /** A key in the range of an index node is routed to the child whose range it is in. The records of the
      children before lie below the key, those of the children after above it. A zero pointer is only
      followed from the lowest index level. */
  lemma Locate(t: Tree, level: nat, lo: Option<int>, hi: Option<int>, k: int)
    requires Shape(t, level, lo, hi) && t.Index? && Above(lo, k) && Below(hi, k)
    ensures var i := Route(t.seps, k);
      && Above(LoOf(t.seps, lo, i), k) && Below(HiOf(t.seps, hi, i), k)
      && AllBelow(RecsAll(t.kids[..i]), k) && AllAbove(RecsAll(t.kids[i + 1..]), k)
      && (t.kids[i].Nil? ==> level == 1)
  {
    var i := Route(t.seps, k);
    assert KidFits(t, level, lo, hi, i);
    BelowRoute(t, level, lo, hi, k);
    AboveRoute(t, level, lo, hi, k);
  }

  lemma BelowRoute(t: Tree, level: nat, lo: Option<int>, hi: Option<int>, k: int)
    requires Shape(t, level, lo, hi) && t.Index? && Route(t.seps, k) < |t.kids|
    ensures AllBelow(RecsAll(t.kids[..Route(t.seps, k)]), k)
  {
    var i := Route(t.seps, k);
    if i > 0 {
      PrefixOk(t, level, lo, hi, i);
      hide Shape, RecsAll;
      var a := RecsAll(t.kids[..i]);
      forall j | 0 <= j < |a| ensures a[j].key.rank < k {
        assert a[j] in a;
      }
    }
  }

  lemma AboveRoute(t: Tree, level: nat, lo: Option<int>, hi: Option<int>, k: int)
    requires Shape(t, level, lo, hi) && t.Index? && Route(t.seps, k) < |t.kids|
    ensures AllAbove(RecsAll(t.kids[Route(t.seps, k) + 1..]), k)
  {
    var i := Route(t.seps, k);
    if i < |t.seps| {
      SuffixOk(t, level, lo, hi, i + 1);
      hide Shape, RecsAll;
      var b := RecsAll(t.kids[i + 1..]);
      forall j | 0 <= j < |b| ensures k < b[j].key.rank {
        assert b[j] in b;
      }
    }
  }

  lemma FoundInMiddle(a: seq<Rec>, m: seq<Rec>, b: seq<Rec>, k: int)
    requires AllBelow(a, k) && AllAbove(b, k)
    ensures Has(a + m + b, k) <==> Has(m, k)
    ensures Has(a + m + b, k) ==> Pos(a + m + b, k) < |a + m + b| && Pos(m, k) < |m| && (a + m + b)[Pos(a + m + b, k)] == m[Pos(m, k)]
  {
    hide AllBelow, AllAbove, Pos;
    PosMiddle(a, m, b, k);
  }

  lemma KidInRange(t: Tree, level: nat, lo: Option<int>, hi: Option<int>, k: int)
    requires Shape(t, level, lo, hi) && t.Index?
    ensures Route(t.seps, k) < |t.kids|
  {
  }

  /** A search may ignore every child but the one the key is routed to. */
  lemma SearchInKid(t: Tree, level: nat, lo: Option<int>, hi: Option<int>, k: int)
    requires Shape(t, level, lo, hi) && t.Index? && Above(lo, k) && Below(hi, k)
    ensures var kid := t.kids[Route(t.seps, k)];
      && (Has(Recs(t), k) <==> Has(Recs(kid), k))
      && (Has(Recs(t), k) ==> Recs(t)[Pos(Recs(t), k)] == Recs(kid)[Pos(Recs(kid), k)])
  {
    hide Shape, RecsAll, AllBelow, AllAbove, Pos, Has;
    var i := Route(t.seps, k);
    Locate(t, level, lo, hi, k);
    KidInRange(t, level, lo, hi, k);
    SplitAtKid(t.kids, i);
    assert Recs(t) == RecsAll(t.kids);
    FoundInMiddle(RecsAll(t.kids[..i]), Recs(t.kids[i]), RecsAll(t.kids[i + 1..]), k);
  }
}
