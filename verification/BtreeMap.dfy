/** The ordered list of records as a finite map from keys to records. */
module BtreeMap {
  import opened BtreeNode

  function AsMap(s: seq<Rec>): map<int, Rec> {
    map k | k in RanksOf(s) && Has(s, k) :: s[Pos(s, k)]
  }

  function RanksOf(s: seq<Rec>): set<int> {
    set i | 0 <= i < |s| :: s[i].key.rank
  }

  lemma Lookup(s: seq<Rec>, k: int)
    requires Sorted(s)
    ensures k in AsMap(s) <==> Has(s, k)
    ensures Has(s, k) ==> AsMap(s)[k] == s[Pos(s, k)] && s[Pos(s, k)].key.rank == k
  {
    if Has(s, k) {
      assert s[Pos(s, k)].key.rank in RanksOf(s);
    }
  }

  /** Where the record of another key goes when one is put in. */
  lemma InsKeeps(s: seq<Rec>, r: Rec, k: int)
    requires Sorted(s) && !Has(s, r.key.rank)
    ensures Sorted(Ins(s, r))
    ensures Has(Ins(s, r), k) <==> k == r.key.rank || Has(s, k)
    ensures Has(Ins(s, r), k) ==> Ins(s, r)[Pos(Ins(s, r), k)] == if k == r.key.rank then r else s[Pos(s, k)]
  {
    InsSorted(s, r);
    var p, q := Pos(s, r.key.rank), Pos(s, k);
    if k <= r.key.rank {
      PosMonotone(s, k, r.key.rank);
      PosUnique(Ins(s, r), k, q);
    } else {
      PosMonotone(s, r.key.rank, k);
      PosUnique(Ins(s, r), k, q + 1);
    }
  }

  lemma DelSorted(s: seq<Rec>, d: int)
    requires Sorted(s)
    ensures Sorted(Del(s, d))
  {
  }

  lemma DelKeeps(s: seq<Rec>, d: int, k: int)
    requires Sorted(s) && Has(s, d)
    ensures Sorted(Del(s, d))
    ensures Has(Del(s, d), k) <==> k != d && Has(s, k)
    ensures Has(Del(s, d), k) ==> Del(s, d)[Pos(Del(s, d), k)] == s[Pos(s, k)]
  {
    hide Sorted;
    DelSorted(s, d);
    if k < d {
      DelBelow(s, d, k);
    } else if k == d {
      DelAt(s, d);
    } else {
      DelAbove(s, d, k);
    }
  }

  lemma DelBelow(s: seq<Rec>, d: int, k: int)
    requires Sorted(s) && Has(s, d) && k < d
    ensures var p, q := Pos(s, d), Pos(s, k);
      Pos(Del(s, d), k) == q <= p && (q == p ==> !Has(s, k)) && !(q == p < |Del(s, d)| && Del(s, d)[q].key.rank == k)
  {
    var q := Pos(s, k);
    PosMonotone(s, k, d);
    PosUnique(Del(s, d), k, q);
  }

  lemma DelAt(s: seq<Rec>, d: int)
    requires Sorted(s) && Has(s, d)
    ensures Pos(Del(s, d), d) == Pos(s, d) && !Has(Del(s, d), d)
  {
    PosUnique(Del(s, d), d, Pos(s, d));
  }

  lemma DelAbove(s: seq<Rec>, d: int, k: int)
    requires Sorted(s) && Has(s, d) && d < k
    ensures Pos(s, d) < Pos(s, k) && Pos(Del(s, d), k) == Pos(s, k) - 1
  {
    hide Sorted;
    var p, q := Pos(s, d), Pos(s, k);
    PosAfter(s, k, p);
    var r := s[..p] + s[p + 1..];
    forall i | 0 <= i < |r| ensures r[i] == s[if i < p then i else i + 1] {
    }
    forall i | 0 <= i < q - 1 ensures r[i].key.rank < k {
      assert r[i] == s[if i < p then i else i + 1];
    }
    PosUnique(r, k, q - 1);
  }

  /** Insertion adds exactly one entry to the map. */
  lemma InsertionRefines(s: seq<Rec>, r: Rec)
    requires Sorted(s) && !Has(s, r.key.rank)
    ensures AsMap(Ins(s, r)) == AsMap(s)[r.key.rank := r]
  {
    hide AsMap, Ins, Has, Pos, Sorted;
    InsKeeps(s, r, r.key.rank);
    var after: map<int, Rec> := AsMap(s)[r.key.rank := r];
    forall k ensures k in AsMap(Ins(s, r)) <==> k in after
      ensures k in after ==> AsMap(Ins(s, r))[k] == after[k]
    {
      InsKeeps(s, r, k);
      Lookup(Ins(s, r), k);
      Lookup(s, k);
    }
  }

  /** Removal takes exactly one entry from the map. */
  lemma RemovalRefines(s: seq<Rec>, d: int)
    requires Sorted(s) && Has(s, d)
    ensures AsMap(Del(s, d)) == AsMap(s) - {d}
  {
    hide AsMap, Del, Has, Pos, Sorted;
    DelKeeps(s, d, d);
    forall k ensures k in AsMap(Del(s, d)) <==> k in AsMap(s) - {d}
      ensures k in AsMap(s) - {d} ==> AsMap(Del(s, d))[k] == AsMap(s)[k]
    {
      DelKeeps(s, d, k);
      Lookup(Del(s, d), k);
      Lookup(s, k);
    }
  }

  lemma NothingRemoved(s: seq<Rec>, d: int)
    requires Sorted(s) && !Has(s, d)
    ensures AsMap(Del(s, d)) == AsMap(s) - {d}
  {
    hide AsMap, Has, Pos, Sorted;
    Lookup(s, d);
    assert Del(s, d) == s;
  }
}
