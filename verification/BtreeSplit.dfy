/** The search for the split point of a full node: btrees/btree.c, `btn_insert_split`. */
module BtreeSplit {
  import opened Common
  import opened BtreeNode

  /** Adds up the sizes of the records from index `i` on. */
  method SizeFrom(recs: seq<Rec>, i: nat) returns (size: nat)
    requires i <= |recs|
    ensures size == Sum(recs[i..])
  {
    size := 0;
    assert recs[..i] + recs[i..] == recs;
    SumSplit(recs, i);
    for j := i to |recs|
      invariant size == Sum(recs[..j]) - Sum(recs[..i])
    {
      SumStep(recs, j);
      size := size + RecSize(recs[j]);
    }
    assert recs[..|recs|] == recs;
  }

  /** One pass over the records finds where the new record belongs and where the node divides, and counts
      the bytes of the part that moves. */
  method FindSplit(recs: seq<Rec>, r: Rec)
    returns (dup: bool, sp: Option<nat>, ins: Option<nat>, tailsz: nat)
    ensures dup <==> Has(recs, r.key.rank)
    ensures !dup ==>
              var n, pos := RecSize(r), Pos(recs, r.key.rank);
              && sp == SplitPoint(recs, n, pos, 0)
              && ins == (if pos < |recs| then Some(pos) else None)
              && tailsz == TailSize(recs, n, pos, sp)
  {
    var nrecsz := RecSize(r);
    ghost var pos := Pos(recs, r.key.rank);
    var headsz, itailsz := 0, nrecsz;
    dup, sp, ins, tailsz := false, None, None, 0;
    for i := 0 to |recs|
      invariant ins == (if pos < i then Some(pos) else None)
      invariant ins.None? ==> itailsz == nrecsz
      invariant pos < i ==> !Has(recs, r.key.rank)
      invariant sp.None? ==> headsz == Sum(recs[..i]) + (if pos < i then nrecsz else 0) && tailsz == 0
      invariant SplitPoint(recs, nrecsz, pos, 0) == if sp.Some? then sp else SplitPoint(recs, nrecsz, pos, i)
      invariant sp.Some? ==> sp.value < i && tailsz == TailSize(recs, nrecsz, pos, sp)
    {
      SumStep(recs, i);
      if sp.None? && headsz >= MAX_INLINE / 2 {
        sp := Some(i);
        tailsz := SizeFrom(recs, i);
        if ins.None? {
          tailsz := tailsz + nrecsz;
        }
      }
      if ins.None? {
        var comp := r.key.rank - recs[i].key.rank;
        if comp == 0 {
          PosReached(recs, r.key.rank, i);
          return true, sp, ins, tailsz;
        }
        if comp < 0 {
          PosReached(recs, r.key.rank, i);
          ins := Some(i);
          var rest := SizeFrom(recs, i);
          itailsz := itailsz + rest;
          headsz := headsz + nrecsz;
          if sp.None? && headsz >= MAX_INLINE / 2 {
            sp := Some(i);
            tailsz := itailsz;
          }
        }
      }
      if sp.None? {
        headsz := headsz + RecSize(recs[i]);
      }
    }
  }

  lemma PosReached(recs: seq<Rec>, k: int, i: nat)
    requires i < |recs| && i <= Pos(recs, k) && k <= recs[i].key.rank
    ensures Pos(recs, k) == i
  {
    PosUnique(recs, k, i);
  }
}
