/** The order in which the level-order walk of btrees/btree.c comes upon the nodes of a tree. */
module BtreeLevels {
  import opened Common
  import opened BtreeNode
  import opened BtreeShape
  import opened BtreeOrder

  /** Every leaf of the tree lies `level` levels below its root. */
  ghost predicate LeavesAt(t: Tree, level: nat)
    decreases t
  {
    match t
    case Nil => true
    case Leaf(_, _) => level == 0
    case Index(_, seps, kids) =>
      level > 0 && |kids| == |seps| + 1 && forall j :: 0 <= j < |kids| ==> LeavesAt(kids[j], level - 1)
  }

  /** All leaves of a well-formed tree lie at one depth. */
  lemma {:induction false} UniformDepth(t: Tree, level: nat, lo: Option<int>, hi: Option<int>)
    requires Shape(t, level, lo, hi)
    ensures LeavesAt(t, level)
    decreases level
  {
    if t.Index? {
      forall j | 0 <= j < |t.kids| ensures LeavesAt(t.kids[j], level - 1) {
        assert KidFits(t, level, lo, hi, j);
        if !t.kids[j].Nil? {
          UniformDepth(t.kids[j], level - 1, LoOf(t.seps, lo, j), HiOf(t.seps, hi, j));
        }
      }
    }
  }

  /** The children that are there. */
  ghost function Present(ts: seq<Tree>): (r: seq<Tree>)
    ensures forall i :: 0 <= i < |r| ==> !r[i].Nil? && r[i] in ts
  {
    if ts == [] then [] else (if ts[0].Nil? then [] else [ts[0]]) + Present(ts[1..])
  }

  lemma PresentFirst(ts: seq<Tree>)
    ensures Present(ts) == if ts == [] then [] else (if ts[0].Nil? then [] else [ts[0]]) + Present(ts[1..])
  {
  }

  lemma {:induction false} PresentStep(ts: seq<Tree>, i: nat)
    requires i < |ts|
    ensures Present(ts[..i + 1]) == Present(ts[..i]) + if ts[i].Nil? then [] else [ts[i]]
    decreases i
  {
    hide Present;
    var s := ts[..i + 1];
    PresentFirst(s);
    PresentFirst(ts[..i]);
    PresentFirst(s[1..]);
    if i > 0 {
      PresentStep(ts[1..], i - 1);
      assert s[1..] == ts[1..][..i] && ts[..i][1..] == ts[1..][..i - 1];
    }
  }

  lemma {:induction false} PresentContents(ts: seq<Tree>)
    ensures RecsAll(Present(ts)) == RecsAll(ts) && BlocksAll(Present(ts)) == BlocksAll(ts)
  {
    if ts != [] {
      PresentContents(ts[1..]);
      PresentOne(ts[0]);
      RecsConcat(Present([ts[0]]), Present(ts[1..]));
      BlocksConcat(Present([ts[0]]), Present(ts[1..]));
    }
  }

  lemma PresentOne(t: Tree)
    ensures Present([t]) == if t.Nil? then [] else [t]
    ensures RecsAll(Present([t])) == Recs(t) && BlocksAll(Present([t])) == Blocks(t)
  {
    RecsSingle(t);
  }

  lemma OneMore(visited: seq<nat>, b: nat, kids: multiset<nat>, rest: multiset<nat>, lower: multiset<nat>)
    ensures multiset(visited) + ((multiset{b} + kids) + rest) + lower == multiset(visited + [b]) + rest + (lower + kids)
  {
  }

  /** The subtrees still to be walked: the rest of one level, then the children queued so far. */
  datatype Walk = Walk(upper: seq<Tree>, lower: seq<Tree>, level: nat)

  ghost predicate LevelOf(ts: seq<Tree>, level: nat) {
    forall i :: 0 <= i < |ts| ==> !ts[i].Nil? && LeavesAt(ts[i], level)
  }

  /** Until the leaves are reached nothing has been emitted, and the queued children come before the rest
      of their parents' level. */
  ghost predicate Ordered(t: Tree, w: Walk, emitted: seq<Rec>) {
    && LevelOf(w.upper, w.level)
    && if w.level == 0 then w.lower == [] && emitted + RecsAll(w.upper) == Recs(t)
       else LevelOf(w.lower, w.level - 1) && emitted == [] && RecsAll(w.lower) + RecsAll(w.upper) == Recs(t)
  }

  /** Visited and queued blocks make up the tree. */
  ghost predicate Covered(t: Tree, w: Walk, visited: seq<nat>) {
    multiset(visited) + BlocksAll(w.upper) + BlocksAll(w.lower) == Blocks(t)
  }

  ghost function Queued(w: Walk): seq<Tree> {
    w.upper + w.lower
  }

  /** One level is finished: the queued children are the next one. */
  ghost function Settled(w: Walk): Walk {
    if w.upper == [] && w.level > 0 then Walk(w.lower, [], w.level - 1) else w
  }

  lemma SettledOrder(t: Tree, w: Walk, emitted: seq<Rec>)
    requires Ordered(t, w, emitted)
    ensures Ordered(t, Settled(w), emitted)
  {
    if w.upper == [] {
      assert RecsAll(w.lower) + [] == RecsAll(w.lower);
    }
  }

  lemma SettledCover(t: Tree, w: Walk, visited: seq<nat>)
    requires Covered(t, w, visited)
    ensures Covered(t, Settled(w), visited)
  {
    if w.upper == [] {
      assert multiset(visited) + multiset{} + BlocksAll(w.lower) == multiset(visited) + BlocksAll(w.lower) + multiset{};
    }
  }

  lemma LevelDone(t: Tree, w: Walk, visited: seq<nat>, emitted: seq<Rec>)
    requires Ordered(t, w, emitted) && Covered(t, w, visited)
    ensures Ordered(t, Settled(w), emitted) && Covered(t, Settled(w), visited)
    ensures Queued(Settled(w)) == Queued(w)
    ensures Queued(w) != [] ==> Settled(w).upper != []
  {
    hide RecsAll, BlocksAll, LevelOf;
    SettledOrder(t, w, emitted);
    SettledCover(t, w, visited);
  }

  ghost function AfterLeaf(w: Walk): Walk
    requires w.upper != []
  {
    Walk(w.upper[1..], w.lower, w.level)
  }

  ghost function AfterIndex(w: Walk): Walk
    requires w.upper != [] && w.upper[0].Index?
  {
    Walk(w.upper[1..], w.lower + Present(w.upper[0].kids), w.level)
  }

  lemma LeafVisited(t: Tree, w: Walk, emitted: seq<Rec>)
    requires Ordered(t, w, emitted) && w.upper != [] && w.upper[0].Leaf?
    ensures Ordered(t, AfterLeaf(w), emitted + w.upper[0].recs)
  {
    assert LeavesAt(w.upper[0], w.level);
    assert emitted + w.upper[0].recs + RecsAll(w.upper[1..]) == emitted + RecsAll(w.upper);
  }

  lemma LeafCovered(t: Tree, w: Walk, visited: seq<nat>)
    requires Covered(t, w, visited) && w.upper != [] && w.upper[0].Leaf?
    ensures Covered(t, AfterLeaf(w), visited + [w.upper[0].blk])
  {
    OneMore(visited, w.upper[0].blk, multiset{}, BlocksAll(w.upper[1..]), BlocksAll(w.lower));
    assert BlocksAll(w.upper) == multiset{w.upper[0].blk} + multiset{} + BlocksAll(w.upper[1..]);
    assert BlocksAll(w.lower) + multiset{} == BlocksAll(w.lower);
  }

  lemma IndexCovered(t: Tree, w: Walk, visited: seq<nat>)
    requires Covered(t, w, visited) && w.upper != [] && w.upper[0].Index?
    ensures Covered(t, AfterIndex(w), visited + [w.upper[0].blk])
  {
    OneMore(visited, w.upper[0].blk, BlocksAll(w.upper[0].kids), BlocksAll(w.upper[1..]), BlocksAll(w.lower));
    assert BlocksAll(w.upper) == multiset{w.upper[0].blk} + BlocksAll(w.upper[0].kids) + BlocksAll(w.upper[1..]);
    PresentContents(w.upper[0].kids);
    BlocksConcat(w.lower, Present(w.upper[0].kids));
  }

  lemma IndexVisited(t: Tree, w: Walk, emitted: seq<Rec>)
    requires Ordered(t, w, emitted) && w.upper != [] && w.upper[0].Index?
    ensures Ordered(t, AfterIndex(w), emitted)
  {
    var kids := w.upper[0].kids;
    LevelBelow(w);
    IndexRecsVisited(w);
    hide LevelOf, RecsAll, LeavesAt, Present;
  }

  lemma LevelBelow(w: Walk)
    requires LevelOf(w.upper, w.level) && w.upper != [] && w.upper[0].Index?
    ensures w.level > 0 && LevelOf(w.upper[1..], w.level)
    ensures LevelOf(w.lower, w.level - 1) ==> LevelOf(w.lower + Present(w.upper[0].kids), w.level - 1)
  {
    assert LeavesAt(w.upper[0], w.level);
  }

  lemma IndexRecsVisited(w: Walk)
    requires w.upper != [] && w.upper[0].Index?
    ensures RecsAll(w.lower + Present(w.upper[0].kids)) + RecsAll(w.upper[1..]) == RecsAll(w.lower) + RecsAll(w.upper)
  {
    var kids := w.upper[0].kids;
    assert RecsAll(w.upper) == RecsAll(kids) + RecsAll(w.upper[1..]);
    hide RecsAll, Present;
    PresentContents(kids);
    RecsConcat(w.lower, Present(kids));
  }

  // The order of the walk

  ghost predicate AllLive(ts: seq<Tree>) {
    forall i :: 0 <= i < |ts| ==> !ts[i].Nil?
  }

  function KidsOf(t: Tree): seq<Tree> {
    if t.Index? then t.kids else []
  }

  /** The queue after its first subtree has been taken and its children added. */
  ghost function After(ts: seq<Tree>): seq<Tree>
    requires ts != []
  {
    ts[1..] + Present(KidsOf(ts[0]))
  }

  lemma NextSmaller(ts: seq<Tree>)
    requires AllLive(ts) && ts != []
    ensures AllLive(After(ts)) && BlocksAll(ts) == multiset{ts[0].blk} + BlocksAll(After(ts))
    ensures |BlocksAll(ts)| == 1 + |BlocksAll(After(ts))|
  {
    var kids := KidsOf(ts[0]);
    PresentContents(kids);
    BlocksConcat(ts[1..], Present(kids));
    assert Blocks(ts[0]) == multiset{ts[0].blk} + BlocksAll(kids);
    hide Present;
    assert BlocksAll(ts) == multiset{ts[0].blk} + BlocksAll(kids) + BlocksAll(ts[1..]);
  }

  /** The subtrees in the order in which a walk that starts with the queue `ts` takes them from it. */
  ghost function LevelOrder(ts: seq<Tree>): seq<Tree>
    requires AllLive(ts)
    decreases |BlocksAll(ts)|
  {
    if ts == [] then []
    else
      NextSmaller(ts);
      [ts[0]] + LevelOrder(After(ts))
  }

  function BlksOf(ts: seq<Tree>): (r: seq<nat>)
    ensures |r| == |ts|
  {
    seq(|ts|, i requires 0 <= i < |ts| => BlkOf(ts[i]))
  }

  /** The records of the leaves among these subtrees. */
  function LeafRecs(ts: seq<Tree>): seq<Rec> {
    if ts == [] then [] else (if ts[0].Leaf? then ts[0].recs else []) + LeafRecs(ts[1..])
  }

  lemma Regrouped<T>(a: seq<T>, b: seq<T>, c: seq<T>)
    ensures a + (b + c) == a + b + c
  {
  }

  lemma FirstOf(t: Tree, rest: seq<Tree>)
    requires !t.Nil?
    ensures BlksOf([t] + rest) == [t.blk] + BlksOf(rest)
    ensures LeafRecs([t] + rest) == (if t.Leaf? then t.recs else []) + LeafRecs(rest)
  {
    assert ([t] + rest)[1..] == rest;
  }

  lemma QueueEnds(t: Tree, w: Walk, visited: seq<nat>, emitted: seq<Rec>)
    requires Ordered(t, w, emitted) && Covered(t, w, visited) && Queued(w) == []
    ensures multiset(visited) == Blocks(t) && emitted == Recs(t)
  {
    assert w.upper == [] && w.lower == [];
    assert emitted + [] == emitted;
    assert multiset(visited) + multiset{} + multiset{} == multiset(visited);
  }

  lemma QueueLive(t: Tree, w: Walk, emitted: seq<Rec>)
    requires Ordered(t, w, emitted)
    ensures AllLive(Queued(w))
  {
  }

  /** One subtree taken from the queue. */
  lemma WalkStep(t: Tree, w: Walk, visited: seq<nat>, emitted: seq<Rec>) returns (w': Walk)
    requires Ordered(t, w, emitted) && Covered(t, w, visited) && Queued(w) != []
    ensures var head := Queued(w)[0];
      && !head.Nil? && Queued(w') == After(Queued(w)) && Covered(t, w', visited + [head.blk])
      && Ordered(t, w', emitted + if head.Leaf? then head.recs else [])
  {
    hide Ordered, Covered, RecsAll, BlocksAll;
    LevelDone(t, w, visited, emitted);
    var w1 := Settled(w);
    QueueLive(t, w1, emitted);
    assert Queued(w)[0] == w1.upper[0];
    if w1.upper[0].Leaf? {
      w' := AfterLeaf(w1);
      LeafVisited(t, w1, emitted);
      LeafCovered(t, w1, visited);
    } else {
      w' := AfterIndex(w1);
      IndexVisited(t, w1, emitted);
      IndexCovered(t, w1, visited);
      assert emitted + [] == emitted;
    }
  }

  /** From any point of the walk on, what is still to come completes what has been visited. */
  lemma {:induction false} OrderCompletes(t: Tree, w: Walk, visited: seq<nat>, emitted: seq<Rec>)
    requires Ordered(t, w, emitted) && Covered(t, w, visited)
    ensures AllLive(Queued(w))
    ensures multiset(visited + BlksOf(LevelOrder(Queued(w)))) == Blocks(t)
    ensures emitted + LeafRecs(LevelOrder(Queued(w))) == Recs(t)
    decreases |BlocksAll(Queued(w))|
  {
    hide Ordered, Covered, BlocksAll, Recs, Blocks, After, AllLive;
    QueueLive(t, w, emitted);
    var q := Queued(w);
    if q == [] {
      QueueEnds(t, w, visited, emitted);
      assert visited + [] == visited && emitted + [] == emitted;
    } else {
      var recs := if q[0].Leaf? then q[0].recs else [];
      var w' := WalkStep(t, w, visited, emitted);
      NextSmaller(q);
      OrderCompletes(t, w', visited + [q[0].blk], emitted + recs);
      var rest := LevelOrder(After(q));
      assert LevelOrder(q) == [q[0]] + rest;
      FirstOf(q[0], rest);
      Regrouped(visited, [q[0].blk], BlksOf(rest));
      Regrouped(emitted, recs, LeafRecs(rest));
    }
  }

  lemma StartOrdered(t: Tree, level: nat)
    requires !t.Nil? && LeavesAt(t, level)
    ensures Ordered(t, Walk([t], [], level), []) && Covered(t, Walk([t], [], level), [])
  {
    RecsSingle(t);
    assert [] + Recs(t) == Recs(t);
  }

  /** If all leaves are at one depth, the walk comes upon every block once and upon the records in order. */
  lemma OrderOfTree(t: Tree, level: nat)
    requires !t.Nil? && LeavesAt(t, level)
    ensures multiset(BlksOf(LevelOrder([t]))) == Blocks(t) && LeafRecs(LevelOrder([t])) == Recs(t)
  {
    StartOrdered(t, level);
    OrderCompletes(t, Walk([t], [], level), [], []);
    assert Queued(Walk([t], [], level)) == [t];
    assert [] + BlksOf(LevelOrder([t])) == BlksOf(LevelOrder([t]));
    assert [] + LeafRecs(LevelOrder([t])) == LeafRecs(LevelOrder([t]));
  }

  // Level by level

  /** The subtree hangs `d` levels below the root. */
  ghost predicate IsAt(root: Tree, t: Tree, d: nat)
    decreases d
  {
    if d == 0 then t == root else exists p: Tree :: IsAt(root, p, d - 1) && p.Index? && t in p.kids
  }

  function Repeated(d: nat, n: nat): (ds: seq<nat>)
    ensures |ds| == n && forall i :: 0 <= i < n ==> ds[i] == d
  {
    seq(n, _ => d)
  }

  /** The levels of the queue once its first subtree has been taken and its children added. */
  ghost function NextDepths(ts: seq<Tree>, ds: seq<nat>): (next: seq<nat>)
    requires ts != [] && |ds| == |ts|
    ensures |next| == |After(ts)|
  {
    ds[1..] + Repeated(ds[0] + 1, |Present(KidsOf(ts[0]))|)
  }

  ghost function Depths(ts: seq<Tree>, ds: seq<nat>): (all: seq<nat>)
    requires AllLive(ts) && |ds| == |ts|
    ensures |all| == |LevelOrder(ts)|
    decreases |BlocksAll(ts)|
  {
    if ts == [] then []
    else
      NextSmaller(ts);
      [ds[0]] + Depths(After(ts), NextDepths(ts, ds))
  }

  ghost predicate NeverBack(ds: seq<nat>) {
    forall i, j :: 0 <= i < j < |ds| ==> ds[i] <= ds[j]
  }

  /** The queue reaches over two levels at most. */
  ghost predicate QueueAt(root: Tree, ts: seq<Tree>, ds: seq<nat>) {
    && |ds| == |ts| && (forall i :: 0 <= i < |ts| ==> IsAt(root, ts[i], ds[i]))
    && NeverBack(ds) && forall i :: 0 <= i < |ds| ==> ds[i] <= ds[0] + 1
  }

  lemma NextAt(root: Tree, ts: seq<Tree>, ds: seq<nat>)
    requires QueueAt(root, ts, ds) && ts != []
    ensures QueueAt(root, After(ts), NextDepths(ts, ds))
    ensures forall i :: 0 <= i < |After(ts)| ==> ds[0] <= NextDepths(ts, ds)[i]
  {
    hide Present;
    var next, ds' := After(ts), NextDepths(ts, ds);
    var kids := Present(KidsOf(ts[0]));
    forall i | 0 <= i < |next| ensures IsAt(root, next[i], ds'[i]) {
      if i < |ts| - 1 {
        assert next[i] == ts[i + 1] && ds'[i] == ds[i + 1];
      } else {
        assert next[i] == kids[i - (|ts| - 1)] && next[i] in KidsOf(ts[0]);
        assert IsAt(root, ts[0], ds[0]);
      }
    }
  }

  lemma DepthsStep(ts: seq<Tree>, ds: seq<nat>)
    requires AllLive(ts) && |ds| == |ts|
    ensures ts == [] ==> LevelOrder(ts) == [] && Depths(ts, ds) == []
    ensures ts != [] ==> AllLive(After(ts))
    ensures ts != [] ==> LevelOrder(ts) == [ts[0]] + LevelOrder(After(ts))
    ensures ts != [] ==> Depths(ts, ds) == [ds[0]] + Depths(After(ts), NextDepths(ts, ds))
  {
    hide Present, After, NextDepths, BlocksAll;
    if ts != [] {
      NextSmaller(ts);
    }
  }

  lemma {:induction false} DepthsAscend(root: Tree, ts: seq<Tree>, ds: seq<nat>)
    requires AllLive(ts) && QueueAt(root, ts, ds)
    ensures var order, all := LevelOrder(ts), Depths(ts, ds);
      && (forall i :: 0 <= i < |order| ==> IsAt(root, order[i], all[i])) && NeverBack(all)
      && (ts != [] ==> forall i :: 0 <= i < |all| ==> ds[0] <= all[i])
    decreases |BlocksAll(ts)|
  {
    hide Present, IsAt, After, NextDepths, BlocksAll, LevelOrder, Depths;
    DepthsStep(ts, ds);
    if ts != [] {
      NextSmaller(ts);
      NextAt(root, ts, ds);
      DepthsAscend(root, After(ts), NextDepths(ts, ds));
      var next, ds' := After(ts), NextDepths(ts, ds);
      DepthsStep(next, ds');
      assert next != [] ==> ds[0] <= ds'[0];
      var order, all := LevelOrder(next), Depths(next, ds');
      forall i | 0 <= i <= |order| ensures IsAt(root, ([ts[0]] + order)[i], ([ds[0]] + all)[i]) {
        assert i > 0 ==> IsAt(root, order[i - 1], all[i - 1]);
      }
    }
  }

  /** The walk comes upon the nodes level by level, from the root down. */
  lemma LevelByLevel(t: Tree)
    requires !t.Nil?
    ensures var order, depths := LevelOrder([t]), Depths([t], [0]);
      && (forall i :: 0 <= i < |order| ==> IsAt(t, order[i], depths[i]))
      && forall i, j :: 0 <= i < j < |order| ==> depths[i] <= depths[j]
  {
    hide Depths, LevelOrder;
    DepthsAscend(t, [t], [0]);
  }
}
