/** Shortest paths in unweighted graphs: graphs/ud_graph/ud_graph.c, `udg_shortest_path_df` and
    `udg_shortest_path_bf`. */
module UdGraph {
  import opened Common
  import opened FifoQueue
  import opened UdPaths
  import opened UdLayers

  /** What a search leaves in `*spath`. */
  datatype Answer = NotSet | NoPath | Found(path: seq<nat>)

  /** A right answer: a shortest path, or none if there is none. A goal without neighbours is not answered. A
      node is not looked for from itself. */
  ghost predicate IsAnswer(g: Graph, from: nat, to: nat, answer: Answer) {
    match answer
    case NotSet => to in g.adjs ==> g.adjs[to] == []
    case NoPath => to in g.adjs && g.adjs[to] != [] && (from == to || Unreachable(g, from, to))
    case Found(p) => to in g.adjs && g.adjs[to] != [] && from != to && IsShortest(g, from, to, p)
  }

  /** Right answers agree, so the bound of the depth-first search never costs the shortest path. */
  lemma AnswersAgree(g: Graph, from: nat, to: nat, a: Answer, b: Answer)
    requires IsAnswer(g, from, to, a) && IsAnswer(g, from, to, b)
    ensures a == b || (a.Found? && b.Found? && |a.path| == |b.path|)
  {
  }

  /** The list operations refuse an element that is there already. */
  method InsertHead(list: seq<nat>, x: nat) returns (err: Err, r: seq<nat>)
    ensures err == (if x in list then EEXIST else Ok) && r == if x in list then list else [x] + list
  {
    if x in list {
      return EEXIST, list;
    }
    return Ok, [x] + list;
  }

  method InsertTail(list: seq<nat>, x: nat) returns (err: Err, r: seq<nat>)
    ensures err == (if x in list then EEXIST else Ok) && r == if x in list then list else list + [x]
  {
    if x in list {
      return EEXIST, list;
    }
    return Ok, list + [x];
  }

  // Depth first

  ghost function OffPath(g: Graph, way: seq<nat>): set<nat> {
    g.adjs.Keys - (set x | x in way)
  }

  lemma PathGrows(g: Graph, way: seq<nat>, v: nat)
    requires v in g.adjs && v !in way
    ensures |OffPath(g, way + [v])| < |OffPath(g, way)|
  {
    assert OffPath(g, way) == OffPath(g, way + [v]) + {v};
  }

  /** A way from which the search goes on. */
  ghost predicate OnWay(g: Graph, way: seq<nat>) {
    GraphOk(g) && IsWalk(g, way) && Simple(way) && way[|way| - 1] in g.adjs
  }

  lemma WayGrows(g: Graph, way: seq<nat>, v: nat)
    requires OnWay(g, way) && Step(g, way[|way| - 1], v) && v !in way
    ensures OnWay(g, way + [v]) && |OffPath(g, way + [v])| < |OffPath(g, way)|
  {
    PathGrows(g, way, v);
    var p := way + [v];
    forall i | 0 <= i < |p| - 1 ensures Step(g, p[i], p[i + 1]) {
      if i < |way| - 1 {
        assert Step(g, way[i], way[i + 1]);
      }
    }
  }

  /** Looks for the shortest route among those by way of one neighbour. */
  method TryNeighbour(g: Graph, way: seq<nat>, v: nat, to: nat, limit: nat) returns (err: Err, spath: Option<seq<nat>>, stop: bool)
    requires OnWay(g, way) && Step(g, way[|way| - 1], v) && limit != 1
    ensures err == Ok && BestOf(g, way, to, limit, spath, {v})
    ensures stop ==> spath == Some([to]) && v == to
    ensures spath.Some? && |spath.value| == 1 ==> stop
    decreases |OffPath(g, way)|, 0, 0
  {
    hide IsRoute, BestOf, BestRoute, Simple, Step, GraphOk, OffPath;
    err, spath, stop := Ok, None, false;
    if v in way {
      NoRouteBack(g, way, to, limit, v);
      return;
    }
    if v == to {
      spath, stop := Some([v]), true;
      GoalRoute(g, way, to);
      GoalIsBest(g, way, to, limit);
      return;
    }
    var lengthToBeat := 0;
    if limit != 0 {
      lengthToBeat := limit - 1;
      if lengthToBeat == 1 {
        NothingBeatsOne(g, way + [v], to);
        ViaNeighbour(g, way, to, limit, v, None);
        return;
      }
    }
    WayGrows(g, way, v);
    err, spath := SearchFrom(g, v, to, way, lengthToBeat);
    ViaNeighbour(g, way, to, limit, v, if spath.Some? then Some(spath.value[1..]) else None);
    assert spath.Some? ==> [v] + spath.value[1..] == spath.value;
  }

  /** Keeps the better of the best route so far and the best one by way of one more neighbour. */
  method Consider(g: Graph, way: seq<nat>, v: nat, to: nat, best: Option<seq<nat>>, lengthToBeat: nat,
                  ghost limit: nat, ghost starts: set<nat>)
    returns (err: Err, best': Option<seq<nat>>, lengthToBeat': nat, stop: bool)
    requires OnWay(g, way) && Step(g, way[|way| - 1], v)
    requires BestOf(g, way, to, limit, best, starts) && lengthToBeat == Limit(limit, best) && lengthToBeat != 1
    ensures err == Ok && BestOf(g, way, to, limit, best', starts + {v}) && lengthToBeat' == Limit(limit, best')
    ensures if stop then best' == Some([to]) else lengthToBeat' != 1
    decreases |OffPath(g, way)|, 0, 1
  {
    hide OnWay, IsRoute, BestOf, BestRoute;
    best', lengthToBeat' := best, lengthToBeat;
    var spath;
    err, spath, stop := TryNeighbour(g, way, v, to, lengthToBeat);
    MergeBest(g, way, to, limit, best, starts, v, spath);
    if spath.Some? {
      if best.None? || |spath.value| < |best.value| {
        best', lengthToBeat' := spath, |spath.value|;
      }
    }
  }

  /** `_udg_shortest_path_df`: the shortest path from a node to the goal, past the nodes of the current path,
      if there is one that beats the limit. */
  method SearchFrom(g: Graph, from: nat, to: nat, currPath: seq<nat>, limit: nat) returns (err: Err, spath: Option<seq<nat>>)
    requires GraphOk(g) && OnWay(g, currPath + [from]) && limit != 1
    ensures err == Ok && (spath.Some? ==> |spath.value| > 1 && spath.value[0] == from)
    ensures BestRoute(g, currPath + [from], to, limit, if spath.Some? then Some(spath.value[1..]) else None)
    decreases |OffPath(g, currPath + [from])|, 2
  {
    spath := None;
    var way;
    err, way := InsertTail(currPath, from);
    LastIsNew(currPath, from);
    var best;
    err, best := TryNeighbours(g, way, to, limit);
    if best.Some? {
      var r;
      err, r := InsertHead(best.value, from);
      spath := Some(r);
      assert r[1..] == best.value;
    }
  }

  /** Looks for the shortest route by way of any neighbour. Each route found lowers the limit. */
  method TryNeighbours(g: Graph, way: seq<nat>, to: nat, limit: nat) returns (err: Err, best: Option<seq<nat>>)
    requires OnWay(g, way) && limit != 1
    ensures err == Ok && BestRoute(g, way, to, limit, best)
    ensures best.Some? ==> best.value != [] && way[|way| - 1] !in best.value
    decreases |OffPath(g, way)|, 1
  {
    var adjs := g.adjs[way[|way| - 1]];
    var lengthToBeat := limit;
    err, best := Ok, None;
    ghost var starts: set<nat> := {};
    NoStarts(g, way, to, limit);
    hide BestOf, IsRoute, BestRoute, OnWay, OffPath, GraphOk, IsWalk, Simple, Step, Tried;
    for i := 0 to |adjs|
      invariant err == Ok && BestOf(g, way, to, limit, best, starts) && Tried(adjs, i, starts)
      invariant lengthToBeat == Limit(limit, best) && lengthToBeat != 1
    {
      Neighbour(g, way[|way| - 1], i);
      var stop;
      err, best, lengthToBeat, stop := Consider(g, way, adjs[i], to, best, lengthToBeat, limit, starts);
      TriedOneMore(adjs, i, starts);
      starts := starts + {adjs[i]};
      if stop {
        OneIsBest(g, way, to, limit, best, starts);
        return;
      }
    }
    AllStarts(g, way, to, limit, best, starts);
  }

  /** `udg_shortest_path_df`: depth-first search with a bound. */
  method ShortestPathDepthFirst(g: Graph, from: nat, to: nat) returns (err: Err, answer: Answer)
    requires GraphOk(g) && from in g.adjs
    ensures err == if to in g.adjs then Ok else ENOENT
    ensures IsAnswer(g, from, to, answer)
  {
    if to !in g.adjs {
      return ENOENT, NotSet;
    }
    if |g.adjs[to]| == 0 {
      return Ok, NotSet;
    }
    var best;
    err, best := TryNeighbours(g, [from], to, 0);
    answer := NoPath;
    if best.Some? {
      var r;
      err, r := InsertHead(best.value, from);
      answer := Found(r);
    }
    if from != to {
      BestIsShortest(g, from, to, best);
    } else {
      BestEnds(g, [from], to, 0, best);
    }
  }

  // Breadth first

  /** Visits one neighbour: if it is new, it is marked with a backpointer, and queued unless it is the goal. */
  method VisitNeighbour(v: nat, fi: Fifo<nat>, visited: map<nat, Option<nat>>, next: nat, to: nat,
                        ghost g: Graph, ghost from: nat, ghost s: Visit, ghost n: nat)
    returns (visited': map<nat, Option<nat>>, found: bool, ghost s': Visit)
    requires fi.Valid() && visited == s.back && Front(g, from, to, s, fi.Contents, next, n)
    requires n < |g.adjs[next]| && v == g.adjs[next][n]
    modifies fi, fi.queue
    ensures fi.Valid() && (fi.queue == old(fi.queue) || fresh(fi.queue)) && visited' == s'.back
    ensures if found then GoalReached(g, from, to, s') else Front(g, from, to, s', fi.Contents, next, n + 1)
    ensures !found ==> Left(g, s', fi.Contents) == Left(g, s, old(fi.Contents))
  {
    visited', found, s' := visited, false, s;
    if v in visited {
      SeenBefore(g, from, to, s, fi.Contents, next, n);
      return;
    }
    visited', s' := visited[v := Some(next)], Reached(s, next, v);
    if v == to {
      found := true;
      Neighbour(g, next, n);
      return;
    }
    NewlyReached(g, from, to, s, fi.Contents, next, n, v);
    LeftStays(g, s, fi.Contents, next, v);
    fi.Enq(v);
  }

  /** Visits the neighbours of a node, until the goal is found. */
  method VisitNeighbours(g: Graph, fi: Fifo<nat>, visited: map<nat, Option<nat>>, next: nat, to: nat, ghost from: nat, ghost s: Visit)
    returns (visited': map<nat, Option<nat>>, found: bool, ghost s': Visit)
    requires fi.Valid() && visited == s.back && Front(g, from, to, s, fi.Contents, next, 0)
    modifies fi, fi.queue
    ensures fi.Valid() && (fi.queue == old(fi.queue) || fresh(fi.queue)) && visited' == s'.back
    ensures if found then GoalReached(g, from, to, s') else Between(g, from, to, s', fi.Contents)
    ensures !found ==> Left(g, s', fi.Contents) == Left(g, s, old(fi.Contents))
  {
    visited', found, s' := visited, false, s;
    var adjs := g.adjs[next];
    for i := 0 to |adjs|
      invariant fi.Valid() && (fi.queue == old(fi.queue) || fresh(fi.queue)) && visited' == s'.back
      invariant !found && Front(g, from, to, s', fi.Contents, next, i)
      invariant Left(g, s', fi.Contents) == Left(g, s, old(fi.Contents))
    {
      visited', found, s' := VisitNeighbour(adjs[i], fi, visited', next, to, g, from, s', i);
      if found {
        return;
      }
    }
    FrontIsBetween(g, from, to, s', fi.Contents, next);
  }

  /** Follows the backpointers from the goal; each node goes to the head of the list. */
  method TraceBack(g: Graph, from: nat, to: nat, visited: map<nat, Option<nat>>, ghost s: Visit) returns (err: Err, spath: seq<nat>)
    requires GoalReached(g, from, to, s) && visited == s.back
    ensures err == Ok && IsShortest(g, from, to, spath)
  {
    hide GoalReached, BackPath, Rooted, IsShortest;
    ReachedIsRooted(g, from, to, s);
    TraceStarts(g, s, to);
    var node := to;
    err, spath := InsertHead([], to);
    assert spath == [to];
    while visited[node].Some?
      invariant err == Ok && BackPath(g, s, to, spath) && spath != [] && node == spath[0] && node in visited && node in s.dist
      decreases s.dist[node]
    {
      BackStep(g, from, s, to, spath);
      node := visited[node].value;
      err, spath := InsertHead(spath, node);
    }
    TraceEnds(g, from, s, node);
    BackPathIsShortest(g, from, to, s, spath);
  }

  /** `_udg_shortest_path_bf`: visits node after node from the queue until the goal is found. */
  method SearchBreadthFirst(g: Graph, from: nat, to: nat) returns (err: Err, spath: Option<seq<nat>>)
    requires GraphOk(g) && from in g.adjs
    ensures err == Ok
    ensures spath.Some? ==> from != to && IsShortest(g, from, to, spath.value)
    ensures spath.None? && from != to ==> Unreachable(g, from, to)
  {
    var fi := new Fifo<nat>();
    fi.Enq(from);
    var visited: map<nat, Option<nat>> := map[from := None];
    ghost var s := Visit(visited, map[from := 0]);
    StartBetween(g, from, to);
    assert fi.Contents == [from];
    var found := false;
    while !fi.Empty()
      invariant fresh(fi) && fresh(fi.queue) && fi.Valid() && visited == s.back && !found
      invariant Between(g, from, to, s, fi.Contents)
      decreases Left(g, s, fi.Contents)
    {
      NextIsFront(g, from, to, s, fi.Contents);
      var next;
      err, next := fi.Deq();
      visited, found, s := VisitNeighbours(g, fi, visited, next.value, to, from, s);
      if found {
        break;
      }
    }
    err, spath := Ok, None;
    if found {
      ReachedIsRooted(g, from, to, s);
      var p;
      err, p := TraceBack(g, from, to, visited, s);
      spath := Some(p);
    } else if from != to {
      EmptyMeansUnreachable(g, from, to, s);
    }
  }

  /** `udg_shortest_path_bf`. */
  method ShortestPathBreadthFirst(g: Graph, from: nat, to: nat) returns (err: Err, answer: Answer)
    requires GraphOk(g) && from in g.adjs
    ensures err == if to in g.adjs then Ok else ENOENT
    ensures IsAnswer(g, from, to, answer)
  {
    if to !in g.adjs {
      return ENOENT, NotSet;
    }
    if |g.adjs[to]| == 0 {
      return Ok, NotSet;
    }
    var spath;
    err, spath := SearchBreadthFirst(g, from, to);
    answer := if spath.Some? then Found(spath.value) else NoPath;
  }

  /** Both searches on one graph: they end alike, with paths of the same length or both with none. */
  method SearchBothWays(g: Graph, from: nat, to: nat) returns (err: Err, depthFirst: Answer, breadthFirst: Answer)
    requires GraphOk(g) && from in g.adjs
    ensures err == if to in g.adjs then Ok else ENOENT
    ensures depthFirst.Found? <==> breadthFirst.Found?
    ensures depthFirst.Found? ==> |depthFirst.path| == |breadthFirst.path|
    ensures !depthFirst.Found? ==> depthFirst == breadthFirst
  {
    err, depthFirst := ShortestPathDepthFirst(g, from, to);
    err, breadthFirst := ShortestPathBreadthFirst(g, from, to);
    AnswersAgree(g, from, to, depthFirst, breadthFirst);
  }
}
