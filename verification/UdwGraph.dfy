/** Best-first shortest paths in weighted graphs: graphs/udw_graph/udw_graph.c, `udwg_shortest_path_bf`. */
module UdwGraph {
  import opened Common
  import opened PriorityHeap
  import opened UdwSearch

  /** The sum of the weights along a path. */
  method PathLen(p: Path) returns (plen: int)
    ensures plen == Len(p)
  {
    plen := 0;
    for i := 0 to |p|
      invariant plen == Len(p[..i])
    {
      assert p[..i + 1][..i] == p[..i];
      plen := plen + p[i].weight;
    }
    assert p[..|p|] == p;
  }

  /** The current best path cannot be beaten by this one. */
  method CannotBeat(p: Path, best: Option<Path>) returns (r: bool)
    ensures r <==> best.Some? && Len(p) >= Len(best.value)
  {
    r := false;
    if best.Some? {
      var plen := PathLen(p);
      var bestLen := PathLen(best.value);
      r := plen >= bestLen;
    }
  }

  /** Whether a path leads to a node. */
  method LeadsTo(p: Path, node: nat) returns (found: bool)
    ensures found <==> exists i :: 0 <= i < |p| && p[i].adj == node
  {
    for i := 0 to |p|
      invariant forall j :: 0 <= j < i ==> p[j].adj != node
    {
      if p[i].adj == node {
        return true;
      }
    }
    found := false;
  }

  ghost function StateOf(pq: Heap<Path>, tree: map<nat, Path>, best: Option<Path>): Search
    reads pq
  {
    Search(multiset(pq.Elements), tree, best)
  }

  /** The order of the queue: a shorter path ranks higher. */
  function Rank(p: Path): int {
    -Len(p)
  }

  ghost predicate IsQueue(pq: Heap<Path>)
    reads pq, pq.heap
  {
    pq.Valid() && pq.rank == Rank
  }

  /** Follows one edge from the end of a path: to the goal, where the path may be the best so far, or to
      another node, for which the longer path is queued. */
  method FollowEdge(e: Edge, path: Path, pq: Heap<Path>, to: nat, best: Option<Path>,
                    ghost g: Graph, ghost from: nat, ghost tree: map<nat, Path>, ghost n: nat)
    returns (best': Option<Path>)
    requires IsQueue(pq) && Following(g, from, to, StateOf(pq, tree, best), path, n)
    requires n < |g.adjs[End(from, path)]| && e == g.adjs[End(from, path)][n]
    modifies pq, pq.heap
    ensures IsQueue(pq) && (pq.heap == old(pq.heap) || fresh(pq.heap))
    ensures Following(g, from, to, StateOf(pq, tree, best'), path, n + 1)
  {
    ghost var s := StateOf(pq, tree, best);
    hide Following, End, Ordered;
    best' := best;
    var found := LeadsTo(path, e.adj);
    if found {
      ghost var k :| 0 <= k < |path| && path[k].adj == e.adj;
      BackEdgePassed(g, from, to, s, path, n, k);
      return;
    }
    var adjPath := path + [e];
    if e.adj == to {
      var better := best == None;
      if best.Some? {
        var beaten := CannotBeat(adjPath, best);
        better := !beaten;
      }
      if better {
        best' := Some(adjPath);
      }
      GoalEdgeFollowed(g, from, to, s, path, n, best');
    } else {
      pq.Insert(adjPath);
      OtherEdgeFollowed(g, from, to, s, path, n);
    }
  }

  /** Follows every edge from the end of a path. */
  method FollowEdges(g: Graph, from: nat, path: Path, pq: Heap<Path>, to: nat, best: Option<Path>, ghost tree: map<nat, Path>)
    returns (best': Option<Path>)
    requires IsQueue(pq) && Following(g, from, to, StateOf(pq, tree, best), path, 0)
    modifies pq, pq.heap
    ensures IsQueue(pq) && (pq.heap == old(pq.heap) || fresh(pq.heap))
    ensures Walks(g, from, to, StateOf(pq, tree, best'))
    ensures NonNegative(g) ==> InOrder(g, StateOf(pq, tree, best')) && Settled(g, from, to, StateOf(pq, tree, best'))
  {
    var edges := g.adjs[End(from, path)];
    best' := best;
    for i := 0 to |edges|
      invariant IsQueue(pq) && (pq.heap == old(pq.heap) || fresh(pq.heap))
      invariant Following(g, from, to, StateOf(pq, tree, best'), path, i)
    {
      best' := FollowEdge(edges[i], path, pq, to, best', g, from, tree, i);
    }
    if NonNegative(g) {
      ExpandedIsSettled(g, from, to, StateOf(pq, tree, best'), path);
    }
  }

  /** Takes the shortest path from the queue. */
  method TakeShortest(pq: Heap<Path>, ghost tree: map<nat, Path>, ghost best: Option<Path>) returns (p: Path)
    requires IsQueue(pq) && pq.Elements != []
    modifies pq, pq.heap
    ensures IsQueue(pq) && pq.heap == old(pq.heap) && |pq.Elements| == |old(pq.Elements)| - 1
    ensures IsNext(old(StateOf(pq, tree, best)), p)
    ensures StateOf(pq, tree, best) == Popped(old(StateOf(pq, tree, best)), p)
  {
    ghost var before := pq.Elements;
    var top := pq.Pop();
    p := top.value;
    assert multiset(before) == multiset(pq.Elements) + multiset{p};
    assert |multiset(before)| == |before| && |multiset(pq.Elements)| == |pq.Elements|;
    assert p in multiset(before);
    forall p' | p' in multiset(before) ensures Len(p) <= Len(p') {
      assert p' in before;
      assert pq.rank(p') <= pq.rank(p);
    }
  }

  lemma OneFewer(nodes: set<nat>, visited: set<nat>, node: nat)
    requires node in nodes && node !in visited
    ensures |nodes - (visited + {node})| < |nodes - visited|
  {
    assert nodes - visited == (nodes - (visited + {node})) + {node};
  }

  /** Reaches a node for the first time, on the path taken from the queue. */
  method Visit(g: Graph, from: nat, p: Path, pq: Heap<Path>, to: nat, best: Option<Path>, visited: set<nat>,
               ghost tree: map<nat, Path>, ghost s: Search)
    returns (best': Option<Path>, visited': set<nat>, ghost tree': map<nat, Path>)
    requires IsQueue(pq) && GraphOk(g) && visited == tree.Keys && s.tree == tree && s.best == best
    requires p != [] && End(from, p) in g.adjs && End(from, p) !in visited && StateOf(pq, tree, best) == Popped(s, p)
    requires Searching(g, from, to, s) && IsNext(s, p) && (best.Some? ==> Len(p) < Len(best.value))
    modifies pq, pq.heap
    ensures IsQueue(pq) && (pq.heap == old(pq.heap) || fresh(pq.heap))
    ensures Searching(g, from, to, StateOf(pq, tree', best')) && visited' == tree'.Keys == visited + {End(from, p)}
  {
    hide Walks, InOrder, Settled, Following, IsNext;
    TakePath(g, from, to, s, p);
    tree' := tree[End(from, p) := p];
    best' := FollowEdges(g, from, p, pq, to, best, tree');
    visited' := visited + {p[|p| - 1].adj};
  }

  /** What is known when the search stops early. */
  lemma StopEnds(g: Graph, from: nat, to: nat, s: Search, p: Path)
    requires Searching(g, from, to, s) && IsNext(s, p) && s.best.Some? && Len(p) >= Len(s.best.value)
    ensures Connects(g, from, to, s.best.value) && DetourExists(g, from, to, s.best.value)
    ensures NonNegative(g) ==> IsShortest(g, from, to, s.best.value) && SomeDetour(g, from, to)
  {
    hide Searching, DetourExists, SomeDetour, IsShortest, Connects, IsNext, Len, NonNegative;
    StopIsShortest(g, from, to, s, p);
    StopShowsDetour(g, from, to, s, p);
    if NonNegative(g) {
      StopShowsPast(g, from, to, s, p);
    }
  }

  /** Takes one path from the queue: it ends the search if it is no shorter than the best path; it is dropped
      if its last node was reached before. */
  method TakeNext(g: Graph, from: nat, to: nat, pq: Heap<Path>, best: Option<Path>, visited: set<nat>, ghost tree: map<nat, Path>)
    returns (found: bool, best': Option<Path>, visited': set<nat>, ghost tree': map<nat, Path>)
    requires IsQueue(pq) && pq.Elements != [] && GraphOk(g)
    requires Searching(g, from, to, StateOf(pq, tree, best)) && visited == tree.Keys
    modifies pq, pq.heap
    ensures IsQueue(pq) && (pq.heap == old(pq.heap) || fresh(pq.heap))
    ensures found ==>
      best'.Some? && Connects(g, from, to, best'.value) && DetourExists(g, from, to, best'.value)
      && (NonNegative(g) ==> IsShortest(g, from, to, best'.value) && SomeDetour(g, from, to))
    ensures !found ==> Searching(g, from, to, StateOf(pq, tree', best')) && visited' == tree'.Keys
    ensures !found ==>
      || |g.adjs.Keys - visited'| < |g.adjs.Keys - visited|
      || (visited' == visited && |pq.Elements| < |old(pq.Elements)|)
  {
    hide Searching, DetourExists, SomeDetour, IsShortest, Connects, IsNext, Ordered, Len, NonNegative, GraphOk, IsQueue, Popped;
    ghost var s := StateOf(pq, tree, best);
    best', visited', tree' := best, visited, tree;
    var p := TakeShortest(pq, tree, best);
    found := CannotBeat(p, best);
    if found {
      StopEnds(g, from, to, s, p);
      return;
    }
    QueuedIsPath(g, from, to, s, p);
    var node := p[|p| - 1].adj;
    if node !in visited {
      OneFewer(g.adjs.Keys, visited, node);
      best', visited', tree' := Visit(g, from, p, pq, to, best, visited, tree, s);
    } else {
      DropPath(g, from, to, s, p);
    }
  }

  /** The best-first search. It stops with the best path as soon as no queued path is shorter. If the queue
      runs dry before that, it reports that there is no path, even if it has found one. */
  method ShortestPath(g: Graph, from: nat, to: nat) returns (err: Err, path: Option<Path>)
    requires GraphOk(g) && from in g.adjs && to in g.adjs
    ensures err == Ok || err == ENOENT
    ensures err == Ok ==> path.Some? && Connects(g, from, to, path.value) && DetourExists(g, from, to, path.value)
    ensures err == Ok && NonNegative(g) ==> IsShortest(g, from, to, path.value)
    ensures err == ENOENT && NonNegative(g) ==> GoalFarthest(g, from, to)
    ensures NonNegative(g) ==> (SomeSureDetour(g, from, to) ==> err == Ok) && (err == Ok ==> SomeDetour(g, from, to))
    ensures Positive(g) && UniqueWays(g, from) ==> (err == Ok <==> SomeDetour(g, from, to))
  {
    hide Searching, Walks, InOrder, Settled, Following, DetourExists, SomeDetour, SomeSureDetour, UniqueWays, IsShortest, GoalFarthest, Connects, IsNext, Ordered, Len;
    if UniqueWays(g, from) && Positive(g) {
      SureIfUnique(g, from, to);
    }
    var pq := new Heap<Path>(Rank);
    var visited: set<nat> := {};
    ghost var tree: map<nat, Path> := map[];
    var best: Option<Path> := None;
    StartOk(g, from, to);
    assert StateOf(pq, tree, best) == Search(multiset{}, map[], None);
    best := FollowEdges(g, from, [], pq, to, best, tree);
    StartIsSearching(g, from, to, StateOf(pq, tree, best));
    while !pq.Empty()
      invariant fresh(pq) && fresh(pq.heap) && IsQueue(pq)
      invariant Searching(g, from, to, StateOf(pq, tree, best)) && visited == tree.Keys
      decreases |g.adjs.Keys - visited|, |pq.Elements|
    {
      var found;
      found, best, visited, tree := TakeNext(g, from, to, pq, best, visited, tree);
      if found {
        return Ok, best;
      }
    }
    if NonNegative(g) {
      DryMeansFarthest(g, from, to, StateOf(pq, tree, best));
      DryMeansNone(g, from, to, StateOf(pq, tree, best));
    }
    return ENOENT, None;
  }

  /** Two nodes and the edge between them. */
  function TwoNodes(weight: int): Graph {
    Graph(map[0 := [Edge(1, weight)], 1 := [Edge(0, weight)]])
  }

  lemma TwoNodesShortest(weight: int)
    requires weight >= 0
    ensures IsShortest(TwoNodes(weight), 0, 1, [Edge(1, weight)])
  {
    var g, p := TwoNodes(weight), [Edge(1, weight)];
    assert p[..0] == [];
    forall w | Connects(g, 0, 1, w) ensures Len(p) <= Len(w) {
      PrefixWalk(g, 0, w, |w| - 1);
      PrefixLen(g, 0, w[..|w| - 1], 0);
      assert w[..|w| - 1][..0] == [];
    }
  }

  lemma TwoNodesNoDetour(weight: int, best: Path)
    ensures !DetourExists(TwoNodes(weight), 0, 1, best)
  {
    var g := TwoNodes(weight);
    forall p | p != [] && IsWalk(g, 0, p) ensures !Avoids(p, 1) {
      PrefixWalk(g, 0, p, 0);
      assert p[..0] == [];
      assert p[0] in p;
    }
  }

  /** Between two nodes that have no other neighbours the search finds the path and still reports that there
      is none. */
  method SearchTwoNodes(weight: int) returns (err: Err)
    requires weight >= 0
    ensures IsShortest(TwoNodes(weight), 0, 1, [Edge(1, weight)]) && err == ENOENT
  {
    TwoNodesShortest(weight);
    var path;
    err, path := ShortestPath(TwoNodes(weight), 0, 1);
    if err == Ok {
      TwoNodesNoDetour(weight, path.value);
    }
  }
}
