/** Unweighted graphs, walks and simple routes: graphs/ud_graph/ud_graph.c. */
module UdPaths {
  import opened Common

  /** A node is known by the rank of its data; its neighbours are in the order of the adjacency tree. */
  datatype Graph = Graph(adjs: map<nat, seq<nat>>)

  ghost predicate GraphOk(g: Graph) {
    forall u <- g.adjs :: forall v <- g.adjs[u] :: v in g.adjs
  }

  ghost predicate Step(g: Graph, u: nat, v: nat) {
    u in g.adjs && v in g.adjs[u]
  }

  lemma Neighbour(g: Graph, u: nat, i: nat)
    requires u in g.adjs && i < |g.adjs[u]|
    ensures Step(g, u, g.adjs[u][i])
  {
  }

  /** Node by node along edges. */
  ghost predicate IsWalk(g: Graph, p: seq<nat>) {
    |p| > 0 && forall i :: 0 <= i < |p| - 1 ==> Step(g, p[i], p[i + 1])
  }

  ghost predicate Connects(g: Graph, from: nat, to: nat, p: seq<nat>) {
    IsWalk(g, p) && p[0] == from && p[|p| - 1] == to
  }

  ghost predicate Simple(p: seq<nat>) {
    forall i, j :: 0 <= i < j < |p| ==> p[i] != p[j]
  }

  /** A path with as few edges as any. */
  ghost predicate IsShortest(g: Graph, from: nat, to: nat, p: seq<nat>) {
    Connects(g, from, to, p) && Simple(p) && forall q | Connects(g, from, to, q) :: |p| <= |q|
  }

  ghost predicate Unreachable(g: Graph, from: nat, to: nat) {
    forall p :: !Connects(g, from, to, p)
  }

  /** Cutting out a round trip. */
  lemma CutLoop(g: Graph, from: nat, to: nat, p: seq<nat>, i: nat, j: nat)
    requires Connects(g, from, to, p) && i < j < |p| && p[i] == p[j]
    ensures Connects(g, from, to, p[..i] + p[j..])
  {
    var q := p[..i] + p[j..];
    forall k | 0 <= k < |q| - 1 ensures Step(g, q[k], q[k + 1]) {
      var k' := if k < i then k else k + j - i;
      assert Step(g, p[k'], p[k' + 1]);
      assert k == i - 1 ==> q[k + 1] == p[j];
    }
  }

  /** Every walk has a simple path no longer than it. */
  lemma {:induction false} SimplePathExists(g: Graph, from: nat, to: nat, p: seq<nat>) returns (q: seq<nat>)
    requires Connects(g, from, to, p)
    ensures Connects(g, from, to, q) && Simple(q) && |q| <= |p|
    decreases |p|
  {
    if Simple(p) {
      q := p;
    } else {
      var i, j :| 0 <= i < j < |p| && p[i] == p[j];
      CutLoop(g, from, to, p, i, j);
      q := SimplePathExists(g, from, to, p[..i] + p[j..]);
    }
  }

  // Routes: simple paths away from the nodes already on the way

  /** A way to the goal from a neighbour of the last node of `way`, past no node of it. */
  ghost predicate IsRoute(g: Graph, way: seq<nat>, to: nat, q: seq<nat>) {
    && |way| > 0 && Simple(way + q) && IsWalk(g, way + q)
    && |q| > 0 && q[|q| - 1] == to
  }

  /** A length that beats the limit; 0 means no limit. */
  predicate Beats(limit: nat, n: nat) {
    limit == 0 || n < limit
  }

  /** The shortest route that beats the limit, if there is one. */
  ghost predicate BestRoute(g: Graph, way: seq<nat>, to: nat, limit: nat, best: Option<seq<nat>>) {
    BestOf(g, way, to, limit, best, g.adjs.Keys)
  }

  /** The same among the routes that begin with given nodes. */
  ghost predicate BestOf(g: Graph, way: seq<nat>, to: nat, limit: nat, best: Option<seq<nat>>, starts: set<nat>) {
    && (best.Some? ==> IsRoute(g, way, to, best.value) && Beats(limit, |best.value|))
    && forall q | IsRoute(g, way, to, q) && q[0] in starts && Beats(limit, |q|) :: best.Some? && |best.value| <= |q|
  }

  /** A route goes on from its first node. */
  lemma RouteTail(g: Graph, way: seq<nat>, to: nat, q: seq<nat>)
    requires IsRoute(g, way, to, q) && q[0] != to
    ensures |q| > 1 && IsRoute(g, way + [q[0]], to, q[1..])
  {
    assert way + q == way + [q[0]] + q[1..];
  }

  lemma RouteFrom(g: Graph, way: seq<nat>, to: nat, v: nat, q: seq<nat>)
    requires IsRoute(g, way + [v], to, q) && |way| > 0
    ensures IsRoute(g, way, to, [v] + q)
  {
    assert way + ([v] + q) == way + [v] + q;
  }

  /** The first node of a route is a neighbour of the last node of the way, and not on the way. */
  lemma RouteStart(g: Graph, way: seq<nat>, to: nat, q: seq<nat>)
    requires IsRoute(g, way, to, q)
    ensures Step(g, way[|way| - 1], q[0]) && q[0] !in way
  {
    var p := way + q;
    assert Step(g, p[|way| - 1], p[|way|]);
    forall i | 0 <= i < |way| ensures way[i] != q[0] {
      assert p[i] != p[|way|];
    }
  }

  lemma RouteEnds(g: Graph, way: seq<nat>, to: nat, q: seq<nat>)
    requires IsRoute(g, way, to, q)
    ensures to !in way
  {
    var p := way + q;
    forall i | 0 <= i < |way| ensures way[i] != to {
      assert p[i] != p[|p| - 1];
    }
  }

  /** No route leads back to a node of the way. */
  lemma BestEnds(g: Graph, way: seq<nat>, to: nat, limit: nat, best: Option<seq<nat>>)
    requires BestRoute(g, way, to, limit, best)
    ensures best.Some? ==> to !in way
  {
    if best.Some? {
      RouteEnds(g, way, to, best.value);
    }
  }

  lemma RouteIsAway(g: Graph, way: seq<nat>, to: nat, q: seq<nat>, x: nat)
    requires IsRoute(g, way, to, q) && x in way
    ensures x !in q
  {
    var p := way + q;
    var i :| 0 <= i < |way| && way[i] == x;
    forall j | 0 <= j < |q| ensures q[j] != x {
      assert p[i] != p[|way| + j];
    }
  }

  lemma LastIsNew(way: seq<nat>, x: nat)
    requires Simple(way + [x])
    ensures x !in way
  {
    var p := way + [x];
    forall i | 0 <= i < |way| ensures way[i] != x {
      assert p[i] != p[|way|];
    }
  }

  /** A neighbour that is the goal: nothing is shorter. */
  lemma GoalRoute(g: Graph, way: seq<nat>, to: nat)
    requires |way| > 0 && IsWalk(g, way) && Simple(way) && to !in way && Step(g, way[|way| - 1], to)
    ensures IsRoute(g, way, to, [to])
  {
  }

  /** The best route by way of one more neighbour `v`, from the best route on from there. `limit` is that of
      the routes of `way`, and 1 lower beyond `v`. */
  lemma ViaNeighbour(g: Graph, way: seq<nat>, to: nat, limit: nat, v: nat, sub: Option<seq<nat>>)
    requires |way| > 0 && v != to && limit != 1
    requires BestRoute(g, way + [v], to, if limit == 0 then 0 else limit - 1, sub) && GraphOk(g)
    ensures BestOf(g, way, to, limit, if sub.Some? then Some([v] + sub.value) else None, {v})
  {
    if sub.Some? {
      RouteFrom(g, way, to, v, sub.value);
    }
    forall q | IsRoute(g, way, to, q) && q[0] in {v} && Beats(limit, |q|)
      ensures sub.Some? && |[v] + sub.value| <= |q|
    {
      RouteTail(g, way, to, q);
      RouteStart(g, way + [v], to, q[1..]);
    }
  }

  /** The limit for the routes still to be looked at. */
  function Limit(limit: nat, best: Option<seq<nat>>): nat {
    if best.Some? then |best.value| else limit
  }

  /** The best route among some starts, then among another under the new limit. */
  lemma MergeBest(g: Graph, way: seq<nat>, to: nat, limit: nat, best: Option<seq<nat>>, starts: set<nat>,
                  v: nat, next: Option<seq<nat>>)
    requires BestOf(g, way, to, limit, best, starts) && BestOf(g, way, to, Limit(limit, best), next, {v})
    ensures BestOf(g, way, to, limit, if next.Some? then next else best, starts + {v})
    ensures next.Some? && best.Some? ==> |next.value| < |best.value|
  {
  }

  /** With a limit of 1 there is nothing to look for, and past a node on the way no route leads. */
  lemma NothingBeatsOne(g: Graph, way: seq<nat>, to: nat)
    ensures BestRoute(g, way, to, 1, None)
  {
  }

  lemma NoRouteBack(g: Graph, way: seq<nat>, to: nat, limit: nat, v: nat)
    requires v in way
    ensures BestOf(g, way, to, limit, None, {v})
  {
    forall q | IsRoute(g, way, to, q) && q[0] in {v} && Beats(limit, |q|) ensures false {
      RouteStart(g, way, to, q);
    }
  }

  lemma NoStarts(g: Graph, way: seq<nat>, to: nat, limit: nat)
    ensures BestOf(g, way, to, limit, None, {})
  {
  }

  /** Nothing is shorter than a route of one node. */
  lemma OneIsBest(g: Graph, way: seq<nat>, to: nat, limit: nat, best: Option<seq<nat>>, starts: set<nat>)
    requires BestOf(g, way, to, limit, best, starts) && best == Some([to]) && limit != 1 && |way| > 0
    ensures BestRoute(g, way, to, limit, best) && way[|way| - 1] !in best.value
  {
    RouteIsAway(g, way, to, best.value, way[|way| - 1]);
    GoalIsBest(g, way, to, limit);
  }

  /** The route of one node is the best of all. */
  lemma GoalIsBest(g: Graph, way: seq<nat>, to: nat, limit: nat)
    requires IsRoute(g, way, to, [to]) && limit != 1
    ensures BestRoute(g, way, to, limit, Some([to])) && BestOf(g, way, to, limit, Some([to]), {to})
  {
  }

  /** The first `n` neighbours have been looked at. */
  ghost predicate Tried(adjs: seq<nat>, n: nat, starts: set<nat>)
    requires n <= |adjs|
  {
    forall j :: 0 <= j < n ==> adjs[j] in starts
  }

  lemma TriedOneMore(adjs: seq<nat>, n: nat, starts: set<nat>)
    requires n < |adjs| && Tried(adjs, n, starts)
    ensures Tried(adjs, n + 1, starts + {adjs[n]})
  {
  }

  /** Once every neighbour has been looked at, the best route of all is known. */
  lemma AllStarts(g: Graph, way: seq<nat>, to: nat, limit: nat, best: Option<seq<nat>>, starts: set<nat>)
    requires BestOf(g, way, to, limit, best, starts) && |way| > 0 && way[|way| - 1] in g.adjs
    requires var adjs := g.adjs[way[|way| - 1]]; Tried(adjs, |adjs|, starts)
    ensures BestRoute(g, way, to, limit, best)
    ensures best.Some? ==> best.value != [] && way[|way| - 1] !in best.value
  {
    forall q | IsRoute(g, way, to, q) && q[0] in g.adjs.Keys && Beats(limit, |q|)
      ensures best.Some? && |best.value| <= |q|
    {
      RouteStart(g, way, to, q);
    }
    if best.Some? {
      RouteIsAway(g, way, to, best.value, way[|way| - 1]);
    }
  }

  /** What the best route from the start says about all walks. */
  lemma BestIsShortest(g: Graph, from: nat, to: nat, best: Option<seq<nat>>)
    requires GraphOk(g) && from != to && BestRoute(g, [from], to, 0, best)
    ensures best.Some? ==> IsShortest(g, from, to, [from] + best.value)
    ensures best.None? ==> Unreachable(g, from, to)
  {
    forall p | Connects(g, from, to, p) ensures best.Some? && |best.value| + 1 <= |p| {
      var q := SimplePathExists(g, from, to, p);
      assert q == [from] + q[1..];
      assert Step(g, q[0], q[1]);
      assert IsRoute(g, [from], to, q[1..]);
    }
  }
}
