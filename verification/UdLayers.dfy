/** Breadth-first search in graphs/ud_graph/ud_graph.c: nodes are reached layer by layer. */
module UdLayers {
  import opened Common
  import opened UdPaths

  /** The nodes visited, each with the node it was reached from, and its layer. */
  datatype Visit = Visit(back: map<nat, Option<nat>>, dist: map<nat, nat>)

  /** Backpointers lead one layer down, along an edge, and end at the start. */
  ghost predicate Rooted(g: Graph, from: nat, s: Visit) {
    && s.back.Keys == s.dist.Keys && from in s.dist && s.dist[from] == 0
    && forall v <- s.dist :: v in g.adjs && PointsBack(g, from, s, v)
  }

  ghost predicate PointsBack(g: Graph, from: nat, s: Visit, v: nat)
    requires v in s.dist && s.back.Keys == s.dist.Keys
  {
    match s.back[v]
    case None => v == from
    case Some(u) => v != from && u in s.dist && Step(g, u, v) && s.dist[v] == s.dist[u] + 1
  }

  /** The queue goes through layer `d`, then the next one; nothing lies beyond. */
  ghost predicate TwoLayers(s: Visit, queue: seq<nat>, d: nat) {
    && (forall v <- s.dist :: s.dist[v] <= d + 1)
    && (forall i :: 0 <= i < |queue| ==> queue[i] in s.dist && d <= s.dist[queue[i]])
    && forall i, j :: 0 <= i < j < |queue| ==> s.dist[queue[i]] <= s.dist[queue[j]]
  }

  /** A node whose neighbours have all been visited. */
  ghost predicate Done(g: Graph, s: Visit, v: nat) {
    v in s.dist && v in g.adjs && NeighboursSeen(g, s, v, |g.adjs[v]|)
  }

  ghost predicate NeighboursSeen(g: Graph, s: Visit, v: nat, n: nat)
    requires v in s.dist && v in g.adjs && n <= |g.adjs[v]|
  {
    forall i :: 0 <= i < n ==> g.adjs[v][i] in s.dist && s.dist[g.adjs[v][i]] <= s.dist[v] + 1
  }

  /** The state of the search while the neighbours of `next` are visited; `n` of them have been. */
  ghost predicate Front(g: Graph, from: nat, to: nat, s: Visit, queue: seq<nat>, next: nat, n: nat) {
    && GraphOk(g) && Rooted(g, from, s) && (to in s.dist ==> from == to)
    && next in s.dist && next in g.adjs && n <= |g.adjs[next]| && NeighboursSeen(g, s, next, n)
    && TwoLayers(s, queue, s.dist[next])
    && forall v <- s.dist :: v == next || v in queue || Done(g, s, v)
  }

  /** The state between two nodes. */
  ghost predicate Between(g: Graph, from: nat, to: nat, s: Visit, queue: seq<nat>) {
    && GraphOk(g) && Rooted(g, from, s) && (to in s.dist ==> from == to)
    && (queue != [] ==> queue[0] in s.dist && TwoLayers(s, queue, s.dist[queue[0]]))
    && forall v <- s.dist :: v in queue || Done(g, s, v)
  }

  lemma StartBetween(g: Graph, from: nat, to: nat)
    requires GraphOk(g) && from in g.adjs
    ensures Between(g, from, to, Visit(map[from := None], map[from := 0]), [from])
  {
  }

  lemma NextIsFront(g: Graph, from: nat, to: nat, s: Visit, queue: seq<nat>)
    requires Between(g, from, to, s, queue) && queue != []
    ensures Front(g, from, to, s, queue[1..], queue[0], 0)
  {
  }

  lemma FrontIsBetween(g: Graph, from: nat, to: nat, s: Visit, queue: seq<nat>, next: nat)
    requires Front(g, from, to, s, queue, next, if next in g.adjs then |g.adjs[next]| else 0)
    ensures Between(g, from, to, s, queue)
  {
  }

  /** A neighbour that was visited before. */
  lemma SeenBefore(g: Graph, from: nat, to: nat, s: Visit, queue: seq<nat>, next: nat, n: nat)
    requires Front(g, from, to, s, queue, next, n) && n < |g.adjs[next]| && g.adjs[next][n] in s.dist
    ensures Front(g, from, to, s, queue, next, n + 1)
  {
    hide Rooted, Done, GraphOk;
  }

  /** A neighbour `v` is reached from `u`. */
  ghost function Reached(s: Visit, u: nat, v: nat): Visit
    requires u in s.dist
  {
    Visit(s.back[v := Some(u)], s.dist[v := s.dist[u] + 1])
  }

  lemma ReachedRooted(g: Graph, from: nat, s: Visit, u: nat, v: nat)
    requires GraphOk(g) && Rooted(g, from, s) && u in s.dist && Step(g, u, v) && v !in s.dist
    ensures Rooted(g, from, Reached(s, u, v))
  {
    var s' := Reached(s, u, v);
    forall w | w in s'.dist ensures w in g.adjs && PointsBack(g, from, s', w) {
      if w != v {
        assert PointsBack(g, from, s, w);
      }
    }
  }

  lemma DoneStays(g: Graph, s: Visit, u: nat, v: nat, w: nat, n: nat)
    requires u in s.dist && v !in s.dist && w in s.dist && w in g.adjs && n <= |g.adjs[w]| && NeighboursSeen(g, s, w, n)
    ensures NeighboursSeen(g, Reached(s, u, v), w, n)
  {
  }

  lemma LayersGrow(s: Visit, queue: seq<nat>, u: nat, v: nat)
    requires u in s.dist && v !in s.dist && TwoLayers(s, queue, s.dist[u])
    ensures TwoLayers(Reached(s, u, v), queue + [v], s.dist[u])
  {
    var q, s' := queue + [v], Reached(s, u, v);
    forall i | 0 <= i < |q| ensures q[i] in s'.dist && s.dist[u] <= s'.dist[q[i]] {
      assert i < |queue| ==> q[i] == queue[i];
    }
  }

  lemma OthersStay(g: Graph, s: Visit, queue: seq<nat>, u: nat, v: nat)
    requires u in s.dist && v !in s.dist && forall w <- s.dist :: w == u || w in queue || Done(g, s, w)
    ensures forall w <- Reached(s, u, v).dist :: w == u || w in queue + [v] || Done(g, Reached(s, u, v), w)
  {
    forall w | w in Reached(s, u, v).dist ensures w == u || w in queue + [v] || Done(g, Reached(s, u, v), w) {
      if w != v && w != u && w !in queue {
        DoneStays(g, s, u, v, w, |g.adjs[w]|);
      }
    }
  }

  lemma SeenOneMore(g: Graph, s: Visit, u: nat, v: nat, n: nat)
    requires u in s.dist && v !in s.dist && u in g.adjs && n < |g.adjs[u]| && v == g.adjs[u][n] && NeighboursSeen(g, s, u, n)
    ensures NeighboursSeen(g, Reached(s, u, v), u, n + 1)
  {
  }

  /** A neighbour that is not the goal is put at the end of the queue. */
  lemma NewlyReached(g: Graph, from: nat, to: nat, s: Visit, queue: seq<nat>, next: nat, n: nat, v: nat)
    requires Front(g, from, to, s, queue, next, n) && n < |g.adjs[next]| && v == g.adjs[next][n]
    requires v !in s.dist && v != to
    ensures Front(g, from, to, Reached(s, next, v), queue + [v], next, n + 1)
  {
    hide Rooted, Done, TwoLayers, NeighboursSeen;
    Neighbour(g, next, n);
    ReachedRooted(g, from, s, next, v);
    SeenOneMore(g, s, next, v, n);
    OthersStay(g, s, queue, next, v);
    LayersGrow(s, queue, next, v);
  }

  /** The nodes still to be taken from the queue, now or later. */
  ghost function Left(g: Graph, s: Visit, queue: seq<nat>): nat {
    |g.adjs.Keys - s.dist.Keys| + |queue|
  }

  lemma LeftStays(g: Graph, s: Visit, queue: seq<nat>, u: nat, v: nat)
    requires u in s.dist && v in g.adjs && v !in s.dist
    ensures Left(g, Reached(s, u, v), queue + [v]) == Left(g, s, queue)
  {
    assert g.adjs.Keys - s.dist.Keys == (g.adjs.Keys - Reached(s, u, v).dist.Keys) + {v};
  }

  // What the layers say about walks

  lemma DoneStep(g: Graph, s: Visit, u: nat, v: nat)
    requires Done(g, s, u) && Step(g, u, v)
    ensures v in s.dist && s.dist[v] <= s.dist[u] + 1
  {
    var i :| 0 <= i < |g.adjs[u]| && g.adjs[u][i] == v;
  }

  lemma AtLeastLayer(s: Visit, queue: seq<nat>, next: nat, v: nat)
    requires next in s.dist && TwoLayers(s, queue, s.dist[next]) && v in s.dist && (v == next || v in queue)
    ensures s.dist[v] >= s.dist[next]
  {
  }

  /** No walk to a goal that is about to be reached is shorter than the backpointers' path. */
  lemma {:induction false} WalkLong(g: Graph, from: nat, to: nat, s: Visit, queue: seq<nat>, next: nat, n: nat, w: seq<nat>, k: nat)
    requires Front(g, from, to, s, queue, next, n) && Connects(g, from, to, w) && to !in s.dist && k < |w|
    ensures |w| >= s.dist[next] + 2 || (w[k] in s.dist && w[k] != next && w[k] !in queue && s.dist[w[k]] <= k)
  {
    hide GraphOk, PointsBack, TwoLayers, NeighboursSeen, Done;
    if k > 0 {
      WalkLong(g, from, to, s, queue, next, n, w, k - 1);
      if |w| < s.dist[next] + 2 {
        assert Step(g, w[k - 1], w[k]);
        DoneStep(g, s, w[k - 1], w[k]);
      }
    }
    if |w| < s.dist[next] + 2 && (w[k] == next || w[k] in queue) {
      AtLeastLayer(s, queue, next, w[k]);
    }
  }

  /** With an empty queue, what has not been visited cannot be reached. */
  lemma {:induction false} WalkVisited(g: Graph, from: nat, to: nat, s: Visit, w: seq<nat>, k: nat)
    requires Between(g, from, to, s, []) && IsWalk(g, w) && w[0] == from && k < |w|
    ensures w[k] in s.dist
  {
    hide GraphOk, PointsBack, TwoLayers, NeighboursSeen, Done;
    if k > 0 {
      WalkVisited(g, from, to, s, w, k - 1);
      assert Step(g, w[k - 1], w[k]) && w[k - 1] !in [];
      DoneStep(g, s, w[k - 1], w[k]);
    }
  }

  lemma EmptyMeansUnreachable(g: Graph, from: nat, to: nat, s: Visit)
    requires Between(g, from, to, s, []) && from != to
    ensures Unreachable(g, from, to)
  {
    forall w | Connects(g, from, to, w) ensures false {
      WalkVisited(g, from, to, s, w, |w| - 1);
    }
  }

  // The path back

  /** A path along backpointers, as it is built from its end: layer by layer, so no node comes twice. */
  ghost predicate BackPath(g: Graph, s: Visit, to: nat, p: seq<nat>) {
    && p != [] && p[0] in s.dist && p[|p| - 1] == to && IsWalk(g, p)
    && forall i :: 0 <= i < |p| ==> p[i] in s.dist && s.dist[p[i]] == s.dist[p[0]] + i
  }

  lemma TraceStarts(g: Graph, s: Visit, to: nat)
    requires to in s.dist
    ensures BackPath(g, s, to, [to])
  {
  }

  lemma TraceEnds(g: Graph, from: nat, s: Visit, v: nat)
    requires Rooted(g, from, s) && v in s.back
    ensures s.back[v].None? ==> v == from
  {
    assert PointsBack(g, from, s, v);
  }

  lemma BackStep(g: Graph, from: nat, s: Visit, to: nat, p: seq<nat>)
    requires Rooted(g, from, s) && BackPath(g, s, to, p) && s.back[p[0]].Some?
    ensures var u := s.back[p[0]].value;
      u !in p && BackPath(g, s, to, [u] + p) && u in s.back && u in s.dist && p[0] in s.dist && s.dist[u] < s.dist[p[0]]
  {
    var u := s.back[p[0]].value;
    assert PointsBack(g, from, s, p[0]);
    var q := [u] + p;
    forall i | 0 <= i < |q| - 1 ensures Step(g, q[i], q[i + 1]) {
      if i > 0 {
        assert Step(g, p[i - 1], p[i]);
      }
    }
    forall i | 0 <= i < |q| ensures q[i] in s.dist && s.dist[q[i]] == s.dist[q[0]] + i {
      assert i > 0 ==> q[i] == p[i - 1];
    }
  }

  /** The goal has been reached from `next`, for the first time. */
  ghost predicate GoalReached(g: Graph, from: nat, to: nat, s: Visit) {
    exists s0, queue, next, n ::
      Front(g, from, to, s0, queue, next, n) && to !in s0.dist && Step(g, next, to) && s == Reached(s0, next, to)
  }

  lemma ReachedIsRooted(g: Graph, from: nat, to: nat, s: Visit)
    requires GoalReached(g, from, to, s)
    ensures Rooted(g, from, s) && to in s.dist && to in s.back && from != to
  {
    var s0, queue, next, n :|
      Front(g, from, to, s0, queue, next, n) && to !in s0.dist && Step(g, next, to) && s == Reached(s0, next, to);
    ReachedRooted(g, from, s0, next, to);
  }

  lemma GoalWalkLong(g: Graph, from: nat, to: nat, s: Visit, w: seq<nat>)
    requires GoalReached(g, from, to, s) && Connects(g, from, to, w)
    ensures to in s.dist && |w| >= s.dist[to] + 1
  {
    var s0, queue, next, n :|
      Front(g, from, to, s0, queue, next, n) && to !in s0.dist && Step(g, next, to) && s == Reached(s0, next, to);
    WalkLong(g, from, to, s0, queue, next, n, w, |w| - 1);
  }

  lemma BackPathIsSimple(g: Graph, s: Visit, to: nat, p: seq<nat>)
    requires BackPath(g, s, to, p)
    ensures Simple(p) && to in s.dist && s.dist[to] == s.dist[p[0]] + |p| - 1
  {
    forall i, j | 0 <= i < j < |p| ensures p[i] != p[j] {
      assert s.dist[p[i]] != s.dist[p[j]];
    }
  }

  /** The finished path is as short as any. */
  lemma BackPathIsShortest(g: Graph, from: nat, to: nat, s: Visit, p: seq<nat>)
    requires GoalReached(g, from, to, s) && BackPath(g, s, to, p) && p[0] == from
    ensures IsShortest(g, from, to, p)
  {
    ReachedIsRooted(g, from, to, s);
    BackPathIsSimple(g, s, to, p);
    hide GoalReached, PointsBack;
    forall w | Connects(g, from, to, w) ensures |p| <= |w| {
      GoalWalkLong(g, from, to, s, w);
    }
  }
}
