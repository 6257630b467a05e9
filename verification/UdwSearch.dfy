/** Weighted graphs and the state of a best-first search over them: graphs/udw_graph/udw_graph.c. */
module UdwSearch {
  import opened Common

  datatype Edge = Edge(adj: nat, weight: int)

  type Path = seq<Edge>

  /** A node is known by the rank of its data; its edges are in the order of the adjacency tree. */
  datatype Graph = Graph(adjs: map<nat, seq<Edge>>)

  ghost predicate GraphOk(g: Graph) {
    forall u <- g.adjs :: forall e <- g.adjs[u] :: e.adj in g.adjs
  }

  ghost predicate NonNegative(g: Graph) {
    forall u <- g.adjs :: forall e <- g.adjs[u] :: e.weight >= 0
  }

  ghost predicate Positive(g: Graph) {
    forall u <- g.adjs :: forall e <- g.adjs[u] :: e.weight > 0
  }

  function Len(p: Path): int {
    if p == [] then 0 else Len(p[..|p| - 1]) + p[|p| - 1].weight
  }

  function End(from: nat, p: Path): nat {
    if p == [] then from else p[|p| - 1].adj
  }

  /** The edges lead from node to node, starting at `from`. */
  ghost predicate IsWalk(g: Graph, from: nat, p: Path) {
    && from in g.adjs
    && (p != [] ==>
          var q := p[..|p| - 1];
          IsWalk(g, from, q) && End(from, q) in g.adjs && p[|p| - 1] in g.adjs[End(from, q)])
  }

  /** A walk with at least one edge. */
  ghost predicate Connects(g: Graph, from: nat, to: nat, p: Path) {
    p != [] && IsWalk(g, from, p) && End(from, p) == to
  }

  ghost predicate Avoids(p: Path, to: nat) {
    forall e <- p :: e.adj != to
  }

  ghost predicate Meets(p: Path, u: nat) {
    exists e <- p :: e.adj == u
  }

  lemma {:induction false} PrefixWalk(g: Graph, from: nat, p: Path, n: nat)
    requires IsWalk(g, from, p) && n <= |p|
    ensures IsWalk(g, from, p[..n])
    ensures n < |p| ==> End(from, p[..n]) in g.adjs && p[n] in g.adjs[End(from, p[..n])]
    decreases |p|
  {
    if n < |p| {
      var q := p[..|p| - 1];
      PrefixWalk(g, from, q, n);
      assert q[..n] == p[..n];
    } else {
      assert p[..n] == p;
    }
  }

  lemma {:induction false} PrefixLen(g: Graph, from: nat, p: Path, n: nat)
    requires NonNegative(g) && IsWalk(g, from, p) && n <= |p|
    ensures Len(p[..n]) <= Len(p)
    decreases |p|
  {
    if n < |p| {
      var q := p[..|p| - 1];
      PrefixLen(g, from, q, n);
      assert q[..n] == p[..n];
    } else {
      assert p[..n] == p;
    }
  }

  lemma Extended(g: Graph, from: nat, p: Path, e: Edge)
    requires IsWalk(g, from, p) && End(from, p) in g.adjs && e in g.adjs[End(from, p)]
    ensures IsWalk(g, from, p + [e]) && Len(p + [e]) == Len(p) + e.weight && End(from, p + [e]) == e.adj
  {
    assert (p + [e])[..|p|] == p;
  }

  // The search

  /** Queued paths, the path on which each visited node was first reached, and the best path to the goal. */
  datatype Search = Search(q: multiset<Path>, tree: map<nat, Path>, best: Option<Path>)

  /** What is true whatever the weights are. A queued path leads past visited nodes, on the paths on which
      they were first reached. */
  ghost predicate Walks(g: Graph, from: nat, to: nat, s: Search) {
    && (forall p <- s.q :: QueuedOk(g, from, to, s.tree, p))
    && (forall u <- s.tree :: Connects(g, from, u, s.tree[u]) && Avoids(s.tree[u], to))
    && (s.best.Some? ==> Connects(g, from, to, s.best.value))
  }

  ghost predicate QueuedOk(g: Graph, from: nat, to: nat, tree: map<nat, Path>, p: Path) {
    && p != [] && IsWalk(g, from, p) && Avoids(p, to)
    && (forall i :: 0 <= i < |p| - 1 ==> p[i].adj in tree && tree[p[i].adj] == p[..i + 1] && p[i].adj != p[|p| - 1].adj)
  }

  /** An edge that leaves a node at distance `d` has been followed: its end is visited at no greater
      distance, or queued, or is the goal and no better path to it is known than this. */
  ghost predicate Covered(s: Search, from: nat, to: nat, d: int, e: Edge) {
    if e.adj == to then s.best.Some? && Len(s.best.value) <= d + e.weight
    else Reached(s, from, e.adj, d + e.weight)
  }

  ghost predicate Reached(s: Search, from: nat, u: nat, d: int) {
    (u in s.tree && Len(s.tree[u]) <= d) || exists p <- s.q :: End(from, p) == u && Len(p) <= d
  }

  /** No walk to the goal is shorter than `d`, and if all weights are positive, every one is longer. */
  ghost predicate NotFar(g: Graph, from: nat, to: nat, d: int) {
    forall w | Connects(g, from, to, w) :: d <= Len(w) && (Positive(g) ==> d < Len(w))
  }

  /** The path that an edge makes of the path `p`: it was not worth queueing, or it is queued, or it was
      taken from the queue before the goal's own distance. */
  ghost predicate Tried(g: Graph, from: nat, to: nat, s: Search, p: Path, e: Edge) {
    e.adj == to || Meets(p, e.adj) || p + [e] in s.q || NotFar(g, from, to, Len(p) + e.weight)
  }

  ghost predicate Followed(g: Graph, from: nat, to: nat, s: Search, p: Path, e: Edge) {
    Covered(s, from, to, Len(p), e) && Tried(g, from, to, s, p, e)
  }

  /** All edges of node `u`, reached on the path `p`, have been followed. */
  ghost predicate AllFollowed(g: Graph, from: nat, to: nat, s: Search, u: nat, p: Path)
    requires u in g.adjs
  {
    forall e <- g.adjs[u] :: Followed(g, from, to, s, p, e)
  }

  /** What non-negative weights give: nodes are visited in the order of their distance. */
  ghost predicate InOrder(g: Graph, s: Search) {
    && (forall u <- s.tree :: forall p <- s.q :: Len(s.tree[u]) <= Len(p))
    && (s.best.Some? ==> forall u <- s.tree :: Len(s.tree[u]) <= Len(s.best.value))
  }

  /** Every edge leaving the start or a visited node is covered. */
  ghost predicate Settled(g: Graph, from: nat, to: nat, s: Search) {
    && from in g.adjs && AllFollowed(g, from, to, s, from, [])
    && forall u <- s.tree :: u in g.adjs && AllFollowed(g, from, to, s, u, s.tree[u])
  }

  /** Where a walk to the goal stands against the search: either the best path is no longer than it, or a
      path still queued is. */
  lemma {:induction false} WalkBounded(g: Graph, from: nat, to: nat, s: Search, w: Path, n: nat, bound: int)
    requires NonNegative(g) && Settled(g, from, to, s) && IsWalk(g, from, w) && n <= |w|
    requires s.best.Some? ==> Len(s.best.value) >= bound
    requires forall p <- s.q :: Len(p) >= bound
    ensures Len(w) < bound && n > 0 ==>
      End(from, w[..n]) in s.tree && Len(s.tree[End(from, w[..n])]) <= Len(w[..n])
  {
    if n > 0 {
      WalkBounded(g, from, to, s, w, n - 1, bound);
      PrefixWalk(g, from, w, n - 1);
      PrefixLen(g, from, w, n);
      assert w[..n][..n - 1] == w[..n - 1];
      var u, e := End(from, w[..n - 1]), w[n - 1];
      if Len(w) < bound {
        assert Followed(g, from, to, s, if n == 1 then [] else s.tree[u], e);
      }
    }
  }

  /** No walk to the goal is shorter than the best path, once every queued path is at least as long. */
  lemma BestIsShortest(g: Graph, from: nat, to: nat, s: Search, w: Path)
    requires NonNegative(g) && Settled(g, from, to, s) && s.best.Some? && Connects(g, from, to, w)
    requires to !in s.tree
    requires forall p <- s.q :: Len(p) >= Len(s.best.value)
    ensures Len(s.best.value) <= Len(w)
  {
    WalkBounded(g, from, to, s, w, |w|, Len(s.best.value));
    assert w[..|w|] == w;
  }

  // One step of the search: the edges of the node at the end of path `p` are being followed

  /** Every node on the path was first reached on it. */
  ghost predicate OnTree(tree: map<nat, Path>, p: Path) {
    forall i :: 0 <= i < |p| ==> p[i].adj in tree && tree[p[i].adj] == p[..i + 1]
  }

  ghost predicate Expanding(g: Graph, from: nat, to: nat, s: Search, p: Path) {
    && Walks(g, from, to, s) && IsWalk(g, from, p) && Avoids(p, to) && OnTree(s.tree, p) && End(from, p) in g.adjs
    && (NonNegative(g) ==> InOrder(g, s) && forall u <- s.tree :: Len(s.tree[u]) <= Len(p))
  }

  /** All that was to be followed has been, but for the edges of the last node from number `n` on. */
  ghost predicate SettledBut(g: Graph, from: nat, to: nat, s: Search, p: Path, n: nat)
    requires End(from, p) in g.adjs
  {
    && from in g.adjs && (p != [] ==> AllFollowed(g, from, to, s, from, []))
    && (forall u <- s.tree :: u in g.adjs && (p == [] || u != End(from, p) ==> AllFollowed(g, from, to, s, u, s.tree[u])))
    && var edges := g.adjs[End(from, p)];
       n <= |edges| && forall i :: 0 <= i < n ==> Followed(g, from, to, s, p, edges[i])
  }

  lemma ExpandedIsSettled(g: Graph, from: nat, to: nat, s: Search, p: Path)
    requires Expanding(g, from, to, s, p) && SettledBut(g, from, to, s, p, |g.adjs[End(from, p)]|)
    ensures Settled(g, from, to, s)
  {
    var x := End(from, p);
    assert AllFollowed(g, from, to, s, x, p) by {
      forall e | e in g.adjs[x] ensures Followed(g, from, to, s, p, e) {
        var i :| 0 <= i < |g.adjs[x]| && g.adjs[x][i] == e;
      }
    }
    if p != [] {
      assert p[..|p| - 1 + 1] == p;
    }
  }

  ghost predicate Grown(s: Search, s': Search) {
    && s.q <= s'.q && s'.tree == s.tree
    && (s.best.Some? ==> s'.best.Some? && Len(s'.best.value) <= Len(s.best.value))
  }

  /** What is covered stays covered while paths are queued and the best path gets better. */
  lemma CoveredKept(s: Search, s': Search, from: nat, to: nat, d: int, e: Edge)
    requires Covered(s, from, to, d, e) && Grown(s, s')
    ensures Covered(s', from, to, d, e)
  {
    if e.adj != to && !(e.adj in s.tree && Len(s.tree[e.adj]) <= d + e.weight) {
      var p :| p in s.q && End(from, p) == e.adj && Len(p) <= d + e.weight;
      assert p in s'.q;
    }
  }

  lemma FollowedKept(g: Graph, s: Search, s': Search, from: nat, to: nat, p: Path, e: Edge)
    requires Followed(g, from, to, s, p, e) && Grown(s, s')
    ensures Followed(g, from, to, s', p, e)
  {
    CoveredKept(s, s', from, to, Len(p), e);
  }

  lemma AllFollowedKept(g: Graph, s: Search, s': Search, from: nat, to: nat, u: nat, p: Path)
    requires u in g.adjs && AllFollowed(g, from, to, s, u, p) && Grown(s, s')
    ensures AllFollowed(g, from, to, s', u, p)
  {
    forall e | e in g.adjs[u] ensures Followed(g, from, to, s', p, e) {
      FollowedKept(g, s, s', from, to, p, e);
    }
  }

  /** Following one more edge. */
  lemma EdgeFollowed(g: Graph, from: nat, to: nat, s: Search, s': Search, p: Path, n: nat)
    requires End(from, p) in g.adjs && n < |g.adjs[End(from, p)]| && SettledBut(g, from, to, s, p, n) && Grown(s, s')
    requires Followed(g, from, to, s', p, g.adjs[End(from, p)][n])
    ensures SettledBut(g, from, to, s', p, n + 1)
  {
    if p != [] {
      AllFollowedKept(g, s, s', from, to, from, []);
    }
    forall u | u in s.tree && (p == [] || u != End(from, p)) ensures AllFollowed(g, from, to, s', u, s.tree[u]) {
      AllFollowedKept(g, s, s', from, to, u, s.tree[u]);
    }
    var edges := g.adjs[End(from, p)];
    forall i | 0 <= i < n + 1 ensures Followed(g, from, to, s', p, edges[i]) {
      if i < n {
        FollowedKept(g, s, s', from, to, p, edges[i]);
      }
    }
  }

  /** An edge back to a node on the path need not be followed: that node was reached before. */
  lemma BackEdgeCovered(g: Graph, from: nat, to: nat, s: Search, p: Path, k: nat, e: Edge)
    requires NonNegative(g) && Expanding(g, from, to, s, p) && k < |p| && p[k].adj == e.adj && e in g.adjs[End(from, p)]
    ensures Followed(g, from, to, s, p, e)
  {
    PrefixLen(g, from, p, k + 1);
    assert p[k] in p;
  }

  /** An edge to the goal. */
  lemma GoalEdge(g: Graph, from: nat, to: nat, s: Search, p: Path, e: Edge, best: Option<Path>)
    requires Expanding(g, from, to, s, p) && e in g.adjs[End(from, p)] && e.adj == to
    requires best == if s.best == None || Len(p + [e]) < Len(s.best.value) then Some(p + [e]) else s.best
    ensures Expanding(g, from, to, s.(best := best), p)
    ensures Grown(s, s.(best := best)) && Followed(g, from, to, s.(best := best), p, e)
  {
    Extended(g, from, p, e);
  }

  lemma LongerQueued(g: Graph, from: nat, to: nat, tree: map<nat, Path>, p: Path, e: Edge)
    requires IsWalk(g, from, p) && Avoids(p, to) && OnTree(tree, p) && End(from, p) in g.adjs
    requires e in g.adjs[End(from, p)] && e.adj != to && forall x <- p :: x.adj != e.adj
    ensures QueuedOk(g, from, to, tree, p + [e])
  {
    var np := p + [e];
    Extended(g, from, p, e);
    forall i | 0 <= i < |np| - 1 ensures np[i].adj in tree && tree[np[i].adj] == np[..i + 1] && np[i].adj != e.adj {
      assert np[..i + 1] == p[..i + 1] && np[i] == p[i] && p[i] in p;
    }
  }

  /** An edge to another node: a longer path is queued. */
  lemma PathQueued(g: Graph, from: nat, to: nat, s: Search, p: Path, e: Edge)
    requires Expanding(g, from, to, s, p) && e in g.adjs[End(from, p)] && e.adj != to && forall x <- p :: x.adj != e.adj
    ensures var s' := s.(q := s.q + multiset{p + [e]});
      Expanding(g, from, to, s', p) && Grown(s, s') && Followed(g, from, to, s', p, e)
  {
    hide OnTree, Avoids, IsWalk, Connects, QueuedOk;
    var s', np := s.(q := s.q + multiset{p + [e]}), p + [e];
    Extended(g, from, p, e);
    LongerQueued(g, from, to, s.tree, p, e);
    assert np in s'.q;
    assert forall p' <- s'.q :: p' == np || p' in s.q;
  }

  /** The state when `n` edges of the last node of `p` have been followed. */
  ghost predicate Following(g: Graph, from: nat, to: nat, s: Search, p: Path, n: nat) {
    && Expanding(g, from, to, s, p) && n <= |g.adjs[End(from, p)]|
    && (NonNegative(g) ==> SettledBut(g, from, to, s, p, n))
  }

  /** An edge back to a node on the path is passed over. */
  lemma BackEdgePassed(g: Graph, from: nat, to: nat, s: Search, p: Path, n: nat, k: nat)
    requires Following(g, from, to, s, p, n) && n < |g.adjs[End(from, p)]|
    requires k < |p| && p[k].adj == g.adjs[End(from, p)][n].adj
    ensures Following(g, from, to, s, p, n + 1)
  {
    hide Walks, InOrder, SettledBut, Followed;
    if NonNegative(g) {
      BackEdgeCovered(g, from, to, s, p, k, g.adjs[End(from, p)][n]);
      EdgeFollowed(g, from, to, s, s, p, n);
    }
  }

  lemma GoalEdgeFollowed(g: Graph, from: nat, to: nat, s: Search, p: Path, n: nat, best: Option<Path>)
    requires Following(g, from, to, s, p, n) && n < |g.adjs[End(from, p)]| && g.adjs[End(from, p)][n].adj == to
    requires var np := p + [g.adjs[End(from, p)][n]];
      best == if s.best == None || Len(np) < Len(s.best.value) then Some(np) else s.best
    ensures Following(g, from, to, s.(best := best), p, n + 1)
  {
    hide Walks, InOrder, SettledBut, Followed, Grown;
    GoalEdge(g, from, to, s, p, g.adjs[End(from, p)][n], best);
    if NonNegative(g) {
      EdgeFollowed(g, from, to, s, s.(best := best), p, n);
    }
  }

  lemma OtherEdgeFollowed(g: Graph, from: nat, to: nat, s: Search, p: Path, n: nat)
    requires Following(g, from, to, s, p, n) && n < |g.adjs[End(from, p)]|
    requires var e := g.adjs[End(from, p)][n]; e.adj != to && forall x <- p :: x.adj != e.adj
    ensures Following(g, from, to, s.(q := s.q + multiset{p + [g.adjs[End(from, p)][n]]}), p, n + 1)
  {
    hide Walks, InOrder, SettledBut, Followed, Grown;
    var e := g.adjs[End(from, p)][n];
    PathQueued(g, from, to, s, p, e);
    if NonNegative(g) {
      EdgeFollowed(g, from, to, s, s.(q := s.q + multiset{p + [e]}), p, n);
    }
  }

  lemma StartOk(g: Graph, from: nat, to: nat)
    requires from in g.adjs
    ensures Following(g, from, to, Search(multiset{}, map[], None), [], 0)
  {
  }

  // Taking a path from the queue

  /** The invariant of the search loop. */
  ghost predicate Searching(g: Graph, from: nat, to: nat, s: Search) {
    Walks(g, from, to, s) && s.tree.Keys <= g.adjs.Keys && (NonNegative(g) ==> InOrder(g, s) && Settled(g, from, to, s))
  }

  lemma StartIsSearching(g: Graph, from: nat, to: nat, s: Search)
    requires Walks(g, from, to, s) && s.tree == map[] && (NonNegative(g) ==> InOrder(g, s) && Settled(g, from, to, s))
    ensures Searching(g, from, to, s)
  {
  }

  ghost predicate IsNext(s: Search, p: Path) {
    p in s.q && forall p' <- s.q :: Len(p) <= Len(p')
  }

  ghost function Popped(s: Search, p: Path): Search {
    s.(q := s.q - multiset{p})
  }

  /** The node is marked as reached on the path that was taken. */
  ghost function Marked(s: Search, from: nat, p: Path): Search {
    s.(q := s.q - multiset{p}, tree := s.tree[End(from, p) := p])
  }

  lemma {:induction false} PopCovered(s: Search, s': Search, from: nat, to: nat, p: Path, d: int, e: Edge)
    requires Covered(s, from, to, d, e) && s'.best == s.best && s'.q == s.q - multiset{p}
    requires forall u <- s.tree :: u in s'.tree && s'.tree[u] == s.tree[u]
    requires End(from, p) in s'.tree && Len(s'.tree[End(from, p)]) <= Len(p)
    ensures Covered(s', from, to, d, e)
  {
    if e.adj != to && !(e.adj in s.tree && Len(s.tree[e.adj]) <= d + e.weight) {
      var p' :| p' in s.q && End(from, p') == e.adj && Len(p') <= d + e.weight;
      assert p' != p ==> p' in s'.q;
    }
  }

  lemma PopFollowed(g: Graph, s: Search, s': Search, from: nat, to: nat, p: Path, q: Path, e: Edge)
    requires Followed(g, from, to, s, q, e) && s'.best == s.best && s'.q == s.q - multiset{p}
    requires forall v <- s.tree :: v in s'.tree && s'.tree[v] == s.tree[v]
    requires End(from, p) in s'.tree && Len(s'.tree[End(from, p)]) <= Len(p) && NotFar(g, from, to, Len(p))
    ensures Followed(g, from, to, s', q, e)
  {
    hide Meets, NotFar, Covered;
    PopCovered(s, s', from, to, p, Len(q), e);
    if q + [e] in s.q && q + [e] !in s'.q {
      assert q + [e] == p && p[..|p| - 1] == q;
    }
  }

  lemma PopAllFollowed(g: Graph, s: Search, s': Search, from: nat, to: nat, p: Path, u: nat, q: Path)
    requires u in g.adjs && AllFollowed(g, from, to, s, u, q) && s'.best == s.best && s'.q == s.q - multiset{p}
    requires forall v <- s.tree :: v in s'.tree && s'.tree[v] == s.tree[v]
    requires End(from, p) in s'.tree && Len(s'.tree[End(from, p)]) <= Len(p) && NotFar(g, from, to, Len(p))
    ensures AllFollowed(g, from, to, s', u, q)
  {
    forall e | e in g.adjs[u] ensures Followed(g, from, to, s', q, e) {
      PopFollowed(g, s, s', from, to, p, q, e);
    }
  }

  /** A path that does not end the search is no longer than any walk to the goal. */
  lemma NextIsNotFar(g: Graph, from: nat, to: nat, s: Search, p: Path)
    requires NonNegative(g) && Searching(g, from, to, s) && IsNext(s, p) && (s.best.Some? ==> Len(p) < Len(s.best.value))
    ensures NotFar(g, from, to, Len(p))
  {
    GoalNotReached(g, from, to, s);
    forall w | Connects(g, from, to, w) ensures Len(p) <= Len(w) && (Positive(g) ==> Len(p) < Len(w)) {
      WalkBounded(g, from, to, s, w, |w|, Len(p));
      assert w[..|w|] == w;
      if Positive(g) {
        LastEdgeBounded(g, from, to, s, w, Len(p));
      }
    }
  }

  lemma LastEdgeBounded(g: Graph, from: nat, to: nat, s: Search, w: Path, bound: int)
    requires NonNegative(g) && Positive(g) && Settled(g, from, to, s) && Connects(g, from, to, w)
    requires s.best.Some? ==> Len(s.best.value) > bound
    requires forall p <- s.q :: Len(p) >= bound
    ensures Len(w) > bound
  {
    var q, e := w[..|w| - 1], w[|w| - 1];
    WalkBounded(g, from, to, s, q, |q|, bound);
    assert q[..|q|] == q;
    assert Len(q) < bound ==> Followed(g, from, to, s, if q == [] then [] else s.tree[End(from, q)], e);
  }

  lemma QueuedIsPath(g: Graph, from: nat, to: nat, s: Search, p: Path)
    requires GraphOk(g) && Searching(g, from, to, s) && IsNext(s, p)
    ensures p != [] && End(from, p) in g.adjs
  {
    assert QueuedOk(g, from, to, s.tree, p);
    EndIsNode(g, from, p);
  }

  /** A path to a node that was reached before is dropped. */
  lemma DropPath(g: Graph, from: nat, to: nat, s: Search, p: Path)
    requires Searching(g, from, to, s) && IsNext(s, p) && End(from, p) in s.tree
    requires s.best.Some? ==> Len(p) < Len(s.best.value)
    ensures Searching(g, from, to, Popped(s, p))
  {
    var s' := Popped(s, p);
    assert forall p' <- s'.q :: p' in s.q;
    if NonNegative(g) {
      NextIsNotFar(g, from, to, s, p);
      PopAllFollowed(g, s, s', from, to, p, from, []);
      forall u | u in s.tree ensures u in g.adjs && AllFollowed(g, from, to, s', u, s.tree[u]) {
        PopAllFollowed(g, s, s', from, to, p, u, s.tree[u]);
      }
    }
  }

  /** The first path to a node: the node is reached, and its edges are to be followed. */
  lemma TakePath(g: Graph, from: nat, to: nat, s: Search, p: Path)
    requires GraphOk(g) && Searching(g, from, to, s) && IsNext(s, p) && End(from, p) !in s.tree
    requires s.best.Some? ==> Len(p) < Len(s.best.value)
    ensures Following(g, from, to, Marked(s, from, p), p, 0)
  {
    hide Walks, Settled, SettledBut, InOrder, OnTree, IsWalk, Avoids;
    MarkedTree(g, from, to, s, p);
    EndIsNode(g, from, p);
    MarkedWalks(g, from, to, s, p);
    if NonNegative(g) {
      NextIsNotFar(g, from, to, s, p);
      MarkedSettled(g, from, to, s, p);
      MarkedOrder(g, from, s, p);
    }
  }

  lemma MarkedOrder(g: Graph, from: nat, s: Search, p: Path)
    requires InOrder(g, s) && IsNext(s, p) && (s.best.Some? ==> Len(p) < Len(s.best.value))
    ensures InOrder(g, Marked(s, from, p)) && forall u <- Marked(s, from, p).tree :: Len(Marked(s, from, p).tree[u]) <= Len(p)
  {
    var s' := Marked(s, from, p);
    assert forall p' <- s'.q :: p' in s.q;
  }

  lemma MarkedTree(g: Graph, from: nat, to: nat, s: Search, p: Path)
    requires Walks(g, from, to, s) && p in s.q && End(from, p) !in s.tree
    ensures p != [] && IsWalk(g, from, p) && Avoids(p, to) && OnTree(Marked(s, from, p).tree, p)
  {
    assert QueuedOk(g, from, to, s.tree, p);
    assert p[..|p| - 1 + 1] == p;
  }

  lemma MarkedSettled(g: Graph, from: nat, to: nat, s: Search, p: Path)
    requires Settled(g, from, to, s) && End(from, p) !in s.tree && p != [] && End(from, p) in g.adjs
    requires NotFar(g, from, to, Len(p))
    ensures SettledBut(g, from, to, Marked(s, from, p), p, 0)
  {
    var s' := Marked(s, from, p);
    PopAllFollowed(g, s, s', from, to, p, from, []);
    forall u | u in s.tree ensures u in g.adjs && AllFollowed(g, from, to, s', u, s.tree[u]) {
      PopAllFollowed(g, s, s', from, to, p, u, s.tree[u]);
    }
  }

  lemma EndIsNode(g: Graph, from: nat, p: Path)
    requires GraphOk(g) && IsWalk(g, from, p)
    ensures End(from, p) in g.adjs
  {
    if p != [] {
      var u := End(from, p[..|p| - 1]);
      assert p[|p| - 1] in g.adjs[u];
    }
  }

  lemma MarkedWalks(g: Graph, from: nat, to: nat, s: Search, p: Path)
    requires Walks(g, from, to, s) && p in s.q && End(from, p) !in s.tree
    ensures Walks(g, from, to, Marked(s, from, p))
  {
    var s' := Marked(s, from, p);
    forall p' | p' in s'.q ensures QueuedOk(g, from, to, s'.tree, p') {
      assert p' in s.q;
      assert QueuedOk(g, from, to, s.tree, p');
    }
    assert QueuedOk(g, from, to, s.tree, p);
  }

  // Results

  /** A walk to the goal no longer than any other. */
  ghost predicate IsShortest(g: Graph, from: nat, to: nat, p: Path) {
    Connects(g, from, to, p) && forall w | Connects(g, from, to, w) :: Len(p) <= Len(w)
  }

  lemma StopIsShortest(g: Graph, from: nat, to: nat, s: Search, p: Path)
    requires Searching(g, from, to, s) && IsNext(s, p) && s.best.Some? && Len(p) >= Len(s.best.value)
    ensures Connects(g, from, to, s.best.value) && (NonNegative(g) ==> IsShortest(g, from, to, s.best.value))
  {
    GoalNotReached(g, from, to, s);
    if NonNegative(g) {
      forall w | Connects(g, from, to, w) ensures Len(s.best.value) <= Len(w) {
        BestIsShortest(g, from, to, s, w);
      }
    }
  }

  lemma GoalNotReached(g: Graph, from: nat, to: nat, s: Search)
    requires Walks(g, from, to, s)
    ensures to !in s.tree
  {
    forall u | u in s.tree ensures u != to {
      var p := s.tree[u];
      assert p[|p| - 1] in p;
    }
  }

  /** The path leads to no node twice. */
  ghost predicate Simple(p: Path) {
    forall i, j :: 0 <= i < j < |p| ==> p[i].adj != p[j].adj
  }

  /** A path that leads to no node twice and not to the goal is at least as long as some path to the goal. */
  ghost predicate DetourExists(g: Graph, from: nat, to: nat, best: Path) {
    exists p :: p != [] && IsWalk(g, from, p) && Avoids(p, to) && Simple(p) && Len(p) >= Len(best)
  }

  /** The search only stops early on such a path. */
  lemma StopShowsDetour(g: Graph, from: nat, to: nat, s: Search, p: Path)
    requires Searching(g, from, to, s) && IsNext(s, p) && s.best.Some? && Len(p) >= Len(s.best.value)
    ensures DetourExists(g, from, to, s.best.value)
  {
    assert QueuedOk(g, from, to, s.tree, p);
    forall i, j | 0 <= i < j < |p| ensures p[i].adj != p[j].adj {
      if j < |p| - 1 {
        assert |s.tree[p[i].adj]| == i + 1 && |s.tree[p[j].adj]| == j + 1;
      }
    }
  }

  // When the search ends before its queue runs dry

  /** The start, or a shortest walk to some node. */
  ghost predicate Nearest(g: Graph, from: nat, q: Path) {
    IsWalk(g, from, q) && (q == [] || IsShortest(g, from, End(from, q), q))
  }

  /** An edge that leads from a nearest path past the goal, to a point at least `d` away. */
  ghost predicate Detour(g: Graph, from: nat, to: nat, q: Path, e: Edge, d: int) {
    && Nearest(g, from, q) && Avoids(q, to) && End(from, q) in g.adjs && e in g.adjs[End(from, q)]
    && e.adj != to && !Meets(q, e.adj) && Len(q) <= d <= Len(q) + e.weight
  }

  /** The same whichever of the shortest walks to the node is taken. */
  ghost predicate SureDetour(g: Graph, from: nat, to: nat, q: Path, e: Edge, d: int) {
    Detour(g, from, to, q, e, d) &&
    (q != [] ==> forall q' | IsShortest(g, from, End(from, q), q') :: !Meets(q', e.adj))
  }

  ghost predicate SomeDetour(g: Graph, from: nat, to: nat) {
    exists w, q, e :: IsShortest(g, from, to, w) && Detour(g, from, to, q, e, Len(w))
  }

  /** A sure detour past the goal at the end of `w`. With weights of zero it must lead beyond the goal. */
  ghost predicate PassesGoal(g: Graph, from: nat, to: nat, w: Path, q: Path, e: Edge) {
    && IsShortest(g, from, to, w) && SureDetour(g, from, to, q, e, Len(w))
    && (Positive(g) || Len(w) < Len(q) + e.weight)
  }

  ghost predicate SomeSureDetour(g: Graph, from: nat, to: nat) {
    exists w, q, e :: PassesGoal(g, from, to, w, q, e)
  }

  /** No two shortest walks lead to the same node. */
  ghost predicate UniqueWays(g: Graph, from: nat) {
    forall u, p, q | IsShortest(g, from, u, p) && IsShortest(g, from, u, q) :: p == q
  }

  /** The two conditions are apart only if a node has two shortest walks to it. */
  lemma SureIfUnique(g: Graph, from: nat, to: nat)
    requires UniqueWays(g, from) && Positive(g)
    ensures SomeDetour(g, from, to) <==> SomeSureDetour(g, from, to)
  {
    hide IsShortest, Avoids, Meets;
    if SomeDetour(g, from, to) {
      var w, q, e :| IsShortest(g, from, to, w) && Detour(g, from, to, q, e, Len(w));
      assert PassesGoal(g, from, to, w, q, e);
    }
  }

  /** A visited node was reached on a shortest walk, if what is still queued is no shorter than the best path. */
  lemma TreeIsNearest(g: Graph, from: nat, to: nat, s: Search, u: nat)
    requires NonNegative(g) && Searching(g, from, to, s) && u in s.tree
    requires s.q != multiset{} ==> s.best.Some? && forall p <- s.q :: Len(p) >= Len(s.best.value)
    ensures IsShortest(g, from, u, s.tree[u])
  {
    GoalNotReached(g, from, to, s);
    forall w | Connects(g, from, u, w) ensures Len(s.tree[u]) <= Len(w) {
      WalkBounded(g, from, to, s, w, |w|, if s.best.Some? then Len(s.best.value) else Len(w) + 1);
      assert w[..|w|] == w;
    }
  }

  /** The search ends early only at a detour. */
  lemma StopShowsPast(g: Graph, from: nat, to: nat, s: Search, p: Path)
    requires NonNegative(g) && Searching(g, from, to, s) && IsNext(s, p) && s.best.Some? && Len(p) >= Len(s.best.value)
    ensures SomeDetour(g, from, to)
  {
    StopIsShortest(g, from, to, s, p);
    hide IsShortest;
    QueuedParts(g, from, to, s.tree, p);
    QueuedFromNearest(g, from, to, s, p[..|p| - 1]);
    assert Detour(g, from, to, p[..|p| - 1], p[|p| - 1], Len(s.best.value));
  }

  lemma QueuedFromNearest(g: Graph, from: nat, to: nat, s: Search, q: Path)
    requires NonNegative(g) && Searching(g, from, to, s) && s.best.Some? && IsWalk(g, from, q)
    requires forall p <- s.q :: Len(p) >= Len(s.best.value)
    requires q != [] ==> End(from, q) in s.tree && s.tree[End(from, q)] == q
    ensures Nearest(g, from, q) && Len(q) <= Len(s.best.value)
  {
    if q == [] {
      PrefixLen(g, from, s.best.value, 0);
      assert s.best.value[..0] == q;
    } else {
      TreeIsNearest(g, from, to, s, End(from, q));
    }
  }

  lemma QueuedParts(g: Graph, from: nat, to: nat, tree: map<nat, Path>, p: Path)
    requires QueuedOk(g, from, to, tree, p)
    ensures var q, e := p[..|p| - 1], p[|p| - 1];
      && IsWalk(g, from, q) && Avoids(q, to) && End(from, q) in g.adjs && e in g.adjs[End(from, q)]
      && e.adj != to && !Meets(q, e.adj) && Len(p) == Len(q) + e.weight
      && (q != [] ==> End(from, q) in tree && tree[End(from, q)] == q)
  {
    var q := p[..|p| - 1];
    assert p[|p| - 1] in p;
    if q != [] {
      assert p[..|p| - 2 + 1] == q && p[|p| - 2] == q[|q| - 1];
    }
  }

  /** If the queue runs dry, there is no detour for sure. */
  lemma DryMeansNone(g: Graph, from: nat, to: nat, s: Search)
    requires NonNegative(g) && Searching(g, from, to, s) && s.q == multiset{}
    ensures !SomeSureDetour(g, from, to)
  {
    forall w, q, e ensures !PassesGoal(g, from, to, w, q, e) {
      if IsShortest(g, from, to, w) && SureDetour(g, from, to, q, e, Len(w)) {
        DryPasses(g, from, to, s, w, q, e);
      }
    }
  }

  lemma DryPasses(g: Graph, from: nat, to: nat, s: Search, w: Path, q: Path, e: Edge)
    requires NonNegative(g) && Searching(g, from, to, s) && s.q == multiset{}
    requires Connects(g, from, to, w) && Nearest(g, from, q) && Avoids(q, to)
    requires End(from, q) in g.adjs && e in g.adjs[End(from, q)] && e.adj != to && !Meets(q, e.adj)
    requires q != [] ==> forall q' | IsShortest(g, from, End(from, q), q') :: !Meets(q', e.adj)
    ensures Len(q) + e.weight <= Len(w) && (Positive(g) ==> Len(q) + e.weight < Len(w))
  {
    var u := End(from, q);
    if q == [] {
      assert Followed(g, from, to, s, [], e);
    } else {
      DryReaches(g, from, to, s, q);
      TreeIsNearest(g, from, to, s, u);
      assert Followed(g, from, to, s, s.tree[u], e);
    }
  }

  /** No node reached without passing the goal lies farther away than the goal. */
  ghost predicate GoalFarthest(g: Graph, from: nat, to: nat) {
    forall w, p | Connects(g, from, to, w) && p != [] && IsWalk(g, from, p) && Avoids(p, to) ::
      exists p' :: Connects(g, from, End(from, p), p') && Len(p') <= Len(w)
  }

  /** When the queue has run dry, every node that can be reached without passing the goal has been, and if
      the goal can be reached at all, none lies farther away. */
  lemma DryMeansFarthest(g: Graph, from: nat, to: nat, s: Search)
    requires NonNegative(g) && Searching(g, from, to, s) && s.q == multiset{}
    ensures GoalFarthest(g, from, to)
  {
    forall w, p | Connects(g, from, to, w) && p != [] && IsWalk(g, from, p) && Avoids(p, to)
      ensures exists p' :: Connects(g, from, End(from, p), p') && Len(p') <= Len(w)
    {
      GoalNotReached(g, from, to, s);
      DryReaches(g, from, to, s, p);
      DryFindsGoal(g, from, to, s, w);
      BestIsShortest(g, from, to, s, w);
    }
  }

  lemma {:induction false} DryReaches(g: Graph, from: nat, to: nat, s: Search, p: Path)
    requires Settled(g, from, to, s) && s.q == multiset{} && p != [] && IsWalk(g, from, p) && Avoids(p, to)
    ensures End(from, p) in s.tree
  {
    var q, e := p[..|p| - 1], p[|p| - 1];
    var u := End(from, q);
    if q != [] {
      DryReaches(g, from, to, s, q);
      assert AllFollowed(g, from, to, s, u, s.tree[u]);
      assert Followed(g, from, to, s, s.tree[u], e);
    } else {
      assert Followed(g, from, to, s, [], e);
    }
    assert e in p;
  }

  lemma {:induction false} DryFindsGoal(g: Graph, from: nat, to: nat, s: Search, w: Path)
    requires Settled(g, from, to, s) && s.q == multiset{} && Connects(g, from, to, w)
    ensures s.best.Some?
    decreases |w|
  {
    var q, e := w[..|w| - 1], w[|w| - 1];
    var u := End(from, q);
    if q == [] {
      assert Followed(g, from, to, s, [], e);
    } else if u == to {
      DryFindsGoal(g, from, to, s, q);
    } else if i :| 0 <= i < |q| && q[i].adj == to {
      PrefixWalk(g, from, q, i + 1);
      DryFindsGoal(g, from, to, s, q[..i + 1]);
    } else {
      DryReaches(g, from, to, s, q);
      assert Followed(g, from, to, s, s.tree[u], e);
    }
  }
}
