/**
 * What dijkstra guarantees when its Java int sums cannot overflow: the
 * returned path is a cheapest walk from `start` to `end`, and reversing
 * the query gives a path of the same cost. Also what happens when they
 * do overflow.
 */
module DijkstraOptimal {
  import opened Wrappers
  import opened Int32
  import opened Graphs
  import opened Dijkstra

  /**
   * The hypothesis of the optimality theorem: no negative weight, `w` walks
   * from `start` to `end` at a cost below Integer.MAX_VALUE, and adding any
   * single edge weight to that cost stays a Java int.
   */
  ghost predicate SafelyReachable(g: Graph, start: nat, end: nat, w: seq<nat>) {
    && IsWalkBetween(g.edges, w, start, end)
    && NonNegative(g.edges)
    && WalkCost(g.edges, w) < MAX
    && forall k :: 0 <= k < |g.edges| ==> g.edges[k].weight <= MAX - WalkCost(g.edges, w)
  }

  /** `start` is at distance 0, has no predecessor, and before it is selected nothing else is reached. */
  ghost predicate Anchored(g: Graph, start: nat, st: Search)
    requires |st.dist| == g.size && start < g.size
  {
    && st.dist[start] == 0 && start !in st.prev
    && (start in st.unvisited ==>
          st.prev == map[] && forall v :: 0 <= v < g.size && v != start ==> st.dist[v] == MAX)
  }

  /** Distances lie in 0 .. Integer.MAX_VALUE, and visited nodes are no farther than `b`. */
  ghost predicate Bounded(g: Graph, b: int, st: Search)
    requires WellFormed(g, st)
  {
    && (forall v :: 0 <= v < g.size ==> 0 <= st.dist[v] <= MAX)
    && (forall v :: v in st.visited ==> st.dist[v] <= b)
  }

  /** Each predecessor link costs at most the distance it adds; a finite distance comes with a link. */
  ghost predicate Descending(g: Graph, start: nat, st: Search)
    requires WellFormed(g, st)
  {
    && (forall v :: v in st.prev ==> StepCost(g.edges, st.prev[v], v) <= st.dist[v] - st.dist[st.prev[v]])
    && (forall v :: 0 <= v < g.size && st.dist[v] < MAX ==> v == start || v in st.prev)
  }

  /** If `v` is visited, its distance is no more than the cost of walk `q` from `start` to `v`. */
  ghost predicate SettledAt(g: Graph, start: nat, st: Search, q: seq<nat>, v: nat) {
    IsWalkBetween(g.edges, q, start, v) && v in st.visited && v < |st.dist| ==>
      st.dist[v] <= WalkCost(g.edges, q)
  }

  /** A visited node's distance is no more than the cost of any walk to it from `start`. */
  ghost predicate Settled(g: Graph, start: nat, st: Search) {
    forall q, v :: SettledAt(g, start, st, q, v)
  }

  /** If edge `k` joins visited `x` to unvisited `y`, it bounds the distance of `y`. */
  ghost predicate FrontierAt(g: Graph, st: Search, x: nat, y: nat, k: nat) {
    x in st.visited && y in st.unvisited && x < |st.dist| && y < |st.dist| &&
    k < |g.edges| && Connects(g.edges[k], x, y) ==>
      st.dist[y] <= st.dist[x] + g.edges[k].weight
  }

  /** Every edge from a visited node to an unvisited one has been relaxed. */
  ghost predicate Frontier(g: Graph, st: Search) {
    forall x, y, k :: FrontierAt(g, st, x, y, k)
  }

  /**
   * The loop invariant of the search under that hypothesis, `b` being the
   * cost of the witness walk.
   */
  ghost predicate Sound(g: Graph, start: nat, end: nat, b: int, st: Search)
    requires WellFormed(g, st) && start < g.size
  {
    && end !in st.visited
    && Anchored(g, start, st)
    && Bounded(g, b, st)
    && Descending(g, start, st)
    && Settled(g, start, st)
    && Frontier(g, st)
  }

  /** A walk from `start` to an unvisited node passes an unvisited node no farther than the walk's cost. */
  lemma {:induction false} FrontierBound(g: Graph, start: nat, st: Search, q: seq<nat>) returns (y: nat)
    requires Valid(g) && WellFormed(g, st) && start < g.size && NonNegative(g.edges)
    requires st.dist[start] == 0 && Settled(g, start, st) && Frontier(g, st)
    requires IsWalk(g.edges, q) && q[0] == start && q[|q| - 1] in st.unvisited
    ensures y in st.unvisited && y < g.size && st.dist[y] <= WalkCost(g.edges, q)
    decreases |q|
  {
    if |q| == 1 {
      y := start;
    } else {
      var p := q[..|q| - 1];
      WalkPrefix(g.edges, q, |q| - 1);
      var x, z := q[|q| - 2], q[|q| - 1];
      assert LinkedAt(g.edges, q, |q| - 2);
      LinkedInGraph(g, x, z);
      assert WalkCost(g.edges, q) == WalkCost(g.edges, p) + StepCost(g.edges, x, z);
      var k := Cheapest(g.edges, x, z).value;
      assert StepCost(g.edges, x, z) == g.edges[k].weight >= 0;
      if x in st.unvisited {
        y := FrontierBound(g, start, st, p);
      } else {
        assert x in st.visited;
        assert SettledAt(g, start, st, p, x);
        assert FrontierAt(g, st, x, z, k);
        y := z;
      }
    }
  }

  /**
   * What relaxing the edges lo .. hi-1 at the selected node `c` did to state
   * `a`, giving `r`: distances only fell, each fall made `c` the predecessor
   * at a cost no less than the step from `c`, and each of those edges now
   * bounds the distance of its unvisited end.
   */
  ghost predicate Relaxed(edges: seq<Edge>, c: nat, a: Search, r: Search, lo: nat, hi: nat)
    requires lo <= hi <= |edges| && c < |a.dist| == |r.dist|
  {
    && r.dist[c] == a.dist[c]
    && (forall v :: 0 <= v < |a.dist| ==> r.dist[v] <= a.dist[v])
    && (forall v :: 0 <= v < |a.dist| && r.dist[v] != a.dist[v] ==>
          v in r.prev && r.prev[v] == c && Linked(edges, c, v) &&
          StepCost(edges, c, v) <= r.dist[v] - a.dist[c] && 0 <= r.dist[v])
    && (forall v :: v in r.prev && !(v in a.prev && r.prev[v] == a.prev[v]) ==>
          v < |a.dist| && r.dist[v] != a.dist[v])
    && (forall v :: v in a.prev ==> v in r.prev)
    && (forall k, y :: lo <= k < hi && y in a.unvisited && y < |a.dist| && Connects(edges[k], c, y) ==>
          r.dist[y] <= a.dist[c] + edges[k].weight)
  }

  lemma {:induction false} RelaxedCompose(edges: seq<Edge>, c: nat, a: Search, m: Search, r: Search, n: nat)
    requires 0 < n <= |edges| && c < |a.dist| == |m.dist| == |r.dist| && m.unvisited == a.unvisited
    requires Relaxed(edges, c, a, m, 0, n - 1) && Relaxed(edges, c, m, r, n - 1, n)
    ensures Relaxed(edges, c, a, r, 0, n)
  {
    ComposeChanged(edges, c, a, m, r, n);
    ComposeLinks(edges, c, a, m, r, n);
    ComposeEdges(edges, c, a, m, r, n);
  }

  /** Every distance changed over both stretches was lowered through `c`. */
  lemma ComposeChanged(edges: seq<Edge>, c: nat, a: Search, m: Search, r: Search, n: nat)
    requires 0 < n <= |edges| && c < |a.dist| == |m.dist| == |r.dist|
    requires Relaxed(edges, c, a, m, 0, n - 1) && Relaxed(edges, c, m, r, n - 1, n)
    ensures forall v :: 0 <= v < |a.dist| && r.dist[v] != a.dist[v] ==>
      v in r.prev && r.prev[v] == c && Linked(edges, c, v) &&
      StepCost(edges, c, v) <= r.dist[v] - a.dist[c] && 0 <= r.dist[v]
  {
    forall v | 0 <= v < |a.dist| && r.dist[v] != a.dist[v]
      ensures v in r.prev && r.prev[v] == c
    {
      if r.dist[v] == m.dist[v] {
        assert v in m.prev && m.prev[v] == c;
      }
    }
  }

  /** Every predecessor link changed over both stretches comes with a changed distance. */
  lemma ComposeLinks(edges: seq<Edge>, c: nat, a: Search, m: Search, r: Search, n: nat)
    requires 0 < n <= |edges| && c < |a.dist| == |m.dist| == |r.dist|
    requires Relaxed(edges, c, a, m, 0, n - 1) && Relaxed(edges, c, m, r, n - 1, n)
    ensures forall v :: v in r.prev && !(v in a.prev && r.prev[v] == a.prev[v]) ==>
      v < |a.dist| && r.dist[v] != a.dist[v]
  {
    forall v | v in r.prev && !(v in a.prev && r.prev[v] == a.prev[v])
      ensures v < |a.dist| && r.dist[v] != a.dist[v]
    {
      if !(v in m.prev && r.prev[v] == m.prev[v]) {
        assert r.dist[v] < m.dist[v];
      } else {
        assert m.dist[v] != a.dist[v];
      }
    }
  }

  /** Each of the first `n` edges out of `c` has been relaxed. */
  lemma ComposeEdges(edges: seq<Edge>, c: nat, a: Search, m: Search, r: Search, n: nat)
    requires 0 < n <= |edges| && c < |a.dist| == |m.dist| == |r.dist| && m.unvisited == a.unvisited
    requires Relaxed(edges, c, a, m, 0, n - 1) && Relaxed(edges, c, m, r, n - 1, n)
    ensures forall k, y :: 0 <= k < n && y in a.unvisited && y < |a.dist| && Connects(edges[k], c, y) ==>
      r.dist[y] <= a.dist[c] + edges[k].weight
  {
    forall k, y | 0 <= k < n && y in a.unvisited && y < |a.dist| && Connects(edges[k], c, y)
      ensures r.dist[y] <= a.dist[c] + edges[k].weight
    {
      if k < n - 1 {
        assert m.dist[y] <= a.dist[c] + edges[k].weight;
      }
    }
  }

  /** One Improve call with a non-negative weight that cannot overflow. */
  lemma {:induction false} ImproveSound(st: Search, c: nat, v: nat, w: int)
    requires c < |st.dist| && v < |st.dist| && c !in st.unvisited
    requires 0 <= st.dist[c] && 0 <= w <= MAX - st.dist[c]
    ensures var r := Improve(st, c, v, w);
      && r.dist[c] == st.dist[c]
      && (v in st.unvisited ==> r.dist[v] <= st.dist[c] + w)
      && (r.dist[v] != st.dist[v] ==> v in r.prev && r.prev[v] == c && r.dist[v] == st.dist[c] + w)
      && (forall u :: u in r.prev && !(u in st.prev && r.prev[u] == st.prev[u]) ==> u == v && r.dist[v] != st.dist[v])
  {
  }

  /** One RelaxEdge call: distances only fall, and each fall goes through `c`. */
  lemma {:induction false} EdgeLowers(edges: seq<Edge>, n: nat, c: nat, st: Search)
    requires 0 < n <= |edges| && ValidEdges(|st.dist|, edges) && NonNegative(edges)
    requires c < |st.dist| && c !in st.unvisited && 0 <= st.dist[c]
    requires forall j :: 0 <= j < |edges| ==> edges[j].weight <= MAX - st.dist[c]
    ensures var r := RelaxEdge(st, c, edges[n - 1]);
      && r.dist[c] == st.dist[c]
      && (forall v :: 0 <= v < |st.dist| ==> r.dist[v] <= st.dist[v])
      && (forall v :: 0 <= v < |st.dist| && r.dist[v] != st.dist[v] ==>
            v in r.prev && r.prev[v] == c && Linked(edges, c, v) &&
            StepCost(edges, c, v) <= r.dist[v] - st.dist[c] && 0 <= r.dist[v])
      && (forall v :: v in r.prev && !(v in st.prev && r.prev[v] == st.prev[v]) ==>
            v < |st.dist| && r.dist[v] != st.dist[v])
  {
    var e := edges[n - 1];
    var st1 := if e.from == c then Improve(st, c, e.to, e.weight) else st;
    var r := RelaxEdge(st, c, e);
    assert r == if e.to == c then Improve(st1, c, e.from, e.weight) else st1;
    if e.from == c {
      ImproveSound(st, c, e.to, e.weight);
    }
    if e.to == c {
      ImproveSound(st1, c, e.from, e.weight);
    }
    forall v | 0 <= v < |st.dist| && r.dist[v] != st.dist[v]
      ensures v in r.prev && r.prev[v] == c && Linked(edges, c, v)
      ensures StepCost(edges, c, v) <= r.dist[v] - st.dist[c] && 0 <= r.dist[v]
    {
      assert Connects(e, c, v);
      assert edges[Cheapest(edges, c, v).value].weight <= e.weight;
    }
  }

  /** One RelaxEdge call: the edge now bounds the distance of its unvisited end. */
  lemma {:induction false} EdgeBounds(edges: seq<Edge>, n: nat, c: nat, st: Search)
    requires 0 < n <= |edges| && ValidEdges(|st.dist|, edges) && NonNegative(edges)
    requires c < |st.dist| && c !in st.unvisited && 0 <= st.dist[c]
    requires forall j :: 0 <= j < |edges| ==> edges[j].weight <= MAX - st.dist[c]
    ensures var r := RelaxEdge(st, c, edges[n - 1]);
      forall y :: y in st.unvisited && y < |st.dist| && Connects(edges[n - 1], c, y) ==>
        r.dist[y] <= st.dist[c] + edges[n - 1].weight
  {
    var e := edges[n - 1];
    var st1 := if e.from == c then Improve(st, c, e.to, e.weight) else st;
    if e.from == c {
      ImproveSound(st, c, e.to, e.weight);
    }
    if e.to == c {
      ImproveSound(st1, c, e.from, e.weight);
    }
  }

  /** One RelaxEdge call. */
  lemma {:induction false} EdgeSound(edges: seq<Edge>, n: nat, c: nat, st: Search)
    requires 0 < n <= |edges| && ValidEdges(|st.dist|, edges) && NonNegative(edges)
    requires c < |st.dist| && c !in st.unvisited && 0 <= st.dist[c]
    requires forall j :: 0 <= j < |edges| ==> edges[j].weight <= MAX - st.dist[c]
    ensures Relaxed(edges, c, st, RelaxEdge(st, c, edges[n - 1]), n - 1, n)
  {
    EdgeLowers(edges, n, c, st);
    EdgeBounds(edges, n, c, st);
  }

  /** The first `n` iterations of the relaxation loop. */
  lemma {:induction false} RelaxSound(edges: seq<Edge>, c: nat, st: Search, n: nat)
    requires n <= |edges| && ValidEdges(|st.dist|, edges) && NonNegative(edges)
    requires c < |st.dist| && c !in st.unvisited && 0 <= st.dist[c]
    requires forall j :: 0 <= j < |edges| ==> edges[j].weight <= MAX - st.dist[c]
    ensures Relaxed(edges, c, st, RelaxAll(edges, c, st, n), 0, n)
  {
    if n > 0 {
      RelaxSound(edges, c, st, n - 1);
      var m := RelaxAll(edges, c, st, n - 1);
      EdgeSound(edges, n, c, m);
      var r := RelaxAll(edges, c, st, n);
      assert r == RelaxEdge(m, c, edges[n - 1]);
      RelaxedCompose(edges, c, st, m, r, n);
    }
  }

  lemma {:induction false} InitSound(g: Graph, start: nat, end: nat, b: int)
    requires start < g.size
    ensures WellFormed(g, Init(g.size, start)) && Sound(g, start, end, b, Init(g.size, start))
  {
    InitWellFormed(g, start);
  }

  /**
   * `r` is the state after one iteration that selected `c` in `st`: `c`
   * moved from unvisited to visited, only unvisited distances moved, and
   * the edges were relaxed at `c`.
   */
  ghost predicate Step(g: Graph, st: Search, c: nat, r: Search)
    requires WellFormed(g, st) && WellFormed(g, r) && Valid(g)
  {
    && c in st.unvisited
    && r.unvisited == st.unvisited - {c} && r.visited == st.visited + [c]
    && (forall v :: 0 <= v < g.size && v !in r.unvisited ==> r.dist[v] == st.dist[v])
    && Relaxed(g.edges, c, Visit(st, c), r, 0, |g.edges|)
  }

  lemma {:induction false} StepAnchored(g: Graph, start: nat, st: Search, c: nat, r: Search)
    requires Valid(g) && start < g.size && WellFormed(g, st) && WellFormed(g, r) && Step(g, st, c, r)
    requires Anchored(g, start, st) && Pick(st.dist, st.unvisited, g.size) == Some(c)
    ensures Anchored(g, start, r)
  {
    if start in st.unvisited {
      assert st.dist[c] <= st.dist[start];
      assert c == start;
    }
    assert start !in r.unvisited;
    assert r.dist[start] == Visit(st, c).dist[start];
  }

  lemma {:induction false} StepBounded(g: Graph, b: int, st: Search, c: nat, r: Search)
    requires Valid(g) && WellFormed(g, st) && WellFormed(g, r) && Step(g, st, c, r)
    requires Bounded(g, b, st) && st.dist[c] <= b
    ensures Bounded(g, b, r)
  {
    forall v | v in r.visited
      ensures r.dist[v] <= b
    {
      if v != c {
        assert v in st.visited;
      }
    }
  }

  lemma {:induction false} StepDescending(g: Graph, start: nat, st: Search, c: nat, r: Search)
    requires Valid(g) && WellFormed(g, st) && WellFormed(g, r) && Step(g, st, c, r)
    requires Descending(g, start, st)
    ensures Descending(g, start, r)
  {
    var nx := Visit(st, c);
    forall v | v in r.prev
      ensures StepCost(g.edges, r.prev[v], v) <= r.dist[v] - r.dist[r.prev[v]]
    {
      if r.dist[v] == nx.dist[v] {
        assert v in st.prev && r.prev[v] == st.prev[v];
        assert st.prev[v] in st.visited;
      }
    }
  }

  lemma {:induction false} StepSettled(g: Graph, start: nat, st: Search, c: nat, r: Search)
    requires Valid(g) && start < g.size && WellFormed(g, st) && WellFormed(g, r) && Step(g, st, c, r)
    requires st.dist[start] == 0 && Settled(g, start, st) && Frontier(g, st) && NonNegative(g.edges)
    requires Pick(st.dist, st.unvisited, g.size) == Some(c)
    ensures Settled(g, start, r)
  {
    forall q: seq<nat>, v: nat
      ensures SettledAt(g, start, r, q, v)
    {
      if IsWalkBetween(g.edges, q, start, v) && v in r.visited {
        if v == c {
          var y := FrontierBound(g, start, st, q);
        } else {
          assert v in st.visited;
          assert SettledAt(g, start, st, q, v);
        }
      }
    }
  }

  lemma {:induction false} StepFrontier(g: Graph, st: Search, c: nat, r: Search)
    requires Valid(g) && WellFormed(g, st) && WellFormed(g, r) && Step(g, st, c, r)
    requires Frontier(g, st)
    ensures Frontier(g, r)
  {
    forall x: nat, y: nat, k: nat
      ensures FrontierAt(g, r, x, y, k)
    {
      if x in r.visited && y in r.unvisited && k < |g.edges| && Connects(g.edges[k], x, y) {
        if x != c {
          assert x in st.visited;
          assert FrontierAt(g, st, x, y, k);
        }
      }
    }
  }

  lemma {:induction false} StepKeepsSound(g: Graph, start: nat, end: nat, b: int, st: Search, c: nat, r: Search)
    requires Valid(g) && start < g.size && NonNegative(g.edges)
    requires WellFormed(g, st) && WellFormed(g, r) && Step(g, st, c, r) && c != end
    requires Sound(g, start, end, b, st) && st.dist[c] <= b
    requires Pick(st.dist, st.unvisited, g.size) == Some(c)
    ensures Sound(g, start, end, b, r)
  {
    StepAnchored(g, start, st, c, r);
    StepBounded(g, b, st, c, r);
    StepDescending(g, start, st, c, r);
    StepSettled(g, start, st, c, r);
    StepFrontier(g, st, c, r);
  }

  /** One iteration of the search keeps the invariant. */
  lemma {:induction false} StepSound(g: Graph, start: nat, end: nat, w: seq<nat>, st: Search, c: nat)
    requires Valid(g) && start < g.size && end < g.size && SafelyReachable(g, start, end, w)
    requires WellFormed(g, st) && Sound(g, start, end, WalkCost(g.edges, w), st)
    requires Pick(st.dist, st.unvisited, g.size) == Some(c) && c != end
    ensures WellFormed(g, Visit(st, c))
    ensures var r := RelaxAll(g.edges, c, Visit(st, c), |g.edges|);
      WellFormed(g, r) && Sound(g, start, end, WalkCost(g.edges, w), r)
  {
    var b := WalkCost(g.edges, w);
    var nx := Visit(st, c);
    VisitWellFormed(g, st, c);
    RelaxWellFormed(g, nx, c);
    var r := RelaxAll(g.edges, c, nx, |g.edges|);
    assert end in st.unvisited;
    var y := FrontierBound(g, start, st, w);
    assert 0 <= st.dist[c] <= b;
    RelaxSound(g.edges, c, nx, |g.edges|);
    assert Step(g, st, c, r);
    StepKeepsSound(g, start, end, b, st, c, r);
  }

  /** One turn of the search loop: stop at `end`, or visit the selected node, relax its edges and go on. */
  lemma ExploreUnfold(g: Graph, end: nat, st: Search, c: nat)
    requires Valid(g) && WellFormed(g, st) && Pick(st.dist, st.unvisited, g.size) == Some(c)
    ensures c == end ==> Explore(g, end, st) == st
    ensures c != end ==>
              && WellFormed(g, Visit(st, c))
              && WellFormed(g, RelaxAll(g.edges, c, Visit(st, c), |g.edges|))
              && |RelaxAll(g.edges, c, Visit(st, c), |g.edges|).unvisited| < |st.unvisited|
              && Explore(g, end, st) == Explore(g, end, RelaxAll(g.edges, c, Visit(st, c), |g.edges|))
  {
    VisitWellFormed(g, st, c);
    RelaxWellFormed(g, Visit(st, c), c);
  }

  /** At the end of the search, `end` is the node that was selected last. */
  lemma {:induction false} ExploreSound(g: Graph, start: nat, end: nat, w: seq<nat>, st: Search)
    requires Valid(g) && start < g.size && end < g.size && SafelyReachable(g, start, end, w)
    requires WellFormed(g, st) && Sound(g, start, end, WalkCost(g.edges, w), st)
    ensures var r := Explore(g, end, st);
      Sound(g, start, end, WalkCost(g.edges, w), r) && Pick(r.dist, r.unvisited, g.size) == Some(end)
    decreases |st.unvisited|
  {
    assert end in st.unvisited;
    var c := Pick(st.dist, st.unvisited, g.size).value;
    ExploreUnfold(g, end, st, c);
    if c != end {
      StepSound(g, start, end, w, st, c);
      ExploreSound(g, start, end, w, RelaxAll(g.edges, c, Visit(st, c), |g.edges|));
    }
  }

  /** Following the predecessor links from a reached node gives a walk from `start` no dearer than its distance. */
  lemma {:induction false} TraceSound(g: Graph, start: nat, st: Search, at: nat)
    requires Valid(g) && WellFormed(g, st) && start < g.size && NonNegative(g.edges)
    requires st.dist[start] == 0 && Descending(g, start, st)
    requires at < g.size && st.dist[at] < MAX
    ensures Trace(g, st, at)[0] == start && WalkCost(g.edges, Trace(g, st, at)) <= st.dist[at]
    decreases Rank(st.visited, at)
  {
    if at in st.prev {
      var u := st.prev[at];
      var before := Trace(g, st, u);
      var k := Cheapest(g.edges, u, at).value;
      assert StepCost(g.edges, u, at) == g.edges[k].weight >= 0;
      TraceSound(g, start, st, u);
      WalkExtend(g.edges, before, at);
      assert Trace(g, st, at) == before + [at];
    }
  }

  /**
   * Optimality: when `end` is reachable without overflow, dijkstra returns
   * a walk from `start` to `end` that costs no more than any other.
   */
  lemma {:induction false} ShortestPathOptimal(g: Graph, start: nat, end: nat, w: seq<nat>)
    requires Valid(g) && start < g.size && end < g.size && SafelyReachable(g, start, end, w)
    ensures ShortestPath(g, start, end).Some?
    ensures var p := ShortestPath(g, start, end).value;
      IsWalkBetween(g.edges, p, start, end) &&
      forall q :: IsWalkBetween(g.edges, q, start, end) ==> WalkCost(g.edges, p) <= WalkCost(g.edges, q)
  {
    var st := Explore(g, end, Init(g.size, start));
    EndSelected(g, start, end, w);
    EndBelowEveryWalk(g, start, end, WalkCost(g.edges, w), st);
    TraceSound(g, start, st, end);
  }

  /** The search for a safely reachable `end` stops with `end` selected, at a distance below MAX. */
  lemma EndSelected(g: Graph, start: nat, end: nat, w: seq<nat>)
    requires Valid(g) && start < g.size && end < g.size && SafelyReachable(g, start, end, w)
    ensures var st := Explore(g, end, Init(g.size, start));
      && Sound(g, start, end, WalkCost(g.edges, w), st)
      && Pick(st.dist, st.unvisited, g.size) == Some(end)
      && st.dist[end] < MAX
  {
    var b := WalkCost(g.edges, w);
    InitSound(g, start, end, b);
    var st := Explore(g, end, Init(g.size, start));
    ExploreSound(g, start, end, w, Init(g.size, start));
    var y := FrontierBound(g, start, st, w);
  }

  /** Once `end` is selected, its distance is no more than the cost of any walk to it. */
  lemma EndBelowEveryWalk(g: Graph, start: nat, end: nat, b: int, st: Search)
    requires Valid(g) && start < g.size && end < g.size && NonNegative(g.edges)
    requires WellFormed(g, st) && Sound(g, start, end, b, st) && st.dist[start] == 0
    requires Pick(st.dist, st.unvisited, g.size) == Some(end)
    ensures forall q :: IsWalkBetween(g.edges, q, start, end) ==> st.dist[end] <= WalkCost(g.edges, q)
  {
    forall q | IsWalkBetween(g.edges, q, start, end)
      ensures st.dist[end] <= WalkCost(g.edges, q)
    {
      var y := FrontierBound(g, start, st, q);
    }
  }

  /** Asking for the way back yields a path of the same cost. */
  lemma {:induction false} ShortestPathSymmetric(g: Graph, start: nat, end: nat, w: seq<nat>)
    requires Valid(g) && start < g.size && end < g.size && SafelyReachable(g, start, end, w)
    ensures ShortestPath(g, start, end).Some? && ShortestPath(g, end, start).Some?
    ensures WalkCost(g.edges, ShortestPath(g, start, end).value) == WalkCost(g.edges, ShortestPath(g, end, start).value)
  {
    WalkReverse(g.edges, w);
    ShortestPathOptimal(g, start, end, w);
    ShortestPathOptimal(g, end, start, Reverse(w));
    var p, p' := ShortestPath(g, start, end).value, ShortestPath(g, end, start).value;
    WalkReverse(g.edges, p);
    WalkReverse(g.edges, p');
  }

  /** The graph of the overflow example: three nodes, one edge between 1 and 2. */
  function OverflowGraph(): (g: Graph)
    ensures Valid(g)
  {
    Graph(3, [Edge(1, 2, 1, false)])
  }

  /** Node 0 of that graph has no edge, so no walk leads from 0 to 2. */
  lemma {:induction false} OverflowUnreachable()
    ensures forall q :: !IsWalkBetween(OverflowGraph().edges, q, 0, 2)
  {
    var g := OverflowGraph();
    forall q
      ensures !IsWalkBetween(g.edges, q, 0, 2)
    {
      if |q| >= 2 && q[0] == 0 {
        assert Cheapest(g.edges, 0, q[1]).None?;
        assert !LinkedAt(g.edges, q, 0);
      }
    }
  }

  /** The first iteration selects 0 and relaxes nothing. */
  lemma {:induction false} OverflowFirstIteration()
    ensures var g := OverflowGraph();
      var s1 := Search([0, MAX, MAX], map[], {1, 2}, [0]);
      && WellFormed(g, Init(3, 0)) && WellFormed(g, s1)
      && Explore(g, 2, Init(3, 0)) == Explore(g, 2, s1)
  {
    var g := OverflowGraph();
    var s0 := Init(3, 0);
    InitWellFormed(g, 0);
    assert s0.dist == [0, MAX, MAX];
    assert s0.unvisited == {0, 1, 2};
    assert Pick(s0.dist, s0.unvisited, 3) == Some(0);
    VisitWellFormed(g, s0, 0);
    assert RelaxAll(g.edges, 0, Visit(s0, 0), 1) == Search([0, MAX, MAX], map[], {1, 2}, [0]);
  }

  /** The second iteration selects 1; MAX_VALUE + 1 wraps around and becomes the distance of 2. */
  lemma {:induction false} OverflowSecondIteration()
    ensures var g := OverflowGraph();
      var s1 := Search([0, MAX, MAX], map[], {1, 2}, [0]);
      var s2 := Search([0, MAX, MIN], map[2 := 1], {2}, [0, 1]);
      && WellFormed(g, s1) && WellFormed(g, s2)
      && Explore(g, 2, s1) == s2
  {
    var g := OverflowGraph();
    var s1 := Search([0, MAX, MAX], map[], {1, 2}, [0]);
    var s2 := Search([0, MAX, MIN], map[2 := 1], {2}, [0, 1]);
    assert Pick(s1.dist, s1.unvisited, 3) == Some(1);
    assert Add(MAX, 1) == MIN;
    assert RelaxAll(g.edges, 1, Visit(s1, 1), 1) == s2;
    assert Linked(g.edges, 1, 2);
    assert Rank(s2.visited, 1) == 1;
    assert WellFormed(g, s2);
    assert Pick(s2.dist, s2.unvisited, 3) == Some(2);
  }

  /**
   * The hypothesis cannot be dropped. In three nodes whose only edge joins
   * 1 and 2, node 2 is unreachable from 0; the search still selects 1 at
   * distance Integer.MAX_VALUE, `MAX_VALUE + 1` wraps around to
   * Integer.MIN_VALUE, which "improves" node 2, and dijkstra(0, 2) returns
   * [1, 2], a path that does not even start at 0.
   */
  lemma {:induction false} OverflowRoutesUnreachable()
    ensures (forall q :: !IsWalkBetween(OverflowGraph().edges, q, 0, 2))
    ensures ShortestPath(OverflowGraph(), 0, 2) == Some([1, 2])
  {
    OverflowUnreachable();
    OverflowFirstIteration();
    OverflowSecondIteration();
    OverflowTrace();
    var g := OverflowGraph();
    var s2 := Search([0, MAX, MIN], map[2 := 1], {2}, [0, 1]);
    assert Explore(g, 2, Init(3, 0)) == s2;
  }

  /** In the final state of that search, the predecessor links lead from 2 back to 1. */
  lemma OverflowTrace()
    ensures var s2 := Search([0, MAX, MIN], map[2 := 1], {2}, [0, 1]);
      WellFormed(OverflowGraph(), s2) && Trace(OverflowGraph(), s2, 2) == [1, 2]
  {
    var g := OverflowGraph();
    var s2 := Search([0, MAX, MIN], map[2 := 1], {2}, [0, 1]);
    assert Linked(g.edges, 1, 2);
    assert Rank(s2.visited, 1) == 1;
    assert WellFormed(g, s2);
    assert Trace(g, s2, 1) == [1];
  }
}
