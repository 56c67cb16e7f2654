/**
 * GraphData.dijkstra as a function of the graph: the search loop
 * (`Explore`), one relaxation pass over the edge list (`RelaxAll`), the
 * selection of the closest unvisited node (`Pick`) and the walk back along
 * the predecessor links (`Trace`).
 */
module Dijkstra {
  import opened Wrappers
  import opened Int32
  import opened Graphs

  /**
   * The local state of dijkstra: `dist`, `prev` and `unvisited`, plus
   * `visited`, the nodes taken out of `unvisited` in the order they were
   * taken out. `visited` never influences the result; it is the order that
   * keeps the predecessor links acyclic.
   */
  datatype Search = Search(dist: seq<int>, prev: map<nat, nat>, unvisited: set<nat>, visited: seq<nat>)

  /** The position of `v` in `visited`, or |visited| when it is not there. */
  function Rank(visited: seq<nat>, v: nat): (r: nat)
    ensures r <= |visited|
    ensures r < |visited| <==> v in visited
    ensures r < |visited| ==> visited[r] == v
  {
    if visited == [] then 0
    else if visited[0] == v then 0
    else 1 + Rank(visited[1..], v)
  }

  lemma {:induction false} RankAppend(visited: seq<nat>, c: nat, v: nat)
    requires v in visited || v == c
    ensures Rank(visited + [c], v) == if v in visited then Rank(visited, v) else |visited|
  {
    if visited != [] {
      assert (visited + [c])[1..] == visited[1..] + [c];
      if visited[0] != v {
        RankAppend(visited[1..], c, v);
      }
    }
  }

  /**
   * What every state of the search satisfies: `dist` has one entry per
   * node, `unvisited` is exactly the nodes not yet visited, and each
   * predecessor link joins a visited node to a later-visited or unvisited
   * neighbour.
   */
  ghost predicate WellFormed(g: Graph, st: Search) {
    && |st.dist| == g.size
    && (forall v: nat :: v in st.unvisited <==> v < g.size && v !in st.visited)
    && (forall i :: 0 <= i < |st.visited| ==> st.visited[i] < g.size)
    && (forall v :: v in st.prev ==>
          v < g.size && st.prev[v] in st.visited && Linked(g.edges, st.prev[v], v) &&
          (v in st.visited ==> Rank(st.visited, st.prev[v]) < Rank(st.visited, v)))
  }

  /** `dist` before the loop: Integer.MAX_VALUE everywhere except 0 at `start`; nothing visited. */
  function Init(n: nat, start: nat): (st: Search)
    requires start < n
    ensures |st.dist| == n && st.dist[start] == 0
    ensures forall v :: 0 <= v < n && v != start ==> st.dist[v] == MAX
  {
    Search(seq(n, v => if v == start then 0 else MAX), map[], Nodes(n), [])
  }

  /** The node set {0, ..., n-1}. */
  function Nodes(n: nat): (r: set<nat>)
    ensures forall v: nat :: v in r <==> v < n
  {
    if n == 0 then {}
    else
      var below := Nodes(n - 1);
      below + {n - 1}
  }

  lemma InitWellFormed(g: Graph, start: nat)
    requires start < g.size
    ensures WellFormed(g, Init(g.size, start))
  {
  }

  /**
   * The node that `unvisited.stream().min(comparingInt(dist::get))` selects
   * among the nodes below `n`: one of least distance, and among those the
   * first in node-list order.
   */
  function Pick(dist: seq<int>, unvisited: set<nat>, n: nat): (r: Option<nat>)
    requires n <= |dist|
    ensures r.Some? ==> r.value < n && r.value in unvisited
    ensures r.Some? ==> forall v :: v < n && v in unvisited ==> dist[r.value] <= dist[v]
    ensures r.Some? ==> forall v :: v < r.value && v in unvisited ==> dist[r.value] < dist[v]
    ensures r.None? ==> forall v :: v < n ==> v !in unvisited
  {
    if n == 0 then None
    else
      var r := Pick(dist, unvisited, n - 1);
      if n - 1 in unvisited && (r.None? || dist[n - 1] < dist[r.value]) then Some(n - 1) else r
  }

  /**
   * One relaxation attempt: if `v` is unvisited and `dist[c] + w` (a Java
   * int sum) is smaller than `dist[v]`, record it and make `c` the
   * predecessor of `v`.
   */
  function Improve(st: Search, c: nat, v: nat, w: int): (r: Search)
    requires c < |st.dist| && v < |st.dist|
    ensures |r.dist| == |st.dist| && r.unvisited == st.unvisited && r.visited == st.visited
    ensures forall u :: u in r.prev ==> (u in st.prev && r.prev[u] == st.prev[u]) || (u == v && v in st.unvisited && r.prev[u] == c)
    ensures forall u :: u in st.prev ==> u in r.prev
    ensures forall u :: 0 <= u < |st.dist| && u != v ==> r.dist[u] == st.dist[u]
    ensures r.dist[v] <= st.dist[v] && (v !in st.unvisited ==> r == st)
  {
    if v in st.unvisited then
      var alt := Add(st.dist[c], w);
      if alt < st.dist[v] then st.(dist := st.dist[v := alt], prev := st.prev[v := c]) else st
    else st
  }

  /** The body of the loop over `edges`: the edge's own direction, then its reverse. */
  function RelaxEdge(st: Search, c: nat, e: Edge): (r: Search)
    requires c < |st.dist| && e.from < |st.dist| && e.to < |st.dist|
    ensures |r.dist| == |st.dist| && r.unvisited == st.unvisited && r.visited == st.visited
    ensures forall u :: u in r.prev ==>
      (u in st.prev && r.prev[u] == st.prev[u]) || (u in st.unvisited && r.prev[u] == c && Connects(e, c, u))
    ensures forall u :: u in st.prev ==> u in r.prev
    ensures forall u :: 0 <= u < |st.dist| && u !in st.unvisited ==> r.dist[u] == st.dist[u]
  {
    var st1 := if e.from == c then Improve(st, c, e.to, e.weight) else st;
    if e.to == c then Improve(st1, c, e.from, e.weight) else st1
  }

  /** The loop `for (Edge edge : edges)` after its first `k` iterations. */
  function RelaxAll(edges: seq<Edge>, c: nat, st: Search, k: nat): (r: Search)
    requires k <= |edges| && c < |st.dist| && ValidEdges(|st.dist|, edges)
    ensures |r.dist| == |st.dist| && r.unvisited == st.unvisited && r.visited == st.visited
    ensures forall u :: u in r.prev ==>
      (u in st.prev && r.prev[u] == st.prev[u]) || (u in st.unvisited && r.prev[u] == c && Linked(edges, c, u))
    ensures forall u :: u in st.prev ==> u in r.prev
    ensures forall u :: 0 <= u < |st.dist| && u !in st.unvisited ==> r.dist[u] == st.dist[u]
    decreases k
  {
    if k == 0 then st
    else
      var before := RelaxAll(edges, c, st, k - 1);
      assert forall u :: Connects(edges[k - 1], c, u) ==> Linked(edges, c, u);
      RelaxEdge(before, c, edges[k - 1])
  }

  /** Taking `c` out of `unvisited` (and recording that it was taken out). */
  function Visit(st: Search, c: nat): (r: Search)
    ensures c !in r.unvisited && r.unvisited <= st.unvisited
  {
    st.(unvisited := st.unvisited - {c}, visited := st.visited + [c])
  }

  lemma VisitWellFormed(g: Graph, st: Search, c: nat)
    requires WellFormed(g, st) && c in st.unvisited
    ensures WellFormed(g, Visit(st, c))
  {
    var nx := Visit(st, c);
    forall v | v in nx.prev
      ensures nx.prev[v] in nx.visited
      ensures v in nx.visited ==> Rank(nx.visited, nx.prev[v]) < Rank(nx.visited, v)
    {
      RankAppend(st.visited, c, st.prev[v]);
      if v in nx.visited {
        RankAppend(st.visited, c, v);
      }
    }
  }

  lemma RelaxWellFormed(g: Graph, st: Search, c: nat)
    requires Valid(g) && WellFormed(g, st) && c in st.visited
    ensures WellFormed(g, RelaxAll(g.edges, c, st, |g.edges|))
  {
    var r := RelaxAll(g.edges, c, st, |g.edges|);
    forall v | v in r.prev
      ensures v < g.size && r.prev[v] in r.visited && Linked(g.edges, r.prev[v], v)
      ensures v in r.visited ==> Rank(r.visited, r.prev[v]) < Rank(r.visited, v)
    {
      if !(v in st.prev && r.prev[v] == st.prev[v]) {
        assert v in st.unvisited && r.prev[v] == c;
      }
    }
  }

  /**
   * The `while (!unvisited.isEmpty())` loop, from state `st` on: select the
   * closest unvisited node; stop if it is `end`; otherwise take it out and
   * relax every edge at it.
   */
  function Explore(g: Graph, end: nat, st: Search): (r: Search)
    requires Valid(g) && WellFormed(g, st)
    ensures WellFormed(g, r)
    decreases |st.unvisited|
  {
    if st.unvisited == {} then st
    else
      match Pick(st.dist, st.unvisited, |st.dist|)
      case None => st
      case Some(c) =>
        if c == end then st
        else
          VisitWellFormed(g, st, c);
          var next := Visit(st, c);
          RelaxWellFormed(g, next, c);
          assert |next.unvisited| < |st.unvisited|;
          Explore(g, end, RelaxAll(g.edges, c, next, |g.edges|))
  }

  /**
   * The reconstruction loop: from `at`, follow `prev` back to a node that
   * has no predecessor, putting each node in front.
   */
  function Trace(g: Graph, st: Search, at: nat): (p: seq<nat>)
    requires WellFormed(g, st) && at < g.size
    ensures |p| >= 1 && p[|p| - 1] == at && p[0] !in st.prev
    ensures IsWalk(g.edges, p)
    decreases Rank(st.visited, at)
  {
    if at in st.prev then
      var before := Trace(g, st, st.prev[at]);
      WalkExtend(g.edges, before, at);
      before + [at]
    else [at]
  }

  /**
   * dijkstra(start, end): run the loop from the initial state; `null`
   * (None) when `end` has no predecessor and differs from `start`,
   * otherwise the traced path.
   */
  function ShortestPath(g: Graph, start: nat, end: nat): (r: Option<seq<nat>>)
    requires Valid(g) && start < g.size && end < g.size
    ensures r.None? ==> start != end
    ensures r.Some? ==> IsWalk(g.edges, r.value) && r.value[|r.value| - 1] == end
  {
    InitWellFormed(g, start);
    var st := Explore(g, end, Init(g.size, start));
    if end !in st.prev && start != end then None
    else Some(Trace(g, st, end))
  }

  /** dijkstra(n, n) returns [n]. */
  lemma ShortestPathToSelf(g: Graph, n: nat)
    requires Valid(g) && n < g.size
    ensures ShortestPath(g, n, n) == Some([n])
  {
    var st := Init(g.size, n);
    InitWellFormed(g, n);
    assert n in st.unvisited;
    var c := Pick(st.dist, st.unvisited, |st.dist|);
    assert c == Some(n);
    assert Explore(g, n, st) == st;
    assert Trace(g, st, n) == [n];
  }
}
