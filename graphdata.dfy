/**
 * The GraphData class: the node list and the edge list of the map, and the
 * routing operations that work on them step by step. Each method is proved
 * equal to the functional definition in Graphs, Dijkstra, Orderings or
 * Routing, where its properties are proved.
 */
module GraphData {
  import opened Wrappers
  import opened Int32
  import opened Graphs
  import opened Dijkstra
  import opened Orderings
  import opened Routing

  class GraphData {
    /** The names of the nodes; node `v` is the one at index `v`. */
    var nodes: seq<string>
    var edges: seq<Edge>

    /** The map as a value. */
    function Map(): (g: Graph)
      reads this
      ensures g.size == |nodes| && g.edges == edges
    {
      Graph(|nodes|, edges)
    }

    /** Every edge joins two nodes of the list and weighs a Java int. */
    predicate Valid()
      reads this
    {
      ValidEdges(|nodes|, edges)
    }

    constructor (names: seq<string>, links: seq<Edge>)
      requires ValidEdges(|names|, links)
      ensures nodes == names && edges == links && Valid()
    {
      nodes := names;
      edges := links;
    }

    /** clearHighlights: the loop that resets every edge's flag. */
    method ClearHighlights()
      modifies this
      ensures nodes == old(nodes) && edges == Cleared(old(edges))
      ensures Valid() == old(Valid())
    {
      var k := 0;
      while k < |edges|
        invariant 0 <= k <= |edges| == |old(edges)| && nodes == old(nodes)
        invariant edges[..k] == Cleared(old(edges))[..k]
        invariant edges[k..] == old(edges)[k..]
      {
        assert edges[k] == old(edges)[k] by { assert edges[k..][0] == edges[k]; }
        edges := edges[k := edges[k].(highlighted := false)];
        k := k + 1;
      }
      FlagsKeepValid(|nodes|, edges, old(edges));
    }

    /**
     * The loop `for (Edge edge : edges)` looking for the first edge declared
     * from `a` to `b`; None when there is none.
     */
    method FindForward(a: nat, b: nat) returns (r: Option<nat>)
      ensures r == FirstForward(edges, a, b)
    {
      var j := 0;
      while j < |edges|
        invariant 0 <= j <= |edges|
        invariant forall k :: 0 <= k < j ==> !(edges[k].from == a && edges[k].to == b)
      {
        if edges[j].from == a && edges[j].to == b {
          FirstForwardIs(edges, a, b, j);
          return Some(j);
        }
        j := j + 1;
      }
      return None;
    }

    /**
     * highlightPath: for each consecutive pair, the first edge declared
     * from the first node to the second gets its flag set.
     */
    method HighlightPath(path: seq<nat>)
      modifies this
      ensures nodes == old(nodes) && edges == Marked(old(edges), path)
      ensures Valid() == old(Valid())
    {
      var i := 0;
      while i + 1 < |path|
        invariant i == 0 || i < |path|
        invariant nodes == old(nodes) && edges == MarkedFirst(old(edges), path, i)
      {
        var found := FindForward(path[i], path[i + 1]);
        MarkPair(old(edges), edges, path, i, found);
        if found.Some? {
          edges := edges[found.value := edges[found.value].(highlighted := true)];
        }
        i := i + 1;
      }
      MarkedFirstAll(old(edges), path, i);
      MarkedKeepsValid(|nodes|, old(edges), path);
    }

    /** calculateWeight: the Java int sum of the first forward edge of each consecutive pair. */
    method CalculateWeight(path: seq<nat>) returns (total: int)
      ensures total == Weight(edges, path)
    {
      total := 0;
      var i := 0;
      while i + 1 < |path|
        invariant i == 0 || i < |path|
        invariant path != [] ==> total == Weight(edges, path[..i + 1])
        invariant path == [] ==> total == 0
      {
        var found := FindForward(path[i], path[i + 1]);
        WeightPrefixStep(edges, path, i);
        if found.Some? {
          total := Add(total, edges[found.value].weight);
        }
        i := i + 1;
      }
      if path != [] {
        assert path[..i + 1] == path;
      }
    }

    /**
     * dijkstra(start, end): the search loop over `dist`, `prev` and
     * `unvisited`, then the walk back along `prev`. `visited` is ghost
     * bookkeeping: the order in which nodes left `unvisited`.
     */
    method Dijkstra(start: nat, end: nat) returns (r: Option<seq<nat>>)
      requires Valid() && start < |nodes| && end < |nodes|
      ensures r == ShortestPath(Map(), start, end)
    {
      var n := |nodes|;
      ghost var g := Map();
      var dist: seq<int> := [];
      while |dist| < n
        invariant |dist| <= n
        invariant forall v :: 0 <= v < |dist| ==> dist[v] == MAX
      {
        dist := dist + [MAX];
      }
      dist := dist[start := 0];
      var prev: map<nat, nat> := map[];
      var unvisited := Nodes(n);
      ghost var visited: seq<nat> := [];
      assert Search(dist, prev, unvisited, visited) == Init(n, start);
      InitWellFormed(g, start);

      while unvisited != {}
        invariant WellFormed(g, Search(dist, prev, unvisited, visited))
        invariant Explore(g, end, Search(dist, prev, unvisited, visited)) == Explore(g, end, Init(n, start))
        decreases |unvisited|
      {
        var picked := Pick(dist, unvisited, n);
        if picked.None? || picked.value == end {
          assert Explore(g, end, Search(dist, prev, unvisited, visited)) == Search(dist, prev, unvisited, visited);
          break;
        }
        var current := picked.value;
        ghost var st := Search(dist, prev, unvisited, visited);
        VisitWellFormed(g, st, current);
        unvisited := unvisited - {current};
        visited := visited + [current];
        ghost var next := Search(dist, prev, unvisited, visited);
        assert next == Visit(st, current);
        RelaxWellFormed(g, next, current);

        dist, prev := RelaxEdges(current, dist, prev, unvisited, visited);
      }

      ghost var fin := Search(dist, prev, unvisited, visited);
      assert fin == Explore(g, end, Init(n, start));
      if end !in prev && start != end {
        return None;
      }
      var path := WalkBack(g, fin, prev, end);
      r := Some(path);
    }

    /** The loop `for (Edge edge : edges)` of dijkstra, relaxing from `current`. */
    method RelaxEdges(current: nat, dist: seq<int>, prev: map<nat, nat>, unvisited: set<nat>, ghost visited: seq<nat>)
      returns (dist': seq<int>, prev': map<nat, nat>)
      requires current < |dist| && ValidEdges(|dist|, edges)
      ensures Search(dist', prev', unvisited, visited) ==
        RelaxAll(edges, current, Search(dist, prev, unvisited, visited), |edges|)
    {
      ghost var st := Search(dist, prev, unvisited, visited);
      dist', prev' := dist, prev;
      var k := 0;
      while k < |edges|
        invariant 0 <= k <= |edges|
        invariant Search(dist', prev', unvisited, visited) == RelaxAll(edges, current, st, k)
      {
        var e := edges[k];
        ghost var before := Search(dist', prev', unvisited, visited);
        if e.from == current && e.to in unvisited {
          var alt := Add(dist'[current], e.weight);
          if alt < dist'[e.to] {
            dist' := dist'[e.to := alt];
            prev' := prev'[e.to := current];
          }
        }
        ghost var middle := Search(dist', prev', unvisited, visited);
        assert middle == if e.from == current then Improve(before, current, e.to, e.weight) else before;
        if e.to == current && e.from in unvisited {
          var alt := Add(dist'[current], e.weight);
          if alt < dist'[e.from] {
            dist' := dist'[e.from := alt];
            prev' := prev'[e.from := current];
          }
        }
        assert Search(dist', prev', unvisited, visited) == RelaxEdge(before, current, e);
        k := k + 1;
      }
    }

    /** The loop that walks back from `end` along `prev`, putting each node in front. */
    method WalkBack(ghost g: Graph, ghost fin: Search, prev: map<nat, nat>, end: nat) returns (path: seq<nat>)
      requires WellFormed(g, fin) && prev == fin.prev && end < g.size
      ensures path == Trace(g, fin, end)
    {
      path := [];
      var at: Option<nat> := Some(end);
      while at.Some?
        invariant at.Some? ==> at.value < g.size && Trace(g, fin, end) == Trace(g, fin, at.value) + path
        invariant at.None? ==> Trace(g, fin, end) == path
        decreases if at.Some? then Rank(fin.visited, at.value) + 1 else 0
      {
        var v := at.value;
        TraceStep(g, fin, v, path);
        if v in prev {
          at := Some(prev[v]);
        } else {
          at := None;
        }
        path := [v] + path;
      }
    }

    /**
     * permute(list, i, result): swap each of positions i, i+1, ... into
     * position i, recurse on i + 1, swap back; every complete arrangement is
     * appended to `result`. The list is restored on return.
     */
    method Permute(list: array<nat>, i: nat, result: seq<seq<nat>>) returns (res: seq<seq<nat>>)
      requires i <= list.Length
      modifies list
      ensures list[..] == old(list[..])
      ensures res == result + Permutations(old(list[..]), i)
      decreases list.Length - i
    {
      if i == list.Length {
        return result + [list[..]];
      }
      ghost var s := list[..];
      res := result;
      var j := i;
      while j < list.Length
        invariant i <= j <= list.Length
        invariant list[..] == s
        invariant res == result + Branches(s, i, j)
      {
        list[i], list[j] := list[j], list[i];
        assert list[..] == Swap(s, i, j);
        res := Permute(list, i + 1, res);
        list[i], list[j] := list[j], list[i];
        assert list[..] == s;
        j := j + 1;
      }
    }

    /**
     * One segment of getPath, as written in both of its loops: dijkstra from
     * `current` to `next`, rejected when null or shorter than two nodes;
     * otherwise, when `trim` holds, its first node is removed, and it is
     * appended to the path and its calculateWeight to the cost.
     */
    method AppendSegment(currentPath: seq<nat>, currentCost: int, current: nat, next: nat, trim: bool)
      returns (r: Option<Progress>)
      requires Valid() && current < |nodes| && next < |nodes|
      ensures r == Extend(PathWeight(edges), SegmentFinder(Map()), Progress(currentPath, currentCost, current), next, trim)
    {
      var segment := Dijkstra(current, next);
      if segment.None? || |segment.value| < 2 {
        return None;
      }
      var piece := segment.value;
      if trim {
        piece := piece[1..];
      }
      var w := CalculateWeight(piece);
      return Some(Progress(currentPath + piece, Add(currentCost, w), next));
    }

    /**
     * The body of getPath's loop over the orderings: the waypoint loop and
     * the closing segment to `end`; None when a segment is rejected
     * (`failed`, or `continue`).
     */
    method TryOrdering(start: nat, end: nat, perm: seq<nat>) returns (r: Option<Progress>)
      requires Valid() && start < |nodes| && end < |nodes|
      requires forall k :: 0 <= k < |perm| ==> perm[k] < |nodes|
      ensures r == Attempt(PathWeight(edges), SegmentFinder(Map()), start, end, perm)
    {
      ghost var find := SegmentFinder(Map());
      ghost var weigh := PathWeight(edges);
      var currentPath: seq<nat> := [];
      var currentCost := 0;
      var current: nat := start;
      var k := 0;
      while k < |perm|
        invariant 0 <= k <= |perm| && current < |nodes|
        invariant Legs(weigh, find, start, perm, k) == Some(Progress(currentPath, currentCost, current))
      {
        var next := perm[k];
        LegsStep(weigh, find, start, perm, k, Progress(currentPath, currentCost, current));
        var step := AppendSegment(currentPath, currentCost, current, next, currentPath != []);
        if step.None? {
          // failed = true; break; and then `continue` past the closing segment
          LegsStayFailed(weigh, find, start, perm, k + 1, |perm|);
          return None;
        }
        currentPath, currentCost, current := step.value.path, step.value.cost, next;
        k := k + 1;
      }
      AttemptCloses(weigh, find, start, end, perm, Progress(currentPath, currentCost, current));
      r := AppendSegment(currentPath, currentCost, current, end, true);
    }

    /**
     * getPath(start, end, mustVisit): dijkstra when there is no waypoint;
     * otherwise every ordering that permute lists is tried, and the first
     * strictly cheapest one is kept.
     */
    method GetPath(start: nat, end: nat, mustVisit: seq<nat>) returns (r: Option<seq<nat>>)
      requires Valid() && start < |nodes| && end < |nodes|
      requires forall k :: 0 <= k < |mustVisit| ==> mustVisit[k] < |nodes|
      ensures r == Route(Map(), start, end, mustVisit)
    {
      if mustVisit == [] {
        r := Dijkstra(start, end);
        return;
      }
      var list := new nat[|mustVisit|](k requires 0 <= k < |mustVisit| => mustVisit[k]);
      assert list[..] == mustVisit;
      var permutations := Permute(list, 0, []);
      assert permutations == Permutations(mustVisit, 0);
      PermutationsRearrange(mustVisit, 0);
      forall i | 0 <= i < |permutations|
        ensures forall k :: 0 <= k < |permutations[i]| ==> permutations[i][k] < |nodes|
      {
        assert permutations[i] in permutations;
        RearrangedBelow(permutations[i], mustVisit, |nodes|);
      }
      r := CheapestOrdering(start, end, permutations);
    }

    /**
     * getPath's loop over the orderings: `bestPath` and `bestCost` are
     * replaced by an ordering only when it is strictly cheaper.
     */
    method CheapestOrdering(start: nat, end: nat, permutations: seq<seq<nat>>) returns (bestPath: Option<seq<nat>>)
      requires Valid() && start < |nodes| && end < |nodes|
      requires forall i, k :: 0 <= i < |permutations| && 0 <= k < |permutations[i]| ==> permutations[i][k] < |nodes|
      ensures bestPath == Best(Attempts(PathWeight(edges), SegmentFinder(Map()), start, end, permutations)).0
    {
      bestPath := None;
      var bestCost := MAX;
      ghost var atts := Attempts(PathWeight(edges), SegmentFinder(Map()), start, end, permutations);
      var idx := 0;
      while idx < |permutations|
        invariant 0 <= idx <= |permutations|
        invariant (bestPath, bestCost) == Best(atts[..idx])
      {
        var attempt := TryOrdering(start, end, permutations[idx]);
        BestStep(atts, idx);
        if attempt.Some? && attempt.value.cost < bestCost {
          bestCost := attempt.value.cost;
          bestPath := Some(attempt.value.path);
        }
        idx := idx + 1;
      }
      assert atts[..idx] == atts;
    }
  }

  /** A rearrangement of node indices below `n` holds only node indices below `n`. */
  lemma RearrangedBelow(p: seq<nat>, s: seq<nat>, n: nat)
    requires Rearranges(p, s, 0) && forall k :: 0 <= k < |s| ==> s[k] < n
    ensures forall k :: 0 <= k < |p| ==> p[k] < n
  {
    forall k | 0 <= k < |p|
      ensures p[k] < n
    {
      assert p[k] in multiset(p);
      assert p[k] in s;
    }
  }

  /** One more ordering for getPath's loop over the orderings. */
  lemma BestStep(atts: seq<Option<Progress>>, idx: nat)
    requires idx < |atts|
    ensures var b := Best(atts[..idx]);
      Best(atts[..idx + 1]) ==
        if atts[idx].Some? && atts[idx].value.cost < b.1 then (Some(atts[idx].value.path), atts[idx].value.cost) else b
  {
    assert atts[..idx + 1][..idx] == atts[..idx];
  }

  /** The walk back to `v` is the walk back to its predecessor, then `v`. */
  lemma TraceBack(g: Graph, st: Search, v: nat)
    requires WellFormed(g, st) && v in st.prev
    ensures st.prev[v] < g.size && Rank(st.visited, st.prev[v]) < Rank(st.visited, v)
    ensures Trace(g, st, v) == Trace(g, st, st.prev[v]) + [v]
  {
    PrevIsEarlier(g, st, v);
  }

  /** One step of the walk back along `prev`, in front of the nodes `rest` already walked. */
  lemma {:induction false} TraceStep(g: Graph, st: Search, v: nat, rest: seq<nat>)
    requires WellFormed(g, st) && v < g.size
    ensures v in st.prev ==> st.prev[v] < g.size && Rank(st.visited, st.prev[v]) < Rank(st.visited, v)
    ensures v in st.prev ==> Trace(g, st, v) + rest == Trace(g, st, st.prev[v]) + ([v] + rest)
    ensures v !in st.prev ==> Trace(g, st, v) + rest == [v] + rest
  {
    if v in st.prev {
      TraceBack(g, st, v);
      var before := Trace(g, st, st.prev[v]);
      assert (before + [v]) + rest == before + ([v] + rest);
    } else {
      TraceAtRoot(g, st, v);
    }
  }

  /** The walk back stops at a node without predecessor. */
  lemma TraceAtRoot(g: Graph, st: Search, v: nat)
    requires WellFormed(g, st) && v < g.size && v !in st.prev
    ensures Trace(g, st, v) == [v]
  {
  }

  /** A predecessor was visited before the node it leads to. */
  lemma PrevIsEarlier(g: Graph, st: Search, v: nat)
    requires WellFormed(g, st) && v in st.prev
    ensures st.prev[v] < g.size && Rank(st.visited, st.prev[v]) < Rank(st.visited, v)
  {
    assert st.prev[v] in st.visited;
  }

  /** An edge declared from `a` to `b`, preceded by none, is the first forward one. */
  lemma FirstForwardIs(edges: seq<Edge>, a: nat, b: nat, j: nat)
    requires j < |edges| && edges[j].from == a && edges[j].to == b
    requires forall k :: 0 <= k < j ==> !(edges[k].from == a && edges[k].to == b)
    ensures FirstForward(edges, a, b) == Some(j)
  {
    var r := FirstForward(edges, a, b);
    assert r.Some?;
    assert r.value <= j;
  }

  /** The first forward edge depends only on the endpoints. */
  lemma SameEndsFirstForward(e: seq<Edge>, f: seq<Edge>, a: nat, b: nat)
    requires SameEnds(e, f)
    ensures FirstForward(e, a, b) == FirstForward(f, a, b)
  {
    var r := FirstForward(f, a, b);
    if r.Some? {
      FirstForwardIs(e, a, b, r.value);
    }
  }

  /** Edge `k` is the first forward edge of one of the first `n` consecutive pairs. */
  ghost predicate OnFirstPairs(edges: seq<Edge>, path: seq<nat>, n: nat, k: nat) {
    exists i :: 0 <= i < n && i + 1 < |path| && FirstForward(edges, path[i], path[i + 1]) == Some(k)
  }

  /** The edge list once highlightPath has handled the first `n` consecutive pairs. */
  ghost function MarkedFirst(edges: seq<Edge>, path: seq<nat>, n: nat): (r: seq<Edge>)
    ensures SameEnds(r, edges)
  {
    seq(|edges|, k requires 0 <= k < |edges| =>
      edges[k].(highlighted := edges[k].highlighted || OnFirstPairs(edges, path, n, k)))
  }

  /** Handling pair `i` raises the flag of its first forward edge, if it has one. */
  lemma MarkedFirstStep(edges: seq<Edge>, path: seq<nat>, i: nat)
    requires i + 1 < |path|
    ensures var before := MarkedFirst(edges, path, i);
      MarkedFirst(edges, path, i + 1) ==
        match FirstForward(edges, path[i], path[i + 1])
        case None => before
        case Some(k) => before[k := before[k].(highlighted := true)]
  {
    var before := MarkedFirst(edges, path, i);
    var after := MarkedFirst(edges, path, i + 1);
    var f := FirstForward(edges, path[i], path[i + 1]);
    forall k | 0 <= k < |edges|
      ensures OnFirstPairs(edges, path, i + 1, k) <==> OnFirstPairs(edges, path, i, k) || f == Some(k)
    {
      if OnFirstPairs(edges, path, i + 1, k) && !OnFirstPairs(edges, path, i, k) {
        var i' :| 0 <= i' < i + 1 && i' + 1 < |path| && FirstForward(edges, path[i'], path[i' + 1]) == Some(k);
        assert i' == i;
      }
    }
  }

  /** One iteration of calculateWeight's loop adds the weight of step `i`. */
  lemma WeightPrefixStep(edges: seq<Edge>, path: seq<nat>, i: nat)
    requires i + 1 < |path|
    ensures Weight(edges, path[..i + 2]) == Add(Weight(edges, path[..i + 1]), StepWeight(edges, path[i], path[i + 1]))
  {
    assert path[..i + 2][..i + 1] == path[..i + 1];
  }

  /** One iteration of highlightPath's loop: raising the flag the lookup found handles pair `i`. */
  lemma MarkPair(orig: seq<Edge>, cur: seq<Edge>, path: seq<nat>, i: nat, found: Option<nat>)
    requires i + 1 < |path| && cur == MarkedFirst(orig, path, i)
    requires found == FirstForward(cur, path[i], path[i + 1])
    ensures found.Some? ==> found.value < |cur|
    ensures found.Some? ==> cur[found.value := cur[found.value].(highlighted := true)] == MarkedFirst(orig, path, i + 1)
    ensures found.None? ==> cur == MarkedFirst(orig, path, i + 1)
  {
    SameEndsFirstForward(cur, orig, path[i], path[i + 1]);
    MarkedFirstStep(orig, path, i);
  }

  /** Once every pair is handled, the edge list is highlightPath's result. */
  lemma MarkedFirstAll(edges: seq<Edge>, path: seq<nat>, n: nat)
    requires n + 1 >= |path| && (n == 0 || n < |path|)
    ensures MarkedFirst(edges, path, n) == Marked(edges, path)
  {
    forall k | 0 <= k < |edges|
      ensures OnFirstPairs(edges, path, n, k) <==> OnPath(edges, path, k)
    {
      if OnPath(edges, path, k) {
        var i :| 0 <= i < |path| - 1 && FirstForward(edges, path[i], path[i + 1]) == Some(k);
        assert OnFirstPairs(edges, path, n, k);
      }
    }
  }
}
