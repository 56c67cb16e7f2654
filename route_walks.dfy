/**
 * Whether the route getPath returns is one continuous walk from `start`
 * to `end`. Every segment after the first loses its first node, so that
 * it joins the route where the route stands; the result is a walk as
 * long as every segment itself starts at the node it was asked from.
 * Dijkstra guarantees that when its sums cannot overflow; when they do,
 * the route may begin somewhere else.
 */
module RouteWalks {
  import opened Wrappers
  import opened Int32
  import opened Graphs
  import opened Dijkstra
  import opened DijkstraOptimal
  import opened Orderings
  import opened Routing

  /** The nodes getPath asks segments between: the start, the end and the waypoints. */
  function Stops(start: nat, end: nat, mustVisit: seq<nat>): (r: set<nat>)
    ensures start in r && end in r && forall i :: 0 <= i < |mustVisit| ==> mustVisit[i] in r
  {
    {start, end} + set v | v in mustVisit
  }

  /** Every segment the finder returns between two of the `stops` is a walk that starts at the first. */
  ghost predicate WalksBetween(find: Finder, edges: seq<Edge>, stops: set<nat>) {
    forall a: nat, b: nat :: a in stops && b in stops && find(a, b).Some? ==>
      IsWalk(edges, find(a, b).value) && find(a, b).value[0] == a
  }

  /** A walk, then a walk from its last node with that shared node dropped, is a walk. */
  lemma WalkJoin(edges: seq<Edge>, a: seq<nat>, s: seq<nat>)
    requires IsWalk(edges, a) && IsWalk(edges, s) && s[0] == a[|a| - 1]
    ensures IsWalk(edges, a + s[1..]) && (a + s[1..])[0] == a[0]
    ensures (a + s[1..])[|a + s[1..]| - 1] == s[|s| - 1]
  {
    var r := a + s[1..];
    forall i | 0 <= i < |r| - 1
      ensures LinkedAt(edges, r, i)
    {
      if i < |a| - 1 {
        assert LinkedAt(edges, a, i);
      } else {
        var j := i - |a| + 1;
        assert r[i] == s[j] && r[i + 1] == s[j + 1];
        assert LinkedAt(edges, s, j);
      }
    }
  }

  /** A segment the finder returns between two stops is a walk from the first. */
  lemma SegmentWalks(find: Finder, edges: seq<Edge>, stops: set<nat>, a: nat, b: nat)
    requires WalksBetween(find, edges, stops) && a in stops && b in stops && find(a, b).Some?
    ensures IsWalk(edges, find(a, b).value) && find(a, b).value[0] == a
  {
  }

  /** What an extension appends: the whole segment, or the segment without its first node. */
  lemma ExtendAppends(weigh: Weigher, find: Finder, p: Progress, next: nat, trim: bool, q: Progress)
    requires Extend(weigh, find, p, next, trim) == Some(q)
    ensures find(p.current, next).Some? && |find(p.current, next).value| >= 2
    ensures q.path == p.path + if trim then find(p.current, next).value[1..] else find(p.current, next).value
  {
  }

  /** The first segment, kept whole, is a walk from `start` to the first waypoint. */
  lemma FirstLegWalks(weigh: Weigher, find: Finder, edges: seq<Edge>, stops: set<nat>, p: Progress, next: nat, q: Progress)
    requires WalksBetween(find, edges, stops) && p.current in stops && next in stops
    requires p.path == [] && Extend(weigh, find, p, next, false) == Some(q)
    ensures IsWalk(edges, q.path) && q.path[0] == p.current && q.path[|q.path| - 1] == q.current
  {
    ExtendAppends(weigh, find, p, next, false, q);
    SegmentWalks(find, edges, stops, p.current, next);
  }

  /** A later segment, trimmed, continues a walk that stands at its first node. */
  lemma LaterLegWalks(weigh: Weigher, find: Finder, edges: seq<Edge>, stops: set<nat>, p: Progress, next: nat, q: Progress)
    requires WalksBetween(find, edges, stops) && p.current in stops && next in stops
    requires IsWalk(edges, p.path) && p.path[|p.path| - 1] == p.current
    requires Extend(weigh, find, p, next, true) == Some(q)
    ensures IsWalk(edges, q.path) && q.path[0] == p.path[0] && q.path[|q.path| - 1] == q.current
  {
    ExtendAppends(weigh, find, p, next, true, q);
    SegmentWalks(find, edges, stops, p.current, next);
    WalkJoin(edges, p.path, find(p.current, next).value);
  }

  /** One more waypoint after the first keeps the route a walk from `start`. */
  lemma LegsWalkStep(weigh: Weigher, find: Finder, edges: seq<Edge>, start: nat, perm: seq<nat>,
                     stops: set<nat>, k: nat, p: Progress, q: Progress)
    requires WalksBetween(find, edges, stops)
    requires forall i :: 0 <= i < |perm| ==> perm[i] in stops
    requires 2 <= k <= |perm| && Legs(weigh, find, start, perm, k - 1) == Some(p) && Legs(weigh, find, start, perm, k) == Some(q)
    requires IsWalk(edges, p.path) && p.path[0] == start && p.path[|p.path| - 1] == p.current
    ensures IsWalk(edges, q.path) && q.path[0] == start && q.path[|q.path| - 1] == q.current
  {
    LegsStep(weigh, find, start, perm, k - 1, p);
    assert p.current == perm[k - 2] && p.path != [];
    LaterLegWalks(weigh, find, edges, stops, p, perm[k - 1], q);
  }

  /** After its first k ≥ 1 waypoints, the route of an ordering is a walk from `start` to where it stands. */
  lemma {:induction false} LegsWalk(weigh: Weigher, find: Finder, edges: seq<Edge>, start: nat, perm: seq<nat>,
                                    stops: set<nat>, k: nat, q: Progress)
    requires WalksBetween(find, edges, stops) && start in stops
    requires forall i :: 0 <= i < |perm| ==> perm[i] in stops
    requires 1 <= k <= |perm| && Legs(weigh, find, start, perm, k) == Some(q)
    ensures IsWalk(edges, q.path) && q.path[0] == start && q.path[|q.path| - 1] == q.current
  {
    var before := Legs(weigh, find, start, perm, k - 1);
    assert before.Some?;
    var p := before.value;
    if k == 1 {
      LegsStep(weigh, find, start, perm, 0, p);
      FirstLegWalks(weigh, find, edges, stops, p, perm[0], q);
    } else {
      LegsWalk(weigh, find, edges, start, perm, stops, k - 1, p);
      LegsWalkStep(weigh, find, edges, start, perm, stops, k, p, q);
    }
  }

  /** A successful ordering with at least one waypoint yields a walk from `start` to `end`. */
  lemma AttemptWalk(weigh: Weigher, find: Finder, edges: seq<Edge>, start: nat, end: nat, perm: seq<nat>, stops: set<nat>)
    requires WalksBetween(find, edges, stops) && start in stops && end in stops
    requires perm != [] && forall i :: 0 <= i < |perm| ==> perm[i] in stops
    requires Attempt(weigh, find, start, end, perm).Some?
    ensures IsWalkBetween(edges, Attempt(weigh, find, start, end, perm).value.path, start, end)
  {
    assert Legs(weigh, find, start, perm, |perm|).Some?;
    var p := Legs(weigh, find, start, perm, |perm|).value;
    LegsWalk(weigh, find, edges, start, perm, stops, |perm|, p);
    AttemptCloses(weigh, find, start, end, perm, p);
    LaterLegWalks(weigh, find, edges, stops, p, end, Attempt(weigh, find, start, end, perm).value);
  }

  /**
   * When every segment between two stops is a walk from its first node,
   * the tour getPath keeps is a walk from `start` to `end`.
   */
  lemma TourWalk(weigh: Weigher, find: Finder, edges: seq<Edge>, start: nat, end: nat, mustVisit: seq<nat>)
    requires mustVisit != [] && WalksBetween(find, edges, Stops(start, end, mustVisit))
    requires Tour(weigh, find, start, end, mustVisit).Some?
    ensures IsWalkBetween(edges, Tour(weigh, find, start, end, mustVisit).value, start, end)
  {
    var stops := Stops(start, end, mustVisit);
    var perms := Permutations(mustVisit, 0);
    var atts := Attempts(weigh, find, start, end, perms);
    BestIsFirstCheapest(atts);
    PermutationsRearrange(mustVisit, 0);
    var i: nat :| FirstCheapest(atts, i) && Best(atts) == (Some(atts[i].value.path), atts[i].value.cost);
    var p := perms[i];
    assert p in perms;
    forall k | 0 <= k < |p|
      ensures p[k] in stops
    {
      assert p[k] in multiset(mustVisit);
      var m :| 0 <= m < |mustVisit| && mustVisit[m] == p[k];
    }
    AttemptWalk(weigh, find, edges, start, end, p, stops);
  }

  /** Dijkstra from `a` reaches `b` without overflow, or `a` is `b`. */
  ghost predicate SafeLeg(g: Graph, a: nat, b: nat) {
    a == b || exists w :: SafelyReachable(g, a, b, w)
  }

  /** Dijkstra segments between stops that reach each other safely are walks from their first node. */
  lemma SegmentsWalk(g: Graph, stops: set<nat>)
    requires Valid(g)
    requires forall a: nat, b: nat :: a in stops && b in stops ==> SafeLeg(g, a, b)
    ensures WalksBetween(SegmentFinder(g), g.edges, stops)
  {
    var find := SegmentFinder(g);
    forall a: nat, b: nat | a in stops && b in stops && find(a, b).Some?
      ensures IsWalk(g.edges, find(a, b).value) && find(a, b).value[0] == a
    {
      assert a < g.size && b < g.size;
      if a == b {
        ShortestPathToSelf(g, a);
      } else {
        assert SafeLeg(g, a, b);
        var w :| SafelyReachable(g, a, b, w);
        ShortestPathOptimal(g, a, b, w);
      }
    }
  }

  /**
   * Without overflow, a route getPath returns is one continuous walk from
   * `start` to `end`: every step of it follows an edge of the map.
   */
  lemma RouteIsWalk(g: Graph, start: nat, end: nat, mustVisit: seq<nat>)
    requires Valid(g) && start < g.size && end < g.size
    requires forall a: nat, b: nat :: a in Stops(start, end, mustVisit) && b in Stops(start, end, mustVisit) ==> SafeLeg(g, a, b)
    requires Route(g, start, end, mustVisit).Some?
    ensures IsWalkBetween(g.edges, Route(g, start, end, mustVisit).value, start, end)
  {
    if mustVisit == [] {
      assert SafeLeg(g, start, end);
      if start == end {
        ShortestPathToSelf(g, start);
      } else {
        var w :| SafelyReachable(g, start, end, w);
        ShortestPathOptimal(g, start, end, w);
      }
    } else {
      SegmentsWalk(g, Stops(start, end, mustVisit));
      TourWalk(PathWeight(g.edges), SegmentFinder(g), g.edges, start, end, mustVisit);
    }
  }

  /** dijkstra(2, 1) in the overflow graph: the first iteration selects 2 and gives 1 the distance 1. */
  lemma {:induction false} OverflowBackLegFirstIteration()
    ensures var g := OverflowGraph();
      var s1 := Search([MAX, 1, 0], map[1 := 2], {0, 1}, [2]);
      && WellFormed(g, Init(3, 2)) && WellFormed(g, s1)
      && Explore(g, 1, Init(3, 2)) == Explore(g, 1, s1)
  {
    var g := OverflowGraph();
    var s0 := Init(3, 2);
    InitWellFormed(g, 2);
    assert s0.dist == [MAX, MAX, 0];
    assert s0.unvisited == {0, 1, 2};
    assert Pick(s0.dist, s0.unvisited, 3) == Some(2);
    VisitWellFormed(g, s0, 2);
    RelaxWellFormed(g, Visit(s0, 2), 2);
    assert RelaxAll(g.edges, 2, Visit(s0, 2), 1) == Search([MAX, 1, 0], map[1 := 2], {0, 1}, [2]);
  }

  /** The second iteration selects 1, the target, and the walk back along `prev` is [2, 1]. */
  lemma {:induction false} OverflowBackLeg()
    ensures ShortestPath(OverflowGraph(), 2, 1) == Some([2, 1])
  {
    var g := OverflowGraph();
    var s1 := Search([MAX, 1, 0], map[1 := 2], {0, 1}, [2]);
    OverflowBackLegFirstIteration();
    OverflowBackTrace();
    assert Pick(s1.dist, s1.unvisited, 3) == Some(1);
    assert Explore(g, 1, s1) == s1;
  }

  /** In that state the predecessor links lead from 1 back to 2. */
  lemma OverflowBackTrace()
    ensures var s1 := Search([MAX, 1, 0], map[1 := 2], {0, 1}, [2]);
      WellFormed(OverflowGraph(), s1) && Trace(OverflowGraph(), s1, 1) == [2, 1]
  {
    var g := OverflowGraph();
    var s1 := Search([MAX, 1, 0], map[1 := 2], {0, 1}, [2]);
    assert Linked(g.edges, 2, 1);
    assert WellFormed(g, s1);
    assert Trace(g, s1, 2) == [2];
  }

  /** With a single waypoint, an ordering is the segment to it followed by the trimmed segment to `end`. */
  lemma SingleStopAttempt(weigh: Weigher, find: Finder, start: nat, stop: nat, end: nat, s1: seq<nat>, s2: seq<nat>)
    requires find(start, stop) == Some(s1) && |s1| >= 2
    requires find(stop, end) == Some(s2) && |s2| >= 2
    ensures Attempt(weigh, find, start, end, [stop]) ==
      Some(Progress(s1 + s2[1..], Add(Add(0, weigh(s1)), weigh(s2[1..])), end))
  {
    var p := Progress(s1, Add(0, weigh(s1)), stop);
    LegsStep(weigh, find, start, [stop], 0, Progress([], 0, start));
    assert [] + s1 == s1;
    AttemptCloses(weigh, find, start, end, [stop], p);
  }

  /** With a single waypoint there is one ordering, and getPath keeps it when it is a candidate. */
  lemma SingleStopTour(weigh: Weigher, find: Finder, start: nat, end: nat, stop: nat)
    requires Candidate(Attempt(weigh, find, start, end, [stop]))
    ensures Tour(weigh, find, start, end, [stop]) == Some(Attempt(weigh, find, start, end, [stop]).value.path)
  {
    assert Permutations([stop], 0) == [[stop]] by {
      assert Swap([stop], 0, 0) == [stop];
      assert Permutations([stop], 1) == [[stop]];
      assert Branches([stop], 0, 0) == [];
      assert Branches([stop], 0, 1) == [] + Permutations([stop], 1);
    }
    var a := Attempt(weigh, find, start, end, [stop]);
    assert Attempts(weigh, find, start, end, [[stop]]) == [a];
    assert [a][..0] == [];
    assert Best([a]) == (Some(a.value.path), a.value.cost);
    assert Tour(weigh, find, start, end, [stop]) == Best([a]).0;
  }

  /** A single waypoint whose two segments succeed below Integer.MAX_VALUE: getPath returns them joined. */
  lemma SingleStopRoute(weigh: Weigher, find: Finder, start: nat, stop: nat, end: nat, s1: seq<nat>, s2: seq<nat>)
    requires find(start, stop) == Some(s1) && |s1| >= 2
    requires find(stop, end) == Some(s2) && |s2| >= 2
    requires Add(Add(0, weigh(s1)), weigh(s2[1..])) < MAX
    ensures Tour(weigh, find, start, end, [stop]) == Some(s1 + s2[1..])
  {
    SingleStopAttempt(weigh, find, start, stop, end, s1, s2);
    SingleStopTour(weigh, find, start, end, stop);
  }

  /** The two segments getPath(0, 1, [2]) asks for in the overflow graph: [1, 2] and [2, 1]. */
  lemma OverflowSegments()
    ensures var g := OverflowGraph();
      SegmentFinder(g)(0, 2) == Some([1, 2]) && SegmentFinder(g)(2, 1) == Some([2, 1])
  {
    OverflowRoutesUnreachable();
    OverflowBackLeg();
  }

  /** What getPath charges for them: 1 for [1, 2] and 0 for the trimmed [1]; they join into [1, 2, 1]. */
  lemma OverflowCharges()
    ensures var g := OverflowGraph();
      && Add(Add(0, PathWeight(g.edges)([1, 2])), PathWeight(g.edges)([2, 1][1..])) == 1
      && [1, 2] + [2, 1][1..] == [1, 2, 1]
  {
    var g := OverflowGraph();
    WeightDropFirst(g.edges, [1, 2]);
    assert FirstForward(g.edges, 1, 2) == Some(0);
    assert Weight(g.edges, [1, 2]) == 1;
    assert [2, 1][1..] == [1];
    assert Add(Add(0, 1), 0) == 1;
  }

  /** getPath(0, 1, [2]) on the overflow graph keeps the single ordering, whose route is [1, 2, 1]. */
  lemma OverflowTour()
    ensures var g := OverflowGraph();
      Tour(PathWeight(g.edges), SegmentFinder(g), 0, 1, [2]) == Some([1, 2, 1])
  {
    var g := OverflowGraph();
    OverflowSegments();
    OverflowCharges();
    SingleStopRoute(PathWeight(g.edges), SegmentFinder(g), 0, 2, 1, [1, 2], [2, 1]);
  }

  /**
   * The hypothesis of RouteIsWalk cannot be dropped. In the overflow graph
   * (three nodes, one edge from 1 to 2), getPath(0, 1, [2]) asks
   * dijkstra(0, 2), which returns [1, 2] through the wrapped sum, then
   * dijkstra(2, 1) = [2, 1]; the route [1, 2, 1] begins at 1, not at 0.
   */
  lemma OverflowTourStartsElsewhere()
    ensures Route(OverflowGraph(), 0, 1, [2]) == Some([1, 2, 1])
    ensures !IsWalkBetween(OverflowGraph().edges, [1, 2, 1], 0, 1)
  {
    OverflowTour();
  }
}
