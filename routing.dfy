/**
 * GraphData.getPath: the route from `start` to `end` through a list of
 * waypoints. Every ordering of the waypoints, in the order `permute` lists
 * them, is chained from dijkstra segments; the first ordering strictly
 * cheaper than all before it is kept.
 */
module Routing {
  import opened Wrappers
  import opened Int32
  import opened Graphs
  import opened Dijkstra
  import opened Orderings

  /**
   * What getPath asks for each segment: a route from the first node that
   * ends at the second, or None for Java's null. The model of getPath
   * itself uses dijkstra (`SegmentFinder`); the lemmas about the waypoint
   * loop hold for any finder.
   */
  type Finder = find: (nat, nat) -> Option<seq<nat>> | EndsAtTarget(find)
    witness (a: nat, b: nat) => None

  /** Every route the finder returns is non-empty and ends at the node asked for. */
  ghost predicate EndsAtTarget(find: (nat, nat) -> Option<seq<nat>>) {
    forall a: nat, b: nat :: find(a, b).Some? ==> find(a, b).value != [] && find(a, b).value[|find(a, b).value| - 1] == b
  }

  /** dijkstra of the graph, as a segment finder (None outside the graph). */
  function SegmentFinder(g: Graph): (find: Finder)
    requires Valid(g)
    ensures forall a: nat, b: nat :: a < g.size && b < g.size ==> find(a, b) == ShortestPath(g, a, b)
    ensures forall a: nat, b: nat :: find(a, b).Some? ==> a < g.size && b < g.size
  {
    (a: nat, b: nat) => if a < g.size && b < g.size then ShortestPath(g, a, b) else None
  }

  /** What getPath charges for a segment it appends: a weight for any node list. */
  type Weigher = seq<nat> -> int

  /** calculateWeight over the graph's edges, as the weigher of getPath. */
  function PathWeight(edges: seq<Edge>): (weigh: Weigher)
    ensures forall q :: weigh(q) == Weight(edges, q)
  {
    q => Weight(edges, q)
  }

  /** One ordering under way: the route so far, its Java int cost, and the node reached. */
  datatype Progress = Progress(path: seq<nat>, cost: int, current: nat)

  /**
   * Appending the segment from the current node to `next`: rejected when
   * it is null or has fewer than two nodes; otherwise its first node is
   * dropped when `trim` holds, and the cost grows by the weight (calculateWeight) of what
   * is appended.
   */
  function Extend(weigh: Weigher, find: Finder, p: Progress, next: nat, trim: bool): (r: Option<Progress>)
    ensures r.None? <==> find(p.current, next).None? || |find(p.current, next).value| < 2
    ensures r.Some? ==> r.value.current == next && |r.value.path| > |p.path|
    ensures r.Some? ==> r.value.path[..|p.path|] == p.path && r.value.path[|r.value.path| - 1] == next
  {
    match find(p.current, next)
    case None => None
    case Some(seg) =>
      if |seg| < 2 then None
      else
        var piece := if trim then seg[1..] else seg;
        Some(Progress(p.path + piece, Add(p.cost, weigh(piece)), next))
  }

  /**
   * The waypoint loop of one ordering after its first `k` waypoints; None
   * once a segment has been rejected. Only the first segment keeps its
   * first node.
   */
  function Legs(weigh: Weigher, find: Finder, start: nat, perm: seq<nat>, k: nat): (r: Option<Progress>)
    requires k <= |perm|
    ensures r.Some? ==> r.value.current == if k == 0 then start else perm[k - 1]
    ensures r.Some? ==> (r.value.path == [] <==> k == 0)
  {
    if k == 0 then Some(Progress([], 0, start))
    else
      match Legs(weigh, find, start, perm, k - 1)
      case None => None
      case Some(p) => Extend(weigh, find, p, perm[k - 1], p.path != [])
  }

  /** One more waypoint: the legs so far extended by the segment to `perm[k]`. */
  lemma LegsStep(weigh: Weigher, find: Finder, start: nat, perm: seq<nat>, k: nat, p: Progress)
    requires k < |perm| && Legs(weigh, find, start, perm, k) == Some(p)
    ensures Legs(weigh, find, start, perm, k + 1) == Extend(weigh, find, p, perm[k], p.path != [])
  {
  }

  /** Nodes `s[..m]` found in a route are still found in any extension of it. */
  lemma PrefixKeepsMembers(before: seq<nat>, after: seq<nat>, s: seq<nat>, m: nat)
    requires m <= |s| && |before| <= |after| && after[..|before|] == before
    requires forall i :: 0 <= i < m ==> s[i] in before
    ensures forall i :: 0 <= i < m ==> s[i] in after
  {
    forall i | 0 <= i < m
      ensures s[i] in after
    {
      var j :| 0 <= j < |before| && before[j] == s[i];
      assert after[j] == before[j];
    }
  }

  /** A successful waypoint loop has passed each of the waypoints it has handled. */
  lemma {:induction false} LegsPassWaypoints(weigh: Weigher, find: Finder, start: nat, perm: seq<nat>, k: nat, q: Progress)
    requires k <= |perm| && Legs(weigh, find, start, perm, k) == Some(q)
    ensures forall i :: 0 <= i < k ==> perm[i] in q.path
  {
    if k > 0 {
      var before := Legs(weigh, find, start, perm, k - 1);
      assert before.Some?;
      LegsPassWaypoints(weigh, find, start, perm, k - 1, before.value);
      LegsStep(weigh, find, start, perm, k - 1, before.value);
      ExtendKeepsMembers(weigh, find, before.value, perm[k - 1], before.value.path != [], q, perm, k - 1);
    }
  }

  /** Extending a route keeps the nodes `s[..m]` it passed and adds `next`. */
  lemma ExtendKeepsMembers(weigh: Weigher, find: Finder, p: Progress, next: nat, trim: bool, q: Progress, s: seq<nat>, m: nat)
    requires Extend(weigh, find, p, next, trim) == Some(q)
    requires m < |s| && s[m] == next
    requires forall i :: 0 <= i < m ==> s[i] in p.path
    ensures forall i :: 0 <= i <= m ==> s[i] in q.path
  {
    PrefixKeepsMembers(p.path, q.path, s, m);
    assert q.path[|q.path| - 1] == next;
  }

  /** One ordering, closed by the segment to `end`, whose first node is always dropped. */
  function Attempt(weigh: Weigher, find: Finder, start: nat, end: nat, perm: seq<nat>): (r: Option<Progress>)
    ensures r.Some? ==> r.value.path != [] && r.value.path[|r.value.path| - 1] == end
  {
    match Legs(weigh, find, start, perm, |perm|)
    case None => None
    case Some(p) => Extend(weigh, find, p, end, true)
  }

  /** After the last waypoint, the attempt is the closing segment to `end`. */
  lemma AttemptCloses(weigh: Weigher, find: Finder, start: nat, end: nat, perm: seq<nat>, p: Progress)
    requires Legs(weigh, find, start, perm, |perm|) == Some(p)
    ensures Attempt(weigh, find, start, end, perm) == Extend(weigh, find, p, end, true)
  {
  }

  /** A successful ordering's route passes every one of its waypoints. */
  lemma AttemptPassesWaypoints(weigh: Weigher, find: Finder, start: nat, end: nat, perm: seq<nat>)
    requires Attempt(weigh, find, start, end, perm).Some?
    ensures forall i :: 0 <= i < |perm| ==> perm[i] in Attempt(weigh, find, start, end, perm).value.path
  {
    var p := Legs(weigh, find, start, perm, |perm|).value;
    LegsPassWaypoints(weigh, find, start, perm, |perm|, p);
    PrefixKeepsMembers(p.path, Attempt(weigh, find, start, end, perm).value.path, perm, |perm|);
  }

  /** An ordering that succeeded at a cost that can beat the initial Integer.MAX_VALUE. */
  predicate Candidate(a: Option<Progress>) {
    a.Some? && a.value.cost < MAX
  }

  /**
   * The loop over the orderings: `bestPath` and `bestCost`, replaced by an
   * ordering only when it is strictly cheaper.
   */
  function Best(attempts: seq<Option<Progress>>): (r: (Option<seq<nat>>, int))
    ensures r.1 <= MAX && (r.0.None? ==> r.1 == MAX)
  {
    if attempts == [] then (None, MAX)
    else
      var b := Best(attempts[..|attempts| - 1]);
      var a := attempts[|attempts| - 1];
      if a.Some? && a.value.cost < b.1 then (Some(a.value.path), a.value.cost) else b
  }

  /**
   * Ordering `i` is a candidate, strictly cheaper than every earlier
   * candidate and no dearer than any later one.
   */
  ghost predicate FirstCheapest(attempts: seq<Option<Progress>>, i: nat) {
    && i < |attempts| && Candidate(attempts[i])
    && (forall j :: 0 <= j < i && Candidate(attempts[j]) ==> attempts[i].value.cost < attempts[j].value.cost)
    && (forall j :: i < j < |attempts| && Candidate(attempts[j]) ==> attempts[i].value.cost <= attempts[j].value.cost)
  }

  /** The first cheapest candidate costs no more than any candidate. */
  lemma FirstCheapestIsCheapest(attempts: seq<Option<Progress>>, i: nat, j: nat)
    requires FirstCheapest(attempts, i) && j < |attempts| && Candidate(attempts[j])
    ensures attempts[i].value.cost <= attempts[j].value.cost
  {
  }

  /** The loop keeps the first cheapest candidate, and keeps nothing when there is no candidate. */
  lemma {:induction false} BestIsFirstCheapest(attempts: seq<Option<Progress>>)
    ensures Best(attempts).0.None? <==> forall j :: 0 <= j < |attempts| ==> !Candidate(attempts[j])
    ensures Best(attempts).0.Some? ==> exists i: nat :: (FirstCheapest(attempts, i) &&
      Best(attempts) == (Some(attempts[i].value.path), attempts[i].value.cost))
  {
    if attempts != [] {
      var n := |attempts|;
      var pre := attempts[..n - 1];
      var a := attempts[n - 1];
      var b := Best(pre);
      BestIsFirstCheapest(pre);
      if a.Some? && a.value.cost < b.1 {
        if b.0.Some? {
          var i: nat :| FirstCheapest(pre, i) && b == (Some(pre[i].value.path), pre[i].value.cost);
          LastIsFirstCheapest(attempts, b.1);
        } else {
          LastIsFirstCheapest(attempts, b.1);
        }
      } else if b.0.Some? {
        var i: nat :| FirstCheapest(pre, i) && b == (Some(pre[i].value.path), pre[i].value.cost);
        EarlierStaysFirstCheapest(attempts, i);
      } else {
        NoCandidateYet(attempts);
      }
    }
  }

  /** A last ordering cheaper than the best cost so far is the first cheapest one. */
  lemma LastIsFirstCheapest(attempts: seq<Option<Progress>>, best: int)
    requires attempts != [] && Candidate(attempts[|attempts| - 1])
    requires attempts[|attempts| - 1].value.cost < best
    requires forall j :: 0 <= j < |attempts| - 1 && Candidate(attempts[j]) ==> best <= attempts[j].value.cost
    ensures FirstCheapest(attempts, |attempts| - 1)
  {
  }

  /** The first cheapest of all but the last ordering stays so when the last is no cheaper. */
  lemma EarlierStaysFirstCheapest(attempts: seq<Option<Progress>>, i: nat)
    requires attempts != [] && FirstCheapest(attempts[..|attempts| - 1], i)
    requires var a := attempts[|attempts| - 1]; !(a.Some? && a.value.cost < attempts[i].value.cost)
    ensures FirstCheapest(attempts, i)
  {
    var pre := attempts[..|attempts| - 1];
    assert forall j :: 0 <= j < |pre| ==> attempts[j] == pre[j];
  }

  /** With no candidate before it and the loop keeping nothing, the last ordering is no candidate either. */
  lemma NoCandidateYet(attempts: seq<Option<Progress>>)
    requires attempts != []
    requires var pre := attempts[..|attempts| - 1]; forall j :: 0 <= j < |pre| ==> !Candidate(pre[j])
    ensures Best(attempts).0.None? ==> forall j :: 0 <= j < |attempts| ==> !Candidate(attempts[j])
  {
  }

  /** The attempts of a list of orderings, in list order. */
  function Attempts(weigh: Weigher, find: Finder, start: nat, end: nat, perms: seq<seq<nat>>): (r: seq<Option<Progress>>)
    ensures |r| == |perms|
    ensures forall i :: 0 <= i < |perms| ==> r[i] == Attempt(weigh, find, start, end, perms[i])
  {
    seq(|perms|, i requires 0 <= i < |perms| => Attempt(weigh, find, start, end, perms[i]))
  }

  /**
   * The waypoint branch of getPath: every ordering `permute` lists is
   * attempted, and the route of the one the loop keeps is returned (None,
   * i.e. null, when it keeps none).
   */
  function Tour(weigh: Weigher, find: Finder, start: nat, end: nat, mustVisit: seq<nat>): (r: Option<seq<nat>>)
    ensures r.Some? ==> r.value != [] && r.value[|r.value| - 1] == end
  {
    var atts := Attempts(weigh, find, start, end, Permutations(mustVisit, 0));
    BestIsFirstCheapest(atts);
    Best(atts).0
  }

  /**
   * getPath(start, end, mustVisit): dijkstra when there is no waypoint,
   * otherwise the tour through the waypoints built from dijkstra segments.
   */
  function Route(g: Graph, start: nat, end: nat, mustVisit: seq<nat>): (r: Option<seq<nat>>)
    requires Valid(g) && start < g.size && end < g.size
    ensures mustVisit == [] ==> r == ShortestPath(g, start, end)
    ensures mustVisit != [] ==> r == Tour(PathWeight(g.edges), SegmentFinder(g), start, end, mustVisit)
  {
    if mustVisit == [] then ShortestPath(g, start, end)
    else Tour(PathWeight(g.edges), SegmentFinder(g), start, end, mustVisit)
  }

  /**
   * The tour is None (getPath returns null) exactly when no ordering of the
   * waypoints, in any order whatsoever, succeeds at a cost below
   * Integer.MAX_VALUE.
   */
  lemma TourFailsIffEveryOrderFails(weigh: Weigher, find: Finder, start: nat, end: nat, mustVisit: seq<nat>)
    ensures Tour(weigh, find, start, end, mustVisit).None? <==>
      forall p :: Rearranges(p, mustVisit, 0) ==> !Candidate(Attempt(weigh, find, start, end, p))
  {
    var perms := Permutations(mustVisit, 0);
    var atts := Attempts(weigh, find, start, end, perms);
    BestIsFirstCheapest(atts);
    PermutationsRearrange(mustVisit, 0);
    forall p | Rearranges(p, mustVisit, 0) && Candidate(Attempt(weigh, find, start, end, p))
      ensures Tour(weigh, find, start, end, mustVisit).Some?
    {
      PermutationsComplete(mustVisit, 0, p);
      var j :| 0 <= j < |perms| && perms[j] == p;
      assert Candidate(atts[j]);
    }
    if Tour(weigh, find, start, end, mustVisit).Some? {
      var i :| 0 <= i < |atts| && Candidate(atts[i]);
      assert perms[i] in perms;
    }
  }

  /** A tour that getPath returns passes every waypoint. */
  lemma TourPassesWaypoints(weigh: Weigher, find: Finder, start: nat, end: nat, mustVisit: seq<nat>)
    requires Tour(weigh, find, start, end, mustVisit).Some?
    ensures forall i :: 0 <= i < |mustVisit| ==> mustVisit[i] in Tour(weigh, find, start, end, mustVisit).value
  {
    var perms := Permutations(mustVisit, 0);
    var atts := Attempts(weigh, find, start, end, perms);
    BestIsFirstCheapest(atts);
    PermutationsRearrange(mustVisit, 0);
    var i: nat :| FirstCheapest(atts, i) && Best(atts) == (Some(atts[i].value.path), atts[i].value.cost);
    var p := perms[i];
    assert p in perms;
    AttemptPassesWaypoints(weigh, find, start, end, p);
    var route := atts[i].value.path;
    forall k | 0 <= k < |mustVisit|
      ensures mustVisit[k] in route
    {
      assert mustVisit[k] in multiset(p);
      var m :| 0 <= m < |p| && p[m] == mustVisit[k];
    }
  }

  /**
   * A tour that getPath returns is the route of an ordering whose cost is
   * no more than that of any other ordering.
   */
  lemma TourIsCheapestOrdering(weigh: Weigher, find: Finder, start: nat, end: nat, mustVisit: seq<nat>)
    requires Tour(weigh, find, start, end, mustVisit).Some?
    ensures exists p :: (Rearranges(p, mustVisit, 0) && Candidate(Attempt(weigh, find, start, end, p)) &&
      Attempt(weigh, find, start, end, p).value.path == Tour(weigh, find, start, end, mustVisit).value &&
      forall p' :: Rearranges(p', mustVisit, 0) && Candidate(Attempt(weigh, find, start, end, p')) ==>
        Attempt(weigh, find, start, end, p).value.cost <= Attempt(weigh, find, start, end, p').value.cost)
  {
    var perms := Permutations(mustVisit, 0);
    var atts := Attempts(weigh, find, start, end, perms);
    BestIsFirstCheapest(atts);
    PermutationsRearrange(mustVisit, 0);
    var i: nat :| FirstCheapest(atts, i) && Best(atts) == (Some(atts[i].value.path), atts[i].value.cost);
    var p := perms[i];
    assert p in perms;
    forall p' | Rearranges(p', mustVisit, 0) && Candidate(Attempt(weigh, find, start, end, p'))
      ensures atts[i].value.cost <= Attempt(weigh, find, start, end, p').value.cost
    {
      PermutationsComplete(mustVisit, 0, p');
      var j :| 0 <= j < |perms| && perms[j] == p';
      FirstCheapestIsCheapest(atts, i, j);
    }
    assert Rearranges(p, mustVisit, 0) && atts[i] == Attempt(weigh, find, start, end, p);
    assert Tour(weigh, find, start, end, mustVisit).value == atts[i].value.path;
  }

  /**
   * The cost getPath charges a trimmed segment misses its first step: the
   * charged cost plus calculateWeight of that step is the cost of the whole
   * segment.
   */
  lemma TrimmedSegmentUndercounts(edges: seq<Edge>, find: Finder, p: Progress, next: nat)
    requires Extend(PathWeight(edges), find, p, next, true).Some?
    ensures var seg := find(p.current, next).value;
      Add(Extend(PathWeight(edges), find, p, next, true).value.cost, Weight(edges, seg[..2])) == Add(p.cost, Weight(edges, seg))
  {
    var seg := find(p.current, next).value;
    assert Extend(PathWeight(edges), find, p, next, true).value.cost == Add(p.cost, Weight(edges, seg[1..]));
    ChargeSplits(edges, seg, p.cost);
  }

  /** Charging a path's first step after the rest is charging the whole path. */
  lemma ChargeSplits(edges: seq<Edge>, seg: seq<nat>, c: int)
    requires |seg| >= 2
    ensures Add(Add(c, Weight(edges, seg[1..])), Weight(edges, seg[..2])) == Add(c, Weight(edges, seg))
  {
    var w, s := Weight(edges, seg[1..]), StepWeight(edges, seg[0], seg[1]);
    WeightDropFirst(edges, seg);
    WeightDropFirst(edges, seg[..2]);
    assert seg[..2][1..] == [seg[1]];
    assert Weight(edges, seg[..2]) == Wrap(s);
    AddWrapLeft(s, Add(c, w));
    AddAssociative(s, c, w);
    AddAssociative(c, s, w);
  }

  /** Once an ordering has failed it stays failed. */
  lemma {:induction false} LegsStayFailed(weigh: Weigher, find: Finder, start: nat, perm: seq<nat>, k: nat, m: nat)
    requires k <= m <= |perm| && Legs(weigh, find, start, perm, k).None?
    ensures Legs(weigh, find, start, perm, m).None?
    decreases m - k
  {
    if k < m {
      LegsStayFailed(weigh, find, start, perm, k + 1, m);
    }
  }

  /**
   * A waypoint equal to the node before it (the start, for the first
   * waypoint) yields the one-node segment [n], so the whole ordering fails.
   */
  lemma RepeatedStopFails(weigh: Weigher, find: Finder, start: nat, end: nat, perm: seq<nat>, k: nat)
    requires k < |perm| && perm[k] == (if k == 0 then start else perm[k - 1])
    requires find(perm[k], perm[k]) == Some([perm[k]])
    ensures Attempt(weigh, find, start, end, perm).None?
  {
    assert Legs(weigh, find, start, perm, k + 1).None?;
    LegsStayFailed(weigh, find, start, perm, k + 1, |perm|);
  }

  /** An ordering whose last waypoint is `end` fails on its closing segment [end]. */
  lemma LastStopAtEndFails(weigh: Weigher, find: Finder, start: nat, end: nat, perm: seq<nat>)
    requires perm != [] && perm[|perm| - 1] == end
    requires find(end, end) == Some([end])
    ensures Attempt(weigh, find, start, end, perm).None?
  {
  }

  /** The dijkstra segment finder returns [n] from a node to itself. */
  lemma SegmentFinderToSelf(g: Graph, n: nat)
    requires Valid(g) && n < g.size
    ensures SegmentFinder(g)(n, n) == Some([n])
  {
    ShortestPathToSelf(g, n);
  }
}
