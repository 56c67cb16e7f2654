/**
 * The graph that GraphData holds: nodes are indices into the node list,
 * edges carry two endpoints, an integer weight and the `highlighted` flag.
 *
 * Two notions of "the edge between a and b" coexist in the source:
 *  - Dijkstra treats an edge as usable in both directions, taking the
 *    cheapest one between two nodes (`Cheapest`, `Linked`);
 *  - calculateWeight and highlightPath only accept an edge declared from
 *    `a` to `b` (`FirstForward`).
 */
module Graphs {
  import opened Wrappers
  import opened Int32

  datatype Edge = Edge(from: nat, to: nat, weight: int, highlighted: bool)

  /** A graph of `size` nodes, numbered 0 .. size-1, and its edge list. */
  datatype Graph = Graph(size: nat, edges: seq<Edge>)

  /** Every edge joins two nodes of the graph and weighs a Java int. */
  predicate ValidEdges(size: nat, edges: seq<Edge>) {
    forall k :: 0 <= k < |edges| ==>
      edges[k].from < size && edges[k].to < size && InRange(edges[k].weight)
  }

  predicate Valid(g: Graph) {
    ValidEdges(g.size, g.edges)
  }

  /** No edge has a negative weight. */
  predicate NonNegative(edges: seq<Edge>) {
    forall k :: 0 <= k < |edges| ==> 0 <= edges[k].weight
  }

  /** `e` joins `u` and `v`, in either orientation. */
  predicate Connects(e: Edge, u: nat, v: nat) {
    (e.from == u && e.to == v) || (e.from == v && e.to == u)
  }

  /**
   * The index of the cheapest edge joining `u` and `v` in either orientation
   * (the first such edge in list order among the cheapest ones).
   */
  function Cheapest(edges: seq<Edge>, u: nat, v: nat): (r: Option<nat>)
    ensures r.None? <==> forall k :: 0 <= k < |edges| ==> !Connects(edges[k], u, v)
    ensures r.Some? ==> r.value < |edges| && Connects(edges[r.value], u, v)
    ensures r.Some? ==> forall k :: 0 <= k < |edges| && Connects(edges[k], u, v) ==>
      edges[r.value].weight <= edges[k].weight
  {
    if edges == [] then None
    else
      var rest := Cheapest(edges[1..], u, v);
      assert forall k :: 1 <= k < |edges| ==> edges[k] == edges[1..][k - 1];
      if !Connects(edges[0], u, v) then
        (match rest case None => None case Some(k) => Some(k + 1))
      else if rest.Some? && edges[rest.value + 1].weight < edges[0].weight then Some(rest.value + 1)
      else Some(0)
  }

  /** `u` and `v` are joined by some edge, in either orientation. */
  predicate Linked(edges: seq<Edge>, u: nat, v: nat) {
    Cheapest(edges, u, v).Some?
  }

  /** The cost of stepping from `u` to `v` over the undirected graph. */
  function StepCost(edges: seq<Edge>, u: nat, v: nat): int
    requires Linked(edges, u, v)
  {
    edges[Cheapest(edges, u, v).value].weight
  }

  /** Stepping from `u` to `v` uses the same edge as stepping back. */
  lemma {:induction false} CheapestSymmetric(edges: seq<Edge>, u: nat, v: nat)
    ensures Cheapest(edges, u, v) == Cheapest(edges, v, u)
  {
    if edges != [] {
      CheapestSymmetric(edges[1..], u, v);
    }
  }

  /** A linked pair lies inside the graph. */
  lemma LinkedInGraph(g: Graph, u: nat, v: nat)
    requires Valid(g) && Linked(g.edges, u, v)
    ensures u < g.size && v < g.size
  {
  }

  /** A walk: a non-empty node sequence whose consecutive nodes are joined by an edge. */
  predicate IsWalk(edges: seq<Edge>, q: seq<nat>) {
    |q| >= 1 && forall i :: 0 <= i < |q| - 1 ==> LinkedAt(edges, q, i)
  }

  /** The `i`-th step of `q` is joined by an edge. */
  predicate LinkedAt(edges: seq<Edge>, q: seq<nat>, i: nat)
    requires i + 1 < |q|
  {
    Linked(edges, q[i], q[i + 1])
  }

  /** A walk from `a` to `b`. */
  predicate IsWalkBetween(edges: seq<Edge>, q: seq<nat>, a: nat, b: nat) {
    IsWalk(edges, q) && q[0] == a && q[|q| - 1] == b
  }

  /**
   * The true cost of a walk over the undirected graph: every step is charged
   * the cheapest edge joining its two nodes, whatever its orientation.
   */
  function WalkCost(edges: seq<Edge>, q: seq<nat>): (c: int)
    requires IsWalk(edges, q)
    ensures NonNegative(edges) ==> c >= 0
    decreases |q|
  {
    if |q| == 1 then 0
    else
      WalkPrefix(edges, q, |q| - 1);
      assert LinkedAt(edges, q, |q| - 2);
      WalkCost(edges, q[..|q| - 1]) + StepCost(edges, q[|q| - 2], q[|q| - 1])
  }

  /** A non-empty prefix of a walk is a walk. */
  lemma WalkPrefix(edges: seq<Edge>, q: seq<nat>, n: nat)
    requires IsWalk(edges, q) && 1 <= n <= |q|
    ensures IsWalk(edges, q[..n])
  {
    forall i | 0 <= i < n - 1 ensures LinkedAt(edges, q[..n], i) {
      assert LinkedAt(edges, q, i);
    }
  }

  /** Extending a walk by one linked node adds the cost of that step. */
  lemma {:induction false} WalkExtend(edges: seq<Edge>, q: seq<nat>, x: nat)
    requires IsWalk(edges, q) && Linked(edges, q[|q| - 1], x)
    ensures IsWalk(edges, q + [x])
    ensures WalkCost(edges, q + [x]) == WalkCost(edges, q) + StepCost(edges, q[|q| - 1], x)
  {
    var r := q + [x];
    assert r[..|q|] == q;
    forall i | 0 <= i < |r| - 1 ensures LinkedAt(edges, r, i) {
      if i < |q| - 1 {
        assert LinkedAt(edges, q, i);
      }
    }
  }

  function Reverse(q: seq<nat>): (r: seq<nat>)
    ensures |r| == |q|
    ensures forall i :: 0 <= i < |q| ==> r[i] == q[|q| - 1 - i]
  {
    if q == [] then [] else Reverse(q[1..]) + [q[0]]
  }

  /** Walking a walk backwards is a walk with the same cost. */
  lemma {:induction false} WalkReverse(edges: seq<Edge>, q: seq<nat>)
    requires IsWalk(edges, q)
    ensures IsWalk(edges, Reverse(q))
    ensures WalkCost(edges, Reverse(q)) == WalkCost(edges, q)
    decreases |q|
  {
    if |q| > 1 {
      var p := q[..|q| - 1];
      var x := q[|q| - 1];
      var y := q[|q| - 2];
      WalkPrefix(edges, q, |q| - 1);
      assert LinkedAt(edges, q, |q| - 2);
      WalkReverse(edges, p);
      var rp := Reverse(p);
      assert rp[0] == y;
      CheapestSymmetric(edges, y, x);
      // Reverse(q) == [x] + Reverse(p); prove its cost by peeling from the front.
      ReverseLast(q);
      WalkPrepend(edges, x, rp);
    }
  }

  /** The last node of `q` comes first in its reverse. */
  lemma {:induction false} ReverseLast(q: seq<nat>)
    requires q != []
    ensures Reverse(q) == [q[|q| - 1]] + Reverse(q[..|q| - 1])
  {
    var n := |q|;
    var p := q[..n - 1];
    var rq, rp := Reverse(q), Reverse(p);
    var r := [q[n - 1]] + rp;
    forall i | 0 <= i < n ensures r[i] == rq[i] {
      if i > 0 {
        assert r[i] == rp[i - 1] == p[n - 1 - i];
      }
    }
  }

  /** Putting one linked node in front of a walk adds the cost of that step. */
  lemma {:induction false} WalkPrepend(edges: seq<Edge>, x: nat, q: seq<nat>)
    requires IsWalk(edges, q) && Linked(edges, x, q[0])
    ensures IsWalk(edges, [x] + q)
    ensures WalkCost(edges, [x] + q) == StepCost(edges, x, q[0]) + WalkCost(edges, q)
    decreases |q|
  {
    var r := [x] + q;
    forall i | 0 <= i < |r| - 1 ensures LinkedAt(edges, r, i) {
      if i > 0 {
        assert LinkedAt(edges, q, i - 1);
      }
    }
    if |q| > 1 {
      var p := q[..|q| - 1];
      WalkPrefix(edges, q, |q| - 1);
      assert LinkedAt(edges, q, |q| - 2);
      WalkPrepend(edges, x, p);
      assert r[..|r| - 1] == [x] + p;
    } else {
      assert r[..|r| - 1] == [x];
    }
  }

  /**
   * The first edge, in list order, declared from `a` to `b`: the edge that
   * calculateWeight weighs and highlightPath marks for the step (a, b).
   */
  function FirstForward(edges: seq<Edge>, a: nat, b: nat): (r: Option<nat>)
    ensures r.Some? ==> r.value < |edges| && edges[r.value].from == a && edges[r.value].to == b
    ensures r.Some? ==> forall k :: 0 <= k < r.value ==> !(edges[k].from == a && edges[k].to == b)
    ensures r.None? <==> forall k :: 0 <= k < |edges| ==> !(edges[k].from == a && edges[k].to == b)
  {
    if edges == [] then None
    else if edges[0].from == a && edges[0].to == b then Some(0)
    else
      match FirstForward(edges[1..], a, b)
      case None => None
      case Some(k) => Some(k + 1)
  }

  /** What calculateWeight adds for the step (a, b): the first forward edge's weight, or 0. */
  function StepWeight(edges: seq<Edge>, a: nat, b: nat): (r: int)
    ensures (forall k :: 0 <= k < |edges| ==> !(edges[k].from == a && edges[k].to == b)) ==> r == 0
  {
    match FirstForward(edges, a, b)
    case Some(k) => edges[k].weight
    case None => 0
  }

  /** A step that weighs anything weighs what an edge declared from `a` to `b` weighs. */
  lemma StepWeightIsForwardEdge(edges: seq<Edge>, a: nat, b: nat)
    ensures StepWeight(edges, a, b) == 0 ||
      exists k :: 0 <= k < |edges| && edges[k].from == a && edges[k].to == b && StepWeight(edges, a, b) == edges[k].weight
  {
    var f := FirstForward(edges, a, b);
    if f.Some? {
      assert edges[f.value].from == a && edges[f.value].to == b;
    }
  }

  /**
   * calculateWeight(path): the Java-int sum, over consecutive pairs, of the
   * weight of the first edge declared from the first node to the second.
   */
  function Weight(edges: seq<Edge>, path: seq<nat>): (w: int)
    ensures InRange(w)
    ensures |path| < 2 ==> w == 0
    decreases |path|
  {
    if |path| < 2 then 0
    else Add(Weight(edges, path[..|path| - 1]), StepWeight(edges, path[|path| - 2], path[|path| - 1]))
  }

  /**
   * Removing a path's first node removes exactly the weight of its first
   * step: the path's weight is that step's weight plus the rest's.
   */
  lemma {:induction false} WeightDropFirst(edges: seq<Edge>, path: seq<nat>)
    requires |path| >= 2
    ensures Weight(edges, path) == Add(StepWeight(edges, path[0], path[1]), Weight(edges, path[1..]))
    decreases |path|
  {
    if |path| > 2 {
      var p := path[..|path| - 1];
      WeightDropFirst(edges, p);
      assert p[1..] == path[1..][..|path| - 2];
      var s := StepWeight(edges, path[|path| - 2], path[|path| - 1]);
      AddAssociative(StepWeight(edges, path[0], path[1]), Weight(edges, p[1..]), s);
    } else {
      assert Weight(edges, path[..1]) == 0;
    }
  }

  /**
   * calculateWeight is not symmetric: over one edge declared from 0 to 1,
   * the walk [0, 1] weighs 1 and the same walk backwards weighs 0.
   */
  lemma WeightAsymmetric()
    ensures Weight([Edge(0, 1, 1, false)], [0, 1]) == 1
    ensures Weight([Edge(0, 1, 1, false)], [1, 0]) == 0
  {
    var edges := [Edge(0, 1, 1, false)];
    assert FirstForward(edges, 0, 1) == Some(0);
    assert [0, 1][..1] == [0];
    ReverseStepWeighsNothing(edges, 1, 0);
  }

  /** A step walked against its edge's declared orientation weighs nothing. */
  lemma ReverseStepWeighsNothing(edges: seq<Edge>, a: nat, b: nat)
    requires forall k :: 0 <= k < |edges| ==> !(edges[k].from == a && edges[k].to == b)
    ensures Weight(edges, [a, b]) == 0
  {
    assert [a, b][..1] == [a];
  }

  /** clearHighlights: every flag false, every endpoint and weight kept. */
  function Cleared(edges: seq<Edge>): (r: seq<Edge>)
    ensures |r| == |edges|
    ensures forall k :: 0 <= k < |edges| ==>
      !r[k].highlighted && r[k].from == edges[k].from && r[k].to == edges[k].to && r[k].weight == edges[k].weight
  {
    seq(|edges|, k requires 0 <= k < |edges| => edges[k].(highlighted := false))
  }

  /** Two edge lists that agree on every endpoint. */
  predicate SameEnds(e: seq<Edge>, f: seq<Edge>) {
    |e| == |f| && forall k :: 0 <= k < |e| ==> e[k].from == f[k].from && e[k].to == f[k].to
  }

  /** Two edge lists that differ at most in their highlight flags. */
  predicate SameButFlags(e: seq<Edge>, f: seq<Edge>) {
    SameEnds(e, f) && forall k :: 0 <= k < |e| ==> e[k].weight == f[k].weight
  }

  /** Flags play no part in validity. */
  lemma FlagsKeepValid(size: nat, e: seq<Edge>, f: seq<Edge>)
    requires SameButFlags(e, f)
    ensures ValidEdges(size, e) == ValidEdges(size, f)
  {
    if ValidEdges(size, f) {
      forall k | 0 <= k < |e| ensures e[k].from < size && e[k].to < size && InRange(e[k].weight) {
        assert f[k].from < size && f[k].to < size && InRange(f[k].weight);
      }
    }
  }

  /** Edge `k` is the first forward edge of some consecutive pair of `path`. */
  predicate OnPath(edges: seq<Edge>, path: seq<nat>, k: nat) {
    exists i :: 0 <= i < |path| - 1 && FirstForward(edges, path[i], path[i + 1]) == Some(k)
  }

  /**
   * highlightPath(path): the flag of every edge that is the first forward
   * edge of a consecutive pair is set; nothing else changes.
   */
  function Marked(edges: seq<Edge>, path: seq<nat>): (r: seq<Edge>)
    ensures |r| == |edges|
  {
    seq(|edges|, k requires 0 <= k < |edges| =>
      edges[k].(highlighted := edges[k].highlighted || OnPath(edges, path, k)))
  }

  /**
   * Marking a path only ever raises flags, never clears one, and never
   * touches an endpoint or a weight.
   */
  lemma MarkedOnlyRaises(edges: seq<Edge>, path: seq<nat>)
    ensures forall k :: 0 <= k < |edges| ==>
      Marked(edges, path)[k].from == edges[k].from && Marked(edges, path)[k].to == edges[k].to &&
      Marked(edges, path)[k].weight == edges[k].weight &&
      (edges[k].highlighted ==> Marked(edges, path)[k].highlighted)
  {
  }

  /** Marking a path keeps a valid edge list valid, and an invalid one invalid. */
  lemma MarkedKeepsValid(size: nat, edges: seq<Edge>, path: seq<nat>)
    ensures ValidEdges(size, Marked(edges, path)) == ValidEdges(size, edges)
  {
    MarkedOnlyRaises(edges, path);
    FlagsKeepValid(size, Marked(edges, path), edges);
  }

  /**
   * Every consecutive pair that has an edge declared from its first node to
   * its second gets the first such edge, in list order, marked.
   */
  lemma MarkedStep(edges: seq<Edge>, path: seq<nat>, i: nat)
    requires i < |path| - 1 && FirstForward(edges, path[i], path[i + 1]).Some?
    ensures Marked(edges, path)[FirstForward(edges, path[i], path[i + 1]).value].highlighted
  {
    assert OnPath(edges, path, FirstForward(edges, path[i], path[i + 1]).value);
  }

  /**
   * An edge that gets newly marked is declared from some path node to the
   * next one, and is the first edge so declared: a later parallel edge is
   * never marked.
   */
  lemma MarkedIsForwardStep(edges: seq<Edge>, path: seq<nat>, k: nat)
    requires k < |edges| && Marked(edges, path)[k].highlighted && !edges[k].highlighted
    ensures exists i :: 0 <= i < |path| - 1 && edges[k].from == path[i] && edges[k].to == path[i + 1]
    ensures OnPath(edges, path, k)
  {
    var i :| 0 <= i < |path| - 1 && FirstForward(edges, path[i], path[i + 1]) == Some(k);
  }

  /**
   * Forward-only lookup: an edge whose declared orientation matches no
   * consecutive pair of the path keeps its flag, even when the path walks it
   * backwards.
   */
  lemma MarkedIgnoresReversed(edges: seq<Edge>, path: seq<nat>, k: nat)
    requires k < |edges|
    requires forall i :: 0 <= i < |path| - 1 ==> !(edges[k].from == path[i] && edges[k].to == path[i + 1])
    ensures Marked(edges, path)[k] == edges[k]
  {
    assert !OnPath(edges, path, k);
  }
}
