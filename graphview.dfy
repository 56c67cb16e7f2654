/**
 * The view's entry point, runDijkstra: clear the old highlights, look the
 * start and end nodes up by name, gather the nodes whose names contain one
 * of the requested product keywords, ask GraphData for a route through
 * them, then highlight it and report its weight (-1 when there is none).
 *
 * Case folding is ASCII only: 'A' .. 'Z' map to 'a' .. 'z', every other
 * character is its own lower case.
 */
module GraphView {
  import opened Wrappers
  import opened Graphs
  import opened Routing
  import opened GraphData

  /** Character.toLowerCase, restricted to ASCII letters. */
  function LowerChar(c: char): (r: char)
    ensures 'A' <= c <= 'Z' ==> 'a' <= r <= 'z' && r as int - c as int == 'a' as int - 'A' as int
    ensures !('A' <= c <= 'Z') ==> r == c
  {
    if 'A' <= c <= 'Z' then (c as int - 'A' as int + 'a' as int) as char else c
  }

  /** String.toLowerCase, character by character. */
  function Lower(s: string): (r: string)
    ensures |r| == |s| && forall i :: 0 <= i < |s| ==> r[i] == LowerChar(s[i])
  {
    seq(|s|, i requires 0 <= i < |s| => LowerChar(s[i]))
  }

  /** String.equalsIgnoreCase: same length, and the same characters once lowered. */
  predicate EqualsIgnoreCase(a: string, b: string): (r: bool)
    ensures r ==> |a| == |b|
    ensures a == b ==> r
  {
    Lower(a) == Lower(b)
  }

  /** String.contains: `t` occurs somewhere in `s` as a block of consecutive characters. */
  predicate Contains(s: string, t: string): (r: bool)
    ensures r ==> |t| <= |s|
    ensures |t| <= |s| && s[..|t|] == t ==> r
  {
    assert |t| <= |s| && s[..|t|] == t ==> OccursAt(s, t, 0);
    exists i :: 0 <= i <= |s| && OccursAt(s, t, i)
  }

  /** `t` occurs in `s` starting at position `i`. */
  predicate OccursAt(s: string, t: string, i: nat) {
    i + |t| <= |s| && s[i..i + |t|] == t
  }

  /** The filter of the mustVisit stream: the lowered name contains some lowered keyword. */
  predicate Wanted(name: string, required: seq<string>): (r: bool)
    ensures r ==> required != []
  {
    exists j :: 0 <= j < |required| && Contains(Lower(name), Lower(required[j]))
  }

  /**
   * `nodes.stream().filter(n -> n.name.equalsIgnoreCase(name)).findFirst()`:
   * the index of the first node answering to `name`, None (null) when no
   * node does.
   */
  function FindByName(nodes: seq<string>, name: string): (r: Option<nat>)
    ensures r.Some? ==> r.value < |nodes| && EqualsIgnoreCase(nodes[r.value], name)
    ensures r.Some? ==> forall k :: 0 <= k < r.value ==> !EqualsIgnoreCase(nodes[k], name)
    ensures r.None? <==> forall k :: 0 <= k < |nodes| ==> !EqualsIgnoreCase(nodes[k], name)
  {
    if nodes == [] then None
    else if EqualsIgnoreCase(nodes[0], name) then Some(0)
    else
      match FindByName(nodes[1..], name)
      case None => None
      case Some(k) => Some(k + 1)
  }

  /**
   * The mustVisit list for the nodes `nodes[..n]`: the indices of the
   * wanted nodes, in node-list order.
   */
  function MustVisit(nodes: seq<string>, required: seq<string>, n: nat): (r: seq<nat>)
    requires n <= |nodes|
    ensures forall i :: 0 <= i < |r| ==> r[i] < n
    ensures forall i, j :: 0 <= i < j < |r| ==> r[i] < r[j]
    ensures forall v: nat :: v in r <==> v < n && Wanted(nodes[v], required)
  {
    if n == 0 then []
    else if Wanted(nodes[n - 1], required) then MustVisit(nodes, required, n - 1) + [n - 1]
    else MustVisit(nodes, required, n - 1)
  }

  /**
   * calculateWeight reads no highlight flag: weighing a path after
   * highlighting it gives the weight it had before.
   */
  lemma {:induction false} WeightIgnoresFlags(e: seq<Edge>, f: seq<Edge>, path: seq<nat>)
    requires SameButFlags(e, f)
    ensures Weight(e, path) == Weight(f, path)
    decreases |path|
  {
    if |path| >= 2 {
      WeightIgnoresFlags(e, f, path[..|path| - 1]);
      SameEndsFirstForward(e, f, path[|path| - 2], path[|path| - 1]);
    }
  }

  /** A route, when getPath finds one, has at least one node: `path.isEmpty()` never holds. */
  lemma RouteNeverEmpty(g: Graph, start: nat, end: nat, mustVisit: seq<nat>)
    requires Valid(g) && start < g.size && end < g.size
    requires Route(g, start, end, mustVisit).Some?
    ensures Route(g, start, end, mustVisit).value != []
    ensures Route(g, start, end, mustVisit).value[|Route(g, start, end, mustVisit).value| - 1] == end
  {
  }

  /** An empty keyword is contained in every name, so it asks for every node. */
  lemma EmptyKeywordWantsAll(nodes: seq<string>, required: seq<string>)
    requires "" in required
    ensures MustVisit(nodes, required, |nodes|) == seq(|nodes|, i requires 0 <= i < |nodes| => i)
  {
    var all := seq(|nodes|, i requires 0 <= i < |nodes| => i);
    var r := MustVisit(nodes, required, |nodes|);
    var j :| 0 <= j < |required| && required[j] == "";
    forall v: nat | v < |nodes|
      ensures Wanted(nodes[v], required)
    {
      assert OccursAt(Lower(nodes[v]), Lower(required[j]), 0);
      assert Contains(Lower(nodes[v]), Lower(required[j]));
    }
    IncreasingCover(r, |nodes|);
  }

  /** A strictly increasing list holding exactly the numbers below `n` is [0, 1, .., n-1]. */
  lemma {:induction false} IncreasingCover(r: seq<nat>, n: nat)
    requires forall i, j :: 0 <= i < j < |r| ==> r[i] < r[j]
    requires forall v: nat :: v in r <==> v < n
    ensures r == seq(n, i requires 0 <= i < n => i)
    decreases |r|
  {
    if r == [] {
      assert n == 0 || n - 1 in r;
    } else {
      var last := r[|r| - 1];
      assert last in r;
      assert n - 1 in r;
      var p :| 0 <= p < |r| && r[p] == n - 1;
      assert r[p] <= last;
      var front := r[..|r| - 1];
      forall v: nat
        ensures v in front <==> v < n - 1
      {
        if v in front {
          var q :| 0 <= q < |front| && front[q] == v;
          assert r[q] < last;
        }
        if v < n - 1 {
          assert v in r;
          var q :| 0 <= q < |r| && r[q] == v;
          assert q != |r| - 1;
          assert v == front[q];
        }
      }
      IncreasingCover(front, n - 1);
      assert r == front + [last];
    }
  }

  /** The pane: it holds the graph data it draws. */
  class GraphView {
    const data: GraphData

    constructor (d: GraphData)
      ensures data == d
    {
      data := d;
    }

    /**
     * runDijkstra(startName, endName, required): the weight of the route
     * from the first node named `startName` to the first named `endName`
     * through every node wanted by `required`, with exactly that route's
     * edges highlighted; -1, with every highlight cleared, when a name is
     * unknown or no route is found.
     */
    method RunDijkstra(startName: string, endName: string, required: seq<string>) returns (poids: int)
      requires data.Valid()
      modifies data
      ensures data.nodes == old(data.nodes) && data.Valid()
      ensures var cleared := Cleared(old(data.edges));
        var s := FindByName(data.nodes, startName);
        var e := FindByName(data.nodes, endName);
        if s.None? || e.None? then
          poids == -1 && data.edges == cleared
        else
          var route := Route(Graph(|data.nodes|, cleared), s.value, e.value, MustVisit(data.nodes, required, |data.nodes|));
          if route.None? then
            poids == -1 && data.edges == cleared
          else
            data.edges == Marked(cleared, route.value) && poids == Weight(cleared, route.value)
    {
      data.ClearHighlights();
      var cleared := data.edges;
      var start := FindByName(data.nodes, startName);
      var end := FindByName(data.nodes, endName);
      if start.None? || end.None? {
        return -1;
      }
      var mustVisit := MustVisit(data.nodes, required, |data.nodes|);
      var path := data.GetPath(start.value, end.value, mustVisit);
      if path.None? || path.value == [] {
        return -1;
      }
      data.HighlightPath(path.value);
      poids := data.CalculateWeight(path.value);
      MarkedOnlyRaises(cleared, path.value);
      WeightIgnoresFlags(data.edges, cleared, path.value);
    }
  }
}
