# CourseToujours routing engine in Dafny

CourseToujours draws a supermarket as a graph. Nodes are the shelves, the
entrance and the tills. Edges are aisles with an integer weight. The user
names a start, an end and a few products, and the program highlights a
route through every shelf that sells one of them. This project models the
routing engine behind that route and proves what it computes:

- `GraphData.dijkstra`: single-pair shortest path, relaxing every edge in
  both orientations;
- `permute`: every ordering of the waypoints, generated by swaps in place;
- `getPath`: tries every ordering, chains dijkstra segments, and keeps the
  first ordering that is strictly cheapest;
- `calculateWeight`, `highlightPath` and `clearHighlights`: the weight of a
  path, and the edge highlight flags;
- `GraphView.runDijkstra`: looks up the labels, collects the wanted
  shelves, routes, highlights and reports the weight.

Nodes are indices into the node list. An edge is a value
`Edge(from, to, weight, highlighted)`. The `GraphData` class holds the node
names and the edge list as fields, and its methods rewrite them as the Java
methods do. Each method with a loop is proved equal to a functional
definition, and the properties are proved about those definitions:

| file | contents |
|---|---|
| `int32.dfy` | Java `int` addition with two's-complement wrap-around |
| `graphs.dfy` | edges and walks; the forward-only edge lookup; path weight; clearing and marking flags |
| `orderings.dfy` | the list of orderings `permute` produces, its length, and its completeness |
| `dijkstra.dfy` | the dijkstra loop as a function over a search state, and the walk back along `prev` |
| `dijkstra_optimal.dfy` | optimality and symmetry without overflow; a concrete graph where overflow yields a bogus route |
| `routing.dfy` | getPath: segment chaining, failed orderings, the choice of the kept ordering |
| `route_walks.dfy` | when getPath's route is one continuous walk from `start`, and a graph where overflow makes it start elsewhere |
| `graphdata.dfy` | the `GraphData` class: the Java methods with their loops |
| `graphview.dfy` | label lookup, shelf selection and the `GraphView.RunDijkstra` method |

Java `int` sums wrap around: `dist + weight` in dijkstra, `total +=` in
calculateWeight, and `currentCost +=` in getPath. Dijkstra's choice of the
closest unvisited node reads a `HashSet`, so ties there have no fixed
order. The model breaks such ties by the lowest node index.

Where a plain reading of the code and its intent differ, the model follows
the code:

- calculateWeight and highlightPath only see an edge declared from `a` to
  `b`;
- getPath charges a trimmed segment without its first step;
- a one-node segment makes an ordering fail;
- dijkstra can overflow, and so can the route getPath builds from it.

Each of these is stated as a lemma about the model.

## Model

| member | source | states |
|---|---|---|
| Int32.Add | src/main/java/GraphData.java:204 | Java int addition: always a 32-bit value, and the exact sum whenever that sum fits |
| Int32.AddAssociative | src/main/java/GraphData.java:99 | wrapped sums can be regrouped, as a running `total +=` does |
| Int32.Wrap | src/main/java/GraphData.java:204 | the result is always a Java int, and a value that already is one is left as it is |
| Int32.WrapCongruent | src/main/java/GraphData.java:204 | wrapping shifts only by whole multiples of 2^32: it is two's-complement truncation |
| Graphs.Cheapest | src/main/java/GraphData.java:201-219 | when no sum overflows, the edge dijkstra effectively relaxes between two nodes: one joining them in either orientation, no heavier than any other; None exactly when none joins them |
| Graphs.CheapestSymmetric | src/main/java/GraphData.java:201-219 | relaxing both orientations makes the link between u and v the same as between v and u |
| Graphs.FirstForward | src/main/java/GraphData.java:83-88 | the first edge in list order declared from `a` to `b`; None exactly when no edge is declared that way |
| Graphs.Weight | src/main/java/GraphData.java:92-105 | calculateWeight is a Java int, and is 0 for a path of fewer than two nodes |
| Graphs.WeightDropFirst | src/main/java/GraphData.java:92-105 | a path weighs its first step's forward edge plus the rest of the path |
| Graphs.ReverseStepWeighsNothing | src/main/java/GraphData.java:97-101 | a step along an edge declared the other way round weighs 0 |
| Graphs.StepWeight | src/main/java/GraphData.java:97-101 | one pass of the inner loop of calculateWeight: it adds 0 when no edge is declared from `a` to `b`; that it otherwise adds the weight of the first such edge is its body, and StepWeightIsForwardEdge states it without the lookup |
| Graphs.StepWeightIsForwardEdge | src/main/java/GraphData.java:97-101 | a step that adds anything adds the weight of some edge declared from `a` to `b` |
| Graphs.WeightAsymmetric | src/main/java/GraphData.java:92-105 | calculateWeight is not symmetric: over one edge declared from 0 to 1, [0, 1] weighs 1 and [1, 0] weighs 0 |
| Graphs.Cleared | src/main/java/GraphData.java:75-77 | every flag is false; endpoints, weights and length are unchanged |
| Graphs.FlagsKeepValid | src/main/java/GraphData.java:76 | validity does not depend on highlight flags |
| Graphs.Marked | src/main/java/GraphData.java:79-90 | highlightPath's edge list; its own contract states only that the number of edges is kept, and MarkedOnlyRaises, MarkedStep, MarkedIsForwardStep and MarkedIgnoresReversed state what it does |
| Graphs.MarkedKeepsValid | src/main/java/GraphData.java:79-90 | highlighting leaves a valid edge list valid and an invalid one invalid |
| Graphs.MarkedOnlyRaises | src/main/java/GraphData.java:79-90 | highlighting never clears a flag and never touches an endpoint or a weight |
| Graphs.MarkedStep | src/main/java/GraphData.java:80-88 | for each consecutive pair, the first edge declared from its first node to its second is highlighted |
| Graphs.MarkedIsForwardStep | src/main/java/GraphData.java:79-90 | a newly highlighted edge is declared from some path node to the next one, and is the first edge so declared, so a later parallel edge is never highlighted |
| Graphs.MarkedIgnoresReversed | src/main/java/GraphData.java:84 | an edge declared against every step of the path is left exactly as it was |
| Graphs.WalkExtend | src/main/java/GraphData.java:225-227 | a walk extended by a linked node is a walk, one step dearer |
| Graphs.WalkReverse | src/main/java/GraphData.java:201-219 | a walk read backwards is a walk of the same cost |
| Orderings.Swap | src/main/java/GraphData.java:179 | Collections.swap exchanges two positions and keeps every other one |
| Orderings.Permutations | src/main/java/GraphData.java:173-183 | the lists permute(list, i) appends, in the order it appends them; its own contract states only that there is at least one, and PermutationsCount, PermutationsRearrange and PermutationsComplete state the rest |
| Orderings.Branches | src/main/java/GraphData.java:178-182 | what the loop at depth `i` has appended after trying positions i .. j-1: nothing exactly before the first position is tried |
| Orderings.PermutationsCount | src/main/java/GraphData.java:173-183 | permute(list, i) appends exactly (n - i)! lists |
| Orderings.PermutationsRearrange | src/main/java/GraphData.java:173-183 | every list appended is a rearrangement of the list that keeps positions 0 .. i-1 |
| Orderings.PermutationsComplete | src/main/java/GraphData.java:173-183 | every rearrangement that keeps positions 0 .. i-1 is appended |
| Dijkstra.Pick | src/main/java/GraphData.java:196 | the unvisited node of least distance, the lowest index among ties; None when every node is visited |
| Dijkstra.Init | src/main/java/GraphData.java:188-193 | distance 0 at `start`, Integer.MAX_VALUE at every other node |
| Dijkstra.Nodes | src/main/java/GraphData.java:190 | the initial unvisited set holds exactly the nodes 0 .. n-1 |
| Dijkstra.Visit | src/main/java/GraphData.java:199 | the picked node leaves `unvisited` and no node joins it; VisitWellFormed states that the search state stays consistent |
| Dijkstra.Improve | src/main/java/GraphData.java:204-208 | lowers the distance of an unvisited node only, recording the current node as its predecessor |
| Dijkstra.RelaxEdge | src/main/java/GraphData.java:202-218 | one edge, in its own direction then reversed: no visited distance changes, no predecessor is dropped, and a new predecessor is the current node, joined to the node by this edge |
| Dijkstra.RelaxAll | src/main/java/GraphData.java:201-219 | the pass over all edges changes no visited node and drops no predecessor |
| Dijkstra.VisitWellFormed | src/main/java/GraphData.java:199 | removing the picked node keeps the search state consistent |
| Dijkstra.RelaxWellFormed | src/main/java/GraphData.java:201-219 | the relaxation pass keeps every predecessor linked to its node and visited before it |
| Dijkstra.Explore | src/main/java/GraphData.java:195-220 | the loop terminates in a consistent state |
| Dijkstra.Trace | src/main/java/GraphData.java:224-227 | the walk back along `prev` terminates, ends at the node asked for, starts at a node without predecessor, and is a walk of the graph |
| Dijkstra.ShortestPath | src/main/java/GraphData.java:187-230 | null only when `start != end`; otherwise a walk of the graph ending at `end` |
| Dijkstra.ShortestPathToSelf | src/main/java/GraphData.java:193-197 | dijkstra(n, n) returns [n] |
| DijkstraOptimal.ShortestPathOptimal | src/main/java/GraphData.java:187-230 | with no negative weight, a walk from start to end costing c < Integer.MAX_VALUE, and every edge of the graph weighing at most Integer.MAX_VALUE - c: a path is found, it starts at `start`, and it costs no more than any walk from `start` to `end` |
| DijkstraOptimal.ShortestPathSymmetric | src/main/java/GraphData.java:201-219 | under the same hypothesis, the path from end to start has the same WalkCost (the cheapest joining edge per step, in either orientation) as the path from start to end; their calculateWeight can differ, see Graphs.WeightAsymmetric |
| DijkstraOptimal.OverflowRoutesUnreachable | src/main/java/GraphData.java:204 | on a graph where `end` cannot be reached from `start`, the wrapped `Integer.MAX_VALUE + weight` can yield a route, when the tie between nodes at Integer.MAX_VALUE is broken as the model breaks it |
| Routing.SegmentFinder | src/main/java/GraphData.java:136 | each segment getPath asks for is dijkstra between the two nodes, and none is found for a node outside the graph |
| Routing.PathWeight | src/main/java/GraphData.java:145 | each segment getPath charges is weighed by calculateWeight |
| Routing.Extend | src/main/java/GraphData.java:136-146 | appending a segment fails exactly when it is null or has fewer than two nodes; otherwise the route grows, keeps its prefix and ends at the waypoint |
| Routing.Legs | src/main/java/GraphData.java:135-147 | after k waypoints the loop stands at the k-th one, and its route is empty only before the first |
| Routing.LegsPassWaypoints | src/main/java/GraphData.java:135-147 | the route of the waypoint loop passes every waypoint handled so far |
| Routing.Attempt | src/main/java/GraphData.java:130-158 | an ordering that succeeds yields a non-empty route ending at `end` |
| Routing.AttemptPassesWaypoints | src/main/java/GraphData.java:130-158 | that route passes every waypoint of the ordering |
| Routing.Best | src/main/java/GraphData.java:160-163 | the cost kept never exceeds Integer.MAX_VALUE, and is exactly Integer.MAX_VALUE while nothing is kept; BestIsFirstCheapest states which ordering is kept |
| Routing.BestIsFirstCheapest | src/main/java/GraphData.java:160-163 | the orderings loop keeps nothing exactly when no ordering succeeds below Integer.MAX_VALUE; otherwise it keeps the first strictly cheapest one |
| Routing.Tour | src/main/java/GraphData.java:122-166 | the waypoint branch of getPath; its own contract states only that a returned route is non-empty and ends at `end`, and TourFailsIffEveryOrderFails, TourPassesWaypoints, TourIsCheapestOrdering and RouteWalks.TourWalk state the rest |
| Routing.Route | src/main/java/GraphData.java:117-167 | no waypoint: exactly dijkstra(start, end); otherwise the tour through the waypoints |
| Routing.TourFailsIffEveryOrderFails | src/main/java/GraphData.java:129-166 | getPath returns null exactly when no ordering of the waypoints succeeds below Integer.MAX_VALUE |
| Routing.TourPassesWaypoints | src/main/java/GraphData.java:129-166 | a returned tour passes every waypoint |
| Routing.TourIsCheapestOrdering | src/main/java/GraphData.java:129-166 | a returned tour is the route of an ordering whose cost is no more than that of any other ordering |
| Routing.TrimmedSegmentUndercounts | src/main/java/GraphData.java:141-145 | the cost charged for a trimmed segment plus the weight of its first step is the weight of the whole segment |
| Routing.LegsStayFailed | src/main/java/GraphData.java:137-149 | once a segment fails, the ordering stays failed |
| Routing.RepeatedStopFails | src/main/java/GraphData.java:137 | a waypoint equal to the node before it kills its ordering |
| Routing.LastStopAtEndFails | src/main/java/GraphData.java:153 | an ordering whose last waypoint is `end` fails on its closing segment |
| Routing.SegmentFinderToSelf | src/main/java/GraphData.java:136 | the segment from a node to itself is the one-node list |
| RouteWalks.Stops | src/main/java/GraphData.java:132-152 | the nodes getPath asks segments between: start, end and every waypoint |
| RouteWalks.WalkJoin | src/main/java/GraphData.java:141-144 | a walk, followed by a walk from its last node minus that shared first node, is one walk with the same first node |
| RouteWalks.ExtendAppends | src/main/java/GraphData.java:136-146 | an accepted segment has at least two nodes, and the route grows by the segment, or by the segment without its first node when trimmed |
| RouteWalks.FirstLegWalks | src/main/java/GraphData.java:141-144 | the first segment, kept whole, makes the route a walk from the node it was asked from |
| RouteWalks.LaterLegWalks | src/main/java/GraphData.java:141-144 | a later segment, trimmed, continues the walk without a gap |
| RouteWalks.LegsWalk | src/main/java/GraphData.java:135-147 | when every segment between stops is a walk from its first node, the route of the waypoint loop is a walk from `start` ending where the loop stands |
| RouteWalks.AttemptWalk | src/main/java/GraphData.java:130-158 | under the same hypothesis, a successful ordering yields a walk from `start` to `end` |
| RouteWalks.TourWalk | src/main/java/GraphData.java:129-166 | under the same hypothesis, the tour getPath keeps is a walk from `start` to `end` |
| RouteWalks.SegmentsWalk | src/main/java/GraphData.java:136 | dijkstra segments between stops that reach each other without overflow are walks from their first node |
| RouteWalks.RouteIsWalk | src/main/java/GraphData.java:117-167 | when every two stops reach each other without overflow, a route getPath returns is one continuous walk from `start` to `end` |
| RouteWalks.OverflowBackLeg | src/main/java/GraphData.java:187-230 | in the overflow graph, dijkstra(2, 1) returns [2, 1] |
| RouteWalks.OverflowBackLegFirstIteration | src/main/java/GraphData.java:195-220 | in dijkstra(2, 1) on the overflow graph, the first iteration selects 2 and relaxes its one edge, giving node 1 distance 1 |
| RouteWalks.SingleStopAttempt | src/main/java/GraphData.java:130-158 | with one waypoint, an ordering whose two segments have at least two nodes is the first segment followed by the second without its first node, at the Java int sum of their weights |
| RouteWalks.SingleStopTour | src/main/java/GraphData.java:129-166 | with one waypoint, an ordering whose cost is below Integer.MAX_VALUE is the route getPath keeps |
| RouteWalks.SingleStopRoute | src/main/java/GraphData.java:129-166 | with one waypoint, the two segments joined are the route kept when their summed cost is below Integer.MAX_VALUE |
| RouteWalks.OverflowSegments | src/main/java/GraphData.java:136 | in the overflow graph, with the model's tie rule, the segments getPath(0, 1, [2]) asks for are [1, 2] and [2, 1] |
| RouteWalks.OverflowCharges | src/main/java/GraphData.java:141-144 | those segments are charged 1 in total and join to [1, 2, 1] |
| RouteWalks.OverflowTour | src/main/java/GraphData.java:129-166 | getPath keeps that single ordering |
| RouteWalks.OverflowTourStartsElsewhere | src/main/java/GraphData.java:117-167 | with the model's tie rule, getPath(0, 1, [2]) on the overflow graph returns [1, 2, 1], which does not start at 0 |
| GraphData.GraphData.constructor | src/main/java/GraphData.java:11-13 | holds the node and edge lists that parsing produced, which must form a valid map |
| GraphData.GraphData.ClearHighlights | src/main/java/GraphData.java:75-77 | the new edge list is the cleared old one; nodes and validity are unchanged |
| GraphData.GraphData.FindForward | src/main/java/GraphData.java:83-88 | the inner loop over the edges finds the first edge declared from `a` to `b` |
| GraphData.GraphData.HighlightPath | src/main/java/GraphData.java:79-90 | the new edge list is the old one with the path's forward edges marked; nodes and validity are unchanged |
| GraphData.GraphData.CalculateWeight | src/main/java/GraphData.java:92-105 | returns the wrapped sum of the path's forward-edge weights |
| GraphData.GraphData.Dijkstra | src/main/java/GraphData.java:187-230 | returns exactly the shortest path of the model |
| GraphData.GraphData.RelaxEdges | src/main/java/GraphData.java:201-219 | the loop over the edges computes the relaxation pass |
| GraphData.GraphData.WalkBack | src/main/java/GraphData.java:224-227 | the loop over `prev` builds the walk back to `end` |
| GraphData.GraphData.Permute | src/main/java/GraphData.java:173-183 | appends exactly the orderings of the list and leaves the array as it was |
| GraphData.GraphData.AppendSegment | src/main/java/GraphData.java:136-146 | one step of the waypoint loop |
| GraphData.GraphData.TryOrdering | src/main/java/GraphData.java:130-158 | one ordering: the waypoint loop and the closing segment |
| GraphData.GraphData.GetPath | src/main/java/GraphData.java:117-167 | returns exactly the route of the model |
| GraphData.GraphData.CheapestOrdering | src/main/java/GraphData.java:129-166 | the loop over the orderings keeps exactly the route the model's Best keeps |
| GraphView.FindByName | GraphView.java:45-46 | the first node whose name equals the label ignoring case; None exactly when no node does |
| GraphView.Lower | GraphView.java:52 | toLowerCase keeps the length and lowers each character on its own |
| GraphView.EqualsIgnoreCase | GraphView.java:45-46 | equal strings match, and matching strings have the same length |
| GraphView.Contains | GraphView.java:52 | a contained string is no longer than the string containing it, and every prefix is contained |
| GraphView.Wanted | GraphView.java:52 | the anyMatch over the keywords: no keyword, no match |
| GraphView.MustVisit | GraphView.java:51-53 | the wanted nodes, in node-list order: a node is listed exactly when its lowered name contains some lowered label |
| GraphView.WeightIgnoresFlags | GraphView.java:59-60 | the weight of a path does not depend on highlight flags, so it is the same after highlighting |
| GraphView.RouteNeverEmpty | GraphView.java:57 | a route that is found has at least one node, so the `isEmpty` test never fires |
| GraphView.EmptyKeywordWantsAll | GraphView.java:51-53 | an empty label selects every node |
| GraphView.GraphView.RunDijkstra | GraphView.java:42-63 | highlights are always cleared first; an unknown label or no route gives -1 and no highlight; otherwise exactly the route's forward edges are highlighted and its weight is returned |

## Left out

- parseGeoJSON and findClosest are not part of this model. They parse GeoJSON with org.json and match points with floating-point distances. The model takes the node names and the edge list as given.
- normalize, the longitude and latitude bounds, and all drawing are not part of this model. The `draw()` call in runDijkstra has no effect on the model.
- The GraphView constructor is not part of this model, and neither are Main.java or ProduitButton.java: they are JavaFX wiring.
- Case folding is ASCII only. Java's `toLowerCase` and `equalsIgnoreCase` follow Unicode and the default locale.
- Nodes are list indices, compared by identity. `Node.java` is not part of this model.
- Dijkstra.Pick: the Java minimum over a `HashSet` has no fixed order among ties. The model takes the lowest index among them, so it is one of the possible runs, not all of them.
- Edges are values in a list that the methods rewrite. Aliasing of `Edge` objects shared with other code is not modelled.
- Java's `segment.remove(0)` and `addAll` on array lists are modelled as sequence slicing and concatenation.
- DijkstraOptimal.ShortestPathOptimal: optimality is proved only under non-negative weights, a walk from start to end costing c below Integer.MAX_VALUE, and every edge of the graph weighing at most Integer.MAX_VALUE - c. That bound is stronger than "no sum in this run overflows". What the code does otherwise is shown by DijkstraOptimal.OverflowRoutesUnreachable.
- DijkstraOptimal.ShortestPathSymmetric: states that the two paths have the same WalkCost, not the same calculateWeight. calculateWeight only counts edges in their declared direction, so it can differ between a path and its reverse (Graphs.WeightAsymmetric).
- Routing.Route: its own contract does not say that the route starts at `start` or is continuous, because the code does not guarantee either once dijkstra overflows. RouteWalks.RouteIsWalk proves both when every two stops reach each other without overflow, and RouteWalks.OverflowTourStartsElsewhere shows a route that starts elsewhere.
