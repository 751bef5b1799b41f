# Dynamic routing session of the PathFinding map window

This project models the routing engine inside the map application's main window
(`MainWindow` in `app/main_window.py`) and proves properties of that model. The
window keeps:

- a directed road graph with a `weight` attribute on each edge;
- the node positions, in the order the dict stores them;
- a snapshot of the original edge weights;
- the active traffic effects (jams, block ways, traffic lights);
- a start selection, an end selection and a waypoint list.

On top of that state it runs these operations:

- **Effect recompute.** Weights are reset from the snapshot. Then jams add their
  increase, block ways set +infinity, and traffic lights add their current
  modifier.
- **Virtual nodes.** A click on a road splits that edge at the clicked ratio into
  four directed half-edges. Removing virtual nodes is selective: the one that is
  the start or the end is kept.
- **Click snapping.** A click goes to the nearest node within 15 pixels. Failing
  that, it goes to the nearest edge within 25 pixels, when the click projects
  strictly between 5% and 95% of that edge. Otherwise it falls back to the
  nearest node.
- **Multi-stop routes.** Consecutive legs are chained through start, the
  waypoints and end. The junction node is not repeated, and the route stops at
  the first leg that has no path or is blocked.
- **Plain start-to-end search.** It checks the path's cost and reports a blocked
  path.
- **Stop-order solver.** It builds a distance matrix. For 2 to 7 waypoints it
  tries every order and keeps the cheapest. For more, it uses the
  nearest-neighbour heuristic.
- **Route filter.** It drops a stop that lies on its neighbours' direct path when
  going through it costs too many extra nodes. The window defines this filter
  (`_optimize_route_order`) but never calls it, so it does not shape the
  multi-stop route.
- **Selection guard.** The start and the end never coincide.

Two things are outside the window and become parameters:

- The pathfinding engine's shortest-path search is an oracle `PathOracle`:
  `(s, t)` maps to `None` or a node sequence. `Routing.Honest` states the one
  assumption the route lemmas need: a non-empty answer runs from `s` to `t`.
- Its proximity query, "edges near this line", is a function `NearQuery` from a
  line to a set of edges.

The graph's edge iteration order is the parameter `es` of the click handler, which lists every edge.

Modules:

| module | file | content |
|---|---|---|
| `Weights` | weights.dfy | extended-real weights (`Fin(r)` or `Inf`) and optional edge attributes |
| `Geometry` | geometry.dfy | `point_segment_distance`, squared, and the closest-point lemmas |
| `Graph` | graph.dfy | node keys (`Regular(id)` or `Virtual(u, v, ratio)`), edges, node removal |
| `Effects` | effects.dfy | the recompute pass as functions, with its closed form per edge |
| `Routing` | routing.dfy | path costs, legs, multi-stop assembly, single-pair check, route filter |
| `StopOrder` | stoporder.dfy | distance matrix, permutations, brute force, nearest neighbour |
| `Snapping` | snapping.dfy | nearest-node and nearest-edge scans, click outcome |
| `Session` | session.dfy | the `MainWindow` class with its state and its operations |

The loops that change the window's state are methods of `Session.MainWindow`:
the in-place weight updates, the node removal loop, the scans, the route loop
and the solver. Each is proved to compute a specification function of the
modules above. The Model table names the lemmas that state what those functions
mean. Some proof helpers have no rows:

- `Routing.AssembleLast`, `Routing.AssembleExtends`, `Routing.PickKeptStep` and
  `Snapping.NearestNodeStep` only unfold one recursive step;
- `StopOrder.DistMatrix` is the matrix definition;
- `Snapping.SnapOnListedEdge`, `Geometry.MulNonneg`, `StopOrder.SplitBounds`,
  `StopOrder.SplitEnds` and `Routing.IncreasingBounded` are small facts used
  inside other proofs.

Their content is carried by `Routing.AssembleFailsAtFirstBadLeg`,
`Routing.RouteConnects`, `Routing.KeptIndexIff`,
`Snapping.NearestNodeIsFirstMinimum`, `StopOrder.BuildDistMatrix`,
`Session.MainWindow.HandlePointSelected`, `Geometry.ClampedVertexIsMinimum`,
`StopOrder.NearestNeighbour` and `Routing.OptimizedKeepsEnds`.

## Model

| member | source | states |
|---|---|---|
| Weights.LessIsStrictTotalOrder | app/main_window.py:1236 | the `<` used to compare costs is irreflexive, transitive and total on finite weights and +infinity |
| Weights.AddToAttrTwice | app/main_window.py:604-635 | adding two modifiers to an edge in turn equals adding their sum; an edge with no weight keeps none |
| Geometry.ProjectionIsClosest | app/main_window.py:15-30 | on a non-degenerate segment, the distance to the clamped projection is at most the distance to any point of the segment |
| Geometry.ClampedVertexIsMinimum | app/main_window.py:26-27 | the projection parameter clamped to [0, 1] minimises the squared distance over the segment |
| Geometry.SegmentNoFartherThanEndpoints | app/main_window.py:22-30 | the segment distance never exceeds the distance to endpoint a (the degenerate fallback), nor, on a proper segment, to b |
| Geometry.DistAlongIsQuadratic | app/main_window.py:26-30 | the squared distance to the point at parameter s is the quadratic K - 2sD + s²L |
| Graph.RemoveNodesKeepsEdgesWithin | app/main_window.py:294 | after `remove_node` the remaining edges join only remaining nodes |
| Graph.RemoveNodesTwice | app/main_window.py:293-294 | removing node set R and then S equals removing R + S |
| Graph.RemoveAbsentNodes | app/main_window.py:303-304 | removing nodes the graph does not have leaves the edges unchanged |
| Effects.ApplyJamsAt | app/main_window.py:597-607 | after the jam step, an edge's weight is its weight before the step plus the increase of every jam whose line reaches it |
| Effects.ApplyBlocksAt | app/main_window.py:609-619 | after the block step, an edge is +infinity exactly when some block way reaches it; otherwise it is unchanged |
| Effects.ApplyLightsAt | app/main_window.py:621-635 | after the light step, an existing edge's weight is its weight before the step plus the sum of the modifiers that reach it |
| Effects.RecomputedAt | app/main_window.py:590-650 | closed form of a pass on an existing edge: +infinity if any block way reaches it, else its snapshot weight (or its current weight if not in the snapshot) plus every jam increase and light modifier that reaches it |
| Effects.EffectsAt | app/main_window.py:597-635 | the same closed form for the effect steps, from any starting weight |
| Effects.JamsThenBlocksAt | app/main_window.py:597-619 | after jams and then blocks, an edge is +infinity if blocked, else its weight plus the jam increases |
| Effects.LightsAfterBlocksAt | app/main_window.py:621-635 | a light modifier leaves a blocked edge at +infinity and adds to any other |
| Effects.BlockPrecedence | app/main_window.py:609-635 | an edge that a block way reaches is +infinity after the pass, whatever jams and lights also reach it |
| Effects.RecomputeForgetsHistory | app/main_window.py:595 | on a snapshot edge, the pass's result does not depend on the weights it started from |
| Effects.RecomputeIdempotentOnSnapshot | app/main_window.py:590-650 | a second pass with the same effects leaves every snapshot edge as the first pass left it |
| Effects.NoEffectsRestoresSnapshot | app/main_window.py:643-650 | with no effects, a pass restores every snapshot edge and leaves every other edge alone |
| Effects.NonSnapshotEdgesAccumulate | app/main_window.py:975-978 | a virtual edge (outside the snapshot) that is unblocked drifts by the effect total d on each pass: w + d after one, w + 2d after two |
| Routing.WalkCostInfIff | app/main_window.py:1084-1093 | the leg cost loop returns +infinity exactly when some hop of the path is a graph edge of weight +infinity |
| Routing.CheckedCostFiniteIff | app/main_window.py:1293-1305 | the single-pair cost is finite exactly when every hop is an edge and none is +infinity |
| Routing.CheckedCostIsWalkCost | app/main_window.py:1086-1093 | on a path whose hops are all edges, the single-pair cost and the leg cost agree |
| Routing.CheckedCostInfSticks | app/main_window.py:1298-1305 | once a prefix of the path is blocked, the whole path is |
| Routing.WalkPath | app/main_window.py:1084-1093 | the loop, with its early exit at the first +infinity hop, computes the leg cost of the path |
| Routing.CheckPath | app/main_window.py:1290-1308 | the loop reports blocked exactly when the path's checked cost is +infinity, and otherwise returns that cost |
| Routing.Segment | app/main_window.py:1066-1099 | a direct edge always gives a leg, which is +infinity only when the edge is; without one, a missing or empty path is no path, and a computed path is reported blocked exactly when it has a +infinity hop and is otherwise the leg's node list |
| Routing.Legs | app/main_window.py:1062-1064 | leg i runs from route point i to route point i + 1 |
| Routing.AssembleFailsAtFirstBadLeg | app/main_window.py:1076-1099 | a route is returned exactly when every leg succeeds; an error names the first failing leg, with its kind |
| Routing.AssembleFailureSticks | app/main_window.py:1081 | once a leg fails, the later legs do not change the outcome |
| Routing.AssembleCostInfIff | app/main_window.py:1101 | a returned route costs +infinity exactly when one of its legs does |
| Routing.RouteCostInfIff | app/main_window.py:1067-1070 | a returned route costs +infinity exactly when one of its legs is a direct edge of weight +infinity |
| Routing.AssembleConnects | app/main_window.py:1103-1107 | joining legs that run between the route points gives a path from the first point to the last that contains every point |
| Routing.LegsFollowPrefix | app/main_window.py:1062-1064 | legs that run between the route points still do without the last leg |
| Routing.JoinConnects | app/main_window.py:1107 | a route to point k - 1 plus a leg from point k - 1 to point k, without its first node, is a route to point k |
| Routing.RouteConnects | app/main_window.py:1050-1107 | with an honest oracle, a returned multi-stop route starts at start, ends at end and passes through every waypoint |
| Routing.LegsFollowPoints | app/main_window.py:1062-1074 | with an honest oracle, every successful leg runs between its two route points |
| Routing.SegmentFollows | app/main_window.py:1067-1074 | with an honest oracle, a successful leg s -> t starts at s and ends at t |
| Routing.ComputeSegment | app/main_window.py:1063-1099 | the loop body computes the leg outcome of `Segment` |
| Routing.BuildRoute | app/main_window.py:1056-1107 | the route loop, with its early returns, computes the assembly of all legs |
| Routing.AssembleStopsAt | app/main_window.py:1076-1099 | the first failing leg after a successful prefix decides the whole outcome |
| Routing.PairResult | app/main_window.py:1274-1323 | the plain search has no endpoints exactly when one is missing; it has no path exactly when the oracle has none or an empty one; it is blocked only when some hop is missing or +infinity; and a fully passable path is always returned, with its summed cost |
| Routing.KeptIndices | app/main_window.py:1129-1159 | the kept middle indices are in range and strictly increasing |
| Routing.KeptIndexIff | app/main_window.py:1129-1159 | a middle point is kept exactly when it passes the test: off the direct path, or with both detours present and at most 20% more nodes |
| Routing.OptimizedKeepsEnds | app/main_window.py:1124-1127 | the filtered route keeps the first and last points and never grows |
| Routing.OffPathStopIsKept | app/main_window.py:1137-1159 | a stop that is not on its neighbours' direct path stays, as a middle point |
| Routing.KeptStopIsKept | app/main_window.py:1143-1150 | a stop that passes the test stays in the filtered route, as a middle point |
| Routing.OptimizeRouteOrder | app/main_window.py:1118-1166 | the loop returns the first point, the kept middle points in order, then the last point (the window never calls this filter) |
| StopOrder.DistEntry | app/main_window.py:1187-1212 | the distance is 0 on the diagonal, and +infinity with neither a direct edge nor a path |
| StopOrder.BuildDistMatrix | app/main_window.py:1183-1212 | the nested loops fill exactly the distance matrix |
| StopOrder.PathSumInfIff | app/main_window.py:1233-1234 | a tour costs +infinity exactly when one of its hops does |
| StopOrder.PermsArePermutations | app/main_window.py:1231 | every ordering `permutations` yields is a rearrangement of the waypoint indices |
| StopOrder.PermsFromArePermutations | app/main_window.py:1231 | the same, for the orderings starting at a given position |
| StopOrder.PermsComplete | app/main_window.py:1231 | every rearrangement of the waypoint indices is yielded |
| StopOrder.PermsFromHas | app/main_window.py:1231 | the orderings from position j contain every ordering that starts with the element at position i ≥ j |
| StopOrder.RangeCount | app/main_window.py:1218 | `range(lo, hi)` holds each of lo .. hi - 1 once and nothing else |
| StopOrder.PermutationIsOrdering | app/main_window.py:1218-1238 | a rearrangement of lo .. hi - 1 lists each of those indices exactly once |
| StopOrder.BruteForce | app/main_window.py:1224-1238 | none is found exactly when every ordering's tour is +infinity; otherwise the result is a rearrangement of the waypoints, no ordering is cheaper, and it is the first ordering strictly cheaper than all before it |
| StopOrder.Nearest | app/main_window.py:1254 | the chosen waypoint is unvisited, no unvisited waypoint is nearer, and every smaller index is strictly farther |
| StopOrder.RangeSetSize | app/main_window.py:1248 | that set has hi - lo elements |
| StopOrder.GreedyStep | app/main_window.py:1252-1257 | moving to a nearest unvisited waypoint keeps every step of the route greedy |
| StopOrder.VisitKeepsSplit | app/main_window.py:1255-1256 | appending a waypoint and removing it from the unvisited set keeps the two a partition of the waypoints |
| StopOrder.SplitStarts | app/main_window.py:1248-1250 | at the start, nothing is visited and every waypoint is unvisited |
| StopOrder.NearestNeighbour | app/main_window.py:1248-1257 | the heuristic visits every waypoint exactly once, each step to a cheapest unvisited waypoint |
| StopOrder.ShiftOrdering | app/main_window.py:1242-1264 | shifting an ordering of matrix indices 1 .. n - 2 gives an ordering of the waypoint indices 0 .. n - 3, and unshifting it gives back the original |
| StopOrder.SolveTspRoute | app/main_window.py:1168-1264 | no waypoint gives []; one gives the unshifted [1]; 2 .. 7 fail exactly when every tour is +infinity (the crash at line 1242), and otherwise give the first ordering, in `permutations` order, that is strictly cheaper than all before it, with no cheaper tour; more give a greedy ordering |
| Snapping.NearestNode | app/main_window.py:772-779 | a found node is listed, has a position, and is considered by the scan |
| Snapping.NearestNodeIsFirstMinimum | app/main_window.py:764-805 | nothing is found exactly when no node is considered (an empty map, or only VIRTUAL_ nodes for the simple scan); what is found is at least as near as every considered node and strictly nearer than every earlier one |
| Snapping.BestEdge | app/main_window.py:817-855 | a found edge is listed and is within reach |
| Snapping.BestEdgeIsFirstMinimum | app/main_window.py:817-855 | no edge is found exactly when none is usable and within 25 pixels; what is found is at least as near as every such edge and strictly nearer than every earlier one |
| Snapping.SnapClickCases | app/main_window.py:783-866 | nothing only on an empty map; a node result is the nearest node at its position, and it is returned whenever that node is within 15 pixels; an edge result is the best edge, with its ratio strictly in (0.05, 0.95), keyed by edge and ratio, at the closest point of the edge, and it is returned whenever the nearest node is 15 pixels or more away and the best edge in reach has its ratio in that window |
| Snapping.EdgePointIsClosest | app/main_window.py:836-846 | the snapped point is no farther from the click than any point of its edge |
| Session.Without | app/main_window.py:295-296 | the dict order keeps exactly the keys that are not deleted |
| Session.WithoutKeepsDistinct | app/main_window.py:295-296 | deleting keys keeps the order free of duplicates |
| Session.WithoutTwice | app/main_window.py:293-296 | deleting A and then B from the order equals deleting A + B |
| Session.WithoutAbsent | app/main_window.py:305-306 | deleting keys that are absent leaves the order unchanged |
| Session.WithoutKeepsOrder | app/main_window.py:295-296 | deleting keys from the positions dict keeps its order listing each remaining key once |
| Session.InsertKeepsOrder | app/main_window.py:886 | assigning a new key appends it to the order; assigning an existing key keeps the order |
| Session.VirtualOutside | app/main_window.py:288-291 | the removal set holds only graph nodes, never a non-VIRTUAL_ node and never an excluded node |
| Session.SplitEdge | app/main_window.py:975-978 | the split adds exactly the four half-edges between u, v and the virtual node |
| Session.SplitConserves | app/main_window.py:964-978 | a new virtual node keeps every existing edge; each direction's two halves sum to w(u, v), with w = 1.0 when unweighted; the edges stay within the graph |
| Session.RemovalKeepsInvariants | app/main_window.py:301-307 | removing one node keeps edges inside the graph and the dict order in step with the dict; removing an absent node changes nothing |
| Session.RemovalComposes | app/main_window.py:293-296 | removing the done set and then one more node equals removing both at once, in graph, edges, positions and order |
| Session.MainWindow.constructor | app/main_window.py:68-86 | the window starts valid, with no selection, no waypoints, no effects, and a snapshot holding exactly the weighted edges with their weights |
| Session.MainWindow.ResetGraphWeights | app/main_window.py:643-650 | the loop leaves the edges equal to the reset of the old graph |
| Session.MainWindow.AddToEdges | app/main_window.py:606-607 | the loop adds the modifier to exactly the affected edges that exist |
| Session.MainWindow.BlockEdges | app/main_window.py:617-619 | the loop sets exactly the affected edges that exist to +infinity |
| Session.MainWindow.Recompute | app/main_window.py:590-635 | on an empty graph nothing changes; otherwise the edges become `Recomputed` of the old ones, and the window stays valid |
| Session.MainWindow.AddVirtualNode | app/main_window.py:954-978 | an existing id or a missing edge changes nothing; otherwise the node is added and the edge split |
| Session.MainWindow.RemoveVirtualNode | app/main_window.py:301-307 | the node, its edges, its position and its order entry go; nothing else changes |
| Session.MainWindow.RemoveVirtualNodes | app/main_window.py:283-299 | exactly the VIRTUAL_ graph nodes outside the exclusion set go, with their edges and positions |
| Session.MainWindow.ClearAllWaypoints | app/main_window.py:194-217 | the list is emptied and every VIRTUAL_ node goes, except a VIRTUAL_ start or end, which stays |
| Session.MainWindow.RemoveSelectedWaypoint | app/main_window.py:225-263 | an invalid row changes nothing; otherwise exactly that entry goes, and its node goes only when it is VIRTUAL_ and neither the start nor the end |
| Session.MainWindow.ScanNodes | app/main_window.py:799-804 | the scan returns the nearest node of the dict order and its squared distance |
| Session.MainWindow.FindSimpleNearestNode | app/main_window.py:764-781 | the result is the first nearest non-VIRTUAL_ node, and never a VIRTUAL_ id |
| Session.MainWindow.FindNearestNodeOrEdge | app/main_window.py:783-866 | scanning every graph edge, the two scans compute the click outcome of `SnapClick` |
| Session.MainWindow.Resolve | app/main_window.py:685-704 | a resolved location is always a node with a position |
| Session.MainWindow.ResolveLocation | app/main_window.py:685-704 | the lookup computes `Resolve` |
| Session.MainWindow.SetStartFromData | app/main_window.py:679-720 | success exactly when the location resolves to a non-empty id other than the end; only then the start changes |
| Session.MainWindow.SetEndFromData | app/main_window.py:722-762 | success exactly when the location resolves to a non-empty id other than the start; only then the end changes |
| Session.MainWindow.PlaceVirtualNode | app/main_window.py:883-888 | the position is stored, a new key is appended to the order, and the node is added and its edge split when it is new |
| Session.MainWindow.Select | app/main_window.py:892-938 | start or end is set to the node unless it equals the other; a waypoint is appended |
| Session.MainWindow.HandlePointSelected | app/main_window.py:868-938 | (-1, -1) and an empty map change nothing; a node click changes only the selection; an edge click first places the virtual node; start never becomes the end or vice versa |
| Session.MainWindow.ApplySnap | app/main_window.py:875-938 | the same effect, for a given click outcome |
| Session.MainWindow.SinglePairRoute | app/main_window.py:1274-1317 | the plain search computes `PairResult` |
| Session.MainWindow.TriggerPathfindingWithWaypoints | app/main_window.py:982-1107 | no result without a start and an end; with optimisation and two or more waypoints, the waypoints are rearranged by the solver's order (the first cheapest for at most 7, greedy for more), and the request fails exactly when the solver finds none, which is exactly when at most 7 waypoints have no finite tour; the route is the assembly over start, the waypoints and end |
| Session.ReorderedWaypoints | app/main_window.py:992-1003 | the solver's order for two or more waypoints lists each waypoint index once; for at most 7 waypoints it is the first strictly cheapest ordering with no cheaper tour, found exactly when some tour is finite; for more each step goes to a nearest unvisited waypoint; the list is rearranged by exactly that order, and left as it is when none is found |
| Session.MainWindow.ReorderWaypoints | app/main_window.py:992-1021 | the waypoints are rearranged by the solver's order o: the first cheapest tour for at most 7 waypoints, greedy for more; no order is found exactly when at most 7 waypoints have no finite tour, and then they are left alone |
| Session.MainWindow.TriggerPathfinding | app/main_window.py:1266-1276 | with no waypoints, the plain search and no change; with waypoints, the multi-stop search, with the same solver-order guarantee for the rearranged list |

## Left out

- The pathfinding engine (`find_path`, `find_edges_near_line`, `modify_edge_weight`, the location list) is not part of this model. The shortest-path search and the proximity query are parameters. `modify_edge_weight` is taken to act only on existing edges. Its `add_weight` is taken to leave an edge with no weight without one.
- The traffic-light instances and their timers are not part of this model. Each active light is a line with the modifier it reports now, which is a finite real.
- The effect handlers (lines 462-588): the creation and removal of jams, block ways and lights, and the matching of lights by item identity. The model keeps the three effect lists as state.
- All Qt work: dialogs, labels, combo boxes, markers, the temporary point, the drawing of paths, the renumbering of list entries and markers (lines 249-257, 1010-1019), and signal wiring. The `_suppress_path_errors` flag only mutes dialogs.
- The pathfinding call that most handlers make after their edit (for example lines 220-221, 271-279, 637-641, 949-952). Each operation is modelled alone.
- Square roots and floats. Distances are compared squared, with the thresholds 15² = 225 and 25² = 625. `abs` in the degenerate-segment check is dropped because a squared length is never negative. Weights are exact reals, so float rounding is not modelled.
- Routing.KeepStop: the test `with <= direct * 1.2` is stated exactly as `5 * with <= 6 * direct`, without float rounding of `1.2`.
- Graph.Node: the virtual id `VIRTUAL_{u}_{v}_{ratio:.3f}` is the tagged key `Virtual(u, v, ratio)`. Two clicks whose ratios round to the same three decimals get one id in the code but two keys in the model. A map id that happens to start with `VIRTUAL_` still counts as virtual (`IsVirtualId`).
- StopOrder.Nearest: `min` over the unvisited set is modelled as a scan in ascending index order, which keeps the first smallest index. Python iterates a set of small integers in that order.
- The restore branch of the multi-stop search (lines 1022-1047), which puts back `original_waypoint_order`. That list belongs to the sidebar, which is not part of this model. Without optimisation the model keeps the list as it is.
- The crash at line 1242, when every brute-force tour is +infinity and `best_order` stays `None`. It is modelled as the outcome `OrderFailed`, which leaves the waypoints untouched.
- The bare `except` blocks (lines 1112-1116, 1155-1156, 1324-1328). The model has no failing oracle calls.
- Session.MainWindow.AddVirtualNode: it requires the ratio to lie strictly in (0, 1). The click handler only passes ratios in (0.05, 0.95).
- The graph's edge iteration order is not tracked. The click handler takes the edge list `es` as a parameter and requires it to list every graph edge and only graph edges; the order it lists them in is free, so among equally near edges the first in `es` wins.
- The earlier definitions of the two location setters (lines 336-412). Python replaces them with the later ones, which are the ones modelled.
- The list-widget row of the selected waypoint is the parameter `row`.

The model follows the code where the code differs from the documented design:

- A direct edge between consecutive stops is taken with its weight and without a +infinity check, so a returned multi-stop route can cost +infinity (`Routing.RouteCostInfIff`).
- A virtual node made by an edge click stays in the graph even when the selection it was made for is refused.
- A single waypoint makes the stop-order solver return `[1]`, the matrix index without the shift. The multi-stop search only asks the solver for two or more waypoints.
- Edges from virtual nodes are not in the weight snapshot. Their weights drift on every recompute (`Effects.NonSnapshotEdgesAccumulate`).
