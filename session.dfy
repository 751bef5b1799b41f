/** The routing session of the main window: the live graph, the node
    positions in dict order, the original-weight snapshot, the active effects,
    the start and end selections and the waypoint list, with the non-UI
    operations that read and change them. */
module Session {
  import opened Weights
  import opened Geometry
  import opened Graph
  import opened Effects
  import opened Routing
  import opened StopOrder
  import opened Snapping

  /** A waypoint entry: its node and the position of its marker. */
  datatype Waypoint = Waypoint(node: Node, pos: Point)

  /** Location data picked in a search box. */
  datatype Location = NodeLocation(id: Node) | SpecialPlace(pos: Point) | UnknownLocation

  /** The mode a map click is made in. */
  datatype PointKind = StartPoint | EndPoint | WaypointPoint | OtherPoint

  /** What one pathfinding request ends with. */
  datatype Outcome =
    | NotReady                   // start or end missing for the multi-stop search
    | Single(pair: PairOutcome)  // the plain start-to-end search
    | OrderFailed                // the stop-order solver found no finite tour
    | MultiStop(route: RouteResult)

  /** [wp['node_id'] for wp in waypoints] */
  function Ids(ws: seq<Waypoint>): (r: seq<Node>)
    ensures |r| == |ws|
    ensures forall i :: 0 <= i < |ws| ==> r[i] == ws[i].node
    decreases |ws|
  {
    if |ws| == 0 then [] else Ids(ws[..|ws| - 1]) + [ws[|ws| - 1].node]
  }

  /** [waypoints[i] for i in order] */
  function Reorder(ws: seq<Waypoint>, order: seq<int>): (r: seq<Waypoint>)
    requires forall j :: 0 <= j < |order| ==> 0 <= order[j] < |ws|
    ensures |r| == |order|
    ensures forall j :: 0 <= j < |order| ==> r[j] == ws[order[j]]
    decreases |order|
  {
    if |order| == 0 then [] else Reorder(ws, order[..|order| - 1]) + [ws[order[|order| - 1]]]
  }

  /** Elements of a sequence are pairwise distinct. */
  predicate Distinct(s: seq<Node>)
  {
    forall i, j :: 0 <= i < j < |s| ==> s[i] != s[j]
  }

  /** s without the members of R, in order. */
  function Without(s: seq<Node>, R: set<Node>): (r: seq<Node>)
    ensures forall x :: x in r <==> x in s && x !in R
    decreases |s|
  {
    if |s| == 0 then []
    else
      var init := Without(s[..|s| - 1], R);
      assert forall x :: x in s <==> x in s[..|s| - 1] || x == s[|s| - 1];
      if s[|s| - 1] in R then init else init + [s[|s| - 1]]
  }

  /** Deleting keys keeps the remaining order free of duplicates. */
  lemma {:induction false} WithoutKeepsDistinct(s: seq<Node>, R: set<Node>)
    requires Distinct(s)
    ensures Distinct(Without(s, R))
    decreases |s|
  {
    if |s| > 0 {
      var init := s[..|s| - 1];
      WithoutKeepsDistinct(init, R);
      assert s[|s| - 1] !in init;
    }
  }

  /** Deleting A and then B is deleting A + B. */
  lemma {:induction false} WithoutTwice(s: seq<Node>, A: set<Node>, B: set<Node>)
    ensures Without(Without(s, A), B) == Without(s, A + B)
    decreases |s|
  {
    if |s| > 0 {
      var init, x := s[..|s| - 1], s[|s| - 1];
      WithoutTwice(init, A, B);
      if x !in A {
        var t := Without(init, A);
        assert (t + [x])[..|t|] == t;
      }
    }
  }

  /** Deleting keys that do not occur changes nothing. */
  lemma {:induction false} WithoutAbsent(s: seq<Node>, R: set<Node>)
    requires forall x :: x in R ==> x !in s
    ensures Without(s, R) == s
    decreases |s|
  {
    if |s| > 0 {
      var init := s[..|s| - 1];
      WithoutAbsent(init, R);
      assert init + [s[|s| - 1]] == s;
    }
  }

  /** order lists the keys of positions, each once: the dict's insertion order. */
  predicate OrderMatches(order: seq<Node>, positions: map<Node, Point>)
  {
    Distinct(order) && Positioned(order, positions) && (forall n :: n in positions ==> n in order)
  }

  /** Deleting keys from the dict deletes them from its insertion order. */
  lemma WithoutKeepsOrder(order: seq<Node>, positions: map<Node, Point>, R: set<Node>)
    requires OrderMatches(order, positions)
    ensures OrderMatches(Without(order, R), positions - R)
  {
    var o := Without(order, R);
    WithoutKeepsDistinct(order, R);
    assert forall k :: 0 <= k < |o| ==> o[k] in o;
  }

  /** A new key goes to the end of the insertion order; an existing key keeps its place. */
  lemma InsertKeepsOrder(order: seq<Node>, positions: map<Node, Point>, n: Node, p: Point)
    requires OrderMatches(order, positions)
    ensures n in positions ==> OrderMatches(order, positions[n := p])
    ensures n !in positions ==> OrderMatches(order + [n], positions[n := p])
  {
    if n !in positions {
      assert n !in order;
      var o := order + [n];
      assert forall k :: 0 <= k < |order| ==> o[k] == order[k];
    }
  }

  /** The virtual nodes the removal deletes: every VIRTUAL_ node of the graph
      outside the exclusion set. */
  function VirtualOutside(nodes: set<Node>, exclude: set<Node>): (r: set<Node>)
    ensures r <= nodes
    ensures forall n :: n in nodes && !IsVirtualId(n) ==> n !in r
    ensures forall n :: n in exclude ==> n !in r
  {
    set n | n in nodes && IsVirtualId(n) && n !in exclude
  }

  /** The start or end node that clearing the waypoints keeps: a selected
      VIRTUAL_ node. */
  function Preserved(o: Option<Node>): (r: set<Node>)
    ensures Chosen(o) && IsVirtualId(o.value) ==> r == {o.value}
    ensures !Chosen(o) ==> r == {}
  {
    if Chosen(o) && IsVirtualId(o.value) then {o.value} else {}
  }

  /** The edge split that adds virtual node vid on u -> v at ratio: u <-> vid
      get w * ratio and vid <-> v get w * (1 - ratio), with w the edge's weight
      (1.0 when it has none), written in this order. */
  function SplitEdge(E: EdgeMap, vid: Node, u: Node, v: Node, ratio: real): (r: EdgeMap)
    requires Edge(u, v) in E && 0.0 < ratio < 1.0
    ensures r.Keys == E.Keys + {Edge(u, vid), Edge(vid, u), Edge(vid, v), Edge(v, vid)}
  {
    var w := WeightOr(E[Edge(u, v)], Fin(1.0));
    var near := Weighted(Scale(w, ratio));
    var far := Weighted(Scale(w, 1.0 - ratio));
    E[Edge(u, vid) := near][Edge(vid, u) := near][Edge(vid, v) := far][Edge(v, vid) := far]
  }

  /** The split keeps every existing edge and its weight when vid is new, and
      for distinct ends the two halves in each direction add up to the weight
      of u -> v: splitting never changes the cost of going through the edge. */
  lemma SplitConserves(E: EdgeMap, nodes: set<Node>, vid: Node, u: Node, v: Node, ratio: real)
    requires EdgesWithin(E, nodes) && vid !in nodes
    requires Edge(u, v) in E && 0.0 < ratio < 1.0 && u != v
    ensures var r := SplitEdge(E, vid, u, v, ratio);
            var w := WeightOr(E[Edge(u, v)], Fin(1.0));
            (forall e :: e in E ==> r[e] == E[e]) &&
            Add(r[Edge(u, vid)].w, r[Edge(vid, v)].w) == w &&
            Add(r[Edge(v, vid)].w, r[Edge(vid, u)].w) == w &&
            r[Edge(u, vid)] == r[Edge(vid, u)] && r[Edge(vid, v)] == r[Edge(v, vid)] &&
            EdgesWithin(r, nodes + {vid})
  {
    var w := WeightOr(E[Edge(u, v)], Fin(1.0));
    if w.Fin? {
      assert w.r * ratio + w.r * (1.0 - ratio) == w.r;
    }
  }

  /** Removing one node keeps the edges inside the graph and the dict order
      in step with the dict, and removing an absent node changes nothing. */
  lemma RemovalKeepsInvariants(nodes: set<Node>, E: EdgeMap, positions: map<Node, Point>, order: seq<Node>, id: Node)
    requires EdgesWithin(E, nodes) && OrderMatches(order, positions)
    ensures EdgesWithin(RemoveNodes(E, {id}), nodes - {id})
    ensures OrderMatches(Without(order, {id}), positions - {id})
    ensures id !in nodes ==> RemoveNodes(E, {id}) == E && nodes - {id} == nodes
    ensures id !in positions ==> Without(order, {id}) == order && positions - {id} == positions
  {
    RemoveNodesKeepsEdgesWithin(E, nodes, {id});
    WithoutKeepsOrder(order, positions, {id});
    if id !in nodes {
      RemoveAbsentNodes(E, nodes, {id});
    }
    if id !in positions {
      assert forall k :: 0 <= k < |order| ==> order[k] != id;
      WithoutAbsent(order, {id});
    }
  }

  /** Removing the nodes done and then n is removing done + {n}, in every part
      of the state. */
  lemma RemovalComposes(nodes: set<Node>, E: EdgeMap, positions: map<Node, Point>, order: seq<Node>,
                        done: set<Node>, n: Node)
    ensures (nodes - done) - {n} == nodes - (done + {n})
    ensures RemoveNodes(RemoveNodes(E, done), {n}) == RemoveNodes(E, done + {n})
    ensures (positions - done) - {n} == positions - (done + {n})
    ensures Without(Without(order, done), {n}) == Without(order, done + {n})
  {
    RemoveNodesTwice(E, done, {n});
    WithoutTwice(order, done, {n});
  }

  /** The waypoint list put in the solver's order, or left as it is when the
      solver finds no order. */
  method ReorderedWaypoints(E: EdgeMap, path: PathOracle, start: Node, ws: seq<Waypoint>, end: Node)
    returns (found: bool, ghost o: Option<seq<int>>, r: seq<Waypoint>)
    requires |ws| > 1
    ensures SolverChoice(E, path, start, Ids(ws), end, o)
    ensures found <==> o.Some?
    ensures !found ==> r == ws
    ensures found ==> IsOrdering(o.value, 0, |ws|) && r == Reorder(ws, o.value)
  {
    var t := SolveTspRoute(E, path, start, Ids(ws), end);
    if t.NoOrderFound? {
      return false, None, ws;
    }
    return true, Some(t.indices), Reorder(ws, t.indices);
  }

  class MainWindow {
    /** The graph's nodes and its edges with their weight attributes. */
    var nodes: set<Node>
    var edges: EdgeMap
    /** node_positions, and the order in which its keys were inserted. */
    var positions: map<Node, Point>
    var order: seq<Node>
    /** _original_weights: the weight of every weighted edge at start-up. */
    const original: map<Edge, Weight>
    /** The active effects, in the order the recompute pass visits them. */
    var jams: seq<Jam>
    var blocks: seq<Block>
    var lights: seq<Light>
    var start: Option<Node>
    var end: Option<Node>
    var waypoints: seq<Waypoint>

    /** Edges join graph nodes; order lists each positioned node once; start
        and end never coincide. */
    ghost predicate Valid()
      reads this`nodes, this`edges, this`positions, this`order, this`start, this`end
    {
      EdgesWithin(edges, nodes) &&
      OrderMatches(order, positions) &&
      (start.Some? && end.Some? ==> start != end)
    }

    /** The window on a freshly loaded graph: positions for the nodes that have
        one, and the weight snapshot of every edge that has a weight. */
    constructor (nodes0: set<Node>, edges0: EdgeMap, order0: seq<Node>, positions0: map<Node, Point>)
      requires EdgesWithin(edges0, nodes0)
      requires OrderMatches(order0, positions0)
      ensures Valid()
      ensures nodes == nodes0 && edges == edges0 && order == order0 && positions == positions0
      ensures forall e :: e in original <==> e in edges0 && edges0[e].Weighted?
      ensures forall e :: e in original ==> edges0[e] == Weighted(original[e])
      ensures jams == [] && blocks == [] && lights == []
      ensures start == None && end == None && waypoints == []
    {
      nodes, edges, order, positions := nodes0, edges0, order0, positions0;
      original := map e | e in edges0 && edges0[e].Weighted? :: edges0[e].w;
      jams, blocks, lights := [], [], [];
      start, end, waypoints := None, None, [];
    }

    // -------------------------------------------------------------------------
    // The recompute pass

    /** reset_graph_weights: every snapshot edge that still exists gets its
        original weight back; other edges keep theirs. */
    method ResetGraphWeights()
      modifies this`edges
      ensures edges == Reset(old(edges), original)
    {
      ghost var E0 := edges;
      var rest := original.Keys;
      while rest != {}
        invariant rest <= original.Keys
        invariant edges.Keys == E0.Keys
        invariant forall e :: e in E0 ==>
                    edges[e] == if e in original && e !in rest then Weighted(original[e]) else E0[e]
        decreases |rest|
      {
        var e :| e in rest;
        if e in edges {
          edges := edges[e := Weighted(original[e])];
        }
        rest := rest - {e};
      }
    }

    /** modify_edge_weight(u, v, add_weight=d) for every (u, v) in S. */
    method AddToEdges(S: set<Edge>, d: real)
      modifies this`edges
      ensures edges == AddOn(old(edges), S, d)
    {
      ghost var E0 := edges;
      var rest := S;
      while rest != {}
        invariant rest <= S
        invariant edges.Keys == E0.Keys
        invariant forall e :: e in E0 ==>
                    edges[e] == if e in S && e !in rest then AddToAttr(E0[e], d) else E0[e]
        decreases |rest|
      {
        var e :| e in rest;
        if e in edges {
          edges := edges[e := AddToAttr(edges[e], d)];
        }
        rest := rest - {e};
      }
    }

    /** modify_edge_weight(u, v, set_weight=inf) for every (u, v) in S. */
    method BlockEdges(S: set<Edge>)
      modifies this`edges
      ensures edges == BlockOn(old(edges), S)
    {
      ghost var E0 := edges;
      var rest := S;
      while rest != {}
        invariant rest <= S
        invariant edges.Keys == E0.Keys
        invariant forall e :: e in E0 ==>
                    edges[e] == if e in S && e !in rest then Weighted(Inf) else E0[e]
        decreases |rest|
      {
        var e :| e in rest;
        if e in edges {
          edges := edges[e := Weighted(Inf)];
        }
        rest := rest - {e};
      }
    }

    /** _recalculate_effects_and_path, weight part: nothing on an empty graph;
        otherwise reset, then the jams, the block ways and the traffic lights
        in turn. The closed form and the reset properties are the lemmas of
        the Effects module about Recomputed. */
    method Recompute(near: NearQuery)
      requires Valid()
      modifies this`edges
      ensures Valid()
      ensures nodes == {} ==> edges == old(edges)
      ensures nodes != {} ==> edges == Recomputed(old(edges), original, jams, blocks, lights, near)
    {
      if nodes == {} {
        return;
      }
      ResetGraphWeights();
      ghost var R := edges;
      for i := 0 to |jams|
        invariant edges == ApplyJams(R, jams[..i], near)
      {
        assert jams[..i + 1][..i] == jams[..i];
        AddToEdges(near(jams[i].line), jams[i].increase);
      }
      assert jams[..|jams|] == jams;
      ghost var J := edges;
      for i := 0 to |blocks|
        invariant edges == ApplyBlocks(J, blocks[..i], near)
      {
        assert blocks[..i + 1][..i] == blocks[..i];
        BlockEdges(near(blocks[i].line));
      }
      assert blocks[..|blocks|] == blocks;
      ghost var B := edges;
      for i := 0 to |lights|
        invariant edges == ApplyLights(B, lights[..i], near)
      {
        assert lights[..i + 1][..i] == lights[..i];
        AddToEdges(near(lights[i].line), lights[i].modifier);
      }
      assert lights[..|lights|] == lights;
    }

    // -------------------------------------------------------------------------
    // Virtual nodes

    /** _add_virtual_node_to_graph: nothing when vid is already a node or the
        edge u -> v is missing; otherwise vid joins the graph and the edge is
        split around it (SplitEdge, whose conservation is SplitConserves). */
    method AddVirtualNode(vid: Node, u: Node, v: Node, ratio: real)
      requires Valid() && 0.0 < ratio < 1.0
      requires vid !in nodes && Edge(u, v) in edges ==> vid in positions
      modifies this`nodes, this`edges
      ensures Valid()
      ensures vid in old(nodes) || Edge(u, v) !in old(edges) ==> nodes == old(nodes) && edges == old(edges)
      ensures vid !in old(nodes) && Edge(u, v) in old(edges) ==>
                nodes == old(nodes) + {vid} && edges == SplitEdge(old(edges), vid, u, v, ratio)
    {
      if vid in nodes {
        return;
      }
      if Edge(u, v) !in edges {
        return;
      }
      var w := WeightOr(edges[Edge(u, v)], Fin(1.0));
      nodes := nodes + {vid};
      var toVirtual := Scale(w, ratio);
      var fromVirtual := Scale(w, 1.0 - ratio);
      edges := edges[Edge(u, vid) := Weighted(toVirtual)];
      edges := edges[Edge(vid, u) := Weighted(toVirtual)];
      edges := edges[Edge(vid, v) := Weighted(fromVirtual)];
      edges := edges[Edge(v, vid) := Weighted(fromVirtual)];
    }

    /** _remove_virtual_node: the node leaves the graph with its edges, and its
        position is deleted. */
    method RemoveVirtualNode(id: Node)
      requires Valid()
      modifies this`nodes, this`edges, this`positions, this`order
      ensures Valid()
      ensures nodes == old(nodes) - {id}
      ensures edges == RemoveNodes(old(edges), {id})
      ensures positions == old(positions) - {id}
      ensures order == Without(old(order), {id})
    {
      RemovalKeepsInvariants(nodes, edges, positions, order, id);
      if id in nodes {
        nodes := nodes - {id};
        edges := RemoveNodes(edges, {id});
      }
      if id in positions {
        positions := positions - {id};
        order := Without(order, {id});
      }
    }

    /** _remove_virtual_nodes(exclude): exactly the VIRTUAL_ graph nodes outside
        exclude are deleted, with their edges and positions. */
    method RemoveVirtualNodes(exclude: set<Node>)
      requires Valid()
      modifies this`nodes, this`edges, this`positions, this`order
      ensures Valid()
      ensures var V := VirtualOutside(old(nodes), exclude);
              nodes == old(nodes) - V && edges == RemoveNodes(old(edges), V) &&
              positions == old(positions) - V && order == Without(old(order), V)
    {
      var V := set n | n in nodes && IsVirtualId(n) && n !in exclude;
      var rest := V;
      ghost var done: set<Node> := {};
      WithoutAbsent(order, {});
      while rest != {}
        invariant rest <= V && done == V - rest
        invariant Valid()
        invariant nodes == old(nodes) - done
        invariant edges == RemoveNodes(old(edges), done)
        invariant positions == old(positions) - done
        invariant order == Without(old(order), done)
        decreases |rest|
      {
        var n :| n in rest;
        RemovalComposes(old(nodes), old(edges), old(positions), old(order), done, n);
        RemoveVirtualNode(n);
        done := done + {n};
        rest := rest - {n};
      }
      assert done == V;
    }

    // -------------------------------------------------------------------------
    // Waypoints

    /** _clear_all_waypoints: the list is emptied and every virtual node goes,
        except a VIRTUAL_ start or end node. */
    method ClearAllWaypoints()
      requires Valid()
      modifies this`nodes, this`edges, this`positions, this`order, this`waypoints
      ensures Valid()
      ensures waypoints == []
      ensures var V := VirtualOutside(old(nodes), Preserved(start) + Preserved(end));
              nodes == old(nodes) - V && edges == RemoveNodes(old(edges), V) &&
              positions == old(positions) - V && order == Without(old(order), V)
      ensures Chosen(start) && start.value in old(nodes) ==> start.value in nodes
      ensures Chosen(end) && end.value in old(nodes) ==> end.value in nodes
    {
      var keep: set<Node> := {};
      if Chosen(start) && IsVirtualId(start.value) {
        keep := keep + {start.value};
      }
      if Chosen(end) && IsVirtualId(end.value) {
        keep := keep + {end.value};
      }
      assert keep == Preserved(start) + Preserved(end);
      waypoints := [];
      RemoveVirtualNodes(keep);
    }

    /** _remove_selected_waypoint(row): an invalid row changes nothing;
        otherwise exactly that entry leaves the list, and its node is removed
        when it is VIRTUAL_ and neither the start nor the end. */
    method RemoveSelectedWaypoint(row: int)
      requires Valid()
      modifies this`nodes, this`edges, this`positions, this`order, this`waypoints
      ensures Valid()
      ensures !(0 <= row < |old(waypoints)|) ==>
                waypoints == old(waypoints) && nodes == old(nodes) && edges == old(edges) &&
                positions == old(positions) && order == old(order)
      ensures 0 <= row < |old(waypoints)| ==>
                waypoints == old(waypoints)[..row] + old(waypoints)[row + 1..]
      ensures 0 <= row < |old(waypoints)| ==>
                var id := old(waypoints)[row].node;
                if IsVirtualId(id) && Some(id) != start && Some(id) != end then
                  nodes == old(nodes) - {id} && edges == RemoveNodes(old(edges), {id}) &&
                  positions == old(positions) - {id} && order == Without(old(order), {id})
                else
                  nodes == old(nodes) && edges == old(edges) && positions == old(positions) && order == old(order)
    {
      if row < 0 {
        return;
      }
      if row >= |waypoints| {
        return;
      }
      var removed := waypoints[row];
      waypoints := waypoints[..row] + waypoints[row + 1..];
      if IsVirtualId(removed.node) {
        if Some(removed.node) != start && Some(removed.node) != end {
          RemoveVirtualNode(removed.node);
        }
      }
    }

    // -------------------------------------------------------------------------
    // Click snapping

    /** The scan over node_positions in dict order, keeping the first node
        strictly nearer than all before it. */
    method ScanNodes(click: Point, skipVirtual: bool) returns (best: Option<Node>, bestSq: real)
      requires Valid()
      ensures best == NearestNode(order, positions, click, skipVirtual)
      ensures best.Some? ==> bestSq == DistSq(positions[best.value], click)
    {
      var ord, pos := order, positions;
      assert Positioned(ord, pos);
      best, bestSq := None, 0.0;
      for k := 0 to |ord|
        invariant best == NearestNode(ord[..k], pos, click, skipVirtual)
        invariant best.Some? ==> best.value in pos && bestSq == DistSq(pos[best.value], click)
      {
        NearestNodeStep(ord, pos, click, skipVirtual, k);
        var n := ord[k];
        if Considered(n, skipVirtual) {
          var d := DistSq(pos[n], click);
          if best.None? || d < bestSq {
            best, bestSq := Some(n), d;
          }
        }
      }
      assert ord[..|ord|] == ord;
    }

    /** _find_simple_nearest_node: the nearest non-VIRTUAL_ node, first in dict
        order among equals; None on an empty map (NearestNodeIsFirstMinimum). */
    method FindSimpleNearestNode(click: Point) returns (r: Option<Node>)
      requires Valid()
      ensures r == NearestNode(order, positions, click, true)
      ensures r.Some? ==> !IsVirtualId(r.value) && r.value in positions
    {
      var d;
      r, d := ScanNodes(click, true);
    }

    /** _find_nearest_node_or_edge, scanning the graph's edges in the order es
        lists them (es holds every edge). What the result is, case by case, is
        SnapClickCases. */
    method FindNearestNodeOrEdge(click: Point, es: seq<Edge>) returns (r: Snap)
      requires Valid()
      requires forall e :: e in edges ==> e in es
      ensures r == SnapClick(order, positions, es, click)
    {
      if |order| == 0 {
        return NoNode;
      }
      var n, nSq := ScanNodes(click, false);
      NearestNodeIsFirstMinimum(order, positions, click, false);
      assert Considered(order[0], false);
      if nSq < NodeSnapSq {
        return AtNode(n.value, positions[n.value]);
      }
      var best: Option<Edge> := None;
      var bestSq, bestT, bestPt := 0.0, 0.0, Point(0.0, 0.0);
      for k := 0 to |es|
        invariant best == BestEdge(es[..k], positions, click)
        invariant best.Some? ==>
                    EdgeUsable(best.value, positions) && bestSq == EdgeDistSq(best.value, positions, click) &&
                    bestT == EdgeRatio(best.value, positions, click) && bestPt == EdgePoint(best.value, positions, click)
      {
        assert es[..k + 1][..k] == es[..k];
        var e := es[k];
        if e.src in positions && e.dst in positions {
          var a, b := positions[e.src], positions[e.dst];
          var lenSq := LenSq(a, b);
          if lenSq >= Epsilon {
            var t := Clamp01(DotAlong(click, a, b) / lenSq);
            var pt := Lerp(a, b, t);
            var d := DistSq(click, pt);
            assert t == EdgeRatio(e, positions, click);
            assert d == EdgeDistSq(e, positions, click);
            if (best.None? || d < bestSq) && d < EdgeSnapSq {
              best, bestSq, bestT, bestPt := Some(e), d, t, pt;
            }
          }
        }
      }
      assert es[..|es|] == es;
      if best.Some? && MinRatio < bestT < MaxRatio {
        var e := best.value;
        return OnEdge(Virtual(e.src, e.dst, bestT), bestPt, e, bestT);
      }
      return AtNode(n.value, positions[n.value]);
    }

    // -------------------------------------------------------------------------
    // Selecting start, end and waypoints

    /** The node a search-box location resolves to: a known node id, or the
        nearest non-VIRTUAL_ node to a special place. */
    function Resolve(loc: Location): (r: Option<Node>)
      requires Valid()
      reads this
      ensures r.Some? ==> r.value in positions
    {
      match loc
      case NodeLocation(id) => if id in positions then Some(id) else None
      case SpecialPlace(p) =>
        var n := NearestNode(order, positions, p, true);
        if n.Some? && Truthy(n.value) && n.value in positions then n else None
      case UnknownLocation => None
    }

    /** _set_start_node_from_data: the start becomes the resolved node unless
        it does not resolve, is the empty id, or equals the end. */
    method SetStartFromData(loc: Location) returns (ok: bool)
      requires Valid()
      modifies this`start
      ensures Valid()
      ensures ok <==> old(Resolve(loc)).Some? && Truthy(old(Resolve(loc)).value) && old(Resolve(loc)) != end
      ensures ok ==> start == old(Resolve(loc))
      ensures !ok ==> start == old(start)
    {
      var id := ResolveLocation(loc);
      if id.None? || !Truthy(id.value) {
        return false;
      }
      if id == end {
        return false;
      }
      start := id;
      return true;
    }

    /** _set_end_node_from_data, the mirror image: never the start. */
    method SetEndFromData(loc: Location) returns (ok: bool)
      requires Valid()
      modifies this`end
      ensures Valid()
      ensures ok <==> old(Resolve(loc)).Some? && Truthy(old(Resolve(loc)).value) && old(Resolve(loc)) != start
      ensures ok ==> end == old(Resolve(loc))
      ensures !ok ==> end == old(end)
    {
      var id := ResolveLocation(loc);
      if id.None? || !Truthy(id.value) {
        return false;
      }
      if id == start {
        return false;
      }
      end := id;
      return true;
    }

    /** The lookup both setters start with. */
    method ResolveLocation(loc: Location) returns (r: Option<Node>)
      requires Valid()
      ensures r == Resolve(loc)
    {
      match loc
      case NodeLocation(id) =>
        r := if id in positions then Some(id) else None;
      case SpecialPlace(p) =>
        var n := FindSimpleNearestNode(p);
        r := if n.Some? && Truthy(n.value) && n.value in positions then n else None;
      case UnknownLocation =>
        r := None;
    }

    /** The virtual-node part of a click on an edge: record the position
        (appending a new key to the dict order), then add the node to the graph. */
    method PlaceVirtualNode(vid: Node, pos: Point, e: Edge, t: real)
      requires Valid() && e in edges && 0.0 < t < 1.0
      modifies this`nodes, this`edges, this`positions, this`order
      ensures Valid()
      ensures positions == old(positions)[vid := pos]
      ensures order == if vid in old(positions) then old(order) else old(order) + [vid]
      ensures vid in old(nodes) ==> nodes == old(nodes) && edges == old(edges)
      ensures vid !in old(nodes) ==> nodes == old(nodes) + {vid} && edges == SplitEdge(old(edges), vid, e.src, e.dst, t)
    {
      InsertKeepsOrder(order, positions, vid, pos);
      if vid !in positions {
        order := order + [vid];
      }
      positions := positions[vid := pos];
      AddVirtualNode(vid, e.src, e.dst, t);
    }

    /** The selection part of a click: start or end is set unless it would
        equal the other one; a waypoint is appended. */
    method Select(kind: PointKind, n: Node, pos: Point)
      requires Valid()
      modifies this`start, this`end, this`waypoints
      ensures Valid()
      ensures start == if kind == StartPoint && Some(n) != old(end) then Some(n) else old(start)
      ensures end == if kind == EndPoint && Some(n) != old(start) then Some(n) else old(end)
      ensures waypoints == if kind == WaypointPoint then old(waypoints) + [Waypoint(n, pos)] else old(waypoints)
    {
      match kind
      case StartPoint =>
        if Some(n) != end {
          start := Some(n);
        }
      case EndPoint =>
        if Some(n) != start {
          end := Some(n);
        }
      case WaypointPoint =>
        waypoints := waypoints + [Waypoint(n, pos)];
      case OtherPoint =>
    }

    /** _handle_point_selected(kind, x, y): nothing for (-1, -1) or an empty
        map; a click on an edge first places the virtual node; then the
        selection is made with the snapped node. */
    method HandlePointSelected(kind: PointKind, x: real, y: real, es: seq<Edge>)
      requires Valid()
      requires forall e :: e in es ==> e in edges
      requires forall e :: e in edges ==> e in es
      modifies this`nodes, this`edges, this`positions, this`order, this`start, this`end, this`waypoints
      ensures Valid()
      ensures x == -1.0 && y == -1.0 ==> unchanged(this)
      ensures var s := old(SnapClick(order, positions, es, Point(x, y)));
              !(x == -1.0 && y == -1.0) ==>
                (s.NoNode? ==> unchanged(this)) &&
                (s.AtNode? ==> nodes == old(nodes) && edges == old(edges) &&
                               positions == old(positions) && order == old(order)) &&
                (s.OnEdge? ==>
                   positions == old(positions)[s.n := s.pos] &&
                   order == (if s.n in old(positions) then old(order) else old(order) + [s.n]) &&
                   (if s.n in old(nodes) then nodes == old(nodes) && edges == old(edges)
                    else nodes == old(nodes) + {s.n} && edges == SplitEdge(old(edges), s.n, s.e.src, s.e.dst, s.t))) &&
                (!s.NoNode? ==>
                   start == (if kind == StartPoint && Some(s.n) != old(end) then Some(s.n) else old(start)) &&
                   end == (if kind == EndPoint && Some(s.n) != old(start) then Some(s.n) else old(end)) &&
                   waypoints == (if kind == WaypointPoint then old(waypoints) + [Waypoint(s.n, s.pos)] else old(waypoints)))
    {
      if x == -1.0 && y == -1.0 {
        return;
      }
      var s := FindNearestNodeOrEdge(Point(x, y), es);
      SnapOnListedEdge(order, positions, es, Point(x, y));
      ApplySnap(kind, s);
    }

    /** What a snapped click does to the window. */
    method ApplySnap(kind: PointKind, s: Snap)
      requires Valid()
      requires s.OnEdge? ==> s.e in edges && 0.0 < s.t < 1.0
      modifies this`nodes, this`edges, this`positions, this`order, this`start, this`end, this`waypoints
      ensures Valid()
      ensures s.NoNode? ==> unchanged(this)
      ensures s.AtNode? ==> nodes == old(nodes) && edges == old(edges) &&
                            positions == old(positions) && order == old(order)
      ensures s.OnEdge? ==>
                positions == old(positions)[s.n := s.pos] &&
                order == (if s.n in old(positions) then old(order) else old(order) + [s.n]) &&
                (if s.n in old(nodes) then nodes == old(nodes) && edges == old(edges)
                 else nodes == old(nodes) + {s.n} && edges == SplitEdge(old(edges), s.n, s.e.src, s.e.dst, s.t))
      ensures !s.NoNode? ==>
                start == (if kind == StartPoint && Some(s.n) != old(end) then Some(s.n) else old(start)) &&
                end == (if kind == EndPoint && Some(s.n) != old(start) then Some(s.n) else old(end)) &&
                waypoints == (if kind == WaypointPoint then old(waypoints) + [Waypoint(s.n, s.pos)] else old(waypoints))
    {
      if s.NoNode? {
        return;
      }
      if s.OnEdge? {
        PlaceVirtualNode(s.n, s.pos, s.e, s.t);
      }
      Select(kind, s.n, s.pos);
    }

    // -------------------------------------------------------------------------
    // Pathfinding

    /** The single-pair branch of _trigger_pathfinding (PairResult). */
    method SinglePairRoute(path: PathOracle) returns (r: PairOutcome)
      ensures r == PairResult(edges, nodes == {}, path, start, end)
    {
      if start.None? || end.None? {
        return NoEndpoints;
      }
      var p := path(start.value, end.value);
      if p.None? || |p.value| == 0 {
        return PairNoPath;
      }
      if nodes == {} {
        return PairRoute(p.value, 0.0);
      }
      var cost, blocked := CheckPath(edges, p.value);
      if blocked {
        return PairBlocked;
      }
      return PairRoute(p.value, cost);
    }

    /** _trigger_pathfinding_with_waypoints: nothing without a start and an end;
        with the optimise option and at least two waypoints, the list is put in
        the solver's order (or the request fails when it finds no finite tour);
        then the route through start, the waypoints and end is assembled. */
    method TriggerPathfindingWithWaypoints(path: PathOracle, optimize: bool)
      returns (r: Outcome, ghost o: Option<seq<int>>)
      requires Valid()
      modifies this`waypoints
      ensures Valid()
      ensures r.NotReady? <==> !Chosen(start) || !Chosen(end)
      ensures r.NotReady? ==> waypoints == old(waypoints)
      ensures r.OrderFailed? ==> optimize && |old(waypoints)| > 1 && waypoints == old(waypoints)
      ensures r.NotReady? || r.OrderFailed? || r.MultiStop?
      ensures r.MultiStop? ==> (Chosen(start) && Chosen(end) &&
                r.route == Assemble(Legs(edges, path, RoutePoints(start.value, Ids(waypoints), end.value))))
      ensures !(optimize && |old(waypoints)| > 1) ==> waypoints == old(waypoints)
      ensures optimize && |old(waypoints)| > 1 && !r.NotReady? ==>
                SolverChoice(old(edges), path, old(start).value, Ids(old(waypoints)), old(end).value, o) &&
                (r.OrderFailed? <==> o.None?) &&
                (o.Some? ==> waypoints == Reorder(old(waypoints), o.value))
    {
      o := None;
      if !Chosen(start) || !Chosen(end) {
        return NotReady, o;
      }
      if optimize && |waypoints| > 1 {
        var found;
        found, o := ReorderWaypoints(path);
        assert nodes == old(nodes) && edges == old(edges) && positions == old(positions) &&
               order == old(order) && start == old(start) && end == old(end);
        if !found {
          return OrderFailed, o;
        }
      }
      var route := BuildRoute(edges, path, RoutePoints(start.value, Ids(waypoints), end.value));
      return MultiStop(route), o;
    }

    /** The optimisation branch of the multi-stop search: asks solve_tsp_route
        for a visiting order o of the waypoints and puts them in that order;
        false, with the waypoints untouched, when no order was found. */
    method ReorderWaypoints(path: PathOracle) returns (found: bool, ghost o: Option<seq<int>>)
      requires Valid() && Chosen(start) && Chosen(end) && |waypoints| > 1
      modifies this`waypoints
      ensures Valid()
      ensures SolverChoice(old(edges), path, old(start).value, Ids(old(waypoints)), old(end).value, o)
      ensures found <==> o.Some?
      ensures !found ==> waypoints == old(waypoints)
      ensures found ==> IsOrdering(o.value, 0, |old(waypoints)|) && waypoints == Reorder(old(waypoints), o.value)
    {
      var ws;
      found, o, ws := ReorderedWaypoints(edges, path, start.value, waypoints, end.value);
      waypoints := ws;
      assert nodes == old(nodes) && edges == old(edges) && positions == old(positions) &&
             order == old(order) && start == old(start) && end == old(end);
    }

    /** _trigger_pathfinding: with waypoints, the multi-stop search; otherwise
        the single-pair search. */
    method TriggerPathfinding(path: PathOracle, optimize: bool) returns (r: Outcome, ghost o: Option<seq<int>>)
      requires Valid()
      modifies this`waypoints
      ensures Valid()
      ensures |old(waypoints)| == 0 ==> waypoints == old(waypoints) && r == Single(PairResult(edges, nodes == {}, path, start, end))
      ensures |old(waypoints)| > 0 ==> !r.Single?
      ensures |old(waypoints)| > 0 && r.MultiStop? ==> (Chosen(start) && Chosen(end) &&
                r.route == Assemble(Legs(edges, path, RoutePoints(start.value, Ids(waypoints), end.value))))
      ensures !(optimize && |old(waypoints)| > 1) ==> waypoints == old(waypoints)
      ensures optimize && |old(waypoints)| > 1 && Chosen(start) && Chosen(end) ==>
                SolverChoice(old(edges), path, old(start).value, Ids(old(waypoints)), old(end).value, o) &&
                (r.OrderFailed? <==> o.None?) &&
                (o.Some? ==> waypoints == Reorder(old(waypoints), o.value))
      ensures r.NotReady? || r.OrderFailed? ==> waypoints == old(waypoints)
    {
      o := None;
      if |waypoints| > 0 {
        r, o := TriggerPathfindingWithWaypoints(path, optimize);
        return;
      }
      var pair := SinglePairRoute(path);
      return Single(pair), o;
    }
  }
}
