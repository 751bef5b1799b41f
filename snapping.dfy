/** Click snapping: what _find_simple_nearest_node and _find_nearest_node_or_edge
    compute from the node positions (in dict order) and the graph's edges (in
    the graph's iteration order). The scanning loops are methods of the window;
    these functions state what the scans compute. */
module Snapping {
  import opened Weights
  import opened Geometry
  import opened Graph

  /** A click within 15 pixels of a node snaps to it (compared squared). */
  const NodeSnapSq: real := 225.0

  /** A click within 25 pixels of an edge may snap onto it (compared squared). */
  const EdgeSnapSq: real := 625.0

  /** A point on an edge must lie strictly between 5% and 95% of its length. */
  const MinRatio: real := 0.05
  const MaxRatio: real := 0.95

  /** The outcome of a click: nothing, an existing node, or a new virtual node
      at parameter t on edge e. */
  datatype Snap = NoNode | AtNode(n: Node, pos: Point) | OnEdge(n: Node, pos: Point, e: Edge, t: real)

  /** Nodes the scan considers: the simple scan skips VIRTUAL_ identifiers. */
  predicate Considered(n: Node, skipVirtual: bool)
  {
    !(skipVirtual && IsVirtualId(n))
  }

  /** Every listed node has a position. */
  predicate Positioned(order: seq<Node>, positions: map<Node, Point>)
  {
    forall k :: 0 <= k < |order| ==> order[k] in positions
  }

  /** The nearest-node scan over order: the first node whose squared distance
      to the click is strictly below every earlier one's. */
  function NearestNode(order: seq<Node>, positions: map<Node, Point>, click: Point, skipVirtual: bool): (r: Option<Node>)
    requires Positioned(order, positions)
    ensures r.Some? ==> r.value in order && r.value in positions && Considered(r.value, skipVirtual)
    decreases |order|
  {
    if |order| == 0 then None
    else
      var init := order[..|order| - 1];
      assert Positioned(init, positions) by {
        forall k | 0 <= k < |init| ensures init[k] in positions { assert init[k] == order[k]; }
      }
      var best := NearestNode(init, positions, click, skipVirtual);
      var n := order[|order| - 1];
      if Considered(n, skipVirtual) &&
         (best.None? || DistSq(positions[n], click) < DistSq(positions[best.value], click))
      then Some(n)
      else best
  }

  /** One step of the scan: extending the scanned prefix by order[k]. */
  lemma NearestNodeStep(order: seq<Node>, positions: map<Node, Point>, click: Point, skipVirtual: bool, k: int)
    requires Positioned(order, positions)
    requires 0 <= k < |order|
    ensures Positioned(order[..k], positions) && Positioned(order[..k + 1], positions)
    ensures var best := NearestNode(order[..k], positions, click, skipVirtual);
            NearestNode(order[..k + 1], positions, click, skipVirtual)
            == if Considered(order[k], skipVirtual) &&
                  (best.None? || DistSq(positions[order[k]], click) < DistSq(positions[best.value], click))
               then Some(order[k]) else best
  {
    assert order[..k + 1][..k] == order[..k];
  }

  /** The scan finds nothing exactly when no listed node is considered; what it
      finds is at least as near as every considered node and strictly nearer
      than every considered node listed before it. */
  lemma {:induction false} NearestNodeIsFirstMinimum(order: seq<Node>, positions: map<Node, Point>, click: Point, skipVirtual: bool)
    requires Positioned(order, positions)
    ensures var r := NearestNode(order, positions, click, skipVirtual);
            (r.None? <==> forall j :: 0 <= j < |order| ==> !Considered(order[j], skipVirtual))
    ensures var r := NearestNode(order, positions, click, skipVirtual);
            r.Some? ==>
              (forall j :: 0 <= j < |order| && Considered(order[j], skipVirtual) ==>
                 DistSq(positions[r.value], click) <= DistSq(positions[order[j]], click)) &&
              (exists k :: 0 <= k < |order| && order[k] == r.value &&
                 forall j :: 0 <= j < k && Considered(order[j], skipVirtual) ==>
                   DistSq(positions[r.value], click) < DistSq(positions[order[j]], click))
    decreases |order|
  {
    if |order| > 0 {
      var init := order[..|order| - 1];
      assert forall k :: 0 <= k < |init| ==> init[k] == order[k];
      NearestNodeIsFirstMinimum(init, positions, click, skipVirtual);
      var best := NearestNode(init, positions, click, skipVirtual);
      var r := NearestNode(order, positions, click, skipVirtual);
      if r.Some? && best.Some? && r == best {
        var k :| 0 <= k < |init| && init[k] == best.value &&
                 forall j :: 0 <= j < k && Considered(init[j], skipVirtual) ==>
                   DistSq(positions[best.value], click) < DistSq(positions[init[j]], click);
        assert order[k] == r.value;
      } else if r.Some? {
        assert r.value == order[|order| - 1];
        var k := |order| - 1;
        assert forall j :: 0 <= j < k && Considered(order[j], skipVirtual) ==>
                 DistSq(positions[r.value], click) < DistSq(positions[order[j]], click);
      }
    }
  }

  /** The edge scan skips an edge with an endpoint that has no position and an
      edge shorter than the length threshold. */
  predicate EdgeUsable(e: Edge, positions: map<Node, Point>)
  {
    e.src in positions && e.dst in positions && LenSq(positions[e.src], positions[e.dst]) >= Epsilon
  }

  /** Squared distance from the click to the clamped projection on edge e. */
  function EdgeDistSq(e: Edge, positions: map<Node, Point>, click: Point): real
    requires EdgeUsable(e, positions)
  {
    PointSegmentDistSq(click, positions[e.src], positions[e.dst])
  }

  /** The clamped projection parameter of the click on edge e. */
  function EdgeRatio(e: Edge, positions: map<Node, Point>, click: Point): real
    requires EdgeUsable(e, positions)
  {
    ProjParam(click, positions[e.src], positions[e.dst])
  }

  /** An edge that the scan may pick: usable and within the edge threshold. */
  predicate EdgeInReach(e: Edge, positions: map<Node, Point>, click: Point)
  {
    EdgeUsable(e, positions) && EdgeDistSq(e, positions, click) < EdgeSnapSq
  }

  /** The edge scan over es: the first edge in reach strictly nearer than every
      earlier one in reach. */
  function BestEdge(es: seq<Edge>, positions: map<Node, Point>, click: Point): (r: Option<Edge>)
    ensures r.Some? ==> r.value in es && EdgeInReach(r.value, positions, click)
    decreases |es|
  {
    if |es| == 0 then None
    else
      var best := BestEdge(es[..|es| - 1], positions, click);
      var e := es[|es| - 1];
      if EdgeInReach(e, positions, click) &&
         (best.None? || EdgeDistSq(e, positions, click) < EdgeDistSq(best.value, positions, click))
      then Some(e)
      else best
  }

  /** The edge scan finds nothing exactly when no edge is in reach; what it finds
      is at least as near as every edge in reach and strictly nearer than every
      edge in reach listed before it. */
  lemma {:induction false} BestEdgeIsFirstMinimum(es: seq<Edge>, positions: map<Node, Point>, click: Point)
    ensures var r := BestEdge(es, positions, click);
            (r.None? <==> forall j :: 0 <= j < |es| ==> !EdgeInReach(es[j], positions, click))
    ensures var r := BestEdge(es, positions, click);
            r.Some? ==>
              (forall j :: 0 <= j < |es| && EdgeInReach(es[j], positions, click) ==>
                 EdgeDistSq(r.value, positions, click) <= EdgeDistSq(es[j], positions, click)) &&
              (exists k :: 0 <= k < |es| && es[k] == r.value &&
                 forall j :: 0 <= j < k && EdgeInReach(es[j], positions, click) ==>
                   EdgeDistSq(r.value, positions, click) < EdgeDistSq(es[j], positions, click))
    decreases |es|
  {
    if |es| > 0 {
      var init := es[..|es| - 1];
      assert forall k :: 0 <= k < |init| ==> init[k] == es[k];
      BestEdgeIsFirstMinimum(init, positions, click);
      var best := BestEdge(init, positions, click);
      var r := BestEdge(es, positions, click);
      if r.Some? && best.Some? && r == best {
        var k :| 0 <= k < |init| && init[k] == best.value &&
                 forall j :: 0 <= j < k && EdgeInReach(init[j], positions, click) ==>
                   EdgeDistSq(best.value, positions, click) < EdgeDistSq(init[j], positions, click);
        assert es[k] == r.value;
      } else if r.Some? {
        assert r.value == es[|es| - 1];
        var k := |es| - 1;
        assert forall j :: 0 <= j < k && EdgeInReach(es[j], positions, click) ==>
                 EdgeDistSq(r.value, positions, click) < EdgeDistSq(es[j], positions, click);
      }
    }
  }

  /** The point a click on edge e snaps to. */
  function EdgePoint(e: Edge, positions: map<Node, Point>, click: Point): Point
    requires EdgeUsable(e, positions)
  {
    Lerp(positions[e.src], positions[e.dst], EdgeRatio(e, positions, click))
  }

  /** _find_nearest_node_or_edge: the nearest node if it is within 15 pixels;
      else the nearest edge in reach if the click projects strictly inside its
      5%..95% window, as a virtual node; else the nearest node anyway. */
  function SnapClick(order: seq<Node>, positions: map<Node, Point>, es: seq<Edge>, click: Point): (r: Snap)
    requires Positioned(order, positions)
  {
    if |order| == 0 then NoNode
    else
      NearestNodeIsFirstMinimum(order, positions, click, false);
      var n := NearestNode(order, positions, click, false).value;
      if DistSq(positions[n], click) < NodeSnapSq then AtNode(n, positions[n])
      else
        var be := BestEdge(es, positions, click);
        if be.Some? && MinRatio < EdgeRatio(be.value, positions, click) < MaxRatio then
          var e, t := be.value, EdgeRatio(be.value, positions, click);
          OnEdge(Virtual(e.src, e.dst, t), EdgePoint(e, positions, click), e, t)
        else AtNode(n, positions[n])
  }

  /** What a click snaps to, case by case. Nothing only on an empty map. A node
      is always the nearest node (first in order among equals) at its stored
      position, and it is returned whenever that node is within 15 pixels. A
      virtual node lies on the nearest edge in reach, is keyed by that edge and
      its ratio, the ratio is strictly inside the window, and its position is
      the point of the edge closest to the click; and it is returned whenever
      the nearest node is 15 pixels or more away and the nearest edge in reach
      has its ratio inside the window. */
  lemma SnapClickCases(order: seq<Node>, positions: map<Node, Point>, es: seq<Edge>, click: Point)
    requires Positioned(order, positions)
    ensures var r := SnapClick(order, positions, es, click);
            (r.NoNode? <==> |order| == 0) &&
            (r.AtNode? ==> Some(r.n) == NearestNode(order, positions, click, false) && r.pos == positions[r.n]) &&
            (|order| > 0 && DistSq(positions[NearestNode(order, positions, click, false).value], click) < NodeSnapSq ==> r.AtNode?) &&
            ((|order| > 0 && DistSq(positions[NearestNode(order, positions, click, false).value], click) >= NodeSnapSq &&
              BestEdge(es, positions, click).Some? &&
              MinRatio < EdgeRatio(BestEdge(es, positions, click).value, positions, click) < MaxRatio) ==>
               r.OnEdge?) &&
            (r.OnEdge? ==>
               DistSq(positions[NearestNode(order, positions, click, false).value], click) >= NodeSnapSq &&
               Some(r.e) == BestEdge(es, positions, click) && r.e in es && EdgeInReach(r.e, positions, click) &&
               r.t == EdgeRatio(r.e, positions, click) && MinRatio < r.t < MaxRatio &&
               r.n == Virtual(r.e.src, r.e.dst, r.t) && r.pos == EdgePoint(r.e, positions, click) &&
               DistSq(click, r.pos) == EdgeDistSq(r.e, positions, click))
  {
    var r := SnapClick(order, positions, es, click);
    if |order| > 0 {
      NearestNodeIsFirstMinimum(order, positions, click, false);
    }
    if r.OnEdge? {
      var a, b := positions[r.e.src], positions[r.e.dst];
      assert EdgeDistSq(r.e, positions, click) == DistSq(click, Lerp(a, b, ProjParam(click, a, b)));
    }
  }

  /** A virtual node sits on one of the listed edges, strictly inside it. */
  lemma SnapOnListedEdge(order: seq<Node>, positions: map<Node, Point>, es: seq<Edge>, click: Point)
    requires Positioned(order, positions)
    ensures var r := SnapClick(order, positions, es, click);
            r.OnEdge? ==> r.e in es && 0.0 < r.t < 1.0
  {
  }

  /** The snapped point is no farther from the click than any point of its edge. */
  lemma EdgePointIsClosest(e: Edge, positions: map<Node, Point>, click: Point, s: real)
    requires EdgeUsable(e, positions)
    requires 0.0 <= s <= 1.0
    ensures DistSq(click, EdgePoint(e, positions, click)) <= DistSq(click, Lerp(positions[e.src], positions[e.dst], s))
  {
    var a, b := positions[e.src], positions[e.dst];
    ProjectionIsClosest(click, a, b, s);
    assert PointSegmentDistSq(click, a, b) == DistSq(click, Lerp(a, b, ProjParam(click, a, b)));
  }
}
