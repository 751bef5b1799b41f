/** Route evaluation on top of the shortest-path oracle: the cost walks, the
    per-segment decision and the multi-stop assembly, the single-pair check, and
    the waypoint filter of _optimize_route_order. */
module Routing {
  import opened Weights
  import opened Graph

  /** Pathfinding.find_path(s, t) for the graph as it currently is: None or a
      node sequence. */
  type PathOracle = (Node, Node) -> Option<seq<Node>>

  /** An oracle whose non-empty answers run from the source to the target. */
  ghost predicate Honest(path: PathOracle)
  {
    forall s, t :: path(s, t).Some? && |path(s, t).value| > 0 ==>
      path(s, t).value[0] == s && path(s, t).value[|path(s, t).value| - 1] == t
  }

  /** The hop i -> i + 1 of p. */
  function Hop(p: seq<Node>, i: int): Edge
    requires 0 <= i < |p| - 1
  {
    Edge(p[i], p[i + 1])
  }

  /** Some hop of p is an edge of the graph whose weight is +infinity. */
  predicate HasInfHop(E: EdgeMap, p: seq<Node>)
  {
    exists i :: 0 <= i < |p| - 1 && Hop(p, i) in E && E[Hop(p, i)] == Weighted(Inf)
  }

  /** Every hop of p is an edge of the graph and none is +infinity. */
  predicate AllHopsPassable(E: EdgeMap, p: seq<Node>)
  {
    forall i :: 0 <= i < |p| - 1 ==> Hop(p, i) in E && E[Hop(p, i)] != Weighted(Inf)
  }

  /** Cost of a computed path as the multi-stop loop and the distance matrix
      walk it: hops that are not edges are skipped, a missing weight counts 0,
      and a +infinity hop makes the whole cost +infinity. */
  function WalkCost(E: EdgeMap, p: seq<Node>): Weight
    decreases |p|
  {
    if |p| < 2 then Fin(0.0)
    else
      var rest := WalkCost(E, p[..|p| - 1]);
      var h := Edge(p[|p| - 2], p[|p| - 1]);
      if h in E then Add(rest, WeightOr(E[h], Fin(0.0))) else rest
  }

  /** Cost of a path as the single-pair check walks it: a hop that is not an
      edge makes the path +infinity, as does a +infinity hop. */
  function CheckedCost(E: EdgeMap, p: seq<Node>): Weight
    decreases |p|
  {
    if |p| < 2 then Fin(0.0)
    else
      var rest := CheckedCost(E, p[..|p| - 1]);
      var h := Edge(p[|p| - 2], p[|p| - 1]);
      if h in E then Add(rest, WeightOr(E[h], Fin(0.0))) else Inf
  }

  /** The walked cost is +infinity exactly when some hop is a +infinity edge. */
  lemma {:induction false} WalkCostInfIff(E: EdgeMap, p: seq<Node>)
    ensures WalkCost(E, p).Inf? <==> HasInfHop(E, p)
    decreases |p|
  {
    if |p| >= 2 {
      var init := p[..|p| - 1];
      WalkCostInfIff(E, init);
      assert forall i :: 0 <= i < |init| - 1 ==> Hop(init, i) == Hop(p, i);
      if HasInfHop(E, p) && !HasInfHop(E, init) {
        var i :| 0 <= i < |p| - 1 && Hop(p, i) in E && E[Hop(p, i)] == Weighted(Inf);
        assert i == |p| - 2;
      }
      if HasInfHop(E, init) {
        var i :| 0 <= i < |init| - 1 && Hop(init, i) in E && E[Hop(init, i)] == Weighted(Inf);
        assert Hop(p, i) == Hop(init, i);
      }
      if WalkCost(E, p).Inf? && !WalkCost(E, init).Inf? {
        assert Hop(p, |p| - 2) in E && E[Hop(p, |p| - 2)] == Weighted(Inf);
      }
    }
  }

  /** The checked cost is finite exactly when every hop is an edge and none is
      +infinity. */
  lemma {:induction false} CheckedCostFiniteIff(E: EdgeMap, p: seq<Node>)
    ensures CheckedCost(E, p).Fin? <==> AllHopsPassable(E, p)
    decreases |p|
  {
    if |p| >= 2 {
      var init := p[..|p| - 1];
      CheckedCostFiniteIff(E, init);
      assert forall i :: 0 <= i < |init| - 1 ==> Hop(init, i) == Hop(p, i);
      if AllHopsPassable(E, p) {
        assert AllHopsPassable(E, init) by {
          forall i | 0 <= i < |init| - 1
            ensures Hop(init, i) in E && E[Hop(init, i)] != Weighted(Inf)
          {
            assert Hop(init, i) == Hop(p, i);
          }
        }
        assert Hop(p, |p| - 2) == Edge(p[|p| - 2], p[|p| - 1]);
      }
      if !AllHopsPassable(E, p) && AllHopsPassable(E, init) {
        var i :| 0 <= i < |p| - 1 && !(Hop(p, i) in E && E[Hop(p, i)] != Weighted(Inf));
        assert i == |p| - 2;
      }
    }
  }

  /** On a path whose hops are all edges, the two walks agree. */
  lemma {:induction false} CheckedCostIsWalkCost(E: EdgeMap, p: seq<Node>)
    requires forall i :: 0 <= i < |p| - 1 ==> Hop(p, i) in E
    ensures CheckedCost(E, p) == WalkCost(E, p)
    decreases |p|
  {
    if |p| >= 2 {
      var init := p[..|p| - 1];
      forall i | 0 <= i < |init| - 1
        ensures Hop(init, i) in E
      {
        assert Hop(init, i) == Hop(p, i);
      }
      CheckedCostIsWalkCost(E, init);
      assert Hop(p, |p| - 2) == Edge(p[|p| - 2], p[|p| - 1]);
    }
  }

  /** The cost loop over a computed path, as the multi-stop route and the
      distance matrix run it: hops that are not edges are skipped, a missing
      weight counts 0, and the loop stops at the first +infinity hop. */
  method WalkPath(E: EdgeMap, p: seq<Node>) returns (c: Weight)
    ensures c == WalkCost(E, p)
  {
    c := Fin(0.0);
    if |p| < 2 {
      return;
    }
    var j := 0;
    while j + 1 < |p|
      invariant 0 <= j < |p|
      invariant c.Fin? && c == WalkCost(E, p[..j + 1])
    {
      var h := Edge(p[j], p[j + 1]);
      assert p[..j + 2][..j + 1] == p[..j + 1];
      if h in E {
        var w := WeightOr(E[h], Fin(0.0));
        if w.Inf? {
          assert Hop(p, j) == h;
          WalkCostInfIff(E, p);
          return Inf;
        }
        c := Add(c, w);
      }
      j := j + 1;
    }
    assert p[..j + 1] == p;
  }

  /** The cost loop of the single-pair search: a hop that is not an edge, or a
      +infinity hop, marks the path blocked; otherwise the weights (a missing
      one counting 0) are summed. */
  method CheckPath(E: EdgeMap, p: seq<Node>) returns (cost: real, blocked: bool)
    ensures blocked <==> CheckedCost(E, p).Inf?
    ensures !blocked ==> CheckedCost(E, p) == Fin(cost)
  {
    cost, blocked := 0.0, false;
    if |p| < 2 {
      return;
    }
    var j := 0;
    while j + 1 < |p|
      invariant 0 <= j < |p|
      invariant CheckedCost(E, p[..j + 1]) == Fin(cost)
    {
      var h := Edge(p[j], p[j + 1]);
      assert p[..j + 2][..j + 1] == p[..j + 1];
      if h !in E || WeightOr(E[h], Fin(0.0)).Inf? {
        CheckedCostInfSticks(E, p, j + 2);
        return cost, true;
      }
      cost := cost + WeightOr(E[h], Fin(0.0)).r;
      j := j + 1;
    }
    assert p[..j + 1] == p;
  }

  /** A +infinity checked cost on a prefix stays +infinity on the whole path. */
  lemma {:induction false} CheckedCostInfSticks(E: EdgeMap, p: seq<Node>, n: nat)
    requires n <= |p|
    requires CheckedCost(E, p[..n]).Inf?
    ensures CheckedCost(E, p).Inf?
    decreases |p| - n
  {
    if n < |p| {
      assert p[..n] == p[..|p| - 1][..n];
      CheckedCostInfSticks(E, p[..|p| - 1], n);
    } else {
      assert p[..n] == p;
    }
  }

  /** Outcome of one leg of a multi-stop route. */
  datatype SegmentResult = SegOk(nodes: seq<Node>, cost: Weight) | SegNoPath | SegBlocked

  /** One leg s -> t: a direct edge is taken as is (weight, defaulting to 0,
      with no +infinity check); otherwise the oracle's path, rejected when
      missing or empty and reported blocked when its walk is +infinity. */
  function Segment(E: EdgeMap, path: PathOracle, s: Node, t: Node): (r: SegmentResult)
    ensures r.SegOk? ==> |r.nodes| > 0
    ensures Edge(s, t) in E ==> r.SegOk?
    ensures r.SegBlocked? ==> Edge(s, t) !in E && path(s, t).Some? && HasInfHop(E, path(s, t).value)
    ensures r.SegOk? ==> (r.cost.Inf? <==> Edge(s, t) in E && E[Edge(s, t)] == Weighted(Inf))
    ensures Edge(s, t) !in E && (path(s, t).None? || path(s, t).value == []) ==> r.SegNoPath?
    ensures Edge(s, t) !in E && path(s, t).Some? && path(s, t).value != [] ==>
              (r.SegBlocked? <==> HasInfHop(E, path(s, t).value)) &&
              (r.SegOk? ==> r.nodes == path(s, t).value)
  {
    if Edge(s, t) in E then SegOk([s, t], WeightOr(E[Edge(s, t)], Fin(0.0)))
    else
      match path(s, t)
      case None => SegNoPath
      case Some(p) =>
        if |p| == 0 then SegNoPath
        else
          WalkCostInfIff(E, p);
          if WalkCost(E, p).Inf? then SegBlocked else SegOk(p, WalkCost(E, p))
  }

  /** The points a multi-stop route visits: start, the stops in order, end. */
  function RoutePoints(start: Node, stops: seq<Node>, end: Node): (r: seq<Node>)
    ensures |r| == |stops| + 2
    ensures r[0] == start && r[|r| - 1] == end
    ensures forall i :: 0 <= i < |stops| ==> r[i + 1] == stops[i]
  {
    [start] + stops + [end]
  }

  /** Outcome of a multi-stop route: the joined path and its total cost, or the
      index i of the first leg (stop i to stop i + 1) that failed. */
  datatype RouteResult = Route(nodes: seq<Node>, cost: Weight) | NoPathBetween(stop: nat) | BlockedBetween(stop: nat)

  /** The legs of a route through pts: leg i runs from pts[i] to pts[i + 1]. */
  function Legs(E: EdgeMap, path: PathOracle, pts: seq<Node>): (r: seq<SegmentResult>)
    ensures |r| == if |pts| == 0 then 0 else |pts| - 1
    ensures forall i :: 0 <= i < |r| ==> r[i] == Segment(E, path, pts[i], pts[i + 1])
    decreases |pts|
  {
    if |pts| < 2 then []
    else Legs(E, path, pts[..|pts| - 1]) + [Segment(E, path, pts[|pts| - 2], pts[|pts| - 1])]
  }

  /** Python's p[1:]: empty on an empty list. */
  function SliceFrom1(p: seq<Node>): (r: seq<Node>)
    ensures |p| >= 1 ==> r == p[1..]
    ensures |p| == 0 ==> r == []
  {
    if |p| == 0 then [] else p[1..]
  }

  /** The route loop over the given legs: leg 0's nodes, then each later leg
      without its first (junction) node; costs summed; the first failing leg
      ends the loop with its index. */
  function Assemble(legs: seq<SegmentResult>): (r: RouteResult)
    decreases |legs|
  {
    if |legs| == 0 then Route([], Fin(0.0))
    else
      var k := |legs|;
      var prev := Assemble(legs[..k - 1]);
      if !prev.Route? then prev
      else
        match legs[k - 1]
        case SegOk(p, sc) => Route(if k == 1 then prev.nodes + p else prev.nodes + SliceFrom1(p), Add(prev.cost, sc))
        case SegNoPath => NoPathBetween(k - 1)
        case SegBlocked => BlockedBetween(k - 1)
  }

  /** No partial route: the assembly succeeds exactly when every leg does, and
      an error names the first failing leg, with the right kind. */
  lemma {:induction false} AssembleFailsAtFirstBadLeg(legs: seq<SegmentResult>)
    ensures Assemble(legs).Route? <==> forall i :: 0 <= i < |legs| ==> legs[i].SegOk?
    ensures Assemble(legs).NoPathBetween? ==>
              var i := Assemble(legs).stop;
              i < |legs| && legs[i].SegNoPath? && forall j :: 0 <= j < i ==> legs[j].SegOk?
    ensures Assemble(legs).BlockedBetween? ==>
              var i := Assemble(legs).stop;
              i < |legs| && legs[i].SegBlocked? && forall j :: 0 <= j < i ==> legs[j].SegOk?
    decreases |legs|
  {
    if |legs| > 0 {
      var init := legs[..|legs| - 1];
      AssembleFailsAtFirstBadLeg(init);
      assert forall i :: 0 <= i < |init| ==> init[i] == legs[i];
    }
  }

  /** Once a leg fails, the later legs do not change the outcome. */
  lemma {:induction false} AssembleFailureSticks(legs: seq<SegmentResult>, n: nat)
    requires n <= |legs|
    requires !Assemble(legs[..n]).Route?
    ensures Assemble(legs) == Assemble(legs[..n])
    decreases |legs| - n
  {
    if n < |legs| {
      assert legs[..n] == legs[..|legs| - 1][..n];
      AssembleFailureSticks(legs[..|legs| - 1], n);
    } else {
      assert legs[..n] == legs;
    }
  }

  /** A returned route costs +infinity exactly when some leg does. */
  lemma {:induction false} AssembleCostInfIff(legs: seq<SegmentResult>)
    requires Assemble(legs).Route?
    ensures (forall i :: 0 <= i < |legs| ==> legs[i].SegOk?)
    ensures Assemble(legs).cost.Inf? <==> exists i :: 0 <= i < |legs| && legs[i].cost.Inf?
    decreases |legs|
  {
    AssembleFailsAtFirstBadLeg(legs);
    if |legs| > 0 {
      var init := legs[..|legs| - 1];
      assert forall i :: 0 <= i < |init| ==> init[i] == legs[i];
      AssembleCostInfIff(init);
      if exists i :: 0 <= i < |legs| && legs[i].cost.Inf? {
        var i :| 0 <= i < |legs| && legs[i].cost.Inf?;
        if i < |init| {
          assert init[i].cost.Inf?;
        }
      }
    }
  }

  /** A leg that is a direct +infinity edge: the one way a route can cost +infinity. */
  predicate InfDirectLeg(E: EdgeMap, pts: seq<Node>, i: int)
    requires 0 <= i < |pts| - 1
  {
    Edge(pts[i], pts[i + 1]) in E && E[Edge(pts[i], pts[i + 1])] == Weighted(Inf)
  }

  /** A route that is returned costs +infinity exactly when one of its legs is a
      direct edge of weight +infinity: computed legs are checked, direct ones are not. */
  lemma RouteCostInfIff(E: EdgeMap, path: PathOracle, pts: seq<Node>)
    requires Assemble(Legs(E, path, pts)).Route?
    ensures Assemble(Legs(E, path, pts)).cost.Inf? <==> exists i :: 0 <= i < |pts| - 1 && InfDirectLeg(E, pts, i)
  {
    var legs := Legs(E, path, pts);
    AssembleCostInfIff(legs);
    forall i | 0 <= i < |legs|
      ensures legs[i].cost.Inf? <==> InfDirectLeg(E, pts, i)
    {
      assert legs[i] == Segment(E, path, pts[i], pts[i + 1]);
    }
  }

  /** f runs from pts[0] to pts[k] through every point up to k. */
  predicate Connects(f: seq<Node>, pts: seq<Node>, k: nat)
    requires k < |pts|
  {
    |f| >= 1 && f[0] == pts[0] && f[|f| - 1] == pts[k] &&
    forall i :: 0 <= i <= k ==> pts[i] in f
  }

  /** Every successful leg i runs from pts[i] to pts[i + 1]. */
  predicate LegsFollow(legs: seq<SegmentResult>, pts: seq<Node>)
  {
    |legs| < |pts| &&
    forall i :: 0 <= i < |legs| && legs[i].SegOk? ==>
      |legs[i].nodes| >= 1 && legs[i].nodes[0] == pts[i] && legs[i].nodes[|legs[i].nodes| - 1] == pts[i + 1]
  }

  /** Joining legs that follow the points gives a path through all of them. */
  lemma {:induction false} AssembleConnects(legs: seq<SegmentResult>, pts: seq<Node>)
    requires 1 <= |legs|
    requires LegsFollow(legs, pts)
    requires Assemble(legs).Route?
    ensures Connects(Assemble(legs).nodes, pts, |legs|)
    decreases |legs|
  {
    var k := |legs|;
    AssembleLast(legs);
    var p := legs[k - 1].nodes;
    assert |p| >= 1 && p[0] == pts[k - 1] && p[|p| - 1] == pts[k];
    if k > 1 {
      var init := legs[..k - 1];
      LegsFollowPrefix(legs, pts);
      AssembleConnects(init, pts);
      JoinConnects(Assemble(init).nodes, p, Assemble(legs).nodes, pts, k);
    }
  }

  /** A returned route is the route of all legs but the last, joined with the last leg. */
  lemma AssembleLast(legs: seq<SegmentResult>)
    requires 1 <= |legs|
    requires Assemble(legs).Route?
    ensures var k := |legs|;
            var prev := Assemble(legs[..k - 1]);
            prev.Route? && legs[k - 1].SegOk? &&
            Assemble(legs).nodes == if k == 1 then legs[k - 1].nodes else prev.nodes + SliceFrom1(legs[k - 1].nodes)
  {
    var k := |legs|;
    var prev := Assemble(legs[..k - 1]);
    if k == 1 {
      assert prev == Route([], Fin(0.0));
    }
  }

  /** Legs that follow the points still do without the last leg. */
  lemma LegsFollowPrefix(legs: seq<SegmentResult>, pts: seq<Node>)
    requires 1 <= |legs|
    requires LegsFollow(legs, pts)
    ensures LegsFollow(legs[..|legs| - 1], pts)
  {
    var init := legs[..|legs| - 1];
    assert forall i :: 0 <= i < |init| ==> init[i] == legs[i];
  }

  /** Joining a route to point k - 1 with a leg from point k - 1 to point k, at
      their shared node, gives a route to point k. */
  lemma JoinConnects(g: seq<Node>, p: seq<Node>, f: seq<Node>, pts: seq<Node>, k: nat)
    requires 1 <= k < |pts|
    requires Connects(g, pts, k - 1)
    requires |p| >= 1 && p[0] == pts[k - 1] && p[|p| - 1] == pts[k]
    requires f == g + p[1..]
    ensures Connects(f, pts, k)
  {
    if |p| == 1 {
      assert f == g;
    } else {
      assert f[|f| - 1] == p[|p| - 1];
    }
    forall i | 0 <= i <= k
      ensures pts[i] in f
    {
      if i < k {
        assert pts[i] in g;
      }
    }
  }

  /** With an honest oracle, a returned route through at least two points starts
      at the first, ends at the last, and passes through every point between. */
  lemma RouteConnects(E: EdgeMap, path: PathOracle, pts: seq<Node>)
    requires Honest(path)
    requires |pts| >= 2
    requires Assemble(Legs(E, path, pts)).Route?
    ensures Connects(Assemble(Legs(E, path, pts)).nodes, pts, |pts| - 1)
  {
    LegsFollowPoints(E, path, pts);
    AssembleConnects(Legs(E, path, pts), pts);
  }

  /** With an honest oracle, every successful leg runs between its two points. */
  lemma LegsFollowPoints(E: EdgeMap, path: PathOracle, pts: seq<Node>)
    requires Honest(path)
    requires |pts| >= 2
    ensures LegsFollow(Legs(E, path, pts), pts)
  {
    var legs := Legs(E, path, pts);
    forall i | 0 <= i < |legs| && legs[i].SegOk?
      ensures |legs[i].nodes| >= 1 && legs[i].nodes[0] == pts[i] && legs[i].nodes[|legs[i].nodes| - 1] == pts[i + 1]
    {
      assert legs[i] == Segment(E, path, pts[i], pts[i + 1]);
      SegmentFollows(E, path, pts[i], pts[i + 1]);
    }
  }

  /** With an honest oracle, a successful leg s -> t runs from s to t. */
  lemma SegmentFollows(E: EdgeMap, path: PathOracle, s: Node, t: Node)
    requires Honest(path)
    ensures var r := Segment(E, path, s, t);
            r.SegOk? ==> |r.nodes| >= 1 && r.nodes[0] == s && r.nodes[|r.nodes| - 1] == t
  {
    if Edge(s, t) !in E && Segment(E, path, s, t).SegOk? {
      assert path(s, t).Some? && Segment(E, path, s, t).nodes == path(s, t).value;
    }
  }

  /** The body of the route loop for one leg s -> t. */
  method ComputeSegment(E: EdgeMap, path: PathOracle, s: Node, t: Node) returns (seg: SegmentResult)
    ensures seg == Segment(E, path, s, t)
  {
    if Edge(s, t) in E {
      return SegOk([s, t], WeightOr(E[Edge(s, t)], Fin(0.0)));
    }
    var p := path(s, t);
    if p.None? || |p.value| == 0 {
      return SegNoPath;
    }
    var c := WalkPath(E, p.value);
    if c.Inf? {
      WalkCostInfIff(E, p.value);
      return SegBlocked;
    }
    return SegOk(p.value, c);
  }

  /** The route loop of _trigger_pathfinding_with_waypoints: it accumulates
      full_path and total_cost leg by leg and returns at the first leg with no
      path or a blocked path. */
  method BuildRoute(E: EdgeMap, path: PathOracle, pts: seq<Node>) returns (r: RouteResult)
    ensures r == Assemble(Legs(E, path, pts))
  {
    ghost var legs := Legs(E, path, pts);
    var full: seq<Node> := [];
    var total := Fin(0.0);
    var k := if |pts| == 0 then 0 else |pts| - 1;
    for i := 0 to k
      invariant Assemble(legs[..i]) == Route(full, total)
    {
      var seg := ComputeSegment(E, path, pts[i], pts[i + 1]);
      assert seg == legs[i];
      if !seg.SegOk? {
        AssembleStopsAt(legs, i);
        return if seg.SegNoPath? then NoPathBetween(i) else BlockedBetween(i);
      }
      AssembleExtends(legs, i, full, total);
      full := if i == 0 then full + seg.nodes else full + SliceFrom1(seg.nodes);
      total := Add(total, seg.cost);
    }
    assert legs[..k] == legs;
    return Route(full, total);
  }

  /** One more successful leg extends a successful prefix. */
  lemma AssembleExtends(legs: seq<SegmentResult>, i: nat, full: seq<Node>, total: Weight)
    requires i < |legs| && legs[i].SegOk?
    requires Assemble(legs[..i]) == Route(full, total)
    ensures Assemble(legs[..i + 1]) ==
            Route(if i == 0 then full + legs[i].nodes else full + SliceFrom1(legs[i].nodes), Add(total, legs[i].cost))
  {
    assert legs[..i + 1][..i] == legs[..i];
  }

  /** The first failing leg after a successful prefix decides the whole route. */
  lemma AssembleStopsAt(legs: seq<SegmentResult>, i: nat)
    requires i < |legs| && !legs[i].SegOk?
    requires Assemble(legs[..i]).Route?
    ensures Assemble(legs) == if legs[i].SegNoPath? then NoPathBetween(i) else BlockedBetween(i)
  {
    assert legs[..i + 1][..i] == legs[..i];
    AssembleFailureSticks(legs, i + 1);
  }

  /** Outcome of the plain start-to-end search (_trigger_pathfinding without stops). */
  datatype PairOutcome = NoEndpoints | PairNoPath | PairBlocked | PairRoute(nodes: seq<Node>, cost: real)

  /** The plain start-to-end search: no endpoints; no (or an empty) path; a path
      with a missing or +infinity hop, which is blocked; or the path with its
      summed cost. On a graph without nodes the cost loop is skipped and the
      path is taken at cost 0. */
  function PairResult(E: EdgeMap, graphEmpty: bool, path: PathOracle, start: Option<Node>, end: Option<Node>): (r: PairOutcome)
    ensures r.NoEndpoints? <==> start.None? || end.None?
    ensures r.PairNoPath? <==> (start.Some? && end.Some? &&
              (path(start.value, end.value).None? || path(start.value, end.value).value == []))
    ensures r.PairBlocked? ==> !graphEmpty && !AllHopsPassable(E, path(start.value, end.value).value)
    ensures r.PairRoute? ==> start.Some? && end.Some? && r.nodes == path(start.value, end.value).value && |r.nodes| > 0
    ensures r.PairRoute? && !graphEmpty ==> AllHopsPassable(E, r.nodes) && CheckedCost(E, r.nodes) == Fin(r.cost)
    ensures (start.Some? && end.Some? && !graphEmpty && path(start.value, end.value).Some? &&
             |path(start.value, end.value).value| > 0 && AllHopsPassable(E, path(start.value, end.value).value)) ==> r.PairRoute?
  {
    if start.None? || end.None? then NoEndpoints
    else
      match path(start.value, end.value)
      case None => PairNoPath
      case Some(p) =>
        if |p| == 0 then PairNoPath
        else if graphEmpty then PairRoute(p, 0.0)
        else
          CheckedCostFiniteIff(E, p);
          if CheckedCost(E, p).Inf? then PairBlocked else PairRoute(p, CheckedCost(E, p).r)
  }

  // ---------------------------------------------------------------------------
  // _optimize_route_order

  /** Whether stop `curr` is kept between `prev` and `next`: a stop is dropped only
      when it lies on the direct path prev -> next and going through it costs more
      than 20% extra nodes (or one of the two detour legs has no path). */
  predicate KeepStop(path: PathOracle, prev: Node, curr: Node, next: Node)
  {
    match path(prev, next)
    case None => true
    case Some(direct) =>
      if |direct| == 0 || curr !in direct then true
      else
        var p1 := path(prev, curr);
        var p2 := path(curr, next);
        p1.Some? && p2.Some? && |p1.value| > 0 && |p2.value| > 0 &&
        5 * (|p1.value| + |p2.value| - 1) <= 6 * |direct|
  }

  /** The stop lies on the direct path between its neighbours. */
  predicate OnDirectPath(path: PathOracle, prev: Node, curr: Node, next: Node)
  {
    path(prev, next).Some? && curr in path(prev, next).value
  }

  /** Indices of the middle points 1 .. n-1 that the filter keeps, in order. */
  function KeptIndices(pts: seq<Node>, path: PathOracle, n: nat): (r: seq<nat>)
    requires n < |pts|
    ensures forall j :: 0 <= j < |r| ==> 1 <= r[j] < n
    ensures forall j, l :: 0 <= j < l < |r| ==> r[j] < r[l]
    decreases n
  {
    if n <= 1 then []
    else
      var init := KeptIndices(pts, path, n - 1);
      if KeepStop(path, pts[n - 2], pts[n - 1], pts[n]) then init + [n - 1] else init
  }

  /** A middle index below n is kept exactly when its point passes the test. */
  lemma {:induction false} KeptIndexIff(pts: seq<Node>, path: PathOracle, n: nat, i: int)
    requires n < |pts|
    requires 1 <= i < n
    ensures i in KeptIndices(pts, path, n) <==> KeepStop(path, pts[i - 1], pts[i], pts[i + 1])
    decreases n
  {
    var init := KeptIndices(pts, path, n - 1);
    if i < n - 1 {
      KeptIndexIff(pts, path, n - 1, i);
      assert i != n - 1;
    } else {
      assert i !in init;
    }
  }

  /** The points at the given indices. */
  function Pick(pts: seq<Node>, idx: seq<nat>): (r: seq<Node>)
    requires forall j :: 0 <= j < |idx| ==> idx[j] < |pts|
    ensures |r| == |idx|
    ensures forall j :: 0 <= j < |idx| ==> r[j] == pts[idx[j]]
    decreases |idx|
  {
    if |idx| == 0 then [] else Pick(pts, idx[..|idx| - 1]) + [pts[idx[|idx| - 1]]]
  }

  /** The kept points up to i + 1 are those up to i, then point i if it is kept. */
  lemma PickKeptStep(pts: seq<Node>, path: PathOracle, i: nat)
    requires 1 <= i < |pts| - 1
    ensures Pick(pts, KeptIndices(pts, path, i + 1)) ==
            Pick(pts, KeptIndices(pts, path, i)) + (if KeepStop(path, pts[i - 1], pts[i], pts[i + 1]) then [pts[i]] else [])
  {
    var idx := KeptIndices(pts, path, i);
    if KeepStop(path, pts[i - 1], pts[i], pts[i + 1]) {
      assert (idx + [i])[..|idx|] == idx;
    }
  }

  /** The filtered route: first point, the kept middle points in order, last point. */
  function Optimized(pts: seq<Node>, path: PathOracle): (r: seq<Node>)
    ensures |pts| <= 2 ==> r == pts
  {
    if |pts| <= 2 then pts
    else [pts[0]] + Pick(pts, KeptIndices(pts, path, |pts| - 1)) + [pts[|pts| - 1]]
  }

  /** The filter keeps both ends and never adds points. */
  lemma OptimizedKeepsEnds(pts: seq<Node>, path: PathOracle)
    requires |pts| > 2
    ensures |Optimized(pts, path)| <= |pts|
    ensures Optimized(pts, path)[0] == pts[0]
    ensures Optimized(pts, path)[|Optimized(pts, path)| - 1] == pts[|pts| - 1]
  {
    IncreasingBounded(KeptIndices(pts, path, |pts| - 1), 1, |pts| - 1);
  }

  /** A middle point that is not on its neighbours' direct path is kept. */
  lemma OffPathStopIsKept(pts: seq<Node>, path: PathOracle, i: int)
    requires 1 <= i < |pts| - 1
    requires !OnDirectPath(path, pts[i - 1], pts[i], pts[i + 1])
    ensures exists j :: 0 < j < |Optimized(pts, path)| - 1 && Optimized(pts, path)[j] == pts[i]
  {
    assert KeepStop(path, pts[i - 1], pts[i], pts[i + 1]);
    KeptStopIsKept(pts, path, i);
  }

  /** A middle point that passes the test stays in the filtered route, as a middle point. */
  lemma KeptStopIsKept(pts: seq<Node>, path: PathOracle, i: int)
    requires 1 <= i < |pts| - 1
    requires KeepStop(path, pts[i - 1], pts[i], pts[i + 1])
    ensures exists j :: 0 < j < |Optimized(pts, path)| - 1 && Optimized(pts, path)[j] == pts[i]
  {
    var idx := KeptIndices(pts, path, |pts| - 1);
    var pick := Pick(pts, idx);
    var r := Optimized(pts, path);
    assert r == [pts[0]] + pick + [pts[|pts| - 1]];
    KeptIndexIff(pts, path, |pts| - 1, i);
    assert i in idx;
    var l :| 0 <= l < |idx| && idx[l] == i;
    assert r[l + 1] == pick[l] == pts[i];
  }

  /** A strictly increasing sequence of values in [lo, hi) has at most hi - lo elements. */
  lemma {:induction false} IncreasingBounded(s: seq<nat>, lo: int, hi: int)
    requires forall j :: 0 <= j < |s| ==> lo <= s[j] < hi
    requires forall j, l :: 0 <= j < l < |s| ==> s[j] < s[l]
    ensures |s| <= if hi - lo < 0 then 0 else hi - lo
    decreases |s|
  {
    if |s| > 0 {
      IncreasingBounded(s[1..], s[0] + 1, hi);
    }
  }

  /** _optimize_route_order: the first point, then each middle point the
      filter keeps, then the last point. The window defines it but never
      calls it. */
  method OptimizeRouteOrder(path: PathOracle, pts: seq<Node>) returns (r: seq<Node>)
    ensures r == Optimized(pts, path)
  {
    if |pts| <= 2 {
      return pts;
    }
    r := [pts[0]];
    ghost var kept: seq<Node> := [];
    for i := 1 to |pts| - 1
      invariant kept == Pick(pts, KeptIndices(pts, path, i))
      invariant r == [pts[0]] + kept
    {
      // On the direct path, keep it only if both detour legs exist and add
      // at most 20% nodes; off it, keep it.
      var prev, curr, next := pts[i - 1], pts[i], pts[i + 1];
      var keep := true;
      var direct := path(prev, next);
      if direct.Some? && |direct.value| > 0 && curr in direct.value {
        var p1 := path(prev, curr);
        var p2 := path(curr, next);
        keep := p1.Some? && p2.Some? && |p1.value| > 0 && |p2.value| > 0 &&
                5 * (|p1.value| + |p2.value| - 1) <= 6 * |direct.value|;
      }
      assert keep == KeepStop(path, prev, curr, next);
      PickKeptStep(pts, path, i);
      if keep {
        r := r + [pts[i]];
        kept := kept + [pts[i]];
      }
    }
    r := r + [pts[|pts| - 1]];
  }
}
