/** The stop-order solver of _solve_tsp_route: the pairwise distance matrix
    over start, waypoints and end, brute force over every ordering for a few
    waypoints, and the nearest-neighbour heuristic for more. Point 0 is the
    start, point n - 1 the end, points 1 .. n - 2 the waypoints. */
module StopOrder {
  import opened Weights
  import opened Graph
  import opened Routing

  /** range(lo, hi) */
  function Range(lo: nat, hi: nat): (r: seq<nat>)
    ensures |r| == if hi < lo then 0 else hi - lo
    decreases hi - lo
  {
    if hi <= lo then [] else [lo] + Range(lo + 1, hi)
  }

  /** dist_matrix as rows: m[i][j] is the cost from point i to point j. */
  type Matrix = seq<seq<Weight>>

  predicate IsSquare(m: Matrix, n: nat)
  {
    |m| == n && forall i :: 0 <= i < n ==> |m[i]| == n
  }

  /** A matrix lookup; the routes built here never leave the matrix. */
  function Dist(m: Matrix, i: nat, j: nat): Weight
  {
    if i < |m| && j < |m[i]| then m[i][j] else Inf
  }

  /** dist_matrix[(i, j)]: 0 on the diagonal; a direct edge's weight, +infinity
      when it has none; else the walked cost of the oracle's path, +infinity
      when there is none. */
  function DistEntry(E: EdgeMap, path: PathOracle, pts: seq<Node>, i: nat, j: nat): (r: Weight)
    requires i < |pts| && j < |pts|
    ensures i == j ==> r == Fin(0.0)
    ensures i != j && Edge(pts[i], pts[j]) !in E && (path(pts[i], pts[j]).None? || path(pts[i], pts[j]).value == []) ==> r == Inf
  {
    if i == j then Fin(0.0)
    else if Edge(pts[i], pts[j]) in E then WeightOr(E[Edge(pts[i], pts[j])], Inf)
    else if path(pts[i], pts[j]).Some? && |path(pts[i], pts[j]).value| > 0 then WalkCost(E, path(pts[i], pts[j]).value)
    else Inf
  }

  /** The nested loops that fill the distance matrix. */
  method BuildDistMatrix(E: EdgeMap, path: PathOracle, pts: seq<Node>) returns (m: Matrix)
    ensures m == DistMatrix(E, path, pts)
  {
    var n := |pts|;
    m := [];
    for i := 0 to n
      invariant |m| == i
      invariant forall a :: 0 <= a < i ==> |m[a]| == n
      invariant forall a, b :: 0 <= a < i && 0 <= b < n ==> m[a][b] == DistEntry(E, path, pts, a, b)
    {
      var row: seq<Weight> := [];
      for j := 0 to n
        invariant |row| == j
        invariant forall b :: 0 <= b < j ==> row[b] == DistEntry(E, path, pts, i, b)
      {
        var d: Weight;
        if i == j {
          d := Fin(0.0);
        } else if Edge(pts[i], pts[j]) in E {
          d := WeightOr(E[Edge(pts[i], pts[j])], Inf);
        } else {
          var found := path(pts[i], pts[j]);
          if found.Some? && |found.value| > 0 {
            d := WalkPath(E, found.value);
          } else {
            d := Inf;
          }
        }
        row := row + [d];
      }
      m := m + [row];
    }
    ghost var d := DistMatrix(E, path, pts);
    assert forall i :: 0 <= i < n ==> m[i] == d[i];
  }

  /** The distance matrix the nested loops fill, as a value. */
  function DistMatrix(E: EdgeMap, path: PathOracle, pts: seq<Node>): (m: Matrix)
    ensures IsSquare(m, |pts|)
    ensures forall i, j :: 0 <= i < |pts| && 0 <= j < |pts| ==> m[i][j] == DistEntry(E, path, pts, i, j)
  {
    seq(|pts|, i requires 0 <= i < |pts| => seq(|pts|, j requires 0 <= j < |pts| => DistEntry(E, path, pts, i, j)))
  }

  /** The cost of visiting the points of route in order. */
  function PathSum(m: Matrix, route: seq<nat>): Weight
    decreases |route|
  {
    if |route| < 2 then Fin(0.0)
    else Add(PathSum(m, route[..|route| - 1]), Dist(m, route[|route| - 2], route[|route| - 1]))
  }

  /** The cost of start -> perm[0] -> ... -> perm[-1] -> end. */
  function TourCost(m: Matrix, n: nat, perm: seq<nat>): Weight
    requires n >= 1
  {
    PathSum(m, [0] + perm + [n - 1])
  }

  /** The tour costs +infinity exactly when one of its hops does. */
  lemma {:induction false} PathSumInfIff(m: Matrix, route: seq<nat>)
    ensures PathSum(m, route).Inf? <==> exists i :: 0 <= i < |route| - 1 && Dist(m, route[i], route[i + 1]).Inf?
    decreases |route|
  {
    if |route| >= 2 {
      var init := route[..|route| - 1];
      PathSumInfIff(m, init);
      assert forall i :: 0 <= i < |init| ==> init[i] == route[i];
      if exists i :: 0 <= i < |route| - 1 && Dist(m, route[i], route[i + 1]).Inf? {
        var i :| 0 <= i < |route| - 1 && Dist(m, route[i], route[i + 1]).Inf?;
        if i < |init| - 1 {
          assert Dist(m, init[i], init[i + 1]).Inf?;
        }
      }
    }
  }

  // ---------------------------------------------------------------------------
  // itertools.permutations

  /** s without its element at index i. */
  function RemoveAt(s: seq<nat>, i: nat): seq<nat>
    requires i < |s|
  {
    s[..i] + s[i + 1..]
  }

  /** x put in front of each sequence of ps. */
  function Prepend(x: nat, ps: seq<seq<nat>>): (r: seq<seq<nat>>)
    ensures |r| == |ps|
    ensures forall i :: 0 <= i < |ps| ==> r[i] == [x] + ps[i]
    decreases |ps|
  {
    if |ps| == 0 then [] else [[x] + ps[0]] + Prepend(x, ps[1..])
  }

  /** The orderings of s in the order itertools.permutations yields them: those
      starting with s[0] first, then those starting with s[1], and so on. */
  function Perms(s: seq<nat>): seq<seq<nat>>
    decreases |s|, 1, 0
  {
    if |s| == 0 then [[]] else PermsFrom(s, 0)
  }

  /** The orderings of s whose first element is taken at index i or later. */
  function PermsFrom(s: seq<nat>, i: nat): seq<seq<nat>>
    requires i <= |s|
    decreases |s|, 0, |s| - i
  {
    if i == |s| then [] else Prepend(s[i], Perms(RemoveAt(s, i))) + PermsFrom(s, i + 1)
  }

  /** Every sequence Perms yields is a rearrangement of s. */
  lemma {:induction false} PermsArePermutations(s: seq<nat>)
    ensures forall t :: 0 <= t < |Perms(s)| ==> multiset(Perms(s)[t]) == multiset(s)
    decreases |s|, 1, 0
  {
    if |s| > 0 {
      PermsFromArePermutations(s, 0);
    }
  }

  lemma {:induction false} PermsFromArePermutations(s: seq<nat>, i: nat)
    requires i <= |s|
    ensures forall t :: 0 <= t < |PermsFrom(s, i)| ==> multiset(PermsFrom(s, i)[t]) == multiset(s)
    decreases |s|, 0, |s| - i
  {
    if i < |s| {
      var rest := RemoveAt(s, i);
      PermsArePermutations(rest);
      PermsFromArePermutations(s, i + 1);
      assert s == s[..i] + [s[i]] + s[i + 1..];
      assert multiset(s) == multiset([s[i]]) + multiset(rest);
      var head := Prepend(s[i], Perms(rest));
      var tail := PermsFrom(s, i + 1);
      assert PermsFrom(s, i) == head + tail;
      forall t | 0 <= t < |head + tail|
        ensures multiset((head + tail)[t]) == multiset(s)
      {
        if t < |head| {
          assert (head + tail)[t] == [s[i]] + Perms(rest)[t];
        } else {
          assert (head + tail)[t] == tail[t - |head|];
        }
      }
    }
  }

  /** Every rearrangement of s is yielded by Perms. */
  lemma {:induction false} PermsComplete(s: seq<nat>, p: seq<nat>)
    requires multiset(p) == multiset(s)
    ensures p in Perms(s)
    decreases |s|
  {
    assert |p| == |multiset(p)| == |multiset(s)| == |s|;
    if |s| > 0 {
      assert p[0] in multiset(s);
      var i :| 0 <= i < |s| && s[i] == p[0];
      var rest := RemoveAt(s, i);
      assert s == s[..i] + [s[i]] + s[i + 1..];
      assert p == [p[0]] + p[1..];
      assert multiset(p) == multiset([p[0]]) + multiset(p[1..]);
      assert multiset(s) == multiset(s[..i]) + multiset([s[i]]) + multiset(s[i + 1..]);
      assert multiset(rest) == multiset(s[..i]) + multiset(s[i + 1..]);
      forall x
        ensures multiset(p[1..])[x] == multiset(rest)[x]
      {
        assert multiset(p)[x] == multiset([p[0]])[x] + multiset(p[1..])[x];
      }
      assert multiset(p[1..]) == multiset(rest);
      PermsComplete(rest, p[1..]);
      var t :| 0 <= t < |Perms(rest)| && Perms(rest)[t] == p[1..];
      assert Prepend(s[i], Perms(rest))[t] == p;
      PermsFromHas(s, 0, i, p);
    }
  }

  /** PermsFrom(s, j) contains everything that starts with s[i] for j <= i. */
  lemma {:induction false} PermsFromHas(s: seq<nat>, j: nat, i: nat, p: seq<nat>)
    requires j <= i < |s|
    requires p in Prepend(s[i], Perms(RemoveAt(s, i)))
    ensures p in PermsFrom(s, j)
    decreases i - j
  {
    if j < i {
      PermsFromHas(s, j + 1, i, p);
    }
  }

  // ---------------------------------------------------------------------------
  // Orderings of index ranges

  /** p lists every index lo .. hi - 1 exactly once. */
  predicate IsOrdering(p: seq<int>, lo: int, hi: int)
  {
    |p| == (if hi < lo then 0 else hi - lo) &&
    (forall i :: 0 <= i < |p| ==> lo <= p[i] < hi) &&
    (forall i, j :: 0 <= i < j < |p| ==> p[i] != p[j])
  }

  lemma {:induction false} RangeCount(lo: nat, hi: nat, x: nat)
    ensures multiset(Range(lo, hi))[x] == if lo <= x < hi then 1 else 0
    decreases hi - lo
  {
    if lo < hi {
      var rest := Range(lo + 1, hi);
      RangeCount(lo + 1, hi, x);
      assert Range(lo, hi) == [lo] + rest;
      assert multiset(Range(lo, hi)) == multiset([lo]) + multiset(rest);
    } else {
      assert Range(lo, hi) == [];
    }
  }

  /** A rearrangement of lo .. hi - 1 is an ordering of those indices. */
  lemma PermutationIsOrdering(p: seq<nat>, lo: nat, hi: nat)
    requires multiset(p) == multiset(Range(lo, hi))
    ensures IsOrdering(p, lo, hi)
  {
    assert |p| == |multiset(p)| == |multiset(Range(lo, hi))| == |Range(lo, hi)|;
    forall i | 0 <= i < |p|
      ensures lo <= p[i] < hi
    {
      assert p[i] in multiset(p);
      RangeCount(lo, hi, p[i]);
    }
    forall i, j | 0 <= i < j < |p|
      ensures p[i] != p[j]
    {
      if p[i] == p[j] {
        assert p == p[..j] + [p[j]] + p[j + 1..];
        assert p[i] in multiset(p[..j]);
        assert multiset(p)[p[j]] >= 2;
        RangeCount(lo, hi, p[j]);
      }
    }
  }

  /** [idx - 1 for idx in order] */
  function Shift(p: seq<nat>): (r: seq<int>)
    ensures |r| == |p|
    ensures forall i :: 0 <= i < |p| ==> r[i] == (p[i] as int) - 1
    decreases |p|
  {
    if |p| == 0 then [] else [(p[0] as int) - 1] + Shift(p[1..])
  }

  // ---------------------------------------------------------------------------
  // Brute force

  /** permutations(range(1, n - 1)): the orderings of the waypoints. */
  function WaypointOrders(n: nat): seq<seq<nat>>
    requires n >= 1
  {
    Perms(Range(1, n - 1))
  }

  /** The brute-force search over every ordering of the waypoints 1 .. n - 2,
      in itertools order, keeping the first ordering whose cost is strictly
      below the best so far (the best starts at +infinity). */
  method BruteForce(m: Matrix, n: nat) returns (best: Option<seq<nat>>)
    requires n >= 2
    ensures best.None? <==> forall q :: q in WaypointOrders(n) ==> TourCost(m, n, q).Inf?
    ensures best.Some? ==> multiset(best.value) == multiset(Range(1, n - 1))
    ensures best.Some? ==> forall q: seq<nat> :: multiset(q) == multiset(Range(1, n - 1)) ==>
              LessEq(TourCost(m, n, best.value), TourCost(m, n, q))
    ensures best.Some? ==>
              exists t :: 0 <= t < |WaypointOrders(n)| && WaypointOrders(n)[t] == best.value &&
                (forall u :: 0 <= u < t ==> Less(TourCost(m, n, best.value), TourCost(m, n, WaypointOrders(n)[u])))
  {
    var ps := WaypointOrders(n);
    best := None;
    var bestCost := Inf;
    ghost var at := 0;
    for t := 0 to |ps|
      invariant best.None? <==> forall u :: 0 <= u < t ==> TourCost(m, n, ps[u]).Inf?
      invariant best.None? ==> bestCost == Inf
      invariant best.Some? ==> 0 <= at < t && ps[at] == best.value && bestCost == TourCost(m, n, best.value)
      invariant best.Some? ==> forall u :: 0 <= u < t ==> LessEq(bestCost, TourCost(m, n, ps[u]))
      invariant best.Some? ==> forall u :: 0 <= u < at ==> Less(bestCost, TourCost(m, n, ps[u]))
    {
      var cost := TourCost(m, n, ps[t]);
      if Less(cost, bestCost) {
        forall u | 0 <= u < t
          ensures LessEq(cost, TourCost(m, n, ps[u]))
        {
          LessIsStrictTotalOrder(cost, bestCost, TourCost(m, n, ps[u]));
          LessIsStrictTotalOrder(TourCost(m, n, ps[u]), cost, bestCost);
        }
        best, bestCost, at := Some(ps[t]), cost, t;
      }
    }
    if best.Some? {
      PermsArePermutations(Range(1, n - 1));
      forall q: seq<nat> | multiset(q) == multiset(Range(1, n - 1))
        ensures LessEq(TourCost(m, n, best.value), TourCost(m, n, q))
      {
        PermsComplete(Range(1, n - 1), q);
      }
    }
  }

  // ---------------------------------------------------------------------------
  // Nearest neighbour

  /** The point the tour is at before step i. */
  function Prev(route: seq<nat>, i: nat): nat
    requires i <= |route|
  {
    if i == 0 then 0 else route[i - 1]
  }

  /** Each step of route picked a cheapest point among those not yet visited. */
  predicate Greedy(m: Matrix, route: seq<nat>, unvisited: set<nat>)
  {
    (forall i, j :: 0 <= i <= j < |route| ==>
       LessEq(Dist(m, Prev(route, i), route[i]), Dist(m, Prev(route, i), route[j]))) &&
    (forall i, y :: 0 <= i < |route| && y in unvisited ==>
       LessEq(Dist(m, Prev(route, i), route[i]), Dist(m, Prev(route, i), y)))
  }

  /** min(unvisited, key=lambda x: dist_matrix[(current, x)]), scanning the
      candidates in increasing order and keeping the first strict minimum. */
  method Nearest(m: Matrix, n: nat, current: nat, unvisited: set<nat>) returns (x: nat)
    requires unvisited != {}
    requires forall y :: y in unvisited ==> y < n
    ensures x in unvisited
    ensures forall y :: y in unvisited ==> LessEq(Dist(m, current, x), Dist(m, current, y))
    ensures forall y :: y in unvisited && y < x ==> Less(Dist(m, current, x), Dist(m, current, y))
  {
    assert exists y :: y in unvisited;
    var found := false;
    x := 0;
    for c := 0 to n
      invariant found ==> x in unvisited && x < c
      invariant !found ==> forall y :: y in unvisited ==> y >= c
      invariant found ==> forall y :: y in unvisited && y < c ==> LessEq(Dist(m, current, x), Dist(m, current, y))
      invariant found ==> forall y :: y in unvisited && y < x ==> Less(Dist(m, current, x), Dist(m, current, y))
    {
      if c in unvisited && (!found || Less(Dist(m, current, c), Dist(m, current, x))) {
        if found {
          forall y | y in unvisited && y < c
            ensures LessEq(Dist(m, current, c), Dist(m, current, y))
          {
            LessIsStrictTotalOrder(Dist(m, current, c), Dist(m, current, x), Dist(m, current, y));
            LessIsStrictTotalOrder(Dist(m, current, y), Dist(m, current, c), Dist(m, current, x));
          }
        }
        x, found := c, true;
      } else if c in unvisited {
        LessIsStrictTotalOrder(Dist(m, current, x), Dist(m, current, c), Dist(m, current, c));
      }
    }
    if !found {
      assert false;
    }
  }

  /** The set {lo, ..., hi - 1}. */
  function RangeSet(lo: nat, hi: nat): (r: set<nat>)
    ensures forall x :: x in r <==> lo <= x < hi
    decreases hi - lo
  {
    if hi <= lo then {} else {lo} + RangeSet(lo + 1, hi)
  }

  lemma {:induction false} RangeSetSize(lo: nat, hi: nat)
    ensures |RangeSet(lo, hi)| == if hi < lo then 0 else hi - lo
    decreases hi - lo
  {
    if lo < hi {
      RangeSetSize(lo + 1, hi);
      assert RangeSet(lo, hi) == {lo} + RangeSet(lo + 1, hi);
    } else {
      assert RangeSet(lo, hi) == {};
    }
  }

  /** Moving to a cheapest unvisited point keeps every step greedy. */
  lemma GreedyStep(m: Matrix, route: seq<nat>, unvisited: set<nat>, x: nat)
    requires Greedy(m, route, unvisited)
    requires x in unvisited
    requires forall y :: y in unvisited ==> LessEq(Dist(m, Prev(route, |route|), x), Dist(m, Prev(route, |route|), y))
    ensures Greedy(m, route + [x], unvisited - {x})
  {
    var r := route + [x];
    forall i, j | 0 <= i <= j < |r|
      ensures LessEq(Dist(m, Prev(r, i), r[i]), Dist(m, Prev(r, i), r[j]))
    {
      assert Prev(r, i) == Prev(route, i);
      if j < |route| {
        assert r[i] == route[i] && r[j] == route[j];
      } else if i < |route| {
        assert r[i] == route[i] && r[j] == x;
      }
    }
    forall i, y | 0 <= i < |r| && y in unvisited - {x}
      ensures LessEq(Dist(m, Prev(r, i), r[i]), Dist(m, Prev(r, i), y))
    {
      assert Prev(r, i) == Prev(route, i);
      if i < |route| {
        assert r[i] == route[i];
      }
    }
  }

  /** The bookkeeping of the heuristic: route and unvisited split the waypoints. */
  ghost predicate Splits(route: seq<nat>, unvisited: set<nat>, n: nat)
  {
    (forall x :: x in unvisited <==> 1 <= x < n - 1 && x !in route) &&
    (forall i :: 0 <= i < |route| ==> 1 <= route[i] < n - 1) &&
    (forall i, j :: 0 <= i < j < |route| ==> route[i] != route[j]) &&
    |route| + |unvisited| == n - 2
  }

  /** Visiting an unvisited point keeps the split. */
  lemma VisitKeepsSplit(route: seq<nat>, unvisited: set<nat>, n: nat, x: nat)
    requires Splits(route, unvisited, n)
    requires x in unvisited
    ensures Splits(route + [x], unvisited - {x}, n)
  {
    var r := route + [x];
    forall y
      ensures y in unvisited - {x} <==> 1 <= y < n - 1 && y !in r
    {
      assert y in r <==> y in route || y == x;
    }
  }

  /** The nearest-neighbour heuristic: from the start, repeatedly move to a
      cheapest unvisited waypoint until none is left. */
  method NearestNeighbour(m: Matrix, n: nat) returns (route: seq<nat>)
    requires n >= 2
    ensures IsOrdering(route, 1, n - 1)
    ensures Greedy(m, route, {})
  {
    var unvisited := RangeSet(1, n - 1);
    SplitStarts(n);
    var current := 0;
    route := [];
    while unvisited != {}
      invariant Splits(route, unvisited, n)
      invariant current == Prev(route, |route|)
      invariant Greedy(m, route, unvisited)
      decreases |unvisited|
    {
      SplitBounds(route, unvisited, n);
      var x := Nearest(m, n, current, unvisited);
      GreedyStep(m, route, unvisited, x);
      VisitKeepsSplit(route, unvisited, n, x);
      route := route + [x];
      unvisited := unvisited - {x};
      current := x;
    }
    SplitEnds(route, n);
  }

  /** At the start nothing is visited and every waypoint is unvisited. */
  lemma SplitStarts(n: nat)
    requires n >= 2
    ensures Splits([], RangeSet(1, n - 1), n)
  {
    RangeSetSize(1, n - 1);
  }

  /** Unvisited points are matrix indices. */
  lemma SplitBounds(route: seq<nat>, unvisited: set<nat>, n: nat)
    requires Splits(route, unvisited, n)
    ensures forall y :: y in unvisited ==> y < n
  {
  }

  /** Once nothing is left unvisited, the route lists every waypoint once. */
  lemma SplitEnds(route: seq<nat>, n: nat)
    requires Splits(route, {}, n)
    ensures IsOrdering(route, 1, n - 1)
  {
  }

  /** [idx + 1 for idx in order]: back from waypoint indices to matrix indices. */
  function Unshift(p: seq<int>): (r: seq<nat>)
    requires forall i :: 0 <= i < |p| ==> p[i] >= 0
    ensures |r| == |p|
    ensures forall i :: 0 <= i < |p| ==> r[i] as int == p[i] + 1
    decreases |p|
  {
    if |p| == 0 then [] else [(p[0] + 1) as nat] + Unshift(p[1..])
  }

  /** Shifting matrix indices 1 .. n - 2 gives an ordering of the waypoint
      indices 0 .. n - 3, and shifting back recovers them. */
  lemma ShiftOrdering(p: seq<nat>, n: nat)
    requires n >= 2
    requires IsOrdering(p, 1, n - 1)
    ensures IsOrdering(Shift(p), 0, n - 2)
    ensures Unshift(Shift(p)) == p
  {
    var s := Shift(p);
    assert forall i :: 0 <= i < |s| ==> 0 <= s[i] < n - 2;
    assert forall i, j :: 0 <= i < j < |s| ==> s[i] != s[j];
    var q := Unshift(s);
    assert forall i :: 0 <= i < |p| ==> q[i] == p[i];
  }

  /** No ordering of the waypoints gives a cheaper tour than b. */
  ghost predicate OptimalTour(m: Matrix, n: nat, b: seq<nat>)
    requires n >= 1
  {
    forall q: seq<nat> :: multiset(q) == multiset(Range(1, n - 1)) ==> LessEq(TourCost(m, n, b), TourCost(m, n, q))
  }

  /** Every ordering of the waypoints gives a +infinity tour. */
  predicate NoFiniteTour(m: Matrix, n: nat)
    requires n >= 1
  {
    forall q :: q in WaypointOrders(n) ==> TourCost(m, n, q).Inf?
  }

  /** b is the first ordering, in itertools order, that is strictly cheaper
      than every ordering before it. */
  ghost predicate FirstCheapest(m: Matrix, n: nat, b: seq<nat>)
    requires n >= 1
  {
    exists t :: 0 <= t < |WaypointOrders(n)| && WaypointOrders(n)[t] == b &&
      (forall u :: 0 <= u < t ==> Less(TourCost(m, n, b), TourCost(m, n, WaypointOrders(n)[u])))
  }

  /** What the solver's answer promises about the tours through start, the
      stops and end: for at most 7 stops, an ordering with no cheaper tour,
      the first strictly cheapest one, given exactly when some tour is finite;
      for more, a greedy ordering, always given. */
  ghost predicate SolverChoice(E: EdgeMap, path: PathOracle, start: Node, stops: seq<Node>, end: Node,
                               o: Option<seq<int>>)
  {
    var m := DistMatrix(E, path, RoutePoints(start, stops, end));
    var n := |stops| + 2;
    match o
    case None => |stops| <= 7 && NoFiniteTour(m, n)
    case Some(p) =>
      IsOrdering(p, 0, |stops|) &&
      (|stops| <= 7 ==> !NoFiniteTour(m, n) && OptimalTour(m, n, Unshift(p)) && FirstCheapest(m, n, Unshift(p))) &&
      (|stops| > 7 ==> Greedy(m, Unshift(p), {}))
  }

  /** What _solve_tsp_route returns: waypoint indices, or the failure when the
      brute force finds no finite tour and best_order stays None. */
  datatype TspOutcome = Order(indices: seq<int>) | NoOrderFound

  /** _solve_tsp_route(start, end, waypoints). With no waypoint: []. With one:
      [1], the matrix index left unshifted. With 2 .. 7: the shifted first
      cheapest ordering over all orderings, or the failure when every tour is
      +infinity. With more: the shifted nearest-neighbour route. */
  method SolveTspRoute(E: EdgeMap, path: PathOracle, start: Node, stops: seq<Node>, end: Node) returns (r: TspOutcome)
    ensures |stops| == 0 ==> r == Order([])
    ensures |stops| == 1 ==> r == Order([1])
    ensures r.NoOrderFound? ==>
              2 <= |stops| <= 7 && NoFiniteTour(DistMatrix(E, path, RoutePoints(start, stops, end)), |stops| + 2)
    ensures 2 <= |stops| <= 7 && NoFiniteTour(DistMatrix(E, path, RoutePoints(start, stops, end)), |stops| + 2) ==>
              r.NoOrderFound?
    ensures |stops| > 7 ==> r.Order?
    ensures r.Order? && |stops| >= 2 ==> IsOrdering(r.indices, 0, |stops|)
    ensures r.Order? && 2 <= |stops| <= 7 ==>
              OptimalTour(DistMatrix(E, path, RoutePoints(start, stops, end)), |stops| + 2, Unshift(r.indices)) &&
              FirstCheapest(DistMatrix(E, path, RoutePoints(start, stops, end)), |stops| + 2, Unshift(r.indices))
    ensures r.Order? && |stops| > 7 ==>
              Greedy(DistMatrix(E, path, RoutePoints(start, stops, end)), Unshift(r.indices), {})
  {
    if |stops| == 0 {
      return Order([]);
    }
    var pts := RoutePoints(start, stops, end);
    var n := |pts|;
    var m := BuildDistMatrix(E, path, pts);
    if n - 2 <= 1 {
      return Order(Range(1, n - 1));
    }
    if n - 2 <= 7 {
      var best := BruteForce(m, n);
      if best.None? {
        return NoOrderFound;
      }
      PermutationIsOrdering(best.value, 1, n - 1);
      ShiftOrdering(best.value, n);
      return Order(Shift(best.value));
    }
    var route := NearestNeighbour(m, n);
    ShiftOrdering(route, n);
    return Order(Shift(route));
  }
}
