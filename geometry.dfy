/** Planar geometry used by click snapping. Distances are compared squared:
    the square root taken by the window code is monotone and left out. */
module Geometry {

  datatype Point = Point(x: real, y: real)

  /** The length threshold below which a segment counts as a single point (1e-9). */
  const Epsilon: real := 0.000000001

  function Sq(a: real): (r: real)
    ensures r >= 0.0
  {
    a * a
  }

  function DistSq(p: Point, q: Point): (r: real)
    ensures r >= 0.0
    ensures p == q ==> r == 0.0
  {
    Sq(p.x - q.x) + Sq(p.y - q.y)
  }

  /** Squared length of the segment from a to b. */
  function LenSq(a: Point, b: Point): (r: real)
    ensures r >= 0.0
  {
    DistSq(b, a)
  }

  /** max(0.0, min(1.0, t)). */
  function Clamp01(t: real): (r: real)
    ensures 0.0 <= r <= 1.0
    ensures 0.0 <= t <= 1.0 ==> r == t
    ensures t < 0.0 ==> r == 0.0
    ensures t > 1.0 ==> r == 1.0
  {
    if t < 0.0 then 0.0 else if t > 1.0 then 1.0 else t
  }

  /** The point at parameter t along the segment from a to b. */
  function Lerp(a: Point, b: Point, t: real): (r: Point)
    ensures t == 0.0 ==> r == a
    ensures t == 1.0 ==> r == b
  {
    Point(a.x + t * (b.x - a.x), a.y + t * (b.y - a.y))
  }

  /** (p - a) . (b - a) */
  function DotAlong(p: Point, a: Point, b: Point): real
  {
    (p.x - a.x) * (b.x - a.x) + (p.y - a.y) * (b.y - a.y)
  }

  /** The projection parameter of p onto the segment a-b, clamped to [0, 1]. */
  function ProjParam(p: Point, a: Point, b: Point): (t: real)
    requires LenSq(a, b) > 0.0
    ensures 0.0 <= t <= 1.0
  {
    Clamp01(DotAlong(p, a, b) / LenSq(a, b))
  }

  /** point_segment_distance, squared: a (near-)degenerate segment falls back
      to the distance to a; otherwise the distance to the clamped projection. */
  function PointSegmentDistSq(p: Point, a: Point, b: Point): (r: real)
    ensures r >= 0.0
    ensures LenSq(a, b) < Epsilon ==> r == DistSq(p, a)
  {
    if LenSq(a, b) < Epsilon then DistSq(p, a)
    else DistSq(p, Lerp(a, b, ProjParam(p, a, b)))
  }

  /** K - 2 s D + s^2 L */
  function Quadratic(K: real, D: real, L: real, s: real): real
  {
    K + (s * s * L - 2.0 * s * D)
  }

  /** The squared distance to the point at parameter s, as a quadratic in s. */
  lemma DistAlongIsQuadratic(p: Point, a: Point, b: Point, s: real)
    ensures DistSq(p, Lerp(a, b, s)) == Quadratic(DistSq(p, a), DotAlong(p, a, b), LenSq(a, b), s)
  {
    var ux, uy := p.x - a.x, p.y - a.y;
    var vx, vy := b.x - a.x, b.y - a.y;
    assert p.x - (a.x + s * vx) == ux - s * vx;
    assert p.y - (a.y + s * vy) == uy - s * vy;
    assert Sq(ux - s * vx) == ux * ux - 2.0 * s * (ux * vx) + s * s * (vx * vx);
    assert Sq(uy - s * vy) == uy * uy - 2.0 * s * (uy * vy) + s * s * (vy * vy);
  }

  lemma MulNonneg(x: real, y: real)
    requires (x >= 0.0 && y >= 0.0) || (x <= 0.0 && y <= 0.0)
    ensures x * y >= 0.0
  {
  }

  /** The quadratic s*s*L - 2*s*D (L > 0) is minimised over [0, 1] at the clamped
      vertex D/L. */
  lemma ClampedVertexIsMinimum(K: real, D: real, L: real, s: real, t: real)
    requires L > 0.0
    requires 0.0 <= s <= 1.0
    requires t == Clamp01(D / L)
    ensures Quadratic(K, D, L, t) <= Quadratic(K, D, L, s)
  {
    var q := D / L;
    assert q * L == D;
    var diff := (s * s * L - 2.0 * s * D) - (t * t * L - 2.0 * t * D);
    assert diff == (s - t) * ((s + t) * L - 2.0 * D);
    if q < 0.0 {
      assert D < 0.0;
      MulNonneg(s, s * L - 2.0 * D);
    } else if q > 1.0 {
      assert D > L;
      MulNonneg(s - 1.0, (s + 1.0) * L - 2.0 * D);
    } else {
      assert (s + t) * L - 2.0 * D == (s - t) * L;
      MulNonneg((s - t) * (s - t), L);
    }
  }

  /** On a non-degenerate segment, the clamped projection is the closest point of
      the whole segment to p: no point of the segment is nearer. */
  lemma ProjectionIsClosest(p: Point, a: Point, b: Point, s: real)
    requires LenSq(a, b) >= Epsilon
    requires 0.0 <= s <= 1.0
    ensures PointSegmentDistSq(p, a, b) <= DistSq(p, Lerp(a, b, s))
  {
    var t := ProjParam(p, a, b);
    DistAlongIsQuadratic(p, a, b, s);
    DistAlongIsQuadratic(p, a, b, t);
    ClampedVertexIsMinimum(DistSq(p, a), DotAlong(p, a, b), LenSq(a, b), s, t);
    assert PointSegmentDistSq(p, a, b) == DistSq(p, Lerp(a, b, t));
  }

  /** Hence the segment distance is never more than the distance to either endpoint. */
  lemma SegmentNoFartherThanEndpoints(p: Point, a: Point, b: Point)
    ensures PointSegmentDistSq(p, a, b) <= DistSq(p, a)
    ensures LenSq(a, b) >= Epsilon ==> PointSegmentDistSq(p, a, b) <= DistSq(p, b)
  {
    if LenSq(a, b) >= Epsilon {
      ProjectionIsClosest(p, a, b, 0.0);
      ProjectionIsClosest(p, a, b, 1.0);
    }
  }
}
