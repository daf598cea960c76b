/**
 * Line and segment queries of capsule.cpp: which side of a line a point is
 * on, the intersection of two lines by Cramer's rule, segment crossing tests
 * and the closest point of a segment.
 */
module Lines {
  import opened Numeric
  import opened Vectors

  /** The point of segment p0..p1 at parameter t, p0 + t*(p1-p0). */
  function SegPoint(p0: Vec2, p1: Vec2, t: real): Vec2
  {
    Add(p0, Scale(t, Sub(p1, p0)))
  }

  lemma SegPointIsLerp(p0: Vec2, p1: Vec2, t: real)
    ensures SegPoint(p0, p1, t) == Lerp2(p0, p1, t)
  {
    LerpForms(p0.x, p1.x, t);
    LerpForms(p0.y, p1.y, t);
  }

  lemma LerpForms(a: real, b: real, t: real)
    ensures a + t * (b - a) == Lerp(a, b, t)
  {
  }

  // ---------------------------------------------------------------- sides

  /**
   * is_point_left_of(p0, p1, point) = dot(rot90CCW(p1-p0), point-p0) > 0:
   * left of the line means a strictly positive cross product.
   */
  predicate IsPointLeftOf(p0: Vec2, p1: Vec2, point: Vec2)
    ensures IsPointLeftOf(p0, p1, point) <==> Cross(Sub(p1, p0), Sub(point, p0)) > 0.0
  {
    Dot(Rot90CCW(Sub(p1, p0)), Sub(point, p0)) > 0.0
  }

  // ---------------------------------------------------------------- ray_ray

  /** The two line parameters of an intersection. */
  datatype Params = Params(t0: real, t1: real)

  /**
   * ray_ray(p0, d0, p1, d1): Cramer's rule on t0*d0 - t1*d1 = p1-p0. A zero
   * determinant makes both quotients non-finite, which is the failure.
   */
  function RayRay(p0: Vec2, d0: Vec2, p1: Vec2, d1: Vec2): (r: Option<Params>)
    ensures r.None? <==> Cross(d0, d1) == 0.0
    ensures r.Some? ==> Add(p0, Scale(r.value.t0, d0)) == Add(p1, Scale(r.value.t1, d1))
  {
    var a, b, c, d := d0.x, -d1.x, d0.y, -d1.y;
    var e, f := p1.x - p0.x, p1.y - p0.y;
    var det := a * d - b * c;
    if det == 0.0 then None
    else
      var t0, t1 := (e * d - b * f) / det, (a * f - e * c) / det;
      CramerSolves(a, b, c, d, e, f, det, t0, t1);
      Some(Params(t0, t1))
  }

  lemma CramerSolves(a: real, b: real, c: real, d: real, e: real, f: real, det: real, t0: real, t1: real)
    requires det == a * d - b * c && det != 0.0
    requires t0 == (e * d - b * f) / det && t1 == (a * f - e * c) / det
    ensures t0 * a + t1 * b == e && t0 * c + t1 * d == f
  {
    assert t0 * det == e * d - b * f;
    assert t1 * det == a * f - e * c;
    assert (t0 * a + t1 * b) * det == e * det;
    assert (t0 * c + t1 * d) * det == f * det;
  }

  /** When the lines are not parallel, the parameters ray_ray finds are the only ones. */
  lemma RayRayUnique(p0: Vec2, d0: Vec2, p1: Vec2, d1: Vec2, s0: real, s1: real)
    requires Cross(d0, d1) != 0.0
    requires Add(p0, Scale(s0, d0)) == Add(p1, Scale(s1, d1))
    ensures RayRay(p0, d0, p1, d1) == Some(Params(s0, s1))
  {
    var r := RayRay(p0, d0, p1, d1).value;
    CrossSolve(p0, d0, p1, d1, s0, s1);
    CrossSolve(p0, d0, p1, d1, r.t0, r.t1);
    CancelFactor(s0, r.t0, Cross(d0, d1));
    CancelFactor(s1, r.t1, Cross(d0, d1));
  }

  /** A non-zero factor can be cancelled from both sides of an equation. */
  lemma CancelFactor(x: real, y: real, c: real)
    requires c != 0.0 && x * c == y * c
    ensures x == y
  {
    DivUnique(x * c, x, c);
    DivUnique(y * c, y, c);
  }

  lemma MulEq(u: real, v: real, k: real)
    requires u == v
    ensures u * k == v * k
  {
  }

  lemma DivUnique(x: real, q: real, det: real)
    requires det != 0.0 && q * det == x
    ensures q == x / det
  {
  }

  // ---------------------------------------------------------------- segments

  /**
   * The boolean line_segment_intersect_test: false when b0 and b1 are on
   * the same side of a, or a0 and a1 on the same side of b. Segments that
   * pass it meet: their lines are not parallel and both parameters ray_ray
   * finds lie in [0,1].
   */
  predicate SegmentsCross(a0: Vec2, a1: Vec2, b0: Vec2, b1: Vec2)
    ensures SegmentsCross(a0, a1, b0, b1) ==> RayRay(a0, Sub(a1, a0), b0, Sub(b1, b0)).Some?
    ensures SegmentsCross(a0, a1, b0, b1) ==> var p := RayRay(a0, Sub(a1, a0), b0, Sub(b1, b0)).value;
      0.0 <= p.t0 <= 1.0 && 0.0 <= p.t1 <= 1.0
  {
    CrossingMeets(a0, a1, b0, b1);
    && IsPointLeftOf(a0, a1, b0) != IsPointLeftOf(a0, a1, b1)
    && IsPointLeftOf(b0, b1, a0) != IsPointLeftOf(b0, b1, a1)
  }

  /** r with r*(p-q) == p lies in [0,1] when exactly one of p and q is positive. */
  lemma UnitFromProduct(r: real, p: real, q: real)
    requires (p > 0.0) != (q > 0.0)
    requires r * (p - q) == p
    ensures 0.0 <= r <= 1.0
  {
    assert (1.0 - r) * (p - q) == -q;
    if p > 0.0 {
      NonnegFromProduct(r, p - q, p);
      NonnegFromProduct(1.0 - r, p - q, -q);
    } else {
      NonnegFromProduct(r, q - p, -p);
      NonnegFromProduct(1.0 - r, q - p, q);
    }
  }

  lemma NonnegFromProduct(r: real, k: real, m: real)
    requires 0.0 < k && r * k == m && 0.0 <= m
    ensures 0.0 <= r
  {
    if r < 0.0 {
      MulNegPos(r, k);
    }
  }

  lemma MulNegPos(a: real, b: real)
    requires a < 0.0 < b
    ensures a * b < 0.0
  {
  }

  /** Opposite sides on both lines, in cross products, give parameters in [0,1]. */
  lemma CrossingMeets(a0: Vec2, a1: Vec2, b0: Vec2, b1: Vec2)
    ensures (IsPointLeftOf(a0, a1, b0) != IsPointLeftOf(a0, a1, b1)
      && IsPointLeftOf(b0, b1, a0) != IsPointLeftOf(b0, b1, a1))
      ==> (RayRay(a0, Sub(a1, a0), b0, Sub(b1, b0)).Some?
        && var p := RayRay(a0, Sub(a1, a0), b0, Sub(b1, b0)).value;
          0.0 <= p.t0 <= 1.0 && 0.0 <= p.t1 <= 1.0)
  {
    if && IsPointLeftOf(a0, a1, b0) != IsPointLeftOf(a0, a1, b1)
       && IsPointLeftOf(b0, b1, a0) != IsPointLeftOf(b0, b1, a1)
    {
      CrossingParams(a0, a1, b0, b1);
    }
  }

  lemma CrossingParams(a0: Vec2, a1: Vec2, b0: Vec2, b1: Vec2)
    requires IsPointLeftOf(a0, a1, b0) != IsPointLeftOf(a0, a1, b1)
    requires IsPointLeftOf(b0, b1, a0) != IsPointLeftOf(b0, b1, a1)
    ensures RayRay(a0, Sub(a1, a0), b0, Sub(b1, b0)).Some?
    ensures var p := RayRay(a0, Sub(a1, a0), b0, Sub(b1, b0)).value;
      0.0 <= p.t0 <= 1.0 && 0.0 <= p.t1 <= 1.0
  {
    var a, b := Sub(a1, a0), Sub(b1, b0);
    var sb0, sb1 := Cross(a, Sub(b0, a0)), Cross(a, Sub(b1, a0));
    var sa0, sa1 := Cross(b, Sub(a0, b0)), Cross(b, Sub(a1, b0));
    CrossOfDifferences(a, b1, b0, a0);
    CrossOfDifferences(b, a0, a1, b0);
    CrossFlip(b, a0, a1);
    var r := RayRay(a0, a, b0, b).value;
    CrossSolve(a0, a, b0, b, r.t0, r.t1);
    CrossFlip(b, a0, b0);
    CrossFlip(a, b0, a0);
    UnitParams(r.t0, r.t1, Cross(a, b), sa0, sa1, sb0, sb1);
  }

  /** cross(u, p-o) - cross(u, q-o) = cross(u, p-q) */
  lemma CrossOfDifferences(u: Vec2, p: Vec2, q: Vec2, o: Vec2)
    ensures Cross(u, Sub(p, o)) - Cross(u, Sub(q, o)) == Cross(u, Sub(p, q))
  {
  }

  /** cross(v, p-q) = cross(q-p, v) */
  lemma CrossFlip(v: Vec2, p: Vec2, q: Vec2)
    ensures Cross(v, Sub(p, q)) == Cross(Sub(q, p), v)
  {
  }

  /** Crossing p + t0*u = q + t1*v with v, and with u, isolates t0 and t1. */
  lemma CrossSolve(p: Vec2, u: Vec2, q: Vec2, v: Vec2, t0: real, t1: real)
    requires Add(p, Scale(t0, u)) == Add(q, Scale(t1, v))
    ensures t0 * Cross(u, v) == Cross(Sub(q, p), v)
    ensures t1 * Cross(u, v) == Cross(Sub(q, p), u)
  {
    MulEq(p.x + t0 * u.x, q.x + t1 * v.x, v.y);
    MulEq(p.y + t0 * u.y, q.y + t1 * v.y, v.x);
    MulEq(p.x + t0 * u.x, q.x + t1 * v.x, u.y);
    MulEq(p.y + t0 * u.y, q.y + t1 * v.y, u.x);
  }

  /**
   * The sign argument: with c = sa0 - sa1 = sb1 - sb0, t0*c = sa0 and
   * t1*c = -sb0, opposite signs on both sides put t0 and t1 in [0,1].
   */
  lemma UnitParams(t0: real, t1: real, c: real, sa0: real, sa1: real, sb0: real, sb1: real)
    requires (sa0 > 0.0) != (sa1 > 0.0) && (sb0 > 0.0) != (sb1 > 0.0)
    requires c == sa0 - sa1 && c == sb1 - sb0
    requires t0 * c == sa0 && t1 * c == -sb0
    ensures 0.0 <= t0 <= 1.0 && 0.0 <= t1 <= 1.0
  {
    MulEq(c, sa0 - sa1, t0);
    MulEq(c, sb1 - sb0, t1);
    UnitFromProduct(t0, sa0, sa1);
    UnitFromProduct(t1, sb0, sb1);
  }

  /**
   * The parametric line_segment_intersect_test: the crossing test, then
   * ray_ray, then both parameters saturated to [0,1].
   */
  function SegmentIntersectParams(a0: Vec2, a1: Vec2, b0: Vec2, b1: Vec2): (r: Option<Params>)
    ensures r.Some? <==> SegmentsCross(a0, a1, b0, b1)
    ensures r.Some? ==> 0.0 <= r.value.t0 <= 1.0 && 0.0 <= r.value.t1 <= 1.0
    ensures r.Some? ==> SegPoint(a0, a1, r.value.t0) == SegPoint(b0, b1, r.value.t1)
  {
    if !SegmentsCross(a0, a1, b0, b1) then None
    else
      match RayRay(a0, Sub(a1, a0), b0, Sub(b1, b0))
      case None => None
      case Some(p) => Some(Params(Saturate(p.t0), Saturate(p.t1)))
  }

  /**
   * The line_segment_intersect_test that writes the point a0 + t0*(a1-a0):
   * a point that lies on both segments.
   */
  function SegmentIntersectPoint(a0: Vec2, a1: Vec2, b0: Vec2, b1: Vec2): (r: Option<Vec2>)
    ensures r.Some? <==> SegmentsCross(a0, a1, b0, b1)
    ensures r.Some? ==> exists t0: real, t1: real {:trigger SegPoint(a0, a1, t0), SegPoint(b0, b1, t1)} ::
      0.0 <= t0 <= 1.0 && 0.0 <= t1 <= 1.0 && r.value == SegPoint(a0, a1, t0) && r.value == SegPoint(b0, b1, t1)
  {
    match SegmentIntersectParams(a0, a1, b0, b1)
    case None => None
    case Some(p) => Some(SegPoint(a0, a1, p.t0))
  }

  /**
   * line_segment_ray_intersect_test(a0, a1, pos, dir, minT, t): the new t
   * when the ray meets the half-open segment [a0, a1) at a parameter in
   * [minT, t); None leaves t as it was.
   */
  function SegmentRayIntersect(a0: Vec2, a1: Vec2, pos: Vec2, dir: Vec2, minT: real, t: real): (r: Option<real>)
    ensures r.Some? ==> minT <= r.value < t
    ensures r.Some? ==> exists s: real {:trigger SegPoint(a0, a1, s)} ::
      0.0 <= s < 1.0 && SegPoint(a0, a1, s) == At(Ray(pos, dir), r.value)
    ensures r.None? ==> forall s: real, u: real {:trigger SegPoint(a0, a1, s), At(Ray(pos, dir), u)} ::
      0.0 <= s < 1.0 && minT <= u < t && Cross(Sub(a1, a0), dir) != 0.0 ==> SegPoint(a0, a1, s) != At(Ray(pos, dir), u)
  {
    match RayRay(a0, Sub(a1, a0), pos, dir)
    case None => None
    case Some(p) =>
      if 0.0 <= p.t0 < 1.0 && minT <= p.t1 < t then
        assert SegPoint(a0, a1, p.t0) == At(Ray(pos, dir), p.t1);
        Some(p.t1)
      else
        assert forall s: real, u: real {:trigger SegPoint(a0, a1, s), At(Ray(pos, dir), u)} ::
          SegPoint(a0, a1, s) == At(Ray(pos, dir), u) ==> s == p.t0 && u == p.t1 by {
          forall s: real, u: real | SegPoint(a0, a1, s) == At(Ray(pos, dir), u)
            ensures s == p.t0 && u == p.t1
          {
            RayRayUnique(a0, Sub(a1, a0), pos, dir, s, u);
          }
        }
        None
  }

  // ---------------------------------------------------------------- closest point

  /**
   * closest_point_on_line(p0, p1, v): the parameter t of the foot of the
   * perpendicular from v, dot(v-p0, axis) / length_sq(axis); 0 when the
   * quotient is not finite, which over the reals is a zero squared length.
   */
  function ClosestPointOnLine(p0: Vec2, p1: Vec2, v: Vec2): (t: real)
    ensures LengthSq(Sub(p1, p0)) == 0.0 ==> t == 0.0
    ensures t * LengthSq(Sub(p1, p0)) == Dot(Sub(v, p0), Sub(p1, p0)) || LengthSq(Sub(p1, p0)) == 0.0
  {
    var axis := Sub(p1, p0);
    var len2 := LengthSq(axis);
    if len2 == 0.0 then 0.0 else Dot(Sub(v, p0), axis) / len2
  }

  /** For a segment of non-zero length, v minus the foot is perpendicular to the axis. */
  lemma ClosestPointOnLinePerpendicular(p0: Vec2, p1: Vec2, v: Vec2)
    requires LengthSq(Sub(p1, p0)) != 0.0
    ensures Dot(Sub(v, SegPoint(p0, p1, ClosestPointOnLine(p0, p1, v))), Sub(p1, p0)) == 0.0
  {
    var t := ClosestPointOnLine(p0, p1, v);
    DotAlongSegment(p0, p1, v, t);
  }

  /** dot(v - (p0 + t*axis), axis) = dot(v-p0, axis) - t*length_sq(axis) */
  lemma DotAlongSegment(p0: Vec2, p1: Vec2, v: Vec2, t: real)
    ensures Dot(Sub(v, SegPoint(p0, p1, t)), Sub(p1, p0))
      == Dot(Sub(v, p0), Sub(p1, p0)) - t * LengthSq(Sub(p1, p0))
  {
  }

  /** The point of closest_point together with its clamped parameter t. */
  datatype Closest = Closest(point: Vec2, t: real)

  /**
   * closest_point(p0, p1, v, t): p0 with t=0 when the line parameter is <= 0,
   * p1 with t=1 when it is >= 1, and the interpolated point otherwise.
   */
  function ClosestPoint(p0: Vec2, p1: Vec2, v: Vec2): (r: Closest)
    ensures 0.0 <= r.t <= 1.0
    ensures r.point == SegPoint(p0, p1, r.t)
    ensures ClosestPointOnLine(p0, p1, v) <= 0.0 ==> r == Closest(p0, 0.0)
    ensures ClosestPointOnLine(p0, p1, v) >= 1.0 ==> r == Closest(p1, 1.0)
    ensures 0.0 < ClosestPointOnLine(p0, p1, v) < 1.0 ==> r.t == ClosestPointOnLine(p0, p1, v)
  {
    var t := ClosestPointOnLine(p0, p1, v);
    if t <= 0.0 then Closest(p0, 0.0)
    else if t >= 1.0 then
      assert SegPoint(p0, p1, 1.0) == p1;
      Closest(p1, 1.0)
    else
      SegPointIsLerp(p0, p1, t);
      Closest(Lerp2(p0, p1, t), t)
  }

  /** The squared distance from v to the segment point at s, as a quadratic in s. */
  lemma DistSqExpand(p0: Vec2, p1: Vec2, v: Vec2, s: real)
    ensures DistanceSq(v, SegPoint(p0, p1, s))
      == LengthSq(Sub(v, p0)) - 2.0 * s * Dot(Sub(v, p0), Sub(p1, p0)) + s * s * LengthSq(Sub(p1, p0))
  {
    var w, a := Sub(v, p0), Sub(p1, p0);
    assert Sub(v, SegPoint(p0, p1, s)) == Vec2(w.x - s * a.x, w.y - s * a.y);
  }

  /**
   * The real-number core of the closest-point argument: the squared distance
   * is a convex quadratic in s and t is its minimiser over [0,1].
   */
  lemma QuadraticGap(aa: real, wa: real, s: real, t: real)
    requires 0.0 <= aa && 0.0 <= s <= 1.0
    requires (t == 0.0 && wa <= 0.0) || (t == 1.0 && aa <= wa) || t * aa == wa
    ensures 0.0 <= (s - t) * (aa * (s + t) - 2.0 * wa)
  {
    if t == 0.0 && wa <= 0.0 {
      MulNonneg(aa, s);
      MulNonneg(s, aa * s - 2.0 * wa);
    } else if t == 1.0 && aa <= wa {
      MulNonneg(aa, 1.0 - s);
      assert aa * (s + 1.0) - 2.0 * wa <= 0.0;
      MulBothNonpos(s - 1.0, aa * (s + 1.0) - 2.0 * wa);
    } else {
      assert aa * (s + t) - 2.0 * wa == aa * (s - t);
      MulNonneg(aa, (s - t) * (s - t));
      assert (s - t) * (aa * (s - t)) == aa * ((s - t) * (s - t));
    }
  }

  /** The clamped parameter is one of the three cases QuadraticGap accepts. */
  lemma ClosestParamCases(p0: Vec2, p1: Vec2, v: Vec2)
    requires LengthSq(Sub(p1, p0)) != 0.0
    ensures var t, aa, wa := ClosestPoint(p0, p1, v).t, LengthSq(Sub(p1, p0)), Dot(Sub(v, p0), Sub(p1, p0));
      (t == 0.0 && wa <= 0.0) || (t == 1.0 && aa <= wa) || t * aa == wa
  {
    var aa, wa := LengthSq(Sub(p1, p0)), Dot(Sub(v, p0), Sub(p1, p0));
    var tl := ClosestPointOnLine(p0, p1, v);
    LengthSqNonneg(Sub(p1, p0));
    if tl <= 0.0 {
      MulNonpos(tl, aa);
    } else if tl >= 1.0 {
      MulGeOne(tl, aa);
    }
  }

  /**
   * The closest point is no farther from v than any other point of the
   * segment.
   */
  lemma ClosestPointIsClosest(p0: Vec2, p1: Vec2, v: Vec2, s: real)
    requires 0.0 <= s <= 1.0
    ensures DistanceSq(v, ClosestPoint(p0, p1, v).point) <= DistanceSq(v, SegPoint(p0, p1, s))
  {
    if p0 == p1 {
      ClosestPointDegenerate(p0, v, s);
    } else {
      DistinctAxis(p0, p1);
      ClosestParamCases(p0, p1, v);
      MinimiserCompare(p0, p1, v, s, ClosestPoint(p0, p1, v).t);
    }
  }

  /** Two distinct end points span an axis of non-zero squared length. */
  lemma DistinctAxis(p0: Vec2, p1: Vec2)
    requires p0 != p1
    ensures LengthSq(Sub(p1, p0)) != 0.0
  {
    LengthSqNonzero(Sub(p1, p0));
  }

  /** A parameter t in one of QuadraticGap's cases gives the smaller squared distance. */
  lemma MinimiserCompare(p0: Vec2, p1: Vec2, v: Vec2, s: real, t: real)
    requires 0.0 <= s <= 1.0
    requires var aa, wa := LengthSq(Sub(p1, p0)), Dot(Sub(v, p0), Sub(p1, p0));
      (t == 0.0 && wa <= 0.0) || (t == 1.0 && aa <= wa) || t * aa == wa
    ensures DistanceSq(v, SegPoint(p0, p1, t)) <= DistanceSq(v, SegPoint(p0, p1, s))
  {
    LengthSqNonneg(Sub(p1, p0));
    QuadraticGap(LengthSq(Sub(p1, p0)), Dot(Sub(v, p0), Sub(p1, p0)), s, t);
    DistSqDifference(p0, p1, v, s, t);
  }

  /** The difference of two squared distances along the segment, factored. */
  lemma DistSqDifference(p0: Vec2, p1: Vec2, v: Vec2, s: real, t: real)
    ensures DistanceSq(v, SegPoint(p0, p1, s)) - DistanceSq(v, SegPoint(p0, p1, t))
      == (s - t) * (LengthSq(Sub(p1, p0)) * (s + t) - 2.0 * Dot(Sub(v, p0), Sub(p1, p0)))
  {
    DistSqExpand(p0, p1, v, s);
    DistSqExpand(p0, p1, v, t);
    QuadraticDifference(LengthSq(Sub(v, p0)), Dot(Sub(v, p0), Sub(p1, p0)), LengthSq(Sub(p1, p0)), s, t);
  }

  lemma QuadraticDifference(ww: real, wa: real, aa: real, s: real, t: real)
    ensures (ww - 2.0 * s * wa + s * s * aa) - (ww - 2.0 * t * wa + t * t * aa)
      == (s - t) * (aa * (s + t) - 2.0 * wa)
  {
  }

  /** A segment with p0 == p1 has one point, which closest_point returns with t = 0. */
  lemma ClosestPointDegenerate(p0: Vec2, v: Vec2, s: real)
    ensures ClosestPoint(p0, p0, v) == Closest(p0, 0.0)
    ensures SegPoint(p0, p0, s) == p0
  {
    assert LengthSq(Sub(p0, p0)) == 0.0;
  }

  lemma MulNonpos(a: real, b: real)
    requires a <= 0.0 && 0.0 <= b
    ensures a * b <= 0.0
  {
  }

  lemma MulBothNonpos(a: real, b: real)
    requires a <= 0.0 && b <= 0.0
    ensures 0.0 <= a * b
  {
  }

  lemma MulGeOne(a: real, b: real)
    requires 1.0 <= a && 0.0 <= b
    ensures b <= a * b
  {
    assert a * b - b == (a - 1.0) * b;
    MulNonneg(a - 1.0, b);
  }
}
