/**
 * The part of plane.hpp the frustum and intersection tests use: a plane is
 * a normal and a distance, and the signed distance of a point is
 * dot(p, normal) + dist (plane.hpp:49-52). Planes built from a Vec4 are
 * normalized (plane.cpp:83-88) by the reciprocal of the normal's length.
 */
module Planes {
  import opened Numeric
  import opened Vectors

  datatype Plane = Plane(normal: Vec3, dist: real)

  /**
   * distance(p) = dot(p, normal) + dist: the plane's coefficients
   * (normal, dist) applied to the homogeneous point (p, 1).
   */
  function SignedDistance(pl: Plane, p: Vec3): (r: real)
    ensures r == HomDot(Vec4(pl.normal.x, pl.normal.y, pl.normal.z, pl.dist), p)
  {
    Dot3(p, pl.normal) + pl.dist
  }

  /** The homogeneous point (p, 1). */
  function Homogeneous(p: Vec3): Vec4
  {
    Vec4(p.x, p.y, p.z, 1.0)
  }

  /** A plane's coefficients as a Vec4 (a, b, c, d) applied to (p, 1). */
  function HomDot(v: Vec4, p: Vec3): real
  {
    Dot4(v, Homogeneous(p))
  }

  /**
   * Plane(const Vec4&) followed by normalize(): normal and dist are both
   * multiplied by 1 / |normal|. The source does not guard a zero normal,
   * whose plane is not finite; the model requires a non-zero one. The
   * result has a unit normal.
   */
  function Normalize(v: Vec4, sqrt: real -> real): (pl: Plane)
    requires IsSqrt(sqrt) && 0.0 < LengthSq3(Vec3(v.x, v.y, v.z))
    ensures LengthSq3(pl.normal) == 1.0
  {
    var n := Vec3(v.x, v.y, v.z);
    SqrtPositive(sqrt, LengthSq3(n));
    ScaledToUnit(n, sqrt(LengthSq3(n)));
    var m := 1.0 / sqrt(LengthSq3(n));
    Plane(Scale3(m, n), v.w * m)
  }

  /** Dividing a vector by its length gives a unit vector. */
  lemma ScaledToUnit(n: Vec3, len: real)
    requires 0.0 < len && len * len == LengthSq3(n)
    ensures LengthSq3(Scale3(1.0 / len, n)) == 1.0
  {
    var m := 1.0 / len;
    assert LengthSq3(Scale3(m, n)) == (m * m) * LengthSq3(n);
    assert (m * m) * (len * len) == (m * len) * (m * len);
    assert m * len == 1.0;
  }

  /**
   * Normalizing scales every signed distance by the same positive factor:
   * the distance is the coefficient vector applied to (p, 1) divided by
   * |normal|, so its sign is that of the un-normalized plane.
   */
  lemma NormalizeScales(v: Vec4, sqrt: real -> real, p: Vec3)
    requires IsSqrt(sqrt) && 0.0 < LengthSq3(Vec3(v.x, v.y, v.z))
    ensures var len := sqrt(LengthSq3(Vec3(v.x, v.y, v.z)));
      0.0 < len && SignedDistance(Normalize(v, sqrt), p) * len == HomDot(v, p)
  {
    var ls := LengthSq3(Vec3(v.x, v.y, v.z));
    SqrtPositive(sqrt, ls);
    var len := sqrt(ls);
    var m := 1.0 / len;
    assert m * len == 1.0;
    ScaledDistance(v, m, p);
    assert SignedDistance(Normalize(v, sqrt), p) == m * HomDot(v, p);
  }

  lemma ScaledDistance(v: Vec4, m: real, p: Vec3)
    ensures SignedDistance(Plane(Scale3(m, Vec3(v.x, v.y, v.z)), v.w * m), p) == m * HomDot(v, p)
  {
  }

  /** The sign tests of the frustum code are unchanged by normalization. */
  lemma NormalizeKeepsSign(v: Vec4, sqrt: real -> real, p: Vec3)
    requires IsSqrt(sqrt) && 0.0 < LengthSq3(Vec3(v.x, v.y, v.z))
    ensures SignedDistance(Normalize(v, sqrt), p) > 0.0 <==> HomDot(v, p) > 0.0
    ensures SignedDistance(Normalize(v, sqrt), p) < 0.0 <==> HomDot(v, p) < 0.0
  {
    NormalizeScales(v, sqrt, p);
    var len := sqrt(LengthSq3(Vec3(v.x, v.y, v.z)));
    var dn := SignedDistance(Normalize(v, sqrt), p);
    SignOfProduct(dn, len, HomDot(v, p));
  }

  lemma SignOfProduct(a: real, len: real, r: real)
    requires 0.0 < len && a * len == r
    ensures a > 0.0 <==> r > 0.0
    ensures a < 0.0 <==> r < 0.0
  {
    if a > 0.0 {
      MulPos(a, len);
    } else if a < 0.0 {
      MulPos(-a, len);
    }
  }

  lemma MulPos(a: real, b: real)
    requires 0.0 < a && 0.0 < b
    ensures 0.0 < a * b
  {
  }

  /** The point a + t*(b - a) on the segment from a to b. */
  function Lerp3(a: Vec3, b: Vec3, t: real): Vec3
  {
    Add3(a, Scale3(t, Sub3(b, a)))
  }

  /**
   * The signed distance is affine: along a segment it moves linearly, so
   * it lies between its values at the two ends.
   */
  lemma DistanceAffine(pl: Plane, a: Vec3, b: Vec3, t: real)
    ensures SignedDistance(pl, Lerp3(a, b, t)) == Lerp(SignedDistance(pl, a), SignedDistance(pl, b), t)
  {
    var n := pl.normal;
    var d := Sub3(b, a);
    assert Dot3(Lerp3(a, b, t), n) == Dot3(a, n) + t * Dot3(d, n);
    assert Dot3(d, n) == Dot3(b, n) - Dot3(a, n);
  }

  /** Both ends strictly in front of a plane: so is every point between them. */
  lemma SegmentInFront(pl: Plane, a: Vec3, b: Vec3, t: real)
    requires 0.0 <= t <= 1.0
    requires SignedDistance(pl, a) > 0.0 && SignedDistance(pl, b) > 0.0
    ensures SignedDistance(pl, Lerp3(a, b, t)) > 0.0
  {
    DistanceAffine(pl, a, b, t);
    LerpBetween(SignedDistance(pl, a), SignedDistance(pl, b), t);
    MinPositive(SignedDistance(pl, a), SignedDistance(pl, b), SignedDistance(pl, Lerp3(a, b, t)));
  }

  lemma MinPositive(x: real, y: real, z: real)
    requires 0.0 < x && 0.0 < y && Min(x, y) <= z
    ensures 0.0 < z
  {
  }

  /**
   * The corner of the box [mins, maxs] nearest the back of a plane: the
   * corner cull_box tests (frustum.cpp:72-76), and the one that decides
   * box_outside_plane.
   */
  function ClosestCorner(pl: Plane, mins: Vec3, maxs: Vec3): Vec3
  {
    Vec3(if pl.normal.x > 0.0 then mins.x else maxs.x,
         if pl.normal.y > 0.0 then mins.y else maxs.y,
         if pl.normal.z > 0.0 then mins.z else maxs.z)
  }

  predicate InBox(q: Vec3, mins: Vec3, maxs: Vec3)
  {
    mins.x <= q.x <= maxs.x && mins.y <= q.y <= maxs.y && mins.z <= q.z <= maxs.z
  }

  /**
   * The corner cull_box checks has the smallest distance of all points of the box,
   * so a box whose checked corner is not behind the plane lies wholly on or
   * in front of it.
   */
  lemma ClosestCornerIsNearest(pl: Plane, mins: Vec3, maxs: Vec3, q: Vec3)
    requires InBox(q, mins, maxs)
    ensures SignedDistance(pl, ClosestCorner(pl, mins, maxs)) <= SignedDistance(pl, q)
  {
    var n := pl.normal;
    var k := ClosestCorner(pl, mins, maxs);
    ComponentBelow(n.x, k.x, q.x, mins.x, maxs.x);
    ComponentBelow(n.y, k.y, q.y, mins.y, maxs.y);
    ComponentBelow(n.z, k.z, q.z, mins.z, maxs.z);
    SumBelow(k.x * n.x, q.x * n.x, k.y * n.y, q.y * n.y, k.z * n.z, q.z * n.z, pl.dist);
  }

  lemma SumBelow(a1: real, b1: real, a2: real, b2: real, a3: real, b3: real, d: real)
    requires a1 <= b1 && a2 <= b2 && a3 <= b3
    ensures a1 + a2 + a3 + d <= b1 + b2 + b3 + d
  {
  }

  lemma ComponentBelow(n: real, k: real, q: real, lo: real, hi: real)
    requires lo <= q <= hi
    requires k == if n > 0.0 then lo else hi
    ensures k * n <= q * n
  {
    if n > 0.0 {
      MulNonneg(q - k, n);
    } else {
      MulNonneg(k - q, -n);
    }
  }
}
