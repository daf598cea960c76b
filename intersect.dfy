/**
 * intersect.cpp: whether a box lies wholly in front of a plane, and the
 * intersection points of two circles.
 */
module Intersect {
  import opened Numeric
  import opened Vectors
  import opened Planes

  // ---------------------------------------------------------------- box_outside_plane

  /** The corner c - (sx*e.x, sy*e.y, sz*e.z) of the box around c with half-extent e. */
  function Corner(c: Vec3, e: Vec3, sx: real, sy: real, sz: real): Vec3
  {
    Sub3(c, Vec3(sx * e.x, sy * e.y, sz * e.z))
  }

  /**
   * box_outside_plane (intersect.cpp:10-22): false as soon as one of the
   * eight corners is on or behind the plane, in the source's order. For a
   * box with e >= 0 the answer is decided by the one corner nearest the
   * back of the plane, the corner cull_box checks.
   */
  function BoxOutsidePlane(pl: Plane, c: Vec3, e: Vec3): (r: bool)
    ensures 0.0 <= e.x && 0.0 <= e.y && 0.0 <= e.z ==>
      (r <==> SignedDistance(pl, ClosestCorner(pl, Sub3(c, e), Add3(c, e))) > 0.0)
  {
    ClosestCornerDecides(pl, c, e);
    if SignedDistance(pl, Corner(c, e, 1.0, 1.0, 1.0)) <= 0.0 then false
    else if SignedDistance(pl, Corner(c, e, 1.0, 1.0, -1.0)) <= 0.0 then false
    else if SignedDistance(pl, Corner(c, e, 1.0, -1.0, 1.0)) <= 0.0 then false
    else if SignedDistance(pl, Corner(c, e, 1.0, -1.0, -1.0)) <= 0.0 then false
    else if SignedDistance(pl, Corner(c, e, -1.0, 1.0, 1.0)) <= 0.0 then false
    else if SignedDistance(pl, Corner(c, e, -1.0, 1.0, -1.0)) <= 0.0 then false
    else if SignedDistance(pl, Corner(c, e, -1.0, -1.0, 1.0)) <= 0.0 then false
    else if SignedDistance(pl, Corner(c, e, -1.0, -1.0, -1.0)) <= 0.0 then false
    else true
  }

  /**
   * The nearest corner is the corner with signs chosen by the normal, and
   * for e >= 0 no corner is nearer the back of the plane.
   */
  lemma ClosestCornerDecides(pl: Plane, c: Vec3, e: Vec3)
    ensures ClosestCorner(pl, Sub3(c, e), Add3(c, e))
      == Corner(c, e, if pl.normal.x > 0.0 then 1.0 else -1.0,
                      if pl.normal.y > 0.0 then 1.0 else -1.0,
                      if pl.normal.z > 0.0 then 1.0 else -1.0)
    ensures 0.0 <= e.x && 0.0 <= e.y && 0.0 <= e.z ==>
      forall sx, sy, sz | sx in {1.0, -1.0} && sy in {1.0, -1.0} && sz in {1.0, -1.0} ::
        SignedDistance(pl, ClosestCorner(pl, Sub3(c, e), Add3(c, e))) <= SignedDistance(pl, Corner(c, e, sx, sy, sz))
  {
    if 0.0 <= e.x && 0.0 <= e.y && 0.0 <= e.z {
      forall sx, sy, sz | sx in {1.0, -1.0} && sy in {1.0, -1.0} && sz in {1.0, -1.0}
        ensures SignedDistance(pl, ClosestCorner(pl, Sub3(c, e), Add3(c, e))) <= SignedDistance(pl, Corner(c, e, sx, sy, sz))
      {
        ClosestCornerIsNearest(pl, Sub3(c, e), Add3(c, e), Corner(c, e, sx, sy, sz));
      }
    }
  }

  /** The corner nearest the back of the plane is one of the eight corners. */
  lemma ClosestIsCorner(pl: Plane, c: Vec3, e: Vec3)
    ensures exists sx, sy, sz ::
      (sx in {1.0, -1.0} && sy in {1.0, -1.0} && sz in {1.0, -1.0}
      && ClosestCorner(pl, Sub3(c, e), Add3(c, e)) == Corner(c, e, sx, sy, sz))
  {
    var n := pl.normal;
    var sx := if n.x > 0.0 then 1.0 else -1.0;
    var sy := if n.y > 0.0 then 1.0 else -1.0;
    var sz := if n.z > 0.0 then 1.0 else -1.0;
    assert ClosestCorner(pl, Sub3(c, e), Add3(c, e)) == Corner(c, e, sx, sy, sz);
  }

  /**
   * The answer is true exactly when the whole box c +- e (with e >= 0) lies
   * strictly in front of the plane.
   */
  lemma BoxOutsidePlaneWholeBox(pl: Plane, c: Vec3, e: Vec3, q: Vec3)
    requires 0.0 <= e.x && 0.0 <= e.y && 0.0 <= e.z
    ensures BoxOutsidePlane(pl, c, e) && InBox(q, Sub3(c, e), Add3(c, e)) ==> SignedDistance(pl, q) > 0.0
    ensures !BoxOutsidePlane(pl, c, e) ==> exists k :: InBox(k, Sub3(c, e), Add3(c, e)) && SignedDistance(pl, k) <= 0.0
  {
    ClosestIsCorner(pl, c, e);
    var mins, maxs := Sub3(c, e), Add3(c, e);
    var k := ClosestCorner(pl, mins, maxs);
    if InBox(q, mins, maxs) {
      ClosestCornerIsNearest(pl, mins, maxs, q);
    }
    if !BoxOutsidePlane(pl, c, e) {
      CornersInBox(pl, c, e);
    }
  }

  /** Every corner lies in the box, so a corner on or behind the plane is a witness. */
  lemma CornersInBox(pl: Plane, c: Vec3, e: Vec3)
    requires 0.0 <= e.x && 0.0 <= e.y && 0.0 <= e.z
    requires !BoxOutsidePlane(pl, c, e)
    ensures exists k :: InBox(k, Sub3(c, e), Add3(c, e)) && SignedDistance(pl, k) <= 0.0
  {
    var mins, maxs := Sub3(c, e), Add3(c, e);
    forall sx, sy, sz | sx in {1.0, -1.0} && sy in {1.0, -1.0} && sz in {1.0, -1.0}
      ensures InBox(Corner(c, e, sx, sy, sz), mins, maxs)
    {
    }
  }

  // ---------------------------------------------------------------- circle_circle

  /**
   * circle_circle's outcome: false (no intersection, or one circle inside
   * the other), or true with the two points; true with points that are
   * not finite when the centers coincide (division by a zero distance) or
   * the square root's argument is negative (only possible with a negative
   * radius).
   */
  datatype CircleSolutions = NoIntersection | Solutions(s0: Vec2, s1: Vec2) | NotFinite

  /** Distance from a.p to p2 along the center line (intersect.cpp:43). */
  function ChordOffset(a: Circle, b: Circle, dist: real): real
    requires dist != 0.0
  {
    (a.rad * a.rad - b.rad * b.rad + dist * dist) / (2.0 * dist)
  }

  /** p2, where the chord through the intersection points crosses the center line (intersect.cpp:46). */
  function ChordMidpoint(a: Circle, b: Circle, dist: real): Vec2
    requires dist != 0.0
  {
    Add(a.p, Scale(ChordOffset(a, b, dist) / dist, Sub(b.p, a.p)))
  }

  /**
   * h, half the chord's length (intersect.cpp:50): the square root of
   * ra^2 - k^2, which is finite only when k^2 <= ra^2.
   */
  function ChordHalf(a: Circle, b: Circle, dist: real, sqrt: real -> real): (h: real)
    requires IsSqrt(sqrt) && dist != 0.0
    requires ChordOffset(a, b, dist) * ChordOffset(a, b, dist) <= a.rad * a.rad
    ensures 0.0 <= h && h * h == a.rad * a.rad - ChordOffset(a, b, dist) * ChordOffset(a, b, dist)
  {
    sqrt(a.rad * a.rad - ChordOffset(a, b, dist) * ChordOffset(a, b, dist))
  }

  /**
   * circle_circle (intersect.cpp:24-62). Both solutions lie on both
   * circles: each is at distance a.rad from a's center and b.rad from b's.
   */
  function CircleCircle(a: Circle, b: Circle, sqrt: real -> real): (r: CircleSolutions)
    requires IsSqrt(sqrt)
    ensures r.Solutions? ==> OnCircles(r.s0, a, b) && OnCircles(r.s1, a, b)
  {
    var dist := Length(Sub(b.p, a.p), sqrt);
    if dist > a.rad + b.rad then NoIntersection
    else if dist < Abs(a.rad - b.rad) then NoIntersection
    else if dist == 0.0 then NotFinite
    else ChordSolutions(a, b, dist, sqrt)
  }

  /** circle_circle past the early outs (intersect.cpp:43-61): no finite h when ra^2 - k^2 < 0. */
  function ChordSolutions(a: Circle, b: Circle, dist: real, sqrt: real -> real): (r: CircleSolutions)
    requires IsSqrt(sqrt) && dist != 0.0 && dist == Length(Sub(b.p, a.p), sqrt)
    ensures r.Solutions? ==> OnCircles(r.s0, a, b) && OnCircles(r.s1, a, b)
  {
    var k := ChordOffset(a, b, dist);
    if a.rad * a.rad - k * k < 0.0 then NotFinite
    else
      var h := ChordHalf(a, b, dist, sqrt);
      var ends := ChordEnds(a, b, dist, h);
      ChordScalars(a, b, sqrt, dist, k, h);
      ChordEndsForm(a, b, dist, k, h);
      ChordGeometryNeg(a.p, b.p, a.rad, b.rad, dist, k, h, -h);
      ChordPointOnCircles(a, b, dist, k, h, ends.s0);
      ChordPointOnCircles(a, b, dist, k, -h, ends.s1);
      ends
  }

  /**
   * The two solutions of circle_circle (intersect.cpp:52-59): p2 plus and
   * minus (h/d) * (-delta.y, delta.x).
   */
  function ChordEnds(a: Circle, b: Circle, dist: real, h: real): CircleSolutions
    requires dist != 0.0
  {
    var delta := Sub(b.p, a.p);
    var p2 := ChordMidpoint(a, b, dist);
    var rx := -delta.y * (h / dist);
    var ry := delta.x * (h / dist);
    Solutions(Vec2(p2.x + rx, p2.y + ry), Vec2(p2.x - rx, p2.y - ry))
  }

  /** The early outs: false exactly when the circles are too far apart or nested. */
  lemma CircleCircleNone(a: Circle, b: Circle, sqrt: real -> real)
    requires IsSqrt(sqrt)
    ensures var dist := Length(Sub(b.p, a.p), sqrt);
      CircleCircle(a, b, sqrt) == NoIntersection <==> dist > a.rad + b.rad || dist < Abs(a.rad - b.rad)
  {
  }

  /** The two solutions are mirror images through p2: s0 + s1 == 2 * p2. */
  lemma CircleCircleSymmetric(a: Circle, b: Circle, sqrt: real -> real)
    requires IsSqrt(sqrt) && CircleCircle(a, b, sqrt).Solutions?
    ensures var r := CircleCircle(a, b, sqrt);
      Add(r.s0, r.s1) == Scale(2.0, ChordMidpoint(a, b, Length(Sub(b.p, a.p), sqrt)))
  {
  }

  /**
   * For non-negative radii the square root's argument is never negative:
   * circles that pass both early outs (see CircleCircleNone) always get
   * finite solutions unless their centers coincide.
   */
  lemma CircleCircleFinite(a: Circle, b: Circle, sqrt: real -> real)
    requires IsSqrt(sqrt) && 0.0 <= a.rad && 0.0 <= b.rad && a.p != b.p
    requires var dist := Length(Sub(b.p, a.p), sqrt);
      dist <= a.rad + b.rad && Abs(a.rad - b.rad) <= dist
    ensures CircleCircle(a, b, sqrt).Solutions?
  {
    ChordFinite(a, b, sqrt);
    CircleCircleSolvable(a, b, sqrt);
  }

  /** Distinct centers and the early outs passed: d != 0 and k^2 <= ra^2. */
  lemma ChordFinite(a: Circle, b: Circle, sqrt: real -> real)
    requires IsSqrt(sqrt) && 0.0 <= a.rad && 0.0 <= b.rad && a.p != b.p
    requires var dist := Length(Sub(b.p, a.p), sqrt);
      dist <= a.rad + b.rad && Abs(a.rad - b.rad) <= dist
    ensures var dist := Length(Sub(b.p, a.p), sqrt);
      dist != 0.0 && ChordOffset(a, b, dist) * ChordOffset(a, b, dist) <= a.rad * a.rad
  {
    var delta := Sub(b.p, a.p);
    var dist := Length(delta, sqrt);
    assert delta != Zero2;
    LengthPositive(delta, sqrt);
    var k := ChordOffset(a, b, dist);
    DivTimes(a.rad * a.rad - b.rad * b.rad + dist * dist, 2.0 * dist);
    ChordWithinRadius(a.rad, b.rad, dist, k);
  }

  lemma LengthPositive(v: Vec2, sqrt: real -> real)
    requires IsSqrt(sqrt) && v != Zero2
    ensures 0.0 < Length(v, sqrt)
  {
    LengthSqNonneg(v);
    LengthSqNonzero(v);
    SqrtPositive(sqrt, LengthSq(v));
  }

  /** Past the early outs, with d != 0 and k^2 <= ra^2, solutions are returned. */
  lemma CircleCircleSolvable(a: Circle, b: Circle, sqrt: real -> real)
    requires IsSqrt(sqrt)
    requires var d := Length(Sub(b.p, a.p), sqrt);
      && d != 0.0 && d <= a.rad + b.rad && Abs(a.rad - b.rad) <= d
      && ChordOffset(a, b, d) * ChordOffset(a, b, d) <= a.rad * a.rad
    ensures CircleCircle(a, b, sqrt).Solutions?
  {
  }

  /**
   * For radii ra, rb >= 0 and a center distance d > 0 with
   * |ra - rb| <= d <= ra + rb, the chord offset k = (ra^2 - rb^2 + d^2)/(2d)
   * satisfies k^2 <= ra^2.
   */
  lemma ChordWithinRadius(ra: real, rb: real, d: real, k: real)
    requires 0.0 <= ra && 0.0 <= rb && 0.0 < d
    requires Abs(ra - rb) <= d <= ra + rb
    requires k * (2.0 * d) == ra * ra - rb * rb + d * d
    ensures k * k <= ra * ra
  {
    SidesSquared(ra, rb, d);
    ChordTimesTwoD(ra, rb, d, k);
    ScaledBound(k, ra, d);
    SquareMono(Abs(k), ra);
    AbsSquare(k);
  }

  /** The triangle inequalities |d - ra| <= rb <= d + ra, squared. */
  lemma SidesSquared(ra: real, rb: real, d: real)
    requires 0.0 <= ra && 0.0 <= rb && Abs(ra - rb) <= d <= ra + rb
    ensures (d - ra) * (d - ra) <= rb * rb <= (d + ra) * (d + ra)
  {
    AbsSquare(d - ra);
    SquareMono(Abs(d - ra), rb);
    SquareMono(rb, d + ra);
  }

  /** Hence -2d*ra <= k*2d <= 2d*ra. */
  lemma ChordTimesTwoD(ra: real, rb: real, d: real, k: real)
    requires (d - ra) * (d - ra) <= rb * rb <= (d + ra) * (d + ra)
    requires k * (2.0 * d) == ra * ra - rb * rb + d * d
    ensures -(2.0 * (d * ra)) <= k * (2.0 * d) <= 2.0 * (d * ra)
  {
    ExpandSquares(d, ra);
    ChordLinear(k * (2.0 * d), d * d, d * ra, ra * ra, rb * rb);
  }

  /** The linear core of ChordTimesTwoD, over the products as atoms. */
  lemma ChordLinear(km: real, dd: real, dr: real, rr: real, bb: real)
    requires km == rr - bb + dd
    requires dd - 2.0 * dr + rr <= bb <= dd + 2.0 * dr + rr
    ensures -(2.0 * dr) <= km <= 2.0 * dr
  {
  }

  lemma AbsSquare(x: real)
    ensures Abs(x) * Abs(x) == x * x
  {
  }

  lemma ExpandSquares(d: real, r: real)
    ensures (d - r) * (d - r) == d * d - 2.0 * (d * r) + r * r
    ensures (d + r) * (d + r) == d * d + 2.0 * (d * r) + r * r
  {
  }

  lemma ScaledBound(k: real, ra: real, d: real)
    requires 0.0 < d && -(2.0 * (d * ra)) <= k * (2.0 * d) <= 2.0 * (d * ra)
    ensures Abs(k) <= ra
  {
    if ra < Abs(k) {
      MulStrict(ra, Abs(k), 2.0 * d);
    }
  }

  lemma MulStrict(a: real, b: real, m: real)
    requires a < b && 0.0 < m
    ensures a * m < b * m
  {
  }

  /** |alpha*v + beta*rot90ccw(v)|^2 = (alpha^2 + beta^2) * |v|^2 */
  lemma PerpCombination(alpha: real, beta: real, v: Vec2)
    ensures LengthSq(Add(Scale(alpha, v), Scale(beta, Rot90CCW(v))))
      == (alpha * alpha + beta * beta) * LengthSq(v)
  {
  }

  /** s is at distance a.rad from a's center and b.rad from b's. */
  predicate OnCircles(s: Vec2, a: Circle, b: Circle)
  {
    DistanceSq(s, a.p) == a.rad * a.rad && DistanceSq(s, b.p) == b.rad * b.rad
  }

  lemma ChordPointOnCircles(a: Circle, b: Circle, d: real, k: real, h: real, s: Vec2)
    requires ChordGeometry(a.p, b.p, a.rad, b.rad, d, k, h)
    requires s == Add(Add(a.p, Scale(k / d, Sub(b.p, a.p))), Scale(h / d, Rot90CCW(Sub(b.p, a.p))))
    ensures OnCircles(s, a, b)
  {
    OnBoth(a.p, b.p, a.rad, b.rad, d, k, h, s);
  }

  /**
   * The solutions as p2 + (h/d) * rot90ccw(delta) and p2 - (h/d) *
   * rot90ccw(delta), with d the center distance, k the chord offset and
   * h^2 = ra^2 - k^2.
   */
  lemma CircleCircleShape(a: Circle, b: Circle, sqrt: real -> real) returns (d: real, k: real, h: real, s0: Vec2, s1: Vec2)
    requires IsSqrt(sqrt) && CircleCircle(a, b, sqrt).Solutions?
    ensures CircleCircle(a, b, sqrt) == Solutions(s0, s1)
    ensures ChordGeometry(a.p, b.p, a.rad, b.rad, d, k, h)
    ensures s0 == Add(Add(a.p, Scale(k / d, Sub(b.p, a.p))), Scale(h / d, Rot90CCW(Sub(b.p, a.p))))
    ensures s1 == Add(Add(a.p, Scale(k / d, Sub(b.p, a.p))), Scale((-h) / d, Rot90CCW(Sub(b.p, a.p))))
  {
    CircleCircleTaken(a, b, sqrt);
    d := Length(Sub(b.p, a.p), sqrt);
    k := ChordOffset(a, b, d);
    h := ChordHalf(a, b, d, sqrt);
    ChordScalars(a, b, sqrt, d, k, h);
    ChordEndsForm(a, b, d, k, h);
    s0 := ChordEnds(a, b, d, h).s0;
    s1 := ChordEnds(a, b, d, h).s1;
  }

  /** The scalar facts behind CircleCircleShape: d^2 = |delta|^2, k*2d and h^2. */
  lemma ChordScalars(a: Circle, b: Circle, sqrt: real -> real, d: real, k: real, h: real)
    requires IsSqrt(sqrt) && d == Length(Sub(b.p, a.p), sqrt) && d != 0.0
    requires k == ChordOffset(a, b, d) && k * k <= a.rad * a.rad && h == ChordHalf(a, b, d, sqrt)
    ensures d * d == LengthSq(Sub(b.p, a.p))
    ensures k * (2.0 * d) == a.rad * a.rad - b.rad * b.rad + d * d
    ensures h * h == a.rad * a.rad - k * k
  {
    LengthSqNonneg(Sub(b.p, a.p));
    DivTimes(a.rad * a.rad - b.rad * b.rad + d * d, 2.0 * d);
  }

  /** Solutions are returned only past the early outs, with d != 0 and k^2 <= ra^2. */
  lemma CircleCircleTaken(a: Circle, b: Circle, sqrt: real -> real)
    requires IsSqrt(sqrt) && CircleCircle(a, b, sqrt).Solutions?
    ensures var d := Length(Sub(b.p, a.p), sqrt);
      d != 0.0 && ChordOffset(a, b, d) * ChordOffset(a, b, d) <= a.rad * a.rad
      && CircleCircle(a, b, sqrt) == ChordEnds(a, b, d, ChordHalf(a, b, d, sqrt))
  {
  }

  /** ChordEnds in vector form. */
  lemma ChordEndsForm(a: Circle, b: Circle, d: real, k: real, h: real)
    requires d != 0.0 && k == ChordOffset(a, b, d)
    ensures ChordEnds(a, b, d, h).s0 == Add(Add(a.p, Scale(k / d, Sub(b.p, a.p))), Scale(h / d, Rot90CCW(Sub(b.p, a.p))))
    ensures ChordEnds(a, b, d, h).s1 == Add(Add(a.p, Scale(k / d, Sub(b.p, a.p))), Scale((-h) / d, Rot90CCW(Sub(b.p, a.p))))
  {
    var delta := Sub(b.p, a.p);
    var p2 := ChordMidpoint(a, b, d);
    assert p2 == Add(a.p, Scale(k / d, delta));
    var s := h / d;
    NegDiv(h, d);
    RotScaled(s, delta);
    RotScaled(-s, delta);
    assert ChordEnds(a, b, d, h).s0 == Vec2(p2.x + -delta.y * s, p2.y + delta.x * s);
    assert ChordEnds(a, b, d, h).s1 == Vec2(p2.x - -delta.y * s, p2.y - delta.x * s);
  }

  lemma RotScaled(s: real, v: Vec2)
    ensures Scale(s, Rot90CCW(v)) == Vec2(-v.y * s, v.x * s)
  {
  }

  lemma DivTimes(x: real, y: real)
    requires y != 0.0
    ensures (x / y) * y == x
  {
  }

  lemma NegDiv(h: real, d: real)
    requires d != 0.0
    ensures (-h) / d == -(h / d)
  {
  }

  /**
   * A point p2 + (h/d) * rot90ccw(delta), with p2 = pa + (k/d) * delta,
   * |delta| = d, k the chord offset and h^2 = ra^2 - k^2, is at distance ra
   * from pa and rb from pb = pa + delta.
   */
  lemma OnBoth(pa: Vec2, pb: Vec2, ra: real, rb: real, d: real, k: real, h: real, s: Vec2)
    requires ChordGeometry(pa, pb, ra, rb, d, k, h)
    requires s == Add(Add(pa, Scale(k / d, Sub(pb, pa))), Scale(h / d, Rot90CCW(Sub(pb, pa))))
    ensures DistanceSq(s, pa) == ra * ra && DistanceSq(s, pb) == rb * rb
  {
    var delta := Sub(pb, pa);
    var alpha, beta := k / d, h / d;
    OffsetFrom(pa, pb, alpha, beta, s);
    PerpCombination(alpha, beta, delta);
    PerpCombination(alpha - 1.0, beta, delta);
    OnCircleA(alpha, beta, d, k, h, ra);
    OnCircleB(alpha, beta, d, k, h, ra, rb);
  }

  /**
   * The scalars of a chord between circles at pa and pb with radii ra and
   * rb: d = |pb - pa| != 0, k*2d = ra^2 - rb^2 + d^2, h^2 = ra^2 - k^2.
   */
  predicate ChordGeometry(pa: Vec2, pb: Vec2, ra: real, rb: real, d: real, k: real, h: real)
  {
    d != 0.0 && d * d == LengthSq(Sub(pb, pa))
    && k * (2.0 * d) == ra * ra - rb * rb + d * d
    && h * h == ra * ra - k * k
  }

  /** The chord's other end: -h satisfies the same equations as h. */
  lemma ChordGeometryNeg(pa: Vec2, pb: Vec2, ra: real, rb: real, d: real, k: real, h: real, g: real)
    requires ChordGeometry(pa, pb, ra, rb, d, k, h) && g == -h
    ensures ChordGeometry(pa, pb, ra, rb, d, k, g)
  {
    assert g * g == h * h;
  }

  lemma OffsetFrom(pa: Vec2, pb: Vec2, alpha: real, beta: real, s: Vec2)
    requires s == Add(Add(pa, Scale(alpha, Sub(pb, pa))), Scale(beta, Rot90CCW(Sub(pb, pa))))
    ensures Sub(s, pa) == Add(Scale(alpha, Sub(pb, pa)), Scale(beta, Rot90CCW(Sub(pb, pa))))
    ensures Sub(s, pb) == Add(Scale(alpha - 1.0, Sub(pb, pa)), Scale(beta, Rot90CCW(Sub(pb, pa))))
  {
  }

  lemma OnCircleA(alpha: real, beta: real, d: real, k: real, h: real, ra: real)
    requires d != 0.0 && alpha == k / d && beta == h / d && h * h == ra * ra - k * k
    ensures (alpha * alpha + beta * beta) * (d * d) == ra * ra
  {
    assert alpha * d == k;
    assert beta * d == h;
    assert (alpha * alpha + beta * beta) * (d * d) == (alpha * d) * (alpha * d) + (beta * d) * (beta * d);
  }

  lemma OnCircleB(alpha: real, beta: real, d: real, k: real, h: real, ra: real, rb: real)
    requires d != 0.0 && alpha == k / d && beta == h / d && h * h == ra * ra - k * k
    requires k * (2.0 * d) == ra * ra - rb * rb + d * d
    ensures ((alpha - 1.0) * (alpha - 1.0) + beta * beta) * (d * d) == rb * rb
  {
    assert alpha * d == k;
    assert beta * d == h;
    assert k * (2.0 * d) == ra * ra - rb * rb + d * d;
    assert ((alpha - 1.0) * (alpha - 1.0) + beta * beta) * (d * d)
      == (alpha * d - d) * (alpha * d - d) + (beta * d) * (beta * d);
  }
}
