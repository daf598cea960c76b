/**
 * The Capsule of capsule.hpp and capsule.cpp: a segment p0..p1 swept by a
 * circle of radius rad. A capsule is a value; CapsuleBaked adds the unit
 * axis, its normal and the axis length computed once.
 */
module Capsules {
  import opened Numeric
  import opened Vectors
  import Lines
  import LineSegs
  import Boxes

  datatype Capsule = Capsule(p0: Vec2, p1: Vec2, rad: real)

  /** The line_seg member of the union: the capsule's axis. */
  function Seg(c: Capsule): LineSegs.LineSeg
  {
    LineSegs.LineSeg(c.p0, c.p1)
  }

  /** is_circle() = p[0] == p[1]: exactly when both end circles coincide. */
  predicate IsCircle(c: Capsule)
    ensures IsCircle(c) <==> Circle0(c) == Circle1(c)
  {
    c.p0 == c.p1
  }

  /** circle_0() = {p0, rad}: the circle around the start of the axis. */
  function Circle0(c: Capsule): (r: Circle)
    ensures r.p == LineSegs.At(Seg(c), 0.0) && r.rad == c.rad
  {
    Circle(c.p0, c.rad)
  }

  /**
   * circle_1(), the circ_1 member of the union, which overlays p1 and rad:
   * the circle {p1, rad} around the end of the axis.
   */
  function Circle1(c: Capsule): (r: Circle)
    ensures r.p == LineSegs.At(Seg(c), 1.0) && r.rad == c.rad
  {
    Circle(c.p1, c.rad)
  }

  /**
   * circle() asserts is_circle() and returns circ_1; for a circle capsule
   * both end circles are that same circle.
   */
  function AsCircle(c: Capsule): (r: Circle)
    requires IsCircle(c)
    ensures r == Circle0(c) && r == Circle1(c)
  {
    Circle(c.p1, c.rad)
  }

  /**
   * Every point of an end circle is within rad of the axis, so both end
   * circles lie inside the capsule.
   */
  lemma EndCirclesInside(c: Capsule, q: Vec2)
    ensures CircleContains(Circle0(c), q) ==> LineSegs.DistanceSqTo(Seg(c), q) <= c.rad * c.rad
    ensures CircleContains(Circle1(c), q) ==> LineSegs.DistanceSqTo(Seg(c), q) <= c.rad * c.rad
  {
    EndCircleInside(c, q, 0.0);
    EndCircleInside(c, q, 1.0);
  }

  /** The end of the axis at t (p0 for 0, p1 for 1) bounds the distance to the axis. */
  lemma EndCircleInside(c: Capsule, q: Vec2, t: real)
    requires t == 0.0 || t == 1.0
    ensures CircleContains(Circle(LineSegs.At(Seg(c), t), c.rad), q) ==> LineSegs.DistanceSqTo(Seg(c), q) <= c.rad * c.rad
  {
    var e := LineSegs.At(Seg(c), t);
    LineSegs.DistanceSqToIsLeast(Seg(c), q, t);
    DistanceSqSymmetric(e, q);
  }

  lemma DistanceSqSymmetric(a: Vec2, b: Vec2)
    ensures DistanceSq(a, b) == DistanceSq(b, a)
  {
  }

  /** enlarged(d): a copy whose rad is rad + d; nothing else changes. */
  function Enlarged(c: Capsule, d: real): (r: Capsule)
    ensures r.p0 == c.p0 && r.p1 == c.p1 && r.rad == c.rad + d
  {
    c.(rad := c.rad + d)
  }

  /** Enlarging twice adds the deltas; enlarging by 0 changes nothing. */
  lemma EnlargedCompose(c: Capsule, d: real, e: real)
    ensures Enlarged(Enlarged(c, d), e) == Enlarged(c, d + e)
    ensures Enlarged(c, 0.0) == c
  {
  }

  /**
   * distance(cap, p) = distance(closest point of the axis, p) - rad: never
   * below -rad, and for rad >= 0 negative exactly when p is strictly within
   * rad of the axis.
   */
  function Distance(cap: Capsule, p: Vec2, sqrt: real -> real): (r: real)
    requires IsSqrt(sqrt)
    ensures -cap.rad <= r
    ensures 0.0 <= cap.rad ==> (r < 0.0 <==> LineSegs.DistanceSqTo(Seg(cap), p) < cap.rad * cap.rad)
  {
    AxisDistance(cap, p, sqrt);
    Vectors.Distance(LineSegs.ClosestPoint(Seg(cap), p), p, sqrt) - cap.rad
  }

  /** The distance from p to the axis is a square root: non-negative, below rad iff its square is. */
  lemma AxisDistance(cap: Capsule, p: Vec2, sqrt: real -> real)
    requires IsSqrt(sqrt)
    ensures var d := Vectors.Distance(LineSegs.ClosestPoint(Seg(cap), p), p, sqrt);
      0.0 <= d && (0.0 <= cap.rad ==> (d < cap.rad <==> LineSegs.DistanceSqTo(Seg(cap), p) < cap.rad * cap.rad))
  {
    var q := LineSegs.ClosestPoint(Seg(cap), p);
    DistanceSqSymmetric(p, q);
    LengthSqNonneg(Sub(q, p));
    if 0.0 <= cap.rad {
      SqrtLess(sqrt, LengthSq(Sub(q, p)), cap.rad);
    }
  }

  /**
   * No point of the axis is closer: distance(cap, p) is the least of
   * distance(q, p) - rad over the axis points q.
   */
  lemma DistanceIsLeast(cap: Capsule, p: Vec2, sqrt: real -> real, t: real)
    requires IsSqrt(sqrt)
    requires 0.0 <= t <= 1.0
    ensures Distance(cap, p, sqrt) <= Vectors.Distance(LineSegs.At(Seg(cap), t), p, sqrt) - cap.rad
  {
    var s := Seg(cap);
    var q := LineSegs.ClosestPoint(s, p);
    var a := LineSegs.At(s, t);
    LineSegs.DistanceSqToIsLeast(s, p, t);
    DistanceSqSymmetric(p, q);
    DistanceSqSymmetric(p, a);
    LengthSqNonneg(Sub(q, p));
    SqrtMonotone(sqrt, LengthSq(Sub(q, p)), LengthSq(Sub(a, p)));
  }

  /** Enlarging by d lowers every distance by d. */
  lemma DistanceEnlarged(cap: Capsule, p: Vec2, sqrt: real -> real, d: real)
    requires IsSqrt(sqrt)
    ensures Distance(Enlarged(cap, d), p, sqrt) == Distance(cap, p, sqrt) - d
  {
  }

  /** distance(cap, circ) = distance(cap, circ.p) - circ.rad */
  function DistanceToCircle(cap: Capsule, circ: Circle, sqrt: real -> real): real
    requires IsSqrt(sqrt)
  {
    Distance(cap, circ.p, sqrt) - circ.rad
  }

  /**
   * The distance to a circle is the distance from its centre to the capsule
   * enlarged by its radius.
   */
  lemma DistanceToCircleEnlarged(cap: Capsule, circ: Circle, sqrt: real -> real)
    requires IsSqrt(sqrt)
    ensures DistanceToCircle(cap, circ, sqrt) == Distance(Enlarged(cap, circ.rad), circ.p, sqrt)
  {
    DistanceEnlarged(cap, circ.p, sqrt, circ.rad);
  }

  /** operator==: the same end points and the same radius, i.e. equality of capsule values. */
  predicate Equal(a: Capsule, b: Capsule)
    ensures Equal(a, b) <==> a == b
  {
    a.p0 == b.p0 && a.p1 == b.p1 && a.rad == b.rad
  }

  // ---------------------------------------------------------------- normalize and CapsuleBaked

  /** The result of normalize(v): the rescaled vector and the old length. */
  datatype Normalized = Normalized(unit: Vec2, length: real)

  /**
   * normalize(v): length l of v, and v scaled by 1/l when l != 0 (v is
   * left as it was when l == 0).
   */
  function Normalize(v: Vec2, sqrt: real -> real): (r: Normalized)
    requires IsSqrt(sqrt)
    ensures r.length == Length(v, sqrt) && 0.0 <= r.length
    ensures r.length == 0.0 ==> r.unit == v && v == Zero2
    ensures r.length != 0.0 ==> Scale(r.length, r.unit) == v
  {
    var l := Length(v, sqrt);
    LengthSqNonneg(v);
    if l != 0.0 then
      ScaleBack(v, l);
      Normalized(Scale(1.0 / l, v), l)
    else
      assert LengthSq(v) == 0.0 by {
        assert l * l == LengthSq(v);
      }
      LengthSqZero(v);
      Normalized(v, l)
  }

  lemma ScaleBack(v: Vec2, l: real)
    requires l != 0.0
    ensures Scale(l, Scale(1.0 / l, v)) == v
  {
    assert l * (1.0 / l) == 1.0;
    assert l * ((1.0 / l) * v.x) == (l * (1.0 / l)) * v.x;
    assert l * ((1.0 / l) * v.y) == (l * (1.0 / l)) * v.y;
  }

  /** A vector normalized with non-zero length has unit length. */
  lemma NormalizeUnit(v: Vec2, sqrt: real -> real)
    requires IsSqrt(sqrt)
    requires Normalize(v, sqrt).length != 0.0
    ensures LengthSq(Normalize(v, sqrt).unit) == 1.0
  {
    var r := Normalize(v, sqrt);
    var l, u := r.length, r.unit;
    LengthSqNonneg(v);
    assert l * l == LengthSq(v);
    ScaledLengthSq(u, l);
    CancelSquare(LengthSq(u), l);
  }

  lemma ScaledLengthSq(u: Vec2, l: real)
    ensures LengthSq(Scale(l, u)) == (l * l) * LengthSq(u)
  {
  }

  /** From l*l*x == l*l with l != 0 follows x == 1. */
  lemma CancelSquare(x: real, l: real)
    requires l != 0.0 && (l * l) * x == l * l
    ensures x == 1.0
  {
    Lines.CancelFactor(l * x, l, l);
    Lines.CancelFactor(x, 1.0, l);
  }

  /** CapsuleBaked: the capsule with its unit axis A, normal N and the length of p1-p0. */
  datatype CapsuleBaked = CapsuleBaked(cap: Capsule, a: Vec2, n: Vec2, length: real)

  /**
   * The CapsuleBaked constructor: A = p1-p0 normalized, length = |p1-p0|,
   * N = rot90CW(A). N is perpendicular to A and points to the right of the
   * axis; A and N are unit vectors unless the capsule is a circle.
   */
  function Bake(c: Capsule, sqrt: real -> real): (b: CapsuleBaked)
    requires IsSqrt(sqrt)
    ensures b.cap == c
    ensures b.length == Length(Sub(c.p1, c.p0), sqrt) && 0.0 <= b.length
    ensures Dot(b.n, b.a) == 0.0 && Cross(b.a, b.n) == -LengthSq(b.a)
  {
    var r := Normalize(Sub(c.p1, c.p0), sqrt);
    RightNormal(r.unit);
    CapsuleBaked(c, r.unit, Rot90CW(r.unit), r.length)
  }

  /**
   * The length is 0 exactly for a circle; otherwise A and N are unit
   * vectors and p0 plus length times A is p1.
   */
  lemma BakedAxis(c: Capsule, sqrt: real -> real)
    requires IsSqrt(sqrt)
    ensures Bake(c, sqrt).length == 0.0 <==> IsCircle(c)
    ensures var b := Bake(c, sqrt); !IsCircle(c) ==> Add(c.p0, Scale(b.length, b.a)) == c.p1
    ensures var b := Bake(c, sqrt); !IsCircle(c) ==> LengthSq(b.a) == 1.0 && LengthSq(b.n) == 1.0
  {
    var r := Normalize(Sub(c.p1, c.p0), sqrt);
    BakeFacts(c, sqrt);
    RightNormal(r.unit);
  }

  /** rot90CW(a) is perpendicular to a, as long as a, and on its right. */
  lemma RightNormal(a: Vec2)
    ensures Dot(Rot90CW(a), a) == 0.0
    ensures Cross(a, Rot90CW(a)) == -LengthSq(a)
    ensures LengthSq(Rot90CW(a)) == LengthSq(a)
  {
  }

  lemma BakeFacts(c: Capsule, sqrt: real -> real)
    requires IsSqrt(sqrt)
    ensures Normalize(Sub(c.p1, c.p0), sqrt).length == 0.0 <==> IsCircle(c)
    ensures Normalize(Sub(c.p1, c.p0), sqrt).length != 0.0 ==> LengthSq(Normalize(Sub(c.p1, c.p0), sqrt).unit) == 1.0
  {
    var r := Normalize(Sub(c.p1, c.p0), sqrt);
    if r.length != 0.0 {
      NormalizeUnit(Sub(c.p1, c.p0), sqrt);
    } else {
      assert c.p1 == c.p0;
    }
  }

  /** CapsuleBaked::enlarged(d): only the capsule's radius changes. */
  function BakedEnlarged(b: CapsuleBaked, d: real): (r: CapsuleBaked)
    ensures r.cap == Enlarged(b.cap, d) && r.a == b.a && r.n == b.n && r.length == b.length
  {
    b.(cap := b.cap.(rad := b.cap.rad + d))
  }

  /** Baking and enlarging commute. */
  lemma BakeEnlargedCommute(c: Capsule, d: real, sqrt: real -> real)
    requires IsSqrt(sqrt)
    ensures Bake(Enlarged(c, d), sqrt) == BakedEnlarged(Bake(c, sqrt), d)
  {
  }

  // ---------------------------------------------------------------- intersects

  /**
   * Capsule::intersects(a, b): the circle shortcut when either capsule is
   * a circle, then the axis crossing test, then the four end-point tests.
   */
  predicate Overlap(a: Capsule, b: Capsule, sqrt: real -> real)
    requires IsSqrt(sqrt)
  {
    if IsCircle(a) then Distance(b, a.p0, sqrt) < a.rad
    else if IsCircle(b) then Distance(a, b.p0, sqrt) < b.rad
    else if Lines.SegmentIntersectPoint(a.p0, a.p1, b.p0, b.p1).Some? then true
    else EndTest(a, b, 0, sqrt) || EndTest(a, b, 1, sqrt)
  }

  /** One round i of the loop: b's end i is within b.rad of a, or a's end i within a.rad of b. */
  predicate EndTest(a: Capsule, b: Capsule, i: nat, sqrt: real -> real)
    requires IsSqrt(sqrt) && i < 2
  {
    Distance(a, End(b, i), sqrt) < b.rad || Distance(b, End(a, i), sqrt) < a.rad
  }

  /** p[i] */
  function End(c: Capsule, i: nat): Vec2
    requires i < 2
  {
    if i == 0 then c.p0 else c.p1
  }

  /** The loop of Capsule::intersects with its early returns. */
  method Intersects(a: Capsule, b: Capsule, sqrt: real -> real) returns (r: bool)
    requires IsSqrt(sqrt)
    ensures r == Overlap(a, b, sqrt)
  {
    if IsCircle(a) {
      return Distance(b, a.p0, sqrt) < a.rad;
    }
    if IsCircle(b) {
      return Distance(a, b.p0, sqrt) < b.rad;
    }
    if Lines.SegmentIntersectPoint(a.p0, a.p1, b.p0, b.p1).Some? {
      return true;
    }
    for i := 0 to 2
      invariant forall j :: 0 <= j < i ==> !EndTest(a, b, j, sqrt)
    {
      if Distance(a, End(b, i), sqrt) < b.rad {
        return true;
      }
      if Distance(b, End(a, i), sqrt) < a.rad {
        return true;
      }
    }
    return false;
  }

  /** The test does not depend on the order of the two capsules. */
  lemma OverlapSymmetric(a: Capsule, b: Capsule, sqrt: real -> real)
    requires IsSqrt(sqrt)
    ensures Overlap(a, b, sqrt) == Overlap(b, a, sqrt)
  {
    if IsCircle(a) && IsCircle(b) {
      CircleCircleSymmetric(a, b, sqrt);
    } else if !IsCircle(a) && !IsCircle(b) {
      CrossTestSymmetric(a.p0, a.p1, b.p0, b.p1);
    }
  }

  lemma CrossTestSymmetric(a0: Vec2, a1: Vec2, b0: Vec2, b1: Vec2)
    ensures Lines.SegmentIntersectPoint(a0, a1, b0, b1).Some? == Lines.SegmentIntersectPoint(b0, b1, a0, a1).Some?
  {
    assert Lines.SegmentsCross(a0, a1, b0, b1) == Lines.SegmentsCross(b0, b1, a0, a1);
  }

  /** Two circles overlap when their centres are closer than the two radii together. */
  lemma CircleCircleSymmetric(a: Capsule, b: Capsule, sqrt: real -> real)
    requires IsSqrt(sqrt) && IsCircle(a) && IsCircle(b)
    ensures Distance(b, a.p0, sqrt) < a.rad <==> Distance(a, b.p0, sqrt) < b.rad
  {
    CircleDistance(b, a.p0, sqrt);
    CircleDistance(a, b.p0, sqrt);
    DistanceSymmetric(a.p0, b.p0, sqrt);
  }

  /** The distance to a circle capsule is the distance to its centre minus rad. */
  lemma CircleDistance(c: Capsule, p: Vec2, sqrt: real -> real)
    requires IsSqrt(sqrt) && IsCircle(c)
    ensures Distance(c, p, sqrt) == Vectors.Distance(c.p0, p, sqrt) - c.rad
  {
    Lines.ClosestPointDegenerate(c.p0, p, 0.0);
    assert LineSegs.ClosestPoint(Seg(c), p) == c.p0;
  }

  /** Two capsules whose axes cross intersect, whatever their radii. */
  lemma CrossingAxesOverlap(a: Capsule, b: Capsule, sqrt: real -> real)
    requires IsSqrt(sqrt)
    requires !IsCircle(a) && !IsCircle(b)
    requires Lines.SegmentsCross(a.p0, a.p1, b.p0, b.p1)
    ensures Overlap(a, b, sqrt)
  {
  }

  /** Axis points s of a and t of b that are closer than the two radii together, or equal. */
  predicate Near(a: Capsule, b: Capsule, s: real, t: real, sqrt: real -> real)
    requires IsSqrt(sqrt)
  {
    && 0.0 <= s <= 1.0 && 0.0 <= t <= 1.0
    && (|| LineSegs.At(Seg(a), s) == LineSegs.At(Seg(b), t)
        || Vectors.Distance(LineSegs.At(Seg(a), s), LineSegs.At(Seg(b), t), sqrt) < a.rad + b.rad)
  }

  /**
   * A positive answer is never wrong: some point of a's axis and some point
   * of b's axis are closer than a.rad + b.rad, or the axes meet.
   */
  lemma OverlapSound(a: Capsule, b: Capsule, sqrt: real -> real)
    requires IsSqrt(sqrt)
    requires Overlap(a, b, sqrt)
    ensures exists s: real, t: real {:trigger Near(a, b, s, t, sqrt)} :: Near(a, b, s, t, sqrt)
  {
    if IsCircle(a) {
      EndNear(a, b, 0, sqrt);
    } else if IsCircle(b) {
      NearEnd(a, b, 0, sqrt);
    } else if Lines.SegmentIntersectPoint(a.p0, a.p1, b.p0, b.p1).Some? {
      var p := Lines.SegmentIntersectParams(a.p0, a.p1, b.p0, b.p1).value;
      assert Near(a, b, p.t0, p.t1, sqrt);
    } else if Distance(a, End(b, 0), sqrt) < b.rad {
      NearEnd(a, b, 0, sqrt);
    } else if Distance(b, End(a, 0), sqrt) < a.rad {
      EndNear(a, b, 0, sqrt);
    } else if Distance(a, End(b, 1), sqrt) < b.rad {
      NearEnd(a, b, 1, sqrt);
    } else {
      EndNear(a, b, 1, sqrt);
    }
  }

  /** a's end i within a.rad of b gives a near pair. */
  lemma EndNear(a: Capsule, b: Capsule, i: nat, sqrt: real -> real)
    requires IsSqrt(sqrt) && i < 2
    requires Distance(b, End(a, i), sqrt) < a.rad
    ensures exists s: real, t: real {:trigger Near(a, b, s, t, sqrt)} :: Near(a, b, s, t, sqrt)
  {
    var t := LineSegs.ClosestT(Seg(b), End(a, i));
    var s: real := i as real;
    DistanceSymmetric(LineSegs.At(Seg(a), s), LineSegs.At(Seg(b), t), sqrt);
    assert Near(a, b, s, t, sqrt);
  }

  /** b's end i within b.rad of a gives a near pair. */
  lemma NearEnd(a: Capsule, b: Capsule, i: nat, sqrt: real -> real)
    requires IsSqrt(sqrt) && i < 2
    requires Distance(a, End(b, i), sqrt) < b.rad
    ensures exists s: real, t: real {:trigger Near(a, b, s, t, sqrt)} :: Near(a, b, s, t, sqrt)
  {
    var s := LineSegs.ClosestT(Seg(a), End(b, i));
    var t: real := i as real;
    assert Near(a, b, s, t, sqrt);
  }

  lemma DistanceSymmetric(p: Vec2, q: Vec2, sqrt: real -> real)
    ensures Vectors.Distance(p, q, sqrt) == Vectors.Distance(q, p, sqrt)
  {
    DistanceSqSymmetric(p, q);
  }

  // ---------------------------------------------------------------- capsule and box

  /**
   * intersects(cap, rect): the axis comes closer to the box centre than
   * rad plus half the box diagonal, i.e. the capsule meets the box's
   * bounding circle. The box must have finite corners.
   */
  predicate IntersectsBox(cap: Capsule, rect: Boxes.Aabb, sqrt: real -> real)
    reads rect
    requires IsSqrt(sqrt) && rect.IsFinite()
  {
    IntersectsSpan(cap, rect.Lo(), rect.Hi(), sqrt)
  }

  /** The same test on the corners lo, hi: centre (lo + hi) / 2, size hi - lo. */
  predicate IntersectsSpan(cap: Capsule, lo: Vec2, hi: Vec2, sqrt: real -> real)
    requires IsSqrt(sqrt)
  {
    AxisWithin(Seg(cap), Boxes.Half(Add(lo, hi)), cap.rad + 0.5 * Length(Sub(hi, lo), sqrt))
  }

  /** The squared distance from p to the axis s is below r * r. */
  predicate AxisWithin(s: LineSegs.LineSeg, p: Vec2, r: real)
  {
    LineSegs.DistanceSqTo(s, p) < r * r
  }

  /** A box whose centre lies strictly inside the capsule passes the test. */
  lemma CentreInsideIntersectsBox(cap: Capsule, rect: Boxes.Aabb, sqrt: real -> real)
    requires IsSqrt(sqrt) && rect.IsFinite() && 0.0 <= cap.rad
    requires LineSegs.DistanceSqTo(Seg(cap), rect.Center()) < cap.rad * cap.rad
    ensures IntersectsBox(cap, rect, sqrt)
  {
    LengthSqNonneg(rect.Size());
    var h := 0.5 * Length(rect.Size(), sqrt);
    SquareMono(cap.rad, cap.rad + h);
  }

  /**
   * The test is conservative: when some point q of the box lies strictly
   * within rad of some point of the axis, the capsule and the box really
   * overlap and intersects answers true.
   */
  lemma IntersectsBoxConservative(cap: Capsule, rect: Boxes.Aabb, sqrt: real -> real, q: Vec2, t: real)
    requires IsSqrt(sqrt) && rect.IsFinite() && 0.0 <= cap.rad
    requires rect.Contains(q) && 0.0 <= t <= 1.0
    requires DistanceSq(q, LineSegs.At(Seg(cap), t)) < cap.rad * cap.rad
    ensures IntersectsBox(cap, rect, sqrt)
  {
    var lo, hi := rect.Lo(), rect.Hi();
    assert lo.x <= q.x <= hi.x && lo.y <= q.y <= hi.y;
    SpanConservative(cap, lo, hi, q, t, sqrt);
  }

  /** The same on the corners: q in [lo, hi] near the axis point at t passes the test. */
  lemma SpanConservative(cap: Capsule, lo: Vec2, hi: Vec2, q: Vec2, t: real, sqrt: real -> real)
    requires IsSqrt(sqrt) && 0.0 <= cap.rad && lo.x <= q.x <= hi.x && lo.y <= q.y <= hi.y
    requires 0.0 <= t <= 1.0 && DistanceSq(q, LineSegs.At(Seg(cap), t)) < cap.rad * cap.rad
    ensures IntersectsSpan(cap, lo, hi, sqrt)
  {
    var h := 0.5 * Length(Sub(hi, lo), sqrt);
    HalfDiagonalBound(lo, hi, sqrt, q, h);
    NearCentre(Seg(cap), Boxes.Half(Add(lo, hi)), q, t, cap.rad, h);
  }

  /** The centre m of a ball of radius h around q is within rad + h of the axis point at t. */
  lemma NearCentre(s: LineSegs.LineSeg, m: Vec2, q: Vec2, t: real, rad: real, h: real)
    requires 0.0 <= rad && 0.0 <= h && 0.0 <= t <= 1.0
    requires DistanceSq(q, LineSegs.At(s, t)) < rad * rad && LengthSq(Sub(m, q)) <= h * h
    ensures AxisWithin(s, m, rad + h)
  {
    var a := LineSegs.At(s, t);
    TriangleSquared(Sub(q, a), Sub(m, q), rad, h);
    assert Sub(m, a) == Add(Sub(q, a), Sub(m, q));
    LineSegs.DistanceSqToIsLeast(s, m, t);
  }

  /** Every point of [lo, hi] is within half the diagonal of the centre. */
  lemma HalfDiagonalBound(lo: Vec2, hi: Vec2, sqrt: real -> real, q: Vec2, h: real)
    requires IsSqrt(sqrt) && lo.x <= q.x <= hi.x && lo.y <= q.y <= hi.y
    requires h == 0.5 * Length(Sub(hi, lo), sqrt)
    ensures 0.0 <= h && LengthSq(Sub(Boxes.Half(Add(lo, hi)), q)) <= h * h
  {
    CentreOffset(lo, hi, q);
    LengthSqNonneg(Sub(hi, lo));
    HalfRootBound(sqrt, LengthSq(Sub(Boxes.Half(Add(lo, hi)), q)), LengthSq(Sub(hi, lo)));
  }

  /** d <= x/4 means d is at most (sqrt(x)/2)^2. */
  lemma HalfRootBound(sqrt: real -> real, d: real, x: real)
    requires IsSqrt(sqrt) && 0.0 <= x && d <= 0.25 * x
    ensures 0.0 <= 0.5 * sqrt(x) && d <= (0.5 * sqrt(x)) * (0.5 * sqrt(x))
  {
    SqrtSquare(sqrt, x);
    HalfBound(d, x, sqrt(x));
  }

  lemma SqrtSquare(sqrt: real -> real, x: real)
    requires IsSqrt(sqrt) && 0.0 <= x
    ensures 0.0 <= sqrt(x) && sqrt(x) * sqrt(x) == x
  {
  }

  lemma HalfBound(d: real, ls: real, s: real)
    requires d <= 0.25 * ls && 0.0 <= s && s * s == ls
    ensures 0.0 <= 0.5 * s && d <= (0.5 * s) * (0.5 * s)
  {
    HalfSquare(s);
  }

  /** A point of [lo, hi] is within half the diagonal of the centre, squared. */
  lemma CentreOffset(lo: Vec2, hi: Vec2, q: Vec2)
    requires lo.x <= q.x <= hi.x && lo.y <= q.y <= hi.y
    ensures LengthSq(Sub(Boxes.Half(Add(lo, hi)), q)) <= 0.25 * LengthSq(Sub(hi, lo))
  {
    HalfExtent(lo.x, hi.x, q.x);
    HalfExtent(lo.y, hi.y, q.y);
  }

  lemma HalfSquare(s: real)
    ensures (0.5 * s) * (0.5 * s) == 0.25 * (s * s)
  {
  }

  /** A coordinate x in [lo, hi] is within half the extent of the centre. */
  lemma HalfExtent(lo: real, hi: real, x: real)
    requires lo <= x <= hi
    ensures ((lo + hi) / 2.0 - x) * ((lo + hi) / 2.0 - x) <= 0.25 * ((hi - lo) * (hi - lo))
  {
    var d := (lo + hi) / 2.0 - x;
    var e := (hi - lo) / 2.0;
    assert -e <= d <= e;
    if 0.0 <= d {
      SquareMono(d, e);
    } else {
      SquareMono(-d, e);
    }
  }

  /** |u + v|^2 < (ru + rv)^2 when |u|^2 < ru^2 and |v|^2 <= rv^2 (ru, rv >= 0). */
  lemma TriangleSquared(u: Vec2, v: Vec2, ru: real, rv: real)
    requires 0.0 <= ru && 0.0 <= rv
    requires LengthSq(u) < ru * ru && LengthSq(v) <= rv * rv
    ensures LengthSq(Add(u, v)) < (ru + rv) * (ru + rv)
  {
    var p := Dot(u, v);
    Lagrange(u, v);
    LengthSqNonneg(u);
    LengthSqNonneg(v);
    ProductBound(LengthSq(u), ru * ru, LengthSq(v), rv * rv);
    DotBound(p, Cross(u, v), LengthSq(u) * LengthSq(v), ru, rv);
    SumSquare(u, v);
    SquareOfSum(ru, rv);
  }

  /** Lagrange's identity in the plane: dot^2 + cross^2 = |u|^2 |v|^2. */
  lemma Lagrange(u: Vec2, v: Vec2)
    ensures Dot(u, v) * Dot(u, v) + Cross(u, v) * Cross(u, v) == LengthSq(u) * LengthSq(v)
  {
  }

  /** p <= ru*rv when p^2 + c^2 = w <= (ru*ru)*(rv*rv). */
  lemma DotBound(p: real, c: real, w: real, ru: real, rv: real)
    requires 0.0 <= ru && 0.0 <= rv
    requires p * p + c * c == w && w <= (ru * ru) * (rv * rv)
    ensures p <= ru * rv
  {
    var m := ru * rv;
    MulNonneg(ru, rv);
    assert (ru * ru) * (rv * rv) == m * m;
    assert 0.0 <= c * c;
    if m < p {
      SquareStrictMono(m, p);
    }
  }

  lemma SumSquare(u: Vec2, v: Vec2)
    ensures LengthSq(Add(u, v)) == LengthSq(u) + 2.0 * Dot(u, v) + LengthSq(v)
  {
  }

  lemma SquareOfSum(a: real, b: real)
    ensures (a + b) * (a + b) == a * a + 2.0 * (a * b) + b * b
  {
  }

  lemma ProductBound(a: real, b: real, c: real, d: real)
    requires 0.0 <= a <= b && 0.0 <= c <= d
    ensures a * c <= b * d
  {
    assert a * c <= b * c;
    assert b * c <= b * d;
  }
}
