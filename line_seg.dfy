/**
 * The LineSeg value of line_seg.hpp: a segment p0..p1 with interpolation,
 * its closest point to a position, and the side tests that decide whether a
 * ray approaches it.
 */
module LineSegs {
  import opened Numeric
  import opened Vectors
  import Lines

  datatype LineSeg = LineSeg(p0: Vec2, p1: Vec2)

  /** at(t) = lerp(p0, p1, t): p0 at t = 0, p1 at t = 1, the segment between. */
  function At(s: LineSeg, t: real): (r: Vec2)
    ensures t == 0.0 ==> r == s.p0
    ensures t == 1.0 ==> r == s.p1
    ensures r == Lines.SegPoint(s.p0, s.p1, t)
  {
    Lines.SegPointIsLerp(s.p0, s.p1, t);
    Lerp2(s.p0, s.p1, t)
  }

  /** closest_point(pos): the closest point of the segment to pos. */
  function ClosestPoint(s: LineSeg, pos: Vec2): (r: Vec2)
    ensures exists t: real {:trigger At(s, t)} :: 0.0 <= t <= 1.0 && r == At(s, t)
  {
    var c := Lines.ClosestPoint(s.p0, s.p1, pos);
    assert c.point == At(s, c.t);
    c.point
  }

  /** closestT(pos): the clamped parameter of the closest point. */
  function ClosestT(s: LineSeg, pos: Vec2): (t: real)
    ensures 0.0 <= t <= 1.0
    ensures At(s, t) == ClosestPoint(s, pos)
  {
    Lines.ClosestPoint(s.p0, s.p1, pos).t
  }

  /** distance_sq_to(pos) = distance_sq(pos, closest_point(pos)) */
  function DistanceSqTo(s: LineSeg, pos: Vec2): (d: real)
    ensures 0.0 <= d
  {
    LengthSqNonneg(Sub(pos, ClosestPoint(s, pos)));
    DistanceSq(pos, ClosestPoint(s, pos))
  }

  /** No point of the segment is closer to pos than distance_sq_to says. */
  lemma DistanceSqToIsLeast(s: LineSeg, pos: Vec2, t: real)
    requires 0.0 <= t <= 1.0
    ensures DistanceSqTo(s, pos) <= DistanceSq(pos, At(s, t))
  {
    Lines.ClosestPointIsClosest(s.p0, s.p1, pos, t);
  }

  /**
   * is_point_on_the_left(point) = dot(rot90CCW(p1-p0), point-p0) > 0, the
   * same test as is_point_left_of(p0, p1, point).
   */
  predicate IsPointOnTheLeft(s: LineSeg, point: Vec2)
  {
    Lines.IsPointLeftOf(s.p0, s.p1, point)
  }

  /** The left side is where the cross product with the axis is positive. */
  lemma IsPointOnTheLeftCross(s: LineSeg, point: Vec2)
    ensures IsPointOnTheLeft(s, point) <==> Cross(Sub(s.p1, s.p0), Sub(point, s.p0)) > 0.0
  {
  }

  /** from_left_to_right(dir) = a.y*dir.x - a.x*dir.y > 0 with a = p1-p0. */
  predicate FromLeftToRight(s: LineSeg, dir: Vec2)
  {
    var a := Sub(s.p1, s.p0);
    a.y * dir.x - a.x * dir.y > 0.0
  }

  /**
   * The direction points from left to right exactly when it has a positive
   * component along the right-hand normal rot90CW(p1-p0), that is when the
   * axis turns clockwise onto it.
   */
  lemma FromLeftToRightNormal(s: LineSeg, dir: Vec2)
    ensures FromLeftToRight(s, dir) <==> Dot(Rot90CW(Sub(s.p1, s.p0)), dir) > 0.0
    ensures FromLeftToRight(s, dir) <==> Cross(Sub(s.p1, s.p0), dir) < 0.0
  {
  }

  /** is_approached_by(ray) = is_point_on_the_left(ray.o) == from_left_to_right(ray.d) */
  predicate IsApproachedBy(s: LineSeg, ray: Ray)
  {
    IsPointOnTheLeft(s, ray.o) == FromLeftToRight(s, ray.d)
  }

  /** The signed side value of a point: positive on the left, negative on the right. */
  function Side(s: LineSeg, point: Vec2): real
  {
    Cross(Sub(s.p1, s.p0), Sub(point, s.p0))
  }

  /** The side value changes linearly along a ray. */
  lemma SideAlongRay(s: LineSeg, ray: Ray, t: real)
    ensures Side(s, Vectors.At(ray, t)) == Side(s, ray.o) + t * Cross(Sub(s.p1, s.p0), ray.d)
  {
  }

  /**
   * An approaching ray moves toward the line: from the left side its side
   * value strictly decreases, from the right side (or on the line) it never
   * decreases. A ray that is not approaching moves the other way.
   */
  lemma ApproachMovesTowardLine(s: LineSeg, ray: Ray, t: real)
    requires 0.0 < t
    ensures IsApproachedBy(s, ray) && IsPointOnTheLeft(s, ray.o) ==> Side(s, Vectors.At(ray, t)) < Side(s, ray.o)
    ensures IsApproachedBy(s, ray) && !IsPointOnTheLeft(s, ray.o) ==> Side(s, ray.o) <= Side(s, Vectors.At(ray, t))
    ensures !IsApproachedBy(s, ray) && IsPointOnTheLeft(s, ray.o) ==> Side(s, ray.o) <= Side(s, Vectors.At(ray, t))
    ensures !IsApproachedBy(s, ray) && !IsPointOnTheLeft(s, ray.o) ==> Side(s, Vectors.At(ray, t)) < Side(s, ray.o)
  {
    var c := Cross(Sub(s.p1, s.p0), ray.d);
    SideAlongRay(s, ray, t);
    FromLeftToRightNormal(s, ray.d);
    if c < 0.0 {
      Lines.MulNegPos(c, t);
    } else {
      MulNonneg(t, c);
    }
  }
}
