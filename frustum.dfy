/**
 * frustum.hpp / frustum.cpp: a 3D view frustum given by six outward-facing
 * planes (a point with distance > 0 to one of them is outside) and its
 * eight corner points, with the point, plane, sphere, box and
 * frustum-frustum tests built on them.
 */
module Frustums {
  import opened Numeric
  import opened Vectors
  import opened Planes

  datatype PlaneIntersectResult = Infront | Behind | Intersect

  datatype IntersectResult = Outside | Inside | Intersects

  // ---------------------------------------------------------------- planes from a matrix

  /**
   * The plane vectors of Frustum(const Mat4&) (frustum.cpp:175-180), for the
   * sides Right, Left, Top, Bottom, Back, Front in that order, from the
   * matrix columns c0 .. c3: +-c0 - c3, +-c1 - c3, +-c2 - c3.
   */
  function ClipPlaneVec(cols: seq<Vec4>, side: nat): Vec4
    requires |cols| == 4 && side < 6
  {
    if side == 0 then Sub4(cols[0], cols[3])
    else if side == 1 then Sub4(Neg4(cols[0]), cols[3])
    else if side == 2 then Sub4(cols[1], cols[3])
    else if side == 3 then Sub4(Neg4(cols[1]), cols[3])
    else if side == 4 then Sub4(cols[2], cols[3])
    else Sub4(Neg4(cols[2]), cols[3])
  }

  function NormalOf(v: Vec4): Vec3
  {
    Vec3(v.x, v.y, v.z)
  }

  /** Every plane vector has a non-zero normal, so that normalizing it is finite. */
  predicate Extractable(cols: seq<Vec4>)
  {
    |cols| == 4 && forall side :: 0 <= side < 6 ==> 0.0 < LengthSq3(NormalOf(ClipPlaneVec(cols, side)))
  }

  /** The six normalized planes of a matrix. */
  function ExtractedPlanes(cols: seq<Vec4>, sqrt: real -> real): (pls: seq<Plane>)
    requires Extractable(cols) && IsSqrt(sqrt)
    ensures |pls| == 6
  {
    seq(6, side requires 0 <= side < 6 => Normalize(ClipPlaneVec(cols, side), sqrt))
  }

  /**
   * The homogeneous clip coordinate k of p under the matrix: column k
   * applied to (p, 1) (X, Y, Z, W for k = 0 .. 3).
   */
  function ClipCoord(cols: seq<Vec4>, k: nat, p: Vec3): real
    requires |cols| == 4 && k < 4
  {
    HomDot(cols[k], p)
  }

  /** The plane vectors are linear in the columns. */
  lemma ClipPlaneValue(cols: seq<Vec4>, side: nat, p: Vec3)
    requires |cols| == 4 && side < 6
    ensures HomDot(ClipPlaneVec(cols, side), p)
      == (if side % 2 == 0 then 1.0 else -1.0) * ClipCoord(cols, side / 2, p) - ClipCoord(cols, 3, p)
  {
    var c := cols[side / 2];
    if side % 2 == 0 {
      assert ClipPlaneVec(cols, side) == Sub4(c, cols[3]);
      HomDotSub(c, cols[3], p);
    } else {
      assert ClipPlaneVec(cols, side) == Sub4(Neg4(c), cols[3]);
      HomDotSub(Neg4(c), cols[3], p);
      HomDotNeg(c, p);
    }
  }

  lemma HomDotSub(u: Vec4, v: Vec4, p: Vec3)
    ensures HomDot(Sub4(u, v), p) == HomDot(u, p) - HomDot(v, p)
  {
  }

  lemma HomDotNeg(u: Vec4, p: Vec3)
    ensures HomDot(Neg4(u), p) == -HomDot(u, p)
  {
  }

  /**
   * A point is behind or on all six extracted planes exactly when its clip
   * coordinates lie in the clip volume -W <= X, Y, Z <= W: the planes are
   * the faces of that volume, pointing outwards.
   */
  lemma ExtractedPlanesBoundClipVolume(cols: seq<Vec4>, sqrt: real -> real, p: Vec3)
    requires Extractable(cols) && IsSqrt(sqrt)
    ensures InsideAll(ExtractedPlanes(cols, sqrt), p) <==>
      var w := ClipCoord(cols, 3, p);
      -w <= ClipCoord(cols, 0, p) <= w && -w <= ClipCoord(cols, 1, p) <= w && -w <= ClipCoord(cols, 2, p) <= w
  {
    ExtractedPlanesHom(cols, sqrt, p);
    HomInsideClipVolume(cols, p);
  }

  /** No plane vector is positive at (p, 1). */
  predicate HomInside(cols: seq<Vec4>, p: Vec3)
    requires |cols| == 4
  {
    forall side :: 0 <= side < 6 ==> HomDot(ClipPlaneVec(cols, side), p) <= 0.0
  }

  lemma ExtractedPlanesHom(cols: seq<Vec4>, sqrt: real -> real, p: Vec3)
    requires Extractable(cols) && IsSqrt(sqrt)
    ensures InsideAll(ExtractedPlanes(cols, sqrt), p) <==> HomInside(cols, p)
  {
    var pls := ExtractedPlanes(cols, sqrt);
    forall side | 0 <= side < 6
      ensures SignedDistance(pls[side], p) <= 0.0 <==> HomDot(ClipPlaneVec(cols, side), p) <= 0.0
    {
      NormalizeKeepsSign(ClipPlaneVec(cols, side), sqrt, p);
    }
  }

  lemma HomInsideClipVolume(cols: seq<Vec4>, p: Vec3)
    requires |cols| == 4
    ensures HomInside(cols, p) <==>
      var w := ClipCoord(cols, 3, p);
      -w <= ClipCoord(cols, 0, p) <= w && -w <= ClipCoord(cols, 1, p) <= w && -w <= ClipCoord(cols, 2, p) <= w
  {
    ClipPlaneValue(cols, 0, p);
    ClipPlaneValue(cols, 1, p);
    ClipPlaneValue(cols, 2, p);
    ClipPlaneValue(cols, 3, p);
    ClipPlaneValue(cols, 4, p);
    ClipPlaneValue(cols, 5, p);
  }

  // ---------------------------------------------------------------- specifications

  /** contains_point: no plane has the point strictly in front of it. */
  predicate InsideAll(pls: seq<Plane>, p: Vec3)
  {
    forall i :: 0 <= i < |pls| ==> SignedDistance(pls[i], p) <= 0.0
  }

  /**
   * plane_intersection's answer: Infront when every corner is strictly in
   * front of the plane, Behind when every one is strictly behind it, and
   * Intersect otherwise (the corners change sides, or all lie on it).
   */
  function Classify(pl: Plane, pts: seq<Vec3>): PlaneIntersectResult
  {
    if forall i :: 0 <= i < |pts| ==> SignedDistance(pl, pts[i]) > 0.0 then Infront
    else if forall i :: 0 <= i < |pts| ==> SignedDistance(pl, pts[i]) < 0.0 then Behind
    else Intersect
  }

  /**
   * test_sphere's answer for normalized planes (so distances are
   * Euclidean): Outside when the center lies more than r in front of some
   * plane; otherwise Intersects when the center is within r of some plane;
   * otherwise Inside. An Inside sphere has every plane at least r in front
   * of its center, or exactly touching it from outside: the strict test
   * |distance| < r calls a sphere resting on the outer side of a plane
   * Inside.
   */
  function SphereClass(pls: seq<Plane>, c: Vec3, r: real): (res: IntersectResult)
    ensures res == Inside ==> forall i :: 0 <= i < |pls| ==>
      SignedDistance(pls[i], c) <= -r || SignedDistance(pls[i], c) == r
  {
    if exists i :: 0 <= i < |pls| && SignedDistance(pls[i], c) > r then Outside
    else if exists i :: 0 <= i < |pls| && Abs(SignedDistance(pls[i], c)) < r then Intersects
    else Inside
  }

  /**
   * One of the six box-face tests of cull_box (frustum.cpp:83-112): face
   * 2*axis is "coordinate > maxs", face 2*axis+1 is "coordinate < mins".
   */
  predicate Beyond(p: Vec3, face: nat, mins: Vec3, maxs: Vec3)
    requires face < 6
  {
    if face == 0 then p.x > maxs.x
    else if face == 1 then p.x < mins.x
    else if face == 2 then p.y > maxs.y
    else if face == 3 then p.y < mins.y
    else if face == 4 then p.z > maxs.z
    else p.z < mins.z
  }

  /** How many of the first n points lie beyond the face (the source's out counter). */
  function CountBeyond(pts: seq<Vec3>, face: nat, mins: Vec3, maxs: Vec3, n: nat): nat
    requires face < 6 && n <= |pts|
  {
    if n == 0 then 0
    else CountBeyond(pts, face, mins, maxs, n - 1) + (if Beyond(pts[n - 1], face, mins, maxs) then 1 else 0)
  }

  /** out == 8 exactly when all eight points are beyond the face. */
  lemma {:induction false} CountBeyondAll(pts: seq<Vec3>, face: nat, mins: Vec3, maxs: Vec3, n: nat)
    requires face < 6 && n <= |pts|
    ensures CountBeyond(pts, face, mins, maxs, n) <= n
    ensures CountBeyond(pts, face, mins, maxs, n) == n <==> forall i :: 0 <= i < n ==> Beyond(pts[i], face, mins, maxs)
  {
    if n > 0 {
      CountBeyondAll(pts, face, mins, maxs, n - 1);
    }
  }

  /**
   * cull_box's answer: some plane has the box's nearest corner on or in
   * front of it, or all frustum corners lie beyond one face of the box.
   */
  predicate Culled(pls: seq<Plane>, pts: seq<Vec3>, c: Vec3, e: Vec3)
  {
    var mins, maxs := Sub3(c, e), Add3(c, e);
    (exists i :: 0 <= i < |pls| && SignedDistance(pls[i], ClosestCorner(pls[i], mins, maxs)) >= 0.0)
    || (exists face :: 0 <= face < 6 && AllBeyond(pts, face, mins, maxs))
  }

  predicate AllBeyond(pts: seq<Vec3>, face: nat, mins: Vec3, maxs: Vec3)
    requires face < 6
  {
    forall j :: 0 <= j < |pts| ==> Beyond(pts[j], face, mins, maxs)
  }

  /**
   * A box culled by a plane has no point strictly behind that plane, so
   * none of its points is strictly inside the frustum.
   */
  lemma CulledByPlane(pls: seq<Plane>, i: nat, c: Vec3, e: Vec3, q: Vec3)
    requires i < |pls|
    requires SignedDistance(pls[i], ClosestCorner(pls[i], Sub3(c, e), Add3(c, e))) >= 0.0
    requires InBox(q, Sub3(c, e), Add3(c, e))
    ensures SignedDistance(pls[i], q) >= 0.0
  {
    ClosestCornerIsNearest(pls[i], Sub3(c, e), Add3(c, e), q);
  }

  /** Some plane of one frustum has all corners of the other strictly in front of it. */
  predicate Separated(pls: seq<Plane>, pts: seq<Vec3>)
  {
    exists i :: 0 <= i < |pls| && Classify(pls[i], pts) == Infront
  }

  /**
   * A separating plane keeps every point between two corners of the other
   * frustum strictly in front of it, so none of those points is inside the
   * first frustum.
   */
  lemma SeparatedApart(pls: seq<Plane>, pts: seq<Vec3>, j: nat, k: nat, t: real)
    requires Separated(pls, pts)
    requires j < |pts| && k < |pts| && 0.0 <= t <= 1.0
    ensures !InsideAll(pls, Lerp3(pts[j], pts[k], t))
  {
    var i :| 0 <= i < |pls| && Classify(pls[i], pts) == Infront;
    SegmentInFront(pls[i], pts[j], pts[k], t);
  }

  // ---------------------------------------------------------------- the frustum

  class Frustum {
    /** _planes, indexed Right, Left, Top, Bottom, Back, Front. */
    var planes: array<Plane>
    /** _points, the eight corners. */
    var points: array<Vec3>

    predicate Valid()
      reads this
    {
      planes.Length == 6 && points.Length == 8
    }

    /**
     * Frustum(const Mat4&) / from_matrix (frustum.cpp:170-192): the planes
     * from the matrix columns; the corners, which the source computes with
     * Plane::plane_intersection, are given.
     */
    constructor FromMatrix(cols: seq<Vec4>, corners: seq<Vec3>, sqrt: real -> real)
      requires Extractable(cols) && IsSqrt(sqrt) && |corners| == 8
      ensures Valid() && fresh(planes) && fresh(points)
      ensures planes[..] == ExtractedPlanes(cols, sqrt) && points[..] == corners
    {
      var ps := new Plane[6](_ => Plane(Vec3(0.0, 0.0, 0.0), 0.0));
      ps[0] := Normalize(ClipPlaneVec(cols, 0), sqrt);  // Right  =  c0 - c3
      ps[1] := Normalize(ClipPlaneVec(cols, 1), sqrt);  // Left   = -c0 - c3
      ps[2] := Normalize(ClipPlaneVec(cols, 2), sqrt);  // Top    =  c1 - c3
      ps[3] := Normalize(ClipPlaneVec(cols, 3), sqrt);  // Bottom = -c1 - c3
      ps[4] := Normalize(ClipPlaneVec(cols, 4), sqrt);  // Back   =  c2 - c3
      ps[5] := Normalize(ClipPlaneVec(cols, 5), sqrt);  // Front  = -c2 - c3
      assert ps[..] == ExtractedPlanes(cols, sqrt);
      planes := ps;
      points := new Vec3[8](i requires 0 <= i < 8 => corners[i]);
    }

    /** contains_point (frustum.cpp:17-25) */
    method ContainsPoint(p: Vec3) returns (r: bool)
      requires Valid()
      ensures r == InsideAll(planes[..], p)
    {
      for i := 0 to 6
        invariant forall j :: 0 <= j < i ==> SignedDistance(planes[j], p) <= 0.0
      {
        if SignedDistance(planes[i], p) > 0.0 {
          return false;
        }
      }
      return true;
    }

    /** plane_intersection (frustum.cpp:27-38) */
    method PlaneIntersection(pl: Plane) returns (r: PlaneIntersectResult)
      requires Valid()
      ensures r == Classify(pl, points[..])
    {
      var sgn := Sign(SignedDistance(pl, points[0]));
      for i := 1 to 8
        invariant forall j :: 0 <= j < i ==> Sign(SignedDistance(pl, points[j])) == sgn
      {
        if Sign(SignedDistance(pl, points[i])) != sgn {
          return Intersect;
        }
      }
      return if sgn > 0 then Infront else if sgn == 0 then Intersect else Behind;
    }

    /** test_sphere (frustum.cpp:40-61) */
    method TestSphere(c: Vec3, r: real) returns (res: IntersectResult)
      requires Valid()
      ensures res == SphereClass(planes[..], c, r)
    {
      var intersects := false;
      for i := 0 to 6
        invariant forall j :: 0 <= j < i ==> SignedDistance(planes[j], c) <= r
        invariant intersects <==> exists j :: 0 <= j < i && Abs(SignedDistance(planes[j], c)) < r
      {
        var distance := SignedDistance(planes[i], c);
        if distance > r {
          return Outside;
        }
        if Abs(distance) < r {
          intersects := true;
        }
      }
      if intersects {
        return Intersects;
      } else {
        return Inside;
      }
    }

    /** One "out" counter of cull_box (frustum.cpp:83-112). */
    method CountOut(face: nat, mins: Vec3, maxs: Vec3) returns (out: nat)
      requires Valid() && face < 6
      ensures out == CountBeyond(points[..], face, mins, maxs, 8)
    {
      out := 0;
      for i := 0 to 8
        invariant out == CountBeyond(points[..], face, mins, maxs, i)
      {
        if Beyond(points[i], face, mins, maxs) {
          out := out + 1;
        }
      }
    }

    /** cull_box (frustum.cpp:63-115, the enabled branch) */
    method CullBox(c: Vec3, e: Vec3) returns (cull: bool)
      requires Valid()
      ensures cull == Culled(planes[..], points[..], c, e)
    {
      var mins := Sub3(c, e);
      var maxs := Add3(c, e);
      for i := 0 to 6
        invariant forall j :: 0 <= j < i ==> SignedDistance(planes[j], ClosestCorner(planes[j], mins, maxs)) < 0.0
      {
        var closest := ClosestCorner(planes[i], mins, maxs);
        if SignedDistance(planes[i], closest) >= 0.0 {
          return true;
        }
      }
      for face := 0 to 6
        invariant forall f :: 0 <= f < face ==> !AllBeyond(points[..], f, mins, maxs)
      {
        var out := CountOut(face, mins, maxs);
        CountBeyondAll(points[..], face, mins, maxs, 8);
        if out == 8 {
          assert AllBeyond(points[..], face, mins, maxs);
          return true;
        }
      }
      return false;
    }
  }

  /** intersects(const Frustum&, const Frustum&) (frustum.cpp:212-227) */
  method FrustaIntersect(lhs: Frustum, rhs: Frustum) returns (r: bool)
    requires lhs.Valid() && rhs.Valid()
    ensures r <==> !Separated(lhs.planes[..], rhs.points[..]) && !Separated(rhs.planes[..], lhs.points[..])
  {
    for i := 0 to 6
      invariant forall j :: 0 <= j < i ==> Classify(lhs.planes[j], rhs.points[..]) != Infront
    {
      var res := rhs.PlaneIntersection(lhs.planes[i]);
      if res == Infront {
        return false;
      }
    }
    for i := 0 to 6
      invariant forall j :: 0 <= j < i ==> Classify(rhs.planes[j], lhs.points[..]) != Infront
    {
      var res := lhs.PlaneIntersection(rhs.planes[i]);
      if res == Infront {
        return false;
      }
    }
    return true;
  }
}
