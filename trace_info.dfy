/**
 * trace::info of trace.hpp, the record every tracer of trace.cpp updates in
 * place: each tracer either narrows t and sets normal_dir, or leaves the
 * record as it was. Each method is proved to apply exactly the decision of
 * the corresponding function of module Trace.
 */
module TraceRecord {
  import opened Numeric
  import opened Vectors
  import opened Trace
  import Capsules
  import Boxes

  /**
   * The record after a tracer answered h, starting from t0 and n0: the
   * answer is the return value, a hit sets t and normal_dir, a miss keeps
   * them.
   */
  predicate Applied(h: Option<Hit>, hit: bool, t: real, n: Vec2, t0: real, n0: Vec2)
  {
    hit == h.Some? && t == Narrow(t0, h) && n == (if h.Some? then h.value.normal else n0)
  }

  class TraceInfo {
    var ray: Ray
    /** The returned t is strictly smaller than this (at most this for circles). */
    var t: real
    var flags: bv8
    /** The returned t is larger than this; sanity_check demands min_t >= 0. */
    var minT: real
    /** The normal of the last hit, not necessarily of unit length. */
    var normalDir: Vec2

    /**
     * info(r, max_t, f): t = max_t, min_t = 0. The source leaves normal_dir
     * unset; here it starts at zero.
     */
    constructor (r: Ray, maxT: real, f: bv8)
      ensures ray == r && t == maxT && flags == f && minT == 0.0 && normalDir == Zero2
    {
      ray, t, flags, minT, normalDir := r, maxT, f, 0.0, Zero2;
    }

    /** info(r, max_t) with the default flags COLLIDE_ENTERING. */
    constructor Default(r: Ray, maxT: real)
      ensures ray == r && t == maxT && flags == ENTERING && minT == 0.0 && normalDir == Zero2
    {
      ray, t, flags, minT, normalDir := r, maxT, ENTERING, 0.0, Zero2;
    }

    /** entering() */
    predicate IsEntering()
      reads this
    {
      FlagEntering(flags)
    }

    /** leaving() */
    predicate IsLeaving()
      reads this
    {
      FlagLeaving(flags)
    }

    /** matches(ray_is_entering) */
    predicate Matches(rayIsEntering: bool)
      reads this
    {
      MatchesFlags(flags, rayIsEntering)
    }

    /** sanity_check(): exactly one of entering and leaving, and min_t >= 0. */
    predicate SanityCheck()
      reads this
    {
      IsEntering() != IsLeaving() && 0.0 <= minT
    }

    /**
     * ray_circle (trace.cpp:12-68) without the squared pre-checks of
     * trace.cpp:45-48, which reject rays they should not.
     */
    method RayCircle(c: Circle, sqrt: real -> real) returns (hit: bool)
      requires IsSqrt(sqrt) && ray.d != Zero2 && SanityCheck()
      modifies this
      ensures ray == old(ray) && flags == old(flags) && minT == old(minT)
      ensures Applied(CircleHit(ray, IsEntering(), minT, old(t), c, sqrt), hit, t, normalDir, old(t), old(normalDir))
    {
      var entering := IsEntering();
      var sign := if entering then -1.0 else 1.0;
      var q := CircleQuadOf(ray, c);
      if entering && q.incl > 0.0 {
        return false;
      }
      if q.under <= 0.0 {
        return false;
      }
      var x := -q.a + sign * sqrt(q.under);
      if x <= minT {
        return false;
      }
      if x > t {
        return false;
      }
      x := Clamp(x, minT, t);
      t := x;
      normalDir := Scale(-sign, Add(Scale(x, ray.d), Sub(ray.o, c.p)));
      return true;
    }

    /** ray_capsule (trace.cpp:112-167). */
    method RayCapsule(cap: Capsules.CapsuleBaked, sqrt: real -> real) returns (hit: bool)
      requires IsSqrt(sqrt) && ray.d != Zero2 && SanityCheck()
      modifies this
      ensures ray == old(ray) && flags == old(flags) && minT == old(minT)
      ensures Applied(CapsuleHit(ray, IsEntering(), minT, old(t), cap, sqrt), hit, t, normalDir, old(t), old(normalDir))
    {
      var c := cap.cap;
      if Capsules.IsCircle(c) {
        hit := RayCircle(Capsules.AsCircle(c), sqrt);
        return;
      }
      var R := Sub(ray.o, c.p0);
      var p := Vec2(Dot(cap.a, R), Dot(cap.n, R));
      var d := Vec2(Dot(cap.a, ray.d), Dot(cap.n, ray.d));
      if !IsZero(d.y, EpsF) {
        var tMin := (-c.rad - p.y) / d.y;
        var tMax := (c.rad - p.y) / d.y;
        var tTest := Min(tMin, tMax);
        var s := p.x + tTest * d.x;
        assert tTest == BodyT(Ray(p, d), c.rad) && s == AxisPos(Ray(p, d), c.rad);
        if s < 0.0 {
          hit := RayCircle(Capsules.Circle0(c), sqrt);
        } else if cap.length < s {
          hit := RayCircle(Capsules.Circle1(c), sqrt);
        } else if minT <= tTest && tTest < t {
          t := tTest;
          normalDir := if d.y < 0.0 then cap.n else Neg(cap.n);
          hit := true;
        } else {
          hit := false;
        }
      } else {
        var didHit := false;
        var h0 := RayCircle(Capsules.Circle0(c), sqrt);
        if h0 {
          didHit := true;
        }
        var h1 := RayCircle(Capsules.Circle1(c), sqrt);
        if h1 {
          didHit := true;
        }
        hit := didHit;
      }
    }

    /**
     * rayAABB (trace.cpp:171-224): two plane tests per axis, each against
     * the t the earlier ones left. An axis the ray runs parallel to is
     * skipped (see BoxAxis).
     */
    method RayAabb(box: Boxes.Aabb) returns (hit: bool)
      requires box.IsFinite()
      modifies this
      ensures ray == old(ray) && flags == old(flags) && minT == old(minT)
      ensures Probe(hit, t, normalDir)
        == BoxTrace(Probe(false, old(t), old(normalDir)), flags, minT, BoxLocal(ray, box.Lo(), box.Hi()), 2)
    {
      var L := Local(Sub(ray.o, box.Center()), ray.d, Boxes.Half(box.Size()));
      assert L == BoxLocal(ray, box.Lo(), box.Hi());
      var didHit := false;
      for a := 0 to 2
        invariant ray == old(ray) && flags == old(flags) && minT == old(minT)
        invariant Probe(didHit, t, normalDir) == BoxTrace(Probe(false, old(t), old(normalDir)), flags, minT, L, a)
      {
        if Comp(L.d, a) != 0.0 {
          didHit := CrossPlane(L, a, -1.0, didHit);
          didHit := CrossPlane(L, a, 1.0, didHit);
        }
      }
      return didHit;
    }

    /**
     * One of rayAABB's two plane tests (trace.cpp:189-203 for side = -1,
     * 206-220 for side = +1): the crossing of the plane side*hs[a] is taken
     * when it lies strictly inside (min_t, t), within the box on the other
     * axis, and the flags want a ray entering (d[a] > 0 at the min plane,
     * d[a] < 0 at the max plane) or leaving there.
     */
    method CrossPlane(L: Local, a: nat, side: real, didHit: bool) returns (hit: bool)
      requires a < 2 && Comp(L.d, a) != 0.0
      modifies this
      ensures ray == old(ray) && flags == old(flags) && minT == old(minT)
      ensures Probe(hit, t, normalDir) == PlaneTest(Probe(didHit, old(t), old(normalDir)), flags, minT, L, a, side)
    {
      hit := didHit;
      var tp := (side * Comp(L.hs, a) - Comp(L.p, a)) / Comp(L.d, a);
      assert tp == PlaneT(L, a, side);
      if minT < tp && tp < t {
        var other := Comp(L.p, 1 - a) + tp * Comp(L.d, 1 - a);
        if Abs(other) <= Comp(L.hs, 1 - a) {
          if Matches(if side < 0.0 then Comp(L.d, a) > 0.0 else Comp(L.d, a) < 0.0) {
            hit := true;
            t := tp;
            normalDir := AxisNormal(a, side);
          }
        }
      }
    }

    /**
     * ray_circleCCD (trace.cpp:294-379): the circle morphs from c0 to c1
     * while t runs over [0,1]; the source asserts t <= 1.
     */
    method RayCircleCcd(c0: Circle, c1: Circle, sqrt: real -> real) returns (hit: bool)
      requires IsSqrt(sqrt) && SanityCheck() && t <= 1.0
      modifies this
      ensures ray == old(ray) && flags == old(flags) && minT == old(minT)
      ensures Applied(CcdHit(ray, IsEntering(), minT, old(t), c0, c1, sqrt), hit, t, normalDir, old(t), old(normalDir))
    {
      var q := CcdQuadOf(ray, c0, c1);
      var sign := if IsEntering() then -1.0 else 1.0;
      var x := SolveQuadratic(q.a, q.b, q.c, sign, sqrt);
      if x.Some? && minT < x.value && x.value < t {
        t := x.value;
        normalDir := Sub(MovingCenter(c0, c1, x.value), Vectors.At(ray, x.value));
        if Dot(normalDir, ray.d) > 0.0 {
          normalDir := Neg(normalDir);
        }
        return true;
      } else {
        return false;
      }
    }
  }
}
