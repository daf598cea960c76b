/**
 * The 2D ray tracers of trace.hpp / trace.cpp. A TraceInfo is the "closest
 * hit so far" accumulator: every tracer either narrows its t and sets a
 * normal, or leaves it as it was. The decisions of each tracer are stated as
 * pure functions over values (CircleHit, CapsuleHit, BoxTrace, CcdHit) and
 * the methods of TraceInfo are proved to apply exactly those decisions.
 */
module Trace {
  import opened Numeric
  import opened Vectors
  import Capsules
  import Boxes

  /** The Flags enum: COLLIDE_ENTERING = 1, COLLIDE_LEAVING = 2. */
  const ENTERING: bv8 := 1
  const LEAVING: bv8 := 2

  /** entering(): the COLLIDE_ENTERING bit is set. */
  predicate FlagEntering(flags: bv8)
  {
    flags & ENTERING != 0
  }

  /** leaving(): the COLLIDE_LEAVING bit is set. */
  predicate FlagLeaving(flags: bv8)
  {
    flags & LEAVING != 0
  }

  /** matches(ray_is_entering): an entering crossing needs the entering bit, a leaving one the leaving bit. */
  function MatchesFlags(flags: bv8, rayIsEntering: bool): (r: bool)
    ensures rayIsEntering ==> (r <==> FlagEntering(flags))
    ensures !rayIsEntering ==> (r <==> FlagLeaving(flags))
  {
    if rayIsEntering && FlagEntering(flags) then true
    else if !rayIsEntering && FlagLeaving(flags) then true
    else false
  }

  /** The two enum values pass the flag part of sanity_check; their union does not. */
  lemma FlagValues()
    ensures FlagEntering(ENTERING) && !FlagLeaving(ENTERING)
    ensures FlagLeaving(LEAVING) && !FlagEntering(LEAVING)
    ensures FlagEntering(ENTERING | LEAVING) && FlagLeaving(ENTERING | LEAVING)
  {
  }

  /** An accepted hit: the new t and the (not necessarily unit) normal_dir. */
  datatype Hit = Hit(t: real, normal: Vec2)

  /** The t a record holds after a tracer answered h. */
  function Narrow(t: real, h: Option<Hit>): real
  {
    if h.Some? then h.value.t else t
  }

  // ---------------------------------------------------------------- ray_circle

  /**
   * The monic quadratic x^2 + 2a*x + b = 0 of ray_circle, whose roots are
   * the ray parameters where the ray meets the circle: incl = dot(d, R),
   * a = incl / |d|^2, b = (|R|^2 - rad^2) / |d|^2 with R = o - center, and
   * the discriminant under = a^2 - b.
   */
  datatype CircleQuad = CircleQuad(incl: real, a: real, b: real, under: real)

  function CircleQuadOf(ray: Ray, c: Circle): (q: CircleQuad)
    requires ray.d != Zero2
    ensures q.incl == Dot(ray.d, Sub(ray.o, c.p)) && q.incl == LengthSq(ray.d) * q.a
  {
    LengthSqNonzero(ray.d);
    var R := Sub(ray.o, c.p);
    var d2inv := 1.0 / LengthSq(ray.d);
    var incl := Dot(ray.d, R);
    var a := incl * d2inv;
    var b := (LengthSq(R) - c.rad * c.rad) * d2inv;
    CircleQuad(incl, a, b, a * a - b)
  }

  /** The squared distance from the circle's center to ray.at(s), less rad^2. */
  function CircleGap(ray: Ray, c: Circle, s: real): real
  {
    LengthSq(Sub(Vectors.At(ray, s), c.p)) - c.rad * c.rad
  }

  /**
   * The quadratic is the circle equation divided by |d|^2: the ray point at s
   * is outside, on or inside the circle as (s + a)^2 - under is positive,
   * zero or negative.
   */
  lemma CircleQuadratic(ray: Ray, c: Circle, s: real)
    requires ray.d != Zero2
    ensures var q := CircleQuadOf(ray, c);
      CircleGap(ray, c, s) == ScaledGap(LengthSq(ray.d), s + q.a, q.under)
  {
    var q := CircleQuadOf(ray, c);
    var L := LengthSq(ray.d);
    var R := Sub(ray.o, c.p);
    LengthSqNonzero(ray.d);
    assert L * q.b == LengthSq(R) - c.rad * c.rad;
    assert Sub(Vectors.At(ray, s), c.p) == Add(R, Scale(s, ray.d));
    assert LengthSq(Add(R, Scale(s, ray.d))) == LengthSq(R) + 2.0 * s * q.incl + s * s * L;
    assert (s + q.a) * (s + q.a) - q.under == s * s + 2.0 * s * q.a + q.b;
  }

  /** L * (u^2 - under): the circle equation in terms of u = s + a. */
  function ScaledGap(L: real, u: real, under: real): real
  {
    L * (u * u - under)
  }

  /** The root ray_circle picks: -a - sqrt(under) when entering, -a + sqrt(under) when leaving. */
  function CircleRoot(q: CircleQuad, entering: bool, sqrt: real -> real): real
  {
    var sign := if entering then -1.0 else 1.0;
    -q.a + sign * sqrt(q.under)
  }

  /** normal_dir = -sign * (ray.d*x + R) */
  function CircleNormal(ray: Ray, c: Circle, entering: bool, x: real): Vec2
  {
    var sign := if entering then -1.0 else 1.0;
    Scale(-sign, Add(Scale(x, ray.d), Sub(ray.o, c.p)))
  }

  /**
   * ray_circle as trace.cpp:14-68 writes it, squared range pre-checks
   * included: sign * (a + t)^2 < sign * under rejects as too far away and
   * sign * (a + min_t)^2 > sign * under as too close.
   */
  function CircleHitAsWritten(ray: Ray, entering: bool, minT: real, t: real, c: Circle, sqrt: real -> real): (h: Option<Hit>)
    requires IsSqrt(sqrt) && ray.d != Zero2
    ensures h.Some? ==> h == CircleHit(ray, entering, minT, t, c, sqrt)
  {
    var q := CircleQuadOf(ray, c);
    var sign := if entering then -1.0 else 1.0;
    if entering && q.incl > 0.0 then None
    else if q.under <= 0.0 then None
    else if sign * ((q.a + t) * (q.a + t)) < sign * q.under then None
    else if sign * ((q.a + minT) * (q.a + minT)) > sign * q.under then None
    else
      var x := CircleRoot(q, entering, sqrt);
      if x <= minT then None
      else if x > t then None
      else
        var y := Clamp(x, minT, t);
        Some(Hit(y, CircleNormal(ray, c, entering, y)))
  }

  /**
   * ray_circle with only the exact window tests of trace.cpp:57-60: the
   * chosen root must lie in (min_t, t]. Rejects a receding entering ray
   * (dot(d, R) > 0) and a ray that misses or only grazes the circle
   * (under <= 0), and accepts every other ray whose root is in the window.
   */
  function CircleHit(ray: Ray, entering: bool, minT: real, t: real, c: Circle, sqrt: real -> real): (h: Option<Hit>)
    requires IsSqrt(sqrt) && ray.d != Zero2
    ensures h.Some? ==> minT < h.value.t <= t
    ensures h.Some? ==> h.value.t == CircleRoot(CircleQuadOf(ray, c), entering, sqrt)
    ensures h.Some? ==> 0.0 < CircleQuadOf(ray, c).under
    ensures entering && CircleQuadOf(ray, c).incl > 0.0 ==> h.None?
    ensures CircleQuadOf(ray, c).under <= 0.0 ==> h.None?
    ensures (!(entering && CircleQuadOf(ray, c).incl > 0.0) && 0.0 < CircleQuadOf(ray, c).under
      && minT < CircleRoot(CircleQuadOf(ray, c), entering, sqrt) <= t) ==> h.Some?
  {
    var q := CircleQuadOf(ray, c);
    if entering && q.incl > 0.0 then None
    else if q.under <= 0.0 then None
    else
      var x := CircleRoot(q, entering, sqrt);
      if x <= minT then None
      else if x > t then None
      else
        var y := Clamp(x, minT, t);
        Some(Hit(y, CircleNormal(ray, c, entering, y)))
  }

  /** An accepted circle hit lies on the circle. */
  lemma CircleHitOnCircle(ray: Ray, entering: bool, minT: real, t: real, c: Circle, sqrt: real -> real)
    requires IsSqrt(sqrt) && ray.d != Zero2
    requires CircleHit(ray, entering, minT, t, c, sqrt).Some?
    ensures CircleGap(ray, c, CircleHit(ray, entering, minT, t, c, sqrt).value.t) == 0.0
  {
    CircleRootOnCircle(ray, c, entering, sqrt);
  }

  /** Both roots of the quadratic are ray parameters on the circle. */
  lemma CircleRootOnCircle(ray: Ray, c: Circle, entering: bool, sqrt: real -> real)
    requires IsSqrt(sqrt) && ray.d != Zero2
    requires 0.0 < CircleQuadOf(ray, c).under
    ensures CircleGap(ray, c, CircleRoot(CircleQuadOf(ray, c), entering, sqrt)) == 0.0
  {
    var q := CircleQuadOf(ray, c);
    var x := CircleRoot(q, entering, sqrt);
    var s := sqrt(q.under);
    var sign := if entering then -1.0 else 1.0;
    assert x + q.a == sign * s;
    assert s * s == q.under;
    CircleQuadratic(ray, c, x);
    RootGapZero(CircleGap(ray, c, x), LengthSq(ray.d), x + q.a, s, q.under, sign);
  }

  /** gap = L*(u^2 - under) vanishes when u = ±s and s^2 = under. */
  lemma RootGapZero(gap: real, L: real, u: real, s: real, under: real, sign: real)
    requires sign == -1.0 || sign == 1.0
    requires gap == ScaledGap(L, u, under) && u == sign * s && s * s == under
    ensures gap == 0.0
  {
    assert u * u == s * s;
  }

  /**
   * The normal of an accepted circle hit is the radius through the hit
   * point, outward when entering and inward when leaving, and it faces
   * against the ray: dot(normal_dir, d) < 0.
   */
  lemma CircleHitNormal(ray: Ray, entering: bool, minT: real, t: real, c: Circle, sqrt: real -> real)
    requires IsSqrt(sqrt) && ray.d != Zero2
    requires CircleHit(ray, entering, minT, t, c, sqrt).Some?
    ensures var h := CircleHit(ray, entering, minT, t, c, sqrt).value;
      h.normal == (if entering then Sub(Vectors.At(ray, h.t), c.p) else Sub(c.p, Vectors.At(ray, h.t)))
      && Dot(h.normal, ray.d) < 0.0
  {
    var h := CircleHit(ray, entering, minT, t, c, sqrt).value;
    CircleNormalShape(ray, c, entering, h.t);
    CircleRootAgainstRay(ray, c, entering, sqrt);
  }

  /** The normal at either root of a crossing ray faces against the ray. */
  lemma CircleRootAgainstRay(ray: Ray, c: Circle, entering: bool, sqrt: real -> real)
    requires IsSqrt(sqrt) && ray.d != Zero2
    requires 0.0 < CircleQuadOf(ray, c).under
    ensures Dot(CircleNormal(ray, c, entering, CircleRoot(CircleQuadOf(ray, c), entering, sqrt)), ray.d) < 0.0
  {
    var q := CircleQuadOf(ray, c);
    var x := CircleRoot(q, entering, sqrt);
    var sign := if entering then -1.0 else 1.0;
    LengthSqNonzero(ray.d);
    LengthSqNonneg(ray.d);
    SqrtPositive(sqrt, q.under);
    CircleNormalDot(ray, c, entering, x);
    NormalAgainstRay(LengthSq(ray.d), sqrt(q.under), x, q.a, q.incl, sign);
  }

  lemma CircleNormalShape(ray: Ray, c: Circle, entering: bool, x: real)
    ensures CircleNormal(ray, c, entering, x)
      == (if entering then Sub(Vectors.At(ray, x), c.p) else Sub(c.p, Vectors.At(ray, x)))
  {
  }

  lemma CircleNormalDot(ray: Ray, c: Circle, entering: bool, x: real)
    ensures var sign := if entering then -1.0 else 1.0;
      Dot(CircleNormal(ray, c, entering, x), ray.d) == -sign * (x * LengthSq(ray.d) + Dot(ray.d, Sub(ray.o, c.p)))
  {
    var sign := if entering then -1.0 else 1.0;
    var v := Add(Scale(x, ray.d), Sub(ray.o, c.p));
    DotScaled(-sign, v, ray.d);
    DotAlong(x, ray.d, Sub(ray.o, c.p));
  }

  lemma DotScaled(k: real, v: Vec2, d: Vec2)
    ensures Dot(Scale(k, v), d) == k * Dot(v, d)
  {
  }

  lemma DotAlong(x: real, d: Vec2, w: Vec2)
    ensures Dot(Add(Scale(x, d), w), d) == x * LengthSq(d) + Dot(d, w)
  {
  }

  /** -sign * (x*L + incl) < 0 when incl = L*a and x = -a + sign*s with L, s > 0. */
  lemma NormalAgainstRay(L: real, s: real, x: real, a: real, incl: real, sign: real)
    requires 0.0 < L && 0.0 < s && incl == L * a
    requires sign == -1.0 || sign == 1.0
    requires x == -a + sign * s
    ensures -sign * (x * L + incl) < 0.0
  {
    assert x * L + incl == L * (x + a);
    MulPos(L, s);
    if sign == -1.0 {
      assert -sign * (x * L + incl) == -(L * s);
    } else {
      assert -sign * (x * L + incl) == -(L * s);
    }
  }

  lemma MulPos(a: real, b: real)
    requires 0.0 < a && 0.0 < b
    ensures 0.0 < a * b
  {
  }

  /**
   * An accepted hit is the first contact (entering) or the last (leaving):
   * for entering rays every ray point before the hit is strictly outside the
   * circle, for leaving rays every ray point after it.
   */
  lemma {:induction false} CircleHitIsExtreme(ray: Ray, entering: bool, minT: real, t: real, c: Circle, sqrt: real -> real, s: real)
    requires IsSqrt(sqrt) && ray.d != Zero2
    requires CircleHit(ray, entering, minT, t, c, sqrt).Some?
    requires var x := CircleHit(ray, entering, minT, t, c, sqrt).value.t; if entering then s < x else x < s
    ensures 0.0 < CircleGap(ray, c, s)
  {
    var q := CircleQuadOf(ray, c);
    var r := sqrt(q.under);
    CircleQuadratic(ray, c, s);
    LengthSqNonzero(ray.d);
    LengthSqNonneg(ray.d);
    ScaledGapPositive(LengthSq(ray.d), s + q.a, r, q.under);
  }

  /** Beyond the roots (|u| > r with r^2 = under) the scaled gap is positive. */
  lemma ScaledGapPositive(L: real, u: real, r: real, under: real)
    requires 0.0 <= L && L != 0.0
    requires 0.0 <= r && r * r == under
    requires u < -r || r < u
    ensures 0.0 < ScaledGap(L, u, under)
  {
    if u < -r {
      SquareStrictMono(r, -u);
    } else {
      SquareStrictMono(r, u);
    }
    MulPos(L, u * u - under);
  }

  /** Rejecting under <= 0 loses nothing: the ray then never gets strictly inside the circle. */
  lemma CircleMissNeverInside(ray: Ray, c: Circle, s: real)
    requires ray.d != Zero2
    requires CircleQuadOf(ray, c).under <= 0.0
    ensures 0.0 <= CircleGap(ray, c, s)
  {
    var q := CircleQuadOf(ray, c);
    CircleQuadratic(ray, c, s);
    LengthSqNonneg(ray.d);
    ScaledGapNonneg(LengthSq(ray.d), s + q.a, q.under);
  }

  lemma ScaledGapNonneg(L: real, u: real, under: real)
    requires 0.0 <= L && under <= 0.0
    ensures 0.0 <= ScaledGap(L, u, under)
  {
    assert 0.0 <= u * u;
    MulNonneg(L, u * u - under);
  }

  /**
   * The entering early-out loses nothing: a receding ray's entering root is
   * negative, so the window test with min_t >= 0 would reject it anyway.
   */
  lemma EnteringEarlyOutSound(ray: Ray, minT: real, c: Circle, sqrt: real -> real)
    requires IsSqrt(sqrt) && ray.d != Zero2
    requires 0.0 <= minT
    requires CircleQuadOf(ray, c).incl > 0.0 && 0.0 < CircleQuadOf(ray, c).under
    ensures CircleRoot(CircleQuadOf(ray, c), true, sqrt) < minT
  {
    var q := CircleQuadOf(ray, c);
    LengthSqNonzero(ray.d);
    LengthSqNonneg(ray.d);
    if q.a <= 0.0 {
      MulNonpos(LengthSq(ray.d), q.a);
    }
    SqrtPositive(sqrt, q.under);
  }

  lemma MulNonpos(a: real, b: real)
    requires 0.0 <= a && b <= 0.0
    ensures a * b <= 0.0
  {
    MulNonneg(a, -b);
  }

  /**
   * The squared pre-checks of the source miss every entering ray whose
   * window reaches past the far side of the circle: when t lies beyond the
   * exit root -a + sqrt(under), (a + t)^2 exceeds under and the "too far
   * away" test fires, although the entering root lies inside the window.
   */
  lemma CircleHitAsWrittenMissesThrough(ray: Ray, minT: real, t: real, c: Circle, sqrt: real -> real)
    requires IsSqrt(sqrt) && ray.d != Zero2
    requires var q := CircleQuadOf(ray, c); q.incl <= 0.0 && 0.0 < q.under
    requires minT < CircleRoot(CircleQuadOf(ray, c), true, sqrt) <= t
    requires var q := CircleQuadOf(ray, c); sqrt(q.under) < q.a + t
    ensures CircleHit(ray, true, minT, t, c, sqrt).Some?
    ensures CircleHitAsWritten(ray, true, minT, t, c, sqrt).None?
  {
    var q := CircleQuadOf(ray, c);
    SqrtPositive(sqrt, q.under);
    SquareStrictMono(sqrt(q.under), q.a + t);
  }

  /**
   * Such rays exist: o = (-5,0), d = (1,0) against the unit circle at the
   * origin gives incl = -5, a = -5, b = 24, under = 1. With window (0, 10]
   * the ray enters at x = 4 and leaves at x = 6 < 10.
   */
  lemma PassThroughQuad()
    ensures CircleQuadOf(Ray(Vec2(-5.0, 0.0), Vec2(1.0, 0.0)), Circle(Vec2(0.0, 0.0), 1.0))
      == CircleQuad(-5.0, -5.0, 24.0, 1.0)
  {
    assert LengthSq(Vec2(1.0, 0.0)) == 1.0;
  }

  lemma PassThroughRoots(sqrt: real -> real)
    requires IsSqrt(sqrt)
    ensures var q := CircleQuad(-5.0, -5.0, 24.0, 1.0);
      CircleRoot(q, true, sqrt) == 4.0 && CircleRoot(q, false, sqrt) == 6.0 && sqrt(q.under) < q.a + 10.0
  {
    SqrtUnique(sqrt, 1.0, 1.0);
  }

  // ---------------------------------------------------------------- quadratic solvers

  /** x^2 + b*x + c */
  function Monic(b: real, c: real, x: real): real
  {
    x * x + b * x + c
  }

  /** a*x^2 + b*x + c */
  function Quadratic(a: real, b: real, c: real, x: real): real
  {
    a * x * x + b * x + c
  }

  /** solve_X_C(a, b): the root of a*x + b = 0; the source asserts a != 0. */
  function SolveLinear(a: real, b: real): (x: real)
    requires a != 0.0
    ensures a * x + b == 0.0
  {
    -b / a
  }

  /**
   * The root picker ray_circleCCD hands to the solver,
   * sign * max(sign*x0, sign*x1): the smaller root for sign = -1 (entering),
   * the larger for sign = +1 (leaving).
   */
  function PickRoot(sign: real, x0: real, x1: real): (r: real)
    requires sign == -1.0 || sign == 1.0
    ensures sign == -1.0 ==> r == Min(x0, x1)
    ensures sign == 1.0 ==> r == Max(x0, x1)
  {
    sign * Max(sign * x0, sign * x1)
  }

  /**
   * solve_X2_X_C(b, c, rp) for x^2 + b*x + c = 0: c == 0 gives rp(0, -b), a
   * negative discriminant (b/2)^2 - c gives NaN (None), a zero one the double
   * root -b/2, otherwise rp(-b/2 - s, -b/2 + s) with s its square root.
   */
  function SolveMonic(b: real, c: real, sign: real, sqrt: real -> real): (r: Option<real>)
    requires sign == -1.0 || sign == 1.0
    ensures IsSqrt(sqrt) && r.Some? ==> Monic(b, c, r.value) == 0.0
  {
    MonicRoots(b, c, sqrt);
    if c == 0.0 then Some(PickRoot(sign, 0.0, -b))
    else
      var b2 := b / 2.0;
      var under := MonicUnder(b, c);
      if under < 0.0 then None
      else if under == 0.0 then Some(-b2)
      else
        var s := sqrt(under);
        Some(PickRoot(sign, -b2 - s, -b2 + s))
  }

  /** The discriminant (b/2)^2 - c of x^2 + b*x + c. */
  function MonicUnder(b: real, c: real): real
  {
    (b / 2.0) * (b / 2.0) - c
  }

  /** Completing the square: x^2 + b*x + c = (x + b/2)^2 - ((b/2)^2 - c). */
  lemma MonicCompleted(b: real, c: real, x: real)
    ensures Monic(b, c, x) == ShiftedGap(x + b / 2.0, MonicUnder(b, c))
  {
  }

  /** u^2 - under */
  function ShiftedGap(u: real, under: real): real
  {
    u * u - under
  }

  /** Every answer of SolveMonic is a root. */
  /**
   * The candidates SolveMonic can return are roots: 0 and -b when c == 0,
   * -b/2 for a zero discriminant, -b/2 -+ s for a positive one.
   */
  lemma MonicRoots(b: real, c: real, sqrt: real -> real)
    ensures c == 0.0 ==> Monic(b, c, 0.0) == 0.0 && Monic(b, c, -b) == 0.0
    ensures MonicUnder(b, c) == 0.0 ==> Monic(b, c, -(b / 2.0)) == 0.0
    ensures IsSqrt(sqrt) && 0.0 < MonicUnder(b, c) ==>
      var s := sqrt(MonicUnder(b, c));
      Monic(b, c, -(b / 2.0) - s) == 0.0 && Monic(b, c, -(b / 2.0) + s) == 0.0
  {
    var b2 := b / 2.0;
    var under := MonicUnder(b, c);
    MonicCompleted(b, c, -b2);
    if IsSqrt(sqrt) && 0.0 < under {
      var s := sqrt(under);
      MonicCompleted(b, c, -b2 - s);
      MonicCompleted(b, c, -b2 + s);
      ShiftedGapRoot(-b2 - s + b2, -s, under);
      ShiftedGapRoot(-b2 + s + b2, s, under);
    }
  }

  /** (u^2 - under) vanishes at u = v whenever v^2 = under. */
  lemma ShiftedGapRoot(u: real, v: real, under: real)
    requires u == v && v * v == under
    ensures ShiftedGap(u, under) == 0.0
  {
  }

  /**
   * SolveMonic picks the extreme root: no root is smaller than its answer
   * when sign = -1, and none is larger when sign = +1.
   */
  lemma SolveMonicExtreme(b: real, c: real, sign: real, sqrt: real -> real, y: real)
    requires IsSqrt(sqrt) && (sign == -1.0 || sign == 1.0)
    requires SolveMonic(b, c, sign, sqrt).Some?
    requires Monic(b, c, y) == 0.0
    ensures sign == -1.0 ==> SolveMonic(b, c, sign, sqrt).value <= y
    ensures sign == 1.0 ==> y <= SolveMonic(b, c, sign, sqrt).value
  {
    var under := MonicUnder(b, c);
    if c == 0.0 {
      MonicExtremeNoConstant(b, sign, y);
    } else if under == 0.0 {
      MonicExtremeDouble(b, c, y);
    } else {
      MonicExtremeTwo(b, c, sign, sqrt(under), y);
    }
  }

  /** With c = 0 the roots are 0 and -b. */
  lemma MonicExtremeNoConstant(b: real, sign: real, y: real)
    requires (sign == -1.0 || sign == 1.0) && Monic(b, 0.0, y) == 0.0
    ensures sign == -1.0 ==> PickRoot(sign, 0.0, -b) <= y
    ensures sign == 1.0 ==> y <= PickRoot(sign, 0.0, -b)
  {
    assert y * (y + b) == 0.0;
    ZeroProduct(y, y + b);
  }

  /** A zero discriminant leaves the single root -b/2. */
  lemma MonicExtremeDouble(b: real, c: real, y: real)
    requires MonicUnder(b, c) == 0.0 && Monic(b, c, y) == 0.0
    ensures y == -b / 2.0
  {
    MonicCompleted(b, c, y);
    Vectors.ProductsZero(y + b / 2.0, y + b / 2.0, 0.0, 0.0);
  }

  /** A positive discriminant with square root s leaves the roots -b/2 - s and -b/2 + s. */
  lemma MonicExtremeTwo(b: real, c: real, sign: real, s: real, y: real)
    requires (sign == -1.0 || sign == 1.0) && Monic(b, c, y) == 0.0
    requires 0.0 <= s && s * s == MonicUnder(b, c)
    ensures sign == -1.0 ==> PickRoot(sign, -b / 2.0 - s, -b / 2.0 + s) <= y
    ensures sign == 1.0 ==> y <= PickRoot(sign, -b / 2.0 - s, -b / 2.0 + s)
  {
    MonicCompleted(b, c, y);
    SquareRootsOf(y + b / 2.0, s, MonicUnder(b, c));
  }

  lemma ZeroProduct(u: real, v: real)
    requires u * v == 0.0
    ensures u == 0.0 || v == 0.0
  {
    if u != 0.0 {
      assert v == (u * v) / u;
    }
  }

  /** u^2 = s^2 with s >= 0 leaves u = s or u = -s. */
  lemma SquareRootsOf(u: real, s: real, under: real)
    requires 0.0 <= s && s * s == under && ShiftedGap(u, under) == 0.0
    ensures u == s || u == -s
  {
    if 0.0 <= u {
      SquareInjective(u, s);
    } else {
      assert (-u) * (-u) == u * u;
      SquareInjective(-u, s);
    }
  }

  /** When SolveMonic answers NaN there is no real root at all. */
  lemma SolveMonicNone(b: real, c: real, sign: real, sqrt: real -> real, y: real)
    requires sign == -1.0 || sign == 1.0
    requires SolveMonic(b, c, sign, sqrt).None?
    ensures Monic(b, c, y) != 0.0
  {
    MonicCompleted(b, c, y);
    var u := y + b / 2.0;
    assert 0.0 <= u * u;
  }

  /**
   * solve_X2_X_C(a, b, c, rp): the linear solve_X_C(b, c) when a == 0,
   * otherwise the monic solver on (b/a, c/a). With a == b == 0 the source's
   * -c/0 is not finite (None).
   */
  function SolveQuadratic(a: real, b: real, c: real, sign: real, sqrt: real -> real): (r: Option<real>)
    requires sign == -1.0 || sign == 1.0
    ensures IsSqrt(sqrt) && r.Some? ==> Quadratic(a, b, c, r.value) == 0.0
  {
    if a == 0.0 then
      if b == 0.0 then None else Some(SolveLinear(b, c))
    else
      var m := SolveMonic(b / a, c / a, sign, sqrt);
      if m.Some? then QuadraticMonic(a, b, c, m.value); m else m
  }

  /** Dividing by a != 0 turns the quadratic into the monic one. */
  lemma QuadraticMonic(a: real, b: real, c: real, x: real)
    requires a != 0.0
    ensures Quadratic(a, b, c, x) == a * Monic(b / a, c / a, x)
  {
    assert a * (b / a) == b;
    assert a * (c / a) == c;
  }

  /**
   * SolveQuadratic picks the extreme root: the smallest when sign = -1, the
   * largest when sign = +1.
   */
  lemma SolveQuadraticExtreme(a: real, b: real, c: real, sign: real, sqrt: real -> real, y: real)
    requires IsSqrt(sqrt) && (sign == -1.0 || sign == 1.0)
    requires SolveQuadratic(a, b, c, sign, sqrt).Some?
    requires Quadratic(a, b, c, y) == 0.0
    ensures sign == -1.0 ==> SolveQuadratic(a, b, c, sign, sqrt).value <= y
    ensures sign == 1.0 ==> y <= SolveQuadratic(a, b, c, sign, sqrt).value
  {
    if a != 0.0 {
      QuadraticMonic(a, b, c, y);
      ZeroProduct(a, Monic(b / a, c / a, y));
      SolveMonicExtreme(b / a, c / a, sign, sqrt, y);
    } else {
      assert b * y + c == 0.0;
      assert y == -c / b;
    }
  }

  // ---------------------------------------------------------------- ray_circleCCD

  /**
   * The coefficients of ray_circleCCD's quadratic a*t^2 + b*t + c = 0 for a
   * circle moving from c0 to c1 while the ray moves by d, both over
   * t in [0,1]: V = c0 - o, D = (c1 - c0) - d, rd = r1 - r0,
   * a = |D|^2 - rd^2, b = 2*(D.V - r0*rd), c = |V|^2 - r0^2.
   */
  datatype CcdQuad = CcdQuad(a: real, b: real, c: real)

  function CcdQuadOf(ray: Ray, c0: Circle, c1: Circle): CcdQuad
  {
    var cd := Sub(c1.p, c0.p);
    var rd := c1.rad - c0.rad;
    var V := Sub(c0.p, ray.o);
    var D := Sub(cd, ray.d);
    CcdQuad(LengthSq(D) - rd * rd, 2.0 * (Dot(D, V) - c0.rad * rd), LengthSq(V) - c0.rad * c0.rad)
  }

  /** The moving circle's center c0 + cd*t at time t. */
  function MovingCenter(c0: Circle, c1: Circle, t: real): Vec2
  {
    Add(c0.p, Scale(t, Sub(c1.p, c0.p)))
  }

  /** The moving circle's radius r0 + t*rd at time t. */
  function MovingRadius(c0: Circle, c1: Circle, t: real): real
  {
    c0.rad + t * (c1.rad - c0.rad)
  }

  /** |C(t) - P(t)|^2 - R(t)^2: zero exactly when the ray point is on the moving circle. */
  function CcdGap(ray: Ray, c0: Circle, c1: Circle, t: real): real
  {
    LengthSq(Sub(MovingCenter(c0, c1, t), Vectors.At(ray, t))) - MovingRadius(c0, c1, t) * MovingRadius(c0, c1, t)
  }

  /** The derivation in trace.cpp: the circle equation at time t is the quadratic. */
  lemma CcdQuadratic(ray: Ray, c0: Circle, c1: Circle, t: real)
    ensures var q := CcdQuadOf(ray, c0, c1);
      CcdGap(ray, c0, c1, t) == Quadratic(q.a, q.b, q.c, t)
  {
    var V := Sub(c0.p, ray.o);
    var D := Sub(Sub(c1.p, c0.p), ray.d);
    MovingOffset(ray, c0, c1, t);
    CcdPolynomial(V, D, c0.rad, c1.rad - c0.rad, t);
  }

  /** C(t) - P(t) = (c0 - o) + t*((c1 - c0) - d) */
  lemma MovingOffset(ray: Ray, c0: Circle, c1: Circle, t: real)
    ensures Sub(MovingCenter(c0, c1, t), Vectors.At(ray, t)) == Add(Sub(c0.p, ray.o), Scale(t, Sub(Sub(c1.p, c0.p), ray.d)))
  {
    Distribute(t, c1.p.x - c0.p.x, ray.d.x);
    Distribute(t, c1.p.y - c0.p.y, ray.d.y);
  }

  lemma Distribute(t: real, a: real, b: real)
    ensures t * a - t * b == t * (a - b)
  {
  }

  /** |V + t*D|^2 - (r0 + t*rd)^2 as a polynomial in t. */
  lemma CcdPolynomial(V: Vec2, D: Vec2, r0: real, rd: real, t: real)
    ensures LengthSq(Add(V, Scale(t, D))) - (r0 + t * rd) * (r0 + t * rd)
      == Quadratic(LengthSq(D) - rd * rd, 2.0 * (Dot(D, V) - r0 * rd), LengthSq(V) - r0 * r0, t)
  {
    LengthSqAffine(V, D, t);
    RadiusSquared(r0, rd, t);
    CcdCombine(t, LengthSq(V), Dot(D, V), LengthSq(D), r0, rd);
  }

  /** |V + t*D|^2 = |V|^2 + 2t(D.V) + t^2|D|^2 */
  lemma LengthSqAffine(V: Vec2, D: Vec2, t: real)
    ensures LengthSq(Add(V, Scale(t, D))) == LengthSq(V) + 2.0 * t * Dot(D, V) + t * t * LengthSq(D)
  {
  }

  /** (r0 + t*rd)^2 = r0^2 + 2t*r0*rd + t^2*rd^2 */
  lemma RadiusSquared(r0: real, rd: real, t: real)
    ensures (r0 + t * rd) * (r0 + t * rd) == r0 * r0 + 2.0 * t * r0 * rd + t * t * rd * rd
  {
  }

  lemma CcdCombine(t: real, lv: real, dv: real, ld: real, r0: real, rd: real)
    ensures (lv + 2.0 * t * dv + t * t * ld) - (r0 * r0 + 2.0 * t * r0 * rd + t * t * rd * rd)
      == Quadratic(ld - rd * rd, 2.0 * (dv - r0 * rd), lv - r0 * r0, t)
  {
  }

  /**
   * ray_circleCCD (trace.cpp:342-378): solve the quadratic for the smallest
   * root when entering (the largest when leaving), accept a finite root
   * strictly inside (min_t, t), and set the normal to C(x) - P(x), flipped
   * when it points along the ray.
   */
  function CcdHit(ray: Ray, entering: bool, minT: real, t: real, c0: Circle, c1: Circle, sqrt: real -> real): (h: Option<Hit>)
    ensures h.Some? ==> minT < h.value.t < t
    ensures h.Some? ==> Dot(h.value.normal, ray.d) <= 0.0
  {
    var q := CcdQuadOf(ray, c0, c1);
    var sign := if entering then -1.0 else 1.0;
    var x := SolveQuadratic(q.a, q.b, q.c, sign, sqrt);
    if x.Some? && minT < x.value && x.value < t then
      var n := Sub(MovingCenter(c0, c1, x.value), Vectors.At(ray, x.value));
      DotNeg(n, ray.d);
      Some(Hit(x.value, if Dot(n, ray.d) > 0.0 then Neg(n) else n))
    else None
  }

  lemma DotNeg(n: Vec2, d: Vec2)
    ensures Dot(Neg(n), d) == -Dot(n, d)
  {
  }

  /**
   * An accepted swept hit is a time at which the ray point lies on the
   * moving circle, and it is the first such time (entering) or the last
   * (leaving) of all.
   */
  lemma CcdHitOnCircle(ray: Ray, entering: bool, minT: real, t: real, c0: Circle, c1: Circle, sqrt: real -> real, y: real)
    requires IsSqrt(sqrt)
    requires CcdHit(ray, entering, minT, t, c0, c1, sqrt).Some?
    ensures CcdGap(ray, c0, c1, CcdHit(ray, entering, minT, t, c0, c1, sqrt).value.t) == 0.0
    ensures CcdGap(ray, c0, c1, y) == 0.0 ==>
      if entering then CcdHit(ray, entering, minT, t, c0, c1, sqrt).value.t <= y
      else y <= CcdHit(ray, entering, minT, t, c0, c1, sqrt).value.t
  {
    var q := CcdQuadOf(ray, c0, c1);
    var sign := if entering then -1.0 else 1.0;
    var x := CcdHit(ray, entering, minT, t, c0, c1, sqrt).value.t;
    CcdQuadratic(ray, c0, c1, x);
    CcdQuadratic(ray, c0, c1, y);
    if CcdGap(ray, c0, c1, y) == 0.0 {
      SolveQuadraticExtreme(q.a, q.b, q.c, sign, sqrt, y);
    }
  }

  // ---------------------------------------------------------------- rayAABB

  /** v[a] for the axis a in {0, 1}. */
  function Comp(v: Vec2, a: nat): real
    requires a < 2
  {
    if a == 0 then v.x else v.y
  }

  /**
   * Vec2(0,0) with normal_dir[a] = s: the axis normal rayAABB sets, with
   * exactly one non-zero component.
   */
  function AxisNormal(a: nat, s: real): (n: Vec2)
    requires a < 2
    ensures Comp(n, a) == s && Comp(n, 1 - a) == 0.0
  {
    if a == 0 then Vec2(s, 0.0) else Vec2(0.0, s)
  }

  /**
   * The box frame of rayAABB: p = ray origin - box center, d = ray
   * direction, hs = half the box size.
   */
  datatype Local = Local(p: Vec2, d: Vec2, hs: Vec2)

  /** What rayAABB carries between its plane tests: did_hit, ti.t and ti.normal_dir. */
  datatype Probe = Probe(hit: bool, t: real, normal: Vec2)

  /**
   * The ray parameter where the ray crosses the plane side*hs[a] of axis a:
   * tMin for side = -1, tMax for side = +1.
   */
  function PlaneT(L: Local, a: nat, side: real): real
    requires a < 2 && Comp(L.d, a) != 0.0
  {
    (side * Comp(L.hs, a) - Comp(L.p, a)) / Comp(L.d, a)
  }

  /**
   * The argument rayAABB hands to matches(): d[a] > 0 at the min plane,
   * d[a] < 0 at the max plane, i.e. whether the ray enters the slab there.
   */
  predicate CrossingEnters(L: Local, a: nat, side: real)
    requires a < 2
  {
    if side < 0.0 then Comp(L.d, a) > 0.0 else Comp(L.d, a) < 0.0
  }

  /**
   * A plane crossing rayAABB would take against the limit t: strictly inside
   * (min_t, t), within the box on the other axis (|other| <= hs, the closed
   * test of trace.cpp:193 and 210) and wanted by the flags.
   */
  predicate Accepted(flags: bv8, minT: real, t: real, L: Local, a: nat, side: real)
    requires a < 2
  {
    Comp(L.d, a) != 0.0 &&
    var tp := PlaneT(L, a, side);
    minT < tp < t
    && Abs(Comp(L.p, 1 - a) + tp * Comp(L.d, 1 - a)) <= Comp(L.hs, 1 - a)
    && MatchesFlags(flags, CrossingEnters(L, a, side))
  }

  /**
   * One plane test of rayAABB (trace.cpp:189-203 for side = -1, 206-220 for
   * side = +1): the crossing is taken when it lies strictly inside
   * (min_t, t), within the box on the other axis and matches the flags.
   */
  function PlaneTest(pr: Probe, flags: bv8, minT: real, L: Local, a: nat, side: real): Probe
    requires a < 2 && Comp(L.d, a) != 0.0
  {
    var tp := PlaneT(L, a, side);
    var other := Comp(L.p, 1 - a) + tp * Comp(L.d, 1 - a);
    if minT < tp && tp < pr.t && Abs(other) <= Comp(L.hs, 1 - a) && MatchesFlags(flags, CrossingEnters(L, a, side))
    then Probe(true, tp, AxisNormal(a, side))
    else pr
  }

  /**
   * The body of rayAABB's loop for axis a: the min plane test, then the max
   * plane test against the t the first one may have narrowed. An axis the
   * ray runs parallel to (d[a] == 0) is skipped: the source's quotients are
   * then infinite or NaN and both window tests fail.
   */
  function BoxAxis(pr: Probe, flags: bv8, minT: real, L: Local, a: nat): Probe
    requires a < 2
  {
    if Comp(L.d, a) == 0.0 then pr
    else PlaneTest(PlaneTest(pr, flags, minT, L, a, -1.0), flags, minT, L, a, 1.0)
  }

  /** rayAABB's loop over the first n axes, starting from the record's state. */
  function BoxTrace(start: Probe, flags: bv8, minT: real, L: Local, n: nat): Probe
    requires n <= 2
  {
    if n == 0 then start
    else BoxAxis(BoxTrace(start, flags, minT, L, n - 1), flags, minT, L, n - 1)
  }

  /**
   * One axis either leaves the probe as it was or takes one of its two
   * plane crossings that is accepted against the probe's t; it never moves
   * t up.
   */
  lemma BoxAxisStep(pr: Probe, flags: bv8, minT: real, L: Local, a: nat)
    requires a < 2
    ensures var r := BoxAxis(pr, flags, minT, L, a);
      r.t <= pr.t &&
      (r == pr ||
       exists side: real :: (side == -1.0 || side == 1.0) && Accepted(flags, minT, pr.t, L, a, side)
                            && r == Probe(true, PlaneT(L, a, side), AxisNormal(a, side)))
  {
    if Comp(L.d, a) != 0.0 {
      var pr1 := PlaneTest(pr, flags, minT, L, a, -1.0);
      PlaneTestStep(pr, flags, minT, L, a, -1.0);
      PlaneTestStep(pr1, flags, minT, L, a, 1.0);
      if PlaneTest(pr1, flags, minT, L, a, 1.0) != pr1 {
        AcceptedNarrower(flags, minT, pr1.t, pr.t, L, a, 1.0);
      }
    }
  }

  /** A plane test either keeps the probe or takes its crossing, accepted against the probe's t. */
  lemma PlaneTestStep(pr: Probe, flags: bv8, minT: real, L: Local, a: nat, side: real)
    requires a < 2 && Comp(L.d, a) != 0.0
    ensures var r := PlaneTest(pr, flags, minT, L, a, side);
      r.t <= pr.t &&
      (r == pr || (Accepted(flags, minT, pr.t, L, a, side) && r == Probe(true, PlaneT(L, a, side), AxisNormal(a, side))))
  {
  }

  /** An accepted crossing of axis a is never passed over: the axis ends at or before it. */
  lemma BoxAxisClosest(pr: Probe, flags: bv8, minT: real, L: Local, a: nat, side: real)
    requires a < 2 && (side == -1.0 || side == 1.0)
    requires Accepted(flags, minT, pr.t, L, a, side)
    ensures BoxAxis(pr, flags, minT, L, a).t <= PlaneT(L, a, side)
  {
    var pr1 := PlaneTest(pr, flags, minT, L, a, -1.0);
    PlaneTestStep(pr1, flags, minT, L, a, 1.0);
    if side == -1.0 {
      PlaneTestTakes(pr, flags, minT, L, a, side);
    } else if PlaneT(L, a, side) < pr1.t {
      AcceptedNarrower(flags, minT, pr.t, pr1.t, L, a, side);
      PlaneTestTakes(pr1, flags, minT, L, a, side);
    } else {
      PlaneTestStep(pr, flags, minT, L, a, -1.0);
    }
  }

  /** A crossing accepted against the probe's t is taken. */
  lemma PlaneTestTakes(pr: Probe, flags: bv8, minT: real, L: Local, a: nat, side: real)
    requires a < 2 && Accepted(flags, minT, pr.t, L, a, side)
    ensures PlaneTest(pr, flags, minT, L, a, side) == Probe(true, PlaneT(L, a, side), AxisNormal(a, side))
  {
  }

  /** Acceptance against a larger limit carries over to a smaller one the crossing still lies below. */
  lemma AcceptedNarrower(flags: bv8, minT: real, t: real, t2: real, L: Local, a: nat, side: real)
    requires a < 2
    requires Accepted(flags, minT, t, L, a, side) && (t <= t2 || PlaneT(L, a, side) < t2)
    ensures Accepted(flags, minT, t2, L, a, side)
  {
  }

  /** r is the crossing of plane side*hs[a], accepted against start's t. */
  predicate HitAt(start: Probe, flags: bv8, minT: real, L: Local, n: nat, r: Probe, a: nat, side: real)
  {
    a < n && a < 2 && (side == -1.0 || side == 1.0) && Accepted(flags, minT, start.t, L, a, side)
    && r == Probe(true, PlaneT(L, a, side), AxisNormal(a, side))
  }

  /**
   * rayAABB either leaves the record untouched or ends on one accepted plane
   * crossing, with the axis normal of that plane; t never grows.
   */
  lemma {:induction false} BoxTraceHit(start: Probe, flags: bv8, minT: real, L: Local, n: nat)
    requires n <= 2
    ensures var r := BoxTrace(start, flags, minT, L, n);
      r.t <= start.t &&
      (r == start || exists a: nat, side: real :: a < n && HitAt(start, flags, minT, L, n, r, a, side))
  {
    if n > 0 {
      var prev := BoxTrace(start, flags, minT, L, n - 1);
      var r := BoxAxis(prev, flags, minT, L, n - 1);
      BoxTraceHit(start, flags, minT, L, n - 1);
      BoxAxisStep(prev, flags, minT, L, n - 1);
      if r != prev {
        var side: real :| (side == -1.0 || side == 1.0) && Accepted(flags, minT, prev.t, L, n - 1, side)
                           && r == Probe(true, PlaneT(L, n - 1, side), AxisNormal(n - 1, side));
        AcceptedNarrower(flags, minT, prev.t, start.t, L, n - 1, side);
        assert HitAt(start, flags, minT, L, n, r, n - 1, side);
      } else if prev != start {
        var a: nat, side: real :| a < n - 1 && HitAt(start, flags, minT, L, n - 1, prev, a, side);
        assert HitAt(start, flags, minT, L, n, r, a, side);
      }
    }
  }

  /**
   * rayAABB keeps the closest crossing: no accepted crossing of the first n
   * axes lies before the t it ends with.
   */
  lemma {:induction false} BoxTraceClosest(start: Probe, flags: bv8, minT: real, L: Local, n: nat, a: nat, side: real)
    requires n <= 2 && a < n && (side == -1.0 || side == 1.0)
    requires Accepted(flags, minT, start.t, L, a, side)
    ensures BoxTrace(start, flags, minT, L, n).t <= PlaneT(L, a, side)
  {
    var prev := BoxTrace(start, flags, minT, L, n - 1);
    BoxTraceHit(start, flags, minT, L, n - 1);
    BoxAxisStep(prev, flags, minT, L, n - 1);
    if a < n - 1 {
      BoxTraceClosest(start, flags, minT, L, n - 1, a, side);
    } else if PlaneT(L, a, side) < prev.t {
      AcceptedNarrower(flags, minT, start.t, prev.t, L, a, side);
      BoxAxisClosest(prev, flags, minT, L, a, side);
    }
  }

  /** The numeric half of AcceptedFace: where an accepted crossing lies in the local frame. */
  lemma AcceptedCrossing(flags: bv8, minT: real, t: real, L: Local, a: nat, side: real)
    requires a < 2 && (side == -1.0 || side == 1.0)
    requires Accepted(flags, minT, t, L, a, side)
    ensures Comp(L.d, a) != 0.0
    ensures Comp(L.p, a) + PlaneT(L, a, side) * Comp(L.d, a) == side * Comp(L.hs, a)
    ensures Abs(Comp(L.p, 1 - a) + PlaneT(L, a, side) * Comp(L.d, 1 - a)) <= Comp(L.hs, 1 - a)
  {
    var da := Comp(L.d, a);
    var num := side * Comp(L.hs, a) - Comp(L.p, a);
    assert PlaneT(L, a, side) * da == num;
  }

  /**
   * An accepted crossing lies on its face: the local point is at side*hs[a]
   * on axis a. Its normal faces against the ray for COLLIDE_ENTERING and
   * along it for COLLIDE_LEAVING.
   */
  lemma AcceptedFace(flags: bv8, minT: real, t: real, L: Local, a: nat, side: real)
    requires a < 2 && (side == -1.0 || side == 1.0)
    requires Accepted(flags, minT, t, L, a, side)
    ensures Comp(L.p, a) + PlaneT(L, a, side) * Comp(L.d, a) == side * Comp(L.hs, a)
    ensures Abs(Comp(L.p, 1 - a) + PlaneT(L, a, side) * Comp(L.d, 1 - a)) <= Comp(L.hs, 1 - a)
    ensures flags == ENTERING ==> Dot(AxisNormal(a, side), L.d) < 0.0
    ensures flags == LEAVING ==> Dot(AxisNormal(a, side), L.d) > 0.0
  {
    var da := Comp(L.d, a);
    var num := side * Comp(L.hs, a) - Comp(L.p, a);
    assert PlaneT(L, a, side) * da == num;
  }

  /** The frame rayAABB works in for the box lo..hi: p = o - center, hs = size / 2. */
  function BoxLocal(ray: Ray, lo: Vec2, hi: Vec2): Local
  {
    Local(Sub(ray.o, Boxes.Half(Add(lo, hi))), ray.d, Boxes.Half(Sub(hi, lo)))
  }

  /**
   * In world coordinates an accepted crossing of plane side*hs[a] is the
   * ray point on the box's min face (side = -1) or max face (side = +1) of
   * axis a, within the box on the other axis.
   */
  lemma AcceptedOnBox(flags: bv8, minT: real, t: real, ray: Ray, lo: Vec2, hi: Vec2, a: nat, side: real)
    requires a < 2 && (side == -1.0 || side == 1.0)
    requires Accepted(flags, minT, t, BoxLocal(ray, lo, hi), a, side)
    ensures var P := Vectors.At(ray, PlaneT(BoxLocal(ray, lo, hi), a, side));
      Comp(P, a) == (if side < 0.0 then Comp(lo, a) else Comp(hi, a))
      && Comp(lo, 1 - a) <= Comp(P, 1 - a) <= Comp(hi, 1 - a)
  {
    var L := BoxLocal(ray, lo, hi);
    AcceptedCrossing(flags, minT, t, L, a, side);
    LocalOnBox(ray, lo, hi, PlaneT(L, a, side), a, side);
  }

  /** FaceOnBox and OtherOnBox for one crossing. */
  lemma LocalOnBox(ray: Ray, lo: Vec2, hi: Vec2, tp: real, a: nat, side: real)
    requires a < 2 && (side == -1.0 || side == 1.0)
    requires var L := BoxLocal(ray, lo, hi); Comp(L.p, a) + tp * Comp(L.d, a) == side * Comp(L.hs, a)
    requires var L := BoxLocal(ray, lo, hi); Abs(Comp(L.p, 1 - a) + tp * Comp(L.d, 1 - a)) <= Comp(L.hs, 1 - a)
    ensures var P := Vectors.At(ray, tp);
      Comp(P, a) == (if side < 0.0 then Comp(lo, a) else Comp(hi, a))
      && Comp(lo, 1 - a) <= Comp(P, 1 - a) <= Comp(hi, 1 - a)
  {
    FaceOnBox(ray, lo, hi, tp, a, side);
    OtherOnBox(ray, lo, hi, tp, 1 - a);
  }

  /** A local point on plane side*hs[a] is, in world coordinates, on the min or max face. */
  lemma FaceOnBox(ray: Ray, lo: Vec2, hi: Vec2, tp: real, a: nat, side: real)
    requires a < 2 && (side == -1.0 || side == 1.0)
    requires var L := BoxLocal(ray, lo, hi); Comp(L.p, a) + tp * Comp(L.d, a) == side * Comp(L.hs, a)
    ensures Comp(Vectors.At(ray, tp), a) == (if side < 0.0 then Comp(lo, a) else Comp(hi, a))
  {
    var L := BoxLocal(ray, lo, hi);
    LocalAt(ray, lo, hi, tp, a);
    FaceCoord(Comp(L.p, a) + tp * Comp(L.d, a), Comp(lo, a), Comp(hi, a), Comp(L.hs, a), side);
  }

  /** A local point within hs[b] of the center is, in world coordinates, within the box on axis b. */
  lemma OtherOnBox(ray: Ray, lo: Vec2, hi: Vec2, tp: real, b: nat)
    requires b < 2
    requires var L := BoxLocal(ray, lo, hi); Abs(Comp(L.p, b) + tp * Comp(L.d, b)) <= Comp(L.hs, b)
    ensures Comp(lo, b) <= Comp(Vectors.At(ray, tp), b) <= Comp(hi, b)
  {
    var L := BoxLocal(ray, lo, hi);
    LocalAt(ray, lo, hi, tp, b);
    OtherCoord(Comp(L.p, b) + tp * Comp(L.d, b), Comp(lo, b), Comp(hi, b), Comp(L.hs, b));
  }

  /** The world point is the local point plus the center. */
  lemma LocalAt(ray: Ray, lo: Vec2, hi: Vec2, tp: real, a: nat)
    requires a < 2
    ensures var L := BoxLocal(ray, lo, hi);
      Comp(Vectors.At(ray, tp), a) == (Comp(L.p, a) + tp * Comp(L.d, a)) + (Comp(lo, a) + Comp(hi, a)) / 2.0
      && Comp(L.hs, a) == (Comp(hi, a) - Comp(lo, a)) / 2.0
  {
  }

  lemma FaceCoord(q: real, lo: real, hi: real, hs: real, side: real)
    requires (side == -1.0 || side == 1.0) && q == side * hs && hs == (hi - lo) / 2.0
    ensures q + (lo + hi) / 2.0 == (if side < 0.0 then lo else hi)
  {
  }

  lemma OtherCoord(q: real, lo: real, hi: real, hs: real)
    requires Abs(q) <= hs && hs == (hi - lo) / 2.0
    ensures lo <= q + (lo + hi) / 2.0 <= hi
  {
  }

  // ---------------------------------------------------------------- ray_capsule

  /**
   * The ray in the capsule's local frame (trace.cpp:124-126): origin and
   * direction as (dot(A, .), dot(N, .)), the origin taken from p0.
   */
  function CapsuleLocal(ray: Ray, cap: Capsules.CapsuleBaked): Ray
  {
    var R := Sub(ray.o, cap.cap.p0);
    Ray(Vec2(Dot(cap.a, R), Dot(cap.n, R)), Vec2(Dot(cap.a, ray.d), Dot(cap.n, ray.d)))
  }

  /**
   * t_test = min(tMin, tMax): the first time the local ray reaches one of
   * the two lines y = -rad and y = +rad.
   */
  function BodyT(l: Ray, rad: real): real
    requires l.d.y != 0.0
  {
    Min((-rad - l.o.y) / l.d.y, (rad - l.o.y) / l.d.y)
  }

  /**
   * ray_capsule (trace.cpp:112-167): a circle capsule is traced as its
   * circle. Otherwise, unless the ray runs parallel to the axis
   * (is_zero(d.y)), the first crossing of the body's border lines is taken:
   * before p0 along the axis the end circle 0 is traced, beyond length the
   * end circle 1, and in between the crossing itself is the hit when it lies
   * in [min_t, t), with normal N or -N, whichever faces the ray. A parallel
   * ray is traced against both end circles, the second with the t the first
   * may have narrowed.
   */
  function CapsuleHit(ray: Ray, entering: bool, minT: real, t: real, cap: Capsules.CapsuleBaked, sqrt: real -> real): (h: Option<Hit>)
    requires IsSqrt(sqrt) && ray.d != Zero2
    ensures h.Some? ==> minT <= h.value.t <= t
  {
    var c := cap.cap;
    if Capsules.IsCircle(c) then CircleHit(ray, entering, minT, t, Capsules.AsCircle(c), sqrt)
    else
      var l := CapsuleLocal(ray, cap);
      if !IsZero(l.d.y, EpsF) then CapsuleCross(ray, entering, minT, t, cap, sqrt, l)
      else CapsuleParallel(ray, entering, minT, t, cap, sqrt)
  }

  /** s = p.x + t_test * d.x: where along the axis the local ray crosses the border line. */
  function AxisPos(l: Ray, rad: real): real
    requires l.d.y != 0.0
  {
    l.o.x + BodyT(l, rad) * l.d.x
  }

  /**
   * The non-parallel branch (trace.cpp:130-157): the crossing t_test of the
   * body's border lines, at s along the axis, decides between end circle 0
   * (s < 0), end circle 1 (length < s) and the body itself.
   */
  function CapsuleCross(ray: Ray, entering: bool, minT: real, t: real, cap: Capsules.CapsuleBaked, sqrt: real -> real, l: Ray): (h: Option<Hit>)
    requires IsSqrt(sqrt) && ray.d != Zero2 && l.d.y != 0.0
    ensures h.Some? ==> minT <= h.value.t <= t
  {
    var tTest := BodyT(l, cap.cap.rad);
    var s := AxisPos(l, cap.cap.rad);
    if s < 0.0 then CircleHit(ray, entering, minT, t, Capsules.Circle0(cap.cap), sqrt)
    else if cap.length < s then CircleHit(ray, entering, minT, t, Capsules.Circle1(cap.cap), sqrt)
    else if minT <= tTest && tTest < t then Some(Hit(tTest, if l.d.y < 0.0 then cap.n else Neg(cap.n)))
    else None
  }

  /**
   * The parallel branch (trace.cpp:158-166): both end circles, the second
   * traced with the t the first may have narrowed; a hit of either counts.
   */
  function CapsuleParallel(ray: Ray, entering: bool, minT: real, t: real, cap: Capsules.CapsuleBaked, sqrt: real -> real): (h: Option<Hit>)
    requires IsSqrt(sqrt) && ray.d != Zero2
    ensures h.Some? ==> minT < h.value.t <= t
  {
    var h0 := CircleHit(ray, entering, minT, t, Capsules.Circle0(cap.cap), sqrt);
    var h1 := CircleHit(ray, entering, minT, Narrow(t, h0), Capsules.Circle1(cap.cap), sqrt);
    if h1.Some? then h1 else h0
  }

  /** A degenerate capsule (p0 == p1) is traced exactly as its circle. */
  lemma CapsuleHitCircle(ray: Ray, entering: bool, minT: real, t: real, cap: Capsules.CapsuleBaked, sqrt: real -> real)
    requires IsSqrt(sqrt) && ray.d != Zero2
    requires cap.cap.p0 == cap.cap.p1
    ensures CapsuleHit(ray, entering, minT, t, cap, sqrt) == CircleHit(ray, entering, minT, t, Circle(cap.cap.p0, cap.cap.rad), sqrt)
  {
  }

  /**
   * A ray parallel to the axis hits the capsule exactly when it hits one of
   * the end circles, and it keeps the nearer of the two hits.
   */
  lemma CapsuleHitParallel(ray: Ray, entering: bool, minT: real, t: real, cap: Capsules.CapsuleBaked, sqrt: real -> real)
    requires IsSqrt(sqrt) && ray.d != Zero2
    requires !Capsules.IsCircle(cap.cap) && IsZero(CapsuleLocal(ray, cap).d.y, EpsF)
    ensures var h0 := CircleHit(ray, entering, minT, t, Capsules.Circle0(cap.cap), sqrt);
      var h1 := CircleHit(ray, entering, minT, t, Capsules.Circle1(cap.cap), sqrt);
      var h := CapsuleHit(ray, entering, minT, t, cap, sqrt);
      (h.Some? <==> h0.Some? || h1.Some?)
      && (h.Some? && h0.Some? ==> h.value.t <= h0.value.t)
      && (h.Some? && h1.Some? ==> h.value.t <= h1.value.t)
  {
    var c := cap.cap;
    var h0 := CircleHit(ray, entering, minT, t, Capsules.Circle0(c), sqrt);
    if h0.Some? {
      var h1 := CircleHit(ray, entering, minT, t, Capsules.Circle1(c), sqrt);
      var h1n := CircleHit(ray, entering, minT, h0.value.t, Capsules.Circle1(c), sqrt);
      if h1.Some? && h1.value.t <= h0.value.t {
        assert h1n == h1;
      }
    }
  }

  /** Every capsule hit faces against the ray: dot(normal_dir, d) < 0. */
  lemma CapsuleHitAgainstRay(ray: Ray, entering: bool, minT: real, t: real, cap: Capsules.CapsuleBaked, sqrt: real -> real)
    requires IsSqrt(sqrt) && ray.d != Zero2
    requires CapsuleHit(ray, entering, minT, t, cap, sqrt).Some?
    ensures Dot(CapsuleHit(ray, entering, minT, t, cap, sqrt).value.normal, ray.d) < 0.0
  {
    var c := cap.cap;
    var h := CapsuleHit(ray, entering, minT, t, cap, sqrt);
    var l := CapsuleLocal(ray, cap);
    var h0 := CircleHit(ray, entering, minT, t, Capsules.Circle0(c), sqrt);
    var h1 := CircleHit(ray, entering, minT, t, Capsules.Circle1(c), sqrt);
    if Capsules.IsCircle(c) {
      CircleHitNormal(ray, entering, minT, t, Capsules.AsCircle(c), sqrt);
    } else if !IsZero(l.d.y, EpsF) {
      if h == h0 {
        CircleHitNormal(ray, entering, minT, t, Capsules.Circle0(c), sqrt);
      } else if h == h1 {
        CircleHitNormal(ray, entering, minT, t, Capsules.Circle1(c), sqrt);
      } else {
        assert h.value.normal == cap.n || h.value.normal == Neg(cap.n);
        DotNeg(cap.n, ray.d);
      }
    } else {
      var h1n := CircleHit(ray, entering, minT, Narrow(t, h0), Capsules.Circle1(c), sqrt);
      if h1n.Some? {
        CircleHitNormal(ray, entering, minT, Narrow(t, h0), Capsules.Circle1(c), sqrt);
      } else {
        CircleHitNormal(ray, entering, minT, t, Capsules.Circle0(c), sqrt);
      }
    }
  }

  /**
   * The ray reaches the capsule's body between the end circles: the capsule
   * is not a circle, the ray is not parallel to the axis and the crossing
   * t_test lies at s in [0, length] along it.
   */
  predicate BetweenEnds(ray: Ray, cap: Capsules.CapsuleBaked)
  {
    var l := CapsuleLocal(ray, cap);
    !Capsules.IsCircle(cap.cap) && !IsZero(l.d.y, EpsF) && l.d.y != 0.0
    && 0.0 <= AxisPos(l, cap.cap.rad) <= cap.length
  }

  /** The body hit at t_test, with normal N or -N, whichever faces the ray. */
  function BodyHit(ray: Ray, cap: Capsules.CapsuleBaked): Hit
    requires CapsuleLocal(ray, cap).d.y != 0.0
  {
    var l := CapsuleLocal(ray, cap);
    Hit(BodyT(l, cap.cap.rad), if l.d.y < 0.0 then cap.n else Neg(cap.n))
  }

  /** Between the end circles the capsule answers with its body hit, if that lies in [min_t, t). */
  lemma CapsuleHitBody(ray: Ray, entering: bool, minT: real, t: real, cap: Capsules.CapsuleBaked, sqrt: real -> real)
    requires IsSqrt(sqrt) && ray.d != Zero2 && BetweenEnds(ray, cap)
    ensures var b := BodyHit(ray, cap);
      CapsuleHit(ray, entering, minT, t, cap, sqrt) == if minT <= b.t < t then Some(b) else None
  {
    var l := CapsuleLocal(ray, cap);
    CapsuleHitCross(ray, entering, minT, t, cap, sqrt);
    CapsuleCrossBody(ray, entering, minT, t, cap, sqrt, l);
  }

  lemma CapsuleHitCross(ray: Ray, entering: bool, minT: real, t: real, cap: Capsules.CapsuleBaked, sqrt: real -> real)
    requires IsSqrt(sqrt) && ray.d != Zero2
    requires !Capsules.IsCircle(cap.cap) && !IsZero(CapsuleLocal(ray, cap).d.y, EpsF)
    ensures CapsuleLocal(ray, cap).d.y != 0.0
    ensures CapsuleHit(ray, entering, minT, t, cap, sqrt) == CapsuleCross(ray, entering, minT, t, cap, sqrt, CapsuleLocal(ray, cap))
  {
  }

  lemma CapsuleCrossBody(ray: Ray, entering: bool, minT: real, t: real, cap: Capsules.CapsuleBaked, sqrt: real -> real, l: Ray)
    requires IsSqrt(sqrt) && ray.d != Zero2 && l.d.y != 0.0
    requires 0.0 <= AxisPos(l, cap.cap.rad) <= cap.length
    ensures var tt := BodyT(l, cap.cap.rad);
      CapsuleCross(ray, entering, minT, t, cap, sqrt, l)
        == if minT <= tt < t then Some(Hit(tt, if l.d.y < 0.0 then cap.n else Neg(cap.n))) else None
  {
  }

  /**
   * A body hit of a capsule with rad >= 0 lies on the side of the capsule
   * the normal points to: rad away from the axis line along the normal, and
   * between p0 and p1 along the axis.
   */
  lemma BodyHitOnSide(ray: Ray, cap: Capsules.CapsuleBaked)
    requires 0.0 <= cap.cap.rad && BetweenEnds(ray, cap)
    ensures var h := BodyHit(ray, cap);
      var P := Sub(Vectors.At(ray, h.t), cap.cap.p0);
      Dot(h.normal, P) == cap.cap.rad && 0.0 <= Dot(cap.a, P) <= cap.length
  {
    var l := CapsuleLocal(ray, cap);
    var tt := BodyT(l, cap.cap.rad);
    var P := Sub(Vectors.At(ray, tt), cap.cap.p0);
    LocalDot(cap.a, ray, cap.cap.p0, tt);
    LocalDot(cap.n, ray, cap.cap.p0, tt);
    BodyLine(l, cap.cap.rad);
    DotNeg(cap.n, P);
  }

  /** dot(v, ray.at(s) - p0) = dot(v, o - p0) + s * dot(v, d) */
  lemma LocalDot(v: Vec2, ray: Ray, p0: Vec2, s: real)
    ensures Dot(v, Sub(Vectors.At(ray, s), p0)) == Dot(v, Sub(ray.o, p0)) + s * Dot(v, ray.d)
  {
  }

  /**
   * The local y at t_test: the first of the lines y = -rad, y = +rad the
   * ray meets is y = -rad when it moves up (dy > 0) and y = +rad when it
   * moves down.
   */
  lemma BodyLine(l: Ray, rad: real)
    requires l.d.y != 0.0 && 0.0 <= rad
    ensures l.o.y + BodyT(l, rad) * l.d.y == (if l.d.y < 0.0 then rad else -rad)
  {
    var y, dy := l.o.y, l.d.y;
    var t0, t1 := (-rad - y) / dy, (rad - y) / dy;
    assert t0 * dy == -rad - y;
    assert t1 * dy == rad - y;
    if dy < 0.0 {
      assert t1 <= t0 by {
        if t0 < t1 {
          MulNegFlip(t0, t1, dy);
        }
      }
    } else {
      assert t0 <= t1 by {
        if t1 < t0 {
          MulPosKeep(t1, t0, dy);
        }
      }
    }
  }

  lemma MulNegFlip(x: real, y: real, k: real)
    requires x < y && k < 0.0
    ensures y * k < x * k
  {
    MulPos(y - x, -k);
  }

  lemma MulPosKeep(x: real, y: real, k: real)
    requires x < y && 0.0 < k
    ensures x * k < y * k
  {
    MulPos(y - x, k);
  }
}
