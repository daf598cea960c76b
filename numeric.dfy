/**
 * Scalar helpers of emath (math.hpp): clamping, interpolation, signs,
 * rounding to integers, ordering of two values and approximate equality.
 *
 * Floating point numbers are modelled as exact reals; NaN and infinities are
 * modelled where the source relies on them (Option results, ExtReal bounds).
 */
module Numeric {

  datatype Option<T> = None | Some(value: T)

  /** A float that may also be one of the two infinities (used as sentinels). */
  datatype ExtReal = NegInf | Fin(r: real) | PosInf

  predicate ExtLess(a: ExtReal, b: ExtReal)
  {
    match (a, b)
    case (NegInf, NegInf) => false
    case (NegInf, _) => true
    case (Fin(x), Fin(y)) => x < y
    case (Fin(_), PosInf) => true
    case (_, _) => false
  }

  predicate ExtLessEq(a: ExtReal, b: ExtReal)
  {
    a == b || ExtLess(a, b)
  }

  /** `<` on extended reals is a strict total order: not-less means at-least. */
  lemma ExtLessTotal(a: ExtReal, b: ExtReal)
    ensures !ExtLess(a, b) <==> ExtLessEq(b, a)
    ensures !(ExtLess(a, b) && ExtLess(b, a))
  {
  }

  /** clamp(x, min, max) on possibly infinite bounds. */
  function ExtClamp(x: ExtReal, lo: ExtReal, hi: ExtReal): (r: ExtReal)
    ensures ExtLessEq(lo, hi) ==> ExtLessEq(lo, r) && ExtLessEq(r, hi)
    ensures ExtLessEq(lo, x) && ExtLessEq(x, hi) ==> r == x
    ensures r == x || r == lo || r == hi
  {
    if ExtLess(x, lo) then lo else if ExtLess(hi, x) then hi else x
  }

  /** min(a, b) = a<b ? a : b on possibly infinite floats. */
  function ExtMin(a: ExtReal, b: ExtReal): (r: ExtReal)
    ensures ExtLessEq(r, a) && ExtLessEq(r, b)
    ensures r == a || r == b
  {
    if ExtLess(a, b) then a else b
  }

  /** max(a, b) = b<a ? a : b on possibly infinite floats. */
  function ExtMax(a: ExtReal, b: ExtReal): (r: ExtReal)
    ensures ExtLessEq(a, r) && ExtLessEq(b, r)
    ensures r == a || r == b
  {
    if ExtLess(b, a) then a else b
  }

  /**
   * std::sqrt is not part of the model's arithmetic: every operation that
   * needs it takes it as a parameter that must behave as the square root.
   */
  ghost predicate IsSqrt(sqrt: real -> real)
  {
    forall x: real :: 0.0 <= x ==> 0.0 <= sqrt(x) && sqrt(x) * sqrt(x) == x
  }

  lemma SqrtUnique(sqrt: real -> real, x: real, y: real)
    requires IsSqrt(sqrt)
    requires 0.0 <= y && y * y == x
    ensures sqrt(x) == y
  {
    SquareInjective(sqrt(x), y);
  }

  lemma SqrtMonotone(sqrt: real -> real, x: real, y: real)
    requires IsSqrt(sqrt)
    requires 0.0 <= x <= y
    ensures sqrt(x) <= sqrt(y)
  {
    var a, b := sqrt(x), sqrt(y);
    if b < a {
      SquareStrictMono(b, a);
    }
  }

  /** The square root of a positive number is positive. */
  lemma SqrtPositive(sqrt: real -> real, x: real)
    requires IsSqrt(sqrt)
    requires 0.0 <= x && x != 0.0
    ensures 0.0 < sqrt(x)
  {
    assert sqrt(x) * sqrt(x) == x;
  }

  /** For r >= 0, sqrt(x) < r exactly when x < r*r. */
  lemma SqrtLess(sqrt: real -> real, x: real, r: real)
    requires IsSqrt(sqrt)
    requires 0.0 <= x && 0.0 <= r
    ensures sqrt(x) < r <==> x < r * r
  {
    var s := sqrt(x);
    if s < r {
      SquareStrictMono(s, r);
    } else if x < r * r {
      SquareMono(r, s);
    }
  }

  lemma SquareMono(a: real, b: real)
    requires 0.0 <= a <= b
    ensures a * a <= b * b
  {
    if a < b {
      SquareStrictMono(a, b);
    }
  }

  lemma MulNonneg(a: real, b: real)
    requires 0.0 <= a && 0.0 <= b
    ensures 0.0 <= a * b
  {
  }

  lemma SquareStrictMono(a: real, b: real)
    requires 0.0 <= a < b
    ensures a * a < b * b
  {
    var d := b - a;
    assert b * b == a * a + 2.0 * a * d + d * d;
    assert 0.0 < d * d;
    assert 0.0 <= a * d;
  }

  lemma SquareInjective(a: real, b: real)
    requires 0.0 <= a && 0.0 <= b && a * a == b * b
    ensures a == b
  {
    if a < b {
      SquareStrictMono(a, b);
    } else if b < a {
      SquareStrictMono(b, a);
    }
  }

  /** Float-to-int conversion (C++ `int(f)`): truncation toward zero. */
  function Trunc(f: real): (r: int)
    ensures 0.0 <= f ==> 0 <= r && r as real <= f < r as real + 1.0
    ensures f < 0.0 ==> r <= 0 && r as real - 1.0 < f <= r as real
  {
    if 0.0 <= f then f.Floor else -((-f).Floor)
  }

  /** C++ `/` on signed integers: the quotient is truncated toward zero. */
  function TruncDiv(a: int, b: int): (q: int)
    requires b != 0
    ensures a == q * b + TruncMod(a, b)
  {
    if 0 <= a then
      (if 0 < b then a / b else -(a / -b))
    else
      (if 0 < b then -((-a) / b) else (-a) / (-b))
  }

  /** C++ `%` on signed integers: the remainder takes the sign of the dividend. */
  function TruncMod(a: int, b: int): (m: int)
    requires b != 0
    ensures 0 <= a ==> 0 <= m < IntAbs(b)
    ensures a < 0 ==> -(IntAbs(b) as int) < m <= 0
  {
    if 0 <= a then a % IntAbs(b) else -((-a) % IntAbs(b))
  }

  function IntAbs(i: int): nat
  {
    if i < 0 then -i else i
  }

  // ---------------------------------------------------------------- clamp

  /** clamp(x, min, max) */
  function Clamp(x: real, lo: real, hi: real): (r: real)
    ensures lo <= hi ==> lo <= r <= hi
    ensures lo <= x <= hi ==> r == x
    ensures r == x || r == lo || r == hi
  {
    if x < lo then lo else if x > hi then hi else x
  }

  /** Clamping is the nearest point of [lo, hi]: applying it twice changes nothing. */
  lemma ClampIdempotent(x: real, lo: real, hi: real)
    requires lo <= hi
    ensures Clamp(Clamp(x, lo, hi), lo, hi) == Clamp(x, lo, hi)
  {
  }

  /** saturate(x) = clamp(x, 0, 1) */
  function Saturate(x: real): (r: real)
    ensures 0.0 <= r <= 1.0
    ensures 0.0 <= x <= 1.0 ==> r == x
    ensures x < 0.0 ==> r == 0.0
    ensures 1.0 < x ==> r == 1.0
  {
    Clamp(x, 0.0, 1.0)
  }

  /** lerp(a, b, t) = a*(1-t) + b*t */
  function Lerp(a: real, b: real, t: real): (r: real)
    ensures t == 0.0 ==> r == a
    ensures t == 1.0 ==> r == b
  {
    a * (1.0 - t) + b * t
  }

  /** For t in [0,1] the interpolated value lies between the two ends. */
  lemma LerpBetween(a: real, b: real, t: real)
    requires 0.0 <= t <= 1.0
    ensures Min(a, b) <= Lerp(a, b, t) <= Max(a, b)
  {
    var r := Lerp(a, b, t);
    assert r == a + (b - a) * t;
    var d, u := b - a, 1.0 - t;
    if 0.0 <= d {
      MulNonneg(d, t);
      MulNonneg(d, u);
    } else {
      MulNonneg(-d, t);
      MulNonneg(-d, u);
    }
    assert d - d * t == d * u;
  }

  // ---------------------------------------------------------------- min / max

  /** min(a, b) = a<b ? a : b */
  function Min(a: real, b: real): (r: real)
    ensures r <= a && r <= b
    ensures r == a || r == b
  {
    if a < b then a else b
  }

  /** max(a, b) = b<a ? a : b */
  function Max(a: real, b: real): (r: real)
    ensures a <= r && b <= r
    ensures r == a || r == b
  {
    if b < a then a else b
  }

  lemma MinLeMax(a: real, b: real)
    ensures Min(a, b) <= Max(a, b)
    ensures Min(a, b) + Max(a, b) == a + b
  {
  }

  /** min3(a, b, c) = min(a, min(b, c)) */
  function Min3(a: real, b: real, c: real): (r: real)
    ensures r <= a && r <= b && r <= c
    ensures r == a || r == b || r == c
  {
    Min(a, Min(b, c))
  }

  /** max3(a, b, c) = max(a, max(b, c)) */
  function Max3(a: real, b: real, c: real): (r: real)
    ensures a <= r && b <= r && c <= r
    ensures r == a || r == b || r == c
  {
    Max(a, Max(b, c))
  }

  // ---------------------------------------------------------------- abs / sign

  /** abs(f) = f<0 ? -f : f */
  function Abs(f: real): (r: real)
    ensures 0.0 <= r
    ensures r == f || r == -f
  {
    if f < 0.0 then -f else f
  }

  /** sign(val): -1, 0 or +1. */
  function Sign(v: real): (r: int)
    ensures r == -1 <==> v < 0.0
    ensures r == 0 <==> v == 0.0
    ensures r == 1 <==> 0.0 < v
  {
    if v < 0.0 then -1 else if v > 0.0 then 1 else 0
  }

  /** sign(v) * v is |v|: the sign recombines with the magnitude. */
  lemma SignTimesAbs(v: real)
    ensures Sign(v) as real * Abs(v) == v
  {
  }

  // ---------------------------------------------------------------- sort

  /** sort(a, b): swaps the two references when b < a. */
  method Sort(a: real, b: real) returns (a': real, b': real)
    ensures a' <= b'
    ensures multiset{a', b'} == multiset{a, b}
    ensures a <= b ==> a' == a && b' == b
  {
    a', b' := a, b;
    if b' < a' {
      a', b' := b', a';
    }
  }

  // ---------------------------------------------------------------- zero / equals

  /** Default epsilon for floats, Eps<float>() = 2e-5. */
  const EpsF: real := 0.00002

  /** is_zero(v, eps) = abs(v) <= eps */
  predicate IsZero(v: real, eps: real)
  {
    Abs(v) <= eps
  }

  lemma IsZeroWindow(v: real, eps: real)
    ensures IsZero(v, eps) <==> -eps <= v <= eps
  {
  }

  /** equals(a, b, eps) = abs(a-b) < eps (the active branch). */
  predicate Equals(a: real, b: real, eps: real)
  {
    Abs(a - b) < eps
  }

  lemma EqualsWindow(a: real, b: real, eps: real)
    ensures Equals(a, b, eps) <==> a - eps < b < a + eps
    ensures Equals(a, b, eps) == Equals(b, a, eps)
  {
  }

  // ---------------------------------------------------------------- rounding

  /**
   * round_to_int(f) = int(f < 0 ? f-0.5 : f+0.5): the nearest integer, with
   * halfway cases rounded away from zero.
   */
  function RoundToInt(f: real): (r: int)
    ensures r as real - 0.5 <= f <= r as real + 0.5
    ensures f - r as real == 0.5 ==> f < 0.0
    ensures r as real - f == 0.5 ==> 0.0 < f
    ensures (r < 0 ==> f < 0.0) && (0 < r ==> 0.0 < f)
  {
    Trunc(if f < 0.0 then f - 0.5 else f + 0.5)
  }

  lemma RoundToIntExamples()
    ensures RoundToInt(0.4) == 0 && RoundToInt(0.5) == 1 && RoundToInt(0.6) == 1
    ensures RoundToInt(-0.4) == 0 && RoundToInt(-0.5) == -1 && RoundToInt(-0.6) == -1
  {
  }

  /**
   * round_to_uint(f) = unsigned(f + 0.5). The conversion is defined only when
   * the truncated value fits an unsigned int.
   */
  function RoundToUint(f: real): (r: nat)
    requires -1.0 < f + 0.5 < 4294967296.0
    ensures r < 4294967296
    ensures -0.5 <= f ==> r as real - 0.5 <= f < r as real + 0.5
    ensures f < 0.5 ==> r == 0
  {
    Trunc(f + 0.5)
  }

  lemma RoundToUintExamples()
    ensures RoundToUint(0.4) == 0 && RoundToUint(0.5) == 1 && RoundToUint(0.6) == 1
  {
  }
}
