/**
 * The small vector types the geometry is written in (vec2.hpp, vec3.hpp,
 * vec4.hpp, ray.hpp, circle.hpp): componentwise arithmetic, dot and cross
 * products and the two quarter turns.
 */
module Vectors {
  import Numeric

  datatype Vec2 = Vec2(x: real, y: real)

  const Zero2: Vec2 := Vec2(0.0, 0.0)

  function Add(a: Vec2, b: Vec2): Vec2 { Vec2(a.x + b.x, a.y + b.y) }
  function Sub(a: Vec2, b: Vec2): Vec2 { Vec2(a.x - b.x, a.y - b.y) }
  function Neg(a: Vec2): Vec2 { Vec2(-a.x, -a.y) }
  function Scale(s: real, a: Vec2): Vec2 { Vec2(s * a.x, s * a.y) }
  function Dot(a: Vec2, b: Vec2): real { a.x * b.x + a.y * b.y }

  /** cross(a, b) = a.x*b.y - a.y*b.x */
  function Cross(a: Vec2, b: Vec2): real { a.x * b.y - a.y * b.x }

  /** rot90CCW(v) = {-v.y, v.x} */
  function Rot90CCW(v: Vec2): Vec2 { Vec2(-v.y, v.x) }

  /** rot90CW(v) = {v.y, -v.x} */
  function Rot90CW(v: Vec2): Vec2 { Vec2(v.y, -v.x) }

  function LengthSq(v: Vec2): real { v.x * v.x + v.y * v.y }
  function DistanceSq(a: Vec2, b: Vec2): real { LengthSq(Sub(a, b)) }

  /** length(v) = sqrt(length_sq(v)), with std::sqrt passed in. */
  function Length(v: Vec2, sqrt: real -> real): real { sqrt(LengthSq(v)) }
  function Distance(a: Vec2, b: Vec2, sqrt: real -> real): real { Length(Sub(a, b), sqrt) }

  /** lerp(a, b, t) = a*(1-t) + b*t, componentwise. */
  function Lerp2(a: Vec2, b: Vec2, t: real): Vec2
  {
    Vec2(Numeric.Lerp(a.x, b.x, t), Numeric.Lerp(a.y, b.y, t))
  }

  /** A squared length is never negative. */
  lemma LengthSqNonneg(v: Vec2)
    ensures 0.0 <= LengthSq(v)
  {
    assert 0.0 <= v.x * v.x;
    assert 0.0 <= v.y * v.y;
  }

  /** Only the zero vector has squared length zero. */
  lemma LengthSqZero(v: Vec2)
    requires LengthSq(v) == 0.0
    ensures v == Zero2
  {
    ProductsZero(v.x, v.x, v.y, v.y);
  }

  /** A non-zero vector has a non-zero squared length. */
  lemma LengthSqNonzero(v: Vec2)
    requires v != Zero2
    ensures LengthSq(v) != 0.0
  {
    ProductsNonzero(v.x, v.x, v.y, v.y);
  }

  lemma ProductsNonzero(x: real, x2: real, y: real, y2: real)
    requires x == x2 && y == y2 && (x != 0.0 || y != 0.0)
    ensures x * x2 + y * y2 != 0.0
  {
    if x * x2 + y * y2 == 0.0 {
      ProductsZero(x, x2, y, y2);
    }
  }

  /**
   * x*x2 + y*y2 == 0 with x == x2 and y == y2 forces x == y == 0; the
   * factors are kept as separate variables so that each sign case is a
   * product of two values.
   */
  lemma ProductsZero(x: real, x2: real, y: real, y2: real)
    requires x == x2 && y == y2 && x * x2 + y * y2 == 0.0
    ensures x == 0.0 && y == 0.0
  {
    if x < 0.0 {
      NegProduct(x, x2);
    } else if 0.0 < x {
      PosProduct(x, x2);
    }
    if y < 0.0 {
      NegProduct(y, y2);
    } else if 0.0 < y {
      PosProduct(y, y2);
    }
  }

  lemma NegProduct(x: real, x2: real)
    requires x < 0.0 && x == x2
    ensures 0.0 < x * x2
  {
  }

  lemma PosProduct(x: real, x2: real)
    requires 0.0 < x && x == x2
    ensures 0.0 < x * x2
  {
  }

  /** A ray o + t*d; d need not have unit length. */
  datatype Ray = Ray(o: Vec2, d: Vec2)

  function At(ray: Ray, t: real): Vec2 { Add(ray.o, Scale(t, ray.d)) }

  datatype Circle = Circle(p: Vec2, rad: real)

  /** Circle::contains(pos) = distance_sq(p, pos) <= sqr(rad) */
  predicate CircleContains(c: Circle, pos: Vec2)
  {
    DistanceSq(c.p, pos) <= c.rad * c.rad
  }

  datatype Vec3 = Vec3(x: real, y: real, z: real)

  function Add3(a: Vec3, b: Vec3): Vec3 { Vec3(a.x + b.x, a.y + b.y, a.z + b.z) }
  function Sub3(a: Vec3, b: Vec3): Vec3 { Vec3(a.x - b.x, a.y - b.y, a.z - b.z) }
  function Neg3(a: Vec3): Vec3 { Vec3(-a.x, -a.y, -a.z) }
  function Scale3(s: real, a: Vec3): Vec3 { Vec3(s * a.x, s * a.y, s * a.z) }
  function Dot3(a: Vec3, b: Vec3): real { a.x * b.x + a.y * b.y + a.z * b.z }
  function LengthSq3(a: Vec3): real { Dot3(a, a) }

  function Cross3(a: Vec3, b: Vec3): Vec3
  {
    Vec3(a.y * b.z - a.z * b.y, a.z * b.x - a.x * b.z, a.x * b.y - a.y * b.x)
  }

  datatype Vec4 = Vec4(x: real, y: real, z: real, w: real)

  function Add4(a: Vec4, b: Vec4): Vec4 { Vec4(a.x + b.x, a.y + b.y, a.z + b.z, a.w + b.w) }
  function Sub4(a: Vec4, b: Vec4): Vec4 { Vec4(a.x - b.x, a.y - b.y, a.z - b.z, a.w - b.w) }
  function Neg4(a: Vec4): Vec4 { Vec4(-a.x, -a.y, -a.z, -a.w) }
  function Dot4(a: Vec4, b: Vec4): real { a.x * b.x + a.y * b.y + a.z * b.z + a.w * b.w }
}
