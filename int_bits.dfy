/**
 * Integer helpers of emath (int.hpp): powers of two on size_t, multiples of
 * n and a modulo that is never negative.
 *
 * size_t is a 64-bit unsigned integer: bit operations use bv64, arithmetic
 * uses naturals reduced modulo 2^64 where the source can wrap around.
 * `unsigned` and `int` are 32 bits wide.
 */
module IntBits {
  import opened Numeric

  const TopBit: bv64 := 0x8000_0000_0000_0000
  const SizeRange: nat := 0x1_0000_0000_0000_0000
  const UintRange: nat := 0x1_0000_0000
  const IntMin: int := -0x8000_0000
  const IntMax: int := 0x7FFF_FFFF

  // ---------------------------------------------------------------- powers of two

  /**
   * is_power_of_two(k) = (k & (k-1)) == 0; this also holds for k == 0. A
   * non-zero k passes exactly when next_power_of_two leaves it unchanged,
   * i.e. smearing k-1 and adding one gives k back.
   */
  predicate IsPowerOfTwo(k: bv64)
    ensures k != 0 ==> (IsPowerOfTwo(k) <==> SmearSteps(k - 1) + 1 == k)
  {
    k & (k - 1) == 0
  }

  lemma ZeroCountsAsPowerOfTwo()
    ensures IsPowerOfTwo(0)
  {
  }

  /** Every single-bit value passes the test and no value with two bits does. */
  lemma PowerOfTwoBits(j: bv64, i: bv64)
    requires j < 64 && i < 64 && i != j
    ensures IsPowerOfTwo(1 << j)
    ensures !IsPowerOfTwo((1 << j) | (1 << i))
  {
  }

  /** One round of the loop of next_power_of_two: k | (k >> i). */
  function Step(k: bv64, i: bv64): bv64
    requires i < 64
  {
    k | (k >> i)
  }

  /** All six rounds: every bit below the highest set bit becomes set. */
  function SmearSteps(k: bv64): bv64
  {
    Step(Step(Step(Step(Step(Step(k, 1), 2), 4), 8), 16), 32)
  }

  /** The loop variable k once the shift has reached i. */
  function Stage(k: bv64, i: bv64): bv64
  {
    if i == 1 then k
    else if i == 2 then Step(k, 1)
    else if i == 4 then Step(Step(k, 1), 2)
    else if i == 8 then Step(Step(Step(k, 1), 2), 4)
    else if i == 16 then Step(Step(Step(Step(k, 1), 2), 4), 8)
    else if i == 32 then Step(Step(Step(Step(Step(k, 1), 2), 4), 8), 16)
    else SmearSteps(k)
  }

  /** The smeared value is a block of low ones: adding one clears it. */
  lemma SmearOnes(k: bv64)
    ensures SmearSteps(k) & (SmearSteps(k) + 1) == 0
  {
  }

  /** The smeared value keeps k's highest bit and sets nothing above it. */
  lemma SmearBounds(k: bv64)
    ensures k <= SmearSteps(k)
    ensures k == 0 ==> SmearSteps(k) == 0
    ensures k != 0 ==> (SmearSteps(k) >> 1) < k
  {
  }

  lemma SmearBelowTop(k: bv64)
    requires k < TopBit
    ensures SmearSteps(k) < TopBit
  {
  }

  lemma SmearTop(k: bv64)
    requires TopBit <= k
    ensures SmearSteps(k) == 0xFFFF_FFFF_FFFF_FFFF
  {
  }

  /** A block of low ones plus one is the next power of two above k. */
  lemma OnesPlusOne(k: bv64, s: bv64)
    requires s & (s + 1) == 0
    requires k <= s
    requires k == 0 ==> s == 0
    requires k != 0 ==> (s >> 1) < k
    requires s < TopBit
    ensures s + 1 != 0
    ensures IsPowerOfTwo(s + 1)
    ensures k < s + 1
    ensures ((s + 1) >> 1) <= k
  {
  }

  lemma OnesPlusOneBelowTop(k: bv64, s: bv64)
    requires s & (s + 1) == 0
    requires k <= s
    requires k == 0 ==> s == 0
    requires k != 0 ==> (s >> 1) < k
    requires k < TopBit
    requires s < TopBit
    ensures s + 1 != 0 && IsPowerOfTwo(s + 1) && k < s + 1 && ((s + 1) >> 1) <= k
  {
    OnesPlusOne(k, s);
  }

  /**
   * r is the least power of two above m (r > m and r/2 <= m) while one fits
   * in size_t, and 0 (the wrapped-around value) once m >= 2^63.
   */
  predicate LeastPowerAbove(m: bv64, r: bv64)
  {
    && (m < TopBit ==> r != 0 && IsPowerOfTwo(r) && m < r && (r >> 1) <= m)
    && (TopBit <= m ==> r == 0)
  }

  /**
   * s is m smeared: a block of low ones (s+1 clears it) that reaches m's
   * highest set bit and no further; these facts determine s.
   */
  predicate SmearedFrom(m: bv64, s: bv64)
  {
    && s & (s + 1) == 0
    && m <= s
    && (m == 0 ==> s == 0)
    && (m != 0 ==> (s >> 1) < m)
    && (m < TopBit ==> s < TopBit)
    && (TopBit <= m ==> s == 0xFFFF_FFFF_FFFF_FFFF)
  }

  lemma SmearStepsSmears(m: bv64)
    ensures SmearedFrom(m, SmearSteps(m))
  {
    SmearOnes(m);
    SmearBounds(m);
    if m < TopBit {
      SmearBelowTop(m);
    } else {
      SmearTop(m);
    }
  }

  /**
   * A block of low ones s that covers m, plus one: while m < 2^63 the least
   * power of two above m (r > m and r/2 <= m); from 2^63 on the addition
   * wraps around to 0.
   */
  lemma NextFromOnes(m: bv64, s: bv64)
    requires SmearedFrom(m, s)
    ensures LeastPowerAbove(m, s + 1)
  {
    if m < TopBit {
      OnesPlusOneBelowTop(m, s);
    }
  }

  /** What m+1 is once m has been smeared. */
  lemma NextFromSmear(m: bv64, s: bv64)
    requires s == SmearSteps(m)
    ensures LeastPowerAbove(m, s + 1)
  {
    SmearStepsSmears(m);
    NextFromOnes(m, s);
  }

  /** The loop of next_power_of_two: k |= k >> i for i = 1, 2, 4, ..., 32. */
  method Smear(k0: bv64) returns (k: bv64)
    ensures k == SmearSteps(k0)
  {
    k := k0;
    var i: bv64 := 1;
    while i < 64
      invariant i == 1 || i == 2 || i == 4 || i == 8 || i == 16 || i == 32 || i == 64
      invariant k == Stage(k0, i)
    {
      k := Step(k, i);
      i := i * 2;
    }
  }

  /**
   * next_power_of_two(k): 1 for 0; otherwise the least power of two that is
   * at least k, stated on k-1 as the source computes it (r > k-1 and
   * r/2 <= k-1), for k <= 2^63; for larger k no power of two fits and the
   * result wraps around to 0.
   */
  method NextPowerOfTwo(k0: bv64) returns (r: bv64)
    ensures k0 == 0 ==> r == 1
    ensures k0 != 0 ==> LeastPowerAbove(k0 - 1, r)
  {
    if k0 == 0 {
      return 1;
    }
    var m := k0 - 1;
    var k := Smear(m);
    NextFromSmear(m, k);
    r := k + 1;
  }

  // ---------------------------------------------------------------- multiples

  /** next_multiple_of_n(v, N) on size_t, where the product wraps modulo 2^64. */
  function NextMultipleOfN(v: nat, n: nat): (r: nat)
    requires v < SizeRange && 0 < n < SizeRange
    ensures r < SizeRange
    ensures v == 0 ==> r == 0
  {
    if v == 0 then 0 else (((v - 1) / n + 1) * n) % SizeRange
  }

  /**
   * Without wrap-around the result is the least multiple of n that is at
   * least v; it is v itself exactly when n divides v.
   */
  lemma NextMultipleOfNIsLeast(v: nat, n: nat)
    requires 0 < v < SizeRange && 0 < n < SizeRange
    requires v - 1 + n < SizeRange
    ensures NextMultipleOfN(v, n) % n == 0
    ensures v <= NextMultipleOfN(v, n) < v + n
    ensures NextMultipleOfN(v, n) == v <==> v % n == 0
  {
    CeilMultiple(v, n);
    assert NextMultipleOfN(v, n) == ((v - 1) / n + 1) * n;
  }

  /** ((v - 1) / n + 1) * n is the least multiple of n that is at least v. */
  lemma CeilMultiple(v: nat, n: nat)
    requires 0 < v && 0 < n
    ensures var r := ((v - 1) / n + 1) * n;
      r % n == 0 && v <= r < v + n && (r == v <==> v % n == 0)
  {
    var q := (v - 1) / n;
    var m := (v - 1) % n;
    var r := (q + 1) * n;
    assert v - 1 == q * n + m;
    assert r == q * n + n;
    MultipleMod(q + 1, n);
    if v % n == 0 {
      MultipleMod(v / n, n);
      assert v == (v / n) * n;
      assert m == n - 1 by {
        DivModUnique(v - 1, n, v / n - 1, n - 1);
      }
    }
  }

  lemma MultipleMod(q: nat, n: nat)
    requires 0 < n
    ensures (q * n) % n == 0
    ensures (q * n) / n == q
  {
    DivModUnique(q * n, n, q, 0);
  }

  /** The quotient and remainder of a division are the only ones possible. */
  lemma DivModUnique(a: int, n: int, q: int, m: int)
    requires 0 < n && 0 <= m < n && a == q * n + m
    ensures a / n == q && a % n == m
  {
    var q', m' := a / n, a % n;
    assert (q - q') * n == m' - m;
    if q < q' {
      MulAtLeast(q' - q, n);
    } else if q' < q {
      MulAtLeast(q - q', n);
    }
  }

  lemma MulAtLeast(k: int, n: int)
    requires 1 <= k && 0 < n
    ensures n <= k * n
  {
    assert k * n == n + (k - 1) * n;
    assert 0 <= (k - 1) * n;
  }

  /** prev_multiple_of_n(v, N) on unsigned: (v/N)*N. */
  function PrevMultipleOfN(v: nat, n: nat): (r: nat)
    requires v < UintRange && 0 < n < UintRange
    ensures r % n == 0
    ensures r <= v < r + n
  {
    MultipleMod(v / n, n);
    (v / n) * n
  }

  /** is_multiple_of_n(v, N) = (v/N)*N == v: exactly when N divides v. */
  predicate IsMultipleOfN(v: nat, n: nat)
    requires v < UintRange && 0 < n < UintRange
    ensures IsMultipleOfN(v, n) <==> v % n == 0
  {
    assert v == (v / n) * n + v % n;
    (v / n) * n == v
  }

  // ---------------------------------------------------------------- modulo

  /**
   * positive_modulo(i, n) = (i % n + n) % n with C++'s truncating `%` on
   * 32-bit ints; the intermediate sum must not overflow.
   */
  function PositiveModulo(i: int, n: int): (r: int)
    requires IntMin <= i <= IntMax && IntMin <= n <= IntMax && n != 0
    requires TruncMod(i, n) + n <= IntMax && IntMin <= TruncMod(i, n) + n
    ensures 0 < n ==> 0 <= r < n
    ensures n < 0 ==> n < r <= 0
  {
    TruncMod(TruncMod(i, n) + n, n)
  }

  /** For n > 0 the result is i's residue modulo n. */
  lemma PositiveModuloCongruent(i: int, n: int)
    requires IntMin <= i <= IntMax && 0 < n <= IntMax
    requires TruncMod(i, n) + n <= IntMax
    ensures PositiveModulo(i, n) == i % n
  {
    var m := TruncMod(i, n);
    var q := TruncDiv(i, n);
    assert i == q * n + m;
    if 0 <= i {
      assert m == i % n;
      assert (m + n) % n == m by {
        DivModUnique(m + n, n, 1, m);
      }
    } else {
      assert -n < m <= 0;
      assert i == (q - 1) * n + (m + n);
      if m == 0 {
        assert (m + n) % n == 0 by {
          DivModUnique(m + n, n, 1, 0);
        }
        DivModUnique(i, n, q, 0);
      } else {
        assert (m + n) % n == m + n by {
          DivModUnique(m + n, n, 0, m + n);
        }
        DivModUnique(i, n, q - 1, m + n);
      }
    }
  }
}
