/**
 * range.hpp: RangeI, a half-open integer range [begin, end) grown in place
 * by include and mapped to new ranges by chunk division, scaling, shifting
 * and clamping; and RangeFloat, a float range [min, max] whose default is
 * the empty (+INF, -INF).
 */
module Ranges {
  import opened Numeric

  /** min(a, b) = a<b ? a : b */
  function IntMin(a: int, b: int): (r: int)
    ensures r <= a && r <= b && (r == a || r == b)
  {
    if a < b then a else b
  }

  /** max(a, b) = b<a ? a : b */
  function IntMax(a: int, b: int): (r: int)
    ensures a <= r && b <= r && (r == a || r == b)
  {
    if b < a then a else b
  }

  /** clamp<int>(x, min, max) */
  function IntClamp(x: int, lo: int, hi: int): (r: int)
    ensures lo <= hi ==> lo <= r <= hi
    ensures lo <= x <= hi ==> r == x
  {
    if x < lo then lo else if x > hi then hi else x
  }

  /** The value of a RangeI: the integers begin <= i < end. */
  datatype Span = Span(begin: int, end: int)
  {
    predicate Has(i: int)
    {
      begin <= i < end
    }

    ghost function Elements(): set<int>
    {
      set i | begin <= i < end && Has(i)
    }
  }

  /** size() of a span: the number of its elements, or the negative end - begin when reversed. */
  function SpanSize(s: Span): int
  {
    s.end - s.begin
  }

  /** A non-reversed span holds exactly size() integers. */
  lemma {:induction false} SizeCountsElements(s: Span)
    requires s.begin <= s.end
    ensures |s.Elements()| == SpanSize(s)
    decreases s.end - s.begin
  {
    if s.begin == s.end {
      assert s.Elements() == {};
    } else {
      var t := Span(s.begin, s.end - 1);
      SizeCountsElements(t);
      assert s.Elements() == t.Elements() + {s.end - 1};
    }
  }

  /** The span include(val) leaves (range.hpp:18-21). */
  function Included(s: Span, val: int): Span
  {
    Span(IntMin(s.begin, val), IntMax(s.end, val + 1))
  }

  /**
   * After include(val) the range holds val and everything it held before;
   * starting from a non-empty range it is the smallest range that does.
   */
  lemma IncludedHull(s: Span, val: int, other: Span)
    ensures Included(s, val).Has(val)
    ensures forall i :: s.Has(i) ==> Included(s, val).Has(i)
    ensures s.begin < s.end && other.Has(val) && other.Has(s.begin) && other.Has(s.end - 1) ==>
      forall i :: Included(s, val).Has(i) ==> other.Has(i)
  {
  }

  /**
   * The default RangeI() is [-1, -2), not an empty sentinel: including a
   * value v >= -1 into it yields [-1, v + 1), which also holds -1 .. v - 1.
   */
  lemma DefaultThenInclude(v: int)
    requires -1 <= v
    ensures Included(Span(-1, -2), v) == Span(-1, v + 1)
  {
  }

  /**
   * operator/ (range.hpp:38-42): the chunks of size n the range touches,
   * with C++'s truncating division, which agrees with the flooring
   * FloorChunks on ranges of non-negative ends.
   */
  function Chunks(s: Span, n: int): (r: Span)
    requires n != 0
    ensures 0 < n && 0 <= s.begin && 0 <= s.end ==> r == FloorChunks(s, n)
  {
    Span(TruncDiv(s.begin, n), TruncDiv(s.end + n - 1, n))
  }

  /** For a non-negative value and a positive divisor, C++ division is floor division. */
  lemma TruncDivNonneg(a: int, n: int)
    requires 0 <= a && 0 < n
    ensures TruncDiv(a, n) == a / n
  {
  }

  /** (e + n - 1) / n rounds e / n up: it is the least c with e <= c * n. */
  lemma CeilDiv(e: int, n: int)
    requires 0 < n
    ensures e <= ((e + n - 1) / n) * n
    ensures ((e + n - 1) / n - 1) * n < e
  {
    var q := (e + n - 1) / n;
    var m := (e + n - 1) % n;
    assert e + n - 1 == q * n + m && 0 <= m < n;
    assert (q - 1) * n == q * n - n;
  }

  /**
   * Chunk c holds the integers c*n <= i < (c+1)*n. For a range with a
   * non-negative begin, the chunk range holds exactly the chunks that hold
   * an element of the range: the chunk of every element, and no chunk that
   * lies wholly before begin or wholly at or after end.
   */
  lemma ChunksCover(s: Span, n: int, i: int, c: int)
    requires 0 <= s.begin && 0 < n
    ensures s.Has(i) ==> Chunks(s, n).Has(i / n)
    ensures Chunks(s, n).Has(c) ==> s.begin < (c + 1) * n && c * n < s.end
  {
    ChunkOfElement(s, n, i);
    if Chunks(s, n).Has(c) {
      ChunkTouches(s, n, c);
    }
  }

  /** For a non-negative numerator the chunk end is computed by floor division. */
  lemma CeilDivTrunc(e: int, n: int)
    requires 0 < n
    ensures 0 <= e + n - 1 ==> TruncDiv(e + n - 1, n) == (e + n - 1) / n
  {
  }

  lemma ChunkOfElement(s: Span, n: int, i: int)
    requires 0 <= s.begin && 0 < n
    ensures s.Has(i) ==> Chunks(s, n).Has(i / n)
  {
    if s.Has(i) {
      TruncDivNonneg(s.begin, n);
      TruncDivNonneg(s.end + n - 1, n);
      DivMonotone(s.begin, i, n);
      CeilDiv(s.end, n);
      FloorBelowCeil(i, s.end, n);
    }
  }

  lemma ChunkTouches(s: Span, n: int, c: int)
    requires 0 <= s.begin && 0 < n
    requires Chunks(s, n).Has(c)
    ensures s.begin < (c + 1) * n && c * n < s.end
  {
    TruncDivNonneg(s.begin, n);
    assert s.begin / n <= c;
    FloorBelow(s.begin, n, c);
    DivMonotone(0, s.begin, n);
    TruncDivNonpositive(s.end + n - 1, n);
    CeilDivTrunc(s.end, n);
    CeilAbove(s.end, n, c);
  }

  lemma TruncDivNonpositive(e: int, n: int)
    requires 0 < n
    ensures e < 0 ==> TruncDiv(e, n) <= 0
  {
    if e < 0 {
      assert TruncDiv(e, n) == -((-e) / n);
      DivMonotone(0, -e, n);
    }
  }

  /** a <= b implies a / n <= b / n. */
  lemma DivMonotone(a: int, b: int, n: int)
    requires 0 < n && a <= b
    ensures a / n <= b / n
  {
    var qa, ra := a / n, a % n;
    var qb, rb := b / n, b % n;
    assert a == qa * n + ra && 0 <= ra < n;
    assert b == qb * n + rb && 0 <= rb < n;
    if qb < qa {
      MulMonotone(qb + 1, qa, n);
    }
  }

  /** b / n <= c implies b < (c + 1) * n. */
  lemma FloorBelow(b: int, n: int, c: int)
    requires 0 < n && b / n <= c
    ensures b < (c + 1) * n
  {
    assert b < (b / n + 1) * n;
    assert (b / n + 1) * n <= (c + 1) * n;
  }

  /** i < e implies i / n < (e + n - 1) / n. */
  lemma FloorBelowCeil(i: int, e: int, n: int)
    requires 0 < n && i < e
    ensures i / n < (e + n - 1) / n
  {
    var q := i / n;
    assert q * n <= i;
    MulDivCancel(q + 1, n);
    assert (q + 1) * n <= e + n - 1;
    DivMonotone((q + 1) * n, e + n - 1, n);
  }

  lemma MulDivCancel(k: int, n: int)
    requires 0 < n
    ensures (k * n) / n == k
  {
    var q, m := (k * n) / n, (k * n) % n;
    assert k * n == q * n + m && 0 <= m < n;
    if q < k {
      MulMonotone(q + 1, k, n);
    } else if k < q {
      MulMonotone(k + 1, q, n);
    }
  }

  /** c < (e + n - 1) / n implies c * n < e. */
  lemma CeilAbove(e: int, n: int, c: int)
    requires 0 < n && c < (e + n - 1) / n
    ensures c * n < e
  {
    var q := (e + n - 1) / n;
    assert c <= q - 1;
    assert c * n <= (q - 1) * n;
  }

  /**
   * With a negative begin, C++ division rounds the first chunk toward zero,
   * so the chunk range can miss the chunk of the first element: [-5, -4) / 3
   * is [-1, 0), while -5 lies in chunk -2 (the integers -6 .. -4).
   */
  lemma ChunksMissNegative()
    ensures Chunks(Span(-5, -4), 3) == Span(-1, 0)
    ensures Span(-5, -4).Has(-5) && (-2) * 3 <= -5 < (-2 + 1) * 3
    ensures !Chunks(Span(-5, -4), 3).Has(-2)
  {
  }

  /**
   * The chunk range with flooring division, which covers the range for
   * every begin: the chunk of each element is in it, and each of its chunks
   * holds an element. Its ends, times n, enclose the range: the begin is
   * rounded down and the end up, as the header's comment promises.
   */
  function FloorChunks(s: Span, n: int): (r: Span)
    requires 0 < n
    ensures r.begin * n <= s.begin && s.end <= r.end * n
  {
    Span(s.begin / n, (s.end + n - 1) / n)
  }

  lemma FloorChunksCover(s: Span, n: int, i: int, c: int)
    requires 0 < n
    ensures s.Has(i) ==> FloorChunks(s, n).Has(i / n)
    ensures FloorChunks(s, n).Has(c) ==> s.begin < (c + 1) * n && c * n < s.end
  {
    if s.Has(i) {
      DivMonotone(s.begin, i, n);
      FloorBelowCeil(i, s.end, n);
    }
    if FloorChunks(s, n).Has(c) {
      FloorBelow(s.begin, n, c);
      CeilAbove(s.end, n, c);
    }
  }

  /** operator* (range.hpp:45-49): both ends times n. */
  function Scaled(s: Span, n: int): Span
  {
    Span(s.begin * n, s.end * n)
  }

  /**
   * operator* reverses operator/: scaling a range of chunks gives the
   * integers of those chunks, so scaling the chunk range of a range with a
   * non-negative begin covers the range.
   */
  lemma ScaledChunks(s: Span, n: int, i: int)
    requires 0 <= s.begin && 0 < n
    ensures s.Has(i) ==> Scaled(Chunks(s, n), n).Has(i)
  {
    if s.Has(i) {
      ChunkOfElement(s, n, i);
      var ch := Chunks(s, n);
      var c := i / n;
      assert c * n <= i < (c + 1) * n;
      MulMonotone(ch.begin, c, n);
      MulMonotone(c + 1, ch.end, n);
    }
  }

  lemma MulMonotone(a: int, b: int, n: int)
    requires a <= b && 0 <= n
    ensures a * n <= b * n
  {
  }

  /** operator+ (range.hpp:52-56): both ends shifted up by n. */
  function ShiftedUp(s: Span, n: int): Span
  {
    Span(s.begin + n, s.end + n)
  }

  /** operator- (range.hpp:58-62): both ends shifted down by n. */
  function ShiftedDown(s: Span, n: int): Span
  {
    Span(s.begin - n, s.end - n)
  }

  /**
   * Shifting moves every element by n and keeps the size; + and - undo
   * each other.
   */
  lemma ShiftMovesElements(s: Span, n: int, i: int)
    ensures ShiftedUp(s, n).Has(i + n) <==> s.Has(i)
    ensures ShiftedDown(s, n).Has(i - n) <==> s.Has(i)
    ensures SpanSize(ShiftedUp(s, n)) == SpanSize(s) == SpanSize(ShiftedDown(s, n))
    ensures ShiftedDown(ShiftedUp(s, n), n) == s == ShiftedUp(ShiftedDown(s, n), n)
  {
  }

  /** clamped(size) (range.hpp:66-72): both ends clamped to [0, size]. */
  function Clamped(s: Span, size: int): Span
  {
    Span(IntClamp(s.begin, 0, size), IntClamp(s.end, 0, size))
  }

  /**
   * The clamped range lies within [0, size] and holds exactly the elements
   * of the range that lie in [0, size); it may be the empty [size, size).
   */
  lemma ClampedElements(s: Span, size: int, i: int)
    requires 0 <= size
    ensures var r := Clamped(s, size); 0 <= r.begin <= size && 0 <= r.end <= size
    ensures Clamped(s, size).Has(i) <==> s.Has(i) && 0 <= i < size
  {
  }

  /** RangeI: begin and end are updated in place by include. */
  class RangeI {
    var begin: int
    var end: int

    /** RangeI(): the reversed range [-1, -2). */
    constructor Default()
      ensures begin == -1 && end == -2
    {
      begin, end := -1, -2;
    }

    constructor (b: int, e: int)
      ensures begin == b && end == e
    {
      begin, end := b, e;
    }

    function Value(): Span
      reads this
    {
      Span(begin, end)
    }

    /** size() */
    function Size(): (r: int)
      reads this
      ensures begin <= end ==> r == |Value().Elements()|
    {
      if begin <= end then
        SizeCountsElements(Value());
        end - begin
      else
        end - begin
    }

    /** include(val): begin = min(begin, val), end = max(end, val + 1). */
    method Include(val: int)
      modifies this
      ensures Value() == Included(old(Value()), val)
      ensures Value().Has(val)
      ensures begin <= old(begin) && old(end) <= end
    {
      begin := IntMin(begin, val);
      end := IntMax(end, val + 1);
    }

    /** operator/ */
    method Div(n: int) returns (r: RangeI)
      requires n != 0
      ensures fresh(r) && r.Value() == Chunks(Value(), n)
    {
      r := new RangeI(TruncDiv(begin, n), TruncDiv(end + n - 1, n));
    }

    /** operator* */
    method Mul(n: int) returns (r: RangeI)
      ensures fresh(r) && r.Value() == Scaled(Value(), n)
    {
      r := new RangeI(begin * n, end * n);
    }

    /** operator+ */
    method Plus(n: int) returns (r: RangeI)
      ensures fresh(r) && r.Value() == ShiftedUp(Value(), n)
    {
      r := new RangeI(begin + n, end + n);
    }

    /** operator- */
    method Minus(n: int) returns (r: RangeI)
      ensures fresh(r) && r.Value() == ShiftedDown(Value(), n)
    {
      r := new RangeI(begin - n, end - n);
    }

    /** clamped(size) */
    method ClampedTo(size: int) returns (r: RangeI)
      ensures fresh(r) && r.Value() == Clamped(Value(), size)
    {
      r := new RangeI(IntClamp(begin, 0, size), IntClamp(end, 0, size));
    }
  }

  /** std::floor as an integer (floor_to_int). */
  function FloorInt(f: real): (r: int)
    ensures r as real <= f < r as real + 1.0
  {
    f.Floor
  }

  /** std::ceil as an integer (ceil_to_int). */
  function CeilInt(f: real): (r: int)
    ensures r as real - 1.0 < f <= r as real
  {
    -((-f).Floor)
  }

  /**
   * size() > 0 on floats that may be infinite: max - min is +INF when one
   * bound is infinite in the right direction, NaN (not positive) for
   * INF - INF of the same sign, -INF otherwise.
   */
  predicate SizePositive(lo: ExtReal, hi: ExtReal)
  {
    match (lo, hi)
    case (Fin(a), Fin(b)) => b - a > 0.0
    case (NegInf, PosInf) => true
    case (Fin(_), PosInf) => true
    case (NegInf, Fin(_)) => true
    case (_, _) => false
  }

  /** is_valid() holds exactly when min < max, infinities included. */
  lemma SizePositiveIffLess(lo: ExtReal, hi: ExtReal)
    ensures SizePositive(lo, hi) <==> ExtLess(lo, hi)
  {
  }

  /**
   * to_aligned_range() on finite bounds: [floor(min), ceil(max)), the
   * smallest integer range whose ends enclose [min, max].
   */
  function AlignedSpan(lo: real, hi: real): (s: Span)
    ensures s.begin as real <= lo && hi <= s.end as real
  {
    Span(FloorInt(lo), CeilInt(hi))
  }

  lemma AlignedSpanSmallest(lo: real, hi: real, other: Span)
    requires other.begin as real <= lo && hi <= other.end as real
    ensures other.begin <= AlignedSpan(lo, hi).begin && AlignedSpan(lo, hi).end <= other.end
  {
  }

  /** RangeFloat: min and max are updated in place by include. */
  class RangeFloat {
    var lo: ExtReal
    var hi: ExtReal

    /** RangeFloat() and Empty(): (+INF, -INF). */
    constructor Empty()
      ensures lo == PosInf && hi == NegInf
    {
      lo, hi := PosInf, NegInf;
    }

    constructor (b: real, e: real)
      ensures lo == Fin(b) && hi == Fin(e)
    {
      lo, hi := Fin(b), Fin(e);
    }

    /** RangeFloat(const RangeI&) */
    constructor FromRangeI(r: RangeI)
      ensures lo == Fin(r.begin as real) && hi == Fin(r.end as real)
    {
      lo, hi := Fin(r.begin as real), Fin(r.end as real);
    }

    /** Everything(): (-INF, +INF). */
    constructor Everything()
      ensures lo == NegInf && hi == PosInf
    {
      lo, hi := NegInf, PosInf;
    }

    /** is_valid(): positive size. */
    predicate IsValid()
      reads this
    {
      SizePositive(lo, hi)
    }

    /** include(val): min = min(min, val), max = max(max, val). */
    method Include(val: real)
      modifies this
      ensures lo == ExtMin(old(lo), Fin(val)) && hi == ExtMax(old(hi), Fin(val))
      ensures ExtLessEq(lo, Fin(val)) && ExtLessEq(Fin(val), hi)
      ensures ExtLessEq(lo, old(lo)) && ExtLessEq(old(hi), hi)
    {
      lo := ExtMin(lo, Fin(val));
      hi := ExtMax(hi, Fin(val));
    }

    /** to_aligned_range(); the source's int cast is undefined for infinite bounds. */
    method ToAlignedRange() returns (r: RangeI)
      requires lo.Fin? && hi.Fin?
      ensures fresh(r) && r.Value() == AlignedSpan(lo.r, hi.r)
    {
      r := new RangeI(FloorInt(lo.r), CeilInt(hi.r));
    }
  }

  /**
   * The default range is not valid, Everything() is, and including one
   * value into the default gives [v, v], which still has size 0 and so is
   * not valid either.
   */
  lemma EmptyAndEverything(v: real)
    ensures !SizePositive(PosInf, NegInf) && SizePositive(NegInf, PosInf)
    ensures ExtMin(PosInf, Fin(v)) == Fin(v) && ExtMax(NegInf, Fin(v)) == Fin(v)
    ensures !SizePositive(Fin(v), Fin(v))
  {
  }
}
