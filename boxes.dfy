/**
 * The axis-aligned box AABB_T of aabb.hpp. Its corners _min and _max are
 * updated in place by include(), so the box is a class; the corners may be
 * infinite, which is how nothing() and everything() are built.
 */
module Boxes {
  import opened Numeric
  import opened Vectors

  /** A Vec2 whose components may be infinite. */
  datatype EVec2 = EVec2(x: ExtReal, y: ExtReal)

  function Fin2(v: Vec2): EVec2
  {
    EVec2(Fin(v.x), Fin(v.y))
  }

  /** v[d] for d in {0, 1}. */
  function Get(v: EVec2, d: nat): ExtReal
    requires d < 2
  {
    if d == 0 then v.x else v.y
  }

  /** v with v[d] replaced by e. */
  function With(v: EVec2, d: nat, e: ExtReal): EVec2
    requires d < 2
  {
    if d == 0 then v.(x := e) else v.(y := e)
  }

  /** Componentwise min and max of two corners. */
  function MinV(a: EVec2, b: EVec2): EVec2
  {
    EVec2(ExtMin(a.x, b.x), ExtMin(a.y, b.y))
  }

  function MaxV(a: EVec2, b: EVec2): EVec2
  {
    EVec2(ExtMax(a.x, b.x), ExtMax(a.y, b.y))
  }

  /** The test of contains(v) on one axis: neither v[d] < min[d] nor max[d] < v[d]. */
  predicate AxisContains(lo: ExtReal, hi: ExtReal, x: real)
  {
    !(ExtLess(Fin(x), lo) || ExtLess(hi, Fin(x)))
  }

  /** The test of intersects(a, b) on one axis: not a.max <= b.min and not b.max <= a.min. */
  predicate AxisOverlap(alo: ExtReal, ahi: ExtReal, blo: ExtReal, bhi: ExtReal)
  {
    !(ExtLessEq(ahi, blo) || ExtLessEq(bhi, alo))
  }

  /** The corner nearest to v on one axis, as distance_to chooses it. */
  function NearFace(lo: real, hi: real, x: real): real
  {
    if Abs(lo - x) < Abs(hi - x) then lo else hi
  }

  class Aabb {
    var mn: EVec2
    var mx: EVec2

    /** from_min_max(min, max), the private constructor AABB_T(min, max). */
    constructor FromMinMax(lo: Vec2, hi: Vec2)
      ensures mn == Fin2(lo) && mx == Fin2(hi)
    {
      mn := Fin2(lo);
      mx := Fin2(hi);
    }

    /** from_min_size(min, size) = [min, min+size] */
    constructor FromMinSize(lo: Vec2, size: Vec2)
      ensures mn == Fin2(lo) && mx == Fin2(Add(lo, size))
    {
      mn := Fin2(lo);
      mx := Fin2(Add(lo, size));
    }

    /** from_center_size(center, size) = [center - size/2, center + size/2] */
    constructor FromCenterSize(center: Vec2, size: Vec2)
      ensures mn == Fin2(Sub(center, Half(size))) && mx == Fin2(Add(center, Half(size)))
    {
      mn := Fin2(Sub(center, Half(size)));
      mx := Fin2(Add(center, Half(size)));
    }

    /** everything() = [-INF, +INF] on both axes. */
    constructor Everything()
      ensures mn == EVec2(NegInf, NegInf) && mx == EVec2(PosInf, PosInf)
    {
      mn := EVec2(NegInf, NegInf);
      mx := EVec2(PosInf, PosInf);
    }

    /** nothing() = [+INF, -INF] on both axes, the neutral start for include(). */
    constructor Nothing()
      ensures mn == EVec2(PosInf, PosInf) && mx == EVec2(NegInf, NegInf)
    {
      mn := EVec2(PosInf, PosInf);
      mx := EVec2(NegInf, NegInf);
    }

    predicate IsFinite()
      reads this
    {
      mn.x.Fin? && mn.y.Fin? && mx.x.Fin? && mx.y.Fin?
    }

    /** min <= max on both axes. */
    predicate IsValid()
      reads this
    {
      ExtLessEq(mn.x, mx.x) && ExtLessEq(mn.y, mx.y)
    }

    function Lo(): Vec2
      reads this
      requires IsFinite()
    {
      Vec2(mn.x.r, mn.y.r)
    }

    function Hi(): Vec2
      reads this
      requires IsFinite()
    {
      Vec2(mx.x.r, mx.y.r)
    }

    /** center() = average(min, max) */
    function Center(): Vec2
      reads this
      requires IsFinite()
    {
      Half(Add(Lo(), Hi()))
    }

    /** size() = max - min */
    function Size(): Vec2
      reads this
      requires IsFinite()
    {
      Sub(Hi(), Lo())
    }

    /** contains(v): min[d] <= v[d] <= max[d] on both axes. */
    predicate Contains(v: Vec2)
      reads this
      ensures Contains(v) <==>
        && ExtLessEq(mn.x, Fin(v.x)) && ExtLessEq(Fin(v.x), mx.x)
        && ExtLessEq(mn.y, Fin(v.y)) && ExtLessEq(Fin(v.y), mx.y)
    {
      ExtLessTotal(Fin(v.x), mn.x);
      ExtLessTotal(mx.x, Fin(v.x));
      ExtLessTotal(Fin(v.y), mn.y);
      ExtLessTotal(mx.y, Fin(v.y));
      AxisContains(mn.x, mx.x, v.x) && AxisContains(mn.y, mx.y, v.y)
    }

    /** contains(b): b's corners lie within this box's corners. */
    predicate ContainsBox(b: Aabb)
      reads this, b
    {
      && ExtLessEq(mn.x, b.mn.x) && ExtLessEq(b.mx.x, mx.x)
      && ExtLessEq(mn.y, b.mn.y) && ExtLessEq(b.mx.y, mx.y)
    }

    /**
     * clamp(v): each component clamped to [min[d], max[d]]. In a valid box
     * the result lies inside the box, and a point already inside is kept.
     */
    function Clamp(v: Vec2): (r: EVec2)
      reads this
      ensures IsValid() ==> ExtLessEq(mn.x, r.x) && ExtLessEq(r.x, mx.x)
      ensures IsValid() ==> ExtLessEq(mn.y, r.y) && ExtLessEq(r.y, mx.y)
      ensures Contains(v) ==> r == Fin2(v)
      ensures IsFinite() ==> r.x.Fin? && r.y.Fin?
    {
      ExtLessTotal(Fin(v.x), mn.x);
      ExtLessTotal(mx.x, Fin(v.x));
      ExtLessTotal(Fin(v.y), mn.y);
      ExtLessTotal(mx.y, Fin(v.y));
      EVec2(ExtClamp(Fin(v.x), mn.x, mx.x), ExtClamp(Fin(v.y), mn.y, mx.y))
    }

    /**
     * distance_to(v): inside the box minus the distance to the nearest
     * face, outside the distance to the clamped point; so it is <= 0
     * exactly for the points the box contains.
     */
    method DistanceTo(v: Vec2, sqrt: real -> real) returns (d: real)
      requires IsFinite() && IsSqrt(sqrt)
      ensures d <= 0.0 <==> Contains(v)
      ensures Contains(v) ==> -d == Min(Min(v.x - Lo().x, Hi().x - v.x), Min(v.y - Lo().y, Hi().y - v.y))
      ensures !Contains(v) ==> d == Distance(v, Vec2(Clamp(v).x.r, Clamp(v).y.r), sqrt)
    {
      if Contains(v) {
        var lo, hi := Lo(), Hi();
        var p := v;
        for i := 0 to 2
          invariant i >= 1 ==> p.x == NearFace(lo.x, hi.x, v.x)
          invariant i >= 2 ==> p.y == NearFace(lo.y, hi.y, v.y)
        {
          if i == 0 {
            if Abs(lo.x - v.x) < Abs(hi.x - v.x) {
              p := p.(x := lo.x);
            } else {
              p := p.(x := hi.x);
            }
          } else {
            if Abs(lo.y - v.y) < Abs(hi.y - v.y) {
              p := p.(y := lo.y);
            } else {
              p := p.(y := hi.y);
            }
          }
        }
        d := -Min(Abs(p.x - v.x), Abs(p.y - v.y));
      } else {
        var c := Clamp(v);
        var q := Vec2(c.x.r, c.y.r);
        d := Distance(v, q, sqrt);
        assert Sub(v, q) != Zero2;
        LengthSqNonzero(Sub(v, q));
        LengthSqNonneg(Sub(v, q));
        SqrtPositive(sqrt, LengthSq(Sub(v, q)));
      }
    }

    /**
     * include(v): min becomes min(min, v) and max becomes max(max, v) on
     * each axis; the box then contains v and has only grown.
     */
    method Include(v: Vec2)
      modifies this
      ensures mn == MinV(old(mn), Fin2(v)) && mx == MaxV(old(mx), Fin2(v))
      ensures Contains(v)
      ensures ExtLessEq(mn.x, old(mn.x)) && ExtLessEq(mn.y, old(mn.y))
      ensures ExtLessEq(old(mx.x), mx.x) && ExtLessEq(old(mx.y), mx.y)
    {
      for i := 0 to 2
        invariant i >= 1 ==> mn.x == ExtMin(old(mn.x), Fin(v.x)) && mx.x == ExtMax(old(mx.x), Fin(v.x))
        invariant i < 1 ==> mn.x == old(mn.x) && mx.x == old(mx.x)
        invariant i >= 2 ==> mn.y == ExtMin(old(mn.y), Fin(v.y)) && mx.y == ExtMax(old(mx.y), Fin(v.y))
        invariant i < 2 ==> mn.y == old(mn.y) && mx.y == old(mx.y)
      {
        mn := With(mn, i, ExtMin(Get(mn, i), Get(Fin2(v), i)));
        mx := With(mx, i, ExtMax(Get(mx, i), Get(Fin2(v), i)));
      }
      ExtLessTotal(Fin(v.x), mn.x);
      ExtLessTotal(mx.x, Fin(v.x));
      ExtLessTotal(Fin(v.y), mn.y);
      ExtLessTotal(mx.y, Fin(v.y));
    }

    /**
     * include(b): min becomes min(min, b.min) and max becomes max(max,
     * b.max) on each axis; the box then contains b.
     */
    method IncludeBox(b: Aabb)
      modifies this
      ensures mn == MinV(old(mn), old(b.mn)) && mx == MaxV(old(mx), old(b.mx))
      ensures ContainsBox(b)
    {
      for i := 0 to 2
        invariant i >= 1 ==> mn.x == ExtMin(old(mn.x), old(b.mn.x)) && mx.x == ExtMax(old(mx.x), old(b.mx.x))
        invariant i < 1 ==> mn.x == old(mn.x) && mx.x == old(mx.x)
        invariant i >= 2 ==> mn.y == ExtMin(old(mn.y), old(b.mn.y)) && mx.y == ExtMax(old(mx.y), old(b.mx.y))
        invariant i < 2 ==> mn.y == old(mn.y) && mx.y == old(mx.y)
        invariant b != this ==> b.mn == old(b.mn) && b.mx == old(b.mx)
      {
        mn := With(mn, i, ExtMin(Get(mn, i), Get(b.mn, i)));
        mx := With(mx, i, ExtMax(Get(mx, i), Get(b.mx, i)));
      }
    }
  }

  /** size/2, componentwise. */
  function Half(v: Vec2): Vec2
  {
    Vec2(v.x / 2.0, v.y / 2.0)
  }

  /** everything() contains every point and nothing() contains none. */
  lemma EverythingAndNothing(all: Aabb, none: Aabb, v: Vec2)
    requires all.mn == EVec2(NegInf, NegInf) && all.mx == EVec2(PosInf, PosInf)
    requires none.mn == EVec2(PosInf, PosInf) && none.mx == EVec2(NegInf, NegInf)
    ensures all.Contains(v)
    ensures !none.Contains(v)
  {
  }

  /** Including v into nothing() gives the box [v, v]. */
  lemma NothingThenInclude(v: Vec2)
    ensures MinV(EVec2(PosInf, PosInf), Fin2(v)) == Fin2(v)
    ensures MaxV(EVec2(NegInf, NegInf), Fin2(v)) == Fin2(v)
  {
  }

  /** from_center_size gives back its centre and size. */
  lemma CenterSizeRoundTrip(b: Aabb, center: Vec2, size: Vec2)
    requires b.mn == Fin2(Sub(center, Half(size))) && b.mx == Fin2(Add(center, Half(size)))
    ensures b.IsFinite()
    ensures b.Center() == center && b.Size() == size
  {
  }

  /** from_min_size gives back its minimum and size. */
  lemma MinSizeRoundTrip(b: Aabb, lo: Vec2, size: Vec2)
    requires b.mn == Fin2(lo) && b.mx == Fin2(Add(lo, size))
    ensures b.IsFinite()
    ensures b.Lo() == lo && b.Size() == size
  {
  }

  /**
   * intersects(a, b): the open boxes overlap on both axes; for finite boxes
   * of positive extent, exactly when some point lies strictly inside both.
   */
  predicate Intersects(a: Aabb, b: Aabb)
    reads a, b
    ensures HasArea(a) && HasArea(b) ==>
      (Intersects(a, b) <==> exists v: Vec2 {:trigger StrictlyInside(a, v)} :: StrictlyInside(a, v) && StrictlyInside(b, v))
  {
    CommonInterior(a, b);
    AxisOverlap(a.mn.x, a.mx.x, b.mn.x, b.mx.x) && AxisOverlap(a.mn.y, a.mx.y, b.mn.y, b.mx.y)
  }

  lemma IntersectsSymmetric(a: Aabb, b: Aabb)
    ensures Intersects(a, b) <==> Intersects(b, a)
  {
  }

  /** Boxes that only touch along an edge do not intersect. */
  lemma TouchingDoNotIntersect(a: Aabb, b: Aabb)
    requires a.mx.x == b.mn.x || a.mx.y == b.mn.y
    ensures !Intersects(a, b)
  {
  }

  /** v lies strictly inside the box on both axes. */
  predicate StrictlyInside(b: Aabb, v: Vec2)
    reads b
  {
    && ExtLess(b.mn.x, Fin(v.x)) && ExtLess(Fin(v.x), b.mx.x)
    && ExtLess(b.mn.y, Fin(v.y)) && ExtLess(Fin(v.y), b.mx.y)
  }

  /** A finite box whose extent is positive on both axes. */
  predicate HasArea(b: Aabb)
    reads b
  {
    b.IsFinite() && b.mn.x.r < b.mx.x.r && b.mn.y.r < b.mx.y.r
  }

  /** Overlapping open extents on both axes share a strictly inner point. */
  lemma CommonInterior(a: Aabb, b: Aabb)
    ensures HasArea(a) && HasArea(b)
      && AxisOverlap(a.mn.x, a.mx.x, b.mn.x, b.mx.x) && AxisOverlap(a.mn.y, a.mx.y, b.mn.y, b.mx.y)
      ==> exists v: Vec2 {:trigger StrictlyInside(a, v)} :: StrictlyInside(a, v) && StrictlyInside(b, v)
  {
    if HasArea(a) && HasArea(b)
      && AxisOverlap(a.mn.x, a.mx.x, b.mn.x, b.mx.x) && AxisOverlap(a.mn.y, a.mx.y, b.mn.y, b.mx.y)
    {
      var x := (Max(a.mn.x.r, b.mn.x.r) + Min(a.mx.x.r, b.mx.x.r)) / 2.0;
      var y := (Max(a.mn.y.r, b.mn.y.r) + Min(a.mx.y.r, b.mx.y.r)) / 2.0;
      assert StrictlyInside(a, Vec2(x, y)) && StrictlyInside(b, Vec2(x, y));
    }
  }

  /** The least and greatest coordinates of a non-empty list of points. */
  function MinAll(list: seq<Vec2>): (r: Vec2)
    requires |list| > 0
    ensures forall i :: 0 <= i < |list| ==> r.x <= list[i].x && r.y <= list[i].y
    ensures exists i :: 0 <= i < |list| && r.x == list[i].x
    ensures exists i :: 0 <= i < |list| && r.y == list[i].y
  {
    if |list| == 1 then list[0]
    else
      var m, l := MinAll(list[..|list| - 1]), list[|list| - 1];
      Vec2(Min(m.x, l.x), Min(m.y, l.y))
  }

  function MaxAll(list: seq<Vec2>): (r: Vec2)
    requires |list| > 0
    ensures forall i :: 0 <= i < |list| ==> list[i].x <= r.x && list[i].y <= r.y
    ensures exists i :: 0 <= i < |list| && r.x == list[i].x
    ensures exists i :: 0 <= i < |list| && r.y == list[i].y
  {
    if |list| == 1 then list[0]
    else
      var m, l := MaxAll(list[..|list| - 1]), list[|list| - 1];
      Vec2(Max(m.x, l.x), Max(m.y, l.y))
  }

  /** Extending a prefix by one point takes one more min and max. */
  lemma AllStep(list: seq<Vec2>, i: nat)
    requires 0 < i < |list|
    ensures Fin2(MinAll(list[..i + 1])) == MinV(Fin2(MinAll(list[..i])), Fin2(list[i]))
    ensures Fin2(MaxAll(list[..i + 1])) == MaxV(Fin2(MaxAll(list[..i])), Fin2(list[i]))
  {
    assert list[..i + 1][..i] == list[..i];
  }

  /**
   * from_points(list): [list[0], list[0]] grown by include() with every
   * listed point; the result is the smallest box containing them all.
   */
  method FromPoints(list: seq<Vec2>) returns (b: Aabb)
    requires |list| > 0
    ensures fresh(b)
    ensures b.mn == Fin2(MinAll(list)) && b.mx == Fin2(MaxAll(list))
  {
    b := new Aabb.FromMinMax(list[0], list[0]);
    assert list[..1] == [list[0]];
    for i := 0 to |list|
      invariant i == 0 ==> b.mn == Fin2(list[0]) && b.mx == Fin2(list[0])
      invariant 0 < i ==> b.mn == Fin2(MinAll(list[..i])) && b.mx == Fin2(MaxAll(list[..i]))
    {
      b.Include(list[i]);
      if i > 0 {
        AllStep(list, i);
      }
    }
    assert list[..|list|] == list;
  }

  /** The box of from_points contains every listed point. */
  lemma FromPointsContains(b: Aabb, list: seq<Vec2>, i: nat)
    requires |list| > 0 && i < |list|
    requires b.mn == Fin2(MinAll(list)) && b.mx == Fin2(MaxAll(list))
    ensures b.Contains(list[i])
  {
  }
}
