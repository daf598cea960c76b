/**
 * Matrix<T> and ConstMatrix<T> of matrix.hpp, with T = real. A matrix is a
 * view of width x height elements into a shared flat buffer: element
 * (x, y) -- column x, row y -- lives at ptr + stride*y + x. Views are
 * values: copying or slicing one shares the buffer. fill, comp_mul_with,
 * comp_div_with and operator*= update the buffer in place, cell by cell;
 * allocate, transposed and outer produce a new buffer.
 */
module Matrices {
  import Ranges

  datatype Matrix = Matrix(data: array<real>, ptr: nat, stride: nat, width: nat, height: nat)

  /** pointer_to(x, y), as a position in the buffer. */
  function Index(m: Matrix, x: nat, y: nat): nat
  {
    m.ptr + m.stride * y + x
  }

  /** Rows do not overlap (width <= stride) and the last cell lies inside the buffer. */
  predicate Valid(m: Matrix)
  {
    m.width <= m.stride
    && (m.width == 0 || m.height == 0 || Index(m, m.width - 1, m.height - 1) < m.data.Length)
  }

  /** operator()(x, y) */
  function At(m: Matrix, x: nat, y: nat): real
    reads m.data
    requires Valid(m) && x < m.width && y < m.height
  {
    IndexInBuffer(m, x, y);
    m.data[Index(m, x, y)]
  }

  // ---------------------------------------------------------------------
  // Index arithmetic

  lemma MulLeq(s: nat, a: nat, b: nat)
    requires a <= b
    ensures s * a <= s * b
  {
    assert s * b == s * a + s * (b - a);
  }

  /** Every cell of a valid view is inside the buffer. */
  lemma IndexInBuffer(m: Matrix, x: nat, y: nat)
    requires Valid(m) && x < m.width && y < m.height
    ensures Index(m, x, y) < m.data.Length
  {
    MulLeq(m.stride, y, m.height - 1);
  }

  /** A cell in an earlier row lies before every cell of a later row. */
  lemma RowsApart(m: Matrix, xa: nat, ya: nat, xb: nat, yb: nat)
    requires Valid(m) && xa < m.width && ya < yb
    ensures Index(m, xa, ya) < Index(m, xb, yb)
  {
    MulLeq(m.stride, ya + 1, yb);
    assert m.stride * (ya + 1) == m.stride * ya + m.stride;
  }

  /** Distinct cells of a valid view are distinct buffer positions. */
  lemma IndexInjective(m: Matrix, x1: nat, y1: nat, x2: nat, y2: nat)
    requires Valid(m) && x1 < m.width && x2 < m.width
    ensures Index(m, x1, y1) == Index(m, x2, y2) <==> x1 == x2 && y1 == y2
  {
    if y1 < y2 {
      RowsApart(m, x1, y1, x2, y2);
    } else if y2 < y1 {
      RowsApart(m, x2, y2, x1, y1);
    }
  }

  // ---------------------------------------------------------------------
  // Which buffer positions a row-major sweep has reached

  /** Cell (x, y) of the view comes before cell (cx, cy) in row-major order. */
  predicate Before(m: Matrix, x: nat, y: nat, cx: nat, cy: nat)
  {
    x < m.width && y < m.height && (y < cy || (y == cy && x < cx))
  }

  /** Buffer position i holds a cell of the view that comes before (cx, cy). */
  ghost predicate Touched(m: Matrix, i: int, cx: nat, cy: nat)
  {
    exists x: nat, y: nat :: Before(m, x, y, cx, cy) && i == Index(m, x, y)
  }

  /** Buffer position i holds a cell of the view. */
  ghost predicate InView(m: Matrix, i: int)
  {
    Touched(m, i, 0, m.height)
  }

  /** Every buffer position outside the view keeps its value. */
  ghost predicate SameOutside(m: Matrix, before: seq<real>, after: seq<real>)
  {
    |before| == |after|
    && forall i :: 0 <= i < |before| && !InView(m, i) ==> after[i] == before[i]
  }

  /** The cell about to be written has not been reached yet. */
  lemma NotYetTouched(m: Matrix, cx: nat, cy: nat)
    requires Valid(m) && cx < m.width && cy < m.height
    ensures !Touched(m, Index(m, cx, cy), cx, cy)
  {
    if Touched(m, Index(m, cx, cy), cx, cy) {
      var x: nat, y: nat :| Before(m, x, y, cx, cy) && Index(m, cx, cy) == Index(m, x, y);
      IndexInjective(m, x, y, cx, cy);
    }
  }

  /** row_ptr(y), as a position in the buffer. */
  function RowStart(m: Matrix, y: nat): nat
  {
    Index(m, 0, y)
  }

  /** The cells of row cy are the width positions from row_ptr(cy) on. */
  lemma RowCells(m: Matrix, cy: nat)
    requires Valid(m) && cy < m.height
    ensures forall j: nat | j < m.width :: Index(m, j, cy) == RowStart(m, cy) + j < m.data.Length
  {
    forall j: nat | j < m.width
      ensures Index(m, j, cy) == RowStart(m, cy) + j < m.data.Length
    {
      IndexInBuffer(m, j, cy);
    }
  }

  /** A non-empty row lies inside the buffer. */
  lemma RowInBuffer(m: Matrix, cy: nat)
    requires Valid(m) && cy < m.height
    ensures m.width != 0 ==> RowStart(m, cy) + m.width <= m.data.Length
  {
    if m.width != 0 {
      IndexInBuffer(m, m.width - 1, cy);
    }
  }

  /** Sweeping less far touches no more positions. */
  lemma TouchedBefore(m: Matrix, i: int, cx: nat, cy: nat, dx: nat, dy: nat)
    requires cy < dy || (cy == dy && cx <= dx)
    requires Touched(m, i, cx, cy)
    ensures Touched(m, i, dx, dy)
  {
    var x: nat, y: nat :| Before(m, x, y, cx, cy) && i == Index(m, x, y);
    assert Before(m, x, y, dx, dy);
  }

  /** The positions touched by the end of row cy: those touched before it, and the row itself. */
  lemma RowTouched(m: Matrix, i: int, cy: nat)
    requires cy < m.height
    ensures Touched(m, i, 0, cy + 1) <==> Touched(m, i, 0, cy) || RowStart(m, cy) <= i < RowStart(m, cy) + m.width
  {
    if Touched(m, i, 0, cy) {
      TouchedBefore(m, i, 0, cy, 0, cy + 1);
    }
    if RowStart(m, cy) <= i < RowStart(m, cy) + m.width {
      var j: nat := i - RowStart(m, cy);
      assert Before(m, j, cy, 0, cy + 1) && i == Index(m, j, cy);
    }
    if Touched(m, i, 0, cy + 1) {
      var x: nat, y: nat :| Before(m, x, y, 0, cy + 1) && i == Index(m, x, y);
      if y < cy {
        assert Before(m, x, y, 0, cy);
      }
    }
  }

  // ---------------------------------------------------------------------
  // Row-by-row updates, specified on the buffer's contents

  /**
   * The buffer s with row y of the view rewritten: the position of cell
   * (x, y) gets f(x, y, its old value); every other position is kept.
   */
  ghost function RowApplied(m: Matrix, s: seq<real>, f: (nat, nat, real) -> real, y: nat): (r: seq<real>)
    ensures |r| == |s|
  {
    seq(|s|, i requires 0 <= i < |s| =>
      if RowStart(m, y) <= i < RowStart(m, y) + m.width then f(i - RowStart(m, y), y, s[i]) else s[i])
  }

  /** The buffer s after rows 0 .. rows - 1 of the view have been rewritten in order. */
  ghost function Applied(m: Matrix, s: seq<real>, f: (nat, nat, real) -> real, rows: nat): (r: seq<real>)
    ensures |r| == |s|
    decreases rows
  {
    if rows == 0 then s else RowApplied(m, Applied(m, s, f, rows - 1), f, rows - 1)
  }

  /**
   * After rows 0 .. rows - 1 are rewritten, each of their cells holds f of
   * its original value, and every position not in those rows is unchanged.
   */
  lemma {:induction false} AppliedCells(m: Matrix, s: seq<real>, f: (nat, nat, real) -> real, rows: nat)
    requires Valid(m) && |s| == m.data.Length && rows <= m.height
    ensures forall x: nat, y: nat | x < m.width && y < rows ::
      Index(m, x, y) < |s| && Applied(m, s, f, rows)[Index(m, x, y)] == f(x, y, s[Index(m, x, y)])
    ensures forall i | 0 <= i < |s| && !Touched(m, i, 0, rows) :: Applied(m, s, f, rows)[i] == s[i]
  {
    if rows != 0 {
      var cy := rows - 1;
      AppliedCells(m, s, f, cy);
      var prev := Applied(m, s, f, cy);
      var next := Applied(m, s, f, rows);
      assert next == RowApplied(m, prev, f, cy);
      RowCells(m, cy);
      forall x: nat, y: nat | x < m.width && y < rows
        ensures Index(m, x, y) < |s| && next[Index(m, x, y)] == f(x, y, s[Index(m, x, y)])
      {
        IndexInBuffer(m, x, y);
        if y < cy {
          RowsApart(m, x, y, 0, cy);
        } else {
          NotYetTouched(m, 0, cy);
          if Touched(m, Index(m, x, y), 0, cy) {
            var x2: nat, y2: nat :| Before(m, x2, y2, 0, cy) && Index(m, x, y) == Index(m, x2, y2);
            IndexInjective(m, x, y, x2, y2);
          }
        }
      }
      forall i | 0 <= i < |s| && !Touched(m, i, 0, rows)
        ensures next[i] == s[i]
      {
        RowTouched(m, i, cy);
      }
    }
  }

  /** A finished row-by-row update: every cell holds f of its value, nothing outside the view changed. */
  lemma AppliedView(m: Matrix, s: seq<real>, f: (nat, nat, real) -> real)
    requires Valid(m) && |s| == m.data.Length
    ensures forall x: nat, y: nat | x < m.width && y < m.height ::
      Index(m, x, y) < |s| && Applied(m, s, f, m.height)[Index(m, x, y)] == f(x, y, s[Index(m, x, y)])
    ensures SameOutside(m, s, Applied(m, s, f, m.height))
  {
    AppliedCells(m, s, f, m.height);
  }

  /**
   * A row update that rewrites exactly the positions of row y, each by a
   * rule g of its offset in the row and its old value, is RowApplied.
   */
  lemma RowUpdate(m: Matrix, before: seq<real>, after: seq<real>, f: (nat, nat, real) -> real, y: nat)
    requires |after| == |before|
    requires forall p | RowStart(m, y) <= p < RowStart(m, y) + m.width && p < |before| ::
      after[p] == f(p - RowStart(m, y), y, before[p])
    requires forall p | 0 <= p < |before| && !(RowStart(m, y) <= p < RowStart(m, y) + m.width) :: after[p] == before[p]
    ensures after == RowApplied(m, before, f, y)
  {
  }

  // ---------------------------------------------------------------------
  // In-place updates

  /** fill's rule: every cell becomes v. */
  ghost function FillCell(v: real): (nat, nat, real) -> real
  {
    (x: nat, y: nat, old_: real) => v
  }

  /** MemSet(ptr, n, v): the n positions from start on become v. */
  method MemSet(a: array<real>, start: nat, n: nat, v: real)
    requires n != 0 ==> start + n <= a.Length
    modifies a
    ensures forall p | start <= p < start + n :: a[p] == v
    ensures forall p | 0 <= p < a.Length && !(start <= p < start + n) :: a[p] == old(a[p])
  {
    for i := 0 to n
      invariant forall p | start <= p < start + i :: a[p] == v
      invariant forall p | 0 <= p < a.Length && !(start <= p < start + i) :: a[p] == old(a[p])
    {
      a[start + i] := v;
    }
  }

  /**
   * fill(v) (matrix.hpp:121-125): every cell of the view becomes v; the
   * rest of the buffer is untouched.
   */
  method Fill(m: Matrix, v: real)
    requires Valid(m)
    modifies m.data
    ensures m.data[..] == Applied(m, old(m.data[..]), FillCell(v), m.height)
    ensures forall x: nat, y: nat | x < m.width && y < m.height :: At(m, x, y) == v
    ensures SameOutside(m, old(m.data[..]), m.data[..])
  {
    ghost var orig := m.data[..];
    for ri := 0 to m.height
      invariant m.data[..] == Applied(m, orig, FillCell(v), ri)
    {
      FillRow(m, ri, v);
    }
    AppliedView(m, orig, FillCell(v));
  }

  /** One row of fill: memset over row_ptr(ri). */
  method FillRow(m: Matrix, ri: nat, v: real)
    requires Valid(m) && ri < m.height
    modifies m.data
    ensures m.data[..] == RowApplied(m, old(m.data[..]), FillCell(v), ri)
  {
    RowInBuffer(m, ri);
    MemSet(m.data, RowStart(m, ri), m.width, v);
    RowUpdate(m, old(m.data[..]), m.data[..], FillCell(v), ri);
  }

  /**
   * comp_mul_with's per-cell rule (matrix.hpp:146-149): a zero on either
   * side gives zero, otherwise the product.
   */
  function MulZero(a: real, b: real): (r: real)
    ensures r == 0.0 <==> a == 0.0 || b == 0.0
  {
    if a == 0.0 || b == 0.0 then 0.0 else a * b
  }

  /**
   * Over the reals the zero test never changes the product; in floating
   * point it keeps 0 * inf and 0 * NaN at zero.
   */
  lemma MulZeroIsProduct(a: real, b: real)
    ensures MulZero(a, b) == a * b
  {
    if a != 0.0 && b != 0.0 {
    } else if a == 0.0 {
      assert a * b == 0.0;
    } else {
      assert a * b == 0.0;
    }
  }

  /** Dividing by a non-zero cell and multiplying back gives the original cell. */
  lemma DivThenMul(a: real, b: real)
    requires b != 0.0
    ensures MulZero(a / b, b) == a
  {
    if a != 0.0 {
      assert a / b != 0.0;
    }
  }

  /** comp_mul_with's rule, with rb a snapshot of the operand's buffer. */
  ghost function MulCell(rhs: Matrix, rb: seq<real>): (nat, nat, real) -> real
  {
    (x: nat, y: nat, v: real) => MulValue(rhs, rb, x, y, v)
  }

  function MulValue(rhs: Matrix, rb: seq<real>, x: nat, y: nat, v: real): real
  {
    if Index(rhs, x, y) < |rb| then MulZero(v, rb[Index(rhs, x, y)]) else 0.0
  }

  /** The inner loop of comp_mul_with over one row: this_row[ci] against rhs_row[ci]. */
  method MulSpan(a: array<real>, start: nat, b: array<real>, bStart: nat, n: nat)
    requires a != b
    requires n != 0 ==> start + n <= a.Length && bStart + n <= b.Length
    modifies a
    ensures forall p | start <= p < start + n :: a[p] == MulZero(old(a[p]), b[bStart + (p - start)])
    ensures forall p | 0 <= p < a.Length && !(start <= p < start + n) :: a[p] == old(a[p])
  {
    for ci := 0 to n
      invariant forall p | start <= p < start + ci :: a[p] == MulZero(old(a[p]), b[bStart + (p - start)])
      invariant forall p | 0 <= p < a.Length && !(start <= p < start + ci) :: a[p] == old(a[p])
    {
      if a[start + ci] == 0.0 || b[bStart + ci] == 0.0 {
        a[start + ci] := 0.0;
      } else {
        a[start + ci] := a[start + ci] * b[bStart + ci];
      }
    }
  }

  /** One row of comp_mul_with, as RowApplied. */
  lemma MulRowUpdate(m: Matrix, rhs: Matrix, rb: seq<real>, before: seq<real>, after: seq<real>, y: nat)
    requires Valid(rhs) && rhs.width == m.width && y < rhs.height && |rb| == rhs.data.Length
    requires |after| == |before|
    requires forall p | RowStart(m, y) <= p < RowStart(m, y) + m.width && p < |before| ::
      RowStart(rhs, y) + (p - RowStart(m, y)) < |rb|
      && after[p] == MulZero(before[p], rb[RowStart(rhs, y) + (p - RowStart(m, y))])
    requires forall p | 0 <= p < |before| && !(RowStart(m, y) <= p < RowStart(m, y) + m.width) :: after[p] == before[p]
    ensures after == RowApplied(m, before, MulCell(rhs, rb), y)
  {
    RowCells(rhs, y);
    RowUpdate(m, before, after, MulCell(rhs, rb), y);
  }

  /**
   * comp_mul_with(mat) (matrix.hpp:136-152): each cell becomes MulZero of
   * itself and the matching cell of rhs. The sizes must match; the operand
   * lives in another buffer (see the README).
   */
  method CompMulWith(m: Matrix, rhs: Matrix)
    requires Valid(m) && Valid(rhs) && rhs.width == m.width && rhs.height == m.height
    requires rhs.data != m.data
    modifies m.data
    ensures m.data[..] == Applied(m, old(m.data[..]), MulCell(rhs, rhs.data[..]), m.height)
    ensures forall x: nat, y: nat | x < m.width && y < m.height :: Index(m, x, y) < m.data.Length
    ensures forall x: nat, y: nat | x < m.width && y < m.height ::
      At(m, x, y) == MulZero(old(m.data[..])[Index(m, x, y)], At(rhs, x, y))
    ensures SameOutside(m, old(m.data[..]), m.data[..])
  {
    ghost var orig := m.data[..];
    ghost var rb := rhs.data[..];
    for ri := 0 to m.height
      invariant m.data[..] == Applied(m, orig, MulCell(rhs, rb), ri)
    {
      MulRow(m, rhs, ri);
    }
    AppliedView(m, orig, MulCell(rhs, rb));
    forall x: nat, y: nat | x < m.width && y < m.height
      ensures Index(rhs, x, y) < |rb|
    {
      IndexInBuffer(rhs, x, y);
    }
  }

  /** One row of comp_mul_with: this_row against rhs_row. */
  method MulRow(m: Matrix, rhs: Matrix, ri: nat)
    requires Valid(m) && Valid(rhs) && rhs.width == m.width && ri < m.height && ri < rhs.height
    requires rhs.data != m.data
    modifies m.data
    ensures m.data[..] == RowApplied(m, old(m.data[..]), MulCell(rhs, rhs.data[..]), ri)
  {
    RowInBuffer(m, ri);
    RowInBuffer(rhs, ri);
    MulSpan(m.data, RowStart(m, ri), rhs.data, RowStart(rhs, ri), m.width);
    MulRowUpdate(m, rhs, rhs.data[..], old(m.data[..]), m.data[..], ri);
  }

  /** comp_div_with's rule, with rb a snapshot of the operand's buffer. */
  ghost function DivCell(rhs: Matrix, rb: seq<real>): (nat, nat, real) -> real
  {
    (x: nat, y: nat, v: real) => DivValue(rhs, rb, x, y, v)
  }

  function DivValue(rhs: Matrix, rb: seq<real>, x: nat, y: nat, v: real): real
  {
    if Index(rhs, x, y) < |rb| && rb[Index(rhs, x, y)] != 0.0 then v / rb[Index(rhs, x, y)] else 0.0
  }

  /** The inner loop of comp_div_with over one row: this_row[ci] /= rhs_row[ci]. */
  method DivSpan(a: array<real>, start: nat, b: array<real>, bStart: nat, n: nat)
    requires a != b
    requires n != 0 ==> start + n <= a.Length && bStart + n <= b.Length
    requires forall q | bStart <= q < bStart + n :: b[q] != 0.0
    modifies a
    ensures forall p | start <= p < start + n :: b[bStart + (p - start)] != 0.0 && a[p] == old(a[p]) / b[bStart + (p - start)]
    ensures forall p | 0 <= p < a.Length && !(start <= p < start + n) :: a[p] == old(a[p])
  {
    for ci := 0 to n
      invariant forall p | start <= p < start + ci :: b[bStart + (p - start)] != 0.0 && a[p] == old(a[p]) / b[bStart + (p - start)]
      invariant forall p | 0 <= p < a.Length && !(start <= p < start + ci) :: a[p] == old(a[p])
    {
      a[start + ci] := a[start + ci] / b[bStart + ci];
    }
  }

  /** The cells of a row of rhs with no zero cell are non-zero buffer positions. */
  lemma NonZeroRow(rhs: Matrix, cy: nat)
    requires Valid(rhs) && cy < rhs.height
    requires forall x: nat, y: nat | x < rhs.width && y < rhs.height :: At(rhs, x, y) != 0.0
    ensures rhs.width != 0 ==> RowStart(rhs, cy) + rhs.width <= rhs.data.Length
    ensures forall q | RowStart(rhs, cy) <= q < RowStart(rhs, cy) + rhs.width :: rhs.data[q] != 0.0
  {
    RowInBuffer(rhs, cy);
    forall q | RowStart(rhs, cy) <= q < RowStart(rhs, cy) + rhs.width
      ensures rhs.data[q] != 0.0
    {
      var j: nat := q - RowStart(rhs, cy);
      assert At(rhs, j, cy) != 0.0;
    }
  }

  /** One row of comp_div_with, as RowApplied. */
  lemma DivRowUpdate(m: Matrix, rhs: Matrix, rb: seq<real>, before: seq<real>, after: seq<real>, y: nat)
    requires Valid(rhs) && rhs.width == m.width && y < rhs.height && |rb| == rhs.data.Length
    requires |after| == |before|
    requires forall p | RowStart(m, y) <= p < RowStart(m, y) + m.width && p < |before| ::
      RowStart(rhs, y) + (p - RowStart(m, y)) < |rb| && rb[RowStart(rhs, y) + (p - RowStart(m, y))] != 0.0
      && after[p] == before[p] / rb[RowStart(rhs, y) + (p - RowStart(m, y))]
    requires forall p | 0 <= p < |before| && !(RowStart(m, y) <= p < RowStart(m, y) + m.width) :: after[p] == before[p]
    ensures after == RowApplied(m, before, DivCell(rhs, rb), y)
  {
    RowCells(rhs, y);
    RowUpdate(m, before, after, DivCell(rhs, rb), y);
  }

  /**
   * comp_div_with(mat) (matrix.hpp:156-168): each cell is divided by the
   * matching cell of rhs. The sizes must match; the operand lives in
   * another buffer and has no zero cell (see the README).
   */
  method CompDivWith(m: Matrix, rhs: Matrix)
    requires Valid(m) && Valid(rhs) && rhs.width == m.width && rhs.height == m.height
    requires rhs.data != m.data
    requires forall x: nat, y: nat | x < rhs.width && y < rhs.height :: At(rhs, x, y) != 0.0
    modifies m.data
    ensures m.data[..] == Applied(m, old(m.data[..]), DivCell(rhs, rhs.data[..]), m.height)
    ensures forall x: nat, y: nat | x < m.width && y < m.height :: Index(m, x, y) < m.data.Length
    ensures forall x: nat, y: nat | x < m.width && y < m.height ::
      At(m, x, y) == old(m.data[..])[Index(m, x, y)] / At(rhs, x, y)
    ensures SameOutside(m, old(m.data[..]), m.data[..])
  {
    ghost var orig := m.data[..];
    ghost var rb := rhs.data[..];
    for ri := 0 to m.height
      invariant m.data[..] == Applied(m, orig, DivCell(rhs, rb), ri)
    {
      DivRow(m, rhs, ri);
    }
    AppliedView(m, orig, DivCell(rhs, rb));
    forall x: nat, y: nat | x < m.width && y < m.height
      ensures Index(rhs, x, y) < |rb| && rb[Index(rhs, x, y)] != 0.0
    {
      IndexInBuffer(rhs, x, y);
      assert At(rhs, x, y) != 0.0;
    }
  }

  /** One row of comp_div_with: this_row divided by rhs_row. */
  method DivRow(m: Matrix, rhs: Matrix, ri: nat)
    requires Valid(m) && Valid(rhs) && rhs.width == m.width && ri < m.height && ri < rhs.height
    requires rhs.data != m.data
    requires forall x: nat, y: nat | x < rhs.width && y < rhs.height :: At(rhs, x, y) != 0.0
    modifies m.data
    ensures m.data[..] == RowApplied(m, old(m.data[..]), DivCell(rhs, rhs.data[..]), ri)
  {
    RowInBuffer(m, ri);
    NonZeroRow(rhs, ri);
    DivSpan(m.data, RowStart(m, ri), rhs.data, RowStart(rhs, ri), m.width);
    DivRowUpdate(m, rhs, rhs.data[..], old(m.data[..]), m.data[..], ri);
  }

  /**
   * comp_div_with followed by comp_mul_with by the same zero-free operand
   * restores the buffer exactly.
   */
  lemma DivThenMulRestores(m: Matrix, rhs: Matrix, rb: seq<real>, s: seq<real>)
    requires Valid(m) && |s| == m.data.Length && rhs.width == m.width && rhs.height == m.height
    requires forall x: nat, y: nat | x < rhs.width && y < rhs.height :: Index(rhs, x, y) < |rb| && rb[Index(rhs, x, y)] != 0.0
    ensures Applied(m, Applied(m, s, DivCell(rhs, rb), m.height), MulCell(rhs, rb), m.height) == s
  {
    var d := Applied(m, s, DivCell(rhs, rb), m.height);
    var r := Applied(m, d, MulCell(rhs, rb), m.height);
    AppliedCells(m, s, DivCell(rhs, rb), m.height);
    AppliedCells(m, d, MulCell(rhs, rb), m.height);
    forall i | 0 <= i < |s|
      ensures r[i] == s[i]
    {
      if Touched(m, i, 0, m.height) {
        var x: nat, y: nat :| Before(m, x, y, 0, m.height) && i == Index(m, x, y);
        assert d[i] == DivValue(rhs, rb, x, y, s[i]);
        assert r[i] == MulValue(rhs, rb, x, y, d[i]);
        DivThenMul(s[i], rb[Index(rhs, x, y)]);
      }
    }
  }

  /** operator*='s rule: each cell times k. */
  ghost function ScaleCell(k: real): (nat, nat, real) -> real
  {
    (x: nat, y: nat, v: real) => v * k
  }

  /** The inner loop of operator*= over one row: l[i] *= rhs. */
  method ScaleSpan(a: array<real>, start: nat, n: nat, k: real)
    requires n != 0 ==> start + n <= a.Length
    modifies a
    ensures forall p | start <= p < start + n :: a[p] == old(a[p]) * k
    ensures forall p | 0 <= p < a.Length && !(start <= p < start + n) :: a[p] == old(a[p])
  {
    for i := 0 to n
      invariant forall p | start <= p < start + i :: a[p] == old(a[p]) * k
      invariant forall p | 0 <= p < a.Length && !(start <= p < start + i) :: a[p] == old(a[p])
    {
      a[start + i] := a[start + i] * k;
    }
  }

  /**
   * operator*=(lhs, rhs) (matrix.hpp:305-314): every cell is multiplied by
   * k; the rest of the buffer is untouched.
   */
  method ScaleBy(m: Matrix, k: real)
    requires Valid(m)
    modifies m.data
    ensures m.data[..] == Applied(m, old(m.data[..]), ScaleCell(k), m.height)
    ensures forall x: nat, y: nat | x < m.width && y < m.height :: Index(m, x, y) < m.data.Length
    ensures forall x: nat, y: nat | x < m.width && y < m.height :: At(m, x, y) == old(m.data[..])[Index(m, x, y)] * k
    ensures SameOutside(m, old(m.data[..]), m.data[..])
  {
    ghost var orig := m.data[..];
    for ri := 0 to m.height
      invariant m.data[..] == Applied(m, orig, ScaleCell(k), ri)
    {
      ScaleRow(m, ri, k);
    }
    AppliedView(m, orig, ScaleCell(k));
  }

  /** One row of operator*=: every cell of row ri times k. */
  method ScaleRow(m: Matrix, ri: nat, k: real)
    requires Valid(m) && ri < m.height
    modifies m.data
    ensures m.data[..] == RowApplied(m, old(m.data[..]), ScaleCell(k), ri)
  {
    RowInBuffer(m, ri);
    ScaleSpan(m.data, RowStart(m, ri), m.width, k);
    RowUpdate(m, old(m.data[..]), m.data[..], ScaleCell(k), ri);
  }

  // ---------------------------------------------------------------------
  // Allocation and views

  /**
   * allocate(w, h) (matrix.hpp:20-27): a new buffer of w*h cells with
   * stride w. The source leaves the cells uninitialised; here they start
   * at zero.
   */
  method Allocate(w: nat, h: nat) returns (m: Matrix)
    ensures fresh(m.data) && Valid(m) && m.data.Length == w * h
    ensures m.ptr == 0 && m.stride == w && m.width == w && m.height == h
  {
    var data := new real[w * h];
    m := Matrix(data, 0, w, w, h);
    if w != 0 && h != 0 {
      assert w * (h - 1) + w == w * h;
    }
  }

  /** allocate(w, h, val) (matrix.hpp:30-34): allocate, then fill with val. */
  method AllocateFilled(w: nat, h: nat, val: real) returns (m: Matrix)
    ensures fresh(m.data) && Valid(m) && m.width == w && m.height == h
    ensures forall x: nat, y: nat | x < w && y < h :: At(m, x, y) == val
  {
    m := Allocate(w, h);
    Fill(m, val);
  }

  /**
   * slice2D(x, y, w, h) (matrix.hpp:79-84): an empty matrix when w*h == 0,
   * otherwise (after the bounds check) the w x h view at (x, y) with the
   * same stride, sharing the buffer.
   */
  function Slice2D(m: Matrix, x: nat, y: nat, w: nat, h: nat): (r: Matrix)
    requires w * h == 0 || (x + w <= m.width && y + h <= m.height)
    ensures r.data == m.data
    ensures w * h == 0 ==> r.width == 0 && r.height == 0
    ensures w * h != 0 ==> r.width == w && r.height == h
    ensures w * h != 0 ==> forall i: nat, j: nat | i < w && j < h :: Index(r, i, j) == Index(m, x + i, y + j)
  {
    if w * h == 0 then Matrix(m.data, 0, 0, 0, 0)
    else Matrix(m.data, Index(m, x, y), m.stride, w, h)
  }

  /** A slice of a valid matrix is valid, and each of its cells is the matching cell of m. */
  lemma SliceValid(m: Matrix, x: nat, y: nat, w: nat, h: nat)
    requires Valid(m) && (w * h == 0 || (x + w <= m.width && y + h <= m.height))
    ensures Valid(Slice2D(m, x, y, w, h))
    ensures w * h != 0 ==> forall i: nat, j: nat | i < w && j < h ::
      At(Slice2D(m, x, y, w, h), i, j) == At(m, x + i, y + j)
  {
    if w * h != 0 {
      assert w != 0 && h != 0;
      IndexInBuffer(m, x + w - 1, y + h - 1);
    }
  }

  /** A slice covers exactly the cells of m inside its rectangle. */
  lemma SliceInView(m: Matrix, x0: nat, y0: nat, w: nat, h: nat, x: nat, y: nat)
    requires Valid(m) && w * h != 0 && x0 + w <= m.width && y0 + h <= m.height
    requires x < m.width && y < m.height
    ensures InView(Slice2D(m, x0, y0, w, h), Index(m, x, y)) <==> x0 <= x < x0 + w && y0 <= y < y0 + h
  {
    var r := Slice2D(m, x0, y0, w, h);
    if InView(r, Index(m, x, y)) {
      var i: nat, j: nat :| Before(r, i, j, 0, r.height) && Index(m, x, y) == Index(r, i, j);
      IndexInjective(m, x, y, x0 + i, y0 + j);
    }
    if x0 <= x < x0 + w && y0 <= y < y0 + h {
      assert Before(r, x - x0, y - y0, 0, r.height);
    }
  }

  /**
   * diagD() as written (matrix.hpp:97-101): an s x s view with stride + 1,
   * s = min(width, height). Its cell (x, y) is m's cell (x + y, y), so only
   * its first column is the diagonal.
   */
  function DiagDAsWritten(m: Matrix): (r: Matrix)
    ensures r.data == m.data && r.width == r.height == Ranges.IntMin(m.width, m.height)
    ensures forall x: nat, y: nat :: Index(r, x, y) == Index(m, x + y, y)
  {
    var s := Ranges.IntMin(m.width, m.height) as nat;
    Matrix(m.data, m.ptr, m.stride + 1, s, s)
  }

  /**
   * On an allocated n x n matrix, n >= 2, the as-written diagonal view
   * reaches past the buffer, and its cell (1, 0) is m's off-diagonal (1, 0).
   */
  lemma DiagDAsWrittenOverruns(m: Matrix, n: nat)
    requires 2 <= n && m.ptr == 0 && m.stride == n && m.width == n && m.height == n
    requires m.data.Length == n * n
    ensures Valid(m)
    ensures !Valid(DiagDAsWritten(m))
    ensures m.data.Length <= Index(DiagDAsWritten(m), n - 1, n - 1)
    ensures Index(DiagDAsWritten(m), 1, 0) == Index(m, 1, 0)
  {
    assert n * (n - 1) + n == n * n;
    assert (n + 1) * (n - 1) == n * n - 1;
  }

  /**
   * The diagonal view the source evidently intends: a one-column view of
   * s = min(width, height) cells with stride + 1, whose cell k is m's
   * cell (k, k).
   */
  function DiagD(m: Matrix): (r: Matrix)
    ensures r.data == m.data && r.width == 1 && r.height == Ranges.IntMin(m.width, m.height)
    ensures forall k: nat :: Index(r, 0, k) == Index(m, k, k)
  {
    var s := Ranges.IntMin(m.width, m.height) as nat;
    Matrix(m.data, m.ptr, m.stride + 1, 1, s)
  }

  /** DiagD of a valid matrix is valid, and its cell k is m's cell (k, k). */
  lemma DiagDIsDiagonal(m: Matrix)
    requires Valid(m)
    ensures Valid(DiagD(m))
    ensures DiagD(m).width == 1 && DiagD(m).height == Ranges.IntMin(m.width, m.height)
    ensures forall k: nat | k < DiagD(m).height :: Index(DiagD(m), 0, k) == Index(m, k, k)
  {
    var d := DiagD(m);
    if d.height != 0 {
      IndexInBuffer(m, d.height - 1, d.height - 1);
      assert Index(d, 0, d.height - 1) == Index(m, d.height - 1, d.height - 1);
    }
  }

  // ---------------------------------------------------------------------
  // New matrices

  /** transposed(mat) (matrix.hpp:353-360): ret(r, c) = mat(c, r). */
  method Transposed(mat: Matrix) returns (r: Matrix)
    requires Valid(mat)
    ensures fresh(r.data) && Valid(r) && r.width == mat.height && r.height == mat.width
    ensures forall x: nat, y: nat | x < r.width && y < r.height :: At(r, x, y) == At(mat, y, x)
  {
    r := Allocate(mat.height, mat.width);
    for ri := 0 to mat.height
      invariant forall x: nat, y: nat | Before(mat, x, y, 0, ri) :: At(r, y, x) == At(mat, x, y)
    {
      for ci := 0 to mat.width
        invariant forall x: nat, y: nat | Before(mat, x, y, ci, ri) :: At(r, y, x) == At(mat, x, y)
      {
        IndexInBuffer(r, ri, ci);
        IndexInBuffer(mat, ci, ri);
        r.data[Index(r, ri, ci)] := mat.data[Index(mat, ci, ri)];
        forall x: nat, y: nat | Before(mat, x, y, ci + 1, ri)
          ensures At(r, y, x) == At(mat, x, y)
        {
          IndexInjective(r, y, x, ri, ci);
        }
      }
      forall x: nat, y: nat | Before(mat, x, y, 0, ri + 1)
        ensures At(r, y, x) == At(mat, x, y)
      {
        assert Before(mat, x, y, mat.width, ri);
      }
    }
    forall x: nat, y: nat | x < r.width && y < r.height
      ensures At(r, x, y) == At(mat, y, x)
    {
      assert Before(mat, y, x, 0, mat.height);
    }
  }

  /** outer's rule: cell (x, y) becomes colV[y] * rowV[x]. */
  ghost function OuterCell(colV: seq<real>, rowV: seq<real>): (nat, nat, real) -> real
  {
    (x: nat, y: nat, v: real) => OuterValue(colV, rowV, x, y)
  }

  function OuterValue(colV: seq<real>, rowV: seq<real>, x: nat, y: nat): real
  {
    if x < |rowV| && y < |colV| then colV[y] * rowV[x] else 0.0
  }

  /**
   * outer(colV, rowV) (matrix.hpp:369-378): a |rowV| x |colV| matrix with
   * m(x, y) = colV[y] * rowV[x].
   */
  method Outer(colV: seq<real>, rowV: seq<real>) returns (m: Matrix)
    ensures fresh(m.data) && Valid(m) && m.width == |rowV| && m.height == |colV|
    ensures forall x: nat, y: nat | x < m.width && y < m.height :: At(m, x, y) == colV[y] * rowV[x]
  {
    var w := |rowV|;
    var h := |colV|;
    m := Allocate(w, h);
    ghost var orig := m.data[..];
    for yi := 0 to h
      invariant m.data[..] == Applied(m, orig, OuterCell(colV, rowV), yi)
    {
      OuterRow(m, colV, rowV, yi);
    }
    OuterCells(m, colV, rowV, orig);
  }

  /** A finished outer sweep, read back cell by cell. */
  lemma OuterCells(m: Matrix, colV: seq<real>, rowV: seq<real>, orig: seq<real>)
    requires Valid(m) && m.width == |rowV| && m.height == |colV| && |orig| == m.data.Length
    requires m.data[..] == Applied(m, orig, OuterCell(colV, rowV), m.height)
    ensures forall x: nat, y: nat | x < m.width && y < m.height :: At(m, x, y) == colV[y] * rowV[x]
  {
    AppliedCells(m, orig, OuterCell(colV, rowV), m.height);
    forall x: nat, y: nat | x < m.width && y < m.height
      ensures At(m, x, y) == colV[y] * rowV[x]
    {
      var i := Index(m, x, y);
      assert m.data[i] == OuterValue(colV, rowV, x, y);
    }
  }

  /** One row of outer: m(xi, yi) = colV[yi] * rowV[xi] for every xi. */
  method OuterRow(m: Matrix, colV: seq<real>, rowV: seq<real>, yi: nat)
    requires Valid(m) && m.width == |rowV| && yi < m.height == |colV|
    modifies m.data
    ensures m.data[..] == RowApplied(m, old(m.data[..]), OuterCell(colV, rowV), yi)
  {
    RowInBuffer(m, yi);
    for xi := 0 to m.width
      invariant forall p | RowStart(m, yi) <= p < RowStart(m, yi) + xi :: m.data[p] == colV[yi] * rowV[p - RowStart(m, yi)]
      invariant forall p | 0 <= p < m.data.Length && !(RowStart(m, yi) <= p < RowStart(m, yi) + xi) :: m.data[p] == old(m.data[p])
    {
      m.data[Index(m, xi, yi)] := colV[yi] * rowV[xi];
    }
    RowUpdate(m, old(m.data[..]), m.data[..], OuterCell(colV, rowV), yi);
  }

  // ---------------------------------------------------------------------
  // soften_left_right

  /** A view inside m covers only cells of m. */
  lemma SliceInsideView(m: Matrix, x0: nat, y0: nat, w: nat, h: nat, i: int)
    requires Valid(m) && (w * h == 0 || (x0 + w <= m.width && y0 + h <= m.height))
    requires InView(Slice2D(m, x0, y0, w, h), i)
    ensures InView(m, i)
  {
    var r := Slice2D(m, x0, y0, w, h);
    var a: nat, b: nat :| Before(r, a, b, 0, r.height) && i == Index(r, a, b);
    assert Before(m, x0 + a, y0 + b, 0, m.height);
  }

  /**
   * The effect on m of comp_mul_with on its w-column slice at column x0,
   * against the w-column slice of s at column sx0: the cells in those
   * columns become MulZero of their old value and the matching cell of s,
   * every other position is unchanged.
   */
  lemma SliceMul(m: Matrix, s: Matrix, x0: nat, sx0: nat, w: nat, before: seq<real>)
    requires Valid(m) && Valid(s) && s.height == m.height
    requires x0 + w <= m.width && sx0 + w <= s.width && |before| == m.data.Length
    requires var dst := Slice2D(m, x0, 0, w, m.height); var src := Slice2D(s, sx0, 0, w, m.height);
      Valid(dst) && Valid(src)
      && (forall i: nat, j: nat | i < dst.width && j < dst.height ::
        Index(dst, i, j) < |before| && At(dst, i, j) == MulZero(before[Index(dst, i, j)], At(src, i, j)))
      && SameOutside(dst, before, m.data[..])
    ensures forall x: nat, y: nat | x < m.width && y < m.height ::
      Index(m, x, y) < |before|
      && At(m, x, y) == if x0 <= x < x0 + w then MulZero(before[Index(m, x, y)], At(s, sx0 + (x - x0), y)) else before[Index(m, x, y)]
    ensures SameOutside(m, before, m.data[..])
  {
    var h := m.height;
    var dst := Slice2D(m, x0, 0, w, h);
    forall x: nat, y: nat | x < m.width && y < h
      ensures Index(m, x, y) < |before|
      ensures At(m, x, y) == if x0 <= x < x0 + w then MulZero(before[Index(m, x, y)], At(s, sx0 + (x - x0), y)) else before[Index(m, x, y)]
    {
      IndexInBuffer(m, x, y);
      if x0 <= x < x0 + w {
        SliceValid(m, x0, 0, w, h);
        SliceValid(s, sx0, 0, w, h);
        assert At(dst, x - x0, y) == At(m, x, y);
      } else if w * h != 0 {
        SliceInView(m, x0, 0, w, h, x, y);
      }
    }
    forall i | 0 <= i < |before| && !InView(m, i)
      ensures m.data[..][i] == before[i]
    {
      if InView(dst, i) {
        SliceInsideView(m, x0, 0, w, h, i);
      }
    }
  }

  /** soft_w = min(4, width/2*2): even, at most 4, and at least 2 once width >= 2. */
  function SoftWidth(width: nat): (r: nat)
    ensures r % 2 == 0 && r <= 4 && r <= width
    ensures 2 <= width ==> 2 <= r
  {
    Ranges.IntMin(4, width / 2 * 2) as nat
  }

  /**
   * The left and right soft bands of a matrix at least 3 wide hold one or
   * two columns each and never overlap.
   */
  lemma SoftBandsApart(width: nat)
    requires 3 <= width
    ensures var half := SoftWidth(width) / 2; 1 <= half <= 2 && half <= width - half
  {
  }

  /**
   * The value soften_left_right leaves in column x of a width-wide matrix
   * whose cell held v, with window = make_soft_window(soft_w): the first
   * soft_w/2 columns are multiplied by the first half of the window, the
   * last soft_w/2 by the second half, the rest keep v.
   */
  function SoftValue(width: nat, left: bool, right: bool, window: seq<real>, x: nat, v: real): real
  {
    var half := SoftWidth(width) / 2;
    if width < 3 then v
    else if left && x < half && x < |window| then MulZero(v, window[x])
    else if right && width - half <= x < width && half + (x - (width - half)) < |window|
    then MulZero(v, window[half + (x - (width - half))])
    else v
  }

  /** The columns between the two bands are never changed; with both sides off nothing is. */
  lemma SoftMiddleKept(width: nat, left: bool, right: bool, window: seq<real>, x: nat, v: real)
    requires SoftWidth(width) / 2 <= x < width - SoftWidth(width) / 2 || (!left && !right)
    ensures SoftValue(width, left, right, window, x, v) == v
  {
  }

  /** A window of ones leaves every cell as it was. */
  lemma SoftOnesKeep(width: nat, left: bool, right: bool, window: seq<real>, x: nat, v: real)
    requires forall k | 0 <= k < |window| :: window[k] == 1.0
    ensures SoftValue(width, left, right, window, x, v) == v
  {
    var half := SoftWidth(width) / 2;
    if 3 <= width && left && x < half && x < |window| {
      MulZeroIsProduct(v, window[x]);
    } else if 3 <= width && right && width - half <= x < width && half + (x - (width - half)) < |window| {
      MulZeroIsProduct(v, window[half + (x - (width - half))]);
    }
  }

  /** VecR::allocate(n, 1.0f) */
  function Ones(n: nat): (r: seq<real>)
    ensures |r| == n && forall k | 0 <= k < n :: r[k] == 1.0
  {
    seq(n, k => 1.0)
  }

  /** The outer window s(x, y) = 1 * window[x], read as window[x]. */
  lemma OuterOnes(s: Matrix, window: seq<real>, h: nat)
    requires Valid(s) && s.width == |window| && s.height == h
    requires forall x: nat, y: nat | x < s.width && y < s.height :: At(s, x, y) == Ones(h)[y] * window[x]
    ensures forall x: nat, y: nat | x < s.width && y < s.height :: At(s, x, y) == window[x]
  {
    forall x: nat, y: nat | x < s.width && y < s.height
      ensures At(s, x, y) == window[x]
    {
      assert Ones(h)[y] == 1.0;
    }
  }

  /**
   * One band of soften_left_right: comp_mul_with of the w columns of m from
   * x0 on by the w columns of s from sx0 on, s(x, y) being window[x].
   */
  method SoftenBand(m: Matrix, s: Matrix, window: seq<real>, x0: nat, sx0: nat, w: nat)
    requires Valid(m) && Valid(s) && s.data != m.data && s.height == m.height && s.width == |window|
    requires x0 + w <= m.width && sx0 + w <= s.width
    requires forall x: nat, y: nat | x < s.width && y < s.height :: At(s, x, y) == window[x]
    modifies m.data
    ensures forall x: nat, y: nat | x < m.width && y < m.height ::
      Index(m, x, y) < m.data.Length
      && m.data[..][Index(m, x, y)] == if x0 <= x < x0 + w then MulZero(old(m.data[..])[Index(m, x, y)], window[sx0 + (x - x0)])
                                       else old(m.data[..])[Index(m, x, y)]
    ensures SameOutside(m, old(m.data[..]), m.data[..])
  {
    ghost var before := m.data[..];
    SliceValid(m, x0, 0, w, m.height);
    SliceValid(s, sx0, 0, w, m.height);
    CompMulWith(Slice2D(m, x0, 0, w, m.height), Slice2D(s, sx0, 0, w, m.height));
    SliceMul(m, s, x0, sx0, w, before);
  }

  /**
   * The two bands of soften_left_right put together: after the left band
   * (orig to mid) and the right band (mid to now), every cell holds its
   * SoftValue and nothing outside the view changed.
   */
  lemma SoftenCells(m: Matrix, left: bool, right: bool, window: seq<real>, orig: seq<real>, mid: seq<real>, now: seq<real>)
    requires Valid(m) && 3 <= m.width && |window| == SoftWidth(m.width) && |orig| == m.data.Length
    requires SameOutside(m, orig, mid) && SameOutside(m, mid, now)
    requires !left ==> mid == orig
    requires !right ==> now == mid
    requires left ==> forall x: nat, y: nat | x < m.width && y < m.height ::
      Index(m, x, y) < |orig|
      && mid[Index(m, x, y)] == if 0 <= x < SoftWidth(m.width) / 2 then MulZero(orig[Index(m, x, y)], window[x]) else orig[Index(m, x, y)]
    requires right ==> var half := SoftWidth(m.width) / 2;
      forall x: nat, y: nat | x < m.width && y < m.height ::
        Index(m, x, y) < |mid|
        && now[Index(m, x, y)] == if m.width - half <= x < m.width - half + half then MulZero(mid[Index(m, x, y)], window[half + (x - (m.width - half))])
                                  else mid[Index(m, x, y)]
    ensures forall x: nat, y: nat | x < m.width && y < m.height ::
      Index(m, x, y) < |now| && now[Index(m, x, y)] == SoftValue(m.width, left, right, window, x, orig[Index(m, x, y)])
    ensures SameOutside(m, orig, now)
  {
    SoftBandsApart(m.width);
    forall x: nat, y: nat | x < m.width && y < m.height
      ensures Index(m, x, y) < |now| && now[Index(m, x, y)] == SoftValue(m.width, left, right, window, x, orig[Index(m, x, y)])
    {
      IndexInBuffer(m, x, y);
    }
  }

  /**
   * soften_left_right(m, left, right) (matrix.hpp:388-400): nothing for a
   * matrix under 3 columns; otherwise, with soft_w = min(4, width/2*2) and
   * s = outer(ones(height), window), the left soft_w/2 columns are
   * comp_mul_with'ed by the left half of s and the right soft_w/2 columns
   * by its right half. window stands for make_soft_window(soft_w).
   */
  method SoftenLeftRight(m: Matrix, left: bool, right: bool, window: seq<real>)
    requires Valid(m)
    requires 3 <= m.width ==> |window| == SoftWidth(m.width)
    modifies m.data
    ensures forall x: nat, y: nat | x < m.width && y < m.height :: Index(m, x, y) < m.data.Length
    ensures forall x: nat, y: nat | x < m.width && y < m.height ::
      m.data[..][Index(m, x, y)] == SoftValue(m.width, left, right, window, x, old(m.data[..])[Index(m, x, y)])
    ensures SameOutside(m, old(m.data[..]), m.data[..])
  {
    ghost var orig := m.data[..];
    if m.width < 3 {
      forall x: nat, y: nat | x < m.width && y < m.height
        ensures Index(m, x, y) < m.data.Length
      {
        IndexInBuffer(m, x, y);
      }
      return;
    }
    var half := SoftWidth(m.width) / 2;
    SoftBandsApart(m.width);
    var s := Outer(Ones(m.height), window);
    OuterOnes(s, window, m.height);
    if left {
      SoftenBand(m, s, window, 0, 0, half);
    }
    ghost var mid := m.data[..];
    if right {
      SoftenBand(m, s, window, m.width - half, half, half);
    }
    SoftenCells(m, left, right, window, orig, mid, m.data[..]);
  }
}
