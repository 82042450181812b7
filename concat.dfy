/**
 * Concatenation of lists of matrices, side by side (`hcat`) and one above the
 * other (`vcat`), as values.  Each contract says which input element lands
 * at which position of the result.
 */
module Concatenation {
  import opened Matrices

  /** Total column count of a list. */
  function TotalCols(ms: seq<Matrix>): nat
  {
    if |ms| == 0 then 0 else TotalCols(ms[..|ms| - 1]) + ms[|ms| - 1].cols
  }

  /** Total row count of a list. */
  function TotalRows(ms: seq<Matrix>): nat
  {
    if |ms| == 0 then 0 else TotalRows(ms[..|ms| - 1]) + ms[|ms| - 1].rows
  }

  /** The buffers of a list, one after another. */
  function Buffers(ms: seq<Matrix>): seq<real>
  {
    if |ms| == 0 then [] else Buffers(ms[..|ms| - 1]) + ms[|ms| - 1].data
  }

  /** Every matrix of the list is well formed and has the row count of the first. */
  predicate SameRows(ms: seq<Matrix>)
  {
    forall k :: 0 <= k < |ms| ==> ms[k].Valid() && ms[k].rows == ms[0].rows
  }

  /** Every matrix of the list is well formed and has the column count of the first. */
  predicate SameCols(ms: seq<Matrix>)
  {
    forall k :: 0 <= k < |ms| ==> ms[k].Valid() && ms[k].cols == ms[0].cols
  }

  /** b sits inside m with its element (0, 0) at (r0, c0). */
  predicate BlockAt(m: Matrix, b: Matrix, r0: nat, c0: nat)
    requires m.Valid() && b.Valid() && r0 + b.rows <= m.rows && c0 + b.cols <= m.cols
  {
    forall r: nat, c: nat :: r < b.rows && c < b.cols ==> Get(m, r0 + r, c0 + c) == Get(b, r, c)
  }

  /** A block of a block is a block, at the sum of the offsets. */
  lemma BlockAtTrans(m: Matrix, x: Matrix, y: Matrix, r0: nat, c0: nat, r1: nat, c1: nat)
    requires m.Valid() && x.Valid() && y.Valid()
    requires r0 + x.rows <= m.rows && c0 + x.cols <= m.cols
    requires r1 + y.rows <= x.rows && c1 + y.cols <= x.cols
    requires BlockAt(m, x, r0, c0) && BlockAt(x, y, r1, c1)
    ensures BlockAt(m, y, r0 + r1, c0 + c1)
  {
    forall r: nat, c: nat | r < y.rows && c < y.cols
      ensures Get(m, r0 + r1 + r, c0 + c1 + c) == Get(y, r, c)
    {
      assert Get(x, r1 + r, c1 + c) == Get(y, r, c);
      assert r0 + r1 + r == r0 + (r1 + r) && c0 + c1 + c == c0 + (c1 + c);
    }
  }

  lemma PositionAfter(rows: nat, w: nat, r: nat, c: nat)
    ensures Idx(rows, r, w + c) == w * rows + Idx(rows, r, c)
  {
  }

  /**
   * a and b side by side.  In column-major order the columns of b follow the
   * columns of a in the buffer, so the buffers simply concatenate.
   */
  function Beside(a: Matrix, b: Matrix): (m: Matrix)
    requires a.Valid() && b.Valid() && a.rows == b.rows
    ensures m.Valid() && m.rows == a.rows && m.cols == a.cols + b.cols
    ensures m.data == a.data + b.data
    ensures BlockAt(m, a, 0, 0) && BlockAt(m, b, 0, a.cols)
  {
    var m := Matrix(a.rows, a.cols + b.cols, a.data + b.data);
    assert m.Valid() by {
      assert |m.data| == a.rows * a.cols + b.rows * b.cols;
    }
    forall r: nat, c: nat | r < a.rows && c < a.cols
      ensures Get(m, 0 + r, 0 + c) == Get(a, r, c)
    {
      BesideLeft(a, b, m, r, c);
    }
    forall r: nat, c: nat | r < a.rows && c < b.cols
      ensures Get(m, 0 + r, a.cols + c) == Get(b, r, c)
    {
      BesideRight(a, b, m, r, c);
    }
    m
  }

  lemma BesideLeft(a: Matrix, b: Matrix, m: Matrix, r: nat, c: nat)
    requires a.Valid() && b.Valid() && a.rows == b.rows
    requires m == Matrix(a.rows, a.cols + b.cols, a.data + b.data) && m.Valid()
    requires r < a.rows && c < a.cols
    ensures Get(m, r, c) == Get(a, r, c)
  {
    IdxInRange(a.rows, a.cols, r, c);
    assert Get(m, r, c) == (a.data + b.data)[Idx(a.rows, r, c)];
  }

  lemma BesideRight(a: Matrix, b: Matrix, m: Matrix, r: nat, c: nat)
    requires a.Valid() && b.Valid() && a.rows == b.rows
    requires m == Matrix(a.rows, a.cols + b.cols, a.data + b.data) && m.Valid()
    requires r < a.rows && c < b.cols
    ensures Get(m, r, a.cols + c) == Get(b, r, c)
  {
    IdxInRange(b.rows, b.cols, r, c);
    PositionAfter(a.rows, a.cols, r, c);
    IdxInRange(m.rows, m.cols, r, a.cols + c);
    assert Get(m, r, a.cols + c) == (a.data + b.data)[|a.data| + Idx(a.rows, r, c)];
  }

  /** Entry k of a non-empty list of equally tall ones fits inside `hcat` after the columns of the entries before it. */
  predicate HBlocks(m: Matrix, ms: seq<Matrix>)
    requires SameRows(ms) && m.Valid() && (|ms| > 0 ==> m.rows == ms[0].rows)
  {
    forall k :: 0 <= k < |ms| ==>
      TotalCols(ms[..k]) + ms[k].cols <= m.cols && BlockAt(m, ms[k], 0, TotalCols(ms[..k]))
  }

  /** Entry k of a non-empty list of equally wide ones fits inside `vcat` below the rows of the entries before it. */
  predicate VBlocks(m: Matrix, ms: seq<Matrix>)
    requires SameCols(ms) && m.Valid() && (|ms| > 0 ==> m.cols == ms[0].cols)
  {
    forall k :: 0 <= k < |ms| ==>
      TotalRows(ms[..k]) + ms[k].rows <= m.rows && BlockAt(m, ms[k], TotalRows(ms[..k]), 0)
  }

  lemma SameRowsInit(ms: seq<Matrix>)
    requires |ms| >= 1 && SameRows(ms)
    ensures SameRows(ms[..|ms| - 1])
  {
    var init := ms[..|ms| - 1];
    forall k | 0 <= k < |init| ensures init[k].Valid() && init[k].rows == init[0].rows {
      assert init[k] == ms[k];
    }
  }

  lemma SameColsInit(ms: seq<Matrix>)
    requires |ms| >= 1 && SameCols(ms)
    ensures SameCols(ms[..|ms| - 1])
  {
    var init := ms[..|ms| - 1];
    forall k | 0 <= k < |init| ensures init[k].Valid() && init[k].cols == init[0].cols {
      assert init[k] == ms[k];
    }
  }

  /** `hcat` of a non-empty list of equally tall matrices. */
  function HConcat(ms: seq<Matrix>): (m: Matrix)
    requires |ms| >= 1 && SameRows(ms)
    ensures m.Valid() && m.rows == ms[0].rows && m.cols == TotalCols(ms)
    ensures m.data == Buffers(ms)
    ensures HBlocks(m, ms)
    decreases |ms|
  {
    if |ms| == 1 then
      assert ms[..0] == [];
      assert Buffers(ms) == Buffers(ms[..0]) + ms[0].data;
      assert BlockAt(ms[0], ms[0], 0, 0);
      ms[0]
    else
      var init := ms[..|ms| - 1];
      SameRowsInit(ms);
      var left := HConcat(init);
      var m := Beside(left, ms[|ms| - 1]);
      HConcatStep(ms, init, left, m);
      m
  }

  /** The blocks of the list without its last entry stay blocks once the last entry is put beside them. */
  lemma HConcatStep(ms: seq<Matrix>, init: seq<Matrix>, left: Matrix, m: Matrix)
    requires |ms| >= 2 && SameRows(ms) && init == ms[..|ms| - 1] && SameRows(init)
    requires left.Valid() && left.rows == ms[0].rows && left.cols == TotalCols(init)
    requires HBlocks(left, init)
    requires ms[|ms| - 1].rows == left.rows && m == Beside(left, ms[|ms| - 1])
    ensures HBlocks(m, ms)
  {
    forall k | 0 <= k < |ms|
      ensures TotalCols(ms[..k]) + ms[k].cols <= m.cols && BlockAt(m, ms[k], 0, TotalCols(ms[..k]))
    {
      if k < |ms| - 1 {
        assert ms[..k] == init[..k];
        assert init[k] == ms[k];
        BlockAtTrans(m, left, ms[k], 0, 0, 0, TotalCols(ms[..k]));
      } else {
        assert ms[..k] == init;
        BlockAtTrans(m, ms[k], ms[k], 0, left.cols, 0, 0) by {
          assert BlockAt(ms[k], ms[k], 0, 0);
        }
      }
    }
  }

  /** a on top of b. */
  ghost function Above(a: Matrix, b: Matrix): (m: Matrix)
    requires a.Valid() && b.Valid() && a.cols == b.cols
    ensures m.Valid() && m.rows == a.rows + b.rows && m.cols == a.cols
    ensures BlockAt(m, a, 0, 0) && BlockAt(m, b, a.rows, 0)
  {
    var m := Build(a.rows + b.rows, a.cols, (r: nat, c: nat) =>
      if c >= a.cols then 0.0
      else if r < a.rows then Get(a, r, c)
      else if r - a.rows < b.rows then Get(b, r - a.rows, c)
      else 0.0);
    assert BlockAt(m, b, a.rows, 0) by {
      forall r: nat, c: nat | r < b.rows && c < b.cols
        ensures Get(m, a.rows + r, 0 + c) == Get(b, r, c)
      {
        assert a.rows + r - a.rows == r;
      }
    }
    assert BlockAt(m, a, 0, 0) by {
      forall r: nat, c: nat | r < a.rows && c < a.cols
        ensures Get(m, 0 + r, 0 + c) == Get(a, r, c)
      {
      }
    }
    m
  }

  /** `vcat` of a non-empty list of equally wide matrices. */
  ghost function VConcat(ms: seq<Matrix>): (m: Matrix)
    requires |ms| >= 1 && SameCols(ms)
    ensures m.Valid() && m.rows == TotalRows(ms) && m.cols == ms[0].cols
    ensures VBlocks(m, ms)
    decreases |ms|
  {
    if |ms| == 1 then
      assert ms[..0] == [];
      assert BlockAt(ms[0], ms[0], 0, 0);
      ms[0]
    else
      var init := ms[..|ms| - 1];
      SameColsInit(ms);
      var top := VConcat(init);
      var m := Above(top, ms[|ms| - 1]);
      VConcatStep(ms, init, top, m);
      m
  }

  /** The blocks of the list without its last entry stay blocks once the last entry is put below them. */
  lemma VConcatStep(ms: seq<Matrix>, init: seq<Matrix>, top: Matrix, m: Matrix)
    requires |ms| >= 2 && SameCols(ms) && init == ms[..|ms| - 1] && SameCols(init)
    requires top.Valid() && top.cols == ms[0].cols && top.rows == TotalRows(init)
    requires VBlocks(top, init)
    requires ms[|ms| - 1].cols == top.cols && m == Above(top, ms[|ms| - 1])
    ensures VBlocks(m, ms)
  {
    forall k | 0 <= k < |ms|
      ensures TotalRows(ms[..k]) + ms[k].rows <= m.rows && BlockAt(m, ms[k], TotalRows(ms[..k]), 0)
    {
      if k < |ms| - 1 {
        assert ms[..k] == init[..k];
        assert init[k] == ms[k];
        BlockAtTrans(m, top, ms[k], 0, 0, TotalRows(ms[..k]), 0);
      } else {
        assert ms[..k] == init;
        BlockAtTrans(m, ms[k], ms[k], top.rows, 0, 0, 0) by {
          assert BlockAt(ms[k], ms[k], 0, 0);
        }
      }
    }
  }

  /** Column c of every matrix of the list, one after another. */
  function StackedColumn(ms: seq<Matrix>, c: nat): (s: seq<real>)
    requires SameCols(ms) && (|ms| > 0 ==> c < ms[0].cols)
    ensures |s| == TotalRows(ms)
  {
    if |ms| == 0 then []
    else
      var init := ms[..|ms| - 1];
      SameColsInit(ms);
      StackedColumn(init, c) + Column(ms[|ms| - 1], c)
  }

  /** Stacking one more entry appends its column c. */
  lemma StackedColumnStep(ms: seq<Matrix>, k: nat, c: nat)
    requires SameCols(ms) && k < |ms| && c < ms[0].cols
    ensures SameCols(ms[..k]) && SameCols(ms[..k + 1])
    ensures StackedColumn(ms[..k + 1], c) == StackedColumn(ms[..k], c) + Column(ms[k], c)
  {
    assert ms[..k + 1][..k] == ms[..k];
    SameColsInit(ms[..k + 1]);
    var p := ms[..k + 1];
    assert SameCols(p) by {
      forall j | 0 <= j < |p| ensures p[j].Valid() && p[j].cols == p[0].cols {
        assert p[j] == ms[j];
      }
    }
  }

  /** Column c of a matrix on top of another is column c of the first, then column c of the second. */
  lemma ColumnOfAbove(a: Matrix, b: Matrix, c: nat)
    requires a.Valid() && b.Valid() && a.cols == b.cols && c < a.cols
    ensures Column(Above(a, b), c) == Column(a, c) + Column(b, c)
  {
    var m := Above(a, b);
    var s := Column(a, c) + Column(b, c);
    forall j | 0 <= j < a.rows + b.rows
      ensures Column(m, c)[j] == s[j]
    {
      if j >= a.rows {
        assert Get(m, a.rows + (j - a.rows), 0 + c) == Get(b, j - a.rows, c);
      } else {
        assert Get(m, 0 + j, 0 + c) == Get(a, j, c);
      }
    }
  }

  /** Column c of `vcat` is column c of every input, in list order. */
  lemma {:induction false} ColumnOfVConcat(ms: seq<Matrix>, c: nat)
    requires |ms| >= 1 && SameCols(ms) && c < ms[0].cols
    ensures Column(VConcat(ms), c) == StackedColumn(ms, c)
    decreases |ms|
  {
    if |ms| == 1 {
      assert ms[..0] == [];
      assert StackedColumn(ms, c) == StackedColumn(ms[..0], c) + Column(ms[0], c);
    } else {
      var init := ms[..|ms| - 1];
      SameColsInit(ms);
      ColumnOfVConcat(init, c);
      ColumnOfAbove(VConcat(init), ms[|ms| - 1], c);
    }
  }
}
