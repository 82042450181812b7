/**
 * The utility functions on matrices: concatenation, element-wise arithmetic,
 * product, transpose and tolerance equality.  Each one reads its inputs and
 * builds a fresh matrix; none of them changes an input.
 */
module MatrixOps {
  import opened Errors
  import opened Sums
  import opened Numbers
  import opened Matrices
  import opened Concatenation
  import opened Mat64Type

  /** The values held by a list of matrix objects. */
  function Values(ms: seq<Mat64>): (vs: seq<Matrix>)
    reads ms
    ensures |vs| == |ms|
    ensures forall k :: 0 <= k < |ms| ==> vs[k] == ms[k].Value()
  {
    seq(|ms|, k reads ms requires 0 <= k < |ms| => ms[k].Value())
  }

  /** The row-count check of `hcat`: does every input have the first input's row count? */
  method RowsAgree(mats: seq<Mat64>) returns (same: bool)
    requires |mats| >= 1 && forall k :: 0 <= k < |mats| ==> mats[k].Valid()
    ensures same <==> SameRows(Values(mats))
  {
    var newRow := mats[0].row;
    var k := 0;
    while k < |mats|
      invariant 0 <= k <= |mats|
      invariant forall j :: 0 <= j < k ==> mats[j].row == newRow
    {
      if mats[k].row != newRow {
        assert Values(mats)[k].rows != Values(mats)[0].rows;
        return false;
      }
      k := k + 1;
    }
    return true;
  }

  /** The column-count check of `vcat`: does every input have the first input's column count? */
  method ColumnsAgree(mats: seq<Mat64>) returns (same: bool)
    requires |mats| >= 1 && forall k :: 0 <= k < |mats| ==> mats[k].Valid()
    ensures same <==> SameCols(Values(mats))
  {
    var newColumn := mats[0].column;
    var k := 0;
    while k < |mats|
      invariant 0 <= k <= |mats|
      invariant forall j :: 0 <= j < k ==> mats[j].column == newColumn
    {
      if mats[k].column != newColumn {
        assert Values(mats)[k].cols != Values(mats)[0].cols;
        return false;
      }
      k := k + 1;
    }
    return true;
  }

  /** The column count of the `hcat` result: the inputs' column counts added up. */
  method ColumnTotal(mats: seq<Mat64>) returns (total: nat)
    ensures total == TotalCols(Values(mats))
  {
    ghost var vs := Values(mats);
    total := 0;
    var k := 0;
    while k < |mats|
      invariant 0 <= k <= |mats|
      invariant total == TotalCols(vs[..k])
    {
      assert vs[..k + 1][..k] == vs[..k];
      total := total + mats[k].column;
      k := k + 1;
    }
    assert vs[..|mats|] == vs;
  }

  /** The row count of the `vcat` result: the inputs' row counts added up. */
  method RowTotal(mats: seq<Mat64>) returns (total: nat)
    ensures total == TotalRows(Values(mats))
  {
    ghost var vs := Values(mats);
    total := 0;
    var k := 0;
    while k < |mats|
      invariant 0 <= k <= |mats|
      invariant total == TotalRows(vs[..k])
    {
      assert vs[..k + 1][..k] == vs[..k];
      total := total + mats[k].row;
      k := k + 1;
    }
    assert vs[..|mats|] == vs;
  }

  /** The buffer of the `hcat` result: the inputs' buffers one after another. */
  method JoinedBuffers(mats: seq<Mat64>) returns (data: seq<real>)
    ensures data == Buffers(Values(mats))
  {
    ghost var vs := Values(mats);
    data := [];
    var k := 0;
    while k < |mats|
      invariant 0 <= k <= |mats|
      invariant data == Buffers(vs[..k])
    {
      assert vs[..k + 1][..k] == vs[..k];
      data := data + mats[k].data;
      k := k + 1;
    }
    assert vs[..|mats|] == vs;
  }

  /**
   * `hcat`: NotEnoughInput for an empty list, ShapeMismatching when some
   * input has a row count other than the first one's, and otherwise the
   * inputs side by side.
   */
  method Hcat(mats: seq<Mat64>) returns (res: Result<Mat64>)
    requires forall k :: 0 <= k < |mats| ==> mats[k].Valid()
    ensures |mats| == 0 ==> res == Err(NotEnoughInput)
    ensures |mats| > 0 && !SameRows(Values(mats)) ==> res == Err(ShapeMismatching)
    ensures |mats| > 0 && SameRows(Values(mats)) ==>
      res.Ok? && fresh(res.value) && res.value.Valid() && res.value.Value() == HConcat(Values(mats))
  {
    if |mats| < 1 {
      return Err(NotEnoughInput);
    }
    var same := RowsAgree(mats);
    if !same {
      return Err(ShapeMismatching);
    }
    ghost var vs := Values(mats);
    var newRow := mats[0].row;
    var newColumn := ColumnTotal(mats);
    var data := JoinedBuffers(mats);
    assert data == HConcat(vs).data;
    var m := new Mat64.FromVec(newRow, newColumn, data);
    return Ok(m);
  }

  /**
   * `vcat`: NotEnoughInput for an empty list, ShapeMismatching when some
   * input has a column count other than the first one's, and otherwise the
   * inputs one above the other, built column by column.
   */
  method Vcat(mats: seq<Mat64>) returns (res: Result<Mat64>)
    requires forall k :: 0 <= k < |mats| ==> mats[k].Valid()
    ensures |mats| == 0 ==> res == Err(NotEnoughInput)
    ensures |mats| > 0 && !SameCols(Values(mats)) ==> res == Err(ShapeMismatching)
    ensures |mats| > 0 && SameCols(Values(mats)) ==>
      res.Ok? && fresh(res.value) && res.value.Valid() && res.value.Value() == VConcat(Values(mats))
  {
    if |mats| < 1 {
      return Err(NotEnoughInput);
    }
    var same := ColumnsAgree(mats);
    if !same {
      return Err(ShapeMismatching);
    }
    var newColumn := mats[0].column;
    var newRow := RowTotal(mats);
    var data := StackColumns(mats, newRow, newColumn);
    var m := new Mat64.FromVec(newRow, newColumn, data);
    return Ok(m);
  }

  /**
   * `add`: ShapeMismatching unless both shapes agree; otherwise the element-wise
   * sum, pushed column by column and row by row.
   */
  method Add(a: Mat64, b: Mat64) returns (res: Result<Mat64>)
    requires a.Valid() && b.Valid()
    ensures (a.row != b.row || a.column != b.column) ==> res == Err(ShapeMismatching)
    ensures a.row == b.row && a.column == b.column ==>
      res.Ok? && fresh(res.value) && res.value.Valid() && res.value.Value() == Sum(a.Value(), b.Value())
  {
    if a.row != b.row || a.column != b.column {
      return Err(ShapeMismatching);
    }
    var data: seq<real> := [];
    var row := a.row;
    var column := b.column;
    var c := 0;
    while c < column
      invariant 0 <= c <= column
      invariant |data| == Idx(row, 0, c) <= |a.data|
      invariant forall k :: 0 <= k < |data| ==> data[k] == a.data[k] + b.data[k]
    {
      var r := 0;
      while r < row
        invariant 0 <= r <= row
        invariant |data| == Idx(row, r, c) <= |a.data|
        invariant forall k :: 0 <= k < |data| ==> data[k] == a.data[k] + b.data[k]
      {
        IdxInRange(row, column, r, c);
        data := data + [a.Elem(r, c) + b.Elem(r, c)];
        r := r + 1;
      }
      MulMono(c + 1, column, row);
      c := c + 1;
    }
    assert data == Sum(a.Value(), b.Value()).data;
    var m := new Mat64.FromVec(row, column, data);
    return Ok(m);
  }

  /** `neg`: every buffer entry negated, shape kept. */
  method Neg(a: Mat64) returns (n: Mat64)
    requires a.Valid()
    ensures fresh(n) && n.Valid() && n.Value() == Negation(a.Value())
  {
    var data := Negation(a.Value()).data;
    n := new Mat64.FromVec(a.row, a.column, data);
  }

  /**
   * `sub`: ShapeMismatching unless both shapes agree; otherwise the element-wise
   * difference, pushed column by column and row by row.
   */
  method Sub(left: Mat64, right: Mat64) returns (res: Result<Mat64>)
    requires left.Valid() && right.Valid()
    ensures (left.row != right.row || left.column != right.column) ==> res == Err(ShapeMismatching)
    ensures left.row == right.row && left.column == right.column ==>
      res.Ok? && fresh(res.value) && res.value.Valid() && res.value.Value() == Difference(left.Value(), right.Value())
  {
    if left.row != right.row || left.column != right.column {
      return Err(ShapeMismatching);
    }
    var data: seq<real> := [];
    var row := left.row;
    var column := left.column;
    var c := 0;
    while c < column
      invariant 0 <= c <= column
      invariant |data| == Idx(row, 0, c) <= |left.data|
      invariant forall k :: 0 <= k < |data| ==> data[k] == left.data[k] - right.data[k]
    {
      var r := 0;
      while r < row
        invariant 0 <= r <= row
        invariant |data| == Idx(row, r, c) <= |left.data|
        invariant forall k :: 0 <= k < |data| ==> data[k] == left.data[k] - right.data[k]
      {
        IdxInRange(row, column, r, c);
        data := data + [left.Elem(r, c) - right.Elem(r, c)];
        r := r + 1;
      }
      MulMono(c + 1, column, row);
      c := c + 1;
    }
    assert data == Difference(left.Value(), right.Value()).data;
    var m := new Mat64.FromVec(row, column, data);
    return Ok(m);
  }

  /**
   * `mul`: ShapeMismatching unless left has as many columns as right has rows;
   * otherwise every element (r, c) of a zero matrix is overwritten with the
   * running sum of left(r, k) * right(k, c) over k.
   */
  method Mul(left: Mat64, right: Mat64) returns (res: Result<Mat64>)
    requires left.Valid() && right.Valid()
    ensures left.column != right.row ==> res == Err(ShapeMismatching)
    ensures left.column == right.row ==>
      res.Ok? && fresh(res.value) && res.value.Valid() && res.value.Value() == Product(left.Value(), right.Value())
  {
    if left.column != right.row {
      return Err(ShapeMismatching);
    }
    ghost var a, b := left.Value(), right.Value();
    var ans := new Mat64.Zero(left.row, right.column);
    var c := 0;
    while c < ans.column
      invariant 0 <= c <= ans.column
      invariant ans.Valid() && ans.row == left.row && ans.column == right.column
      invariant forall r': nat, c': nat :: r' < ans.row && c' < ans.column ==>
        Get(ans.Value(), r', c') == if c' < c then RowCol(a, b, r', c') else 0.0
    {
      var r := 0;
      while r < ans.row
        invariant 0 <= r <= ans.row
        invariant ans.Valid() && ans.row == left.row && ans.column == right.column
        invariant forall r': nat, c': nat :: r' < ans.row && c' < ans.column ==>
          Get(ans.Value(), r', c') == if c' < c || (c' == c && r' < r) then RowCol(a, b, r', c') else 0.0
      {
        var t := ans.Elem(r, c);
        t := AccumulateRowCol(left, right, r, c, t);
        ans.SetElem(r, c, t);
        r := r + 1;
      }
      c := c + 1;
    }
    Ext(ans.Value(), Product(a, b));
    return Ok(ans);
  }

  /** The innermost loop of `mul`: start plus the products left(r, k) * right(k, c), added in order of k. */
  method AccumulateRowCol(left: Mat64, right: Mat64, r: nat, c: nat, start: real) returns (t: real)
    requires left.Valid() && right.Valid() && left.column == right.row && r < left.row && c < right.column
    ensures t == start + RowCol(left.Value(), right.Value(), r, c)
  {
    t := start;
    var k := 0;
    while k < left.column
      invariant 0 <= k <= left.column
      invariant t == start + Sigma(k, RowColTerms(left.Value(), right.Value(), r, c))
    {
      t := t + left.Elem(r, k) * right.Elem(k, c);
      k := k + 1;
    }
  }

  /** `tr`: a zero matrix of the swapped shape, with ans(c, r) set to a(r, c) row by row. */
  method Tr(a: Mat64) returns (ans: Mat64)
    requires a.Valid()
    ensures fresh(ans) && ans.Valid() && ans.Value() == Transpose(a.Value())
  {
    ghost var v := a.Value();
    ans := new Mat64.Zero(a.column, a.row);
    var r := 0;
    while r < a.row
      invariant 0 <= r <= a.row
      invariant ans.Valid() && ans.row == a.column && ans.column == a.row
      invariant forall i: nat, j: nat :: i < a.column && j < a.row ==>
        Get(ans.Value(), i, j) == if j < r then Get(v, j, i) else 0.0
    {
      var c := 0;
      while c < a.column
        invariant 0 <= c <= a.column
        invariant ans.Valid() && ans.row == a.column && ans.column == a.row
        invariant forall i: nat, j: nat :: i < a.column && j < a.row ==>
          Get(ans.Value(), i, j) == if j < r || (j == r && i < c) then Get(v, j, i) else 0.0
      {
        ans.SetElem(c, r, a.Elem(r, c));
        c := c + 1;
      }
      r := r + 1;
    }
    Ext(ans.Value(), Transpose(v));
  }

  /** `elemwise`: f applied to every buffer entry, shape kept. */
  method Elemwise(a: Mat64, f: real -> real) returns (m: Mat64)
    requires a.Valid()
    ensures fresh(m) && m.Valid() && m.Value() == MapElements(a.Value(), f)
  {
    var data := MapElements(a.Value(), f).data;
    m := new Mat64.FromVec(a.row, a.column, data);
  }

  /**
   * `eq_with_error`: false for different shapes; otherwise false as soon as
   * two buffer entries are more than eps apart, and true at the end.
   */
  method EqWithError(a: Mat64, b: Mat64, eps: real) returns (eq: bool)
    requires a.Valid() && b.Valid()
    ensures eq <==> WithinError(a.Value(), b.Value(), eps)
  {
    if a.row != b.row || a.column != b.column {
      return false;
    }
    var n := a.row * a.column;
    var idx := 0;
    while idx < n
      invariant 0 <= idx <= n
      invariant forall k :: 0 <= k < idx ==> Abs(a.data[k] - b.data[k]) <= eps
    {
      if Abs(a.data[idx] - b.data[idx]) > eps {
        return false;
      }
      idx := idx + 1;
    }
    return true;
  }

  /** The copying loop of `vcat`: for every column c, column c of each input in list order. */
  method StackColumns(mats: seq<Mat64>, newRow: nat, newColumn: nat) returns (data: seq<real>)
    requires |mats| >= 1 && SameCols(Values(mats))
    requires newRow == TotalRows(Values(mats)) && newColumn == mats[0].column
    ensures data == VConcat(Values(mats)).data
  {
    ghost var vs := Values(mats);
    ghost var v := VConcat(vs);
    data := [];
    var c := 0;
    while c < newColumn
      invariant 0 <= c <= newColumn
      invariant PrefixColumns(v, data, c)
    {
      ghost var done := data;
      var column := StackedColumnOf(mats, c);
      data := data + column;
      ColumnOfVConcat(vs, c);
      PrefixColumnsStep(v, done, c);
      c := c + 1;
    }
    PrefixColumnsAll(v, data);
  }

  /** The inner loop of `vcat`: column c of each input in list order. */
  method StackedColumnOf(mats: seq<Mat64>, c: nat) returns (column: seq<real>)
    requires |mats| >= 1 && SameCols(Values(mats)) && c < mats[0].column
    ensures column == StackedColumn(Values(mats), c)
  {
    ghost var vs := Values(mats);
    column := [];
    var k := 0;
    while k < |mats|
      invariant 0 <= k <= |mats|
      invariant SameCols(vs[..k]) && column == StackedColumn(vs[..k], c)
    {
      StackedColumnStep(vs, k, c);
      column := column + mats[k].DataColumn(c);
      k := k + 1;
    }
    assert vs[..|mats|] == vs;
  }

  /** `data` is the beginning of the buffer of v, up to and excluding column c. */
  ghost predicate PrefixColumns(v: Matrix, data: seq<real>, c: nat)
  {
    v.Valid() && c <= v.cols && |data| == c * v.rows && data <= v.data
  }

  lemma PrefixColumnsStep(v: Matrix, data: seq<real>, c: nat)
    requires PrefixColumns(v, data, c) && c < v.cols
    ensures PrefixColumns(v, data + Column(v, c), c + 1)
  {
    ColumnPrefix(v, c);
    assert data == v.data[..c * v.rows];
  }

  lemma PrefixColumnsAll(v: Matrix, data: seq<real>)
    requires PrefixColumns(v, data, v.cols)
    ensures data == v.data
  {
  }
}
