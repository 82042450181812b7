/**
 * The 32-bit real matrix: a row count, a column count and a column-major
 * buffer.  Elements are exact reals, so only the shape and the buffer matter.
 */
module Mat32Type {
  import opened Matrices

  class Mat32 {
    const row: nat
    const column: nat
    var data: seq<real>

    /** The buffer holds exactly row * column elements. */
    predicate Valid()
      reads this
    {
      |data| == row * column
    }

    /** The value this object currently holds. */
    function Value(): Matrix
      reads this
    {
      Matrix(row, column, data)
    }

    /** `new`: copies a buffer of exactly row * column elements; any other length panics. */
    constructor New(row: nat, column: nat, data: seq<real>)
      requires |data| == row * column
      ensures Valid() && this.row == row && this.column == column && this.data == data
    {
      this.row, this.column, this.data := row, column, data;
    }

    /** `from_vec`: takes over a buffer of exactly row * column elements; any other length panics. */
    constructor FromVec(row: nat, column: nat, data: seq<real>)
      requires |data| == row * column
      ensures Valid() && this.row == row && this.column == column && this.data == data
    {
      this.row, this.column, this.data := row, column, data;
    }

    /** `zero`: row * column zero elements. */
    constructor Zero(row: nat, column: nat)
      ensures Valid() && this.row == row && this.column == column
      ensures Value() == ZeroMatrix(row, column)
    {
      var z := ZeroMatrix(row, column);
      this.row, this.column, this.data := row, column, z.data;
    }

    /** `identity`: the zero n x n matrix with a one written at (c, c) for c = 0 .. n - 1. */
    constructor Identity(n: nat)
      ensures Valid() && row == n && column == n
      ensures Value() == Matrices.Identity(n)
    {
      var z := ZeroMatrix(n, n);
      row, column, data := n, n, z.data;
      new;
      var c := 0;
      while c < n
        invariant 0 <= c <= n
        invariant Valid() && row == n && column == n
        invariant forall r: nat, c': nat :: r < n && c' < n ==>
          Get(Value(), r, c') == if r == c' && c' < c then 1.0 else 0.0
      {
        SetElem(c, c, 1.0);
        c := c + 1;
      }
      Ext(Value(), Matrices.Identity(n));
    }

    /** `elem(r, c)`: the element stored at buffer position r + c * row. */
    function Elem(r: nat, c: nat): (e: real)
      reads this
      requires Valid() && r < row && c < column
      ensures e == Get(Value(), r, c)
    {
      IdxInRange(row, column, r, c);
      data[Idx(row, r, c)]
    }

    /** `*elem_mut(r, c) = v`: overwrites element (r, c) and nothing else. */
    method SetElem(r: nat, c: nat, v: real)
      requires Valid() && r < row && c < column
      modifies this
      ensures Valid() && Value() == Update(old(Value()), r, c, v)
    {
      IdxInRange(row, column, r, c);
      data := data[Idx(row, r, c) := v];
    }

    /** `data_column(c)`: the slice of the buffer holding column c. */
    function DataColumn(c: nat): (s: seq<real>)
      reads this
      requires Valid() && c < column
      ensures |s| == row
      ensures forall j :: 0 <= j < row ==> s[j] == Get(Value(), j, c)
    {
      MulMono(c + 1, column, row);
      var s := data[c * row .. (c + 1) * row];
      assert s == Column(Value(), c);
      s
    }

    /** `PartialEq::eq`: shapes first, then the buffers entry by entry. */
    method Eq(other: Mat32) returns (b: bool)
      requires Valid() && other.Valid()
      ensures b <==> Value() == other.Value()
    {
      if row != other.row || column != other.column {
        return false;
      }
      var n := row * column;
      var i := 0;
      while i < n
        invariant 0 <= i <= n
        invariant data[..i] == other.data[..i]
      {
        if data[i] != other.data[i] {
          return false;
        }
        i := i + 1;
      }
      assert data == data[..n] && other.data == other.data[..n];
      return true;
    }
  }
}
