/**
 * The value view of a dense matrix: a shape and a column-major buffer, with
 * element (r, c) at position r + c * rows.  The matrix classes and every
 * algorithm of the library are specified against these values.
 */
module Matrices {
  import opened Sums
  import opened Numbers

  datatype Matrix = Matrix(rows: nat, cols: nat, data: seq<real>)
  {
    /** The buffer holds exactly rows * cols elements. */
    predicate Valid()
    {
      |data| == rows * cols
    }
  }

  /** Position of element (r, c) in the buffer of a matrix with `rows` rows. */
  function Idx(rows: nat, r: nat, c: nat): nat
  {
    r + c * rows
  }

  lemma MulMono(a: nat, b: nat, k: nat)
    requires a <= b
    ensures a * k <= b * k
  {
  }

  /** Every element of the grid has a position inside the buffer. */
  lemma IdxInRange(rows: nat, cols: nat, r: nat, c: nat)
    requires r < rows && c < cols
    ensures Idx(rows, r, c) < rows * cols
  {
    MulMono(c + 1, cols, rows);
  }

  lemma IdxInRangeAll(rows: nat, cols: nat)
    ensures forall r: nat, c: nat {:trigger Idx(rows, r, c)} :: r < rows && c < cols ==> Idx(rows, r, c) < rows * cols
  {
    forall r: nat, c: nat | r < rows && c < cols
      ensures Idx(rows, r, c) < rows * cols
    {
      IdxInRange(rows, cols, r, c);
    }
  }

  /** Distinct elements of the grid have distinct positions. */
  lemma IdxInjective(rows: nat, r1: nat, c1: nat, r2: nat, c2: nat)
    requires r1 < rows && r2 < rows
    requires Idx(rows, r1, c1) == Idx(rows, r2, c2)
    ensures r1 == r2 && c1 == c2
  {
    if c1 < c2 {
      MulMono(c1 + 1, c2, rows);
    } else if c2 < c1 {
      MulMono(c2 + 1, c1, rows);
    }
  }

  /** Every buffer position belongs to exactly one element of the grid: row k % rows, column k / rows. */
  lemma IdxOf(rows: nat, cols: nat, k: nat)
    requires k < rows * cols
    ensures rows > 0 && k % rows < rows && k / rows < cols
    ensures Idx(rows, k % rows, k / rows) == k
  {
    assert rows > 0;
    if k / rows >= cols {
      MulMono(cols, k / rows, rows);
    }
  }

  /** Reading the row and the column back from a position. */
  lemma IdxDivMod(rows: nat, r: nat, c: nat)
    requires r < rows
    ensures Idx(rows, r, c) % rows == r && Idx(rows, r, c) / rows == c
  {
    var k := Idx(rows, r, c);
    assert k == k % rows + (k / rows) * rows;
    IdxInjective(rows, r, c, k % rows, k / rows);
  }

  lemma IdxDivModAll(rows: nat)
    ensures forall r: nat, c: nat {:trigger Idx(rows, r, c)} :: r < rows ==>
      Idx(rows, r, c) % rows == r && Idx(rows, r, c) / rows == c
  {
    forall r: nat, c: nat | r < rows
      ensures Idx(rows, r, c) % rows == r && Idx(rows, r, c) / rows == c
    {
      IdxDivMod(rows, r, c);
    }
  }

  /** Element (r, c): the buffer read at its column-major position. */
  function Get(m: Matrix, r: nat, c: nat): real
    requires m.Valid() && r < m.rows && c < m.cols
  {
    IdxInRange(m.rows, m.cols, r, c);
    m.data[Idx(m.rows, r, c)]
  }

  /** The matrix with element (r, c) replaced by v and every other element kept. */
  function Update(m: Matrix, r: nat, c: nat, v: real): (m': Matrix)
    requires m.Valid() && r < m.rows && c < m.cols
    ensures m'.Valid() && m'.rows == m.rows && m'.cols == m.cols
    ensures forall r': nat, c': nat :: r' < m.rows && c' < m.cols ==>
      Get(m', r', c') == if r' == r && c' == c then v else Get(m, r', c')
  {
    IdxInRange(m.rows, m.cols, r, c);
    var k := Idx(m.rows, r, c);
    var m' := Matrix(m.rows, m.cols, m.data[k := v]);
    forall r': nat, c': nat | r' < m.rows && c' < m.cols
      ensures Get(m', r', c') == if r' == r && c' == c then v else Get(m, r', c')
    {
      UpdateAt(m, m', k, v, r, c, r', c');
    }
    m'
  }

  lemma UpdateAt(m: Matrix, m': Matrix, k: nat, v: real, r: nat, c: nat, r': nat, c': nat)
    requires m.Valid() && r < m.rows && c < m.cols && r' < m.rows && c' < m.cols
    requires k == Idx(m.rows, r, c) && k < |m.data|
    requires m' == Matrix(m.rows, m.cols, m.data[k := v])
    ensures Get(m', r', c') == if r' == r && c' == c then v else Get(m, r', c')
  {
    var k' := Idx(m.rows, r', c');
    IdxInRange(m.rows, m.cols, r', c');
    assert Get(m', r', c') == m.data[k := v][k'];
    if k' == k {
      IdxInjective(m.rows, r', c', r, c);
    } else {
      assert !(r' == r && c' == c);
      assert m.data[k := v][k'] == m.data[k'];
    }
  }

  /** Two matrices of one shape that agree at every element are the same matrix. */
  lemma Ext(a: Matrix, b: Matrix)
    requires a.Valid() && b.Valid() && a.rows == b.rows && a.cols == b.cols
    requires forall r: nat, c: nat :: r < a.rows && c < a.cols ==> Get(a, r, c) == Get(b, r, c)
    ensures a == b
  {
    forall k | 0 <= k < |a.data|
      ensures a.data[k] == b.data[k]
    {
      IdxOf(a.rows, a.cols, k);
      assert Get(a, k % a.rows, k / a.rows) == Get(b, k % a.rows, k / a.rows);
    }
  }

  /** The rows x cols matrix whose element (r, c) is f(r, c). */
  ghost function Build(rows: nat, cols: nat, f: (nat, nat) -> real): (m: Matrix)
    ensures m.Valid() && m.rows == rows && m.cols == cols
    ensures forall r: nat, c: nat :: r < rows && c < cols ==> Get(m, r, c) == f(r, c)
  {
    var w := BuildWitness(rows, cols, f);
    var m: Matrix :| m.Valid() && m.rows == rows && m.cols == cols &&
      forall r: nat, c: nat :: r < rows && c < cols ==> Get(m, r, c) == f(r, c);
    m
  }

  function BuildWitness(rows: nat, cols: nat, f: (nat, nat) -> real): (m: Matrix)
    ensures m.Valid() && m.rows == rows && m.cols == cols
    ensures forall r: nat, c: nat :: r < rows && c < cols ==> Get(m, r, c) == f(r, c)
  {
    IdxDivModAll(rows);
    IdxInRangeAll(rows, cols);
    if rows == 0 then Matrix(0, cols, [])
    else Matrix(rows, cols, seq(rows * cols, (k: int) requires 0 <= k => f(k % rows, k / rows)))
  }

  /** The all-zero matrix of a shape. */
  function ZeroMatrix(rows: nat, cols: nat): (m: Matrix)
    ensures m.Valid() && m.rows == rows && m.cols == cols
    ensures forall k :: 0 <= k < |m.data| ==> m.data[k] == 0.0
    ensures forall r: nat, c: nat :: r < rows && c < cols ==> Get(m, r, c) == 0.0
  {
    IdxInRangeAll(rows, cols);
    Matrix(rows, cols, seq(rows * cols, _ => 0.0))
  }

  /** The n x n identity: one on the diagonal, zero elsewhere. */
  ghost function Identity(n: nat): (m: Matrix)
    ensures m.Valid() && m.rows == n && m.cols == n
    ensures forall r: nat, c: nat :: r < n && c < n ==> Get(m, r, c) == if r == c then 1.0 else 0.0
  {
    Build(n, n, (r: nat, c: nat) => if r == c then 1.0 else 0.0)
  }

  /** Column c as a slice of the buffer: the `rows` consecutive positions starting at c * rows. */
  function Column(m: Matrix, c: nat): (col: seq<real>)
    requires m.Valid() && c < m.cols
    ensures |col| == m.rows
    ensures forall j :: 0 <= j < m.rows ==> col[j] == Get(m, j, c)
  {
    MulMono(c + 1, m.cols, m.rows);
    m.data[c * m.rows .. (c + 1) * m.rows]
  }

  /** The first c + 1 columns of a buffer are its first c columns followed by column c. */
  lemma ColumnPrefix(m: Matrix, c: nat)
    requires m.Valid() && c < m.cols
    ensures c * m.rows + m.rows == (c + 1) * m.rows <= |m.data|
    ensures m.data[..(c + 1) * m.rows] == m.data[..c * m.rows] + Column(m, c)
  {
    MulMono(c + 1, m.cols, m.rows);
  }

  /** Element-wise sum of two matrices of one shape. */
  function Sum(a: Matrix, b: Matrix): (s: Matrix)
    requires a.Valid() && b.Valid() && a.rows == b.rows && a.cols == b.cols
    ensures s.Valid() && s.rows == a.rows && s.cols == a.cols
    ensures forall r: nat, c: nat :: r < a.rows && c < a.cols ==> Get(s, r, c) == Get(a, r, c) + Get(b, r, c)
  {
    IdxInRangeAll(a.rows, a.cols);
    Matrix(a.rows, a.cols, seq(|a.data|, k requires 0 <= k < |a.data| => a.data[k] + b.data[k]))
  }

  /** Element-wise difference of two matrices of one shape. */
  function Difference(a: Matrix, b: Matrix): (s: Matrix)
    requires a.Valid() && b.Valid() && a.rows == b.rows && a.cols == b.cols
    ensures s.Valid() && s.rows == a.rows && s.cols == a.cols
    ensures forall r: nat, c: nat :: r < a.rows && c < a.cols ==> Get(s, r, c) == Get(a, r, c) - Get(b, r, c)
  {
    IdxInRangeAll(a.rows, a.cols);
    Matrix(a.rows, a.cols, seq(|a.data|, k requires 0 <= k < |a.data| => a.data[k] - b.data[k]))
  }

  /** A matrix of one shape whose every buffer entry is f of the entry at the same position. */
  function MapElements(a: Matrix, f: real -> real): (s: Matrix)
    requires a.Valid()
    ensures s.Valid() && s.rows == a.rows && s.cols == a.cols
    ensures forall k :: 0 <= k < |a.data| ==> s.data[k] == f(a.data[k])
    ensures forall r: nat, c: nat :: r < a.rows && c < a.cols ==> Get(s, r, c) == f(Get(a, r, c))
  {
    IdxInRangeAll(a.rows, a.cols);
    Matrix(a.rows, a.cols, seq(|a.data|, k requires 0 <= k < |a.data| => f(a.data[k])))
  }

  /** Element-wise negation. */
  function Negation(a: Matrix): (s: Matrix)
    requires a.Valid()
    ensures s.Valid() && s.rows == a.rows && s.cols == a.cols
    ensures forall r: nat, c: nat :: r < a.rows && c < a.cols ==> Get(s, r, c) == -Get(a, r, c)
  {
    MapElements(a, x => -x)
  }

  /** The transpose: shape swapped and element (r, c) taken from (c, r). */
  ghost function Transpose(a: Matrix): (t: Matrix)
    requires a.Valid()
    ensures t.Valid() && t.rows == a.cols && t.cols == a.rows
    ensures forall r: nat, c: nat :: r < a.cols && c < a.rows ==> Get(t, r, c) == Get(a, c, r)
  {
    Build(a.cols, a.rows, (r: nat, c: nat) => if r < a.cols && c < a.rows then Get(a, c, r) else 0.0)
  }

  /** Row r of a times column c of b, accumulated from zero over k = 0 .. a.cols - 1. */
  function RowCol(a: Matrix, b: Matrix, r: nat, c: nat): real
    requires a.Valid() && b.Valid() && a.cols == b.rows && r < a.rows && c < b.cols
  {
    Sigma(a.cols, RowColTerms(a, b, r, c))
  }

  /** The k-th summand of RowCol: a(r, k) * b(k, c). */
  function RowColTerms(a: Matrix, b: Matrix, r: nat, c: nat): nat -> real
    requires a.Valid() && b.Valid() && a.cols == b.rows && r < a.rows && c < b.cols
  {
    (k: nat) => if k < a.cols then Get(a, r, k) * Get(b, k, c) else 0.0
  }

  /** The matrix product of an m x k and a k x n matrix. */
  ghost function Product(a: Matrix, b: Matrix): (p: Matrix)
    requires a.Valid() && b.Valid() && a.cols == b.rows
    ensures p.Valid() && p.rows == a.rows && p.cols == b.cols
    ensures forall r: nat, c: nat :: r < a.rows && c < b.cols ==> Get(p, r, c) == RowCol(a, b, r, c)
  {
    Build(a.rows, b.cols, (r: nat, c: nat) => if r < a.rows && c < b.cols then RowCol(a, b, r, c) else 0.0)
  }

  /** Row r of the result is row p[r] of a. */
  ghost function PermuteRows(a: Matrix, p: seq<nat>): (m: Matrix)
    requires a.Valid()
    requires forall k :: 0 <= k < |p| ==> p[k] < a.rows
    ensures m.Valid() && m.rows == |p| && m.cols == a.cols
    ensures forall r: nat, c: nat :: r < |p| && c < a.cols ==> Get(m, r, c) == Get(a, p[r], c)
  {
    Build(|p|, a.cols, (r: nat, c: nat) => if r < |p| && c < a.cols then Get(a, p[r], c) else 0.0)
  }

  /** Same shape, and every pair of buffer entries at most eps apart. */
  predicate WithinError(a: Matrix, b: Matrix, eps: real)
    requires a.Valid() && b.Valid()
  {
    a.rows == b.rows && a.cols == b.cols &&
    forall k :: 0 <= k < |a.data| ==> Abs(a.data[k] - b.data[k]) <= eps
  }
}
