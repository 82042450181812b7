/**
 * QR decomposition of an m x n matrix with m >= n, by the Gram-Schmidt
 * process and by Householder reflections. Square roots and signs come in as
 * function parameters; the model proves the shapes, zero patterns and
 * products the two algorithms build, not their numerical accuracy.
 */
module QrDecomp {
  import opened Errors
  import opened Sums
  import opened Matrices
  import opened MatrixLaws
  import opened Mat64Type
  import opened MatrixOps
  import opened NullSpace

  /** The result of a QR decomposition. */
  datatype QRDecomposition = QRDecomposition(q: Mat64, r: Mat64)

  // ---------------------------------------------------------------------
  // Vectors.

  /** The k-th summand of a dot product. */
  function PairTerms(a: seq<real>, b: seq<real>): nat -> real
    requires |a| == |b|
  {
    (k: nat) => if k < |a| then a[k] * b[k] else 0.0
  }

  /** `vector_dot_product`: the sum of a[k] * b[k], accumulated from the front; vectors of different lengths panic. */
  function VectorDotProduct(a: seq<real>, b: seq<real>): real
    requires |a| == |b|
  {
    Sigma(|a|, PairTerms(a, b))
  }

  /** The dot product is symmetric. */
  lemma DotSymmetric(a: seq<real>, b: seq<real>)
    requires |a| == |b|
    ensures VectorDotProduct(a, b) == VectorDotProduct(b, a)
  {
    SigmaExt(|a|, PairTerms(a, b), PairTerms(b, a));
  }

  /** The dot product of column i of q with column c of a is entry (i, c) of the transpose of q times a. */
  lemma ColumnDotIsProduct(q: Matrix, a: Matrix, i: nat, c: nat)
    requires q.Valid() && a.Valid() && q.rows == a.rows && i < q.cols && c < a.cols
    ensures VectorDotProduct(Column(q, i), Column(a, c)) == Get(Product(Transpose(q), a), i, c)
  {
    var t := Transpose(q);
    forall k: nat | k < q.rows
      ensures PairTerms(Column(q, i), Column(a, c))(k) == RowColTerms(t, a, i, c)(k)
    {
      ColumnTerm(q, a, t, i, c, k);
    }
    SigmaExt(q.rows, PairTerms(Column(q, i), Column(a, c)), RowColTerms(t, a, i, c));
  }

  /** One summand of ColumnDotIsProduct. */
  lemma ColumnTerm(q: Matrix, a: Matrix, t: Matrix, i: nat, c: nat, k: nat)
    requires q.Valid() && a.Valid() && q.rows == a.rows && i < q.cols && c < a.cols && k < q.rows
    requires t == Transpose(q)
    ensures PairTerms(Column(q, i), Column(a, c))(k) == RowColTerms(t, a, i, c)(k)
  {
    var x, y := Column(q, i)[k], Column(a, c)[k];
    assert x == Get(t, i, k);
    assert y == Get(a, k, c);
    MulCongruence(x, Get(t, i, k), y, Get(a, k, c));
  }

  /** A square summand is non-negative, and zero exactly when its entry is (a and b name one vector twice). */
  lemma TermSign(a: seq<real>, b: seq<real>, k: nat)
    requires a == b && k < |a|
    ensures PairTerms(a, b)(k) >= 0.0
    ensures PairTerms(a, b)(k) == 0.0 <==> a[k] == 0.0
  {
    if a[k] != 0.0 && PairTerms(a, b)(k) == 0.0 {
      ZeroProduct(a[k], b[k]);
      assert false;
    }
  }

  /** The sum of squares of the first n entries is non-negative, and zero exactly when those entries are. */
  lemma {:induction false} SquaresNonNegative(v: seq<real>, n: nat)
    requires n <= |v|
    ensures Sigma(n, PairTerms(v, v)) >= 0.0
    ensures Sigma(n, PairTerms(v, v)) == 0.0 <==> forall k :: 0 <= k < n ==> v[k] == 0.0
  {
    if n > 0 {
      SquaresNonNegative(v, n - 1);
      TermSign(v, v, n - 1);
    }
  }

  /** `l2_norm_of_vector`: the square root of the sum of squares. */
  function L2NormOfVector(v: seq<real>, sqrt: real -> real): real
  {
    sqrt(VectorDotProduct(v, v))
  }

  /** What l2_norm_of_vector hands to the square root is non-negative, and zero exactly for the zero vector. */
  lemma SumOfSquares(v: seq<real>)
    ensures VectorDotProduct(v, v) >= 0.0
    ensures VectorDotProduct(v, v) == 0.0 <==> forall k :: 0 <= k < |v| ==> v[k] == 0.0
  {
    SquaresNonNegative(v, |v|);
  }

  /** Division by a norm; a zero norm, where floating-point division gives NaN or an infinity, gives 0 here. */
  function Quotient(x: real, y: real): real
  {
    if y == 0.0 then 0.0 else x / y
  }

  /** Every entry of v divided by s. */
  function Normalized(v: seq<real>, s: real): (w: seq<real>)
    ensures |w| == |v| && forall k :: 0 <= k < |v| ==> w[k] == Quotient(v[k], s)
  {
    seq(|v|, k requires 0 <= k < |v| => Quotient(v[k], s))
  }

  lemma QuotientSquare(x: real, s: real, inv: real)
    requires s != 0.0 && inv == 1.0 / (s * s)
    ensures (x / s) * (x / s) == inv * (x * x)
  {
  }

  lemma InverseCancels(t: real, inv: real, e: real)
    requires t != 0.0 && inv == 1.0 / t && e == inv * t
    ensures e == 1.0
  {
  }

  /** A non-zero vector divided by a square root of its sum of squares is a unit vector. */
  lemma NormalizedIsUnit(v: seq<real>, s: real)
    requires s * s == VectorDotProduct(v, v) && VectorDotProduct(v, v) != 0.0
    ensures VectorDotProduct(Normalized(v, s), Normalized(v, s)) == 1.0
  {
    var w := Normalized(v, s);
    var t := VectorDotProduct(v, v);
    var inv := 1.0 / t;
    assert s != 0.0;
    forall j: nat | j < |v| ensures PairTerms(w, w)(j) == inv * PairTerms(v, v)(j) {
      QuotientSquare(v[j], s, inv);
    }
    SigmaScale(|v|, inv, PairTerms(v, v), PairTerms(w, w));
    InverseCancels(t, inv, VectorDotProduct(w, w));
  }

  // ---------------------------------------------------------------------
  // Gram-Schmidt.

  /** `qr_gram_schmidt` lines 37-46: subtracts ratio * column ii of q from column i of a, with ratio the dot product of the two columns. */
  method ProjectOut(a: Mat64, q: Mat64, i: nat, ii: nat)
    requires a.Valid() && q.Valid() && a != q && a.row == q.row && i < a.column && ii < q.column
    modifies a
    ensures a.Valid() && a.Value() == Projected(old(a.Value()), q.Value(), i, ii)
  {
    ghost var a0, qv := a.Value(), q.Value();
    assert a.DataColumn(i) == Column(a0, i);
    assert q.DataColumn(ii) == Column(qv, ii);
    var ratio := VectorDotProduct(a.DataColumn(i), q.DataColumn(ii));
    ghost var dot := VectorDotProduct(Column(a0, i), Column(qv, ii));
    assert ratio == dot;
    SubtractMultiple(a, q, i, ii, ratio);
    assert q.Value() == qv;
    ProjectionEquation(a0, a.Value(), qv, i, ii, ratio);
  }

  /** a with column ii of q, scaled by the dot product of column i of a with it, subtracted from column i. */
  ghost function Projected(a: Matrix, q: Matrix, i: nat, ii: nat): (p: Matrix)
    requires a.Valid() && q.Valid() && a.rows == q.rows && i < a.cols && ii < q.cols
    ensures p.Valid() && p.rows == a.rows && p.cols == a.cols
  {
    var ratio := VectorDotProduct(Column(a, i), Column(q, ii));
    Build(a.rows, a.cols, (r: nat, c: nat) =>
      if r < a.rows && c < a.cols then (if c == i then Get(a, r, i) - ratio * Get(q, r, ii) else Get(a, r, c)) else 0.0)
  }

  /** Subtracting ratio times column ii of q, where ratio is the dot product of the two columns, is the projection step. */
  lemma ProjectionEquation(a0: Matrix, a1: Matrix, qv: Matrix, i: nat, ii: nat, ratio: real)
    requires a0.Valid() && a1.Valid() && qv.Valid() && a1.rows == a0.rows && a1.cols == a0.cols && qv.rows == a0.rows
    requires i < a0.cols && ii < qv.cols
    requires ratio == VectorDotProduct(Column(a0, i), Column(qv, ii))
    requires forall r: nat, c: nat :: r < a0.rows && c < a0.cols ==>
      Get(a1, r, c) == if c == i then Get(a0, r, i) - ratio * Get(qv, r, ii) else Get(a0, r, c)
    ensures a1 == Projected(a0, qv, i, ii)
  {
    var p := Projected(a0, qv, i, ii);
    forall r: nat, c: nat | r < a0.rows && c < a0.cols ensures Get(a1, r, c) == Get(p, r, c) {
    }
    Ext(a1, p);
  }

  /** The loop of ProjectOut: ratio times column ii of q is subtracted from column i of a, row by row. */
  method SubtractMultiple(a: Mat64, q: Mat64, i: nat, ii: nat, ratio: real)
    requires a.Valid() && q.Valid() && a != q && a.row == q.row && i < a.column && ii < q.column
    modifies a
    ensures a.Valid()
    ensures forall r: nat, c: nat :: r < a.row && c < a.column ==>
      Get(a.Value(), r, c) == if c == i then Get(old(a.Value()), r, i) - ratio * Get(q.Value(), r, ii)
      else Get(old(a.Value()), r, c)
  {
    ghost var a0, qv := a.Value(), q.Value();
    for j := 0 to a.row
      invariant a.Valid()
      invariant forall r: nat, c: nat :: r < a.row && c < a.column ==>
        Get(a.Value(), r, c) == if c == i && r < j then Get(a0, r, i) - ratio * Get(qv, r, ii) else Get(a0, r, c)
    {
      var originalValue, y := a.Elem(j, i), q.Elem(j, ii);
      MulCongruence(ratio, ratio, y, Get(qv, j, ii));
      a.SetElem(j, i, originalValue - ratio * y);
    }
  }

  /** `qr_gram_schmidt` lines 48-52: column i of q becomes u divided by norm; the rest of q is kept. */
  method NormalizeInto(q: Mat64, u: seq<real>, norm: real, i: nat)
    requires q.Valid() && |u| == q.row && i < q.column
    modifies q
    ensures q.Valid()
    ensures forall r: nat, c: nat :: r < q.row && c < q.column ==>
      Get(q.Value(), r, c) == if c == i then Quotient(u[r], norm) else Get(old(q.Value()), r, c)
  {
    for j := 0 to q.row
      invariant q.Valid()
      invariant forall r: nat, c: nat :: r < q.row && c < q.column ==>
        Get(q.Value(), r, c) == if c == i && r < j then Quotient(u[r], norm) else Get(old(q.Value()), r, c)
    {
      q.SetElem(j, i, Quotient(u[j], norm));
    }
  }

  /** R(i, c) is column i of q dotted with column c of a for i <= c, and zero below the diagonal. */
  ghost predicate UpperDots(q: Matrix, a: Matrix, r: Matrix)
    requires q.Valid() && a.Valid() && r.Valid() && q.rows == a.rows && a.cols <= q.cols
    requires r.rows == a.rows && r.cols == a.cols
  {
    forall i: nat, c: nat :: i < r.rows && c < r.cols ==>
      Get(r, i, c) == if i <= c then VectorDotProduct(Column(q, i), Column(a, c)) else 0.0
  }

  /** `qr_gram_schmidt` lines 54-59: the m x n matrix with r(i, c) = q column i . mat column c for i <= c. */
  method UpperFromColumns(q: Mat64, mat: Mat64) returns (rmat: Mat64)
    requires q.Valid() && mat.Valid() && q.row == mat.row && mat.column <= q.column && mat.column <= mat.row
    ensures fresh(rmat) && rmat.Valid() && rmat.row == mat.row && rmat.column == mat.column
    ensures UpperDots(q.Value(), mat.Value(), rmat.Value())
  {
    ghost var qv, mv := q.Value(), mat.Value();
    rmat := new Mat64.Zero(mat.row, mat.column);
    for c := 0 to mat.column
      invariant rmat.Valid() && rmat.row == mv.rows && rmat.column == mv.cols
      invariant forall i: nat, c': nat :: i < mv.rows && c' < mv.cols ==>
        Get(rmat.Value(), i, c') == if c' < c && i <= c' then VectorDotProduct(Column(qv, i), Column(mv, c')) else 0.0
    {
      for r := 0 to c + 1
        invariant rmat.Valid() && rmat.row == mv.rows && rmat.column == mv.cols
        invariant forall i: nat, c': nat :: i < mv.rows && c' < mv.cols ==>
          Get(rmat.Value(), i, c') ==
            if (c' < c && i <= c') || (c' == c && i < r) then VectorDotProduct(Column(qv, i), Column(mv, c')) else 0.0
      {
        assert q.DataColumn(r) == Column(qv, r);
        assert mat.DataColumn(c) == Column(mv, c);
        rmat.SetElem(r, c, VectorDotProduct(q.DataColumn(r), mat.DataColumn(c)));
      }
    }
  }

  /** In the upper triangle, an UpperDots matrix agrees with the transpose of q times a. */
  lemma UpperDotsIsProduct(q: Matrix, a: Matrix, r: Matrix)
    requires q.Valid() && a.Valid() && r.Valid() && q.rows == a.rows && a.cols <= q.cols
    requires r.rows == a.rows && r.cols == a.cols && UpperDots(q, a, r)
    ensures forall i: nat, c: nat :: i <= c < a.cols && i < a.rows ==> Get(r, i, c) == Get(Product(Transpose(q), a), i, c)
  {
    forall i: nat, c: nat | i <= c < a.cols && i < a.rows ensures Get(r, i, c) == Get(Product(Transpose(q), a), i, c) {
      ColumnDotIsProduct(q, a, i, c);
    }
  }

  /**
   * `qr_gram_schmidt`: ShapeMismatching when there are fewer rows than
   * columns. Otherwise q is m x m with its columns n .. m - 1 left zero, and
   * r is m x n, zero below the diagonal and holding the dot products of the
   * columns of q with the columns of the input on and above it.
   */
  method QrGramSchmidt(mat: Mat64, sqrt: real -> real) returns (res: Result<QRDecomposition>)
    requires mat.Valid()
    ensures mat.row < mat.column <==> res == Err(ShapeMismatching)
    ensures res.Err? ==> res.error == ShapeMismatching
    ensures res.Ok? ==> fresh(res.value.q) && fresh(res.value.r)
    ensures res.Ok? ==> res.value.q.Valid() && res.value.q.row == mat.row && res.value.q.column == mat.row
    ensures res.Ok? ==> res.value.r.Valid() && res.value.r.row == mat.row && res.value.r.column == mat.column
    ensures res.Ok? ==> forall j: nat, c: nat :: j < mat.row && mat.column <= c < mat.row ==> Get(res.value.q.Value(), j, c) == 0.0
    ensures res.Ok? ==> UpperDots(res.value.q.Value(), mat.Value(), res.value.r.Value())
  {
    if mat.row < mat.column {
      return Err(ShapeMismatching);
    }
    var m, n := mat.row, mat.column;
    var a := new Mat64.New(m, n, mat.data);
    var q := new Mat64.Zero(m, m);
    for i := 0 to n
      invariant a.Valid() && a.row == m && a.column == n
      invariant q.Valid() && q.row == m && q.column == m
      invariant forall j: nat, c: nat :: j < m && i <= c < m ==> Get(q.Value(), j, c) == 0.0
    {
      for ii := 0 to i
        invariant a.Valid() && a.row == m && a.column == n
        invariant q.Valid() && q.row == m && q.column == m
        invariant forall j: nat, c: nat :: j < m && i <= c < m ==> Get(q.Value(), j, c) == 0.0
      {
        ProjectOut(a, q, i, ii);
      }
      var u := a.DataColumn(i);
      var uL2 := L2NormOfVector(u, sqrt);
      NormalizeInto(q, u, uL2, i);
    }
    var rmat := UpperFromColumns(q, mat);
    return Ok(QRDecomposition(q, rmat));
  }

  // ---------------------------------------------------------------------
  // Householder reflections.

  /** Entry (r, c) of I - 2 u u^T placed on rows and columns i .. m - 1 of the m x m identity. */
  function ReflectorEntry(i: nat, u: seq<real>, r: nat, c: nat): real
  {
    var delta := if r == c then 1.0 else 0.0;
    if i <= r < i + |u| && i <= c < i + |u| then delta - u[r - i] * u[c - i] - u[r - i] * u[c - i] else delta
  }

  /** The Householder matrix of `qr_househoulder` lines 93-101. */
  ghost function ReflectorMatrix(m: nat, i: nat, u: seq<real>): (h: Matrix)
    ensures h.Valid() && h.rows == m && h.cols == m
    ensures forall r: nat, c: nat :: r < m && c < m ==> Get(h, r, c) == ReflectorEntry(i, u, r, c)
  {
    Build(m, m, (r: nat, c: nat) => ReflectorEntry(i, u, r, c))
  }

  /** A Householder matrix is its own transpose. */
  lemma ReflectorSymmetric(m: nat, i: nat, u: seq<real>)
    ensures Transpose(ReflectorMatrix(m, i, u)) == ReflectorMatrix(m, i, u)
  {
    var h := ReflectorMatrix(m, i, u);
    forall r: nat, c: nat | r < m && c < m ensures Get(Transpose(h), r, c) == Get(h, r, c) {
      assert ReflectorEntry(i, u, c, r) == ReflectorEntry(i, u, r, c);
    }
    Ext(Transpose(h), h);
  }

  /** `qr_househoulder` lines 84-91: x with alpha = -|x| sign(x[0]) taken off its first entry, divided by its own norm. */
  method HouseholderVector(x: seq<real>, sqrt: real -> real, sign: real -> real) returns (u: seq<real>)
    requires |x| >= 1
    ensures |u| == |x|
    ensures u == Normalized(x[0 := x[0] + L2NormOfVector(x, sqrt) * sign(x[0])], L2NormOfVector(x[0 := x[0] + L2NormOfVector(x, sqrt) * sign(x[0])], sqrt))
  {
    var alpha := -L2NormOfVector(x, sqrt) * sign(x[0]);
    u := x;
    u := u[0 := u[0] - alpha];
    ghost var shifted := u;
    var uNorm := L2NormOfVector(u, sqrt);
    for k := 0 to |u|
      invariant |u| == |x|
      invariant forall j :: 0 <= j < |u| ==> u[j] == if j < k then Quotient(shifted[j], uNorm) else shifted[j]
    {
      u := u[k := Quotient(u[k], uNorm)];
    }
  }

  /** Rows of m x m matrix h below r0 are those of the Householder matrix, the others those of the identity. */
  ghost predicate ReflectorRowsBelow(h: Matrix, m: nat, i: nat, u: seq<real>, r0: nat, c0: nat)
    requires h.Valid() && h.rows == m && h.cols == m
  {
    forall r: nat, c: nat :: r < m && c < m ==>
      Get(h, r, c) == if r < r0 || (r == r0 && c < c0) then ReflectorEntry(i, u, r, c) else (if r == c then 1.0 else 0.0)
  }

  /** `qr_househoulder` lines 96-100: row i + j of the block gets its entries i + k, k = 0 .. m - i - 1. */
  method ReflectorRow(qi: Mat64, i: nat, u: seq<real>, j: nat)
    requires qi.Valid() && qi.row == qi.column && i + j < qi.row && |u| == qi.row - i
    requires ReflectorRowsBelow(qi.Value(), qi.row, i, u, i + j, 0)
    modifies qi
    ensures qi.Valid() && ReflectorRowsBelow(qi.Value(), qi.row, i, u, i + j + 1, 0)
  {
    var m := qi.row;
    for k := 0 to m - i
      invariant qi.Valid() && ReflectorRowsBelow(qi.Value(), m, i, u, i + j, i + k)
    {
      var qiV := qi.Elem(i + j, i + k);
      var vvt := u[j] * u[k];
      assert qiV - vvt - vvt == ReflectorEntry(i, u, i + j, i + k);
      qi.SetElem(i + j, i + k, qiV - vvt - vvt);
    }
  }

  /** `qr_househoulder` lines 93-101: the identity with I - 2 u u^T written over its block i .. m - 1. */
  method Reflector(m: nat, i: nat, u: seq<real>) returns (qi: Mat64)
    requires i < m && |u| == m - i
    ensures fresh(qi) && qi.Valid() && qi.Value() == ReflectorMatrix(m, i, u)
  {
    qi := new Mat64.Identity(m);
    for j := 0 to m - i
      invariant qi.Valid() && qi.row == m && qi.column == m
      invariant ReflectorRowsBelow(qi.Value(), m, i, u, i + j, 0)
    {
      ReflectorRow(qi, i, u, j);
    }
    Ext(qi.Value(), ReflectorMatrix(m, i, u));
  }

  /** h is the Householder matrix of step i for some vector of length m - i. */
  ghost predicate IsReflector(h: Matrix, m: nat, i: nat)
  {
    i < m && exists u: seq<real> :: |u| == m - i && h == ReflectorMatrix(m, i, u)
  }

  /** hs[k] is the matrix of step k, for every k. */
  ghost predicate Reflectors(hs: seq<Matrix>, m: nat)
  {
    forall k :: 0 <= k < |hs| ==> IsReflector(hs[k], m, k)
  }

  /** hs[|hs| - 1] * .. * hs[0], starting from the m x m identity. */
  ghost function Accumulate(hs: seq<Matrix>, m: nat): (q: Matrix)
    requires forall k :: 0 <= k < |hs| ==> hs[k].Valid() && hs[k].rows == m && hs[k].cols == m
    ensures q.Valid() && q.rows == m && q.cols == m
  {
    if |hs| == 0 then Identity(m) else Product(hs[|hs| - 1], Accumulate(hs[..|hs| - 1], m))
  }

  /** The number of reflection steps: min(m - 1, n). */
  function Steps(m: nat, n: nat): nat
    requires m >= 1
  {
    if m - 1 < n then m - 1 else n
  }

  /** One reflection step keeps a equal to the accumulated q times the input. */
  lemma StepKeepsProduct(h: Matrix, q: Matrix, a: Matrix, a0: Matrix)
    requires h.Valid() && q.Valid() && a0.Valid() && h.cols == q.rows && q.cols == a0.rows
    requires a == Product(q, a0)
    ensures Product(h, a) == Product(Product(h, q), a0)
  {
    ProductAssociative(h, q, a0);
  }

  /** The state between reflection steps: q is the product of the reflectors so far, and a is q times the input. */
  ghost predicate Accumulated(av: Matrix, qv: Matrix, hs: seq<Matrix>, a0: Matrix, m: nat)
  {
    a0.Valid() && a0.rows == m && av.Valid() && av.rows == m && av.cols == a0.cols &&
    (forall k :: 0 <= k < |hs| ==> hs[k].Valid() && hs[k].rows == m && hs[k].cols == m) &&
    Reflectors(hs, m) && qv == Accumulate(hs, m) && av == Product(qv, a0)
  }

  /** Multiplying the next reflector onto q and a keeps the state between steps. */
  lemma AccumulateStep(av: Matrix, qv: Matrix, hs: seq<Matrix>, a0: Matrix, m: nat, h: Matrix)
    requires Accumulated(av, qv, hs, a0, m) && IsReflector(h, m, |hs|)
    ensures Accumulated(Product(h, av), Product(h, qv), hs + [h], a0, m)
  {
    ReflectorsExtend(hs, m, h);
    AccumulateExtend(hs, m, h);
    StepKeepsProduct(h, qv, av, a0);
  }

  /** Appending the matrix of step |hs| keeps every step's matrix in place. */
  lemma ReflectorsExtend(hs: seq<Matrix>, m: nat, h: Matrix)
    requires Reflectors(hs, m) && IsReflector(h, m, |hs|)
    ensures Reflectors(hs + [h], m)
  {
    var hs' := hs + [h];
    forall k | 0 <= k < |hs'| ensures IsReflector(hs'[k], m, k) {
      if k < |hs| { assert hs'[k] == hs[k]; } else { assert hs'[k] == h; }
    }
  }

  /** Appending a matrix multiplies it onto the accumulated product. */
  lemma AccumulateExtend(hs: seq<Matrix>, m: nat, h: Matrix)
    requires forall k :: 0 <= k < |hs| ==> hs[k].Valid() && hs[k].rows == m && hs[k].cols == m
    requires h.Valid() && h.rows == m && h.cols == m
    ensures forall k :: 0 <= k < |hs + [h]| ==> (hs + [h])[k].Valid() && (hs + [h])[k].rows == m && (hs + [h])[k].cols == m
    ensures Accumulate(hs + [h], m) == Product(h, Accumulate(hs, m))
  {
    var hs' := hs + [h];
    assert hs'[..|hs'| - 1] == hs;
    assert forall k :: 0 <= k < |hs'| ==> hs'[k] == if k < |hs| then hs[k] else h;
  }

  /** `qr_househoulder` lines 83-105: one reflection step, multiplying the Householder matrix of column i onto q and a. */
  method HouseholderStep(a: Mat64, q: Mat64, i: nat, sqrt: real -> real, sign: real -> real, ghost hs: seq<Matrix>, ghost a0: Matrix)
    returns (a': Mat64, q': Mat64, ghost hs': seq<Matrix>)
    requires a.Valid() && q.Valid() && q.row == a.row && i < a.column && i + 1 < a.row && |hs| == i
    requires Accumulated(a.Value(), q.Value(), hs, a0, a.row)
    ensures fresh(a') && fresh(q') && a'.Valid() && q'.Valid()
    ensures a'.row == a.row && a'.column == a.column && q'.row == q.row && q'.column == q.column
    ensures |hs'| == i + 1 && Accumulated(a'.Value(), q'.Value(), hs', a0, a.row)
  {
    var m := a.row;
    var x := a.DataColumn(i)[i..m];
    var u := HouseholderVector(x, sqrt, sign);
    var qi := Reflector(m, i, u);
    var qNext := Mul(qi, q);
    var aNext := Mul(qi, a);
    assert IsReflector(qi.Value(), m, i);
    AccumulateStep(a.Value(), q.Value(), hs, a0, m, qi.Value());
    hs' := hs + [qi.Value()];
    q' := qNext.value;
    a' := aNext.value;
  }

  /**
   * `qr_househoulder`: ShapeMismatching when there are fewer rows than
   * columns. Otherwise min(m - 1, n) Householder matrices are multiplied
   * onto the identity and onto a copy of the input; the transpose of their
   * product is returned as q and the transformed copy as r, so that the
   * transpose of q times the input is r. An empty matrix makes `m - 1`
   * underflow in the source, so m >= 1 is required there.
   */
  method QrHousehoulder(mat: Mat64, sqrt: real -> real, sign: real -> real) returns (res: Result<QRDecomposition>)
    requires mat.Valid() && (mat.row >= mat.column ==> mat.row >= 1)
    ensures mat.row < mat.column <==> res == Err(ShapeMismatching)
    ensures res.Err? ==> res.error == ShapeMismatching
    ensures res.Ok? ==> fresh(res.value.q) && fresh(res.value.r)
    ensures res.Ok? ==> res.value.q.Valid() && res.value.q.row == mat.row && res.value.q.column == mat.row
    ensures res.Ok? ==> res.value.r.Valid() && res.value.r.row == mat.row && res.value.r.column == mat.column
    ensures res.Ok? ==> Product(Transpose(res.value.q.Value()), mat.Value()) == res.value.r.Value()
    ensures res.Ok? ==> exists hs: seq<Matrix> ::
      |hs| == Steps(mat.row, mat.column) && Reflectors(hs, mat.row) && Transpose(res.value.q.Value()) == Accumulate(hs, mat.row)
  {
    if mat.row < mat.column {
      return Err(ShapeMismatching);
    }
    ghost var a0 := mat.Value();
    var m, n := mat.row, mat.column;
    var a := new Mat64.New(m, n, mat.data);
    var q := new Mat64.Identity(m);
    var fullIteration := if m - 1 < n then m - 1 else n;
    ghost var hs: seq<Matrix> := [];
    IdentityLeft(a0);
    for i := 0 to fullIteration
      invariant fresh(a) && fresh(q) && a.Valid() && q.Valid()
      invariant a.row == m && a.column == n && q.row == m && q.column == m
      invariant |hs| == i && Accumulated(a.Value(), q.Value(), hs, a0, m)
    {
      a, q, hs := HouseholderStep(a, q, i, sqrt, sign, hs, a0);
    }
    var qt := Tr(q);
    TransposeInvolution(q.Value());
    assert Transpose(qt.Value()) == Accumulate(hs, m);
    return Ok(QRDecomposition(qt, a));
  }
}
