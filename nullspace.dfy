/**
 * Matrices applied to vectors, singularity (a non-zero vector sent to zero),
 * and the triangular systems that LU decomposition produces.
 */
module NullSpace {
  import opened Sums
  import opened Matrices

  /** Row r of m times the vector x. */
  function Dot(m: Matrix, r: nat, x: seq<real>): real
    requires m.Valid() && r < m.rows && |x| == m.cols
  {
    Sigma(m.cols, DotTerms(m, r, x))
  }

  /** The c-th summand of Dot: m(r, c) * x[c]. */
  function DotTerms(m: Matrix, r: nat, x: seq<real>): nat -> real
    requires m.Valid() && r < m.rows && |x| == m.cols
  {
    (c: nat) => if c < m.cols then Get(m, r, c) * x[c] else 0.0
  }

  /** x is non-zero and every row of m sends it to zero. */
  ghost predicate IsNullVector(m: Matrix, x: seq<real>)
    requires m.Valid()
  {
    |x| == m.cols &&
    (exists k :: 0 <= k < |x| && x[k] != 0.0) &&
    (forall r: nat :: r < m.rows ==> Dot(m, r, x) == 0.0)
  }

  /** Some non-zero vector is sent to zero. */
  ghost predicate Singular(m: Matrix)
    requires m.Valid()
  {
    exists x: seq<real> :: IsNullVector(m, x)
  }

  /** Ones on the diagonal, zeros above it. */
  ghost predicate UnitLowerTriangular(m: Matrix)
    requires m.Valid()
  {
    forall r: nat, c: nat :: r < m.rows && c < m.cols && c >= r ==> Get(m, r, c) == if r == c then 1.0 else 0.0
  }

  /** Zeros below the diagonal. */
  ghost predicate UpperTriangular(m: Matrix)
    requires m.Valid()
  {
    forall r: nat, c: nat :: r < m.rows && c < m.cols && c < r ==> Get(m, r, c) == 0.0
  }

  /** No zero on the diagonal. */
  ghost predicate NonZeroDiagonal(m: Matrix)
    requires m.Valid()
  {
    forall k: nat :: k < m.rows && k < m.cols ==> Get(m, k, k) != 0.0
  }

  // ---------------------------------------------------------------------
  // Products against vectors.

  /** P, Q and R spell out row q of l, the matrix u and the vector x. */
  ghost predicate DotFactors(l: Matrix, u: Matrix, q: nat, x: seq<real>, P: nat -> real, Q: (nat, nat) -> real, R: nat -> real)
    requires l.Valid() && u.Valid() && l.cols == u.rows && q < l.rows && |x| == u.cols
  {
    (forall k: nat :: k < l.cols ==> P(k) == Get(l, q, k)) &&
    (forall k: nat, c: nat :: k < l.cols && c < u.cols ==> Q(k, c) == Get(u, k, c)) &&
    (forall c: nat :: c < u.cols ==> R(c) == x[c])
  }

  /** Summand c of the left-hand side of PartialProductDot, written with the factor functions. */
  lemma PartialColumn(l: Matrix, u: Matrix, q: nat, t: nat, x: seq<real>, P: nat -> real, Q: (nat, nat) -> real, R: nat -> real, c: nat)
    requires l.Valid() && u.Valid() && l.cols == u.rows && q < l.rows && t <= l.cols && |x| == u.cols && c < u.cols
    requires DotFactors(l, u, q, x, P, Q, R)
    ensures Sigma(t, RowColTerms(l, u, q, c)) * x[c] == Sigma(t, (k: nat) => P(k) * Q(k, c)) * R(c)
  {
    var f, g := RowColTerms(l, u, q, c), (k: nat) => P(k) * Q(k, c);
    PartialColumnSum(l, u, q, t, x, P, Q, R, c);
    MulCongruence(Sigma(t, f), Sigma(t, g), x[c], R(c));
  }

  /** The first t summands of entry (q, c) of l * u, written with the factor functions. */
  lemma PartialColumnSum(l: Matrix, u: Matrix, q: nat, t: nat, x: seq<real>, P: nat -> real, Q: (nat, nat) -> real, R: nat -> real, c: nat)
    requires l.Valid() && u.Valid() && l.cols == u.rows && q < l.rows && t <= l.cols && |x| == u.cols && c < u.cols
    requires DotFactors(l, u, q, x, P, Q, R)
    ensures Sigma(t, RowColTerms(l, u, q, c)) == Sigma(t, (k: nat) => P(k) * Q(k, c))
  {
    var f, g := RowColTerms(l, u, q, c), (k: nat) => P(k) * Q(k, c);
    forall k: nat | k < t
      ensures f(k) == g(k)
    {
      assert f(k) == Get(l, q, k) * Get(u, k, c);
      assert g(k) == P(k) * Q(k, c);
      MulCongruence(Get(l, q, k), P(k), Get(u, k, c), Q(k, c));
    }
    SigmaExt(t, f, g);
  }

  /** The left-hand side of PartialProductDot, written with the factor functions. */
  lemma PartialColumns(l: Matrix, u: Matrix, q: nat, t: nat, x: seq<real>, P: nat -> real, Q: (nat, nat) -> real, R: nat -> real)
    requires l.Valid() && u.Valid() && l.cols == u.rows && q < l.rows && t <= l.cols && |x| == u.cols
    requires DotFactors(l, u, q, x, P, Q, R)
    ensures Sigma(u.cols, (c: nat) => if c < u.cols then Sigma(t, RowColTerms(l, u, q, c)) * x[c] else 0.0)
         == Sigma(u.cols, (c: nat) => Sigma(t, (k: nat) => P(k) * Q(k, c)) * R(c))
  {
    forall c: nat | c < u.cols
      ensures Sigma(t, RowColTerms(l, u, q, c)) * x[c] == Sigma(t, (k: nat) => P(k) * Q(k, c)) * R(c)
    {
      PartialColumn(l, u, q, t, x, P, Q, R, c);
    }
    SigmaExt(u.cols, (c: nat) => if c < u.cols then Sigma(t, RowColTerms(l, u, q, c)) * x[c] else 0.0,
                     (c: nat) => Sigma(t, (k: nat) => P(k) * Q(k, c)) * R(c));
  }

  /** Summand k of the right-hand side of PartialProductDot, written with the factor functions. */
  lemma PartialRow(l: Matrix, u: Matrix, q: nat, x: seq<real>, P: nat -> real, Q: (nat, nat) -> real, R: nat -> real, k: nat)
    requires l.Valid() && u.Valid() && l.cols == u.rows && q < l.rows && |x| == u.cols && k < l.cols
    requires DotFactors(l, u, q, x, P, Q, R)
    ensures Get(l, q, k) * Dot(u, k, x) == P(k) * Sigma(u.cols, (c: nat) => Q(k, c) * R(c))
  {
    forall c: nat | c < u.cols
      ensures DotTerms(u, k, x)(c) == Q(k, c) * R(c)
    {
      MulCongruence(Get(u, k, c), Q(k, c), x[c], R(c));
    }
    SigmaExt(u.cols, DotTerms(u, k, x), (c: nat) => Q(k, c) * R(c));
    MulCongruence(Get(l, q, k), P(k), Dot(u, k, x), Sigma(u.cols, (c: nat) => Q(k, c) * R(c)));
  }

  /** The right-hand side of PartialProductDot, written with the factor functions. */
  lemma PartialRows(l: Matrix, u: Matrix, q: nat, t: nat, x: seq<real>, P: nat -> real, Q: (nat, nat) -> real, R: nat -> real)
    requires l.Valid() && u.Valid() && l.cols == u.rows && q < l.rows && t <= l.cols && |x| == u.cols
    requires DotFactors(l, u, q, x, P, Q, R)
    ensures Sigma(t, (k: nat) => if k < l.cols then Get(l, q, k) * Dot(u, k, x) else 0.0)
         == Sigma(t, (k: nat) => P(k) * Sigma(u.cols, (c: nat) => Q(k, c) * R(c)))
  {
    forall k: nat | k < t
      ensures Get(l, q, k) * Dot(u, k, x) == P(k) * Sigma(u.cols, (c: nat) => Q(k, c) * R(c))
    {
      PartialRow(l, u, q, x, P, Q, R, k);
    }
    SigmaExt(t, (k: nat) => if k < l.cols then Get(l, q, k) * Dot(u, k, x) else 0.0,
                (k: nat) => P(k) * Sigma(u.cols, (c: nat) => Q(k, c) * R(c)));
  }

  /**
   * The first t columns of l times u, applied to x, is the first t columns of
   * row q of l applied to the vector u x.
   */
  lemma PartialProductDot(l: Matrix, u: Matrix, q: nat, t: nat, x: seq<real>)
    requires l.Valid() && u.Valid() && l.cols == u.rows && q < l.rows && t <= l.cols && |x| == u.cols
    ensures Sigma(u.cols, (c: nat) => if c < u.cols then Sigma(t, RowColTerms(l, u, q, c)) * x[c] else 0.0)
         == Sigma(t, (k: nat) => if k < l.cols then Get(l, q, k) * Dot(u, k, x) else 0.0)
  {
    var P := (k: nat) => if k < l.cols then Get(l, q, k) else 0.0;
    var Q := (k: nat, c: nat) => if k < l.cols && c < u.cols then Get(u, k, c) else 0.0;
    var R := (c: nat) => if c < u.cols then x[c] else 0.0;
    PartialColumns(l, u, q, t, x, P, Q, R);
    PartialRows(l, u, q, t, x, P, Q, R);
    SigmaAssociative(t, u.cols, P, Q, R);
  }

  /** Row q of l * u applied to x, summed column by column. */
  lemma ProductDotColumns(l: Matrix, u: Matrix, q: nat, x: seq<real>)
    requires l.Valid() && u.Valid() && l.cols == u.rows && q < l.rows && |x| == u.cols
    ensures Dot(Product(l, u), q, x) == Sigma(u.cols, (c: nat) => if c < u.cols then Sigma(l.cols, RowColTerms(l, u, q, c)) * x[c] else 0.0)
  {
    var lu := Product(l, u);
    var f := DotTerms(lu, q, x);
    var g := (c: nat) => if c < u.cols then Sigma(l.cols, RowColTerms(l, u, q, c)) * x[c] else 0.0;
    forall c: nat | c < u.cols
      ensures f(c) == g(c)
    {
      var e, s := Get(lu, q, c), RowCol(l, u, q, c);
      assert f(c) == e * x[c];
      assert g(c) == s * x[c];
      MulCongruence(e, s, x[c], x[c]);
    }
    SigmaExt(u.cols, f, g);
  }

  /** Row q of l * u applied to x is row q of l applied to u x. */
  lemma ProductDot(l: Matrix, u: Matrix, q: nat, x: seq<real>) returns (y: seq<real>)
    requires l.Valid() && u.Valid() && l.cols == u.rows && q < l.rows && |x| == u.cols
    ensures |y| == u.rows && forall k :: 0 <= k < u.rows ==> y[k] == Dot(u, k, x)
    ensures Dot(Product(l, u), q, x) == Dot(l, q, y)
  {
    y := seq(u.rows, k requires 0 <= k < u.rows => Dot(u, k, x));
    var f := (k: nat) => if k < l.cols then Get(l, q, k) * Dot(u, k, x) else 0.0;
    var g := DotTerms(l, q, y);
    forall k: nat | k < l.cols
      ensures f(k) == g(k)
    {
      assert f(k) == Get(l, q, k) * Dot(u, k, x);
      assert g(k) == Get(l, q, k) * y[k];
      MulCongruence(Get(l, q, k), Get(l, q, k), Dot(u, k, x), y[k]);
    }
    SigmaExt(l.cols, f, g);
    ProductDotColumns(l, u, q, x);
    PartialProductDot(l, u, q, l.cols, x);
  }

  /** A product vanishes only with a vanishing factor. */
  lemma ZeroProduct(a: real, b: real)
    requires a != 0.0 && a * b == 0.0
    ensures b == 0.0
  {
  }

  // ---------------------------------------------------------------------
  // Triangular systems.

  /** A unit lower triangular system l y = 0 forces y = 0, row by row from the top. */
  lemma {:induction false} UnitLowerOnlyZero(l: Matrix, y: seq<real>, t: nat)
    requires l.Valid() && l.rows == l.cols && UnitLowerTriangular(l) && |y| == l.cols && t <= l.rows
    requires forall q: nat :: q < l.rows ==> Dot(l, q, y) == 0.0
    ensures forall k :: 0 <= k < t ==> y[k] == 0.0
  {
    if t > 0 {
      UnitLowerOnlyZero(l, y, t - 1);
      var q := t - 1;
      forall c: nat | c < l.cols && c != q ensures DotTerms(l, q, y)(c) == 0.0 {
        if c < q {
          assert y[c] == 0.0;
        }
      }
      SigmaSingle(l.cols, DotTerms(l, q, y), q);
      assert Dot(l, q, y) == y[q];
    }
  }

  /** An upper triangular system u x = 0 with no zero pivot forces x = 0, row by row from the bottom. */
  lemma {:induction false} UpperOnlyZero(u: Matrix, x: seq<real>, t: nat)
    requires u.Valid() && u.rows == u.cols && UpperTriangular(u) && NonZeroDiagonal(u) && |x| == u.cols && t <= u.rows
    requires forall k: nat :: k < u.rows ==> Dot(u, k, x) == 0.0
    ensures forall k :: t <= k < u.rows ==> x[k] == 0.0
    decreases u.rows - t
  {
    if t < u.rows {
      UpperOnlyZero(u, x, t + 1);
      forall c: nat | c < u.cols && c != t ensures DotTerms(u, t, x)(c) == 0.0 {
        if c > t {
          assert x[c] == 0.0;
        }
      }
      SigmaSingle(u.cols, DotTerms(u, t, x), t);
      assert Dot(u, t, x) == Get(u, t, t) * x[t];
      ZeroProduct(Get(u, t, t), x[t]);
    }
  }

  /**
   * If the rows p[q] of a are the rows of l * u, with l unit lower triangular
   * and u upper triangular without zero pivots, a is not singular.
   */
  lemma FactorizedNotSingular(a: Matrix, l: Matrix, u: Matrix, p: seq<nat>)
    requires a.Valid() && l.Valid() && u.Valid()
    requires a.rows == a.cols && l.rows == a.rows && l.cols == a.rows && u.rows == a.rows && u.cols == a.rows
    requires |p| == a.rows && (forall k :: 0 <= k < |p| ==> p[k] < a.rows)
    requires PermuteRows(a, p) == Product(l, u)
    requires UnitLowerTriangular(l) && UpperTriangular(u) && NonZeroDiagonal(u)
    ensures !Singular(a)
  {
    if x: seq<real> :| IsNullVector(a, x) {
      var n := a.rows;
      var y := seq(n, k requires 0 <= k < n => Dot(u, k, x));
      forall q: nat | q < n ensures Dot(l, q, y) == 0.0 {
        FactorizedRow(a, l, u, p, x, y, q);
      }
      UnitLowerOnlyZero(l, y, n);
      assert forall k: nat :: k < n ==> Dot(u, k, x) == y[k];
      UpperOnlyZero(u, x, 0);
      assert false;
    }
  }

  /** Row q of l sends u x to zero when row p[q] of a, which equals row q of l * u, sends x to zero. */
  lemma FactorizedRow(a: Matrix, l: Matrix, u: Matrix, p: seq<nat>, x: seq<real>, y: seq<real>, q: nat)
    requires a.Valid() && l.Valid() && u.Valid()
    requires a.rows == a.cols && l.rows == a.rows && l.cols == a.rows && u.rows == a.rows && u.cols == a.rows
    requires |p| == a.rows && (forall k :: 0 <= k < |p| ==> p[k] < a.rows)
    requires PermuteRows(a, p) == Product(l, u)
    requires |x| == a.cols && q < a.rows && Dot(a, p[q], x) == 0.0
    requires |y| == u.rows && forall k :: 0 <= k < u.rows ==> y[k] == Dot(u, k, x)
    ensures Dot(l, q, y) == 0.0
  {
    var n := a.rows;
    var y' := ProductDot(l, u, q, x);
    assert y' == y;
    forall c: nat | c < n ensures DotTerms(a, p[q], x)(c) == DotTerms(Product(l, u), q, x)(c) {
      assert Get(Product(l, u), q, c) == Get(PermuteRows(a, p), q, c) == Get(a, p[q], c);
    }
    SigmaExt(n, DotTerms(a, p[q], x), DotTerms(Product(l, u), q, x));
  }

  // ---------------------------------------------------------------------
  // A null vector by back substitution.

  /** The unit vector with a one at entry i. */
  function Unit(n: nat, i: nat): (v: seq<real>)
    requires i < n
    ensures |v| == n && v[i] == 1.0 && forall c :: 0 <= c < n && c != i ==> v[c] == 0.0
  {
    seq(n, c requires 0 <= c < n => if c == i then 1.0 else 0.0)
  }

  /** Changing entry k of x by d changes row r of m applied to x by m(r, k) * d. */
  lemma DotUpdate(m: Matrix, r: nat, x: seq<real>, k: nat, a: real)
    requires m.Valid() && r < m.rows && |x| == m.cols && k < m.cols
    ensures Dot(m, r, x[k := a]) == Dot(m, r, x) + Get(m, r, k) * (a - x[k])
  {
    var f, g := DotTerms(m, r, x), DotTerms(m, r, x[k := a]);
    assert g(k) - f(k) == Get(m, r, k) * (a - x[k]);
    SigmaPoint(m.cols, f, g, k);
  }

  /**
   * Back substitution from the unit vector at entry i up to entry k: entries
   * k .. i - 1 are chosen so that rows k .. i - 1 of the upper triangular u
   * send the vector to zero; entry i stays one, all other entries zero.
   */
  ghost function Stage(u: Matrix, i: nat, k: nat): (v: seq<real>)
    requires u.Valid() && u.rows == u.cols && k <= i < u.rows
    requires forall j: nat :: j < i ==> Get(u, j, j) != 0.0
    requires forall r: nat, c: nat :: r < i && c < r ==> Get(u, r, c) == 0.0
    ensures |v| == u.cols && v[i] == 1.0
    ensures forall c :: 0 <= c < |v| && (c < k || c > i) ==> v[c] == 0.0
    ensures forall r: nat :: k <= r < i ==> Dot(u, r, v) == 0.0
    decreases i - k
  {
    if k == i then Unit(u.cols, i)
    else
      var v := Stage(u, i, k + 1);
      StageStep(u, i, k, v);
      v[k := -Dot(u, k, v) / Get(u, k, k)]
  }

  /** One step of the back substitution: solving row k keeps rows k + 1 .. i - 1 solved. */
  lemma StageStep(u: Matrix, i: nat, k: nat, v: seq<real>)
    requires u.Valid() && u.rows == u.cols && k < i < u.rows
    requires Get(u, k, k) != 0.0
    requires forall r: nat :: k < r < i ==> Get(u, r, k) == 0.0
    requires |v| == u.cols && v[i] == 1.0
    requires forall c :: 0 <= c < |v| && (c < k + 1 || c > i) ==> v[c] == 0.0
    requires forall r: nat :: k + 1 <= r < i ==> Dot(u, r, v) == 0.0
    ensures var v' := v[k := -Dot(u, k, v) / Get(u, k, k)];
      v'[i] == 1.0 &&
      (forall c :: 0 <= c < |v'| && (c < k || c > i) ==> v'[c] == 0.0) &&
      (forall r: nat :: k <= r < i ==> Dot(u, r, v') == 0.0)
  {
    var a := -Dot(u, k, v) / Get(u, k, k);
    var v' := v[k := a];
    DotUpdate(u, k, v, k, a);
    NegatedRatioCancels(Dot(u, k, v), Get(u, k, k));
    forall r: nat | k < r < i ensures Dot(u, r, v') == 0.0 {
      DotUpdate(u, r, v, k, a);
    }
  }

  /** Adding d times -s / d to s leaves nothing. */
  lemma NegatedRatioCancels(s: real, d: real)
    requires d != 0.0
    ensures s + d * (-s / d - 0.0) == 0.0
  {
  }

  /** The diagonal of the upper-left i x i block of u is non-zero, u is zero below it there and in the rows from i on: u sends Stage(u, i, 0) to zero. */
  lemma StageIsNull(u: Matrix, i: nat)
    requires u.Valid() && u.rows == u.cols && i < u.rows
    requires forall j: nat :: j < i ==> Get(u, j, j) != 0.0
    requires forall r: nat, c: nat :: r < i && c < r ==> Get(u, r, c) == 0.0
    requires forall r: nat, c: nat :: i <= r < u.rows && c < u.cols ==> Get(u, r, c) == 0.0
    ensures forall r: nat :: r < u.rows ==> Dot(u, r, Stage(u, i, 0)) == 0.0
  {
    var v := Stage(u, i, 0);
    forall r: nat | i <= r < u.rows ensures Dot(u, r, v) == 0.0 {
      SigmaZero(u.cols, DotTerms(u, r, v));
    }
  }
}
