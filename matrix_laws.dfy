/** Algebraic laws of the value-level matrix operations. */
module MatrixLaws {
  import opened Sums
  import opened Numbers
  import opened Matrices

  /** Transposing twice gives back the matrix. */
  lemma TransposeInvolution(a: Matrix)
    requires a.Valid()
    ensures Transpose(Transpose(a)) == a
  {
    Ext(Transpose(Transpose(a)), a);
  }

  /** Negating twice gives back the matrix. */
  lemma NegationInvolution(a: Matrix)
    requires a.Valid()
    ensures Negation(Negation(a)) == a
  {
    Ext(Negation(Negation(a)), a);
  }

  /** Subtraction is addition of the negation. */
  lemma DifferenceIsSumOfNegation(a: Matrix, b: Matrix)
    requires a.Valid() && b.Valid() && a.rows == b.rows && a.cols == b.cols
    ensures Difference(a, b) == Sum(a, Negation(b))
  {
    Ext(Difference(a, b), Sum(a, Negation(b)));
  }

  /** Addition commutes. */
  lemma SumCommutes(a: Matrix, b: Matrix)
    requires a.Valid() && b.Valid() && a.rows == b.rows && a.cols == b.cols
    ensures Sum(a, b) == Sum(b, a)
  {
    Ext(Sum(a, b), Sum(b, a));
  }

  /** The identity is a left unit of the product. */
  lemma IdentityLeft(a: Matrix)
    requires a.Valid()
    ensures Product(Identity(a.rows), a) == a
  {
    var i := Identity(a.rows);
    forall r: nat, c: nat | r < a.rows && c < a.cols
      ensures Get(Product(i, a), r, c) == Get(a, r, c)
    {
      SigmaSingle(a.rows, (k: nat) => if k < i.cols then Get(i, r, k) * Get(a, k, c) else 0.0, r);
    }
    Ext(Product(i, a), a);
  }

  /** The identity is a right unit of the product. */
  lemma IdentityRight(a: Matrix)
    requires a.Valid()
    ensures Product(a, Identity(a.cols)) == a
  {
    var i := Identity(a.cols);
    forall r: nat, c: nat | r < a.rows && c < a.cols
      ensures Get(Product(a, i), r, c) == Get(a, r, c)
    {
      SigmaSingle(a.cols, (k: nat) => if k < a.cols then Get(a, r, k) * Get(i, k, c) else 0.0, c);
    }
    Ext(Product(a, i), a);
  }

  /** The product is associative. */
  lemma ProductAssociative(a: Matrix, b: Matrix, c: Matrix)
    requires a.Valid() && b.Valid() && c.Valid() && a.cols == b.rows && b.cols == c.rows
    ensures Product(Product(a, b), c) == Product(a, Product(b, c))
  {
    var ab := Product(a, b);
    var bc := Product(b, c);
    forall r: nat, l: nat | r < a.rows && l < c.cols
      ensures Get(Product(ab, c), r, l) == Get(Product(a, bc), r, l)
    {
      RowColAssociative(a, b, c, r, l);
    }
    Ext(Product(ab, c), Product(a, bc));
  }

  /** A row-times-column entry is the sum of any summand that agrees with its terms. */
  lemma RowColIsSigma(a: Matrix, b: Matrix, r: nat, c: nat, f: nat -> real)
    requires a.Valid() && b.Valid() && a.cols == b.rows && r < a.rows && c < b.cols
    requires forall k: nat :: k < a.cols ==> f(k) == Get(a, r, k) * Get(b, k, c)
    ensures RowCol(a, b, r, c) == Sigma(a.cols, f)
  {
    SigmaExt(a.cols, RowColTerms(a, b, r, c), f);
  }

  /** An entry of a product, written with factor functions that agree with the two matrices. */
  lemma EntryAsSigma(a: Matrix, b: Matrix, r: nat, j: nat, P: nat -> real, Q: (nat, nat) -> real)
    requires a.Valid() && b.Valid() && a.cols == b.rows && r < a.rows && j < b.cols
    requires forall k: nat :: k < a.cols ==> P(k) == Get(a, r, k)
    requires forall k: nat :: k < a.cols ==> Q(k, j) == Get(b, k, j)
    ensures RowCol(a, b, r, j) == Sigma(a.cols, (k: nat) => P(k) * Q(k, j))
  {
    forall k: nat | k < a.cols
      ensures P(k) * Q(k, j) == Get(a, r, k) * Get(b, k, j)
    {
      MulCongruence(P(k), Get(a, r, k), Q(k, j), Get(b, k, j));
    }
    RowColIsSigma(a, b, r, j, (k: nat) => P(k) * Q(k, j));
  }

  /** The same, with the left factor indexed by the summation variable of a two-index function. */
  lemma EntryAsSigmaRight(b: Matrix, c: Matrix, k: nat, l: nat, Q: (nat, nat) -> real, R: nat -> real)
    requires b.Valid() && c.Valid() && b.cols == c.rows && k < b.rows && l < c.cols
    requires forall j: nat :: j < b.cols ==> Q(k, j) == Get(b, k, j)
    requires forall j: nat :: j < b.cols ==> R(j) == Get(c, j, l)
    ensures RowCol(b, c, k, l) == Sigma(b.cols, (j: nat) => Q(k, j) * R(j))
  {
    forall j: nat | j < b.cols
      ensures Q(k, j) * R(j) == Get(b, k, j) * Get(c, j, l)
    {
      MulCongruence(Q(k, j), Get(b, k, j), R(j), Get(c, j, l));
    }
    RowColIsSigma(b, c, k, l, (j: nat) => Q(k, j) * R(j));
  }

  /** The factors P, Q and R spell out row r of a, the matrix b and column l of c. */
  ghost predicate Factors(a: Matrix, b: Matrix, c: Matrix, r: nat, l: nat, P: nat -> real, Q: (nat, nat) -> real, R: nat -> real)
    requires a.Valid() && b.Valid() && c.Valid() && a.cols == b.rows && b.cols == c.rows
    requires r < a.rows && l < c.cols
  {
    (forall k: nat :: k < a.cols ==> P(k) == Get(a, r, k)) &&
    (forall k: nat, j: nat :: k < a.cols && j < b.cols ==> Q(k, j) == Get(b, k, j)) &&
    (forall j: nat :: j < b.cols ==> R(j) == Get(c, j, l))
  }

  /** Entry (r, l) of (a * b) * c as a double sum bracketed to the left. */
  lemma LeftBracketed(a: Matrix, b: Matrix, c: Matrix, r: nat, l: nat, P: nat -> real, Q: (nat, nat) -> real, R: nat -> real)
    requires a.Valid() && b.Valid() && c.Valid() && a.cols == b.rows && b.cols == c.rows
    requires r < a.rows && l < c.cols && Factors(a, b, c, r, l, P, Q, R)
    ensures RowCol(Product(a, b), c, r, l) == Sigma(b.cols, (j: nat) => Sigma(a.cols, (k: nat) => P(k) * Q(k, j)) * R(j))
  {
    LeftTerms(a, b, c, r, l, P, Q, R);
    RowColIsSigma(Product(a, b), c, r, l, (j: nat) => Sigma(a.cols, (k: nat) => P(k) * Q(k, j)) * R(j));
  }

  /** Every term of the left-bracketed sum. */
  lemma LeftTerms(a: Matrix, b: Matrix, c: Matrix, r: nat, l: nat, P: nat -> real, Q: (nat, nat) -> real, R: nat -> real)
    requires a.Valid() && b.Valid() && c.Valid() && a.cols == b.rows && b.cols == c.rows
    requires r < a.rows && l < c.cols && Factors(a, b, c, r, l, P, Q, R)
    ensures forall j: nat :: j < b.cols ==>
      Get(Product(a, b), r, j) * Get(c, j, l) == Sigma(a.cols, (k: nat) => P(k) * Q(k, j)) * R(j)
  {
    forall j: nat | j < b.cols
      ensures Get(Product(a, b), r, j) * Get(c, j, l) == Sigma(a.cols, (k: nat) => P(k) * Q(k, j)) * R(j)
    {
      LeftTerm(a, b, c, r, l, P, Q, R, j);
    }
  }

  /** Term j of the left-bracketed sum. */
  lemma LeftTerm(a: Matrix, b: Matrix, c: Matrix, r: nat, l: nat, P: nat -> real, Q: (nat, nat) -> real, R: nat -> real, j: nat)
    requires a.Valid() && b.Valid() && c.Valid() && a.cols == b.rows && b.cols == c.rows
    requires r < a.rows && l < c.cols && j < b.cols && Factors(a, b, c, r, l, P, Q, R)
    ensures Get(Product(a, b), r, j) * Get(c, j, l) == Sigma(a.cols, (k: nat) => P(k) * Q(k, j)) * R(j)
  {
    EntryAsSigma(a, b, r, j, P, Q);
    MulCongruence(Get(Product(a, b), r, j), Sigma(a.cols, (k: nat) => P(k) * Q(k, j)), Get(c, j, l), R(j));
  }

  /** Entry (r, l) of a * (b * c) as a double sum bracketed to the right. */
  lemma RightBracketed(a: Matrix, b: Matrix, c: Matrix, r: nat, l: nat, P: nat -> real, Q: (nat, nat) -> real, R: nat -> real)
    requires a.Valid() && b.Valid() && c.Valid() && a.cols == b.rows && b.cols == c.rows
    requires r < a.rows && l < c.cols && Factors(a, b, c, r, l, P, Q, R)
    ensures RowCol(a, Product(b, c), r, l) == Sigma(a.cols, (k: nat) => P(k) * Sigma(b.cols, (j: nat) => Q(k, j) * R(j)))
  {
    RightTerms(a, b, c, r, l, P, Q, R);
    RowColIsSigma(a, Product(b, c), r, l, (k: nat) => P(k) * Sigma(b.cols, (j: nat) => Q(k, j) * R(j)));
  }

  /** Every term of the right-bracketed sum. */
  lemma RightTerms(a: Matrix, b: Matrix, c: Matrix, r: nat, l: nat, P: nat -> real, Q: (nat, nat) -> real, R: nat -> real)
    requires a.Valid() && b.Valid() && c.Valid() && a.cols == b.rows && b.cols == c.rows
    requires r < a.rows && l < c.cols && Factors(a, b, c, r, l, P, Q, R)
    ensures forall k: nat :: k < a.cols ==>
      Get(a, r, k) * Get(Product(b, c), k, l) == P(k) * Sigma(b.cols, (j: nat) => Q(k, j) * R(j))
  {
    forall k: nat | k < a.cols
      ensures Get(a, r, k) * Get(Product(b, c), k, l) == P(k) * Sigma(b.cols, (j: nat) => Q(k, j) * R(j))
    {
      RightTerm(a, b, c, r, l, P, Q, R, k);
    }
  }

  /** Term k of the right-bracketed sum. */
  lemma RightTerm(a: Matrix, b: Matrix, c: Matrix, r: nat, l: nat, P: nat -> real, Q: (nat, nat) -> real, R: nat -> real, k: nat)
    requires a.Valid() && b.Valid() && c.Valid() && a.cols == b.rows && b.cols == c.rows
    requires r < a.rows && l < c.cols && k < a.cols && Factors(a, b, c, r, l, P, Q, R)
    ensures Get(a, r, k) * Get(Product(b, c), k, l) == P(k) * Sigma(b.cols, (j: nat) => Q(k, j) * R(j))
  {
    EntryAsSigmaRight(b, c, k, l, Q, R);
    MulCongruence(Get(a, r, k), P(k), Get(Product(b, c), k, l), Sigma(b.cols, (j: nat) => Q(k, j) * R(j)));
  }

  lemma RowColAssociative(a: Matrix, b: Matrix, c: Matrix, r: nat, l: nat)
    requires a.Valid() && b.Valid() && c.Valid() && a.cols == b.rows && b.cols == c.rows
    requires r < a.rows && l < c.cols
    ensures RowCol(Product(a, b), c, r, l) == RowCol(a, Product(b, c), r, l)
  {
    var P := (k: nat) => if k < a.cols then Get(a, r, k) else 0.0;
    var Q := (k: nat, j: nat) => if k < a.cols && j < b.cols then Get(b, k, j) else 0.0;
    var R := (j: nat) => if j < b.cols then Get(c, j, l) else 0.0;
    LeftBracketed(a, b, c, r, l, P, Q, R);
    RightBracketed(a, b, c, r, l, P, Q, R);
    SigmaAssociative(a.cols, b.cols, P, Q, R);
  }

  /** Tolerance equality is reflexive for a non-negative tolerance. */
  lemma WithinErrorReflexive(a: Matrix, eps: real)
    requires a.Valid() && eps >= 0.0
    ensures WithinError(a, a, eps)
  {
    assert forall k :: 0 <= k < |a.data| ==> a.data[k] - a.data[k] == 0.0;
    assert Abs(0.0) == 0.0;
    assert forall k :: 0 <= k < |a.data| ==> Abs(a.data[k] - a.data[k]) == Abs(0.0);
  }

  /** Tolerance equality is symmetric. */
  lemma WithinErrorSymmetric(a: Matrix, b: Matrix, eps: real)
    requires a.Valid() && b.Valid() && WithinError(a, b, eps)
    ensures WithinError(b, a, eps)
  {
  }

  /** With zero tolerance, tolerance equality is equality. */
  lemma WithinZeroErrorIsEquality(a: Matrix, b: Matrix)
    requires a.Valid() && b.Valid()
    ensures WithinError(a, b, 0.0) <==> a == b
  {
    if WithinError(a, b, 0.0) {
      assert a.data == b.data;
    }
  }
}
