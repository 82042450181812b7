/** Finite sums accumulated from zero in index order, as the library's loops and iterator sums do. */
module Sums {

  /** f(0) + f(1) + ... + f(n - 1), added up from 0.0 left to right. */
  function Sigma(n: nat, f: nat -> real): real
  {
    if n == 0 then 0.0 else Sigma(n - 1, f) + f(n - 1)
  }

  /** A sum depends only on the terms below its bound. */
  lemma {:induction false} SigmaExt(n: nat, f: nat -> real, g: nat -> real)
    requires forall j: nat :: j < n ==> f(j) == g(j)
    ensures Sigma(n, f) == Sigma(n, g)
  {
    if n > 0 {
      SigmaExt(n - 1, f, g);
    }
  }

  /** A sum of zeros is zero. */
  lemma {:induction false} SigmaZero(n: nat, f: nat -> real)
    requires forall j: nat :: j < n ==> f(j) == 0.0
    ensures Sigma(n, f) == 0.0
  {
    if n > 0 {
      SigmaZero(n - 1, f);
    }
  }

  /** A sum whose terms vanish except at index k is that one term. */
  lemma {:induction false} SigmaSingle(n: nat, f: nat -> real, k: nat)
    requires k < n
    requires forall j: nat :: j < n && j != k ==> f(j) == 0.0
    ensures Sigma(n, f) == f(k)
  {
    if k == n - 1 {
      SigmaZero(n - 1, f);
    } else {
      SigmaSingle(n - 1, f, k);
    }
  }

  /** Splitting off the terms from m on. */
  lemma {:induction false} SigmaSplit(n: nat, m: nat, f: nat -> real)
    requires m <= n
    requires forall j: nat :: m <= j < n ==> f(j) == 0.0
    ensures Sigma(n, f) == Sigma(m, f)
  {
    if n > m {
      SigmaSplit(n - 1, m, f);
    }
  }

  /** Dropping the last term of a sum. */
  lemma SigmaLast(n: nat, f: nat -> real)
    requires n > 0
    ensures Sigma(n, f) == Sigma(n - 1, f) + f(n - 1)
  {
  }

  /** A sum of two terms. */
  lemma SigmaTwo(f: nat -> real)
    ensures Sigma(2, f) == f(0) + f(1)
  {
    SigmaLast(2, f);
    SigmaLast(1, f);
  }

  /** Two sums whose terms differ only at index k differ by the difference of those terms. */
  lemma {:induction false} SigmaPoint(n: nat, f: nat -> real, g: nat -> real, k: nat)
    requires k < n
    requires forall j: nat :: j < n && j != k ==> f(j) == g(j)
    ensures Sigma(n, g) == Sigma(n, f) + (g(k) - f(k))
  {
    if k == n - 1 {
      SigmaExt(n - 1, f, g);
    } else {
      SigmaPoint(n - 1, f, g, k);
    }
  }

  /** A constant factor moves out of a sum. */
  lemma {:induction false} SigmaScale(n: nat, a: real, f: nat -> real, g: nat -> real)
    requires forall j: nat :: j < n ==> g(j) == a * f(j)
    ensures Sigma(n, g) == a * Sigma(n, f)
  {
    if n > 0 {
      SigmaScale(n - 1, a, f, g);
    }
  }

  /** The sum of pointwise sums is the sum of the two sums. */
  lemma {:induction false} SigmaAdd(n: nat, f: nat -> real, g: nat -> real, h: nat -> real)
    requires forall j: nat :: j < n ==> h(j) == f(j) + g(j)
    ensures Sigma(n, h) == Sigma(n, f) + Sigma(n, g)
  {
    if n > 0 {
      SigmaAdd(n - 1, f, g, h);
    }
  }

  /** The order of summation in a double sum does not matter. */
  lemma {:induction false} SigmaSwap(n: nat, m: nat, F: (nat, nat) -> real)
    ensures Sigma(n, (i: nat) => Sigma(m, (j: nat) => F(i, j))) == Sigma(m, (j: nat) => Sigma(n, (i: nat) => F(i, j)))
  {
    var rows := (i: nat) => Sigma(m, (j: nat) => F(i, j));
    var cols := (j: nat) => Sigma(n, (i: nat) => F(i, j));
    if n > 0 {
      SigmaSwap(n - 1, m, F);
      var last := (j: nat) => F(n - 1, j);
      var before := (j: nat) => Sigma(n - 1, (i: nat) => F(i, j));
      assert Sigma(n, rows) == Sigma(n - 1, rows) + Sigma(m, last);
      assert Sigma(n - 1, rows) == Sigma(m, before);
      SigmaAdd(m, before, last, cols);
    } else {
      SigmaZero(m, cols);
    }
  }

  /** Products of equal factors are equal. */
  lemma MulCongruence(x: real, x': real, y: real, y': real)
    requires x == x' && y == y'
    ensures x * y == x' * y'
  {
  }

  /** A product with a zero factor is zero. */
  lemma MulZero(a: real, b: real)
    requires b == 0.0
    ensures a * b == 0.0
  {
  }

  /** Multiplication distributes over a sum of two numbers. */
  lemma MulDistributes(a: real, s: real, w: real, x: real)
    requires a == s + w
    ensures a * x == s * x + w * x
  {
  }

  /** A column of a double sum of products, with the common right factor moved out. */
  lemma ColumnScaled(n: nat, P: nat -> real, Q: (nat, nat) -> real, R: nat -> real, F: (nat, nat) -> real, j: nat)
    requires forall k: nat :: F(k, j) == P(k) * (Q(k, j) * R(j))
    ensures Sigma(n, (k: nat) => P(k) * Q(k, j)) * R(j) == Sigma(n, (k: nat) => F(k, j))
  {
    SigmaScale(n, R(j), (k: nat) => P(k) * Q(k, j), (k: nat) => F(k, j));
  }

  /** A row of a double sum of products, with the common left factor moved out. */
  lemma RowScaled(m: nat, P: nat -> real, Q: (nat, nat) -> real, R: nat -> real, F: (nat, nat) -> real, k: nat)
    requires forall j: nat :: F(k, j) == P(k) * (Q(k, j) * R(j))
    ensures P(k) * Sigma(m, (j: nat) => Q(k, j) * R(j)) == Sigma(m, (j: nat) => F(k, j))
  {
    SigmaScale(m, P(k), (j: nat) => Q(k, j) * R(j), (j: nat) => F(k, j));
  }

  /** The left-bracketed double sum, regrouped term by term. */
  lemma ColumnsScaled(n: nat, m: nat, P: nat -> real, Q: (nat, nat) -> real, R: nat -> real, F: (nat, nat) -> real)
    requires forall k: nat, j: nat :: F(k, j) == P(k) * (Q(k, j) * R(j))
    ensures Sigma(m, (j: nat) => Sigma(n, (k: nat) => P(k) * Q(k, j)) * R(j))
         == Sigma(m, (j: nat) => Sigma(n, (k: nat) => F(k, j)))
  {
    forall j: nat | j < m
      ensures Sigma(n, (k: nat) => P(k) * Q(k, j)) * R(j) == Sigma(n, (k: nat) => F(k, j))
    {
      ColumnScaled(n, P, Q, R, F, j);
    }
    SigmaExt(m, (j: nat) => Sigma(n, (k: nat) => P(k) * Q(k, j)) * R(j), (j: nat) => Sigma(n, (k: nat) => F(k, j)));
  }

  /** The right-bracketed double sum, regrouped term by term. */
  lemma RowsScaled(n: nat, m: nat, P: nat -> real, Q: (nat, nat) -> real, R: nat -> real, F: (nat, nat) -> real)
    requires forall k: nat, j: nat :: F(k, j) == P(k) * (Q(k, j) * R(j))
    ensures Sigma(n, (k: nat) => P(k) * Sigma(m, (j: nat) => Q(k, j) * R(j)))
         == Sigma(n, (k: nat) => Sigma(m, (j: nat) => F(k, j)))
  {
    forall k: nat | k < n
      ensures P(k) * Sigma(m, (j: nat) => Q(k, j) * R(j)) == Sigma(m, (j: nat) => F(k, j))
    {
      RowScaled(m, P, Q, R, F, k);
    }
    SigmaExt(n, (k: nat) => P(k) * Sigma(m, (j: nat) => Q(k, j) * R(j)), (k: nat) => Sigma(m, (j: nat) => F(k, j)));
  }

  /** Summing P(k) * Q(k, j) * R(j) over k first or over j first gives the same total. */
  lemma SigmaAssociative(n: nat, m: nat, P: nat -> real, Q: (nat, nat) -> real, R: nat -> real)
    ensures Sigma(m, (j: nat) => Sigma(n, (k: nat) => P(k) * Q(k, j)) * R(j))
         == Sigma(n, (k: nat) => P(k) * Sigma(m, (j: nat) => Q(k, j) * R(j)))
  {
    var F := (k: nat, j: nat) => P(k) * (Q(k, j) * R(j));
    ColumnsScaled(n, m, P, Q, R, F);
    RowsScaled(n, m, P, Q, R, F);
    SigmaSwap(n, m, F);
  }
}
