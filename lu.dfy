/**
 * LU decomposition with partial pivoting: for a square matrix A it finds a
 * row permutation p, a unit lower triangular L and an upper triangular U with
 * row p[q] of A equal to row q of L * U, or reports that A is singular.
 */
module LuDecomp {
  import opened Errors
  import opened Sums
  import opened Numbers
  import opened Matrices
  import opened Permutations
  import opened Mat64Type
  import opened NullSpace

  /** The result of `lu`: the two factors and the permutation index. */
  datatype LUDecomposition = LUDecomposition(l: Mat64, u: Mat64, p: seq<nat>)

  /** `argmaxabs`: the first index of an element of largest absolute value; 0 for no elements. */
  method ArgMaxAbs(elems: seq<real>) returns (ans: nat)
    ensures |elems| == 0 ==> ans == 0
    ensures |elems| > 0 ==> ans < |elems|
    ensures |elems| > 0 ==> forall k :: 0 <= k < |elems| ==> Abs(elems[k]) <= Abs(elems[ans])
    ensures forall k :: 0 <= k < ans && ans < |elems| ==> Abs(elems[k]) < Abs(elems[ans])
  {
    if |elems| == 0 {
      return 0;
    }
    ans := 0;
    var i := 1;
    while i < |elems|
      invariant 1 <= i <= |elems| && ans < i
      invariant forall k :: 0 <= k < i ==> Abs(elems[k]) <= Abs(elems[ans])
      invariant forall k :: 0 <= k < ans ==> Abs(elems[k]) < Abs(elems[ans])
    {
      if Abs(elems[i]) > Abs(elems[ans]) {
        ans := i;
      }
      i := i + 1;
    }
  }

  // ---------------------------------------------------------------------
  // What a finished decomposition satisfies.

  /** Row p[q] of a is row q of l * u, with l unit lower and u upper triangular with pivots on its diagonal. */
  ghost predicate IsLUFactorization(a: Matrix, l: Matrix, u: Matrix, p: seq<nat>)
  {
    a.Valid() && l.Valid() && u.Valid() &&
    a.rows == a.cols && l.rows == a.rows && l.cols == a.rows && u.rows == a.rows && u.cols == a.rows &&
    |p| == a.rows && IsPermutation(p) &&
    PermuteRows(a, p) == Product(l, u) &&
    UnitLowerTriangular(l) && UpperTriangular(u) && NonZeroDiagonal(u)
  }

  // ---------------------------------------------------------------------
  // The state of the elimination after t columns.

  /** All four matrices are n x n, and p and ip are inverse permutations of 0 .. n - 1. */
  ghost predicate Shapes(n: nat, a0: Matrix, w: Matrix, l: Matrix, u: Matrix, p: seq<nat>, ip: seq<nat>)
  {
    a0.Valid() && w.Valid() && l.Valid() && u.Valid() &&
    a0.rows == n && a0.cols == n && w.rows == n && w.cols == n &&
    l.rows == n && l.cols == n && u.rows == n && u.cols == n &&
    |p| == n && Inverses(p, ip)
  }

  /** Row p[q] of a0 is what the first t columns of l times u add up to, plus what is left of it in w. */
  ghost predicate Reconstructs(n: nat, a0: Matrix, w: Matrix, l: Matrix, u: Matrix, p: seq<nat>, ip: seq<nat>, t: nat)
    requires Shapes(n, a0, w, l, u, p, ip) && t <= n
  {
    forall q: nat, c: nat :: q < n && c < n ==>
      Get(a0, p[q], c) == Sigma(t, RowColTerms(l, u, q, c)) + Get(w, p[q], c)
  }

  /** The rows moved into u so far are zero in w. */
  ghost predicate DoneRowsZero(n: nat, w: Matrix, p: seq<nat>, t: nat)
    requires w.Valid() && w.rows == n && w.cols == n && |p| == n && (forall k :: 0 <= k < n ==> p[k] < n) && t <= n
  {
    forall q: nat, c: nat :: q < t && c < n ==> Get(w, p[q], c) == 0.0
  }

  /** The eliminated columns are zero in w. */
  ghost predicate LeftColsZero(n: nat, w: Matrix, t: nat)
    requires w.Valid() && w.rows == n && w.cols == n && t <= n
  {
    forall r: nat, c: nat :: r < n && c < t ==> Get(w, r, c) == 0.0
  }

  /** l is the identity on and above the diagonal and in the columns from t on. */
  ghost predicate LowerUpTo(n: nat, l: Matrix, t: nat)
    requires l.Valid() && l.rows == n && l.cols == n
  {
    forall q: nat, k: nat :: q < n && k < n && (k >= q || k >= t) ==> Get(l, q, k) == if q == k then 1.0 else 0.0
  }

  /** u is zero below the diagonal and in the rows from t on, with no zero pivot above row t. */
  ghost predicate UpperUpTo(n: nat, u: Matrix, t: nat)
    requires u.Valid() && u.rows == n && u.cols == n
  {
    (forall k: nat, c: nat :: k < n && c < n && (k >= t || c < k) ==> Get(u, k, c) == 0.0) &&
    (forall k: nat :: k < t && k < n ==> Get(u, k, k) != 0.0)
  }

  /** The loop invariant of `lu` before column t is eliminated. */
  ghost predicate LuInv(a0: Matrix, w: Matrix, l: Matrix, u: Matrix, p: seq<nat>, ip: seq<nat>, t: nat)
  {
    var n := a0.rows;
    t <= n && Shapes(n, a0, w, l, u, p, ip) &&
    Reconstructs(n, a0, w, l, u, p, ip, t) &&
    DoneRowsZero(n, w, p, t) && LeftColsZero(n, w, t) &&
    LowerUpTo(n, l, t) && UpperUpTo(n, u, t)
  }

  /** The state once the pivot row of column i has moved into row i of u. */
  ghost predicate Moved(a0: Matrix, w: Matrix, l: Matrix, u: Matrix, p: seq<nat>, ip: seq<nat>, i: nat)
  {
    var n := a0.rows;
    i < n && Shapes(n, a0, w, l, u, p, ip) &&
    Reconstructs(n, a0, w, l, u, p, ip, i + 1) &&
    DoneRowsZero(n, w, p, i + 1) && LeftColsZero(n, w, i) &&
    LowerUpTo(n, l, i) && UpperUpTo(n, u, i + 1)
  }

  /** The state while column i is eliminated, rows below r0 done. */
  ghost predicate Eliminating(a0: Matrix, w: Matrix, l: Matrix, u: Matrix, p: seq<nat>, ip: seq<nat>, i: nat, r0: nat)
  {
    var n := a0.rows;
    i < n && r0 <= n && Shapes(n, a0, w, l, u, p, ip) &&
    Reconstructs(n, a0, w, l, u, p, ip, i + 1) &&
    DoneRowsZero(n, w, p, i + 1) && LeftColsZero(n, w, i) &&
    (forall r: nat :: r < r0 ==> Get(w, r, i) == 0.0) &&
    LowerUpTo(n, l, i + 1) &&
    (forall q: nat :: q < n && p[q] >= r0 ==> Get(l, q, i) == if q == i then 1.0 else 0.0) &&
    UpperUpTo(n, u, i + 1)
  }

  // ---------------------------------------------------------------------
  // One column of the elimination, step by step.

  /** Row q of l' agrees with row o of l in the columns below t, so their first t terms against u add up alike. */
  lemma SameRowPrefix(l: Matrix, l': Matrix, u: Matrix, o: nat, q: nat, c: nat, t: nat)
    requires l.Valid() && l'.Valid() && u.Valid() && l.rows == l'.rows && l.cols == l'.cols && l.cols == u.rows
    requires o < l.rows && q < l.rows && c < u.cols && t <= l.cols
    requires forall k: nat :: k < t ==> Get(l', q, k) == Get(l, o, k)
    ensures Sigma(t, RowColTerms(l, u, o, c)) == Sigma(t, RowColTerms(l', u, q, c))
  {
    SigmaExt(t, RowColTerms(l, u, o, c), RowColTerms(l', u, q, c));
  }

  /** The swap phase: the pivot row's position s is not among the rows already moved, and exchanging positions i and s keeps the invariant. */
  lemma SwapStep(a0: Matrix, w: Matrix, l: Matrix, l': Matrix, u: Matrix, p: seq<nat>, ip: seq<nat>, i: nat, piv: nat)
    requires LuInv(a0, w, l, u, p, ip, i) && i < a0.rows && piv < a0.rows
    requires Get(w, piv, i) != 0.0
    requires l'.Valid() && l'.rows == a0.rows && l'.cols == a0.rows
    requires forall r: nat, c: nat :: r < a0.rows && c < a0.rows ==>
      Get(l', r, c) == if c < i && r == i then Get(l, ip[piv], c)
                       else if c < i && r == ip[piv] then Get(l, i, c)
                       else Get(l, r, c)
    ensures ip[piv] >= i
    ensures Swap(p, i, ip[piv])[i] == piv
    ensures LuInv(a0, w, l', u, Swap(p, i, ip[piv]), Swap(ip, p[i], p[ip[piv]]), i)
  {
    var n := a0.rows;
    var s := ip[piv];
    assert p[s] == piv;
    var p', ip' := Swap(p, i, s), Swap(ip, p[i], p[s]);
    SwapKeepsInverses(p, ip, i, s);
    assert Shapes(n, a0, w, l', u, p', ip');
    forall q: nat, c: nat | q < n && c < n
      ensures Get(a0, p'[q], c) == Sigma(i, RowColTerms(l', u, q, c)) + Get(w, p'[q], c)
    {
      var o := if q == i then s else if q == s then i else q;
      assert p'[q] == p[o];
      SameRowPrefix(l, l', u, o, q, c, i);
    }
    assert DoneRowsZero(n, w, p', i) by {
      forall q: nat, c: nat | q < i && c < n ensures Get(w, p'[q], c) == 0.0 {
        assert p'[q] == p[q];
      }
    }
  }

  /** The move phase: row i of u takes the pivot row of w, which becomes zero. */
  lemma MoveStep(a0: Matrix, w: Matrix, w': Matrix, l: Matrix, u: Matrix, u': Matrix, p: seq<nat>, ip: seq<nat>, i: nat)
    requires LuInv(a0, w, l, u, p, ip, i) && i < a0.rows
    requires Get(w, p[i], i) != 0.0
    requires w'.Valid() && w'.rows == a0.rows && w'.cols == a0.rows
    requires u'.Valid() && u'.rows == a0.rows && u'.cols == a0.rows
    requires forall r: nat, c: nat :: r < a0.rows && c < a0.rows ==>
      Get(u', r, c) == if r == i then Get(w, p[i], c) else Get(u, r, c)
    requires forall r: nat, c: nat :: r < a0.rows && c < a0.rows ==>
      Get(w', r, c) == if r == p[i] then 0.0 else Get(w, r, c)
    ensures Moved(a0, w', l, u', p, ip, i)
  {
    var n := a0.rows;
    forall q: nat, c: nat | q < n && c < n
      ensures Get(a0, p[q], c) == Sigma(i + 1, RowColTerms(l, u', q, c)) + Get(w', p[q], c)
    {
      TermsExtend(l, u, u', q, c, i);
      if q == i {
        MulCongruence(Get(l, q, i), 1.0, Get(u', i, c), Get(u', i, c));
      } else {
        assert p[q] != p[i];
        MulZero(Get(u', i, c), Get(l, q, i));
      }
    }
    assert DoneRowsZero(n, w', p, i + 1) by {
      forall q: nat, c: nat | q < i + 1 && c < n ensures Get(w', p[q], c) == 0.0 {
        if q < i {
          assert Get(w, p[q], c) == 0.0;
        }
      }
    }
  }

  /** Row q of l against column c of u and of u', which agree in the first i rows, over the first i terms. */
  lemma TermsAgree(l: Matrix, u: Matrix, u': Matrix, q: nat, c: nat, i: nat)
    requires l.Valid() && u.Valid() && u'.Valid()
    requires l.cols == u.rows && u'.rows == u.rows && u'.cols == u.cols
    requires q < l.rows && i < l.cols && c < u.cols
    requires forall k: nat :: k < i ==> Get(u', k, c) == Get(u, k, c)
    ensures Sigma(i, RowColTerms(l, u', q, c)) == Sigma(i, RowColTerms(l, u, q, c))
  {
    var f, g := RowColTerms(l, u, q, c), RowColTerms(l, u', q, c);
    forall k: nat | k < i
      ensures f(k) == g(k)
    {
      MulCongruence(Get(l, q, k), Get(l, q, k), Get(u, k, c), Get(u', k, c));
    }
    SigmaExt(i, f, g);
  }

  /** The same sums one term further. */
  lemma TermsExtend(l: Matrix, u: Matrix, u': Matrix, q: nat, c: nat, i: nat)
    requires l.Valid() && u.Valid() && u'.Valid()
    requires l.cols == u.rows && u'.rows == u.rows && u'.cols == u.cols
    requires q < l.rows && i < l.cols && c < u.cols
    requires forall k: nat :: k < i ==> Get(u', k, c) == Get(u, k, c)
    ensures Sigma(i + 1, RowColTerms(l, u', q, c)) == Sigma(i, RowColTerms(l, u, q, c)) + Get(l, q, i) * Get(u', i, c)
  {
    var g := RowColTerms(l, u', q, c);
    var x := Get(l, q, i) * Get(u', i, c);
    assert g(i) == x;
    TermsAgree(l, u, u', q, c, i);
    SigmaLast(i + 1, g);
  }

  /** Writing ratio into l at (q, i), where it was zero, adds ratio * u(i, c) to the first i + 1 terms of row q against column c. */
  lemma ElimRowTerms(l: Matrix, l': Matrix, u: Matrix, q: nat, c: nat, i: nat, ratio: real)
    requires l.Valid() && l'.Valid() && u.Valid()
    requires l'.rows == l.rows && l'.cols == l.cols && u.rows == l.cols
    requires q < l.rows && c < u.cols && i < l.cols
    requires Get(l, q, i) == 0.0 && Get(l', q, i) == ratio
    requires forall k: nat :: k < l.cols && k != i ==> Get(l', q, k) == Get(l, q, k)
    ensures Sigma(i + 1, RowColTerms(l', u, q, c)) == Sigma(i + 1, RowColTerms(l, u, q, c)) + ratio * Get(u, i, c)
  {
    var f, g := RowColTerms(l, u, q, c), RowColTerms(l', u, q, c);
    var x := Get(u, i, c);
    assert f(i) == 0.0 by {
      assert f(i) == Get(l, q, i) * x;
    }
    assert g(i) == ratio * x;
    SigmaPoint(i + 1, f, g, i);
  }

  /** Eliminating row r0 = p[q0] of w with row i of u and recording the ratio at (q0, i) of l keeps the reconstruction. */
  lemma ElimReconstructs(a0: Matrix, w: Matrix, w': Matrix, l: Matrix, l': Matrix, u: Matrix, p: seq<nat>, ip: seq<nat>, i: nat, q0: nat, ratio: real)
    requires i < a0.rows && Shapes(a0.rows, a0, w, l, u, p, ip)
    requires Reconstructs(a0.rows, a0, w, l, u, p, ip, i + 1)
    requires w'.Valid() && w'.rows == a0.rows && w'.cols == a0.rows
    requires l'.Valid() && l'.rows == a0.rows && l'.cols == a0.rows
    requires q0 < a0.rows && Get(l, q0, i) == 0.0
    requires forall c: nat :: c < i ==> Get(u, i, c) == 0.0
    requires forall r: nat, c: nat :: r < a0.rows && c < a0.rows ==>
      Get(w', r, c) == if r == p[q0] && c >= i then Get(w, r, c) - ratio * Get(u, i, c) else Get(w, r, c)
    requires forall r: nat, c: nat :: r < a0.rows && c < a0.rows ==>
      Get(l', r, c) == if r == q0 && c == i then ratio else Get(l, r, c)
    ensures Shapes(a0.rows, a0, w', l', u, p, ip) && Reconstructs(a0.rows, a0, w', l', u, p, ip, i + 1)
  {
    var n := a0.rows;
    forall q: nat, c: nat | q < n && c < n
      ensures Get(a0, p[q], c) == Sigma(i + 1, RowColTerms(l', u, q, c)) + Get(w', p[q], c)
    {
      if q == q0 {
        ElimRowTerms(l, l', u, q, c, i, ratio);
        assert Get(w', p[q], c) == Get(w, p[q], c) - ratio * Get(u, i, c);
      } else {
        assert p[q] != p[q0];
        SameRowPrefix(l, l', u, q, q, c, i + 1);
      }
    }
  }

  /** Eliminating row r0 of w with row i of u, recording the ratio in l, keeps the invariant of the elimination. */
  lemma ElimStep(a0: Matrix, w: Matrix, w': Matrix, l: Matrix, l': Matrix, u: Matrix, p: seq<nat>, ip: seq<nat>, i: nat, r0: nat, ratio: real)
    requires Eliminating(a0, w, l, u, p, ip, i, r0) && r0 < a0.rows && Get(w, r0, i) != 0.0
    requires w'.Valid() && w'.rows == a0.rows && w'.cols == a0.rows
    requires l'.Valid() && l'.rows == a0.rows && l'.cols == a0.rows
    requires forall r: nat, c: nat :: r < a0.rows && c < a0.rows ==>
      Get(w', r, c) == if r == r0 && c >= i then Get(w, r, c) - ratio * Get(u, i, c) else Get(w, r, c)
    requires forall r: nat, c: nat :: r < a0.rows && c < a0.rows ==>
      Get(l', r, c) == if r == ip[r0] && c == i then ratio else Get(l, r, c)
    requires Get(w', r0, i) == 0.0
    ensures Eliminating(a0, w', l', u, p, ip, i, r0 + 1)
  {
    var n := a0.rows;
    var q0 := ip[r0];
    assert p[q0] == r0;
    assert q0 > i;
    ElimReconstructs(a0, w, w', l, l', u, p, ip, i, q0, ratio);
    assert DoneRowsZero(n, w', p, i + 1) && LeftColsZero(n, w', i) && (forall r: nat :: r < r0 + 1 ==> Get(w', r, i) == 0.0) by {
      ElimKeepsZeros(n, w, w', p, i, r0, ratio, u);
    }
    assert LowerUpTo(n, l', i + 1) && (forall q: nat :: q < n && p[q] >= r0 + 1 ==> Get(l', q, i) == if q == i then 1.0 else 0.0) by {
      ElimKeepsLower(n, l, l', p, ip, i, r0, ratio);
    }
  }

  /** The zeros of w that the elimination has produced stay, and row r0 joins them in column i. */
  lemma ElimKeepsZeros(n: nat, w: Matrix, w': Matrix, p: seq<nat>, i: nat, r0: nat, ratio: real, u: Matrix)
    requires w.Valid() && w.rows == n && w.cols == n && w'.Valid() && w'.rows == n && w'.cols == n
    requires u.Valid() && u.rows == n && u.cols == n
    requires |p| == n && (forall k :: 0 <= k < n ==> p[k] < n) && i < n && r0 < n
    requires forall q :: 0 <= q <= i ==> p[q] != r0
    requires DoneRowsZero(n, w, p, i + 1) && LeftColsZero(n, w, i)
    requires forall r: nat :: r < r0 ==> Get(w, r, i) == 0.0
    requires Get(w', r0, i) == 0.0
    requires forall r: nat, c: nat :: r < n && c < n ==>
      Get(w', r, c) == if r == r0 && c >= i then Get(w, r, c) - ratio * Get(u, i, c) else Get(w, r, c)
    ensures DoneRowsZero(n, w', p, i + 1) && LeftColsZero(n, w', i)
    ensures forall r: nat :: r < r0 + 1 ==> Get(w', r, i) == 0.0
  {
    forall q: nat, c: nat | q < i + 1 && c < n ensures Get(w', p[q], c) == 0.0 {
      assert p[q] != r0;
    }
  }

  /** Writing the ratio at (ip[r0], i) keeps l lower triangular, and the rows still to come keep their identity entry in column i. */
  lemma ElimKeepsLower(n: nat, l: Matrix, l': Matrix, p: seq<nat>, ip: seq<nat>, i: nat, r0: nat, ratio: real)
    requires l.Valid() && l.rows == n && l.cols == n && l'.Valid() && l'.rows == n && l'.cols == n
    requires |p| == n && Inverses(p, ip) && i < n && r0 < n && ip[r0] > i
    requires LowerUpTo(n, l, i + 1)
    requires forall q: nat :: q < n && p[q] >= r0 ==> Get(l, q, i) == if q == i then 1.0 else 0.0
    requires forall r: nat, c: nat :: r < n && c < n ==>
      Get(l', r, c) == if r == ip[r0] && c == i then ratio else Get(l, r, c)
    ensures LowerUpTo(n, l', i + 1)
    ensures forall q: nat :: q < n && p[q] >= r0 + 1 ==> Get(l', q, i) == if q == i then 1.0 else 0.0
  {
    assert p[ip[r0]] == r0;
    assert forall q: nat :: q < n && p[q] >= r0 + 1 ==> q != ip[r0];
  }

  /** Subtracting x / y times y from x leaves nothing. */
  lemma PivotCancels(x: real, y: real, ratio: real)
    requires y != 0.0 && ratio == x / y
    ensures x - ratio * y == 0.0
  {
  }

  /** A row of w that needs no elimination. */
  lemma SkipStep(a0: Matrix, w: Matrix, l: Matrix, u: Matrix, p: seq<nat>, ip: seq<nat>, i: nat, r0: nat)
    requires Eliminating(a0, w, l, u, p, ip, i, r0) && r0 < a0.rows
    requires Get(w, r0, i) == 0.0
    ensures Eliminating(a0, w, l, u, p, ip, i, r0 + 1)
  {
    assert forall q: nat :: q < a0.rows && p[q] >= r0 + 1 ==> p[q] >= r0;
  }

  /** Before any column: w is a0, l the identity and u zero. */
  lemma Start(a0: Matrix, w: Matrix, l: Matrix, u: Matrix)
    requires a0.Valid() && a0.rows == a0.cols && w == a0
    requires l == Identity(a0.rows) && u == ZeroMatrix(a0.rows, a0.rows)
    ensures LuInv(a0, w, l, u, Iota(a0.rows), Iota(a0.rows), 0)
  {
  }

  /** Once every column is eliminated, the invariant is a factorization. */
  lemma Finish(a0: Matrix, w: Matrix, l: Matrix, u: Matrix, p: seq<nat>, ip: seq<nat>)
    requires LuInv(a0, w, l, u, p, ip, a0.rows)
    ensures IsLUFactorization(a0, l, u, p)
  {
    var n := a0.rows;
    InversesArePermutations(p, ip);
    forall q: nat, c: nat | q < n && c < n ensures Get(PermuteRows(a0, p), q, c) == Get(Product(l, u), q, c) {
      assert Get(w, p[q], c) == 0.0;
    }
    Ext(PermuteRows(a0, p), Product(l, u));
  }

  /** Row p[q] of a0 sends x to zero when u and w do. */
  lemma StalledRow(a0: Matrix, w: Matrix, l: Matrix, u: Matrix, p: seq<nat>, ip: seq<nat>, i: nat, q: nat, x: seq<real>)
    requires i <= a0.rows && Shapes(a0.rows, a0, w, l, u, p, ip) && Reconstructs(a0.rows, a0, w, l, u, p, ip, i)
    requires q < a0.rows && |x| == a0.rows
    requires forall k: nat :: k < a0.rows ==> Dot(u, k, x) == 0.0
    requires Dot(w, p[q], x) == 0.0
    ensures Dot(a0, p[q], x) == 0.0
  {
    var n := a0.rows;
    var g := (k: nat) => if k < n then Get(l, q, k) * Dot(u, k, x) else 0.0;
    forall k: nat | k < i
      ensures g(k) == 0.0
    {
      assert g(k) == Get(l, q, k) * Dot(u, k, x);
      MulZero(Get(l, q, k), Dot(u, k, x));
    }
    SigmaZero(i, g);
    StalledRowSplit(a0, w, l, u, p, ip, i, q, x);
    PartialProductDot(l, u, q, i, x);
  }

  /** Row p[q] of a0 applied to x: the first i columns of l times u applied to x, plus row p[q] of w applied to x. */
  lemma StalledRowSplit(a0: Matrix, w: Matrix, l: Matrix, u: Matrix, p: seq<nat>, ip: seq<nat>, i: nat, q: nat, x: seq<real>)
    requires i <= a0.rows && Shapes(a0.rows, a0, w, l, u, p, ip) && Reconstructs(a0.rows, a0, w, l, u, p, ip, i)
    requires q < a0.rows && |x| == a0.rows
    ensures Dot(a0, p[q], x)
         == Sigma(a0.rows, (c: nat) => if c < a0.rows then Sigma(i, RowColTerms(l, u, q, c)) * x[c] else 0.0) + Dot(w, p[q], x)
  {
    var n := a0.rows;
    var f := (c: nat) => if c < n then Sigma(i, RowColTerms(l, u, q, c)) * x[c] else 0.0;
    forall c: nat | c < n ensures DotTerms(a0, p[q], x)(c) == f(c) + DotTerms(w, p[q], x)(c) {
      assert Get(a0, p[q], c) == Sigma(i, RowColTerms(l, u, q, c)) + Get(w, p[q], c);
      MulDistributes(Get(a0, p[q], c), Sigma(i, RowColTerms(l, u, q, c)), Get(w, p[q], c), x[c]);
    }
    SigmaAdd(n, f, DotTerms(w, p[q], x), DotTerms(a0, p[q], x));
  }

  /** If column i of w is zero when its turn comes, a0 is singular: back substitution in u gives a null vector. */
  lemma StalledIsSingular(a0: Matrix, w: Matrix, l: Matrix, u: Matrix, p: seq<nat>, ip: seq<nat>, i: nat)
    requires LuInv(a0, w, l, u, p, ip, i) && i < a0.rows
    requires forall r: nat :: r < a0.rows ==> Get(w, r, i) == 0.0
    ensures Singular(a0)
  {
    var n := a0.rows;
    var x := Stage(u, i, 0);
    StageIsNull(u, i);
    forall r: nat | r < n ensures Dot(w, r, x) == 0.0 {
      forall c: nat | c < n ensures DotTerms(w, r, x)(c) == 0.0 {
        if c <= i {
          assert Get(w, r, c) == 0.0;
        } else {
          assert x[c] == 0.0;
        }
      }
      SigmaZero(n, DotTerms(w, r, x));
    }
    forall r: nat | r < n ensures Dot(a0, r, x) == 0.0 {
      StalledRow(a0, w, l, u, p, ip, i, ip[r], x);
      assert p[ip[r]] == r;
    }
    assert x[i] != 0.0;
    assert IsNullVector(a0, x);
  }

  // ---------------------------------------------------------------------
  // The phases of `lu` on the objects.

  /** Exchanges rows x and y of l in the columns below w. */
  method SwapRowPrefix(l: Mat64, x: nat, y: nat, w: nat)
    requires l.Valid() && x < l.row && y < l.row && w <= l.column
    modifies l
    ensures l.Valid()
    ensures forall r: nat, c: nat :: r < l.row && c < l.column ==>
      Get(l.Value(), r, c) == if c < w && r == x then Get(old(l.Value()), y, c)
                              else if c < w && r == y then Get(old(l.Value()), x, c)
                              else Get(old(l.Value()), r, c)
  {
    ghost var l0 := l.Value();
    for c := 0 to w
      invariant l.Valid()
      invariant forall r: nat, c': nat :: r < l.row && c' < l.column ==>
        Get(l.Value(), r, c') == if c' < c && r == x then Get(l0, y, c')
                                 else if c' < c && r == y then Get(l0, x, c')
                                 else Get(l0, r, c')
    {
      var v1 := l.Elem(x, c);
      var v2 := l.Elem(y, c);
      l.SetElem(x, c, v2);
      l.SetElem(y, c, v1);
    }
  }

  /** Copies row piv of a into row i of u and clears it in a. */
  method MoveRow(a: Mat64, u: Mat64, piv: nat, i: nat)
    requires a.Valid() && u.Valid() && a != u && a.column == u.column && piv < a.row && i < u.row
    modifies a, u
    ensures a.Valid() && u.Valid()
    ensures forall r: nat, c: nat :: r < u.row && c < u.column ==>
      Get(u.Value(), r, c) == if r == i then Get(old(a.Value()), piv, c) else Get(old(u.Value()), r, c)
    ensures forall r: nat, c: nat :: r < a.row && c < a.column ==>
      Get(a.Value(), r, c) == if r == piv then 0.0 else Get(old(a.Value()), r, c)
  {
    ghost var a0, u0 := a.Value(), u.Value();
    for c := 0 to a.column
      invariant a.Valid() && u.Valid()
      invariant forall r: nat, c': nat :: r < u.row && c' < u.column ==>
        Get(u.Value(), r, c') == if r == i && c' < c then Get(a0, piv, c') else Get(u0, r, c')
      invariant forall r: nat, c': nat :: r < a.row && c' < a.column ==>
        Get(a.Value(), r, c') == if r == piv && c' < c then 0.0 else Get(a0, r, c')
    {
      u.SetElem(i, c, a.Elem(piv, c));
      a.SetElem(piv, c, 0.0);
    }
  }

  /** Subtracts ratio times row i of u from row r of a, in the columns from i on. */
  method EliminateRow(a: Mat64, u: Mat64, r: nat, i: nat, ratio: real)
    requires a.Valid() && u.Valid() && a != u && a.column == u.column && r < a.row && i < u.row && i <= a.column
    modifies a
    ensures a.Valid()
    ensures forall r': nat, c: nat :: r' < a.row && c < a.column ==>
      Get(a.Value(), r', c) == if r' == r && c >= i then Get(old(a.Value()), r, c) - ratio * Get(u.Value(), i, c)
                               else Get(old(a.Value()), r', c)
  {
    ghost var a0, uv := a.Value(), u.Value();
    for c := i to a.column
      invariant a.Valid()
      invariant forall r': nat, c': nat :: r' < a.row && c' < a.column ==>
        Get(a.Value(), r', c') == if r' == r && i <= c' < c then Get(a0, r, c') - ratio * Get(uv, i, c')
                                  else Get(a0, r', c')
    {
      var x, y := a.Elem(r, c), u.Elem(i, c);
      MulCongruence(ratio, ratio, y, Get(uv, i, c));
      a.SetElem(r, c, x - ratio * y);
    }
  }

  /** Row r of a loses its entry in column i: row i of u times the ratio is subtracted, and the ratio goes into l. */
  method EliminateWithPivot(a: Mat64, l: Mat64, u: Mat64, p: seq<nat>, ip: seq<nat>, i: nat, r: nat, ghost a0: Matrix)
    requires a != l && a != u && l != u
    requires a.Valid() && l.Valid() && u.Valid()
    requires a.row == a0.rows && l.row == a0.rows && u.row == a0.rows && r < a0.rows
    requires Eliminating(a0, a.Value(), l.Value(), u.Value(), p, ip, i, r)
    requires Get(a.Value(), r, i) != 0.0
    modifies a, l
    ensures a.Valid() && l.Valid()
    ensures Eliminating(a0, a.Value(), l.Value(), u.Value(), p, ip, i, r + 1)
  {
    ghost var w, lv, uv := a.Value(), l.Value(), u.Value();
    var x, y := a.Elem(r, i), u.Elem(i, i);
    var ratio := x / y;
    PivotCancels(x, y, ratio);
    EliminateRow(a, u, r, i, ratio);
    assert u.Value() == uv;
    ghost var w' := a.Value();
    assert Get(w', r, i) == 0.0 by {
      MulCongruence(ratio, ratio, Get(u.Value(), i, i), y);
    }
    l.SetElem(ip[r], i, ratio);
    assert u.Value() == uv && a.Value() == w';
    ElimStep(a0, w, w', lv, l.Value(), uv, p, ip, i, r, ratio);
  }

  /** Eliminates column i from every row of a, writing the ratios into column i of l. */
  method EliminateColumn(a: Mat64, l: Mat64, u: Mat64, p: seq<nat>, ip: seq<nat>, i: nat, ghost a0: Matrix)
    requires a != l && a != u && l != u
    requires Moved(a0, a.Value(), l.Value(), u.Value(), p, ip, i)
    requires a.row == a0.rows && l.row == a0.rows && u.row == a0.rows
    modifies a, l
    ensures a.Valid() && l.Valid()
    ensures LuInv(a0, a.Value(), l.Value(), u.Value(), p, ip, i + 1)
  {
    var n := a.row;
    for r := 0 to n
      invariant a.Valid() && l.Valid()
      invariant Eliminating(a0, a.Value(), l.Value(), u.Value(), p, ip, i, r)
    {
      if a.Elem(r, i) != 0.0 {
        EliminateWithPivot(a, l, u, p, ip, i, r, a0);
      } else {
        SkipStep(a0, a.Value(), l.Value(), u.Value(), p, ip, i, r);
      }
    }
  }

  /**
   * Lines up the pivot row: exchanges positions i and s = ip[piv] of the
   * permutation and of its inverse, and rows i and s of l in the columns done.
   */
  method SwapPivot(a: Mat64, l: Mat64, u: Mat64, p: seq<nat>, ip: seq<nat>, i: nat, piv: nat, ghost a0: Matrix)
      returns (p': seq<nat>, ip': seq<nat>)
    requires a.Valid() && l.Valid() && u.Valid() && a != l && l != u
    requires LuInv(a0, a.Value(), l.Value(), u.Value(), p, ip, i) && i < a0.rows && piv < a0.rows
    requires a.row == a0.rows && l.row == a0.rows && u.row == a0.rows
    requires Get(a.Value(), piv, i) != 0.0
    modifies l
    ensures l.Valid() && LuInv(a0, a.Value(), l.Value(), u.Value(), p', ip', i)
    ensures |p'| == a0.rows && p'[i] == piv
  {
    ghost var w, lv, uv := a.Value(), l.Value(), u.Value();
    assert Inverses(p, ip) && |p| == a0.rows by {
      assert Shapes(a0.rows, a0, w, lv, uv, p, ip);
    }
    var s := ip[piv];
    var idx1 := p[i];
    var idx2 := p[s];
    p' := p[i := idx2][s := idx1];
    ip' := ip[idx2 := i][idx1 := s];
    SwapRowPrefix(l, i, s, i);
    SwapStep(a0, w, lv, l.Value(), uv, p, ip, i, piv);
    assert p' == Swap(p, i, s) && ip' == Swap(ip, p[i], p[s]);
  }

  /** Moves the pivot row p[i] of a into row i of u, then eliminates column i. */
  method MoveAndEliminate(a: Mat64, l: Mat64, u: Mat64, p: seq<nat>, ip: seq<nat>, i: nat, ghost a0: Matrix)
    requires a.Valid() && l.Valid() && u.Valid() && a != l && a != u && l != u
    requires LuInv(a0, a.Value(), l.Value(), u.Value(), p, ip, i) && i < a0.rows
    requires a.row == a0.rows && l.row == a0.rows && u.row == a0.rows
    requires Get(a.Value(), p[i], i) != 0.0
    modifies a, l, u
    ensures a.Valid() && l.Valid() && u.Valid()
    ensures LuInv(a0, a.Value(), l.Value(), u.Value(), p, ip, i + 1)
  {
    ghost var w, u1 := a.Value(), u.Value();
    MoveRow(a, u, p[i], i);
    MoveStep(a0, w, a.Value(), l.Value(), u1, u.Value(), p, ip, i);
    EliminateColumn(a, l, u, p, ip, i, a0);
  }

  /** One pass of the loop of `lu`: column i is eliminated below its pivot, or the column has no non-zero entry left and a0 is singular. */
  method PivotAndEliminate(a: Mat64, l: Mat64, u: Mat64, p: seq<nat>, ip: seq<nat>, i: nat, ghost a0: Matrix)
      returns (stalled: bool, p': seq<nat>, ip': seq<nat>)
    requires a.Valid() && l.Valid() && u.Valid() && a != l && a != u && l != u
    requires LuInv(a0, a.Value(), l.Value(), u.Value(), p, ip, i) && i < a0.rows
    requires a.row == a0.rows && l.row == a0.rows && u.row == a0.rows
    modifies a, l, u
    ensures a.Valid() && l.Valid() && u.Valid()
    ensures stalled ==> Singular(a0)
    ensures !stalled ==> LuInv(a0, a.Value(), l.Value(), u.Value(), p', ip', i + 1)
  {
    var col := a.DataColumn(i);
    var piv := ArgMaxAbs(col);
    if a.Elem(piv, i) == 0.0 {
      assert Abs(col[piv]) == 0.0;
      StalledIsSingular(a0, a.Value(), l.Value(), u.Value(), p, ip, i);
      return true, p, ip;
    }
    p', ip' := SwapPivot(a, l, u, p, ip, i, piv, a0);
    MoveAndEliminate(a, l, u, p', ip', i, a0);
    stalled := false;
  }

  /** `lu`: Err(ShapeMismatching) for a non-square matrix, Err(SingularMatrix) once a column has no non-zero pivot left. */
  method Lu(mat: Mat64) returns (res: Result<LUDecomposition>)
    requires mat.Valid()
    ensures mat.row != mat.column <==> res == Err(ShapeMismatching)
    ensures res == Err(SingularMatrix) <==> mat.row == mat.column && Singular(mat.Value())
    ensures res.Err? ==> res.error == ShapeMismatching || res.error == SingularMatrix
    ensures res.Ok? ==> fresh(res.value.l) && fresh(res.value.u)
    ensures res.Ok? ==> res.value.l.Valid() && res.value.u.Valid()
    ensures res.Ok? ==> IsLUFactorization(mat.Value(), res.value.l.Value(), res.value.u.Value(), res.value.p)
  {
    if mat.row != mat.column {
      return Err(ShapeMismatching);
    }
    ghost var a0 := mat.Value();
    var a := new Mat64.New(mat.row, mat.column, mat.data);
    var n := a.row;
    var p: seq<nat> := Iota(n);
    var ip: seq<nat> := Iota(n);
    var l := new Mat64.Identity(n);
    var u := new Mat64.Zero(n, n);
    Start(a0, a.Value(), l.Value(), u.Value());
    for i := 0 to n
      invariant a.Valid() && l.Valid() && u.Valid()
      invariant LuInv(a0, a.Value(), l.Value(), u.Value(), p, ip, i)
    {
      var stalled;
      stalled, p, ip := PivotAndEliminate(a, l, u, p, ip, i, a0);
      if stalled {
        return Err(SingularMatrix);
      }
    }
    Finish(a0, a.Value(), l.Value(), u.Value(), p, ip);
    FactorizedNotSingular(a0, l.Value(), u.Value(), p);
    res := Ok(LUDecomposition(l, u, p));
  }
}
