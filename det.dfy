/**
 * Determinant of a square matrix: a closed form for 2 x 2 matrices and,
 * for every other size, the signed product of the diagonals of an LU
 * decomposition, with the sign taken from the parity of the row permutation.
 */
module Determinant {
  import opened Errors
  import opened Sums
  import opened Matrices
  import opened Permutations
  import opened Mat64Type
  import opened NullSpace
  import opened LuDecomp

  // ---------------------------------------------------------------------
  // diagonal_product

  /** m(0, 0) * m(1, 1) * .. * m(n - 1, n - 1). */
  ghost function Diagonal(m: Matrix, n: nat): real
    requires m.Valid() && n <= m.rows && n <= m.cols
  {
    if n == 0 then 1.0 else Diagonal(m, n - 1) * Get(m, n - 1, n - 1)
  }

  /** The diagonal product vanishes exactly when one of its factors does. */
  lemma {:induction false} DiagonalZero(m: Matrix, n: nat)
    requires m.Valid() && n <= m.rows && n <= m.cols
    ensures Diagonal(m, n) == 0.0 <==> exists k: nat :: k < n && Get(m, k, k) == 0.0
  {
    if n > 0 {
      DiagonalZero(m, n - 1);
      if Diagonal(m, n) == 0.0 && Get(m, n - 1, n - 1) != 0.0 {
        ZeroProduct(Get(m, n - 1, n - 1), Diagonal(m, n - 1));
      }
    }
  }

  /** A diagonal of ones multiplies to one. */
  lemma {:induction false} DiagonalOnes(m: Matrix, n: nat)
    requires m.Valid() && n <= m.rows && n <= m.cols
    requires forall k: nat :: k < n ==> Get(m, k, k) == 1.0
    ensures Diagonal(m, n) == 1.0
  {
    if n > 0 {
      DiagonalOnes(m, n - 1);
    }
  }

  /** `diagonal_product`: starts from element (0, 0) and multiplies in (i, i) for i in 1 .. row. */
  method DiagonalProduct(mat: Mat64) returns (ans: real)
    requires mat.Valid() && 1 <= mat.row <= mat.column
    ensures ans == Diagonal(mat.Value(), mat.row)
  {
    ans := mat.Elem(0, 0);
    for i := 1 to mat.row
      invariant ans == Diagonal(mat.Value(), i)
    {
      ans := ans * mat.Elem(i, i);
    }
  }

  // ---------------------------------------------------------------------
  // permutation_order

  /** A transposition keeps a permutation a permutation. */
  lemma SwapKeepsPermutation(p: seq<nat>, i: nat, j: nat)
    requires IsPermutation(p) && i < |p| && j < |p|
    ensures IsPermutation(Swap(p, i, j))
  {
    var t := Swap(p, i, j);
    forall x, y | 0 <= x < y < |t| ensures t[x] != t[y] {
      var x', y' := if x == i then j else if x == j then i else x, if y == i then j else if y == j then i else y;
      assert t[x] == p[x'] && t[y] == p[y'];
    }
  }

  /** Numbers that differ by an even amount have the same parity. */
  lemma ShiftParity(x: int, y: int, e: int)
    requires x == y + 2 * e
    ensures x % 2 == y % 2
  {
  }

  /** The body of the inner loop of `permutation_order`: a[i] := a[a[i]], then a[tmp] := tmp with tmp the old a[i]. */
  function Place(a: seq<nat>, i: nat): seq<nat>
    requires IsPermutation(a) && i < |a|
  {
    a[i := a[a[i]]][a[i] := a[i]]
  }

  /**
   * One inner step of `permutation_order`: with positions below i fixed and
   * position i not, a[i] lies above i; exchanging positions i and a[i] fixes
   * a[i], keeps the lower positions fixed, flips the parity and leaves fewer
   * displaced positions.
   */
  lemma PlaceStep(a: seq<nat>, i: nat) returns (w: int)
    requires IsPermutation(a) && i < |a| && a[i] != i
    requires forall k :: 0 <= k < i ==> a[k] == k
    ensures a[i] > i
    ensures |Place(a, i)| == |a| && IsPermutation(Place(a, i))
    ensures forall k :: 0 <= k < i ==> Place(a, i)[k] == k
    ensures Inversions(a) + Inversions(Place(a, i)) == 2 * w + 1
    ensures Displaced(Place(a, i), |a|) < Displaced(a, |a|)
  {
    var tmp := a[i];
    var atmp := a[tmp];
    assert tmp >= i;
    var a' := a[i := a[tmp]][tmp := tmp];
    assert a' == Swap(a, i, tmp);
    SwapKeepsPermutation(a, i, tmp);
    w := SwapOddSum(a, i, tmp);
    DisplacedMono(a, a', |a|, tmp);
  }

  /**
   * The invariant of `permutation_order` at outer index i: a is a permutation
   * fixing every position below i; the swaps counted so far plus a's
   * inversions exceed p's inversions by the even number 2 * e; and the swaps
   * counted so far plus a's displaced positions are at most p's displaced
   * positions.
   */
  ghost predicate Sorting(p: seq<nat>, a: seq<nat>, ans: nat, i: nat, e: int)
  {
    |a| == |p| && i <= |p| && IsPermutation(a) &&
    (forall k :: 0 <= k < i ==> a[k] == k) &&
    ans + Inversions(a) == Inversions(p) + 2 * e &&
    ans + Displaced(a, |p|) <= Displaced(p, |p|)
  }

  /** One swap of the inner loop keeps the invariant and displaces fewer positions. */
  lemma SortingStep(p: seq<nat>, a: seq<nat>, ans: nat, i: nat, e: int) returns (e': int)
    requires Sorting(p, a, ans, i, e) && i < |p| && a[i] != i
    ensures Sorting(p, Place(a, i), ans + 1, i, e')
    ensures Displaced(Place(a, i), |p|) < Displaced(a, |p|)
  {
    var w := PlaceStep(a, i);
    e' := e - Inversions(a) + w + 1;
  }

  /** Once position i is fixed, the invariant holds at i + 1. */
  lemma SortingNext(p: seq<nat>, a: seq<nat>, ans: nat, i: nat, e: int)
    requires Sorting(p, a, ans, i, e) && i < |p| && a[i] == i
    ensures Sorting(p, a, ans, i + 1, e)
  {
  }

  /** At the end a is the identity, so the count alone has p's parity. */
  lemma SortingDone(p: seq<nat>, a: seq<nat>, ans: nat, e: int)
    requires Sorting(p, a, ans, |p|, e)
    ensures ans % 2 == Inversions(p) % 2
    ensures ans <= Displaced(p, |p|)
  {
    assert a == Iota(|p|);
    IotaNoInversions(|p|);
    ShiftParity(ans, Inversions(p), e);
  }

  /**
   * `permutation_order`: sorts a copy of p by swapping each entry into its
   * own position and counts the swaps. The count has the parity of p's
   * inversions, so it gives the sign of p, and it is at most the number of
   * positions p moves. p itself is left as it is.
   */
  method PermutationOrder(p: seq<nat>) returns (ans: nat)
    requires IsPermutation(p)
    ensures ans % 2 == Inversions(p) % 2
    ensures ans <= Displaced(p, |p|)
  {
    ans := 0;
    var a: seq<nat> := p;
    ghost var e: int := 0;
    for i := 0 to |p|
      invariant Sorting(p, a, ans, i, e)
    {
      while a[i] != i
        invariant Sorting(p, a, ans, i, e)
        decreases Displaced(a, |p|)
      {
        var tmp := a[i];
        var a' := a[i := a[tmp]][tmp := tmp];
        assert a' == Place(a, i);
        e := SortingStep(p, a, ans, i, e);
        a := a';
        ans := ans + 1;
      }
      SortingNext(p, a, ans, i, e);
    }
    SortingDone(p, a, ans, e);
  }

  // ---------------------------------------------------------------------
  // det

  /** The sign of a permutation: 1 for an even number of inversions, -1 for an odd one. */
  function Sign(p: seq<nat>): real
  {
    if Inversions(p) % 2 == 0 then 1.0 else -1.0
  }

  /** Row r of a matrix with two columns applied to a vector. */
  lemma Dot2(m: Matrix, r: nat, x: seq<real>)
    requires m.Valid() && m.cols == 2 && r < m.rows && |x| == 2
    ensures Dot(m, r, x) == Get(m, r, 0) * x[0] + Get(m, r, 1) * x[1]
  {
    var f := DotTerms(m, r, x);
    var y0, y1 := Get(m, r, 0) * x[0], Get(m, r, 1) * x[1];
    assert f(0) == y0;
    assert f(1) == y1;
    SigmaTwo(f);
  }

  /** Two homogeneous equations in two unknowns with a non-zero solution have a zero determinant. */
  lemma PlaneCramer(a: real, b: real, c: real, d: real, x0: real, x1: real)
    requires a * x0 + b * x1 == 0.0 && c * x0 + d * x1 == 0.0
    requires x0 != 0.0 || x1 != 0.0
    ensures a * d - b * c == 0.0
  {
    var e := a * d - b * c;
    assert x0 * e == d * (a * x0 + b * x1) - b * (c * x0 + d * x1);
    assert x1 * e == a * (c * x0 + d * x1) - c * (a * x0 + b * x1);
    if x0 != 0.0 {
      ZeroProduct(x0, e);
    } else {
      ZeroProduct(x1, e);
    }
  }

  /** Two homogeneous equations in two unknowns with a zero determinant have a non-zero solution. */
  lemma PlaneSolution(a: real, b: real, c: real, d: real) returns (x0: real, x1: real)
    requires a * d - b * c == 0.0
    ensures x0 != 0.0 || x1 != 0.0
    ensures a * x0 + b * x1 == 0.0 && c * x0 + d * x1 == 0.0
  {
    if a != 0.0 || b != 0.0 {
      x0, x1 := b, -a;
      assert c * x0 + d * x1 == -(a * d - b * c);
    } else if c != 0.0 || d != 0.0 {
      x0, x1 := d, -c;
      assert a * x0 + b * x1 == a * d - b * c;
    } else {
      x0, x1 := 1.0, 0.0;
    }
  }

  /** A null vector of a 2 x 2 matrix, found from its rows. */
  lemma TwoByTwoSingular(m: Matrix)
    requires m.Valid() && m.rows == 2 && m.cols == 2
    requires Get(m, 0, 0) * Get(m, 1, 1) - Get(m, 0, 1) * Get(m, 1, 0) == 0.0
    ensures Singular(m)
  {
    var x0, x1 := PlaneSolution(Get(m, 0, 0), Get(m, 0, 1), Get(m, 1, 0), Get(m, 1, 1));
    var x := [x0, x1];
    Dot2(m, 0, x);
    Dot2(m, 1, x);
    assert x[0] != 0.0 || x[1] != 0.0;
    assert IsNullVector(m, x);
  }

  /** A row of a matrix with two columns that sends x to zero, written out. */
  lemma RowEquation(m: Matrix, r: nat, x: seq<real>)
    requires m.Valid() && m.cols == 2 && r < m.rows && |x| == 2 && Dot(m, r, x) == 0.0
    ensures Get(m, r, 0) * x[0] + Get(m, r, 1) * x[1] == 0.0
  {
    Dot2(m, r, x);
  }

  /** A null vector of a matrix with two columns has a non-zero entry and solves its first two row equations. */
  lemma NullRows(m: Matrix, x: seq<real>)
    requires m.Valid() && m.rows >= 2 && m.cols == 2 && IsNullVector(m, x)
    ensures |x| == 2 && (x[0] != 0.0 || x[1] != 0.0)
    ensures Get(m, 0, 0) * x[0] + Get(m, 0, 1) * x[1] == 0.0
    ensures Get(m, 1, 0) * x[0] + Get(m, 1, 1) * x[1] == 0.0
  {
    var k :| 0 <= k < 2 && x[k] != 0.0;
    RowEquation(m, 0, x);
    RowEquation(m, 1, x);
  }

  /** A 2 x 2 matrix with a null vector has a00 * a11 - a01 * a10 == 0. */
  lemma TwoByTwoDeterminantZero(m: Matrix, x: seq<real>)
    requires m.Valid() && m.rows == 2 && m.cols == 2 && IsNullVector(m, x)
    ensures Get(m, 0, 0) * Get(m, 1, 1) - Get(m, 0, 1) * Get(m, 1, 0) == 0.0
  {
    NullRows(m, x);
    PlaneCramer(Get(m, 0, 0), Get(m, 0, 1), Get(m, 1, 0), Get(m, 1, 1), x[0], x[1]);
  }

  /** A 2 x 2 matrix is singular exactly when a00 * a11 - a01 * a10 is zero. */
  lemma TwoByTwo(m: Matrix)
    requires m.Valid() && m.rows == 2 && m.cols == 2
    ensures Get(m, 0, 0) * Get(m, 1, 1) - Get(m, 0, 1) * Get(m, 1, 0) == 0.0 <==> Singular(m)
  {
    if Singular(m) {
      var x :| IsNullVector(m, x);
      TwoByTwoDeterminantZero(m, x);
    } else if Get(m, 0, 0) * Get(m, 1, 1) - Get(m, 0, 1) * Get(m, 1, 0) == 0.0 {
      TwoByTwoSingular(m);
    }
  }

  /** The signed diagonal product of an LU factorization never vanishes. */
  lemma FactorizationValue(a: Matrix, l: Matrix, u: Matrix, p: seq<nat>)
    requires IsLUFactorization(a, l, u, p)
    ensures Diagonal(l, a.rows) == 1.0
    ensures Sign(p) * (Diagonal(l, a.rows) * Diagonal(u, a.rows)) != 0.0
  {
    DiagonalOnes(l, a.rows);
    DiagonalZero(u, a.rows);
  }

  /**
   * `det`: Err(ShapeMismatching) for a non-square matrix; for a square one
   * Ok of a value that is zero exactly when the matrix is singular. A 2 x 2
   * matrix gives a00 * a11 - a01 * a10; any other size gives the signed
   * diagonal product of some LU factorization, or zero when `lu` fails.
   */
  method Det(mat: Mat64) returns (res: Result<real>)
    requires mat.Valid() && (mat.row == mat.column ==> mat.row >= 1)
    ensures mat.row != mat.column <==> res == Err(ShapeMismatching)
    ensures mat.row == mat.column ==> res.Ok?
    ensures res.Ok? && mat.row == 2 ==>
      res.value == Get(mat.Value(), 0, 0) * Get(mat.Value(), 1, 1) - Get(mat.Value(), 0, 1) * Get(mat.Value(), 1, 0)
    ensures res.Ok? && mat.row != 2 && res.value != 0.0 ==>
      exists l: Matrix, u: Matrix, p: seq<nat> :: IsLUFactorization(mat.Value(), l, u, p) &&
        res.value == Sign(p) * (Diagonal(l, mat.row) * Diagonal(u, mat.row))
    ensures res.Ok? ==> (res.value == 0.0 <==> Singular(mat.Value()))
  {
    if mat.row != mat.column {
      return Err(ShapeMismatching);
    }
    if mat.row == 2 {
      TwoByTwo(mat.Value());
      return Ok(mat.Elem(0, 0) * mat.Elem(1, 1) - mat.Elem(0, 1) * mat.Elem(1, 0));
    }
    var lud := Lu(mat);
    match lud {
      case Err(_) =>
        res := Ok(0.0);
      case Ok(d) =>
        var dl := DiagonalProduct(d.l);
        var du := DiagonalProduct(d.u);
        var detlu := dl * du;
        var order := PermutationOrder(d.p);
        FactorizationValue(mat.Value(), d.l.Value(), d.u.Value(), d.p);
        if order % 2 == 0 {
          res := Ok(detlu);
        } else {
          res := Ok(-detlu);
        }
    }
  }
}
