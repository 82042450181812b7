/**
 * Permutations of 0 .. n - 1 as index sequences, their inverses, and their
 * parity, counted by inversions: pairs of positions x < y whose entries are
 * out of order.
 */
module Permutations {

  /** p lists each of 0 .. |p| - 1 exactly once. */
  predicate IsPermutation(p: seq<nat>)
  {
    (forall k :: 0 <= k < |p| ==> p[k] < |p|) &&
    (forall x, y :: 0 <= x < y < |p| ==> p[x] != p[y])
  }

  /** p and q are permutations of one length that undo each other. */
  predicate Inverses(p: seq<nat>, q: seq<nat>)
  {
    |p| == |q| &&
    (forall k :: 0 <= k < |p| ==> p[k] < |p| && q[p[k]] == k) &&
    (forall x :: 0 <= x < |q| ==> q[x] < |q| && p[q[x]] == x)
  }

  /** The identity permutation 0, 1, .., n - 1. */
  function Iota(n: nat): (p: seq<nat>)
    ensures |p| == n && forall k :: 0 <= k < n ==> p[k] == k
  {
    seq(n, k => k)
  }

  /** The sequence with the entries at positions i and j exchanged. */
  function Swap(s: seq<nat>, i: nat, j: nat): (t: seq<nat>)
    requires i < |s| && j < |s|
    ensures |t| == |s| && t[i] == s[j] && t[j] == s[i]
    ensures forall k :: 0 <= k < |s| && k != i && k != j ==> t[k] == s[k]
  {
    s[i := s[j]][j := s[i]]
  }

  /** Two sequences that undo each other are both permutations. */
  lemma InversesArePermutations(p: seq<nat>, q: seq<nat>)
    requires Inverses(p, q)
    ensures IsPermutation(p) && IsPermutation(q)
  {
  }

  /**
   * Exchanging positions i and j of p together with the entries p[i] and p[j]
   * of its inverse keeps the two inverse to each other.
   */
  lemma SwapKeepsInverses(p: seq<nat>, q: seq<nat>, i: nat, j: nat)
    requires Inverses(p, q) && i < |p| && j < |p|
    ensures Inverses(Swap(p, i, j), Swap(q, p[i], p[j]))
  {
    var p', q' := Swap(p, i, j), Swap(q, p[i], p[j]);
    assert q[p[i]] == i && q[p[j]] == j;
    forall k | 0 <= k < |p'| ensures p'[k] < |p'| && q'[p'[k]] == k {
    }
    forall x | 0 <= x < |q'| ensures q'[x] < |q'| && p'[q'[x]] == x {
      if x != p[i] && x != p[j] {
        assert q[x] != i && q[x] != j;
      }
    }
  }

  // ---------------------------------------------------------------------
  // Inversions.

  /** Number of entries of u greater than v. */
  function Above(u: seq<nat>, v: nat): nat
  {
    if |u| == 0 then 0 else Above(u[..|u| - 1], v) + (if u[|u| - 1] > v then 1 else 0)
  }

  /** Number of pairs (x in xs, y in ys) with x > y. */
  function Cross(xs: seq<nat>, ys: seq<nat>): nat
  {
    if |ys| == 0 then 0 else Cross(xs, ys[..|ys| - 1]) + Above(xs, ys[|ys| - 1])
  }

  /** Number of pairs of positions x < y with s[x] > s[y]. */
  function Inversions(s: seq<nat>): nat
  {
    if |s| == 0 then 0 else Inversions(s[..|s| - 1]) + Above(s[..|s| - 1], s[|s| - 1])
  }

  lemma {:induction false} AboveConcat(u1: seq<nat>, u2: seq<nat>, v: nat)
    ensures Above(u1 + u2, v) == Above(u1, v) + Above(u2, v)
    decreases |u2|
  {
    if |u2| > 0 {
      var init := u2[..|u2| - 1];
      assert (u1 + u2)[..|u1 + u2| - 1] == u1 + init;
      AboveConcat(u1, init, v);
    } else {
      assert u1 + u2 == u1;
    }
  }

  lemma {:induction false} CrossRight(xs: seq<nat>, ys1: seq<nat>, ys2: seq<nat>)
    ensures Cross(xs, ys1 + ys2) == Cross(xs, ys1) + Cross(xs, ys2)
    decreases |ys2|
  {
    if |ys2| > 0 {
      var init := ys2[..|ys2| - 1];
      assert (ys1 + ys2)[..|ys1 + ys2| - 1] == ys1 + init;
      CrossRight(xs, ys1, init);
    } else {
      assert ys1 + ys2 == ys1;
    }
  }

  lemma {:induction false} CrossLeft(xs1: seq<nat>, xs2: seq<nat>, ys: seq<nat>)
    ensures Cross(xs1 + xs2, ys) == Cross(xs1, ys) + Cross(xs2, ys)
    decreases |ys|
  {
    if |ys| > 0 {
      CrossLeft(xs1, xs2, ys[..|ys| - 1]);
      AboveConcat(xs1, xs2, ys[|ys| - 1]);
    }
  }

  lemma {:induction false} InversionsConcat(xs: seq<nat>, ys: seq<nat>)
    ensures Inversions(xs + ys) == Inversions(xs) + Inversions(ys) + Cross(xs, ys)
    decreases |ys|
  {
    if |ys| > 0 {
      var init := ys[..|ys| - 1];
      var last := ys[|ys| - 1];
      assert (xs + ys)[..|xs + ys| - 1] == xs + init;
      InversionsConcat(xs, init);
      AboveConcat(xs, init, last);
    } else {
      assert xs + ys == xs;
    }
  }

  lemma AboveSingle(a: nat, v: nat)
    ensures Above([a], v) == if a > v then 1 else 0
  {
    assert [a][..0] == [];
  }

  /** Every entry of b other than x is either below x or above it. */
  lemma {:induction false} BelowPlusAbove(x: nat, b: seq<nat>)
    requires forall k :: 0 <= k < |b| ==> b[k] != x
    ensures Cross([x], b) + Above(b, x) == |b|
    decreases |b|
  {
    if |b| > 0 {
      var init := b[..|b| - 1];
      BelowPlusAbove(x, init);
      AboveSingle(x, b[|b| - 1]);
    }
  }

  /** Inversions of x, then b, then y. */
  lemma Framed(x: nat, b: seq<nat>, y: nat)
    ensures Inversions([x] + b + [y]) == Inversions(b) + Cross([x], b) + (if x > y then 1 else 0) + Above(b, y)
  {
    var m := [x] + b + [y];
    assert m[..|m| - 1] == [x] + b;
    InversionsConcat([x], b);
    assert Inversions([x]) == 0 by {
      assert [x][..0] == [];
    }
    AboveConcat([x], b, y);
    AboveSingle(x, y);
  }

  /**
   * With x and y distinct from each other and from the entries of b, the
   * inversions of x, b, y and of y, b, x add up to an odd number.
   */
  lemma FramedSwap(x: nat, b: seq<nat>, y: nat)
    requires x != y
    requires forall k :: 0 <= k < |b| ==> b[k] != x && b[k] != y
    ensures Inversions([x] + b + [y]) + Inversions([y] + b + [x]) == 2 * (Inversions(b) + |b|) + 1
  {
    Framed(x, b, y);
    Framed(y, b, x);
    BelowPlusAbove(x, b);
    BelowPlusAbove(y, b);
  }

  /** Exchanging two entries of a sequence without repetitions flips the parity of its inversion count. */
  lemma SwapFlipsParity(s: seq<nat>, i: nat, j: nat)
    requires IsPermutation(s) && i < j < |s|
    ensures Inversions(Swap(s, i, j)) % 2 != Inversions(s) % 2
  {
    var w := SwapOddSum(s, i, j);
    OddSum(Inversions(s), Inversions(Swap(s, i, j)), w);
  }

  /** The inversion counts of a sequence without repetitions and of it with two entries exchanged add up to an odd number. */
  lemma SwapOddSum(s: seq<nat>, i: nat, j: nat) returns (w: int)
    requires IsPermutation(s) && i < j < |s|
    ensures Inversions(s) + Inversions(Swap(s, i, j)) == 2 * w + 1
  {
    var t := Swap(s, i, j);
    var a, b, c := s[..i], s[i + 1..j], s[j + 1..];
    Decompose(s, i, j);
    Decompose(t, i, j);
    assert t[..i] == a && t[i + 1..j] == b && t[j + 1..] == c;
    forall k | 0 <= k < |b| ensures b[k] != s[i] && b[k] != s[j] {
      assert b[k] == s[i + 1 + k];
    }
    FramedSwap(s[i], b, s[j]);
    SplitInversions(a, [s[i]], b, [s[j]], c);
    SplitInversions(a, [s[j]], b, [s[i]], c);
    w := Inversions(a) + Inversions(c) + Inversions(b) + |b| +
      Cross(a, [s[i]]) + Cross(a, b) + Cross(a, [s[j]]) + Cross(a, c) +
      Cross([s[i]], c) + Cross(b, c) + Cross([s[j]], c);
  }

  /** s cut around positions i and j. */
  lemma Decompose(s: seq<nat>, i: nat, j: nat)
    requires i < j < |s|
    ensures s == s[..i] + ([s[i]] + s[i + 1..j] + [s[j]]) + s[j + 1..]
  {
    assert s[i..j + 1] == [s[i]] + s[i + 1..j] + [s[j]];
    assert s == s[..i] + s[i..j + 1] + s[j + 1..];
  }

  /** Two numbers adding up to an odd number differ in parity. */
  lemma OddSum(u: int, v: int, w: int)
    requires u + v == 2 * w + 1
    ensures u % 2 != v % 2
  {
  }

  /** The inversions of a + [x] + b + [y] + c, split into those of the middle part and terms that do not depend on the order of x and y. */
  lemma SplitInversions(a: seq<nat>, x: seq<nat>, b: seq<nat>, y: seq<nat>, c: seq<nat>)
    ensures Inversions(a + (x + b + y) + c) ==
      Inversions(a) + Inversions(c) + Inversions(x + b + y) +
      Cross(a, x) + Cross(a, b) + Cross(a, y) + Cross(a, c) +
      Cross(x, c) + Cross(b, c) + Cross(y, c)
  {
    var m := x + b + y;
    assert a + m + c == a + (m + c);
    InversionsConcat(a, m + c);
    InversionsConcat(m, c);
    CrossRight(a, m, c);
    CrossRight(a, x + b, y);
    CrossRight(a, x, b);
    CrossLeft(x + b, y, c);
    CrossLeft(x, b, c);
  }

  /** No entry of u is above an upper bound of all of them. */
  lemma {:induction false} NoneAbove(u: seq<nat>, v: nat)
    requires forall k :: 0 <= k < |u| ==> u[k] <= v
    ensures Above(u, v) == 0
    decreases |u|
  {
    if |u| > 0 {
      NoneAbove(u[..|u| - 1], v);
    }
  }

  /** The identity has no inversions. */
  lemma {:induction false} IotaNoInversions(n: nat)
    ensures Inversions(Iota(n)) == 0
  {
    if n > 0 {
      assert Iota(n)[..n - 1] == Iota(n - 1);
      IotaNoInversions(n - 1);
      NoneAbove(Iota(n - 1), n - 1);
    }
  }

  // ---------------------------------------------------------------------
  // Displaced positions.

  /** Number of positions k < n with s[k] != k. */
  function Displaced(s: seq<nat>, n: nat): nat
    requires n <= |s|
  {
    if n == 0 then 0 else Displaced(s, n - 1) + (if s[n - 1] != n - 1 then 1 else 0)
  }

  /** If every position displaced in t is displaced in s, t has no more displaced positions; one more fixed point makes it fewer. */
  lemma {:induction false} DisplacedMono(s: seq<nat>, t: seq<nat>, n: nat, fixed: nat)
    requires n <= |s| && n <= |t|
    requires forall k :: 0 <= k < n && t[k] != k ==> s[k] != k
    ensures Displaced(t, n) <= Displaced(s, n)
    ensures fixed < n && s[fixed] != fixed && t[fixed] == fixed ==> Displaced(t, n) < Displaced(s, n)
  {
    if n > 0 {
      DisplacedMono(s, t, n - 1, fixed);
    }
  }

  /** A permutation whose positions are all fixed is the identity. */
  lemma {:induction false} NoneDisplaced(s: seq<nat>, n: nat)
    requires n <= |s| && Displaced(s, n) == 0
    ensures forall k :: 0 <= k < n ==> s[k] == k
  {
    if n > 0 {
      NoneDisplaced(s, n - 1);
    }
  }
}
