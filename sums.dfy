/**
 * Finite sums over integer ranges. The product of two polynomials is a sum
 * of coefficient products; these lemmas are the bookkeeping (splitting,
 * shifting, reflecting and exchanging sums) behind its ring laws.
 */
module Sums {
  import opened ModArith

  /** a(lo) + a(lo + 1) + ... + a(hi - 1); zero for an empty range. */
  function Sum(lo: int, hi: int, a: int -> int): int
    decreases hi - lo
  {
    if lo >= hi then 0 else Sum(lo, hi - 1, a) + a(hi - 1)
  }

  /** Sums of functions that agree on the range are equal. */
  lemma {:induction false} SumExt(lo: int, hi: int, a: int -> int, b: int -> int)
    requires forall i :: lo <= i < hi ==> a(i) == b(i)
    ensures Sum(lo, hi, a) == Sum(lo, hi, b)
    decreases hi - lo
  {
    if lo < hi {
      SumExt(lo, hi - 1, a, b);
    }
  }

  /** A sum of pointwise sums is the sum of the two sums. */
  lemma {:induction false} SumAdd(lo: int, hi: int, a: int -> int, b: int -> int, c: int -> int)
    requires forall i :: lo <= i < hi ==> c(i) == a(i) + b(i)
    ensures Sum(lo, hi, c) == Sum(lo, hi, a) + Sum(lo, hi, b)
    decreases hi - lo
  {
    if lo < hi {
      SumAdd(lo, hi - 1, a, b, c);
    }
  }

  /** A constant factor comes out of a sum. */
  lemma {:induction false} SumScale(lo: int, hi: int, k: int, a: int -> int, b: int -> int)
    requires forall i :: lo <= i < hi ==> b(i) == k * a(i)
    ensures Sum(lo, hi, b) == k * Sum(lo, hi, a)
    decreases hi - lo
  {
    if lo < hi {
      SumScale(lo, hi - 1, k, a, b);
      assert k * Sum(lo, hi, a) == k * Sum(lo, hi - 1, a) + k * a(hi - 1);
    }
  }

  /** Terms congruent modulo p give sums congruent modulo p. */
  lemma {:induction false} SumCongruent(lo: int, hi: int, p: int, a: int -> int, b: int -> int)
    requires p > 0
    requires forall i :: lo <= i < hi ==> b(i) % p == a(i) % p
    ensures Sum(lo, hi, b) % p == Sum(lo, hi, a) % p
    decreases hi - lo
  {
    if lo < hi {
      SumCongruent(lo, hi - 1, p, a, b);
      CongAdd(Sum(lo, hi - 1, b), Sum(lo, hi - 1, a), b(hi - 1), a(hi - 1), p);
    }
  }

  /** A sum splits at any point of its range. */
  lemma {:induction false} SumSplit(lo: int, mid: int, hi: int, a: int -> int)
    requires lo <= mid <= hi
    ensures Sum(lo, hi, a) == Sum(lo, mid, a) + Sum(mid, hi, a)
    decreases hi - mid
  {
    if mid < hi {
      SumSplit(lo, mid, hi - 1, a);
    }
  }

  /** Shifting the index by d shifts the range by d. */
  lemma {:induction false} SumShift(lo: int, hi: int, d: int, a: int -> int, b: int -> int)
    requires forall i :: lo <= i < hi ==> b(i) == a(i + d)
    ensures Sum(lo, hi, b) == Sum(lo + d, hi + d, a)
    decreases hi - lo
  {
    if lo < hi {
      SumShift(lo, hi - 1, d, a, b);
    }
  }

  /** Summing a shifted sequence of terms, with the shifted bounds named. */
  lemma SumOfShifted(lo: int, hi: int, d: int, lo2: int, hi2: int, a: int -> int)
    requires lo2 == lo + d && hi2 == hi + d
    ensures Sum(lo, hi, Shifted(a, d)) == Sum(lo2, hi2, a)
  {
    SumShift(lo, hi, d, a, Shifted(a, d));
  }

  /** Summing in reverse order gives the same total. */
  lemma {:induction false} SumReflect(lo: int, hi: int, a: int -> int, b: int -> int)
    requires forall i :: lo <= i < hi ==> b(i) == a(lo + hi - 1 - i)
    ensures Sum(lo, hi, b) == Sum(lo, hi, a)
    decreases hi - lo
  {
    if lo < hi {
      // b(lo) + [b(lo + 1) .. b(hi - 1)] against [a(lo) .. a(hi - 2)] + a(hi - 1)
      SumSplit(lo, lo + 1, hi, b);
      SumReflect(lo + 1, hi, Shifted(a, -1), b);
      SumShift(lo + 1, hi, -1, a, Shifted(a, -1));
    }
  }

  /** i |-> a(i + d). */
  function Shifted(a: int -> int, d: int): int -> int
  {
    i => a(i + d)
  }

  /** i |-> a(i) + b(i). */
  function AddTerms(a: int -> int, b: int -> int): int -> int
  {
    i => a(i) + b(i)
  }

  /** Row i of a triangular array: j |-> X(i, j). */
  function RowOf(X: (int, int) -> int, i: int): int -> int
  {
    j => X(i, j)
  }

  /** Column j of a triangular array: i |-> X(i, j). */
  function ColOf(X: (int, int) -> int, j: int): int -> int
  {
    i => X(i, j)
  }

  /** Row sums of the triangle 0 <= j <= i. */
  function RowSums(X: (int, int) -> int): int -> int
  {
    i => Sum(0, i + 1, RowOf(X, i))
  }

  /** Column sums of the triangle 0 <= j <= i < n. */
  function ColSums(X: (int, int) -> int, n: int): int -> int
  {
    j => Sum(j, n, ColOf(X, j))
  }

  /** Summing the triangle 0 <= j <= i < n by rows or by columns gives the same total. */
  lemma {:induction false} SumExchange(X: (int, int) -> int, n: nat)
    ensures Sum(0, n, RowSums(X)) == Sum(0, n, ColSums(X, n))
  {
    if n > 0 {
      var m := n - 1;
      SumExchange(X, m);
      // each column j < m gains the entry X(m, j) of the new row
      forall j | 0 <= j < m
        ensures ColSums(X, n)(j) == ColSums(X, m)(j) + RowOf(X, m)(j)
      {
      }
      SumAdd(0, m, ColSums(X, m), RowOf(X, m), ColSums(X, n));
      assert ColSums(X, n)(m) == X(m, m);
    }
  }
}
