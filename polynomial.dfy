/**
 * The calculator's polynomial value type over Z/pZ: a coefficient list (index i
 * holds the coefficient of x^i) together with the base prime p. Both
 * constructors leave the list in canonical form, which the subtype below keeps
 * as an invariant. This module holds the representation, the degree, the
 * leading coefficient/term/monomial, equality, the total order and the hash.
 */
module Polynomials {
  import opened Wrappers
  import opened NumberTheory

  datatype Poly = Poly(coeffs: seq<int>, p: int)

  /** At least one coefficient and, beyond the constant term, a nonzero leading one. */
  predicate Canonical(c: seq<int>)
  {
    |c| >= 1 && (|c| == 1 || c[|c| - 1] != 0)
  }

  type Polynomial = f: Poly | Canonical(f.coeffs) witness Poly([0], 2)

  /** The coefficient of x^i: the stored entry, or 0 beyond the list. */
  function Coef(f: Poly, i: int): int
  {
    if 0 <= i < |f.coeffs| then f.coeffs[i] else 0
  }

  /** Every coefficient is a residue in [0, p). */
  predicate InRange(c: seq<int>, p: int)
  {
    forall i :: 0 <= i < |c| ==> 0 <= c[i] < p
  }

  /** Every coefficient of a reduced list, stored or beyond its end, is a residue. */
  lemma CoefInRange(f: Poly, i: int)
    requires f.p > 0 && InRange(f.coeffs, f.p)
    ensures 0 <= Coef(f, i) < f.p
  {
  }

  /** An element of F_p[x] in reduced form: p is prime and every coefficient lies in [0, p). */
  predicate InFp(f: Poly)
  {
    Prime(f.p) && InRange(f.coeffs, f.p)
  }

  // ---------------------------------------------------------------------
  // Constructors
  // ---------------------------------------------------------------------

  /**
   * What the list constructor makes of its input: an empty list becomes [0],
   * then trailing zeros are dropped while more than one entry remains.
   */
  function Trim(c: seq<int>): (r: seq<int>)
    ensures Canonical(r)
    ensures |r| <= |c| || c == []
    decreases |c|
  {
    if |c| == 0 then [0]
    else if |c| > 1 && c[|c| - 1] == 0 then Trim(c[..|c| - 1])
    else c
  }

  function Make(c: seq<int>, p: int): Polynomial
  {
    Poly(Trim(c), p)
  }

  /** Trimming keeps every coefficient: only zeros are dropped. */
  lemma {:induction false} TrimKeepsCoefficients(c: seq<int>, p: int, i: int)
    ensures Coef(Make(c, p), i) == Coef(Poly(c, p), i)
    decreases |c|
  {
    if |c| > 1 && c[|c| - 1] == 0 {
      TrimKeepsCoefficients(c[..|c| - 1], p, i);
    }
  }

  /** A canonical list is left alone, so constructing from a polynomial's own list is the identity. */
  lemma TrimCanonical(c: seq<int>)
    requires Canonical(c)
    ensures Trim(c) == c
  {
  }

  /** Two canonical polynomials over the same p with the same coefficients everywhere are equal. */
  lemma CoefExtensionality(f: Polynomial, g: Polynomial)
    requires f.p == g.p
    requires forall i :: 0 <= i ==> Coef(f, i) == Coef(g, i)
    ensures f == g
  {
    var m, n := |f.coeffs|, |g.coeffs|;
    assert Coef(f, m - 1) == Coef(g, m - 1) && Coef(f, n - 1) == Coef(g, n - 1);
    forall i | 0 <= i < m ensures f.coeffs[i] == g.coeffs[i] {
      assert Coef(f, i) == Coef(g, i);
    }
  }

  /** The list constructor Polynomial(IEnumerable<int>, int): trims in place with RemoveAt. */
  method FromList(coeffs: seq<int>, p: int) returns (f: Polynomial)
    ensures f == Make(coeffs, p)
  {
    var c := if |coeffs| > 0 then coeffs else [0];
    while |c| > 1 && c[|c| - 1] == 0
      invariant |c| >= 1
      invariant Trim(c) == Trim(coeffs)
      decreases |c|
    {
      c := c[..|c| - 1];
    }
    f := Poly(c, p);
  }

  /** The constant constructor Polynomial(int, int): a one-entry list, never trimmed. */
  function Constant(cons: int, p: int): (f: Polynomial)
    ensures forall i :: i != 0 ==> Coef(f, i) == 0
    ensures Coef(f, 0) == cons
  {
    Poly([cons], p)
  }

  function Zero(p: int): Polynomial
  {
    Poly([0], p)
  }

  function One(p: int): Polynomial
  {
    Poly([1], p)
  }

  /** Enumerable.Repeat(0, n). */
  function Zeros(n: nat): (z: seq<int>)
    ensures |z| == n && forall i :: 0 <= i < n ==> z[i] == 0
  {
    seq(n, _ => 0)
  }

  /** c * x^e, built as e zeros followed by c. */
  function Monomial(c: int, e: nat, p: int): (m: Polynomial)
    ensures forall i :: Coef(m, i) == (if i == e then c else 0)
  {
    var l := Zeros(e) + [c];
    forall i ensures Coef(Make(l, p), i) == (if i == e then c else 0) {
      TrimKeepsCoefficients(l, p, i);
    }
    Make(l, p)
  }

  // ---------------------------------------------------------------------
  // Degree and leading parts
  // ---------------------------------------------------------------------

  /** -1 when every coefficient is zero, else the index of the last entry. */
  function Degree(f: Polynomial): (d: int)
    ensures -1 <= d < |f.coeffs|
    ensures d == -1 <==> f.coeffs == [0]
    ensures d >= 0 ==> d == |f.coeffs| - 1 && Coef(f, d) != 0
    ensures forall i :: i > d ==> Coef(f, i) == 0
  {
    if forall i :: 0 <= i < |f.coeffs| ==> f.coeffs[i] == 0 then -1 else |f.coeffs| - 1
  }

  /** The degree is the highest index of a nonzero coefficient. */
  lemma DegreeIsHighestNonzero(f: Polynomial, d: int)
    requires d >= -1
    requires d >= 0 ==> Coef(f, d) != 0
    requires forall i :: i > d ==> Coef(f, i) == 0
    ensures Degree(f) == d
  {
    var e := Degree(f);
    assert e >= 0 ==> Coef(f, e) != 0;
    assert d >= 0 ==> Coef(f, d) != 0;
  }

  /** Canonical lists of equal degree have equal length. */
  lemma SameDegreeSameLength(f: Polynomial, g: Polynomial)
    requires Degree(f) == Degree(g)
    ensures |f.coeffs| == |g.coeffs|
  {
  }

  /** Lc(): the last stored coefficient. */
  function Lc(f: Polynomial): (c: int)
    ensures Degree(f) >= 0 ==> c == Coef(f, Degree(f)) && c != 0
    ensures Degree(f) == -1 ==> c == 0
  {
    f.coeffs[|f.coeffs| - 1]
  }

  /** Lt(): the leading term, undefined for the zero polynomial. */
  function Lt(f: Polynomial): (r: Result<Polynomial>)
    ensures r.Failure? <==> Degree(f) < 0
    ensures r.Failure? ==> r.error == NoLeadingTerm
    ensures r.Success? ==>
      r.value.p == f.p && Degree(r.value) == Degree(f) && Lc(r.value) == Lc(f) &&
      forall i :: i != Degree(f) ==> Coef(r.value, i) == 0
  {
    if Degree(f) < 0 then Failure(NoLeadingTerm)
    else
      var m := Monomial(Lc(f), Degree(f), f.p);
      DegreeIsHighestNonzero(m, Degree(f));
      Success(m)
  }

  /** Lm(): the leading monomial x^deg, undefined for the zero polynomial. */
  function Lm(f: Polynomial): (r: Result<Polynomial>)
    ensures r.Failure? <==> Degree(f) < 0
    ensures r.Failure? ==> r.error == NoLeadingTerm
    ensures r.Success? ==>
      r.value.p == f.p && Degree(r.value) == Degree(f) && Lc(r.value) == 1 &&
      forall i :: i != Degree(f) ==> Coef(r.value, i) == 0
  {
    if Degree(f) < 0 then Failure(NoLeadingTerm)
    else
      var m := Monomial(1, Degree(f), f.p);
      DegreeIsHighestNonzero(m, Degree(f));
      Success(m)
  }

  // ---------------------------------------------------------------------
  // Equality, order, hash
  // ---------------------------------------------------------------------

  /** operator ==: same base prime, same degree, then entry by entry. */
  method Equal(f: Polynomial, g: Polynomial) returns (b: bool)
    ensures b <==> f == g
  {
    if f.p != g.p {
      return false;
    }
    if Degree(f) != Degree(g) {
      return false;
    }
    var i := 0;
    while i < |f.coeffs|
      invariant 0 <= i <= |f.coeffs| == |g.coeffs|
      invariant f.coeffs[..i] == g.coeffs[..i]
    {
      if f.coeffs[i] != g.coeffs[i] {
        return false;
      }
      i := i + 1;
    }
    assert f.coeffs == f.coeffs[..i];
    return true;
  }

  /** Two equally long lists read from the highest index down: the first difference decides. */
  function TopDownLess(a: seq<int>, b: seq<int>): bool
    requires |a| == |b|
  {
    if |a| == 0 then false
    else if a[|a| - 1] != b[|b| - 1] then a[|a| - 1] < b[|b| - 1]
    else TopDownLess(a[..|a| - 1], b[..|b| - 1])
  }

  /** The order of operator <: degree first, then coefficients from the top down. */
  predicate Precedes(f: Polynomial, g: Polynomial)
  {
    Degree(f) < Degree(g) || (Degree(f) == Degree(g) && TopDownLess(f.coeffs, g.coeffs))
  }

  /** Scanning down from index i decides TopDownLess on the first i + 1 entries. */
  lemma TopDownStep(a: seq<int>, b: seq<int>, i: int)
    requires |a| == |b| && 0 <= i < |a|
    ensures TopDownLess(a[..i + 1], b[..i + 1]) ==
      if a[i] != b[i] then a[i] < b[i] else TopDownLess(a[..i], b[..i])
  {
    assert a[..i + 1][..i] == a[..i];
    assert b[..i + 1][..i] == b[..i];
  }

  /** operator <, scanning the coefficients from the top down. */
  method Less(f: Polynomial, g: Polynomial) returns (b: bool)
    ensures b == Precedes(f, g)
  {
    if Degree(f) == Degree(g) {
      var i := |f.coeffs| - 1;
      assert f.coeffs[..i + 1] == f.coeffs && g.coeffs[..i + 1] == g.coeffs;
      while i >= 0
        invariant -1 <= i < |f.coeffs|
        invariant TopDownLess(f.coeffs, g.coeffs) == TopDownLess(f.coeffs[..i + 1], g.coeffs[..i + 1])
      {
        TopDownStep(f.coeffs, g.coeffs, i);
        if f.coeffs[i] != g.coeffs[i] {
          return f.coeffs[i] < g.coeffs[i];
        }
        i := i - 1;
      }
      return false;
    } else {
      return Degree(f) < Degree(g);
    }
  }

  /** operator >: the same scan with the comparison reversed. */
  method Greater(f: Polynomial, g: Polynomial) returns (b: bool)
    ensures b == Precedes(g, f)
  {
    if Degree(f) == Degree(g) {
      var i := |f.coeffs| - 1;
      assert f.coeffs[..i + 1] == f.coeffs && g.coeffs[..i + 1] == g.coeffs;
      while i >= 0
        invariant -1 <= i < |f.coeffs|
        invariant TopDownLess(g.coeffs, f.coeffs) == TopDownLess(g.coeffs[..i + 1], f.coeffs[..i + 1])
      {
        TopDownStep(g.coeffs, f.coeffs, i);
        if f.coeffs[i] != g.coeffs[i] {
          return f.coeffs[i] > g.coeffs[i];
        }
        i := i - 1;
      }
      return false;
    } else {
      return Degree(f) > Degree(g);
    }
  }

  /** TopDownLess fails exactly on equal lists when the other direction fails too. */
  lemma {:induction false} TopDownTotal(a: seq<int>, b: seq<int>)
    requires |a| == |b|
    ensures !TopDownLess(a, b) && !TopDownLess(b, a) <==> a == b
    ensures !(TopDownLess(a, b) && TopDownLess(b, a))
  {
    if |a| > 0 && a[|a| - 1] == b[|b| - 1] {
      var n := |a| - 1;
      TopDownTotal(a[..n], b[..n]);
      if a[..n] == b[..n] {
        assert a == a[..n] + [a[n]] && b == b[..n] + [b[n]];
      }
    }
  }

  /**
   * operator <=: the same scan, but true when no entry differs. Its result does
   * not look at the base prime.
   */
  method LessOrEqual(f: Polynomial, g: Polynomial) returns (b: bool)
    ensures b == (Precedes(f, g) || f.coeffs == g.coeffs)
  {
    if Degree(f) == Degree(g) {
      var i := |f.coeffs| - 1;
      assert f.coeffs[..i + 1] == f.coeffs && g.coeffs[..i + 1] == g.coeffs;
      while i >= 0
        invariant -1 <= i < |f.coeffs|
        invariant forall j :: i < j < |f.coeffs| ==> f.coeffs[j] == g.coeffs[j]
        invariant TopDownLess(f.coeffs, g.coeffs) == TopDownLess(f.coeffs[..i + 1], g.coeffs[..i + 1])
      {
        TopDownStep(f.coeffs, g.coeffs, i);
        if f.coeffs[i] != g.coeffs[i] {
          return f.coeffs[i] < g.coeffs[i];
        }
        i := i - 1;
      }
      return true;
    } else {
      return Degree(f) < Degree(g);
    }
  }

  /** operator >=: the mirror image of <=. */
  method GreaterOrEqual(f: Polynomial, g: Polynomial) returns (b: bool)
    ensures b == (Precedes(g, f) || f.coeffs == g.coeffs)
  {
    if Degree(f) == Degree(g) {
      var i := |f.coeffs| - 1;
      assert f.coeffs[..i + 1] == f.coeffs && g.coeffs[..i + 1] == g.coeffs;
      while i >= 0
        invariant -1 <= i < |f.coeffs|
        invariant forall j :: i < j < |f.coeffs| ==> f.coeffs[j] == g.coeffs[j]
        invariant TopDownLess(g.coeffs, f.coeffs) == TopDownLess(g.coeffs[..i + 1], f.coeffs[..i + 1])
      {
        TopDownStep(g.coeffs, f.coeffs, i);
        if f.coeffs[i] != g.coeffs[i] {
          return f.coeffs[i] > g.coeffs[i];
        }
        i := i - 1;
      }
      return true;
    } else {
      return Degree(f) > Degree(g);
    }
  }

  /** Over one base prime, Precedes is a strict total order: exactly one of f < g, f == g, g < f. */
  lemma PrecedesTrichotomy(f: Polynomial, g: Polynomial)
    requires f.p == g.p
    ensures Precedes(f, g) || f == g || Precedes(g, f)
    ensures !(Precedes(f, g) && Precedes(g, f))
    ensures Precedes(f, g) ==> f != g
  {
    if Degree(f) == Degree(g) {
      TopDownTotal(f.coeffs, g.coeffs);
    }
  }

  lemma {:induction false} TopDownTransitive(a: seq<int>, b: seq<int>, c: seq<int>)
    requires |a| == |b| == |c|
    requires TopDownLess(a, b) && TopDownLess(b, c)
    ensures TopDownLess(a, c)
  {
    var n := |a| - 1;
    if a[n] == b[n] && b[n] == c[n] {
      TopDownTransitive(a[..n], b[..n], c[..n]);
    }
  }

  lemma PrecedesTransitive(f: Polynomial, g: Polynomial, h: Polynomial)
    requires Precedes(f, g) && Precedes(g, h)
    ensures Precedes(f, h)
  {
    if Degree(f) == Degree(g) == Degree(h) {
      TopDownTransitive(f.coeffs, g.coeffs, h.coeffs);
    }
  }

  /**
   * CompareTo against another polynomial: 0 when ==, otherwise -1 when < and 1
   * when not.
   */
  method CompareTo(f: Polynomial, g: Polynomial) returns (order: int)
    ensures order == 0 <==> f == g
    ensures order == -1 <==> f != g && Precedes(f, g)
    ensures order == 1 <==> f != g && !Precedes(f, g)
  {
    var eq := Equal(f, g);
    if eq {
      order := 0;
    } else {
      var lt := Less(f, g);
      order := if lt then -1 else 1;
    }
  }

  function ListSum(c: seq<int>): int
  {
    if |c| == 0 then 0 else ListSum(c[..|c| - 1]) + c[|c| - 1]
  }

  /** GetHashCode: the base prime plus the sum of the coefficients. */
  function HashCode(f: Polynomial): int
  {
    f.p + ListSum(f.coeffs)
  }

  /** Polynomials that compare equal hash equally; the hash ignores where a coefficient sits. */
  lemma {:induction false} HashOfShiftedList(f: Polynomial, g: Polynomial)
    requires f.p == g.p && multiset(f.coeffs) == multiset(g.coeffs)
    ensures HashCode(f) == HashCode(g)
  {
    SumOfMultiset(f.coeffs, g.coeffs);
  }

  lemma {:induction false} SumOfMultiset(a: seq<int>, b: seq<int>)
    requires multiset(a) == multiset(b)
    ensures ListSum(a) == ListSum(b)
    decreases |a|
  {
    if |a| > 0 {
      var x := a[|a| - 1];
      assert x in multiset(b);
      var j :| 0 <= j < |b| && b[j] == x;
      var b' := b[..j] + b[j + 1..];
      assert b == b[..j] + [x] + b[j + 1..];
      assert a == a[..|a| - 1] + [x];
      assert multiset(a) == multiset(a[..|a| - 1]) + multiset{x};
      assert multiset(b) == multiset(b[..j]) + multiset{x} + multiset(b[j + 1..]);
      assert multiset(b') == multiset(b[..j]) + multiset(b[j + 1..]);
      assert multiset(a[..|a| - 1]) == multiset(a) - multiset{x};
      assert multiset(b') == multiset(b) - multiset{x};
      SumOfMultiset(a[..|a| - 1], b');
      SumRemove(b, j);
    }
  }

  lemma {:induction false} SumRemove(b: seq<int>, j: int)
    requires 0 <= j < |b|
    ensures ListSum(b) == ListSum(b[..j] + b[j + 1..]) + b[j]
    decreases |b|
  {
    var n := |b| - 1;
    if j < n {
      SumRemove(b[..n], j);
      assert b[..n][..j] == b[..j];
      assert b[..n][j + 1..] == b[j + 1..n];
      assert (b[..j] + b[j + 1..])[..n - 1] == b[..j] + b[j + 1..n];
    } else {
      assert b[..j] + b[j + 1..] == b[..n];
    }
  }
}
