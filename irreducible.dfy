/**
 * GetIrreduciblePolynomialOfExtensionDegree: the first monic polynomial of
 * degree k, in enumeration order, that leaves a nonzero remainder modulo
 * every field element of degree 1 to k / 2, and why that test decides
 * irreducibility.
 */
module Irreducibles {
  import opened Wrappers
  import opened NumberTheory
  import Combinatorics
  import opened Searches
  import opened Polynomials
  import opened PolyArith
  import opened PolyDivision
  import opened PolyRing
  import opened FieldElements

  /** Each length-k tuple over 0..p-1 with a 1 appended, in GetPermutationsWithRept order. */
  function MonicCandidates(p: int, k: nat): (r: seq<Polynomial>)
    requires p >= 0 && k >= 1
  {
    var tuples := Combinatorics.PermutationsWithRept(Residues(p), k);
    seq(|tuples|, i requires 0 <= i < |tuples| => Make(tuples[i] + [1], p))
  }

  /** Monic of degree k: degree k with leading coefficient 1. */
  predicate Monic(f: Polynomial, k: int)
  {
    Degree(f) == k && Coef(f, k) == 1
  }

  /** A tuple with 1 appended is already canonical: the polynomial keeps the list as it is. */
  lemma MonicFromTuple(t: seq<int>, p: int)
    requires Prime(p) && InRange(t, p)
    ensures Make(t + [1], p).coeffs == t + [1]
    ensures InFp(Make(t + [1], p)) && Monic(Make(t + [1], p), |t|)
  {
    var c := t + [1];
    TrimCanonical(c);
    DegreeIsHighestNonzero(Make(c, p), |t|);
  }

  /** The candidates are exactly the reduced monic polynomials of degree k over p. */
  lemma MonicCandidatesMembers(p: int, k: nat, c: Polynomial)
    requires Prime(p) && k >= 1
    ensures c in MonicCandidates(p, k) <==> InFp(c) && c.p == p && Monic(c, k)
  {
    var tuples := Combinatorics.PermutationsWithRept(Residues(p), k);
    var cands := MonicCandidates(p, k);
    if c in cands {
      var i :| 0 <= i < |cands| && cands[i] == c;
      assert tuples[i] in tuples;
      ResidueTupleMembers(p, k, tuples[i]);
      MonicFromTuple(tuples[i], p);
    }
    if InFp(c) && c.p == p && Monic(c, k) {
      var t := c.coeffs[..k];
      assert c.coeffs == t + [1];
      ResidueTupleMembers(p, k, t);
      var i :| 0 <= i < |tuples| && tuples[i] == t;
      TrimCanonical(c.coeffs);
      assert cands[i] == c;
    }
  }

  /** The trial divisors: the field elements of degree 1 to k / 2. */
  function PossibleDivisors(p: int, k: nat): seq<Polynomial>
    requires p >= 0 && k >= 1
  {
    Where(FieldElementsOf(p, k), (q: Polynomial) => 1 <= Degree(q) <= k / 2)
  }

  /** The trial divisors are exactly the reduced polynomials over p of degree 1 to k / 2. */
  lemma PossibleDivisorsMembers(p: int, k: nat, q: Polynomial)
    requires Prime(p) && k >= 1
    ensures q in PossibleDivisors(p, k) <==> InFp(q) && q.p == p && 1 <= Degree(q) <= k / 2
  {
    var s := FieldElementsOf(p, k);
    var r := PossibleDivisors(p, k);
    FieldElementsMembers(p, k, q);
    if q in r {
      var i :| 0 <= i < |r| && r[i] == q;
    }
    if q in s && 1 <= Degree(q) <= k / 2 {
      var i :| 0 <= i < |s| && s[i] == q;
    }
  }

  /** polsToTest.All(q => pol % q != zeroP) */
  predicate NoDivisorAmong(c: Polynomial, tested: seq<Polynomial>)
  {
    InFp(c) &&
    forall i :: 0 <= i < |tested| ==>
      InFp(tested[i]) && tested[i].p == c.p && Mod(c, tested[i]) != Success(Zero(c.p))
  }

  /** The test applied to every candidate. */
  function PassesTrialDivision(p: int, k: nat): Polynomial -> bool
    requires p >= 0 && k >= 1
  {
    var tested := PossibleDivisors(p, k);
    (c: Polynomial) => NoDivisorAmong(c, tested)
  }

  /** The first candidate that passes, or None (the source's null) when none does. */
  function IrreducibleSearch(p: int, k: nat): Option<Polynomial>
    requires p >= 0 && k >= 1
  {
    FirstWhere(MonicCandidates(p, k), PassesTrialDivision(p, k))
  }

  /** Irreducible: not a product of two polynomials over the same p of degree at least 1. */
  ghost predicate Irreducible(h: Polynomial)
  {
    forall a: Polynomial, b: Polynomial ::
      InFp(a) && InFp(b) && a.p == h.p && b.p == h.p && Degree(a) >= 1 && Degree(b) >= 1 ==>
        Product(a, b) != h
  }

  /** A polynomial that no trial divisor q divides is not a multiple of any q in the list. */
  lemma NotAMultiple(c: Polynomial, tested: seq<Polynomial>, q: Polynomial, m: Polynomial)
    requires NoDivisorAmong(c, tested) && q in tested && Degree(q) >= 0
    requires InFp(m) && m.p == c.p
    ensures Product(m, q) != c
  {
    var i :| 0 <= i < |tested| && tested[i] == q;
    ZeroRemainderIffDivides(c, q);
  }

  /** The degree of m * q: -1 when m is zero, otherwise the degrees add up. */
  lemma CofactorDegree(m: Polynomial, q: Polynomial)
    requires InFp(m) && InFp(q) && q.p == m.p && Degree(q) >= 0
    ensures Degree(m) < 0 ==> Degree(Product(m, q)) < 0
    ensures Degree(m) >= 0 ==> Degree(Product(m, q)) == Degree(m) + Degree(q)
  {
    if Degree(m) < 0 {
      assert m == Zero(m.p);
      ProductWithZero(q, m.p);
    } else {
      DegreeOfProduct(m, q);
    }
  }

  /** A factor of degree at most k / 2 is a trial divisor, so a passing candidate has no factorization. */
  lemma PassingIsIrreducible(p: int, k: nat, c: Polynomial)
    requires Prime(p) && k >= 1 && InFp(c) && c.p == p && Monic(c, k)
    requires NoDivisorAmong(c, PossibleDivisors(p, k))
    ensures Irreducible(c)
  {
    var tested := PossibleDivisors(p, k);
    forall a: Polynomial, b: Polynomial |
      InFp(a) && InFp(b) && a.p == c.p && b.p == c.p && Degree(a) >= 1 && Degree(b) >= 1
      ensures Product(a, b) != c
    {
      DegreeOfProduct(a, b);
      if Degree(a) <= k / 2 {
        PossibleDivisorsMembers(p, k, a);
        NotAMultiple(c, tested, a, b);
        ProductCommutative(a, b);
      } else if Degree(b) <= k / 2 {
        PossibleDivisorsMembers(p, k, b);
        NotAMultiple(c, tested, b, a);
      }
    }
  }

  /** A trial divisor that divides c would split it into two factors of degree at least 1. */
  lemma IrreducibleIsPassing(p: int, k: nat, c: Polynomial)
    requires Prime(p) && k >= 1 && InFp(c) && c.p == p && Monic(c, k)
    requires Irreducible(c)
    ensures NoDivisorAmong(c, PossibleDivisors(p, k))
  {
    var tested := PossibleDivisors(p, k);
    forall i | 0 <= i < |tested|
      ensures InFp(tested[i]) && tested[i].p == c.p && Mod(c, tested[i]) != Success(Zero(c.p))
    {
      TrialDivisorFails(p, k, c, tested[i]);
    }
  }

  /** An irreducible c of degree k leaves a nonzero remainder modulo each polynomial of degree 1 to k / 2. */
  lemma TrialDivisorFails(p: int, k: nat, c: Polynomial, q: Polynomial)
    requires Prime(p) && k >= 1 && InFp(c) && c.p == p && Monic(c, k)
    requires Irreducible(c) && q in PossibleDivisors(p, k)
    ensures InFp(q) && q.p == p && Mod(c, q) != Success(Zero(p))
  {
    PossibleDivisorsMembers(p, k, q);
    ZeroRemainderIffDivides(c, q);
    forall m: Polynomial | InFp(m) && m.p == p
      ensures c != Product(m, q)
    {
      CofactorDegree(m, q);
    }
  }

  /** For a monic candidate of degree k, passing the trial division is the same as being irreducible. */
  lemma TrialDivisionDecides(p: int, k: nat, c: Polynomial)
    requires Prime(p) && k >= 1 && InFp(c) && c.p == p && Monic(c, k)
    ensures PassesTrialDivision(p, k)(c) <==> Irreducible(c)
  {
    if PassesTrialDivision(p, k)(c) {
      PassingIsIrreducible(p, k, c);
    }
    if Irreducible(c) {
      IrreducibleIsPassing(p, k, c);
    }
  }

  /**
   * The search finds a monic irreducible polynomial of degree k over p, the
   * first one in enumeration order, and comes back empty exactly when there
   * is none.
   */
  lemma IrreducibleSearchCorrect(p: int, k: nat)
    requires Prime(p) && k >= 1
    ensures IrreducibleSearch(p, k).Some? ==>
      var h := IrreducibleSearch(p, k).value;
      InFp(h) && h.p == p && Monic(h, k) && Irreducible(h) &&
      var cands := MonicCandidates(p, k);
      var i := FirstIndex(cands, PassesTrialDivision(p, k));
      i < |cands| && cands[i] == h &&
      forall j :: 0 <= j < i ==> !Irreducible(cands[j])
    ensures IrreducibleSearch(p, k).None? <==>
      forall c: Polynomial :: InFp(c) && c.p == p && Monic(c, k) ==> !Irreducible(c)
  {
    var cands := MonicCandidates(p, k);
    var P := PassesTrialDivision(p, k);
    forall j | 0 <= j < |cands| ensures P(cands[j]) <==> Irreducible(cands[j]) {
      MonicCandidatesMembers(p, k, cands[j]);
      TrialDivisionDecides(p, k, cands[j]);
    }
    forall c: Polynomial | InFp(c) && c.p == p && Monic(c, k) && Irreducible(c)
      ensures IrreducibleSearch(p, k).Some?
    {
      MonicCandidatesMembers(p, k, c);
      var j :| 0 <= j < |cands| && cands[j] == c;
    }
    if IrreducibleSearch(p, k).Some? {
      var i := FirstIndex(cands, P);
      MonicCandidatesMembers(p, k, cands[i]);
    }
  }

  /** For k = 1 there are no trial divisors and the first candidate, x, is returned. */
  lemma IrreducibleOfDegreeOne(p: int)
    requires Prime(p)
    ensures IrreducibleSearch(p, 1) == Some(Make([0, 1], p))
  {
    var cands := MonicCandidates(p, 1);
    var pool := Residues(p);
    assert Combinatorics.GetPermutationsWithRept(pool, 1).value == Combinatorics.PermutationsWithRept(pool, 1);
    assert cands[0] == Make([0] + [1], p);
    MonicFromTuple([0], p);
    var P := PassesTrialDivision(p, 1);
    assert P(cands[0]);
    assert [0] + [1] == [0, 1];
  }
}
