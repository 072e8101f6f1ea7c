/**
 * Division in F_p[x]: the scalar inverse found by counting, the Euclidean
 * division loop behind PolynomialQuotientRemainder, % and /, and the
 * uniqueness of quotient and remainder that makes "remainder zero" mean
 * "divides".
 */
module PolyDivision {
  import opened Wrappers
  import opened ModArith
  import opened NumberTheory
  import Combinatorics
  import Searches
  import opened Polynomials
  import opened PolyArith

  // ---------------------------------------------------------------------
  // Scalar inverse and scalar division
  // ---------------------------------------------------------------------

  /** Counting upwards from inv to the first inverse of a mod p (p itself when there is none below p). */
  function InverseSearch(a: int, p: int, inv: int): int
    requires p >= 2 && 1 <= inv <= p
    decreases p - inv
  {
    if inv == p || (a * inv) % p == 1 then inv else InverseSearch(a, p, inv + 1)
  }

  /** The value GetInverse(a, p) counts up to. */
  function ScalarInverse(a: int, p: int): int
    requires p >= 2
  {
    InverseSearch(a, p, 1)
  }

  lemma {:induction false} InverseSearchFinds(a: int, p: int, inv: int, x: int)
    requires p >= 2 && 1 <= inv <= x < p && (a * x) % p == 1
    ensures inv <= InverseSearch(a, p, inv) <= x
    ensures (a * InverseSearch(a, p, inv)) % p == 1
    ensures forall j :: inv <= j < InverseSearch(a, p, inv) ==> (a * j) % p != 1
    decreases p - inv
  {
    if (a * inv) % p != 1 {
      InverseSearchFinds(a, p, inv + 1, x);
    }
  }

  /** For a prime p and a unit a, ScalarInverse is the least inv >= 1 with a * inv ≡ 1 (mod p). */
  lemma {:induction false} ScalarInverseIsLeast(a: int, p: int)
    requires Prime(p) && a % p != 0
    ensures 1 <= ScalarInverse(a, p) < p
    ensures (a * ScalarInverse(a, p)) % p == 1
    ensures forall j :: 1 <= j < ScalarInverse(a, p) ==> (a * j) % p != 1
  {
    var x := InverseExists(p, a % p);
    CongMul(a % p, a, x, p) by { ModIdempotent(a, p); }
    InverseSearchFinds(a, p, 1, x);
  }

  /** GetInverse: a do-while that counts inv up until a * inv leaves remainder 1. */
  method GetInverse(a: int, p: int) returns (inv: int)
    requires Prime(p) && a > 0 && a % p != 0
    ensures inv == ScalarInverse(a, p)
    ensures 1 <= inv < p && (a * inv) % p == 1
  {
    ScalarInverseIsLeast(a, p);
    inv := 0;
    inv := inv + 1;
    while CsRem(a * inv, p) != 1
      invariant 1 <= inv <= ScalarInverse(a, p)
      invariant InverseSearch(a, p, inv) == ScalarInverse(a, p)
      decreases p - inv
    {
      inv := inv + 1;
    }
  }

  /** Divide(a, b, p): a times the inverse of b, reduced. */
  function ScalarQuotient(a: int, b: int, p: int): int
    requires p >= 2
  {
    CsRem(a * ScalarInverse(b, p), p)
  }

  /** The quotient undoes multiplication by b: q * b ≡ a (mod p). */
  lemma {:induction false} ScalarQuotientLaw(a: int, b: int, p: int)
    requires Prime(p) && b % p != 0 && a >= 0
    ensures 0 <= ScalarQuotient(a, b, p) < p
    ensures (ScalarQuotient(a, b, p) * b) % p == a % p
  {
    var inv := ScalarInverse(b, p);
    ScalarInverseIsLeast(b, p);
    MulNonNegative(a, inv);
    var q := ScalarQuotient(a, b, p);
    assert q == (a * inv) % p;
    CongMul((a * inv) % p, a * inv, b, p) by { ModIdempotent(a * inv, p); }
    assert a * inv * b == a * (b * inv);
    CongMul(b * inv, 1, a, p) by { ModSmall(1, p); }
    assert (b * inv) * a == a * (b * inv);
  }

  method DivideScalar(a: int, b: int, p: int) returns (c: int)
    requires Prime(p) && b > 0 && b % p != 0
    ensures c == ScalarQuotient(a, b, p)
  {
    var inv := GetInverse(b, p);
    c := CsRem(a * inv, p);
  }

  // ---------------------------------------------------------------------
  // The division loop
  // ---------------------------------------------------------------------

  /** The term s the loop adds to the quotient: (lc r / lc g) x^(deg r - deg g). */
  function LeadingQuotient(r: Polynomial, g: Polynomial): Polynomial
    requires r.p >= 2 && Degree(r) >= Degree(g)
  {
    Monomial(ScalarQuotient(Lc(r), Lc(g), r.p), Degree(r) - Degree(g), r.p)
  }

  /** The convolution with a monomial c x^e picks out the single term at e. */
  lemma {:induction false} ConvMonomial(c: int, e: nat, p: int, g: Poly, k: int, n: nat)
    ensures Conv(Monomial(c, e, p), g, k, n) == if n > e then c * Coef(g, k - e) else 0
  {
    if n > 0 {
      ConvMonomial(c, e, p, g, k, n - 1);
    }
  }

  /** The leading coefficient of a nonzero reduced polynomial is a unit residue. */
  lemma {:induction false} LcIsUnit(f: Polynomial)
    requires InFp(f) && Degree(f) >= 0
    ensures 0 < Lc(f) < f.p && Lc(f) % f.p == Lc(f)
  {
    assert Lc(f) == f.coeffs[|f.coeffs| - 1];
    ModSmall(Lc(f), f.p);
  }

  /** The quotient of two unit residues is a unit residue. */
  lemma {:induction false} ScalarQuotientUnit(a: int, b: int, p: int)
    requires Prime(p) && 0 < a < p && 0 < b < p
    ensures 0 < ScalarQuotient(a, b, p) < p
    ensures (ScalarQuotient(a, b, p) * b) % p == a
  {
    ModSmall(a, p);
    ModSmall(b, p);
    ScalarQuotientLaw(a, b, p);
    var c := ScalarQuotient(a, b, p);
    if c == 0 {
      assert c * b == 0;
      ModSmall(0, p);
      assert false;
    }
  }

  /** c x^e with a unit c is a reduced polynomial of degree e. */
  lemma {:induction false} MonomialShape(c: int, e: nat, p: int)
    requires Prime(p) && 0 < c < p
    ensures InFp(Monomial(c, e, p)) && Monomial(c, e, p).p == p
    ensures Degree(Monomial(c, e, p)) == e
  {
    var m := Monomial(c, e, p);
    forall i | 0 <= i < |m.coeffs| ensures 0 <= m.coeffs[i] < p {
      assert Coef(m, i) == m.coeffs[i];
    }
    DegreeIsHighestNonzero(m, e);
  }

  /** The leading quotient is a reduced monomial of degree deg r - deg g whose coefficient times lc g is lc r. */
  lemma {:induction false} LeadingQuotientShape(r: Polynomial, g: Polynomial)
    requires InFp(r) && InFp(g) && g.p == r.p && Degree(g) >= 0 && Degree(r) >= Degree(g)
    ensures InFp(LeadingQuotient(r, g)) && LeadingQuotient(r, g).p == r.p
    ensures Degree(LeadingQuotient(r, g)) == Degree(r) - Degree(g)
    ensures (ScalarQuotient(Lc(r), Lc(g), r.p) * Lc(g)) % r.p == Lc(r)
  {
    LcIsUnit(r);
    LcIsUnit(g);
    ScalarQuotientUnit(Lc(r), Lc(g), r.p);
    MonomialShape(ScalarQuotient(Lc(r), Lc(g), r.p), Degree(r) - Degree(g), r.p);
  }

  /** s*g for the leading quotient s: reduced, no longer than r, agreeing with r at deg r and zero above. */
  lemma {:induction false} LeadingProduct(r: Polynomial, g: Polynomial)
    requires InFp(r) && InFp(g) && g.p == r.p && Degree(g) >= 0 && Degree(r) >= Degree(g)
    ensures var t := Product(LeadingQuotient(r, g), g);
      InFp(t) && t.p == r.p && |t.coeffs| <= |r.coeffs| &&
      Coef(t, Degree(r)) == Coef(r, Degree(r)) &&
      forall i :: i > Degree(r) ==> Coef(t, i) == 0
  {
    var p := r.p;
    var D, d := Degree(r), Degree(g);
    var c := ScalarQuotient(Lc(r), Lc(g), p);
    var s := LeadingQuotient(r, g);
    LeadingQuotientShape(r, g);
    var t := Product(s, g);
    ProductInFp(s, g);
    assert ProductLength(s, g) == D + 1;
    ProductCoefReduced(s, g, D);
    ConvMonomial(c, D - d, p, g, D, D + 1);
    forall i | i > D ensures Coef(t, i) == 0 {
      ProductCoefReduced(s, g, i);
      ConvAboveDegrees(s, g, i, i + 1);
      ModSmall(0, p);
    }
  }

  /** Subtracting a reduced t that matches r at deg r and vanishes above drops the degree. */
  lemma {:induction false} CancelLeading(r: Polynomial, t: Polynomial)
    requires InFp(r) && InFp(t) && t.p == r.p && Degree(r) >= 0
    requires Coef(t, Degree(r)) == Coef(r, Degree(r))
    requires forall i :: i > Degree(r) ==> Coef(t, i) == 0
    ensures InFp(MinusReduced(r, t)) && MinusReduced(r, t).p == r.p
    ensures Degree(MinusReduced(r, t)) < Degree(r)
  {
    var D := Degree(r);
    MinusReducedInFp(r, t);
    var m := MinusReduced(r, t);
    forall i | i >= D ensures Coef(m, i) == 0 {
      MinusReducedCoef(r, t, i);
      ModSmall(0, r.p);
    }
    var e := Degree(m);
    assert e >= 0 ==> Coef(m, e) != 0;
  }

  /**
   * One pass of the loop: r - s*g is reduced, the subtraction never meets the
   * unreduced tail of -(s*g), and the degree drops.
   */
  lemma {:induction false} ReductionStep(r: Polynomial, g: Polynomial)
    requires InFp(r) && InFp(g) && g.p == r.p && Degree(g) >= 0 && Degree(r) >= Degree(g)
    ensures var t := Product(LeadingQuotient(r, g), g);
      InFp(t) && t.p == r.p && Minus(r, t) == MinusReduced(r, t)
    ensures var t := Product(LeadingQuotient(r, g), g);
      InFp(Minus(r, t)) && Minus(r, t).p == r.p && Degree(Minus(r, t)) < Degree(r)
  {
    var t := Product(LeadingQuotient(r, g), g);
    LeadingProduct(r, g);
    MinusAgreesWhenNotLonger(r, t);
    CancelLeading(r, t);
  }

  /** The loop itself, one pass per call: q accumulates the leading quotients, r shrinks. */
  function DivLoop(q: Polynomial, r: Polynomial, g: Polynomial): (Polynomial, Polynomial)
    requires InFp(r) && InFp(g) && g.p == r.p && q.p == r.p && Degree(g) >= 0
    decreases Degree(r) + 1
  {
    if Degree(r) < Degree(g) then (q, r)
    else
      var s := LeadingQuotient(r, g);
      ReductionStep(r, g);
      DivLoop(Plus(q, s), Minus(r, Product(s, g)), g)
  }

  /** f ≡ q*g + r, coefficient by coefficient, modulo p. */
  ghost predicate Decomposes(f: Poly, q: Poly, g: Poly, r: Poly, p: int)
  {
    p > 0 && forall k :: 0 <= k ==> Coef(f, k) % p == (Conv(q, g, k, k + 1) + Coef(r, k)) % p
  }

  /** The convolution is additive in its first factor, up to congruence. */
  lemma {:induction false} ConvLinear(a: Poly, b: Poly, c: Poly, g: Poly, p: int, k: int, n: nat)
    requires p > 0
    requires forall i :: 0 <= i ==> Coef(a, i) % p == (Coef(b, i) + Coef(c, i)) % p
    ensures Conv(a, g, k, n) % p == (Conv(b, g, k, n) + Conv(c, g, k, n)) % p
  {
    if n > 0 {
      var i := n - 1;
      var x := Coef(g, k - i);
      ConvLinear(a, b, c, g, p, k, i);
      assert Coef(a, i) % p == (Coef(b, i) + Coef(c, i)) % p;
      CongMul(Coef(a, i), Coef(b, i) + Coef(c, i), x, p);
      assert (Coef(b, i) + Coef(c, i)) * x == Coef(b, i) * x + Coef(c, i) * x;
      CongAdd(Conv(a, g, k, i), Conv(b, g, k, i) + Conv(c, g, k, i),
              Coef(a, i) * x, Coef(b, i) * x + Coef(c, i) * x, p);
    }
  }

  /** Integer bookkeeping of one pass: F ≡ A + R, X ≡ A + S and Y = (R - S mod p) mod p give F ≡ X + Y. */
  lemma {:induction false} StepCongruence(f: int, a: int, r: int, s: int, x: int, y: int, p: int)
    requires p > 0
    requires f % p == (a + r) % p && x % p == (a + s) % p && y == (r - s % p) % p
    ensures f % p == (x + y) % p
  {
    ModAdd(r, -(s % p), p);
    assert (r - s % p) == r + -(s % p);
    ModAdd(r, -s, p);
    CongNeg(s % p, s, p) by { ModIdempotent(s, p); }
    assert y % p == (r - s) % p by {
      ModIdempotent(r - s % p, p);
      CongAdd(r, r, -(s % p), -s, p);
    }
    CongAdd(x, a + s, y, r - s, p);
    assert a + s + (r - s) == a + r;
  }

  /** f ≡ q*g + r survives q2 ≡ q + s, t ≡ s*g and r2 ≡ r - t, all coefficient-wise. */
  lemma {:induction false} DecomposesShift(f: Poly, q: Poly, s: Poly, q2: Poly, g: Poly, r: Poly, t: Poly, r2: Poly, p: int)
    requires Decomposes(f, q, g, r, p)
    requires forall i :: 0 <= i ==> Coef(q2, i) % p == (Coef(q, i) + Coef(s, i)) % p
    requires forall k :: 0 <= k ==> Coef(t, k) == Conv(s, g, k, k + 1) % p
    requires forall k :: 0 <= k ==> Coef(r2, k) == (Coef(r, k) - Coef(t, k)) % p
    ensures Decomposes(f, q2, g, r2, p)
  {
    forall k | 0 <= k ensures Coef(f, k) % p == (Conv(q2, g, k, k + 1) + Coef(r2, k)) % p {
      ConvLinear(q2, q, s, g, p, k, k + 1);
      StepCongruence(Coef(f, k), Conv(q, g, k, k + 1), Coef(r, k), Conv(s, g, k, k + 1),
                     Conv(q2, g, k, k + 1), Coef(r2, k), p);
    }
  }

  /** One pass keeps f ≡ q*g + r. */
  lemma {:induction false} DecomposesStep(f: Polynomial, q: Polynomial, r: Polynomial, g: Polynomial)
    requires InFp(r) && InFp(g) && InFp(q) && g.p == r.p && q.p == r.p && Degree(g) >= 0
    requires Degree(r) >= Degree(g)
    requires Decomposes(f, q, g, r, r.p)
    ensures var s := LeadingQuotient(r, g);
      Decomposes(f, Plus(q, s), g, MinusReduced(r, Product(s, g)), r.p)
  {
    var p := r.p;
    var s := LeadingQuotient(r, g);
    LeadingQuotientShape(r, g);
    var t := Product(s, g);
    ProductInFp(s, g);
    PlusCongruent(q, s);
    ProductCoefsReduced(s, g);
    MinusReducedCoefs(r, t);
    DecomposesShift(f, q, s, Plus(q, s), g, r, t, MinusReduced(r, t), p);
  }

  lemma {:induction false} PlusCongruent(f: Polynomial, g: Polynomial)
    requires f.p > 0 && InRange(f.coeffs, f.p) && InRange(g.coeffs, f.p)
    ensures forall i :: 0 <= i ==> Coef(Plus(f, g), i) % f.p == (Coef(f, i) + Coef(g, i)) % f.p
  {
    forall i | 0 <= i ensures Coef(Plus(f, g), i) % f.p == (Coef(f, i) + Coef(g, i)) % f.p {
      PlusCoefReduced(f, g, i);
      ModIdempotent(Coef(f, i) + Coef(g, i), f.p);
    }
  }

  lemma {:induction false} ProductCoefsReduced(f: Polynomial, g: Polynomial)
    requires f.p > 0 && InRange(f.coeffs, f.p) && InRange(g.coeffs, f.p)
    ensures forall k :: 0 <= k ==> Coef(Product(f, g), k) == Conv(f, g, k, k + 1) % f.p
  {
    forall k | 0 <= k ensures Coef(Product(f, g), k) == Conv(f, g, k, k + 1) % f.p {
      ProductCoefReduced(f, g, k);
    }
  }

  lemma {:induction false} MinusReducedCoefs(f: Polynomial, g: Polynomial)
    requires f.p > 0 && g.p == f.p && InRange(f.coeffs, f.p) && InRange(g.coeffs, f.p)
    ensures forall k :: 0 <= k ==> Coef(MinusReduced(f, g), k) == (Coef(f, k) - Coef(g, k)) % f.p
  {
    forall k | 0 <= k ensures Coef(MinusReduced(f, g), k) == (Coef(f, k) - Coef(g, k)) % f.p {
      MinusReducedCoef(f, g, k);
    }
  }

  /** The loop ends with a reduced quotient and remainder, deg r < deg g, and f ≡ q*g + r. */
  lemma {:induction false} DivLoopCorrect(f: Polynomial, q: Polynomial, r: Polynomial, g: Polynomial)
    requires InFp(r) && InFp(g) && InFp(q) && g.p == r.p && q.p == r.p && Degree(g) >= 0
    requires Decomposes(f, q, g, r, r.p)
    ensures InFp(DivLoop(q, r, g).0) && InFp(DivLoop(q, r, g).1)
    ensures DivLoop(q, r, g).0.p == r.p && DivLoop(q, r, g).1.p == r.p
    ensures Degree(DivLoop(q, r, g).1) < Degree(g)
    ensures Decomposes(f, DivLoop(q, r, g).0, g, DivLoop(q, r, g).1, r.p)
    decreases Degree(r) + 1
  {
    if Degree(r) >= Degree(g) {
      var s := LeadingQuotient(r, g);
      LeadingQuotientShape(r, g);
      ReductionStep(r, g);
      DecomposesStep(f, q, r, g);
      PlusInFp(q, s);
      DivLoopCorrect(f, Plus(q, s), Minus(r, Product(s, g)), g);
    }
  }

  /** Coefficient-wise congruence of reduced polynomials is equality: f == q*g + r. */
  lemma {:induction false} DecomposesToEquality(f: Polynomial, q: Polynomial, g: Polynomial, r: Polynomial)
    requires InFp(f) && InFp(q) && InFp(g) && InFp(r) && q.p == f.p && g.p == f.p && r.p == f.p
    requires Decomposes(f, q, g, r, f.p)
    ensures f == Plus(Product(q, g), r)
  {
    var p := f.p;
    var m := Product(q, g);
    ProductInFp(q, g);
    forall k | 0 <= k ensures Coef(Plus(m, r), k) == Coef(f, k) {
      PlusCoefReduced(m, r, k);
      ProductCoefReduced(q, g, k);
      ModAdd(Conv(q, g, k, k + 1), Coef(r, k), p);
      ModSmall(Coef(r, k), p);
      ModIdempotent(Conv(q, g, k, k + 1), p);
      ModAdd(Conv(q, g, k, k + 1) % p, Coef(r, k), p);
      ModSmall(Coef(f, k), p);
    }
    CoefExtensionality(Plus(m, r), f);
  }

  lemma {:induction false} DecomposesInitially(f: Polynomial, g: Polynomial)
    requires f.p > 0
    ensures Decomposes(f, Zero(f.p), g, f, f.p)
  {
    forall k | 0 <= k ensures Coef(f, k) % f.p == (Conv(Zero(f.p), g, k, k + 1) + Coef(f, k)) % f.p {
      ConvOfZero(g, f.p, k, k + 1);
    }
  }

  /**
   * PolynomialQuotientRemainder(f, g): fails on the zero divisor; returns (0, f)
   * when deg f < deg g; otherwise the loop's (q, r). Always f == q*g + r with
   * deg r < deg g.
   */
  function DivRem(f: Polynomial, g: Polynomial): (res: Result<(Polynomial, Polynomial)>)
    requires InFp(f) && InFp(g) && g.p == f.p
    ensures res.Failure? <==> Degree(g) < 0
    ensures res.Failure? ==> res.error == DivisionByZeroPolynomial
    ensures Degree(g) >= 0 && Degree(f) < Degree(g) ==> res == Success((Zero(f.p), f))
    ensures res.Success? ==>
      InFp(res.value.0) && InFp(res.value.1) && res.value.0.p == f.p && res.value.1.p == f.p &&
      Degree(res.value.1) < Degree(g) && f == Plus(Product(res.value.0, g), res.value.1)
  {
    if Degree(g) < 0 then Failure(DivisionByZeroPolynomial)
    else if Degree(f) < Degree(g) then
      DecomposesInitially(f, g);
      DecomposesToEquality(f, Zero(f.p), g, f);
      Success((Zero(f.p), f))
    else
      DecomposesInitially(f, g);
      DivLoopCorrect(f, Zero(f.p), f, g);
      var qr := DivLoop(Zero(f.p), f, g);
      DecomposesToEquality(f, qr.0, g, qr.1);
      Success(qr)
  }

  /** The body of PolynomialQuotientRemainder's loop: s from the leading coefficients, then q + s and r - s*g. */
  method ReducePass(q: Polynomial, r: Polynomial, g: Polynomial) returns (q2: Polynomial, r2: Polynomial)
    requires InFp(r) && InFp(g) && InFp(q) && g.p == r.p && q.p == r.p && Degree(g) >= 0
    requires Degree(r) >= Degree(g)
    ensures q2 == Plus(q, LeadingQuotient(r, g))
    ensures r2 == Minus(r, Product(LeadingQuotient(r, g), g))
  {
    var p := r.p;
    LcIsUnit(r);
    LcIsUnit(g);
    var c := DivideScalar(Lc(r), Lc(g), p);
    var s := FromList(Zeros(Degree(r) - Degree(g)) + [c], p);
    assert s == LeadingQuotient(r, g);
    q2 := Plus(q, s);
    var t := Times(s, g);
    r2 := Minus(r, t);
  }

  /** PolynomialQuotientRemainder: the while loop updating q and r. */
  method QuotientRemainder(f: Polynomial, g: Polynomial) returns (res: Result<(Polynomial, Polynomial)>)
    requires InFp(f) && InFp(g) && g.p == f.p
    ensures res == DivRem(f, g)
  {
    if Degree(g) < 0 {
      return Failure(DivisionByZeroPolynomial);
    }
    var p := f.p;
    if Degree(f) < Degree(g) {
      var copy := FromList(f.coeffs, p);
      return Success((Zero(p), copy));
    }
    var q := Zero(p);
    var r := FromList(f.coeffs, p);
    var d := Degree(g);
    while Degree(r) >= d
      invariant InFp(r) && InFp(q) && r.p == p && q.p == p
      invariant DivLoop(q, r, g) == DivLoop(Zero(p), f, g)
      decreases Degree(r) + 1
    {
      ReductionStep(r, g);
      LeadingQuotientShape(r, g);
      PlusInFp(q, LeadingQuotient(r, g));
      q, r := ReducePass(q, r, g);
    }
    return Success((q, r));
  }

  // ---------------------------------------------------------------------
  // Uniqueness of quotient and remainder
  // ---------------------------------------------------------------------

  /** A nonzero difference of two residues is not divisible by p. */
  lemma {:induction false} ResidueDifference(a: int, b: int, p: int)
    requires p > 0 && 0 <= a < p && 0 <= b < p && a != b
    ensures (a - b) % p != 0
  {
    if a > b {
      ModSmall(a - b, p);
    } else {
      ModAddMultiple(a - b + p, p, -1);
      ModSmall(a - b + p, p);
    }
  }

  /** Below n the two polynomials differ somewhere and agree from n on: find the highest difference. */
  lemma {:induction false} HighestDifference(a: Poly, b: Poly, n: nat) returns (m: nat)
    requires exists j :: 0 <= j < n && Coef(a, j) != Coef(b, j)
    requires forall i :: i >= n ==> Coef(a, i) == Coef(b, i)
    ensures m < n && Coef(a, m) != Coef(b, m)
    ensures forall i :: i > m ==> Coef(a, i) == Coef(b, i)
  {
    if Coef(a, n - 1) != Coef(b, n - 1) {
      m := n - 1;
    } else {
      m := HighestDifference(a, b, n - 1);
    }
  }

  /**
   * The difference of two convolutions with g at k = m + deg g, where m is the
   * highest index at which the first factors differ, is the single term
   * (a_m - b_m) * lc g.
   */
  lemma {:induction false} ConvDifference(a: Poly, b: Poly, g: Polynomial, m: nat, k: int, n: nat)
    requires Degree(g) >= 0 && k == m + Degree(g)
    requires forall i :: i > m ==> Coef(a, i) == Coef(b, i)
    ensures Conv(a, g, k, n) - Conv(b, g, k, n) == if n > m then (Coef(a, m) - Coef(b, m)) * Lc(g) else 0
  {
    if n > 0 {
      ConvDifference(a, b, g, m, k, n - 1);
      var i := n - 1;
      if i < m {
        assert Coef(g, k - i) == 0;
      }
    }
  }

  /** Reading q*g + r coefficient-wise: entry k is (conv_k + r_k) mod p. */
  lemma {:induction false} DecompositionCoef(q: Polynomial, g: Polynomial, r: Polynomial, k: int)
    requires InFp(q) && InRange(g.coeffs, q.p) && InRange(r.coeffs, q.p) && k >= 0
    ensures Coef(Plus(Product(q, g), r), k) == (Conv(q, g, k, k + 1) + Coef(r, k)) % q.p
  {
    var P, c := Product(q, g), Conv(q, g, k, k + 1);
    assert Coef(Plus(P, r), k) == (Coef(P, k) + Coef(r, k)) % q.p by {
      ProductInFp(q, g);
      PlusCoefReduced(P, r, k);
    }
    assert Coef(P, k) == c % q.p by {
      ProductCoefReduced(q, g, k);
    }
    ModAbsorbInto(Coef(Plus(P, r), k), Coef(P, k), c, Coef(r, k), q.p);
  }

  /** Two decompositions with the same quotient have the same remainder. */
  lemma {:induction false} SameQuotientSameRemainder(f: Polynomial, q: Polynomial, g: Polynomial, r1: Polynomial, r2: Polynomial)
    requires InFp(q) && InFp(g) && InFp(r1) && InFp(r2) && g.p == q.p && r1.p == q.p && r2.p == q.p
    requires f == Plus(Product(q, g), r1) && f == Plus(Product(q, g), r2)
    ensures r1 == r2
  {
    var p := q.p;
    forall k | 0 <= k ensures Coef(r1, k) == Coef(r2, k) {
      DecompositionCoef(q, g, r1, k);
      DecompositionCoef(q, g, r2, k);
      var c := Conv(q, g, k, k + 1);
      ModAddMultiple(Coef(r1, k), p, 0);
      CongAdd(c + Coef(r1, k), c + Coef(r2, k), -c, -c, p);
      assert c + Coef(r1, k) + -c == Coef(r1, k);
      assert c + Coef(r2, k) + -c == Coef(r2, k);
      ModSmall(Coef(r1, k), p);
      ModSmall(Coef(r2, k), p);
    }
    CoefExtensionality(r1, r2);
  }

  /** Where the remainders vanish, equal left-hand sides force congruent convolutions. */
  lemma {:induction false} ConvCongruentAbove(f: Polynomial, q1: Polynomial, q2: Polynomial, g: Polynomial,
                           r1: Polynomial, r2: Polynomial, k: int)
    requires InFp(q1) && InFp(q2) && InFp(g) && InFp(r1) && InFp(r2)
    requires g.p == q1.p && q2.p == q1.p && r1.p == q1.p && r2.p == q1.p
    requires f == Plus(Product(q1, g), r1) && f == Plus(Product(q2, g), r2)
    requires k > Degree(r1) && k > Degree(r2) && k >= 0
    ensures (Conv(q1, g, k, k + 1) - Conv(q2, g, k, k + 1)) % q1.p == 0
  {
    var p := q1.p;
    DecompositionCoef(q1, g, r1, k);
    DecompositionCoef(q2, g, r2, k);
    var c1, c2 := Conv(q1, g, k, k + 1), Conv(q2, g, k, k + 1);
    assert c1 % p == c2 % p;
    CongAdd(c1, c2, -c2, -c2, p);
    ModAddMultiple(0, p, 0);
  }

  /** In Z/pZ a unit times a difference of residues vanishes only if the residues are equal. */
  lemma {:induction false} UnitCancels(a: int, b: int, l: int, p: int)
    requires Prime(p) && 0 <= a < p && 0 <= b < p && 0 < l < p
    requires ((a - b) * l) % p == 0
    ensures a == b
  {
    if a != b {
      ResidueDifference(a, b, p);
      ModSmall(l, p);
      Euclid(p, a - b, l);
      assert false;
    }
  }

  /** Two distinct polynomials over one p differ at some index below the longer length. */
  lemma {:induction false} DifferSomewhere(a: Polynomial, b: Polynomial) returns (j: nat)
    requires a.p == b.p && a != b
    ensures j < |a.coeffs| || j < |b.coeffs|
    ensures Coef(a, j) != Coef(b, j)
  {
    if forall i :: 0 <= i ==> Coef(a, i) == Coef(b, i) {
      CoefExtensionality(a, b);
      assert false;
    }
    var i :| 0 <= i && Coef(a, i) != Coef(b, i);
    j := i;
  }

  /**
   * Quotient and remainder are unique: two decompositions f == q*g + r with
   * deg r < deg g agree. This is what makes "remainder zero" mean "g divides f".
   */
  lemma {:induction false} DivisionUnique(f: Polynomial, g: Polynomial, q1: Polynomial, r1: Polynomial, q2: Polynomial, r2: Polynomial)
    requires InFp(g) && Degree(g) >= 0
    requires InFp(q1) && InFp(r1) && InFp(q2) && InFp(r2)
    requires q1.p == g.p && r1.p == g.p && q2.p == g.p && r2.p == g.p
    requires Degree(r1) < Degree(g) && Degree(r2) < Degree(g)
    requires f == Plus(Product(q1, g), r1) && f == Plus(Product(q2, g), r2)
    ensures q1 == q2 && r1 == r2
  {
    var p := g.p;
    if q1 != q2 {
      var n := if |q1.coeffs| > |q2.coeffs| then |q1.coeffs| else |q2.coeffs|;
      var j := DifferSomewhere(q1, q2);
      var m := HighestDifference(q1, q2, n);
      var k := m + Degree(g);
      ConvCongruentAbove(f, q1, q2, g, r1, r2, k);
      ConvDifference(q1, q2, g, m, k, k + 1);
      LcIsUnit(g);
      CoefInRange(q1, m);
      CoefInRange(q2, m);
      UnitCancels(Coef(q1, m), Coef(q2, m), Lc(g), p);
      assert false;
    }
    SameQuotientSameRemainder(f, q1, g, r1, r2);
  }

  // ---------------------------------------------------------------------
  // % and /, and arithmetic modulo h
  // ---------------------------------------------------------------------

  /** operator %: the remainder of PolynomialQuotientRemainder. */
  function Mod(f: Polynomial, g: Polynomial): (r: Result<Polynomial>)
    requires InFp(f) && InFp(g) && g.p == f.p
    ensures r.Failure? <==> Degree(g) < 0
    ensures r.Failure? ==> r.error == DivisionByZeroPolynomial
    ensures r.Success? ==> InFp(r.value) && r.value.p == f.p && Degree(r.value) < Degree(g)
  {
    if Degree(g) < 0 then Failure(DivisionByZeroPolynomial) else Success(DivRem(f, g).value.1)
  }

  /** operator /: the quotient of PolynomialQuotientRemainder. */
  function Div(f: Polynomial, g: Polynomial): (r: Result<Polynomial>)
    requires InFp(f) && InFp(g) && g.p == f.p
    ensures r.Failure? <==> Degree(g) < 0
    ensures r.Failure? ==> r.error == DivisionByZeroPolynomial
    ensures r.Success? ==> InFp(r.value) && r.value.p == f.p
  {
    if Degree(g) < 0 then Failure(DivisionByZeroPolynomial) else Success(DivRem(f, g).value.0)
  }

  /** Division with remainder: f == (f / g) * g + f % g, and the pair is the only one with deg r < deg g. */
  lemma {:induction false} DivModIdentity(f: Polynomial, g: Polynomial)
    requires InFp(f) && InFp(g) && g.p == f.p && Degree(g) >= 0
    ensures f == Plus(Product(Div(f, g).value, g), Mod(f, g).value)
    ensures forall q: Polynomial, r: Polynomial ::
      InFp(q) && InFp(r) && q.p == f.p && r.p == f.p && Degree(r) < Degree(g) && f == Plus(Product(q, g), r)
      ==> q == Div(f, g).value && r == Mod(f, g).value
  {
    forall q: Polynomial, r: Polynomial |
      InFp(q) && InFp(r) && q.p == f.p && r.p == f.p && Degree(r) < Degree(g) && f == Plus(Product(q, g), r)
      ensures q == Div(f, g).value && r == Mod(f, g).value
    {
      DivisionUnique(f, g, q, r, Div(f, g).value, Mod(f, g).value);
    }
  }

  /** A polynomial of smaller degree is its own remainder and has quotient zero. */
  lemma {:induction false} ModOfSmaller(f: Polynomial, g: Polynomial)
    requires InFp(f) && InFp(g) && g.p == f.p && Degree(g) > Degree(f)
    ensures Mod(f, g) == Success(f) && Div(f, g) == Success(Zero(f.p))
  {
  }

  /** A multiple of g leaves remainder zero. */
  lemma {:induction false} MultipleHasZeroRemainder(f: Polynomial, g: Polynomial, q: Polynomial)
    requires InFp(f) && InFp(g) && InFp(q) && g.p == f.p && q.p == f.p && Degree(g) >= 0
    requires f == Product(q, g)
    ensures Mod(f, g) == Success(Zero(f.p))
  {
    ProductInFp(q, g);
    PlusZero(Product(q, g));
    DivModIdentity(f, g);
    DivisionUnique(f, g, q, Zero(f.p), Div(f, g).value, Mod(f, g).value);
  }

  /** Remainder zero exactly when g divides f: f == q * g for some reduced q. */
  lemma {:induction false} ZeroRemainderIffDivides(f: Polynomial, g: Polynomial)
    requires InFp(f) && InFp(g) && g.p == f.p && Degree(g) >= 0
    ensures Mod(f, g) == Success(Zero(f.p)) <==>
      exists q: Polynomial :: InFp(q) && q.p == f.p && f == Product(q, g)
  {
    if Mod(f, g) == Success(Zero(f.p)) {
      var q := Div(f, g).value;
      assert f == Product(q, g) by {
        DivModIdentity(f, g);
        ProductInFp(q, g);
        PlusZero(Product(q, g));
      }
    }
    forall q: Polynomial | InFp(q) && q.p == f.p && f == Product(q, g)
      ensures Mod(f, g) == Success(Zero(f.p))
    {
      MultipleHasZeroRemainder(f, g, q);
    }
  }

  /** Multiply(f, g, h): the product reduced modulo h. */
  function Multiply(f: Polynomial, g: Polynomial, h: Polynomial): (r: Result<Polynomial>)
    requires InFp(f) && InFp(g) && InFp(h) && g.p == f.p && h.p == f.p
    ensures r.Failure? <==> Degree(h) < 0
    ensures r.Success? ==> InFp(r.value) && r.value.p == f.p && Degree(r.value) < Degree(h)
  {
    ProductInFp(f, g);
    Mod(Product(f, g), h)
  }

  /** Multiply with a nonzero modulus, as a polynomial. */
  function MulMod(f: Polynomial, g: Polynomial, h: Polynomial): (r: Polynomial)
    requires InFp(f) && InFp(g) && InFp(h) && g.p == f.p && h.p == f.p && Degree(h) >= 0
    ensures InFp(r) && r.p == f.p && Degree(r) < Degree(h)
  {
    Multiply(f, g, h).value
  }

  // ---------------------------------------------------------------------
  // Coefficient tuples over 0..p-1
  // ---------------------------------------------------------------------

  /** Enumerable.Range(0, p): the residues in increasing order. */
  function Residues(p: nat): (r: seq<int>)
    ensures |r| == p && forall i :: 0 <= i < p ==> r[i] == i
  {
    seq(p, i => i)
  }

  /** The k-tuples GetPermutationsWithRept draws from the residues are exactly the reduced lists of length k. */
  lemma {:induction false} ResidueTupleMembers(p: nat, k: nat, s: seq<int>)
    requires k >= 1
    ensures s in Combinatorics.PermutationsWithRept(Residues(p), k) <==> |s| == k && InRange(s, p)
  {
    Combinatorics.PermutationsWithReptMembers(Residues(p), k, s);
    var pool := Residues(p);
    if InRange(s, p) {
      forall i | 0 <= i < |s| ensures s[i] in pool {
        assert pool[s[i]] == s[i];
      }
    }
    if Combinatorics.AllIn(s, pool) {
      forall i | 0 <= i < |s| ensures 0 <= s[i] < p {
        assert s[i] in pool;
      }
    }
  }

  lemma {:induction false} ResidueTuples(p: nat, k: nat)
    requires k >= 1
    ensures forall s :: s in Combinatorics.PermutationsWithRept(Residues(p), k) ==> |s| == k && InRange(s, p)
  {
    forall s | s in Combinatorics.PermutationsWithRept(Residues(p), k) ensures |s| == k && InRange(s, p) {
      ResidueTupleMembers(p, k, s);
    }
  }

  /** The list constructor keeps a reduced list reduced and does not lengthen it. */
  lemma {:induction false} MakeInFp(c: seq<int>, p: int)
    requires Prime(p) && InRange(c, p)
    ensures InFp(Make(c, p)) && Make(c, p).p == p
    ensures |c| >= 1 ==> Degree(Make(c, p)) < |c|
  {
    var m := Make(c, p);
    forall i | 0 <= i < |m.coeffs| ensures 0 <= m.coeffs[i] < p {
      TrimKeepsCoefficients(c, p, i);
      assert Coef(m, i) == m.coeffs[i];
    }
  }

  /** Padding a polynomial's list with zeros up to length k gives back the same polynomial. */
  lemma {:induction false} PaddedList(f: Polynomial, k: nat) returns (s: seq<int>)
    requires InFp(f) && |f.coeffs| <= k
    ensures |s| == k && InRange(s, f.p) && Make(s, f.p) == f
  {
    s := f.coeffs + Zeros(k - |f.coeffs|);
    forall i | 0 <= i ensures Coef(Make(s, f.p), i) == Coef(f, i) {
      TrimKeepsCoefficients(s, f.p, i);
    }
    CoefExtensionality(Make(s, f.p), f);
  }

  /** A polynomial of degree below k has a list no longer than k. */
  lemma {:induction false} ShortList(f: Polynomial, k: int)
    requires k >= 1 && Degree(f) < k
    ensures |f.coeffs| <= k
  {
  }

  /**
   * GetPermutationsWithRept(Enumerable.Range(0, p), k) mapped through the list
   * constructor: the enumeration both GetInverseModulo and the field's element
   * list walk through.
   */
  function ResiduePolys(p: int, k: nat): (r: seq<Polynomial>)
    requires p >= 0 && k >= 1
    ensures |r| == |Combinatorics.PermutationsWithRept(Residues(p), k)|
  {
    var tuples := Combinatorics.PermutationsWithRept(Residues(p), k);
    seq(|tuples|, i requires 0 <= i < |tuples| => Make(tuples[i], p))
  }

  /** Every enumerated polynomial is reduced, over p, and of degree below k. */
  lemma {:induction false} ResiduePolysInFp(p: int, k: nat)
    requires Prime(p) && k >= 1
    ensures forall i :: 0 <= i < |ResiduePolys(p, k)| ==>
      InFp(ResiduePolys(p, k)[i]) && ResiduePolys(p, k)[i].p == p && Degree(ResiduePolys(p, k)[i]) < k
  {
    var tuples := Combinatorics.PermutationsWithRept(Residues(p), k);
    ResidueTuples(p, k);
    forall i | 0 <= i < |tuples|
      ensures InFp(ResiduePolys(p, k)[i]) && ResiduePolys(p, k)[i].p == p && Degree(ResiduePolys(p, k)[i]) < k
    {
      assert tuples[i] in tuples;
      MakeInFp(tuples[i], p);
    }
  }

  /** Every reduced polynomial over p of degree below k is enumerated. */
  lemma {:induction false} ResiduePolysComplete(p: int, k: nat, c: Polynomial) returns (i: nat)
    requires Prime(p) && k >= 1
    requires InFp(c) && c.p == p && Degree(c) < k
    ensures i < |ResiduePolys(p, k)| && ResiduePolys(p, k)[i] == c
  {
    ShortList(c, k);
    var s := PaddedList(c, k);
    ResidueTupleMembers(p, k, s);
    var tuples := Combinatorics.PermutationsWithRept(Residues(p), k);
    var j :| 0 <= j < |tuples| && tuples[j] == s;
    i := j;
  }

  // ---------------------------------------------------------------------
  // GetInverseModulo and Divide(f, g, h)
  // ---------------------------------------------------------------------

  /** c inverts f modulo h: Multiply(f, c, h) is the one polynomial. */
  predicate Inverts(f: Polynomial, c: Polynomial, h: Polynomial)
  {
    InFp(f) && InFp(c) && InFp(h) && c.p == f.p && h.p == f.p && Degree(h) >= 0 &&
    MulMod(f, c, h) == One(f.p)
  }

  /** The test GetInverseModulo applies to each candidate. */
  function InverterTest(f: Polynomial, h: Polynomial): Polynomial -> bool
  {
    (c: Polynomial) => Inverts(f, c, h)
  }

  /**
   * GetInverseModulo(h) on f: fails for the zero modulus, then for the zero
   * polynomial, then (inside GetPermutationsWithRept) for a constant modulus;
   * otherwise the first candidate of degree < deg h, in enumeration order,
   * whose product with f modulo h is one (None when there is none).
   */
  function InverseModulo(f: Polynomial, h: Polynomial): (r: Result<Option<Polynomial>>)
    requires InFp(f) && InFp(h) && h.p == f.p
    ensures r == Failure(ZeroModulus) <==> Degree(h) < 0
    ensures r == Failure(ZeroHasNoInverse) <==> Degree(h) >= 0 && Degree(f) < 0
    ensures r == Failure(KNotPositive) <==> Degree(h) == 0 && Degree(f) >= 0
    ensures r.Success? <==> Degree(h) >= 1 && Degree(f) >= 0
    ensures r.Success? && r.value.Some? ==>
      Inverts(f, r.value.value, h) && Degree(r.value.value) < Degree(h)
  {
    if Degree(h) == -1 then Failure(ZeroModulus)
    else if f == Zero(f.p) then Failure(ZeroHasNoInverse)
    else if Degree(h) < 1 then Failure(KNotPositive)
    else
      ResiduePolysInFp(f.p, Degree(h));
      Success(Searches.FirstWhere(ResiduePolys(f.p, Degree(h)), InverterTest(f, h)))
  }

  /**
   * A found inverse is the first inverting candidate in enumeration order, and
   * None means that no reduced polynomial of degree below deg h inverts f.
   */
  lemma {:induction false} InverseModuloFirst(f: Polynomial, h: Polynomial)
    requires InFp(f) && InFp(h) && h.p == f.p && Degree(h) >= 1 && Degree(f) >= 0
    ensures var cands := ResiduePolys(f.p, Degree(h));
      InverseModulo(f, h).value.Some? ==>
        exists i :: 0 <= i < |cands| && InverseModulo(f, h).value.value == cands[i] &&
          forall j :: 0 <= j < i ==> !Inverts(f, cands[j], h)
    ensures InverseModulo(f, h).value.None? ==>
      forall c: Polynomial :: InFp(c) && c.p == f.p && Degree(c) < Degree(h) ==> !Inverts(f, c, h)
  {
    var cands := ResiduePolys(f.p, Degree(h));
    var P := InverterTest(f, h);
    if InverseModulo(f, h).value.Some? {
      var i := Searches.FirstIndex(cands, P);
      assert InverseModulo(f, h).value.value == cands[i];
    } else {
      ResiduePolysInFp(f.p, Degree(h));
      forall c: Polynomial | InFp(c) && c.p == f.p && Degree(c) < Degree(h) ensures !Inverts(f, c, h) {
        var i := ResiduePolysComplete(f.p, Degree(h), c);
        assert !P(cands[i]);
      }
    }
  }

  /** The test inside the foreach: oneP == Multiply(f, pol, h). */
  method IsInverse(f: Polynomial, pol: Polynomial, h: Polynomial) returns (b: bool)
    requires InFp(f) && InFp(pol) && InFp(h) && pol.p == f.p && h.p == f.p && Degree(h) >= 0
    ensures b <==> MulMod(f, pol, h) == One(f.p)
  {
    ProductInFp(f, pol);
    var prod := Times(f, pol);
    var qr := QuotientRemainder(prod, h);
    b := Equal(One(f.p), qr.value.1);
  }

  /** The foreach of GetInverseModulo: each tuple through the list constructor, then the test. */
  method FindInverse(f: Polynomial, h: Polynomial, tuples: seq<seq<int>>, ghost cands: seq<Polynomial>)
    returns (r: Option<Polynomial>)
    requires InFp(f) && InFp(h) && h.p == f.p && Degree(h) >= 0
    requires |tuples| == |cands|
    requires forall i :: 0 <= i < |cands| ==> cands[i] == Make(tuples[i], f.p) && InFp(cands[i])
    ensures r == Searches.FirstWhere(cands, InverterTest(f, h))
  {
    ghost var P := InverterTest(f, h);
    var i := 0;
    while i < |tuples|
      invariant 0 <= i <= |tuples|
      invariant Searches.FirstIndex(cands, P) >= i
    {
      var pol := FromList(tuples[i], f.p);
      var found := IsInverse(f, pol, h);
      if found {
        assert P(cands[i]);
        assert Searches.FirstIndex(cands, P) == i;
        assert pol == cands[i];
        return Some(pol);
      }
      assert !P(cands[i]);
      i := i + 1;
    }
    return None;
  }

  /** GetInverseModulo: the argument checks, then the search over the candidates. */
  method GetInverseModulo(f: Polynomial, h: Polynomial) returns (res: Result<Option<Polynomial>>)
    requires InFp(f) && InFp(h) && h.p == f.p
    ensures res == InverseModulo(f, h)
  {
    if Degree(h) == -1 {
      return Failure(ZeroModulus);
    }
    var isZero := Equal(f, Zero(f.p));
    if isZero {
      return Failure(ZeroHasNoInverse);
    }
    var perms := Combinatorics.GetPermutationsWithRept(Residues(f.p), Degree(h));
    if perms.Failure? {
      return Failure(perms.error);
    }
    ResiduePolysInFp(f.p, Degree(h));
    var found := FindInverse(f, h, perms.value, ResiduePolys(f.p, Degree(h)));
    return Success(found);
  }

  /**
   * Divide(f, g, h) = Multiply(f, g.GetInverseModulo(h), h). A null inverse
   * reaches operator *, which dereferences it: modelled as NullInverse.
   */
  function DivideMod(f: Polynomial, g: Polynomial, h: Polynomial): (r: Result<Polynomial>)
    requires InFp(f) && InFp(g) && InFp(h) && g.p == f.p && h.p == f.p
    ensures InverseModulo(g, h).Failure? ==> r == Failure(InverseModulo(g, h).error)
    ensures InverseModulo(g, h) == Success(None) ==> r == Failure(NullInverse)
    ensures InverseModulo(g, h).Success? && InverseModulo(g, h).value.Some? ==>
      var inv := InverseModulo(g, h).value.value;
      Inverts(g, inv, h) && r == Success(MulMod(f, inv, h))
  {
    match InverseModulo(g, h)
    case Failure(e) => Failure(e)
    case Success(None) => Failure(NullInverse)
    case Success(Some(inv)) => Success(MulMod(f, inv, h))
  }
}
