/**
 * The calculator's ring operators on polynomials: +, unary and binary -, the
 * Cauchy product *, and the scalar + and *. Every operator reduces with C#'s
 * remainder and hands its list to the list constructor, so results are
 * canonical. The semantic statements compare coefficient by coefficient
 * against the exact sums and the exact convolution.
 */
module PolyArith {
  import opened ModArith
  import opened NumberTheory
  import opened Polynomials

  function Min(a: int, b: int): int
  {
    if a < b then a else b
  }

  // ---------------------------------------------------------------------
  // Addition and subtraction
  // ---------------------------------------------------------------------

  /** The list + builds: the overlap added entry by entry mod p, then the longer operand's tail as is. */
  function SumList(a: seq<int>, b: seq<int>, p: int): (c: seq<int>)
    requires p > 0
    ensures |c| == if |a| > |b| then |a| else |b|
  {
    var m := Min(|a|, |b|);
    var zipped := seq(m, i requires 0 <= i < m => CsRem(a[i] + b[i], p));
    if |a| > |b| then zipped + a[|b|..]
    else if |b| > |a| then zipped + b[|a|..]
    else zipped
  }

  /** operator +: reduces with the base prime of its left operand. */
  function Plus(f: Polynomial, g: Polynomial): Polynomial
    requires f.p > 0
  {
    Make(SumList(f.coeffs, g.coeffs, f.p), f.p)
  }

  /** Where both lists have an entry the sum is reduced; beyond the shorter one the other's entry is copied. */
  lemma PlusCoef(f: Polynomial, g: Polynomial, i: int)
    requires f.p > 0 && i >= 0
    ensures Coef(Plus(f, g), i) ==
      if i < |f.coeffs| && i < |g.coeffs| then CsRem(f.coeffs[i] + g.coeffs[i], f.p)
      else Coef(f, i) + Coef(g, i)
  {
    TrimKeepsCoefficients(SumList(f.coeffs, g.coeffs, f.p), f.p, i);
  }

  /** On reduced operands, + is coefficient-wise addition in Z/pZ. */
  lemma PlusCoefReduced(f: Polynomial, g: Polynomial, i: int)
    requires f.p > 0 && InRange(f.coeffs, f.p) && InRange(g.coeffs, f.p) && i >= 0
    ensures Coef(Plus(f, g), i) == (Coef(f, i) + Coef(g, i)) % f.p
  {
    PlusCoef(f, g, i);
    if !(i < |f.coeffs| && i < |g.coeffs|) {
      ModSmall(Coef(f, i) + Coef(g, i), f.p);
    }
  }

  /** Every coefficient of a reduced sum is a residue, so F_p[x] is closed under +. */
  lemma PlusInFp(f: Polynomial, g: Polynomial)
    requires InFp(f) && InRange(g.coeffs, f.p)
    ensures InFp(Plus(f, g)) && Plus(f, g).p == f.p
  {
    var r := Plus(f, g);
    forall i | 0 <= i < |r.coeffs| ensures 0 <= r.coeffs[i] < r.p {
      PlusCoefReduced(f, g, i);
      assert Coef(r, i) == r.coeffs[i];
    }
  }

  /** Over one base prime, + is commutative. */
  lemma PlusCommutative(f: Polynomial, g: Polynomial)
    requires f.p > 0 && g.p == f.p
    ensures Plus(f, g) == Plus(g, f)
  {
    var a, b := SumList(f.coeffs, g.coeffs, f.p), SumList(g.coeffs, f.coeffs, f.p);
    assert |a| == |b|;
    forall i | 0 <= i < |a| ensures a[i] == b[i] {
      if i < Min(|f.coeffs|, |g.coeffs|) {
        assert f.coeffs[i] + g.coeffs[i] == g.coeffs[i] + f.coeffs[i];
      }
    }
    assert a == b;
  }

  /** The zero polynomial is neutral for + on reduced polynomials. */
  lemma PlusZero(f: Polynomial)
    requires InFp(f)
    ensures Plus(f, Zero(f.p)) == f
  {
    forall i | 0 <= i ensures Coef(Plus(f, Zero(f.p)), i) == Coef(f, i) {
      PlusCoefReduced(f, Zero(f.p), i);
      ModSmall(Coef(f, i), f.p);
    }
    CoefExtensionality(Plus(f, Zero(f.p)), f);
  }

  /** Unary operator -: each coefficient c becomes p - c, without reduction. */
  function Neg(f: Polynomial): Polynomial
  {
    Make(seq(|f.coeffs|, i requires 0 <= i < |f.coeffs| => -1 * f.coeffs[i] + f.p), f.p)
  }

  lemma NegCoef(f: Polynomial, i: int)
    ensures Coef(Neg(f), i) == if 0 <= i < |f.coeffs| then f.p - f.coeffs[i] else 0
  {
    TrimKeepsCoefficients(seq(|f.coeffs|, j requires 0 <= j < |f.coeffs| => -1 * f.coeffs[j] + f.p), f.p, i);
  }

  /** Binary operator -: f + (-g). */
  function Minus(f: Polynomial, g: Polynomial): Polynomial
    requires f.p > 0
  {
    Plus(f, Neg(g))
  }

  /** The negation of the zero polynomial is the constant p, of degree 0, not the zero polynomial. */
  lemma NegOfZeroIsNotZero(p: int)
    requires p > 0
    ensures Neg(Zero(p)) == Poly([p], p)
    ensures Degree(Neg(Zero(p))) == 0 && Neg(Zero(p)) != Zero(p)
  {
    assert seq(1, i requires 0 <= i < 1 => -1 * [0][i] + p) == [p];
  }

  /** In GF(3), 1 - x^2 keeps the residue 3 as the coefficient of x: the list is [1, 3, 2]. */
  lemma MinusLeavesResidueP()
    ensures Minus(One(3), Poly([0, 0, 1], 3)) == Poly([1, 3, 2], 3)
    ensures !InRange(Minus(One(3), Poly([0, 0, 1], 3)).coeffs, 3)
  {
    var g := Poly([0, 0, 1], 3);
    assert seq(3, i requires 0 <= i < 3 => -1 * g.coeffs[i] + 3) == [3, 3, 2];
    assert Neg(g) == Poly([3, 3, 2], 3);
    assert SumList([1], [3, 3, 2], 3) == [1, 3, 2];
    assert [1, 3, 2][1] == 3;
  }

  /** Negation with each entry reduced: the additive inverse in Z/pZ. */
  function NegReduced(f: Polynomial): Polynomial
    requires f.p > 0
  {
    Make(seq(|f.coeffs|, i requires 0 <= i < |f.coeffs| => CsRem(-1 * f.coeffs[i] + f.p, f.p)), f.p)
  }

  lemma NegReducedCoef(f: Polynomial, i: int)
    requires f.p > 0 && InRange(f.coeffs, f.p) && i >= 0
    ensures Coef(NegReduced(f), i) == (f.p - Coef(f, i)) % f.p
  {
    var c := seq(|f.coeffs|, j requires 0 <= j < |f.coeffs| => CsRem(-1 * f.coeffs[j] + f.p, f.p));
    TrimKeepsCoefficients(c, f.p, i);
    if i >= |f.coeffs| {
      ModOfMultiple(f.p, 1);
    }
  }

  /** Subtraction with the reduced negation. */
  function MinusReduced(f: Polynomial, g: Polynomial): Polynomial
    requires f.p > 0 && g.p > 0
  {
    Plus(f, NegReduced(g))
  }

  /** On reduced operands, MinusReduced is coefficient-wise subtraction in Z/pZ and stays reduced. */
  lemma MinusReducedCoef(f: Polynomial, g: Polynomial, i: int)
    requires f.p > 0 && g.p == f.p && InRange(f.coeffs, f.p) && InRange(g.coeffs, f.p) && i >= 0
    ensures Coef(MinusReduced(f, g), i) == (Coef(f, i) - Coef(g, i)) % f.p
  {
    var p := f.p;
    var n := NegReduced(g);
    forall j | 0 <= j < |n.coeffs| ensures 0 <= n.coeffs[j] < p {
      NegReducedCoef(g, j);
      assert Coef(n, j) == n.coeffs[j];
    }
    PlusCoefReduced(f, n, i);
    NegReducedCoef(g, i);
    ModAdd(Coef(f, i), p - Coef(g, i), p);
    ModSmall(Coef(f, i), p);
    ModIdempotent(p - Coef(g, i), p);
    ModAdd(Coef(f, i), p - Coef(g, i), p);
    ModAddMultiple(Coef(f, i) - Coef(g, i), p, 1);
  }

  lemma MinusReducedInFp(f: Polynomial, g: Polynomial)
    requires InFp(f) && g.p == f.p && InRange(g.coeffs, f.p)
    ensures InFp(MinusReduced(f, g)) && MinusReduced(f, g).p == f.p
  {
    var r := MinusReduced(f, g);
    forall i | 0 <= i < |r.coeffs| ensures 0 <= r.coeffs[i] < r.p {
      MinusReducedCoef(f, g, i);
      assert Coef(r, i) == r.coeffs[i];
    }
  }

  /** The intended law: (f - g) + g == f. */
  lemma MinusReducedThenPlus(f: Polynomial, g: Polynomial)
    requires InFp(f) && g.p == f.p && InRange(g.coeffs, f.p)
    ensures Plus(MinusReduced(f, g), g) == f
  {
    var p := f.p;
    var d := MinusReduced(f, g);
    MinusReducedInFp(f, g);
    forall i | 0 <= i ensures Coef(Plus(d, g), i) == Coef(f, i) {
      MinusReducedThenPlusAt(f, g, i);
    }
    CoefExtensionality(Plus(d, g), f);
  }

  lemma MinusReducedThenPlusAt(f: Polynomial, g: Polynomial, i: int)
    requires InFp(f) && g.p == f.p && InRange(g.coeffs, f.p) && i >= 0
    ensures Coef(Plus(MinusReduced(f, g), g), i) == Coef(f, i)
  {
    var d := MinusReduced(f, g);
    MinusReducedInFp(f, g);
    PlusCoefReduced(d, g, i);
    MinusReducedCoef(f, g, i);
    ModAbsorbInto(Coef(Plus(d, g), i), Coef(d, i), Coef(f, i) - Coef(g, i), Coef(g, i), f.p);
    CoefInRange(f, i);
    ModSmall(Coef(f, i), f.p);
  }

  /**
   * When g is no longer than f, every entry of -g meets an entry of f inside the
   * reduced overlap, so the written subtraction and the reduced one agree.
   */
  lemma MinusAgreesWhenNotLonger(f: Polynomial, g: Polynomial)
    requires f.p > 0 && g.p == f.p && InRange(f.coeffs, f.p) && InRange(g.coeffs, f.p)
    requires |g.coeffs| <= |f.coeffs|
    ensures Minus(f, g) == MinusReduced(f, g)
  {
    var p := f.p;
    forall i | 0 <= i ensures Coef(Minus(f, g), i) == Coef(MinusReduced(f, g), i) {
      MinusReducedCoef(f, g, i);
      PlusCoef(f, Neg(g), i);
      NegCoef(g, i);
      if i < |g.coeffs| {
        assert |Neg(g).coeffs| == |g.coeffs| by {
          NegCoef(g, |g.coeffs| - 1);
          NegLength(g);
        }
        CsRemCongruent(f.coeffs[i] + (p - g.coeffs[i]), p);
        ModAddMultiple(f.coeffs[i] - g.coeffs[i], p, 1);
      } else {
        NegLength(g);
        ModSmall(Coef(f, i), p);
      }
    }
    CoefExtensionality(Minus(f, g), MinusReduced(f, g));
  }

  /** Negating a reduced polynomial keeps its length: the leading entry p - c is nonzero. */
  lemma NegLength(g: Polynomial)
    requires g.p > 0 && InRange(g.coeffs, g.p)
    ensures |Neg(g).coeffs| == |g.coeffs|
  {
    var c := seq(|g.coeffs|, i requires 0 <= i < |g.coeffs| => -1 * g.coeffs[i] + g.p);
    assert c[|c| - 1] != 0;
  }

  // ---------------------------------------------------------------------
  // Multiplication
  // ---------------------------------------------------------------------

  /** The Cauchy loop's running total: terms i < n of (f_i * g_(k-i)) % p, each reduced as it is added. */
  function CauchySum(f: Poly, g: Poly, k: int, n: nat): int
    requires f.p > 0
  {
    if n == 0 then 0
    else CauchySum(f, g, k, n - 1) + CsRem(Coef(f, n - 1) * Coef(g, k - (n - 1)), f.p)
  }

  /** GetProductCoeff(f, g, k): the running total over i = 0..k, reduced once more. */
  function ProductCoeff(f: Poly, g: Poly, k: nat): int
    requires f.p > 0
  {
    CsRem(CauchySum(f, g, k, k + 1), f.p)
  }

  /** The loop bound deg f + deg g + 1, or no entries at all when it is not positive. */
  function ProductLength(f: Polynomial, g: Polynomial): nat
  {
    if Degree(f) + Degree(g) + 1 > 0 then Degree(f) + Degree(g) + 1 else 0
  }

  /** operator *: the entries k < deg f + deg g + 1 of the Cauchy product, then the list constructor. */
  function Product(f: Polynomial, g: Polynomial): Polynomial
    requires f.p > 0
  {
    Make(seq(ProductLength(f, g), k requires 0 <= k => ProductCoeff(f, g, k)), f.p)
  }

  /** The exact convolution: terms i < n of f_i * g_(k-i). */
  function Conv(f: Poly, g: Poly, k: int, n: nat): int
  {
    if n == 0 then 0 else Conv(f, g, k, n - 1) + Coef(f, n - 1) * Coef(g, k - (n - 1))
  }

  /** Reducing each term as the loop does leaves the total congruent to the exact convolution. */
  lemma {:induction false} CauchySumCongruent(f: Poly, g: Poly, k: int, n: nat)
    requires f.p > 0
    ensures CauchySum(f, g, k, n) % f.p == Conv(f, g, k, n) % f.p
  {
    if n > 0 {
      var t := Coef(f, n - 1) * Coef(g, k - (n - 1));
      CauchySumCongruent(f, g, k, n - 1);
      CsRemCongruent(t, f.p);
      CongAdd(CauchySum(f, g, k, n - 1), Conv(f, g, k, n - 1), CsRem(t, f.p), t, f.p);
    }
  }

  /** On reduced operands every term is non-negative, so is the running total. */
  lemma {:induction false} CauchySumNonNegative(f: Poly, g: Poly, k: int, n: nat)
    requires f.p > 0 && InRange(f.coeffs, f.p) && InRange(g.coeffs, f.p)
    ensures CauchySum(f, g, k, n) >= 0
  {
    if n > 0 {
      CauchySumNonNegative(f, g, k, n - 1);
      MulNonNegative(Coef(f, n - 1), Coef(g, k - (n - 1)));
    }
  }

  /** Above deg f + deg g every term of the convolution has a zero factor. */
  lemma {:induction false} ConvAboveDegrees(f: Polynomial, g: Polynomial, k: int, n: nat)
    requires k > Degree(f) + Degree(g)
    ensures Conv(f, g, k, n) == 0
  {
    if n > 0 {
      ConvAboveDegrees(f, g, k, n - 1);
      var i := n - 1;
      if i > Degree(f) {
        assert Coef(f, i) == 0;
      } else {
        assert Coef(g, k - i) == 0;
      }
    }
  }

  /** Coefficient k of f * g: the loop's total below the product length, zero from there on. */
  lemma ProductCoef(f: Polynomial, g: Polynomial, k: int)
    requires f.p > 0 && k >= 0
    ensures k < ProductLength(f, g) ==> Coef(Product(f, g), k) == ProductCoeff(f, g, k)
    ensures k >= ProductLength(f, g) ==> Coef(Product(f, g), k) == 0
  {
    var c := seq(ProductLength(f, g), j requires 0 <= j => ProductCoeff(f, g, j));
    TrimKeepsCoefficients(c, f.p, k);
  }

  /** The total over all k + 1 terms: congruent to the convolution, and non-negative on reduced operands. */
  lemma CauchySumAt(f: Polynomial, g: Polynomial, k: int)
    requires f.p > 0 && k >= 0
    ensures CauchySum(f, g, k, k + 1) % f.p == Conv(f, g, k, k + 1) % f.p
    ensures InRange(f.coeffs, f.p) && InRange(g.coeffs, f.p) ==> CauchySum(f, g, k, k + 1) >= 0
    ensures k > Degree(f) + Degree(g) ==> Conv(f, g, k, k + 1) == 0
  {
    CauchySumCongruent(f, g, k, k + 1);
    if InRange(f.coeffs, f.p) && InRange(g.coeffs, f.p) {
      CauchySumNonNegative(f, g, k, k + 1);
    }
    if k > Degree(f) + Degree(g) {
      ConvAboveDegrees(f, g, k, k + 1);
    }
  }

  /** Coefficient k of f * g is the convolution at k reduced mod p, up to congruence. */
  lemma ProductCoefCongruent(f: Polynomial, g: Polynomial, k: int)
    requires f.p > 0 && k >= 0
    ensures Coef(Product(f, g), k) % f.p == Conv(f, g, k, k + 1) % f.p
  {
    ProductCoef(f, g, k);
    CauchySumAt(f, g, k);
    if k < ProductLength(f, g) {
      CsRemCongruent(CauchySum(f, g, k, k + 1), f.p);
    }
  }

  /** On reduced operands, coefficient k of f * g is exactly the convolution at k mod p. */
  lemma ProductCoefReduced(f: Polynomial, g: Polynomial, k: int)
    requires f.p > 0 && InRange(f.coeffs, f.p) && InRange(g.coeffs, f.p) && k >= 0
    ensures Coef(Product(f, g), k) == Conv(f, g, k, k + 1) % f.p
  {
    if k < ProductLength(f, g) {
      ProductCoef(f, g, k);
      CauchySumAt(f, g, k);
      ReducedTotal(Coef(Product(f, g), k), CauchySum(f, g, k, k + 1), Conv(f, g, k, k + 1), f.p);
    } else {
      ProductCoefAbove(f, g, k);
    }
  }

  /** From the product length on, both the coefficient and the convolution vanish. */
  lemma ProductCoefAbove(f: Polynomial, g: Polynomial, k: int)
    requires f.p > 0 && k >= ProductLength(f, g)
    ensures Coef(Product(f, g), k) == 0 && Conv(f, g, k, k + 1) == 0
  {
    ProductCoef(f, g, k);
    ConvAboveDegrees(f, g, k, k + 1);
  }

  /** A non-negative total congruent to conv, reduced by C#'s %, is conv mod p. */
  lemma ReducedTotal(coef: int, total: int, conv: int, p: int)
    requires p > 0 && total >= 0 && coef == CsRem(total, p) && total % p == conv % p
    ensures coef == conv % p
  {
  }

  lemma ProductInFp(f: Polynomial, g: Polynomial)
    requires InFp(f) && InRange(g.coeffs, f.p)
    ensures InFp(Product(f, g)) && Product(f, g).p == f.p
  {
    var r := Product(f, g);
    forall i | 0 <= i < |r.coeffs| ensures 0 <= r.coeffs[i] < r.p {
      ProductCoefReduced(f, g, i);
      assert Coef(r, i) == r.coeffs[i];
    }
  }

  lemma {:induction false} ConvOfZero(g: Polynomial, p: int, k: int, n: nat)
    ensures Conv(Zero(p), g, k, n) == 0
  {
    if n > 0 {
      ConvOfZero(g, p, k, n - 1);
    }
  }

  /** A product with the zero polynomial is the zero polynomial. */
  lemma ProductWithZero(g: Polynomial, p: int)
    requires p > 0 && InRange(g.coeffs, p)
    ensures Product(Zero(p), g) == Zero(p)
  {
    forall k | 0 <= k ensures Coef(Product(Zero(p), g), k) == Coef(Zero(p), k) {
      ProductCoefReduced(Zero(p), g, k);
      ConvOfZero(g, p, k, k + 1);
    }
    CoefExtensionality(Product(Zero(p), g), Zero(p));
  }

  /** The local helper GetProductCoeff: the inner accumulating loop. */
  method GetProductCoeff(f: Polynomial, g: Polynomial, k: nat) returns (c: int)
    requires f.p > 0
    ensures c == ProductCoeff(f, g, k)
  {
    var cauchySum := 0;
    var p := f.p;
    var i := 0;
    while i <= k
      invariant 0 <= i <= k + 1
      invariant cauchySum == CauchySum(f, g, k, i)
    {
      var op1 := if i >= |f.coeffs| then 0 else f.coeffs[i];
      var op2 := if k - i >= |g.coeffs| then 0 else g.coeffs[k - i];
      cauchySum := cauchySum + CsRem(op1 * op2, p);
      i := i + 1;
    }
    c := CsRem(cauchySum, p);
  }

  /** operator *: fills the coefficient list entry by entry, then calls the list constructor. */
  method Times(f: Polynomial, g: Polynomial) returns (r: Polynomial)
    requires f.p > 0
    ensures r == Product(f, g)
  {
    var coeffs: seq<int> := [];
    var k := 0;
    while k < Degree(f) + Degree(g) + 1
      invariant 0 <= k <= ProductLength(f, g)
      invariant coeffs == seq(k, j requires 0 <= j => ProductCoeff(f, g, j))
    {
      var c := GetProductCoeff(f, g, k);
      coeffs := coeffs + [c];
      k := k + 1;
    }
    r := FromList(coeffs, f.p);
  }

  // ---------------------------------------------------------------------
  // Scalar operators
  // ---------------------------------------------------------------------

  /** The scalar operators' normalisation: add p while negative, then take % p. */
  method NormalizeScalar(a: int, p: int) returns (r: int)
    requires p > 0
    ensures r == a % p && 0 <= r < p
  {
    r := a;
    while r < 0
      invariant r % p == a % p
      decreases -r
    {
      ModAddMultiple(r, p, 1);
      r := r + p;
    }
    r := r % p;
    ModIdempotent(a, p);
  }

  /** operator +(Polynomial, int): adds the scalar to the constant coefficient. */
  method PlusScalar(f: Polynomial, a: int) returns (r: Polynomial)
    requires f.p > 0
    ensures r.p == f.p
    ensures forall i :: i != 0 ==> Coef(r, i) == Coef(f, i)
    ensures InRange(f.coeffs, f.p) ==> Coef(r, 0) == (f.coeffs[0] + a) % f.p
  {
    var b := NormalizeScalar(a, f.p);
    var l := [CsRem(f.coeffs[0] + b, f.p)] + f.coeffs[1..];
    r := FromList(l, f.p);
    forall i ensures Coef(r, i) == Coef(Poly(l, f.p), i) {
      TrimKeepsCoefficients(l, f.p, i);
    }
    if InRange(f.coeffs, f.p) {
      ModAdd(f.coeffs[0], a, f.p);
      ModSmall(f.coeffs[0], f.p);
      ModAdd(f.coeffs[0], b, f.p);
    }
  }

  /** operator *(int, Polynomial): multiplies every coefficient by the scalar mod p. */
  method TimesScalar(a: int, f: Polynomial) returns (r: Polynomial)
    requires f.p > 0
    ensures r.p == f.p
    ensures forall i :: 0 <= i ==> Coef(r, i) % f.p == (a * Coef(f, i)) % f.p
    ensures InRange(f.coeffs, f.p) ==> InRange(r.coeffs, f.p)
  {
    var p := f.p;
    var b := NormalizeScalar(a, p);
    var l := seq(|f.coeffs|, i requires 0 <= i < |f.coeffs| => CsRem(f.coeffs[i] * b, p));
    r := FromList(l, p);
    forall i | 0 <= i ensures Coef(r, i) % p == (a * Coef(f, i)) % p {
      TrimKeepsCoefficients(l, p, i);
      if i < |f.coeffs| {
        CsRemCongruent(f.coeffs[i] * b, p);
        CongMul(b, a, f.coeffs[i], p) by { ModIdempotent(a, p); }
        assert f.coeffs[i] * b == b * f.coeffs[i];
        assert a * f.coeffs[i] == a * Coef(f, i);
      } else {
        ModOfMultiple(p, 0);
      }
    }
    if InRange(f.coeffs, p) {
      forall i | 0 <= i < |r.coeffs| ensures 0 <= r.coeffs[i] < p {
        TrimKeepsCoefficients(l, p, i);
        assert Coef(r, i) == r.coeffs[i];
        MulNonNegative(f.coeffs[i], b);
      }
    }
  }
}
