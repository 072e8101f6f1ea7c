/**
 * The ring laws of reduced polynomials over Z/pZ that the calculator relies on
 * without stating them: + is associative, * is commutative, associative and
 * distributes over +, the one polynomial is neutral, and reducing a factor
 * modulo h before multiplying does not change the product modulo h. From these,
 * Multiply(f, g, h) is a commutative and associative product on residues mod h,
 * and the exact power f^n is defined for the exponentiation to be checked against.
 */
module PolyRing {
  import opened Wrappers
  import opened ModArith
  import opened NumberTheory
  import opened Sums
  import opened Polynomials
  import opened PolyArith
  import opened PolyDivision

  // ---------------------------------------------------------------------
  // The convolution as a sum
  // ---------------------------------------------------------------------

  /** Term i of the convolution at k: f_i * g_(k-i). */
  function ConvTerm(f: Poly, g: Poly, k: int): int -> int
  {
    i => Coef(f, i) * Coef(g, k - i)
  }

  lemma {:induction false} ConvIsSum(f: Poly, g: Poly, k: int, n: nat)
    ensures Conv(f, g, k, n) == Sum(0, n, ConvTerm(f, g, k))
  {
    if n > 0 {
      ConvIsSum(f, g, k, n - 1);
    }
  }

  /** The convolution at k reads the same from either factor. */
  lemma {:induction false} ConvSymmetric(f: Poly, g: Poly, k: nat)
    ensures Conv(f, g, k, k + 1) == Conv(g, f, k, k + 1)
  {
    ConvIsSum(f, g, k, k + 1);
    ConvIsSum(g, f, k, k + 1);
    SumReflect(0, k + 1, ConvTerm(f, g, k), ConvTerm(g, f, k));
  }

  // ---------------------------------------------------------------------
  // + and *
  // ---------------------------------------------------------------------

  /** Over one base prime, + is associative on reduced polynomials. */
  lemma {:induction false} PlusAssociative(a: Polynomial, b: Polynomial, c: Polynomial)
    requires InFp(a) && InFp(b) && InFp(c) && b.p == a.p && c.p == a.p
    ensures Plus(Plus(a, b), c) == Plus(a, Plus(b, c))
  {
    forall k | 0 <= k ensures Coef(Plus(Plus(a, b), c), k) == Coef(Plus(a, Plus(b, c)), k) {
      PlusAssociativeAt(a, b, c, k);
    }
    CoefExtensionality(Plus(Plus(a, b), c), Plus(a, Plus(b, c)));
  }

  lemma PlusAssociativeAt(a: Polynomial, b: Polynomial, c: Polynomial, k: int)
    requires InFp(a) && InFp(b) && InFp(c) && b.p == a.p && c.p == a.p && k >= 0
    ensures Coef(Plus(Plus(a, b), c), k) == Coef(Plus(a, Plus(b, c)), k)
  {
    var p, x, y, z := a.p, Coef(a, k), Coef(b, k), Coef(c, k);
    PlusTwiceCoef(a, b, c, k);
    PlusCommutative(a, Plus(b, c));
    PlusInFp(b, c);
    PlusTwiceCoef(b, c, a, k);
    ModSumAssociative(x, y, z, p);
  }

  /** Coefficient k of (a + b) + c is the two-step sum of residues. */
  lemma PlusTwiceCoef(a: Polynomial, b: Polynomial, c: Polynomial, k: int)
    requires InFp(a) && InRange(b.coeffs, a.p) && InRange(c.coeffs, a.p) && k >= 0
    ensures Coef(Plus(Plus(a, b), c), k) == ((Coef(a, k) + Coef(b, k)) % a.p + Coef(c, k)) % a.p
  {
    PlusInFp(a, b);
    PlusCoefReduced(Plus(a, b), c, k);
    PlusCoefReduced(a, b, k);
  }

  /** Over one base prime, * is commutative on reduced polynomials. */
  lemma {:induction false} ProductCommutative(f: Polynomial, g: Polynomial)
    requires InFp(f) && InFp(g) && g.p == f.p
    ensures Product(f, g) == Product(g, f)
  {
    forall k | 0 <= k ensures Coef(Product(f, g), k) == Coef(Product(g, f), k) {
      ProductCoefReduced(f, g, k);
      ProductCoefReduced(g, f, k);
      ConvSymmetric(f, g, k);
    }
    CoefExtensionality(Product(f, g), Product(g, f));
  }

  /** The one polynomial is neutral for * on reduced polynomials. */
  lemma {:induction false} ProductOne(f: Polynomial)
    requires InFp(f)
    ensures Product(One(f.p), f) == f && Product(f, One(f.p)) == f
  {
    var p := f.p;
    forall k | 0 <= k ensures Coef(Product(One(p), f), k) == Coef(f, k) {
      ProductCoefReduced(One(p), f, k);
      ConvWithOne(f, k, k + 1);
      CoefInRange(f, k);
      ModSmall(Coef(f, k), p);
    }
    CoefExtensionality(Product(One(p), f), f);
    ProductCommutative(f, One(p));
  }

  lemma {:induction false} ConvWithOne(f: Poly, k: int, n: nat)
    requires n >= 1
    ensures Conv(One(f.p), f, k, n) == Coef(f, k)
  {
    if n > 1 {
      ConvWithOne(f, k, n - 1);
    }
  }

  /** * distributes over + on reduced polynomials. */
  lemma {:induction false} ProductDistributes(a: Polynomial, b: Polynomial, c: Polynomial)
    requires InFp(a) && InFp(b) && InFp(c) && b.p == a.p && c.p == a.p
    ensures Product(Plus(a, b), c) == Plus(Product(a, c), Product(b, c))
  {
    var p := a.p;
    PlusInFp(a, b);
    ProductInFp(a, c);
    ProductInFp(b, c);
    forall k | 0 <= k ensures Coef(Product(Plus(a, b), c), k) == Coef(Plus(Product(a, c), Product(b, c)), k) {
      DistributesAt(a, b, c, k);
    }
    CoefExtensionality(Product(Plus(a, b), c), Plus(Product(a, c), Product(b, c)));
  }

  lemma {:induction false} DistTermAt(a: Polynomial, b: Polynomial, c: Polynomial, k: int, i: nat)
    requires InFp(a) && InFp(b) && InFp(c) && b.p == a.p && c.p == a.p
    ensures ConvTerm(Plus(a, b), c, k)(i) % a.p == AddTerms(ConvTerm(a, c, k), ConvTerm(b, c, k))(i) % a.p
  {
    var p := a.p;
    var x, y := Coef(a, i) + Coef(b, i), Coef(c, k - i);
    PlusCoefReduced(a, b, i);
    assert ConvTerm(Plus(a, b), c, k)(i) == (x % p) * y;
    assert AddTerms(ConvTerm(a, c, k), ConvTerm(b, c, k))(i) == Coef(a, i) * y + Coef(b, i) * y;
    MulDistributes(Coef(a, i), Coef(b, i), y);
    ModIdempotent(x, p);
    CongMul(x % p, x, y, p);
  }

  lemma {:induction false} DistributesAt(a: Polynomial, b: Polynomial, c: Polynomial, k: nat)
    requires InFp(a) && InFp(b) && InFp(c) && b.p == a.p && c.p == a.p
    ensures Coef(Product(Plus(a, b), c), k) == Coef(Plus(Product(a, c), Product(b, c)), k)
  {
    var p := a.p;
    var s := Plus(a, b);
    var u, v := Conv(a, c, k, k + 1), Conv(b, c, k, k + 1);
    PlusInFp(a, b);
    ConvOfSum(a, b, c, k);
    assert Coef(Product(s, c), k) == Conv(s, c, k, k + 1) % p by {
      ProductCoefReduced(s, c, k);
    }
    SumOfProductsCoef(a, b, c, k);
    ModAdd(u, v, p);
  }

  /** Coefficient k of a * c + b * c is the reduced sum of the two reduced convolutions. */
  lemma SumOfProductsCoef(a: Polynomial, b: Polynomial, c: Polynomial, k: nat)
    requires InFp(a) && InFp(b) && InFp(c) && b.p == a.p && c.p == a.p
    ensures Coef(Plus(Product(a, c), Product(b, c)), k) ==
      (Conv(a, c, k, k + 1) % a.p + Conv(b, c, k, k + 1) % a.p) % a.p
  {
    ProductInFp(a, c);
    ProductInFp(b, c);
    ProductCoefReduced(a, c, k);
    ProductCoefReduced(b, c, k);
    PlusCoefReduced(Product(a, c), Product(b, c), k);
  }

  /** The exact convolution with a + b is, mod p, the sum of the two convolutions. */
  lemma ConvOfSum(a: Polynomial, b: Polynomial, c: Polynomial, k: nat)
    requires InFp(a) && InFp(b) && InFp(c) && b.p == a.p && c.p == a.p
    ensures Conv(Plus(a, b), c, k, k + 1) % a.p == (Conv(a, c, k, k + 1) + Conv(b, c, k, k + 1)) % a.p
  {
    ConvOfSumUpTo(a, b, c, k, k + 1);
  }

  /** The same for the first n terms of the convolutions. */
  lemma {:induction false} ConvOfSumUpTo(a: Polynomial, b: Polynomial, c: Polynomial, k: nat, n: nat)
    requires InFp(a) && InFp(b) && InFp(c) && b.p == a.p && c.p == a.p
    ensures Conv(Plus(a, b), c, k, n) % a.p == (Conv(a, c, k, n) + Conv(b, c, k, n)) % a.p
  {
    var p := a.p;
    var s := Plus(a, b);
    var lhs := ConvTerm(s, c, k);
    var both := AddTerms(ConvTerm(a, c, k), ConvTerm(b, c, k));
    forall i | 0 <= i < n ensures lhs(i) % p == both(i) % p {
      DistTermAt(a, b, c, k, i);
    }
    SumCongruent(0, n, p, both, lhs);
    SumAdd(0, n, ConvTerm(a, c, k), ConvTerm(b, c, k), both);
    ConvIsSum(s, c, k, n);
    ConvIsSum(a, c, k, n);
    ConvIsSum(b, c, k, n);
  }

  lemma MulDistributes(a: int, b: int, c: int)
    ensures (a + b) * c == a * c + b * c
  {
  }

  /** The triple products f_j * g_(i-j) * h_(k-i) whose sum is coefficient k of f * g * h. */
  function AssocTerm(f: Poly, g: Poly, h: Poly, k: int): (int, int) -> int
  {
    (i, j) => Coef(f, j) * Coef(g, i - j) * Coef(h, k - i)
  }

  lemma {:induction false} RowTermAt(f: Poly, g: Poly, h: Poly, k: int, i: int, j: int)
    ensures RowOf(AssocTerm(f, g, h, k), i)(j) == Coef(h, k - i) * ConvTerm(f, g, i)(j)
  {
    var a, b, d := Coef(f, j), Coef(g, i - j), Coef(h, k - i);
    assert RowOf(AssocTerm(f, g, h, k), i)(j) == a * b * d;
    assert ConvTerm(f, g, i)(j) == a * b;
    MulRotate(a, b, d);
  }

  /** Row i of the triangle sums to h_(k-i) times the exact convolution of f and g at i. */
  lemma {:induction false} RowSumAt(f: Poly, g: Poly, h: Poly, k: int, i: nat)
    ensures RowSums(AssocTerm(f, g, h, k))(i) == Coef(h, k - i) * Conv(f, g, i, i + 1)
  {
    var X := AssocTerm(f, g, h, k);
    forall j | 0 <= j < i + 1 ensures RowOf(X, i)(j) == Coef(h, k - i) * ConvTerm(f, g, i)(j) {
      RowTermAt(f, g, h, k, i, j);
    }
    SumScale(0, i + 1, Coef(h, k - i), ConvTerm(f, g, i), RowOf(X, i));
    ConvIsSum(f, g, i, i + 1);
  }

  lemma {:induction false} ColTermAt(f: Poly, g: Poly, h: Poly, k: int, j: int, m: int, l: int)
    requires m == k - j
    ensures Shifted(ColOf(AssocTerm(f, g, h, k), j), j)(l) == Coef(f, j) * ConvTerm(g, h, m)(l)
  {
    var a, b, d := Coef(f, j), Coef(g, l), Coef(h, k - j - l);
    assert Shifted(ColOf(AssocTerm(f, g, h, k), j), j)(l) == a * b * d;
    assert ConvTerm(g, h, m)(l) == b * d;
    MulRegroup(a, b, d);
  }

  /** Column j of the triangle sums to f_j times the exact convolution of g and h at k - j. */
  lemma ColSumAt(f: Poly, g: Poly, h: Poly, k: int, j: int)
    requires 0 <= j <= k
    ensures ColSums(AssocTerm(f, g, h, k), k + 1)(j) == Coef(f, j) * Conv(g, h, k - j, k - j + 1)
  {
    ColSumBetween(f, g, h, k, j, k - j, k - j + 1, k + 1);
  }

  /** The same, with the column's length n = m + 1 and its end top = k + 1 named. */
  lemma {:induction false} ColSumBetween(f: Poly, g: Poly, h: Poly, k: int, j: int, m: int, n: nat, top: int)
    requires 0 <= j && m == k - j && n == m + 1 && top == n + j
    ensures Sum(j, top, ColOf(AssocTerm(f, g, h, k), j)) == Coef(f, j) * Conv(g, h, m, n)
  {
    var X := AssocTerm(f, g, h, k);
    var col := Shifted(ColOf(X, j), j);
    var a, t := Coef(f, j), ConvTerm(g, h, m);
    forall l | 0 <= l < n ensures col(l) == a * t(l) {
      ColTermAt(f, g, h, k, j, m, l);
    }
    SumScale(0, n, a, t, col);
    SumOfShifted(0, n, j, j, top, ColOf(X, j));
    ConvIsSum(g, h, m, n);
  }

  /** Term i of (f * g) * h at k is, mod p, row i of the triangle. */
  lemma {:induction false} AssocLeftTerm(f: Polynomial, g: Polynomial, h: Polynomial, k: int, i: nat)
    requires InFp(f) && InFp(g) && InFp(h) && g.p == f.p && h.p == f.p
    ensures ConvTerm(Product(f, g), h, k)(i) % f.p == RowSums(AssocTerm(f, g, h, k))(i) % f.p
  {
    var p := f.p;
    var c := Conv(f, g, i, i + 1);
    var d := Coef(h, k - i);
    ProductCoefReduced(f, g, i);
    assert ConvTerm(Product(f, g), h, k)(i) == (c % p) * d;
    RowSumAt(f, g, h, k, i);
    ModIdempotent(c, p);
    CongMul(c % p, c, d, p);
    MulCommutes(d, c);
  }

  /** Term j of f * (g * h) at k is, mod p, column j of the triangle. */
  lemma {:induction false} AssocRightTerm(f: Polynomial, g: Polynomial, h: Polynomial, k: int, j: nat)
    requires InFp(f) && InFp(g) && InFp(h) && g.p == f.p && h.p == f.p
    requires j <= k
    ensures ConvTerm(f, Product(g, h), k)(j) % f.p == ColSums(AssocTerm(f, g, h, k), k + 1)(j) % f.p
  {
    var p := f.p;
    var c := Conv(g, h, k - j, k - j + 1);
    var a := Coef(f, j);
    ProductCoefReduced(g, h, k - j);
    assert ConvTerm(f, Product(g, h), k)(j) == a * (c % p);
    ColSumAt(f, g, h, k, j);
    ModIdempotent(c, p);
    CongMul(c % p, c, a, p);
    MulCommutes(a, c % p);
    MulCommutes(a, c);
  }

  lemma MulRotate(a: int, b: int, c: int)
    ensures a * b * c == c * (a * b)
  {
  }

  lemma MulCommutes(a: int, b: int)
    ensures a * b == b * a
  {
  }

  lemma MulRegroup(a: int, b: int, c: int)
    ensures a * b * c == a * (b * c)
  {
  }

  /** Both bracketings of f * g * h have, at k, exact convolutions congruent to the triangle's total. */
  lemma {:induction false} AssocSums(f: Polynomial, g: Polynomial, h: Polynomial, k: nat)
    requires InFp(f) && InFp(g) && InFp(h) && g.p == f.p && h.p == f.p
    ensures Conv(Product(f, g), h, k, k + 1) % f.p == Conv(f, Product(g, h), k, k + 1) % f.p
  {
    var p := f.p;
    var X := AssocTerm(f, g, h, k);
    forall i | 0 <= i < k + 1 ensures ConvTerm(Product(f, g), h, k)(i) % p == RowSums(X)(i) % p {
      AssocLeftTerm(f, g, h, k, i);
    }
    forall j | 0 <= j < k + 1 ensures ConvTerm(f, Product(g, h), k)(j) % p == ColSums(X, k + 1)(j) % p {
      AssocRightTerm(f, g, h, k, j);
    }
    SumCongruent(0, k + 1, p, RowSums(X), ConvTerm(Product(f, g), h, k));
    SumCongruent(0, k + 1, p, ColSums(X, k + 1), ConvTerm(f, Product(g, h), k));
    SumExchange(X, k + 1);
    ConvIsSum(Product(f, g), h, k, k + 1);
    ConvIsSum(f, Product(g, h), k, k + 1);
  }

  lemma {:induction false} AssociativeAt(f: Polynomial, g: Polynomial, h: Polynomial, k: nat)
    requires InFp(f) && InFp(g) && InFp(h) && g.p == f.p && h.p == f.p
    ensures Coef(Product(Product(f, g), h), k) == Coef(Product(f, Product(g, h)), k)
  {
    ProductInFp(f, g);
    ProductInFp(g, h);
    AssocSums(f, g, h, k);
    ProductCoefReduced(Product(f, g), h, k);
    ProductCoefReduced(f, Product(g, h), k);
  }

  /** Over one base prime, * is associative on reduced polynomials. */
  lemma {:induction false} ProductAssociative(f: Polynomial, g: Polynomial, h: Polynomial)
    requires InFp(f) && InFp(g) && InFp(h) && g.p == f.p && h.p == f.p
    ensures Product(Product(f, g), h) == Product(f, Product(g, h))
  {
    forall k | 0 <= k ensures Coef(Product(Product(f, g), h), k) == Coef(Product(f, Product(g, h)), k) {
      AssociativeAt(f, g, h, k);
    }
    CoefExtensionality(Product(Product(f, g), h), Product(f, Product(g, h)));
  }

  // ---------------------------------------------------------------------
  // Products modulo h
  // ---------------------------------------------------------------------

  /** Adding a multiple of h does not change the remainder modulo h. */
  lemma {:induction false} ModOfMultiplePlus(q: Polynomial, x: Polynomial, h: Polynomial)
    requires InFp(q) && InFp(x) && InFp(h) && x.p == q.p && h.p == q.p && Degree(h) >= 0
    ensures InFp(Plus(Product(q, h), x)) && Plus(Product(q, h), x).p == q.p
    ensures Mod(Plus(Product(q, h), x), h) == Mod(x, h)
  {
    var q2, r2 := Div(x, h).value, Mod(x, h).value;
    var qh := Product(q, h);
    ProductInFp(q, h);
    ProductInFp(q2, h);
    PlusInFp(qh, x);
    PlusInFp(q, q2);
    DivModIdentity(x, h);
    // q*h + (q2*h + r2) == (q + q2)*h + r2
    PlusAssociative(qh, Product(q2, h), r2);
    ProductDistributes(q, q2, h);
    DivModIdentity(Plus(qh, x), h);
  }

  /** Reducing the left factor modulo h first does not change the product's remainder modulo h. */
  lemma {:induction false} ModOfProductLeft(a: Polynomial, b: Polynomial, h: Polynomial)
    requires InFp(a) && InFp(b) && InFp(h) && b.p == a.p && h.p == a.p && Degree(h) >= 0
    ensures Multiply(Mod(a, h).value, b, h) == Multiply(a, b, h)
  {
    var q, r := Div(a, h).value, Mod(a, h).value;
    DivModIdentity(a, h);
    ProductInFp(q, h);
    ProductInFp(q, b);
    ProductInFp(r, b);
    // a*b == (q*h + r)*b == (q*b)*h + r*b
    ProductDistributes(Product(q, h), r, b);
    ProductAssociative(q, h, b);
    ProductCommutative(h, b);
    ProductAssociative(q, b, h);
    ModOfMultiplePlus(Product(q, b), Product(r, b), h);
  }

  /** Multiply(f, g, h) does not depend on the order of its factors. */
  lemma {:induction false} MulModCommutative(f: Polynomial, g: Polynomial, h: Polynomial)
    requires InFp(f) && InFp(g) && InFp(h) && g.p == f.p && h.p == f.p && Degree(h) >= 0
    ensures MulMod(f, g, h) == MulMod(g, f, h)
  {
    ProductCommutative(f, g);
  }

  /** Multiply(f, g, h) only sees its factors modulo h. */
  lemma {:induction false} MulModReduces(f: Polynomial, g: Polynomial, h: Polynomial)
    requires InFp(f) && InFp(g) && InFp(h) && g.p == f.p && h.p == f.p && Degree(h) >= 0
    ensures MulMod(Mod(f, h).value, g, h) == MulMod(f, g, h)
    ensures MulMod(f, Mod(g, h).value, h) == MulMod(f, g, h)
  {
    ModOfProductLeft(f, g, h);
    ModOfProductLeft(g, f, h);
    ProductCommutative(f, g);
    ProductCommutative(f, Mod(g, h).value);
  }

  /** Multiply(_, _, h) is associative. */
  lemma {:induction false} MulModAssociative(x: Polynomial, y: Polynomial, z: Polynomial, h: Polynomial)
    requires InFp(x) && InFp(y) && InFp(z) && InFp(h) && y.p == x.p && z.p == x.p && h.p == x.p
    requires Degree(h) >= 0
    ensures MulMod(MulMod(x, y, h), z, h) == MulMod(x, MulMod(y, z, h), h)
  {
    var xy, yz := Product(x, y), Product(y, z);
    ProductInFp(x, y);
    ProductInFp(y, z);
    ModOfProductLeft(xy, z, h);
    ProductAssociative(x, y, z);
    MulModReduces(x, yz, h);
  }

  /** Multiplying by the one polynomial modulo h is reduction modulo h. */
  lemma {:induction false} MulModOne(f: Polynomial, h: Polynomial)
    requires InFp(f) && InFp(h) && h.p == f.p && Degree(h) >= 0
    ensures MulMod(f, One(f.p), h) == Mod(f, h).value
  {
    ProductOne(f);
  }

  /**
   * Divide(f, g, h) undoes multiplication by g modulo h: when it succeeds,
   * its result times g is f reduced modulo h.
   */
  lemma {:induction false} DivideModCorrect(f: Polynomial, g: Polynomial, h: Polynomial)
    requires InFp(f) && InFp(g) && InFp(h) && g.p == f.p && h.p == f.p
    ensures DivideMod(f, g, h).Success? ==>
      Degree(h) >= 1 && MulMod(DivideMod(f, g, h).value, g, h) == Mod(f, h).value
  {
    if DivideMod(f, g, h).Success? {
      var inv := InverseModulo(g, h).value.value;
      MulModAssociative(f, inv, g, h);
      MulModCommutative(inv, g, h);
      MulModOne(f, h);
    }
  }

  // ---------------------------------------------------------------------
  // Exact powers
  // ---------------------------------------------------------------------

  /** f^n in F_p[x]: the one polynomial times n factors f. */
  function FPow(f: Polynomial, n: nat): (r: Polynomial)
    requires InFp(f)
    ensures InFp(r) && r.p == f.p
  {
    if n == 0 then One(f.p)
    else
      var r := FPow(f, Pred(n));
      ProductInFp(r, f);
      Product(r, f)
  }

  /** f^1 == f. */
  lemma {:induction false} FPowOne(f: Polynomial)
    requires InFp(f)
    ensures FPow(f, 1) == f
  {
    ProductOne(f);
  }

  /** f^n reduced modulo h. */
  function PowMod(f: Polynomial, n: nat, h: Polynomial): (r: Polynomial)
    requires InFp(f) && InFp(h) && h.p == f.p && Degree(h) >= 0
    ensures InFp(r) && r.p == f.p && Degree(r) < Degree(h)
  {
    Mod(FPow(f, n), h).value
  }

  /**
   * n - 1 as a function: FPow and the power lemmas write the exponent one below n as Pred(n), so
   * that every statement about f^(n-1) names the same term.
   */
  function Pred(n: nat): nat
    requires n >= 1
  {
    n - 1
  }

  /** One more factor f: Multiply(f^(n-1) mod h, f, h) == f^n mod h. */
  lemma {:induction false} PowModStep(f: Polynomial, n: nat, h: Polynomial)
    requires InFp(f) && InFp(h) && h.p == f.p && Degree(h) >= 0 && n >= 1
    ensures MulMod(PowMod(f, Pred(n), h), f, h) == PowMod(f, n, h)
  {
    ModOfProductLeft(FPow(f, Pred(n)), f, h);
  }

  // ---------------------------------------------------------------------
  // Degree of a product
  // ---------------------------------------------------------------------

  /** The convolution at D = deg f + deg g over the first n terms: only the term i = deg f survives. */
  lemma {:induction false} ConvAtTop(f: Polynomial, g: Polynomial, D: int, n: nat)
    requires Degree(f) >= 0 && Degree(g) >= 0 && D == Degree(f) + Degree(g)
    ensures Conv(f, g, D, n) == if n > Degree(f) then Lc(f) * Lc(g) else 0
  {
    if n > 0 {
      var i := n - 1;
      ConvAtTop(f, g, D, i);
      if i < Degree(f) {
        assert Coef(g, D - i) == 0;
      } else if i > Degree(f) {
        assert Coef(f, i) == 0;
      }
    }
  }

  /** Over a prime p the product of nonzero polynomials has degree deg f + deg g. */
  lemma DegreeOfProduct(f: Polynomial, g: Polynomial)
    requires InFp(f) && InFp(g) && g.p == f.p && Degree(f) >= 0 && Degree(g) >= 0
    ensures Degree(Product(f, g)) == Degree(f) + Degree(g)
  {
    var D := Degree(f) + Degree(g);
    var r := Product(f, g);
    ProductCoefReduced(f, g, D);
    ConvAtTop(f, g, D, D + 1);
    LcIsUnit(f);
    LcIsUnit(g);
    if (Lc(f) * Lc(g)) % f.p == 0 {
      Euclid(f.p, Lc(f), Lc(g));
    }
    forall i | i > D ensures Coef(r, i) == 0 {
      ProductCoefAbove(f, g, i);
    }
    DegreeIsHighestNonzero(r, D);
  }
}
