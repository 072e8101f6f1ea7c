/**
 * GetMultiplicativeOrder and GetPrimitiveElement: the order of a field
 * element found by testing only the divisors of Order - 1, and the first
 * sorted element whose order is Order - 1.
 */
module FieldOrders {
  import opened Wrappers
  import opened ModArith
  import opened NumberTheory
  import opened Searches
  import opened Polynomials
  import opened PolyArith
  import opened PolyDivision
  import opened PolyRing
  import opened PolyPower
  import opened FieldElements
  import opened Irreducibles

  /** Enumerable.Range(start, count): start, start + 1, ..., start + count - 1. */
  function Range(start: int, count: nat): (r: seq<int>)
    ensures |r| == count
  {
    seq(count, i => start + i)
  }

  /** Every entry of s is smaller than every later one. */
  predicate Increasing(s: seq<int>)
  {
    forall i, j :: 0 <= i < j < |s| ==> s[i] < s[j]
  }

  /** Where keeps the relative order, so it keeps an increasing sequence increasing. */
  lemma {:induction false} WhereIncreasing(s: seq<int>, P: int -> bool)
    requires Increasing(s)
    ensures Increasing(Where(s, P))
    ensures forall i :: 0 <= i < |Where(s, P)| ==> |s| >= 1 && s[0] <= Where(s, P)[i]
  {
    if |s| >= 1 {
      var rest := Where(s[1..], P);
      var head := if P(s[0]) then [s[0]] else [];
      assert Where(s, P) == head + rest;
      WhereIncreasing(s[1..], P);
      AboveFirst(s, rest);
      IncreasingCons(head, rest, s[0]);
    }
  }

  /** Entries taken from the tail of an increasing sequence exceed its first entry. */
  lemma AboveFirst(s: seq<int>, rest: seq<int>)
    requires Increasing(s) && |s| >= 1
    requires forall i :: 0 <= i < |rest| ==> rest[i] in s[1..]
    ensures forall i :: 0 <= i < |rest| ==> s[0] < rest[i]
  {
    forall i | 0 <= i < |rest| ensures s[0] < rest[i] {
      var j :| 0 <= j < |s[1..]| && s[1..][j] == rest[i];
      assert s[j + 1] == rest[i];
    }
  }

  /** At most the bound x, followed by entries above x, keeps a sequence increasing. */
  lemma IncreasingCons(head: seq<int>, rest: seq<int>, x: int)
    requires |head| <= 1 && (|head| == 1 ==> head[0] == x)
    requires Increasing(rest) && forall i :: 0 <= i < |rest| ==> x < rest[i]
    ensures Increasing(head + rest)
    ensures forall i :: 0 <= i < |head + rest| ==> x <= (head + rest)[i]
  {
  }

  /** The divisors of order - 1 among 2, ..., order, ascending (FiniteFieldVM.cs:223-224). */
  function Factors(order: int): seq<int>
    requires order >= 1
  {
    Where(Range(2, order - 1), (x: int) => x >= 1 && (order - 1) % x == 0)
  }

  /** The listed factors are exactly the divisors d >= 2 of order - 1, and they ascend. */
  lemma FactorsMembers(order: int)
    requires order >= 2
    ensures Increasing(Factors(order))
    ensures forall d :: d in Factors(order) <==> 2 <= d <= order - 1 && (order - 1) % d == 0
  {
    var range := Range(2, order - 1);
    WhereIncreasing(range, (x: int) => x >= 1 && (order - 1) % x == 0);
    forall d | 2 <= d <= order - 1 && (order - 1) % d == 0 ensures d in Factors(order) {
      assert range[d - 2] == d;
    }
    ModSmall(order - 1, order);
    forall d | d in Factors(order) ensures 2 <= d <= order - 1 && (order - 1) % d == 0 {
      var i :| 0 <= i < |range| && range[i] == d;
    }
  }

  /** The loop tests every factor but the last, which is order - 1 itself. */
  function TestedFactors(order: int): seq<int>
    requires order >= 1
  {
    var factors := Factors(order);
    if |factors| == 0 then [] else factors[..|factors| - 1]
  }

  /** The tested factors are the divisors of order - 1 from 2 to order - 2, ascending. */
  lemma TestedFactorsMembers(order: int)
    requires order >= 2
    ensures Increasing(TestedFactors(order))
    ensures forall d :: d in TestedFactors(order) <==> 2 <= d < order - 1 && (order - 1) % d == 0
  {
    var factors := Factors(order);
    FactorsMembers(order);
    if |factors| >= 1 {
      assert order - 1 in factors;
      LastIsLargest(factors, order - 1);
      forall d ensures d in TestedFactors(order) <==> d in factors && d < order - 1 {
        DropLastMembers(factors, d);
      }
    }
  }

  /** An increasing sequence holding its upper bound m ends with m. */
  lemma LastIsLargest(s: seq<int>, m: int)
    requires Increasing(s) && m in s && forall x :: x in s ==> x <= m
    ensures |s| >= 1 && s[|s| - 1] == m
  {
    var j :| 0 <= j < |s| && s[j] == m;
    assert s[|s| - 1] in s;
  }

  /** Dropping the last entry of an increasing sequence keeps exactly the entries below it. */
  lemma DropLastMembers(s: seq<int>, x: int)
    requires Increasing(s) && |s| >= 1
    ensures x in s[..|s| - 1] <==> x in s && x < s[|s| - 1]
  {
    if x in s && x < s[|s| - 1] {
      var i :| 0 <= i < |s| && s[i] == x;
      assert s[..|s| - 1][i] == x;
    }
  }

  /** f.Power(d, h) == oneP, for a power that fits an int. */
  function IsUnitPower(f: Polynomial, h: Polynomial): int -> bool
    requires InFp(f) && InFp(h) && h.p == f.p
  {
    (d: int) => IsInt32(d) && PowerOf(f, d, h) == Success(One(f.p))
  }

  /** The search over the tested factors stops at i when the powers before i are not one and the power at i is. */
  lemma FirstUnitFactorAt(f: Polynomial, h: Polynomial, order: int, i: nat)
    requires InFp(f) && InFp(h) && h.p == f.p && order >= 2 && IsInt32(order)
    requires i <= |TestedFactors(order)|
    requires i < |TestedFactors(order)| ==> PowerOf(f, TestedFactors(order)[i], h) == Success(One(f.p))
    requires forall j :: 0 <= j < i ==> PowerOf(f, TestedFactors(order)[j], h) != Success(One(f.p))
    ensures FirstIndex(TestedFactors(order), IsUnitPower(f, h)) == i
  {
    var tested := TestedFactors(order);
    TestedFactorsMembers(order);
    if i < |tested| {
      assert tested[i] in tested;
    }
    FirstIndexAt(tested, IsUnitPower(f, h), i);
  }

  /**
   * GetMultiplicativeOrder: 1 for the one polynomial, otherwise the first
   * tested factor d with f^d == 1, and order - 1 when no tested factor
   * qualifies.
   */
  function MultiplicativeOrder(f: Polynomial, order: int, h: Polynomial): int
    requires InFp(f) && InFp(h) && h.p == f.p && order >= 1
  {
    if f == One(f.p) then 1
    else match FirstWhere(TestedFactors(order), IsUnitPower(f, h)) {
      case Some(d) => d
      case None => order - 1
    }
  }

  /** One divisor at a time: d is tested exactly when it divides order - 1 and 2 <= d < order - 1. */
  lemma IsTestedFactor(order: int, d: int)
    requires order >= 2
    ensures d in TestedFactors(order) <==> 2 <= d < order - 1 && (order - 1) % d == 0
  {
    TestedFactorsMembers(order);
  }

  /** An entry d of an increasing sequence below the entry at i (or anywhere, when i is past the end) sits before i. */
  lemma IndexBelow(s: seq<int>, i: nat, d: int) returns (j: nat)
    requires Increasing(s) && d in s && i <= |s|
    requires i < |s| ==> d < s[i]
    ensures j < i && s[j] == d
  {
    j :| 0 <= j < |s| && s[j] == d;
  }

  /** For d >= 2, f.Power(d) is f^d reduced modulo h. */
  lemma UnitPowerIsPowMod(f: Polynomial, h: Polynomial, d: int)
    requires InFp(f) && InFp(h) && h.p == f.p && Degree(h) >= 0
    requires 2 <= d && IsInt32(d)
    ensures IsUnitPower(f, h)(d) <==> PowMod(f, d, h) == One(f.p)
  {
    PowerIsPowMod(f, d, h);
  }

  /**
   * The order found: 1 for one; otherwise a divisor of order - 1 that is
   * either order - 1 or a power d >= 2 with f^d == 1 mod h, and no smaller
   * divisor d >= 2 of order - 1 has f^d == 1.
   */
  lemma MultiplicativeOrderCorrect(f: Polynomial, order: int, h: Polynomial)
    requires InFp(f) && InFp(h) && h.p == f.p && Degree(h) >= 0
    requires order >= 2 && IsInt32(order)
    ensures var r := MultiplicativeOrder(f, order, h);
      (f == One(f.p) ==> r == 1) &&
      (f != One(f.p) ==>
        1 <= r <= order - 1 && (order - 1) % r == 0 &&
        (r < order - 1 ==> 2 <= r && PowMod(f, r, h) == One(f.p)) &&
        forall d :: 2 <= d < r && (order - 1) % d == 0 ==> PowMod(f, d, h) != One(f.p))
  {
    if f != One(f.p) {
      var tested := TestedFactors(order);
      var i := FirstIndex(tested, IsUnitPower(f, h));
      var r := MultiplicativeOrder(f, order, h);
      if i < |tested| {
        assert r == tested[i];
        FoundOrder(f, order, h, r);
      } else {
        assert r == order - 1;
        ModOfMultiple(order - 1, 1);
      }
      forall d | 2 <= d < r && (order - 1) % d == 0 ensures PowMod(f, d, h) != One(f.p) {
        EarlierFactorFails(f, h, order, d, i);
      }
    }
  }

  /** A tested factor r whose power is one divides order - 1 and gives f^r == 1 mod h. */
  lemma FoundOrder(f: Polynomial, order: int, h: Polynomial, r: int)
    requires InFp(f) && InFp(h) && h.p == f.p && Degree(h) >= 0
    requires order >= 2 && IsInt32(order)
    requires r in TestedFactors(order) && IsUnitPower(f, h)(r)
    ensures 2 <= r < order - 1 && (order - 1) % r == 0 && PowMod(f, r, h) == One(f.p)
  {
    IsTestedFactor(order, r);
    UnitPowerIsPowMod(f, h, r);
  }

  /** A divisor d below the i-th tested factor, i the first hit, is tested before it and fails. */
  lemma EarlierFactorFails(f: Polynomial, h: Polynomial, order: int, d: int, i: nat)
    requires InFp(f) && InFp(h) && h.p == f.p && Degree(h) >= 0
    requires order >= 2 && IsInt32(order)
    requires i == FirstIndex(TestedFactors(order), IsUnitPower(f, h))
    requires 2 <= d < order - 1 && (order - 1) % d == 0
    requires i < |TestedFactors(order)| ==> d < TestedFactors(order)[i]
    ensures PowMod(f, d, h) != One(f.p)
  {
    var tested := TestedFactors(order);
    TestedFactorsMembers(order);
    var j := IndexBelow(tested, i, d);
    UnitPowerIsPowMod(f, h, d);
  }

  /** Every power of zero from the first on is zero. */
  lemma {:induction false} FPowOfZero(p: int, n: nat)
    requires Prime(p) && n >= 1
    ensures FPow(Zero(p), n) == Zero(p)
  {
    var z := Zero(p);
    if n == 1 {
      ProductOne(z);
    } else {
      FPowOfZero(p, Pred(n));
      ProductWithZero(z, p);
    }
  }

  /** No power d >= 2 of zero is one, so no tested factor passes for zero. */
  lemma ZeroPowerNotOne(h: Polynomial, d: int)
    requires InFp(h) && Degree(h) >= 0 && 2 <= d && IsInt32(d)
    ensures !IsUnitPower(Zero(h.p), h)(d)
  {
    FPowOfZero(h.p, d);
    ModOfSmaller(Zero(h.p), h);
    UnitPowerIsPowMod(Zero(h.p), h, d);
  }

  /** Zero is not one and no power of it is one: its order comes out as order - 1, unchecked. */
  lemma ZeroGetsFullOrder(h: Polynomial, order: int)
    requires InFp(h) && Degree(h) >= 0 && order >= 2 && IsInt32(order)
    ensures MultiplicativeOrder(Zero(h.p), order, h) == order - 1
  {
    var tested := TestedFactors(order);
    forall j | 0 <= j < |tested| ensures !IsUnitPower(Zero(h.p), h)(tested[j]) {
      assert tested[j] in tested;
      IsTestedFactor(order, tested[j]);
      ZeroPowerNotOne(h, tested[j]);
    }
  }

  /** GetPrimitiveElement's test: nonzero, not one, and of order Order - 1. */
  function IsPrimitiveOf(p: int, k: nat, h: Polynomial): Polynomial -> bool
    requires InFp(h) && h.p == p
  {
    var order := Pow(p, k);
    (e: Polynomial) =>
      Degree(e) >= 0 && e != One(p) && InFp(e) && e.p == p && order >= 1 &&
      MultiplicativeOrder(e, order, h) == order - 1
  }

  /**
   * GetPrimitiveElement: the first sorted field element passing the test;
   * First throws when there is none, and the search cannot start without an
   * irreducible modulus.
   */
  function PrimitiveOf(p: int, k: nat): (r: Result<Polynomial>)
    requires p >= 0 && k >= 1
  {
    match IrreducibleSearch(p, k) {
      case None => Failure(NoIrreducible)
      case Some(h) =>
        if !InFp(h) || h.p != p then Failure(NoIrreducible)
        else match FirstWhere(FieldElementsOf(p, k), IsPrimitiveOf(p, k, h)) {
          case None => Failure(NoPrimitiveElement)
          case Some(e) => Success(e)
        }
    }
  }

  /** GetPrimitiveElement fails only for want of an irreducible modulus or of a primitive element. */
  lemma PrimitiveOfFailure(p: int, k: nat)
    requires p >= 0 && k >= 1
    ensures PrimitiveOf(p, k).Failure? ==>
      PrimitiveOf(p, k).error == NoIrreducible || PrimitiveOf(p, k).error == NoPrimitiveElement
    ensures Prime(p) ==>
      (PrimitiveOf(p, k) == Failure(NoIrreducible) <==> IrreducibleSearch(p, k).None?)
  {
    if Prime(p) && IrreducibleSearch(p, k).Some? {
      IrreducibleSearchCorrect(p, k);
    }
  }

  /** With an irreducible modulus h, NoPrimitiveElement comes back exactly when no element passes the test. */
  lemma NoPrimitiveElementIff(p: int, k: nat, h: Polynomial)
    requires Prime(p) && k >= 1 && IrreducibleSearch(p, k) == Some(h)
    ensures InFp(h) && h.p == p
    ensures PrimitiveOf(p, k) == Failure(NoPrimitiveElement) <==>
      forall j :: 0 <= j < |FieldElementsOf(p, k)| ==> !IsPrimitiveOf(p, k, h)(FieldElementsOf(p, k)[j])
  {
    IrreducibleSearchCorrect(p, k);
  }

  /**
   * A primitive element found is the first sorted field element that is
   * nonzero, other than one and of order Order - 1: no divisor d of
   * Order - 1 with 2 <= d < Order - 1 has e^d == 1 modulo the irreducible.
   */
  lemma PrimitiveOfSuccess(p: int, k: nat, h: Polynomial, e: Polynomial, order: int)
    requires Prime(p) && k >= 1 && order == Pow(p, k) && IsInt32(order)
    requires IrreducibleSearch(p, k) == Some(h) && PrimitiveOf(p, k) == Success(e)
    ensures InFp(h) && h.p == p && Degree(h) == k && order >= 2
    ensures var elems := FieldElementsOf(p, k);
      var i := FirstIndex(elems, IsPrimitiveOf(p, k, h));
      i < |elems| && elems[i] == e
    ensures InFp(e) && e.p == p && 0 <= Degree(e) < k && e != One(p)
    ensures MultiplicativeOrder(e, order, h) == order - 1
    ensures forall d :: 2 <= d < order - 1 && (order - 1) % d == 0 ==> PowMod(e, d, h) != One(p)
  {
    IrreducibleSearchCorrect(p, k);
    var elems := FieldElementsOf(p, k);
    var i := FirstIndex(elems, IsPrimitiveOf(p, k, h));
    assert elems[i] in elems;
    FieldElementsMembers(p, k, e);
    PowAtLeastBase(p, k);
    MultiplicativeOrderCorrect(e, order, h);
  }

  /**
   * The elements of GF(2) are 0 and 1, and the test's `p != oneP` excludes 1,
   * the generator of GF(2)*: no element passes and GetPrimitiveElement throws.
   */
  lemma NoPrimitiveInGF2()
    ensures PrimitiveOf(2, 1) == Failure(NoPrimitiveElement)
  {
    TwoIsPrime();
    IrreducibleOfDegreeOne(2);
    var h := Make([0, 1], 2);
    var elems := FieldElementsOf(2, 1);
    forall j | 0 <= j < |elems| ensures !IsPrimitiveOf(2, 1, h)(elems[j]) {
      NotPrimitiveInGF2(h, elems[j]);
    }
    NoPrimitiveElementIff(2, 1, h);
  }

  /** No element of GF(2) passes GetPrimitiveElement's test: 0 is zero and 1 is excluded by name. */
  lemma NotPrimitiveInGF2(h: Polynomial, e: Polynomial)
    requires InFp(h) && h.p == 2 && e in FieldElementsOf(2, 1)
    ensures !IsPrimitiveOf(2, 1, h)(e)
  {
    TwoIsPrime();
    FieldElementsMembers(2, 1, e);
    if Degree(e) == 0 {
      OnlyOneIsNonzeroConstant(e);
    }
  }

  /** A nonzero constant over 2 is one. */
  lemma OnlyOneIsNonzeroConstant(e: Polynomial)
    requires InFp(e) && e.p == 2 && Degree(e) == 0
    ensures e == One(2)
  {
    assert Coef(e, 0) != 0;
  }

  /**
   * The intended generator test: nonzero and of order Order - 1. One has
   * order 1, so it passes only when Order - 1 is 1, that is in GF(2).
   */
  function IsGeneratorOf(p: int, k: nat, h: Polynomial): Polynomial -> bool
    requires InFp(h) && h.p == p
  {
    var order := Pow(p, k);
    (e: Polynomial) =>
      Degree(e) >= 0 && InFp(e) && e.p == p && order >= 1 &&
      MultiplicativeOrder(e, order, h) == order - 1
  }

  /** GetPrimitiveElement with the generator test in place of the one that names 1 out. */
  function PrimitiveOfCorrected(p: int, k: nat): (r: Result<Polynomial>)
    requires p >= 0 && k >= 1
    ensures r.Success? ==> r.value in FieldElementsOf(p, k) && Degree(r.value) >= 0
    ensures r.Failure? ==> r.error == NoIrreducible || r.error == NoPrimitiveElement
  {
    match IrreducibleSearch(p, k) {
      case None => Failure(NoIrreducible)
      case Some(h) =>
        if !InFp(h) || h.p != p then Failure(NoIrreducible)
        else match FirstWhere(FieldElementsOf(p, k), IsGeneratorOf(p, k, h)) {
          case None => Failure(NoPrimitiveElement)
          case Some(e) => Success(e)
        }
    }
  }

  /** The corrected search finds 1, the generator of GF(2)*. */
  lemma PrimitiveInGF2Corrected()
    ensures PrimitiveOfCorrected(2, 1) == Success(One(2))
  {
    TwoIsPrime();
    IrreducibleOfDegreeOne(2);
    var h := Make([0, 1], 2);
    var elems := FieldElementsOf(2, 1);
    FieldElementsCount(2, 1);
    FieldElementsStartWithZero(2, 1);
    FieldElementsMembers(2, 1, One(2));
    assert elems[1] == One(2);
    assert MultiplicativeOrder(One(2), 2, h) == 1;
    FirstIndexAt(elems, IsGeneratorOf(2, 1, h), 1);
  }

  /**
   * Outside GF(2) one fails the generator test by its order, so the
   * corrected search returns what GetPrimitiveElement returns.
   */
  lemma PrimitiveOfCorrectedAgrees(p: int, k: nat)
    requires Prime(p) && k >= 1 && Pow(p, k) != 2
    ensures PrimitiveOfCorrected(p, k) == PrimitiveOf(p, k)
  {
    match IrreducibleSearch(p, k) {
      case None =>
      case Some(h) =>
        if InFp(h) && h.p == p {
          var elems := FieldElementsOf(p, k);
          var P := IsPrimitiveOf(p, k, h);
          var Q := IsGeneratorOf(p, k, h);
          forall j | 0 <= j < |elems| ensures P(elems[j]) == Q(elems[j]) {
            if elems[j] == One(p) && Pow(p, k) >= 1 {
              assert MultiplicativeOrder(One(p), Pow(p, k), h) == 1;
            }
          }
          FirstIndexAt(elems, Q, FirstIndex(elems, P));
        }
    }
  }

  /**
   * A generator found by the corrected search is the first sorted field
   * element that is nonzero and of order Order - 1; it is one only in GF(2).
   */
  lemma PrimitiveOfCorrectedSuccess(p: int, k: nat, h: Polynomial, e: Polynomial, order: int)
    requires Prime(p) && k >= 1 && order == Pow(p, k) && IsInt32(order)
    requires IrreducibleSearch(p, k) == Some(h) && PrimitiveOfCorrected(p, k) == Success(e)
    ensures InFp(h) && h.p == p && Degree(h) == k && order >= 2
    ensures var elems := FieldElementsOf(p, k);
      var i := FirstIndex(elems, IsGeneratorOf(p, k, h));
      i < |elems| && elems[i] == e
    ensures InFp(e) && e.p == p && 0 <= Degree(e) < k
    ensures e == One(p) ==> order == 2
    ensures MultiplicativeOrder(e, order, h) == order - 1
    ensures forall d :: 2 <= d < order - 1 && (order - 1) % d == 0 ==> PowMod(e, d, h) != One(p)
  {
    IrreducibleSearchCorrect(p, k);
    GeneratorFound(p, k, h, e);
    FieldElementsMembers(p, k, e);
    PowAtLeastBase(p, k);
    MultiplicativeOrderCorrect(e, order, h);
  }

  /** A success of the corrected search is the first element passing the generator test. */
  lemma GeneratorFound(p: int, k: nat, h: Polynomial, e: Polynomial)
    requires p >= 0 && k >= 1 && InFp(h) && h.p == p
    requires IrreducibleSearch(p, k) == Some(h) && PrimitiveOfCorrected(p, k) == Success(e)
    ensures var elems := FieldElementsOf(p, k);
      var i := FirstIndex(elems, IsGeneratorOf(p, k, h));
      i < |elems| && elems[i] == e && IsGeneratorOf(p, k, h)(e)
  {
    assert FirstWhere(FieldElementsOf(p, k), IsGeneratorOf(p, k, h)) == Some(e);
  }
}
