/**
 * The static number-theory helpers of the calculator's computation view model:
 * trial-division primality, the prime generator, and the decomposition of a
 * field order n into p^k.
 */
module NumberTheory {
  import opened Wrappers
  import opened ModArith
  import opened Searches

  /** The mathematical notion the helpers are measured against. */
  predicate Prime(n: int)
  {
    n >= 2 && forall d :: 2 <= d < n ==> n % d != 0
  }

  ghost predicate IsPrimePower(n: int)
  {
    exists q: int, j: nat :: Prime(q) && j >= 1 && Pow(q, j) == n
  }

  /** Integer square root; the source truncates Math.Sqrt(n). */
  function ISqrt(n: nat): (r: nat)
    ensures r * r <= n < (r + 1) * (r + 1)
  {
    if n == 0 then 0
    else
      var s := ISqrt(n - 1);
      if (s + 1) * (s + 1) <= n then s + 1 else s
  }

  /** What IsPrime computes: 2, or n > 2 with no odd divisor in [3, isqrt(n)]. */
  predicate PassesOddTrialDivision(n: int)
  {
    n == 2 || (n > 2 && forall i :: 3 <= i <= ISqrt(n) && i % 2 == 1 ==> n % i != 0)
  }

  /** No odd number in [3, i) divides n. */
  ghost predicate NoOddDivisorBelow(n: int, i: int)
  {
    forall j :: 3 <= j < i && j % 2 == 1 ==> n % j != 0
  }

  /** IsPrime as written: the divisor 2 is never tried. */
  method IsPrime(n: int) returns (b: bool)
    ensures b == PassesOddTrialDivision(n)
    ensures n < 2 ==> !b
    ensures n == 2 ==> b
  {
    if n < 2 {
      return false;
    } else if n == 2 {
      return true;
    } else {
      var bound := ISqrt(n);
      var i := 3;
      while i <= bound
        invariant 3 <= i && i % 2 == 1
        invariant NoOddDivisorBelow(n, i)
      {
        if n % i == 0 {
          OddDivisorFails(n, i);
          return false;
        }
        var next := i + 2;
        NoOddDivisorStep(n, i, next);
        i := next;
      }
      NoOddDivisorPasses(n, i);
    }
    return true;
  }

  lemma NoOddDivisorStep(n: int, i: int, next: int)
    requires i % 2 == 1 && next == i + 2 && NoOddDivisorBelow(n, i) && n % i != 0
    ensures next % 2 == 1 && NoOddDivisorBelow(n, next)
  {
    forall j | 3 <= j < next && j % 2 == 1
      ensures n % j != 0
    {
      if j != i {
        assert j < i;
      }
    }
  }

  lemma OddDivisorFails(n: int, i: int)
    requires n > 2 && 3 <= i <= ISqrt(n) && i % 2 == 1 && n % i == 0
    ensures !PassesOddTrialDivision(n)
  {
  }

  lemma NoOddDivisorPasses(n: int, i: int)
    requires n > 2 && i > ISqrt(n) && NoOddDivisorBelow(n, i)
    ensures PassesOddTrialDivision(n)
  {
  }

  /** The evident intention: trial division that also rejects even numbers above 2. */
  method IsPrimeCorrected(n: int) returns (b: bool)
    ensures b <==> Prime(n)
  {
    if n > 2 && n % 2 == 0 {
      EvenIsNotPrime(n);
      return false;
    }
    b := IsPrime(n);
    if n > 2 {
      OddTrialDivisionDecidesPrimality(n);
    } else if n == 2 {
      TwoIsPrime();
    }
  }

  lemma TwoIsPrime()
    ensures Prime(2)
  {
  }

  /** IsPrime(4) is true although 4 = 2 * 2. */
  lemma IsPrimeAcceptsFour()
    ensures PassesOddTrialDivision(4) && !Prime(4)
  {
    assert ISqrt(4) == 2 by {
      assert ISqrt(0) == 0;
      assert ISqrt(1) == 1;
      assert ISqrt(2) == 1;
      assert ISqrt(3) == 1;
    }
    assert 4 % 2 == 0;
  }

  /**
   * Even numbers above 2 are composite: the check IsPrime leaves out (the
   * finding on 4), which IsPrimeCorrected adds and the prime stream's odd steps rely on.
   */
  lemma EvenIsNotPrime(n: int)
    requires n > 2 && n % 2 == 0
    ensures !Prime(n)
  {
    assert 2 <= 2 < n && n % 2 == 0;
  }

  lemma SquareMonotone(a: int, b: int)
    requires 0 <= a <= b
    ensures a * a <= b * b
  {
    MulNonNegative(b - a, b + a);
    assert b * b - a * a == (b - a) * (b + a);
  }

  /** A proper divisor d of n has a proper cofactor e = n / d. */
  lemma CofactorOf(n: int, d: int) returns (e: int)
    requires n > 0 && 2 <= d < n && n % d == 0
    ensures n == d * e && 2 <= e < n && n % e == 0
  {
    e := n / d;
    assert n == d * e;
    assert d * (e - 1) == n - d;
    MulCancelPositive(d, e - 1);
    assert (d - 1) * e == n - e;
    MulPositive(d - 1, e);
    ModUnique(n, e, d, 0);
  }

  lemma OddProductFactor(d: int, e: int)
    requires (d * e) % 2 == 1
    ensures d % 2 == 1
  {
    if d % 2 == 0 {
      assert d == 2 * (d / 2);
      assert d * e == 2 * ((d / 2) * e);
      ModOfMultiple(2, (d / 2) * e);
    }
  }

  lemma ISqrtBelow(n: int)
    requires n >= 2
    ensures ISqrt(n) < n
  {
    var s := ISqrt(n);
    if s >= 2 {
      MulAtLeast(s, s - 1);
      assert s * s == s * (s - 1) + s;
    }
  }

  /** m*m < (s+1)*(s+1) bounds m by s. */
  lemma SquareBelow(m: int, s: int)
    requires m >= 0 && s >= 0 && m * m < (s + 1) * (s + 1)
    ensures m <= s
  {
    if m > s {
      SquareMonotone(s + 1, m);
    }
  }

  /** The smaller of a divisor and its cofactor is odd and at most isqrt(n). */
  lemma SmallOddDivisor(n: int, d: int) returns (m: int)
    requires n >= 3 && n % 2 == 1 && 2 <= d < n && n % d == 0
    ensures 3 <= m <= ISqrt(n) && m % 2 == 1 && n % m == 0
  {
    var e := CofactorOf(n, d);
    OddProductFactor(d, e);
    assert e * d == n;
    OddProductFactor(e, d);
    if d <= e {
      m := d;
      MulNonNegative(d, e - d);
      assert d * e - d * d == d * (e - d);
    } else {
      m := e;
      MulNonNegative(e, d - e);
      assert d * e - e * e == e * (d - e);
    }
    SquareBelow(m, ISqrt(n));
  }

  /** For odd n >= 3 the odd trial divisors up to isqrt(n) decide primality. */
  lemma OddTrialDivisionDecidesPrimality(n: int)
    requires n >= 3 && n % 2 == 1
    ensures PassesOddTrialDivision(n) <==> Prime(n)
  {
    if Prime(n) {
      ISqrtBelow(n);
    } else if PassesOddTrialDivision(n) {
      var d :| 2 <= d < n && n % d == 0;
      var m := SmallOddDivisor(n, d);
    }
  }

  /** primes is the prime stream's prefix below p: increasing, below p, and exactly the primes under p. */
  ghost predicate PrimesBelow(primes: seq<int>, p: int)
  {
    (forall i, j :: 0 <= i < j < |primes| ==> primes[i] < primes[j]) &&
    (forall i :: 0 <= i < |primes| ==> primes[i] < p) &&
    (forall q :: q in primes <==> 2 <= q < p && Prime(q))
  }

  /** One odd candidate p: append it when IsPrime accepts it, then move on to next == p + 2. */
  lemma PrimesBelowStep(primes: seq<int>, p: int, isPrime: bool, next: int)
    requires 3 <= p && p % 2 == 1 && next == p + 2 && PrimesBelow(primes, p)
    requires isPrime == PassesOddTrialDivision(p)
    ensures PrimesBelow(if isPrime then primes + [p] else primes, next)
  {
    OddTrialDivisionDecidesPrimality(p);
    EvenIsNotPrime(p + 1);
  }

  /** Stopping at the first odd p >= bound leaves exactly the primes below bound. */
  lemma PrimesBelowStop(primes: seq<int>, p: int, bound: int)
    requires 3 <= bound <= p <= bound + 1 && p % 2 == 1 && PrimesBelow(primes, p)
    ensures forall q :: q in primes <==> 2 <= q < bound && Prime(q)
  {
    if p == bound + 1 {
      EvenIsNotPrime(bound);
    }
  }

  /** The prime stream's prefix below `bound`: 2, then the odd candidates that pass IsPrime. */
  method GetPrimeNumbers(bound: int) returns (primes: seq<int>)
    ensures forall i, j :: 0 <= i < j < |primes| ==> primes[i] < primes[j]
    ensures forall q :: q in primes <==> 2 <= q < bound && Prime(q)
  {
    primes := [];
    if bound <= 2 {
      return;
    }
    primes := [2];
    var p := 3;
    while p < bound
      invariant 3 <= p <= bound + 1 && p % 2 == 1
      invariant PrimesBelow(primes, p)
    {
      var isPrime := IsPrime(p);
      var next := p + 2;
      PrimesBelowStep(primes, p, isPrime, next);
      if isPrime {
        primes := primes + [p];
      }
      p := next;
    }
    PrimesBelowStop(primes, p, bound);
  }

  /** The least divisor of n that is at least d. */
  function SmallestDivisorFrom(n: int, d: int): (r: int)
    requires 2 <= d <= n
    ensures d <= r <= n && n % r == 0
    ensures forall e :: d <= e < r ==> n % e != 0
    decreases n - d
  {
    if n % d == 0 then d else SmallestDivisorFrom(n, d + 1)
  }

  lemma DividesTransitive(a: int, b: int, c: int)
    requires a > 0 && b > 0 && b % a == 0 && c % b == 0
    ensures c % a == 0
  {
    var s, t := b / a, c / b;
    assert b == a * s;
    assert c == b * t;
    assert c == a * (s * t);
    ModOfMultiple(a, s * t);
  }

  lemma {:induction false} SmallestDivisorIsPrime(n: int)
    requires n >= 2
    ensures Prime(SmallestDivisorFrom(n, 2))
  {
    var r := SmallestDivisorFrom(n, 2);
    if !Prime(r) {
      var e :| 2 <= e < r && r % e == 0;
      DividesTransitive(e, r, n);
    }
  }

  /** Euclid's lemma for a factor below p, by descent on the factor. */
  lemma {:induction false} EuclidBelow(p: int, a: int, b: int)
    requires Prime(p) && 0 < a < p && (a * b) % p == 0
    ensures b % p == 0
    decreases a
  {
    if a > 1 {
      var q, r := p / a, p % a;
      assert p == a * q + r;
      assert r != 0;
      var t := (a * b) / p;
      assert a * b == p * t;
      assert r * b == p * b - q * (a * b);
      assert r * b == p * (b - q * t);
      ModOfMultiple(p, b - q * t);
      EuclidBelow(p, r, b);
    }
  }

  /** Euclid's lemma: a prime dividing a product divides one of the factors. */
  lemma Euclid(p: int, a: int, b: int)
    requires Prime(p) && (a * b) % p == 0
    ensures a % p == 0 || b % p == 0
  {
    if a % p != 0 {
      CongMul(a % p, a, b, p);
      ModIdempotent(a, p);
      EuclidBelow(p, a % p, b);
    }
  }

  /** Every residue a not divisible by the prime p has an inverse x in [1, p). */
  lemma {:induction false} InverseExists(p: int, a: int) returns (x: int)
    requires Prime(p) && 0 < a < p
    ensures 1 <= x < p && (a * x) % p == 1
    decreases a
  {
    if a == 1 {
      x := 1;
      ModSmall(1, p);
    } else {
      var q, r := p / a, p % a;
      assert p == a * q + r;
      assert r != 0;
      var y := InverseExists(p, r);
      // r = p - a*q, so a * (-q*y) = r*y - p*y is congruent to 1
      assert a * (-q * y) == r * y + p * (-y);
      ModAddMultiple(r * y, p, -y);
      x := (-q * y) % p;
      CongMul(-q * y, x, a, p) by { ModIdempotent(-q * y, p); }
      assert (a * x) % p == 1 by {
        assert (-q * y) * a == a * (-q * y);
        assert x * a == a * x;
      }
      assert x != 0;
    }
  }

  lemma {:induction false} PowStrictlyIncreasing(b: int, e1: nat, e2: nat)
    requires b >= 2 && e1 < e2
    ensures Pow(b, e1) < Pow(b, e2)
    decreases e2
  {
    PowPositive(b, e2 - 1);
    if e1 < e2 - 1 {
      PowStrictlyIncreasing(b, e1, e2 - 1);
    }
    assert Pow(b, e2) == b * Pow(b, e2 - 1);
    MulAtLeast(Pow(b, e2 - 1), b);
  }

  /** A prime dividing a power of the prime q is q itself. */
  lemma {:induction false} PrimeDividingPrimePower(p: int, q: int, j: nat)
    requires Prime(p) && Prime(q) && j >= 1 && Pow(q, j) % p == 0
    ensures p == q
  {
    Euclid(p, q, Pow(q, j - 1));
    if q % p != 0 {
      if j == 1 {
        ModSmall(1, p);
      } else {
        PrimeDividingPrimePower(p, q, j - 1);
      }
    } else if p != q {
      if p > q {
        ModSmall(q, p);
      }
    }
  }

  /**
   * The scan of GetPrimePowerDecomposition over the prime stream: 2, then the
   * odd numbers that pass the primality test, up to the first one dividing n.
   */
  method FirstGeneratedPrimeDivisor(n: int) returns (p: int)
    requires n >= 2
    ensures p == SmallestDivisorFrom(n, 2) && Prime(p) && p >= 2
  {
    ghost var sd := SmallestDivisorFrom(n, 2);
    p := 2;
    if n % 2 == 0 {
      SmallestDivisorIsPrime(n);
      return;
    }
    OddStepBelowDivisor(n, sd, 1, 3);
    p := 3;
    var isPrime := IsPrime(p);
    while !isPrime || n % p != 0
      invariant 3 <= p <= sd && p % 2 == 1
      invariant isPrime == PassesOddTrialDivision(p)
      decreases sd - p
    {
      BeforeSmallestDivisor(n, sd, p);
      var next := p + 2;
      OddStepBelowDivisor(n, sd, p, next);
      p := next;
      isPrime := IsPrime(p);
    }
    SmallestDivisorMinimal(n, p);
    SmallestDivisorIsPrime(n);
  }

  /**
   * The scan agrees with GetPrimeNumbers: over the primes that method returns
   * for the bound n + 1, the first one dividing n is the one the scan stops at.
   */
  lemma FirstPrimeDivisorInStream(n: int, primes: seq<int>)
    requires n >= 2
    requires forall i, j :: 0 <= i < j < |primes| ==> primes[i] < primes[j]
    requires forall q :: q in primes <==> 2 <= q < n + 1 && Prime(q)
    ensures FirstWhere(primes, (q: int) => q != 0 && n % q == 0) == Some(SmallestDivisorFrom(n, 2))
  {
    var sd := SmallestDivisorFrom(n, 2);
    SmallestDivisorIsPrime(n);
    assert sd in primes;
    var i :| 0 <= i < |primes| && primes[i] == sd;
    forall j | 0 <= j < i ensures !(primes[j] != 0 && n % primes[j] == 0) {
      assert primes[j] in primes;
    }
    FirstIndexAt(primes, (q: int) => q != 0 && n % q == 0, i);
  }

  /** An odd candidate the scan does not stop at lies below the least divisor. */
  lemma BeforeSmallestDivisor(n: int, sd: int, p: int)
    requires n >= 2 && sd == SmallestDivisorFrom(n, 2) && 3 <= p <= sd && p % 2 == 1
    requires !(PassesOddTrialDivision(p) && n % p == 0)
    ensures p < sd
  {
    if p == sd {
      SmallestDivisorIsPrime(n);
      OddTrialDivisionDecidesPrimality(p);
    }
  }

  /** For odd n, an odd candidate below the least divisor steps to at most it. */
  lemma OddStepBelowDivisor(n: int, sd: int, p: int, next: int)
    requires n >= 2 && n % 2 == 1 && sd == SmallestDivisorFrom(n, 2)
    requires 1 <= p < sd && p % 2 == 1 && next == p + 2
    ensures next <= sd && next % 2 == 1
  {
    OddDivisor(n, sd);
    OddStep(p, sd, next);
  }

  /** A divisor of an odd number is odd. */
  lemma OddDivisor(n: int, d: int)
    requires n % 2 == 1 && d > 0 && n % d == 0
    ensures d % 2 == 1
  {
    var e := n / d;
    assert n == d * e;
    OddProductFactor(d, e);
  }

  /** Between two odd numbers p < q lies p + 2 <= q. */
  lemma OddStep(p: int, q: int, next: int)
    requires p % 2 == 1 && q % 2 == 1 && p < q && next == p + 2
    ensures next <= q && next % 2 == 1
  {
    assert p == 2 * (p / 2) + 1;
    assert q == 2 * (q / 2) + 1;
    assert next == 2 * (p / 2 + 1) + 1;
  }

  lemma SmallestDivisorMinimal(n: int, p: int)
    requires 2 <= p <= n && n % p == 0
    ensures SmallestDivisorFrom(n, 2) <= p
  {
  }

  /**
   * GetPrimePowerDecomposition: walk the prime stream to the first prime
   * dividing n, then multiply up by it until the product reaches n.
   */
  method GetPrimePowerDecomposition(n: int) returns (r: Result<(int, nat)>)
    ensures n < 2 ==> r == Failure(NBelowTwo)
    ensures r.Success? ==> Prime(r.value.0) && r.value.1 >= 1 && Pow(r.value.0, r.value.1) == n
    ensures n >= 2 ==> (r.Success? <==> IsPrimePower(n))
    ensures n >= 2 && r.Failure? ==> r.error == NotPrimePower
  {
    if n < 2 {
      return Failure(NBelowTwo);
    }
    var p := FirstGeneratedPrimeDivisor(n);
    var k: nat := 0;
    var prod := 1;
    PowStep(p, k, prod);
    k, prod := k + 1, prod * p;
    while prod < n
      invariant k >= 1 && prod == Pow(p, k) && Pow(p, k - 1) < n
      decreases n - prod
    {
      PowStep(p, k, prod);
      k, prod := k + 1, prod * p;
    }
    if prod == n {
      PrimePowerWitness(n, p, k);
      return Success((p, k));
    } else {
      PrimePowerHasSmallestDivisorAsBase(n, p, k);
      return Failure(NotPrimePower);
    }
  }

  /** One round of `prod *= p` on prod = p^k. */
  lemma PowStep(p: int, k: nat, prod: int)
    requires p >= 2 && prod == Pow(p, k)
    ensures prod * p == Pow(p, k + 1) && prod * p > prod
  {
    PowPositive(p, k);
    MulAtLeast(prod, p);
  }

  lemma PrimePowerWitness(n: int, p: int, k: nat)
    requires Prime(p) && k >= 1 && Pow(p, k) == n
    ensures IsPrimePower(n)
  {
  }

  /** If n is a power of a prime, that prime is n's least divisor p, and the
   *  exponent is the k with p^(k-1) < n <= p^k. */
  lemma PrimePowerHasSmallestDivisorAsBase(n: int, p: int, k: nat)
    requires n >= 2 && p == SmallestDivisorFrom(n, 2) && Prime(p)
    requires k >= 1 && Pow(p, k - 1) < n < Pow(p, k)
    ensures !IsPrimePower(n)
  {
    if IsPrimePower(n) {
      var q: int, j: nat :| Prime(q) && j >= 1 && Pow(q, j) == n;
      PrimeDividingPrimePower(p, q, j);
      if j <= k - 1 {
        if j < k - 1 {
          PowStrictlyIncreasing(p, j, k - 1);
        }
      } else if j >= k {
        if j > k {
          PowStrictlyIncreasing(p, k, j);
        }
      }
    }
  }
}
