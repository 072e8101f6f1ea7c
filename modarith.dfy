/**
 * Integer facts the engine relies on: powers (the source's Math.Pow on
 * integers), C#'s truncating remainder operator, and congruences modulo p.
 */
module ModArith {

  /** b^e; the source computes it with Math.Pow on doubles, exact at teaching scale. */
  function Pow(b: int, e: nat): int
  {
    if e == 0 then 1 else b * Pow(b, e - 1)
  }

  lemma {:induction false} PowPositive(b: int, e: nat)
    requires b > 0
    ensures Pow(b, e) > 0
  {
    if e > 0 {
      PowPositive(b, e - 1);
      MulPositive(b, Pow(b, e - 1));
    }
  }

  lemma {:induction false} PowAtLeastBase(b: int, e: nat)
    requires b > 1 && e >= 1
    ensures Pow(b, e) >= b
  {
    PowPositive(b, e - 1);
    MulAtLeast(b, Pow(b, e - 1));
  }

  lemma {:induction false} PowAdd(b: int, e1: nat, e2: nat)
    ensures Pow(b, e1 + e2) == Pow(b, e1) * Pow(b, e2)
  {
    if e1 > 0 {
      PowAdd(b, e1 - 1, e2);
      assert Pow(b, e1 + e2) == b * Pow(b, e1 - 1 + e2);
    }
  }

  /** The remainder operator `%` of C#: the result has the sign of the dividend. */
  function CsRem(a: int, m: int): (r: int)
    requires m > 0
    ensures a >= 0 ==> r == a % m
    ensures -m < r < m
  {
    if a >= 0 then a % m else -((-a) % m)
  }

  /** The C# remainder is congruent to its dividend. */
  lemma CsRemCongruent(a: int, m: int)
    requires m > 0
    ensures CsRem(a, m) % m == a % m
  {
    if a < 0 {
      var q, r := (-a) / m, (-a) % m;
      assert a == -r + m * (-q);
      ModAddMultiple(-r, m, -q);
    }
  }

  lemma MulPositive(a: int, b: int)
    requires a > 0 && b > 0
    ensures a * b > 0
  {
  }

  lemma {:induction false} MulAtLeast(p: int, t: int)
    requires p > 0 && t >= 1
    ensures p * t >= p
  {
    if t > 1 {
      MulAtLeast(p, t - 1);
      assert p * t == p * (t - 1) + p;
    }
  }

  lemma MulNonNegative(a: int, b: int)
    requires a >= 0 && b >= 0
    ensures a * b >= 0
  {
  }

  lemma MulCancelPositive(a: int, b: int)
    requires a > 0 && a * b > 0
    ensures b > 0
  {
  }

  /** i < n*m bounds the quotient i / n by m. */
  lemma DivBelow(i: int, n: int, m: int)
    requires n > 0 && 0 <= i < n * m
    ensures 0 <= i / n < m
  {
    assert i == n * (i / n) + i % n;
    assert n * (m - i / n) > 0;
    MulCancelPositive(n, m - i / n);
  }

  /** Dividing by n and then by m is dividing by n*m. */
  lemma DivDiv(i: int, n: int, m: int)
    requires i >= 0 && n > 0 && m > 0
    ensures (i / n) / m == i / (n * m)
  {
    var q1, r1 := i / n, i % n;
    var q2, r2 := q1 / m, q1 % m;
    assert i == n * q1 + r1;
    assert q1 == m * q2 + r2;
    assert i == (n * m) * q2 + (n * r2 + r1);
    assert n * r2 + r1 < n * m by {
      assert n * (m - 1 - r2) >= 0 by { MulNonNegative(n, m - 1 - r2); }
    }
    MulNonNegative(n, r2);
    ModUnique(i, n * m, q2, n * r2 + r1);
  }

  /** x = p*k + r with 0 <= r < p determines both quotient and remainder. */
  lemma ModUnique(x: int, p: int, k: int, r: int)
    requires p > 0 && 0 <= r < p && x == p * k + r
    ensures x % p == r && x / p == k
  {
    var q, m := x / p, x % p;
    assert x == p * q + m;
    assert p * (k - q) == m - r;
    if k - q >= 1 {
      MulAtLeast(p, k - q);
    } else if q - k >= 1 {
      MulAtLeast(p, q - k);
    }
  }

  lemma ModAddMultiple(x: int, p: int, k: int)
    requires p > 0
    ensures (x + p * k) % p == x % p
  {
    assert x + p * k == p * (x / p + k) + x % p;
    ModUnique(x + p * k, p, x / p + k, x % p);
  }

  lemma ModOfMultiple(p: int, k: int)
    requires p > 0
    ensures (p * k) % p == 0
  {
    ModUnique(p * k, p, k, 0);
  }

  lemma ModIdempotent(x: int, p: int)
    requires p > 0
    ensures (x % p) % p == x % p
  {
    ModUnique(x % p, p, 0, x % p);
  }

  lemma ModSmall(x: int, p: int)
    requires 0 <= x < p
    ensures x % p == x
  {
    ModUnique(x, p, 0, x);
  }

  lemma ModAdd(a: int, b: int, p: int)
    requires p > 0
    ensures (a + b) % p == (a % p + b % p) % p
  {
    assert a + b == (a % p + b % p) + p * (a / p + b / p);
    ModAddMultiple(a % p + b % p, p, a / p + b / p);
  }

  lemma ModMul(a: int, b: int, p: int)
    requires p > 0
    ensures (a * b) % p == ((a % p) * (b % p)) % p
  {
    var qa, ra, qb, rb := a / p, a % p, b / p, b % p;
    assert a == p * qa + ra;
    assert b == p * qb + rb;
    calc {
      a * b;
      (p * qa + ra) * (p * qb + rb);
      ra * rb + p * (qa * p * qb + qa * rb + ra * qb);
    }
    ModAddMultiple(ra * rb, p, qa * p * qb + qa * rb + ra * qb);
  }

  /** Congruences: a % p == b % p, written out with these helpers. */
  lemma CongAdd(a: int, b: int, c: int, d: int, p: int)
    requires p > 0 && a % p == b % p && c % p == d % p
    ensures (a + c) % p == (b + d) % p
  {
    ModAdd(a, c, p);
    ModAdd(b, d, p);
  }

  lemma CongMul(a: int, b: int, c: int, p: int)
    requires p > 0 && a % p == b % p
    ensures (a * c) % p == (b * c) % p
  {
    ModMul(a, c, p);
    ModMul(b, c, p);
  }

  lemma CongNeg(a: int, b: int, p: int)
    requires p > 0 && a % p == b % p
    ensures (-a) % p == (-b) % p
  {
    CongMul(a, b, -1, p);
    assert a * -1 == -a && b * -1 == -b;
  }

  /** Reducing one summand first does not change the sum's remainder. */
  lemma ModAbsorb(a: int, b: int, p: int)
    requires p > 0
    ensures (a % p + b) % p == (a + b) % p
  {
    ModIdempotent(a, p);
    CongAdd(a % p, a, b, b, p);
  }

  /** The same, for a value known to be a reduced summand plus b. */
  lemma ModAbsorbInto(x: int, y: int, a: int, b: int, p: int)
    requires p > 0 && y == a % p && x == (y + b) % p
    ensures x == (a + b) % p
  {
    ModAbsorb(a, b, p);
  }

  /** Addition mod p is associative. */
  lemma ModSumAssociative(x: int, y: int, z: int, p: int)
    requires p > 0
    ensures ((x + y) % p + z) % p == (x + (y + z) % p) % p
  {
    var u, v := (x + y) % p, (y + z) % p;
    ModAbsorbInto(((x + y) % p + z) % p, u, x + y, z, p);
    ModAbsorbInto((v + x) % p, v, y + z, x, p);
    assert x + v == v + x;
  }

  lemma ModOfMod(a: int, p: int)
    requires p > 0
    ensures (a % p) % p == a % p
  {
    ModIdempotent(a, p);
  }
}
