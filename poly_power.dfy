/**
 * Powers of a polynomial modulo another one by left-to-right binary
 * exponentiation (Polynomial.Power). The exponent is a C# int whose binary
 * digits come from Convert.ToString(k, 2); the ladder over those digits is
 * proved to compute f^k mod h.
 */
module PolyPower {
  import opened Wrappers
  import opened ModArith
  import opened Polynomials
  import opened PolyArith
  import opened PolyDivision
  import opened PolyRing

  // ---------------------------------------------------------------------
  // Adding exponents modulo h
  // ---------------------------------------------------------------------

  /** One more factor f, multiplying by f mod h instead of f. */
  lemma PowModStepReduced(f: Polynomial, k: nat, h: Polynomial)
    requires InFp(f) && InFp(h) && h.p == f.p && Degree(h) >= 0 && k >= 1
    ensures PowMod(f, k, h) == MulMod(PowMod(f, Pred(k), h), Mod(f, h).value, h)
  {
    MulModReduces(PowMod(f, Pred(k), h), f, h);
    PowModStep(f, k, h);
  }

  /** Equal exponents give equal powers. */
  lemma PowModSame(f: Polynomial, i: nat, j: nat, h: Polynomial)
    requires InFp(f) && InFp(h) && h.p == f.p && Degree(h) >= 0 && i == j
    ensures PowMod(f, i, h) == PowMod(f, j, h)
  {
  }

  /** f^0 mod h is a unit for multiplication modulo h on reduced polynomials. */
  lemma PowModZeroUnit(f: Polynomial, r: Polynomial, h: Polynomial)
    requires InFp(f) && InFp(h) && h.p == f.p && Degree(h) >= 0
    requires InFp(r) && r.p == f.p && Degree(r) < Degree(h)
    ensures MulMod(r, PowMod(f, 0, h), h) == r
  {
    MulModReduces(r, One(f.p), h);
    MulModOne(r, h);
    ModOfSmaller(r, h);
  }

  /** The base case of PowModAddTo: no factors on the right. */
  lemma PowModAddBase(f: Polynomial, a: nat, b: nat, n: nat, h: Polynomial)
    requires InFp(f) && InFp(h) && h.p == f.p && Degree(h) >= 0 && n == a + b && b == 0
    ensures MulMod(PowMod(f, a, h), PowMod(f, b, h), h) == PowMod(f, n, h)
  {
    PowModZeroUnit(f, PowMod(f, a, h), h);
    PowModSame(f, a, n, h);
  }

  /** The induction step of PowModAddTo: one more factor on the right. */
  lemma PowModAddStep(f: Polynomial, a: nat, b: nat, n: nat, h: Polynomial)
    requires InFp(f) && InFp(h) && h.p == f.p && Degree(h) >= 0 && n == a + b && b >= 1
    requires MulMod(PowMod(f, a, h), PowMod(f, Pred(b), h), h) == PowMod(f, Pred(n), h)
    ensures MulMod(PowMod(f, a, h), PowMod(f, b, h), h) == PowMod(f, n, h)
  {
    var x := Mod(f, h).value;
    PowModStepReduced(f, b, h);
    PowModStepReduced(f, n, h);
    MulModAssociative(PowMod(f, a, h), PowMod(f, Pred(b), h), x, h);
  }

  /** Adding exponents: Multiply(f^a mod h, f^b mod h, h) == f^n mod h when n == a + b. */
  lemma {:induction false} PowModAddTo(f: Polynomial, a: nat, b: nat, n: nat, h: Polynomial)
    requires InFp(f) && InFp(h) && h.p == f.p && Degree(h) >= 0 && n == a + b
    ensures MulMod(PowMod(f, a, h), PowMod(f, b, h), h) == PowMod(f, n, h)
    decreases b
  {
    if b == 0 {
      PowModAddBase(f, a, b, n, h);
    } else {
      PowModAddTo(f, a, Pred(b), Pred(n), h);
      PowModAddStep(f, a, b, n, h);
    }
  }

  // ---------------------------------------------------------------------
  // Binary digits of an int (Convert.ToString(k, 2))
  // ---------------------------------------------------------------------

  /** The range of a C# int. */
  predicate IsInt32(k: int)
  {
    -0x8000_0000 <= k < 0x8000_0000
  }

  /** The 32-bit pattern of k read as an unsigned number (two's complement for k < 0). */
  function Unsigned32(k: int): (u: nat)
    requires IsInt32(k)
    ensures u < 0x1_0000_0000
    ensures u % 0x1_0000_0000 == k % 0x1_0000_0000
    ensures k >= 0 ==> u == k
  {
    if k < 0 then k + 0x1_0000_0000 else k
  }

  /** All digits but the last. */
  function Init(s: seq<bool>): (t: seq<bool>)
    requires |s| >= 1
    ensures |t| == |s| - 1
  {
    s[..|s| - 1]
  }

  /** The last digit. */
  function Last(s: seq<bool>): bool
    requires |s| >= 1
  {
    s[|s| - 1]
  }

  /** The number a digit string denotes, most significant digit first. */
  function BitsValue(s: seq<bool>): nat
    decreases |s|
  {
    if |s| == 0 then 0 else 2 * BitsValue(Init(s)) + (if Last(s) then 1 else 0)
  }

  /** The binary digits of n, most significant first, without leading zeros; "0" for zero. */
  function Digits(n: nat): (s: seq<bool>)
    ensures |s| >= 1
    ensures s[0] == (n >= 1)
    decreases n
  {
    if n < 2 then [n == 1] else Digits(n / 2) + [n % 2 == 1]
  }

  /** A digit string as Convert.ToString writes it: no leading zero except the single digit "0". */
  predicate Canonical(s: seq<bool>)
  {
    |s| >= 1 && (s[0] || s == [false])
  }

  /** Convert.ToString(k, 2): the digits of k, or of its 32-bit two's complement when k < 0. */
  function Binary(k: int): seq<bool>
    requires IsInt32(k)
  {
    Digits(Unsigned32(k))
  }

  /** A last digit zero doubles the value of the others. */
  lemma BitsValueZero(s: seq<bool>)
    requires |s| >= 1 && !Last(s)
    ensures BitsValue(s) == BitsValue(Init(s)) + BitsValue(Init(s))
  {
  }

  /** A last digit one doubles the value of the others and adds one. */
  lemma BitsValueOne(s: seq<bool>)
    requires |s| >= 1 && Last(s)
    ensures BitsValue(s) == BitsValue(Init(s)) + BitsValue(Init(s)) + 1
  {
  }

  /** Init of a digit string with one more digit. */
  lemma InitSnoc(s: seq<bool>, b: bool)
    ensures Init(s + [b]) == s && Last(s + [b]) == b
  {
    assert (s + [b])[..|s|] == s;
  }

  /** A prefix of s followed by the next element of s is the next prefix. */
  lemma TakeSnoc(s: seq<bool>, t: seq<bool>)
    requires |t| < |s| && t == s[..|t|]
    ensures t + [s[|t|]] == s[..|t + [s[|t|]]|]
  {
  }

  /** Reading the digits of n gives n back. */
  lemma {:induction false} DigitsValue(n: nat)
    ensures BitsValue(Digits(n)) == n
    decreases n
  {
    if n >= 2 {
      DigitsValue(n / 2);
      InitSnoc(Digits(n / 2), n % 2 == 1);
    }
  }

  /** A digit string that starts with a one denotes at least 2^(|s| - 1) and less than 2^|s|. */
  lemma {:induction false} BitsValueBounds(s: seq<bool>)
    requires |s| >= 1 && s[0]
    ensures Pow(2, |s| - 1) <= BitsValue(s) < Pow(2, |s|)
    decreases |s|
  {
    if |s| >= 2 {
      BitsValueBounds(Init(s));
      assert Init(s)[0] == s[0];
    }
  }

  /** Writing out the number a canonical digit string denotes gives the string back. */
  lemma {:induction false} ValueDigits(s: seq<bool>)
    requires Canonical(s)
    ensures Digits(BitsValue(s)) == s
    decreases |s|
  {
    if |s| == 1 {
      assert s == [s[0]];
      assert Init(s) == [];
    } else {
      var t := Init(s);
      assert t[0] == s[0];
      BitsValueBounds(t);
      PowPositive(2, |t| - 1);
      ValueDigits(t);
      assert s == t + [Last(s)];
    }
  }

  /** Binary digits of n with 2^(m-1) <= n < 2^m number exactly m. */
  lemma {:induction false} DigitsLength(n: nat, m: nat)
    requires m >= 1 && Pow(2, m - 1) <= n < Pow(2, m)
    ensures |Digits(n)| == m
    decreases m
  {
    if m >= 2 {
      DigitsLength(n / 2, m - 1);
    }
  }

  /** 2^31 and 2^32. */
  lemma PowOfTwo()
    ensures Pow(2, 31) == 0x8000_0000 && Pow(2, 32) == 0x1_0000_0000
  {
    assert Pow(2, 4) == 16;
    PowAdd(2, 4, 4);
    PowAdd(2, 8, 8);
    PowAdd(2, 16, 16);
  }

  /** Convert.ToString(k, 2) is canonical and denotes k (its two's complement for negative k, which has 32 digits). */
  lemma BinaryCorrect(k: int)
    requires IsInt32(k)
    ensures Canonical(Binary(k))
    ensures BitsValue(Binary(k)) == Unsigned32(k)
    ensures k < 0 ==> |Binary(k)| == 32
    ensures (|Binary(k)| == 1) == (k == 0 || k == 1)
  {
    DigitsValue(Unsigned32(k));
    if k < 0 {
      PowOfTwo();
      DigitsLength(Unsigned32(k), 32);
    }
  }

  // ---------------------------------------------------------------------
  // The ladder
  // ---------------------------------------------------------------------

  /**
   * The value of ret in Power after the digits of s have been consumed: it starts as f (the first
   * digit) and each further digit squares it modulo h and, for a one, multiplies by f modulo h.
   */
  function Ladder(f: Polynomial, s: seq<bool>, h: Polynomial): (r: Polynomial)
    requires InFp(f) && InFp(h) && h.p == f.p && |s| >= 1 && (|s| >= 2 ==> Degree(h) >= 0)
    ensures InFp(r) && r.p == f.p
    ensures |s| >= 2 ==> Degree(r) < Degree(h)
    decreases |s|
  {
    if |s| == 1 then f
    else
      var sq := MulMod(Ladder(f, Init(s), h), Ladder(f, Init(s), h), h);
      if Last(s) then MulMod(sq, f, h) else sq
  }

  /** Squaring modulo h does not see whether the operand was reduced first. */
  lemma SquareReduced(r: Polynomial, h: Polynomial)
    requires InFp(r) && InFp(h) && h.p == r.p && Degree(h) >= 0
    ensures MulMod(Mod(r, h).value, Mod(r, h).value, h) == MulMod(r, r, h)
  {
    MulModReduces(r, Mod(r, h).value, h);
    MulModReduces(r, r, h);
  }

  /** f^1 mod h is f mod h. */
  lemma PowModFirst(f: Polynomial, n: nat, h: Polynomial)
    requires InFp(f) && InFp(h) && h.p == f.p && Degree(h) >= 0 && n == 1
    ensures PowMod(f, n, h) == Mod(f, h).value
  {
    FPowOne(f);
  }

  /** One ladder step: a zero digit doubles the exponent. */
  lemma LadderStepZero(f: Polynomial, s: seq<bool>, w: nat, v: nat, h: Polynomial)
    requires InFp(f) && InFp(h) && h.p == f.p && Degree(h) >= 0 && |s| >= 2 && !Last(s)
    requires Mod(Ladder(f, Init(s), h), h).value == PowMod(f, w, h) && v == w + w
    ensures Ladder(f, s, h) == PowMod(f, v, h)
  {
    SquareReduced(Ladder(f, Init(s), h), h);
    PowModAddTo(f, w, w, v, h);
  }

  /** One ladder step: a one digit doubles the exponent and adds one. */
  lemma LadderStepOne(f: Polynomial, s: seq<bool>, w: nat, v: nat, h: Polynomial)
    requires InFp(f) && InFp(h) && h.p == f.p && Degree(h) >= 0 && |s| >= 2 && Last(s)
    requires Mod(Ladder(f, Init(s), h), h).value == PowMod(f, w, h) && v == w + w + 1
    ensures Ladder(f, s, h) == PowMod(f, v, h)
  {
    SquareReduced(Ladder(f, Init(s), h), h);
    PowModAddTo(f, w, w, Pred(v), h);
    PowModStep(f, v, h);
  }

  /** The ladder over a digit string starting with a one computes f to the power the string denotes, modulo h. */
  lemma {:induction false} LadderMod(f: Polynomial, s: seq<bool>, h: Polynomial)
    requires InFp(f) && InFp(h) && h.p == f.p && Degree(h) >= 0 && |s| >= 1 && s[0]
    ensures Mod(Ladder(f, s, h), h).value == PowMod(f, BitsValue(s), h)
    ensures |s| >= 2 ==> Ladder(f, s, h) == PowMod(f, BitsValue(s), h)
    decreases |s|
  {
    if |s| == 1 {
      assert Init(s) == [];
      PowModFirst(f, BitsValue(s), h);
    } else {
      assert Init(s)[0] == s[0];
      LadderMod(f, Init(s), h);
      if Last(s) {
        BitsValueOne(s);
        LadderStepOne(f, s, BitsValue(Init(s)), BitsValue(s), h);
      } else {
        BitsValueZero(s);
        LadderStepZero(f, s, BitsValue(Init(s)), BitsValue(s), h);
      }
      ModOfSmaller(Ladder(f, s, h), h);
    }
  }

  /** One more digit: the ladder squares and, for a one, multiplies by f. */
  lemma LadderSnoc(f: Polynomial, s: seq<bool>, b: bool, h: Polynomial)
    requires InFp(f) && InFp(h) && h.p == f.p && Degree(h) >= 0 && |s| >= 1
    ensures Ladder(f, s + [b], h) ==
      var sq := MulMod(Ladder(f, s, h), Ladder(f, s, h), h);
      if b then MulMod(sq, f, h) else sq
  {
    InitSnoc(s, b);
  }

  // ---------------------------------------------------------------------
  // Polynomial.Power
  // ---------------------------------------------------------------------

  /**
   * Power(k, h): ret starts as a copy of f and runs the ladder over Convert.ToString(k, 2). The
   * first Multiply throws when h is zero; with a single digit (k = 0 or 1) nothing is multiplied.
   */
  function PowerOf(f: Polynomial, k: int, h: Polynomial): (r: Result<Polynomial>)
    requires InFp(f) && InFp(h) && h.p == f.p && IsInt32(k)
    ensures r.Failure? ==> r.error == DivisionByZeroPolynomial
    ensures r.Success? ==> InFp(r.value) && r.value.p == f.p
  {
    var binary := Binary(k);
    if |binary| == 1 then Success(f)
    else if Degree(h) < 0 then Failure(DivisionByZeroPolynomial)
    else Success(Ladder(f, binary, h))
  }

  /**
   * What Power computes: f itself for k = 0 and k = 1; otherwise a division by zero for a zero
   * modulus, and f^k mod h, where a negative k counts as k + 2^32.
   */
  lemma PowerIsPowMod(f: Polynomial, k: int, h: Polynomial)
    requires InFp(f) && InFp(h) && h.p == f.p && IsInt32(k)
    ensures k == 0 || k == 1 ==> PowerOf(f, k, h) == Success(f)
    ensures k != 0 && k != 1 && Degree(h) < 0 ==> PowerOf(f, k, h) == Failure(DivisionByZeroPolynomial)
    ensures k != 0 && k != 1 && Degree(h) >= 0 ==> PowerOf(f, k, h) == Success(PowMod(f, Unsigned32(k), h))
  {
    BinaryCorrect(k);
    if k != 0 && k != 1 && Degree(h) >= 0 {
      LadderMod(f, Binary(k), h);
    }
  }

  /** Polynomial.Power: the loop over the binary digits of k after the leading one. */
  method Power(f: Polynomial, k: int, h: Polynomial) returns (r: Result<Polynomial>)
    requires InFp(f) && InFp(h) && h.p == f.p && IsInt32(k)
    ensures r == PowerOf(f, k, h)
  {
    var binary := Binary(k);
    var ret := f;
    ghost var done := binary[..1];
    assert done == [binary[0]];
    var i := 1;
    while i < |binary|
      invariant 1 <= i <= |binary| && i == |done| && done == binary[..|done|]
      invariant i >= 2 ==> Degree(h) >= 0
      invariant ret == Ladder(f, done, h)
    {
      var sq := Multiply(ret, ret, h);
      if sq.Failure? {
        return Failure(sq.error);
      }
      LadderSnoc(f, done, binary[i], h);
      TakeSnoc(binary, done);
      ret := sq.value;
      if binary[i] {
        ret := Multiply(ret, f, h).value;
      }
      done := done + [binary[i]];
      i := i + 1;
      assert i == |done|;
    }
    assert done == binary;
    return Success(ret);
  }
}
