/**
 * The calculator's text forms: int.ToString for the numbers it prints, and
 * Polynomial.ToString, which lists the nonzero terms from the constant term
 * up, joined by " + ".
 */
module PolyText {
  import opened Wrappers
  import opened Polynomials

  // ---------------------------------------------------------------------
  // Decimal numbers
  // ---------------------------------------------------------------------

  predicate IsDigit(ch: char)
  {
    '0' <= ch <= '9'
  }

  predicate AllDigits(s: string)
  {
    forall i :: 0 <= i < |s| ==> IsDigit(s[i])
  }

  function DigitChar(d: int): (ch: char)
    requires 0 <= d < 10
    ensures IsDigit(ch)
  {
    ('0' as int + d) as char
  }

  function DigitValue(ch: char): (d: int)
    requires IsDigit(ch)
    ensures 0 <= d < 10
  {
    ch as int - '0' as int
  }

  /** The decimal digits of n, most significant first, with no leading zero. */
  function NatToString(n: nat): (s: string)
    ensures |s| >= 1 && AllDigits(s)
    ensures s[0] == '0' ==> n == 0
    ensures n == 0 ==> s == "0"
  {
    if n < 10 then [DigitChar(n)] else NatToString(n / 10) + [DigitChar(n % 10)]
  }

  /** int.ToString() (invariant culture): a minus sign before the digits of a negative number. */
  function IntToString(n: int): (s: string)
  {
    if n < 0 then "-" + NatToString(-n) else NatToString(n)
  }

  /** The value of a string of decimal digits. */
  function ParseNat(s: string): nat
    requires AllDigits(s)
  {
    if |s| == 0 then 0 else 10 * ParseNat(s[..|s| - 1]) + DigitValue(s[|s| - 1])
  }

  /** Reading a number back: an optional minus sign, then at least one digit. */
  function ParseInt(s: string): (r: Option<int>)
  {
    if |s| >= 2 && s[0] == '-' && AllDigits(s[1..]) then var v: int := ParseNat(s[1..]); Some(-v)
    else if |s| >= 1 && AllDigits(s) then Some(ParseNat(s))
    else None
  }

  /** A digit string that int.ToString can produce: no leading zero unless it is "0". */
  predicate NoLeadingZero(s: string)
  {
    |s| >= 1 && (s[0] == '0' ==> |s| == 1)
  }

  /** Reading the digits of n gives back n. */
  lemma {:induction false} NatRoundTrip(n: nat)
    ensures ParseNat(NatToString(n)) == n
  {
    if n >= 10 {
      var s := NatToString(n);
      NatRoundTrip(n / 10);
      assert s[..|s| - 1] == NatToString(n / 10);
    }
  }

  /** Reading int.ToString(n) gives back n. */
  lemma IntRoundTrip(n: int)
    ensures ParseInt(IntToString(n)) == Some(n)
  {
    if n < 0 {
      NegativeRoundTrip(-n, IntToString(n));
    } else {
      var t := NatToString(n);
      assert IsDigit(t[0]);
      NatRoundTrip(n);
    }
  }

  /** A minus sign before the digits of m reads back as -m. */
  lemma NegativeRoundTrip(m: int, s: string)
    requires m >= 1 && s == "-" + NatToString(m)
    ensures ParseInt(s) == Some(-m)
  {
    var t := NatToString(m);
    assert s[1..] == t;
    NatRoundTrip(m);
  }

  /** The leading digit bounds the value from below: a leading nonzero digit means a positive value. */
  lemma {:induction false} LeadingDigitPositive(s: string)
    requires AllDigits(s) && |s| >= 1 && s[0] != '0'
    ensures ParseNat(s) >= 1
  {
    if |s| >= 2 {
      LeadingDigitPositive(s[..|s| - 1]);
    }
  }

  /** Every digit string without a leading zero is the text of its value. */
  lemma {:induction false} DigitsRoundTrip(s: string)
    requires AllDigits(s) && NoLeadingZero(s)
    ensures NatToString(ParseNat(s)) == s
  {
    var n := ParseNat(s);
    if |s| >= 2 {
      var init := s[..|s| - 1];
      LeadingDigitPositive(init);
      DigitsRoundTrip(init);
      assert n / 10 == ParseNat(init) && n % 10 == DigitValue(s[|s| - 1]);
      assert s == init + [s[|s| - 1]];
    }
  }

  /** So int.ToString is injective: different numbers print differently. */
  lemma IntToStringInjective(m: int, n: int)
    requires IntToString(m) == IntToString(n)
    ensures m == n
  {
    IntRoundTrip(m);
    IntRoundTrip(n);
  }

  // ---------------------------------------------------------------------
  // Polynomial.ToString
  // ---------------------------------------------------------------------

  /**
   * One nonzero term c x^k as ToString writes it: the number alone for the
   * constant term, "x" or "cx" for k = 1, "x^k" or "cx^k" above.
   */
  function TermText(c: int, k: nat): string
  {
    if k == 0 then IntToString(c)
    else if k == 1 then (if c == 1 then "x" else IntToString(c) + "x")
    else if c == 1 then "x^" + IntToString(k)
    else IntToString(c) + "x^" + IntToString(k)
  }

  /** The texts of the nonzero entries among the first n of c, constant term first. */
  function TermTexts(c: seq<int>, n: nat): (ts: seq<string>)
    requires n <= |c|
    ensures |ts| <= n
  {
    if n == 0 then []
    else TermTexts(c, n - 1) + (if c[n - 1] != 0 then [TermText(c[n - 1], n - 1)] else [])
  }

  /** Every text followed by " + ". */
  function Separated(ts: seq<string>): string
  {
    if |ts| == 0 then "" else Separated(ts[..|ts| - 1]) + ts[|ts| - 1] + " + "
  }

  /** The texts joined by " + ". */
  function Join(ts: seq<string>): string
  {
    if |ts| == 0 then "" else Separated(ts[..|ts| - 1]) + ts[|ts| - 1]
  }

  /**
   * The intended rendering of a polynomial: "0" for the zero polynomial,
   * otherwise its nonzero terms from the constant term up, joined by " + ".
   */
  function Text(f: Polynomial): string
  {
    if Degree(f) == -1 then "0" else Join(TermTexts(f.coeffs, |f.coeffs|))
  }

  /** A constant prints as its number. */
  lemma TextOfConstant(f: Polynomial)
    requires Degree(f) == 0
    ensures Text(f) == IntToString(f.coeffs[0])
  {
    var ts := TermTexts(f.coeffs, 1);
    assert ts == [TermText(f.coeffs[0], 0)];
    assert Join(ts) == Separated([]) + ts[0];
  }

  /** The highest term comes last: the text ends with the leading term. */
  lemma TextEndsWithLeadingTerm(f: Polynomial)
    requires Degree(f) >= 1
    ensures var n := |f.coeffs|;
      Text(f) == Separated(TermTexts(f.coeffs, n - 1)) + TermText(f.coeffs[n - 1], n - 1)
  {
    var d := Degree(f);
    assert f.coeffs[d] != 0 by {
      assert Coef(f, d) != 0;
    }
    JoinTermsLast(f.coeffs);
  }

  /** With a nonzero last entry, the joined texts end with the text of that entry. */
  lemma JoinTermsLast(c: seq<int>)
    requires |c| >= 1 && c[|c| - 1] != 0
    ensures Join(TermTexts(c, |c|)) == Separated(TermTexts(c, |c| - 1)) + TermText(c[|c| - 1], |c| - 1)
  {
    JoinLast(TermTexts(c, |c| - 1), TermText(c[|c| - 1], |c| - 1));
  }

  /** Joining texts whose last entry is t: the others separated, then t. */
  lemma JoinLast(init: seq<string>, t: string)
    ensures Join(init + [t]) == Separated(init) + t
  {
    var ts := init + [t];
    assert ts[..|ts| - 1] == init;
  }

  /** Appending one more entry to the separated prefix. */
  lemma SeparatedStep(c: seq<int>, k: nat)
    requires k < |c|
    ensures Separated(TermTexts(c, k + 1)) ==
      if c[k] != 0 then Separated(TermTexts(c, k)) + TermText(c[k], k) + " + " else Separated(TermTexts(c, k))
  {
    var ts := TermTexts(c, k + 1);
    if c[k] != 0 {
      assert ts[..|ts| - 1] == TermTexts(c, k);
    } else {
      assert ts == TermTexts(c, k);
    }
  }

  /** ToString: the constant, the middle terms in a loop, then the leading term. */
  method ToString(f: Polynomial) returns (s: string)
    ensures s == Text(f)
  {
    var c := f.coeffs;
    if Degree(f) == -1 {
      return IntToString(0);
    }
    if Degree(f) == 0 {
      TextOfConstant(f);
      return IntToString(c[0]);
    }
    var builder := "";
    if c[0] != 0 {
      builder := IntToString(c[0]) + " + ";
    }
    SeparatedFirst(c, builder);
    for k := 1 to |c| - 1
      invariant builder == Separated(TermTexts(c, k))
    {
      var piece := MiddleTerm(c[k], k);
      SeparatedAppend(c, k, builder, piece);
      builder := builder + piece;
    }
    var last := LeadingTerm(c[|c| - 1], |c| - 1);
    TextAppendLast(f, builder, last);
    builder := builder + last;
    return builder;
  }

  /** The loop body of ToString: the text appended for the entry c at position k >= 1. */
  method MiddleTerm(c: int, k: nat) returns (piece: string)
    requires k >= 1
    ensures c == 0 ==> piece == ""
    ensures c != 0 ==> piece == TermText(c, k) + " + "
  {
    piece := "";
    if k == 1 {
      if c == 1 {
        piece := "x + ";
      } else if c != 0 {
        piece := IntToString(c) + "x + ";
      }
    } else {
      if c == 1 {
        piece := "x^" + IntToString(k) + " + ";
      } else if c != 0 {
        piece := IntToString(c) + "x^" + IntToString(k) + " + ";
      }
    }
  }

  /** The tail of ToString: the text appended for the leading entry c at position n >= 1. */
  method LeadingTerm(c: int, n: nat) returns (last: string)
    requires n >= 1
    ensures c != 0 ==> last == TermText(c, n)
  {
    last := "";
    if n == 1 {
      if c == 1 {
        last := "x";
      } else if c != 0 {
        last := IntToString(c) + "x";
      }
    } else {
      if c == 1 {
        last := "x^" + IntToString(n);
      } else if c != 0 {
        last := IntToString(c) + "x^" + IntToString(n);
      }
    }
  }

  /** Before the ToString loop the builder holds the constant term and its separator, or nothing. */
  lemma SeparatedFirst(c: seq<int>, builder: string)
    requires |c| >= 1
    requires builder == if c[0] != 0 then IntToString(c[0]) + " + " else ""
    ensures builder == Separated(TermTexts(c, 1))
  {
    SeparatedStep(c, 0);
  }

  /** What one pass of the ToString loop appends is the term at k followed by " + ", or nothing for a zero entry. */
  lemma SeparatedAppend(c: seq<int>, k: nat, builder: string, piece: string)
    requires 1 <= k < |c| && builder == Separated(TermTexts(c, k))
    requires c[k] == 0 ==> piece == ""
    requires c[k] != 0 ==> piece == TermText(c[k], k) + " + "
    ensures builder + piece == Separated(TermTexts(c, k + 1))
  {
    SeparatedStep(c, k);
    if c[k] == 0 {
      assert builder + piece == builder;
    }
  }

  /** The last append of ToString completes the text with the leading term. */
  lemma TextAppendLast(f: Polynomial, builder: string, last: string)
    requires Degree(f) >= 1
    requires builder == Separated(TermTexts(f.coeffs, |f.coeffs| - 1))
    requires last == TermText(f.coeffs[|f.coeffs| - 1], |f.coeffs| - 1)
    ensures builder + last == Text(f)
  {
    TextEndsWithLeadingTerm(f);
  }
}
