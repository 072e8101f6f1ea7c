/**
 * The element list of GF(p^k) as SetFieldElements builds it: one polynomial
 * per coefficient tuple of length k over 0..p-1, then List.Sort with the
 * polynomial order.
 */
module FieldElements {
  import opened ModArith
  import opened NumberTheory
  import Combinatorics
  import opened Polynomials
  import opened PolyDivision

  // ---------------------------------------------------------------------
  // Sorting by the polynomial order
  // ---------------------------------------------------------------------

  /** Every entry is a polynomial over the base prime p. */
  predicate OverBase(s: seq<Polynomial>, p: int)
  {
    forall i :: 0 <= i < |s| ==> s[i].p == p
  }

  /** Each entry precedes the next one in the order of operator <. */
  predicate Ascending(s: seq<Polynomial>)
  {
    forall i :: 0 < i < |s| ==> Precedes(s[i - 1], s[i])
  }

  /** x placed before the first entry it does not follow. */
  function Insert(x: Polynomial, s: seq<Polynomial>): (r: seq<Polynomial>)
    ensures |r| == |s| + 1
    ensures multiset(r) == multiset(s) + multiset{x}
  {
    if |s| == 0 then [x]
    else if Precedes(s[0], x) then
      assert s == [s[0]] + s[1..];
      [s[0]] + Insert(x, s[1..])
    else [x] + s
  }

  /**
   * List.Sort with CompareTo, written as an insertion sort: the entries
   * rearranged into ascending order. AscendingUnique shows that every
   * sorting algorithm yields this same list on duplicate-free input.
   */
  function Sorted(s: seq<Polynomial>): (r: seq<Polynomial>)
    ensures |r| == |s|
    ensures multiset(r) == multiset(s)
  {
    if |s| == 0 then []
    else
      assert s == [s[0]] + s[1..];
      Insert(s[0], Sorted(s[1..]))
  }

  /** An entry of a sequence is an entry of any rearrangement of it. */
  lemma MultisetMember(s: seq<Polynomial>, t: seq<Polynomial>, i: int)
    requires multiset(s) == multiset(t) && 0 <= i < |s|
    ensures s[i] in t
  {
    assert s[i] in multiset(s);
  }

  /** Inserting a new element into an ascending list keeps it ascending. */
  lemma {:induction false} InsertAscending(x: Polynomial, s: seq<Polynomial>, p: int)
    requires Ascending(s) && OverBase(s, p) && x.p == p && x !in s
    ensures Ascending(Insert(x, s))
  {
    if |s| > 0 {
      if Precedes(s[0], x) {
        var t := s[1..];
        assert forall i :: 0 <= i < |t| ==> t[i] == s[i + 1];
        InsertAscending(x, t, p);
        var r := Insert(x, t);
        assert Precedes(s[0], r[0]) by {
          if |t| > 0 && Precedes(t[0], x) {
            assert r[0] == t[0] == s[1];
          } else {
            assert r[0] == x;
          }
        }
        var q := [s[0]] + r;
        assert q == Insert(x, s);
        forall i | 0 < i < |q| ensures Precedes(q[i - 1], q[i]) {
          if i > 1 {
            assert q[i - 1] == r[i - 2] && q[i] == r[i - 1];
          }
        }
      } else {
        PrecedesTrichotomy(s[0], x);
        var q := [x] + s;
        forall i | 0 < i < |q| ensures Precedes(q[i - 1], q[i]) {
          if i > 1 {
            assert q[i - 1] == s[i - 2] && q[i] == s[i - 1];
          }
        }
      }
    }
  }

  /** Sorting a duplicate-free list over one base prime yields an ascending list over that prime. */
  lemma {:induction false} SortedAscending(s: seq<Polynomial>, p: int)
    requires OverBase(s, p) && Combinatorics.Distinct(s)
    ensures Ascending(Sorted(s)) && OverBase(Sorted(s), p)
  {
    if |s| > 0 {
      var t := s[1..];
      assert forall i :: 0 <= i < |t| ==> t[i] == s[i + 1];
      SortedAscending(t, p);
      assert s[0] !in t;
      assert s[0] !in Sorted(t) by {
        if s[0] in Sorted(t) {
          var j :| 0 <= j < |Sorted(t)| && Sorted(t)[j] == s[0];
          MultisetMember(Sorted(t), t, j);
        }
      }
      InsertAscending(s[0], Sorted(t), p);
    }
    forall i | 0 <= i < |Sorted(s)| ensures Sorted(s)[i].p == p {
      MultisetMember(Sorted(s), s, i);
    }
  }

  /** In an ascending list every earlier entry precedes every later one. */
  lemma {:induction false} AscendingPairwise(s: seq<Polynomial>, i: int, j: int)
    requires Ascending(s) && 0 <= i < j < |s|
    ensures Precedes(s[i], s[j])
    decreases j - i
  {
    if i + 1 < j {
      AscendingPairwise(s, i, j - 1);
      PrecedesTransitive(s[i], s[j - 1], s[j]);
    }
  }

  /** An ascending list over one base prime has no duplicates. */
  lemma AscendingDistinct(s: seq<Polynomial>, p: int)
    requires Ascending(s) && OverBase(s, p)
    ensures Combinatorics.Distinct(s)
  {
    forall i, j | 0 <= i < j < |s| ensures s[i] != s[j] {
      AscendingPairwise(s, i, j);
      PrecedesTrichotomy(s[i], s[j]);
    }
  }

  /** Two ascending arrangements of the same entries start with the same entry, their minimum. */
  lemma AscendingSameFirst(a: seq<Polynomial>, b: seq<Polynomial>, p: int)
    requires Ascending(a) && Ascending(b) && OverBase(a, p) && OverBase(b, p)
    requires multiset(a) == multiset(b) && |a| > 0 && |b| > 0
    ensures a[0] == b[0]
  {
    MultisetMember(a, b, 0);
    MultisetMember(b, a, 0);
    var j :| 0 <= j < |b| && b[j] == a[0];
    var i :| 0 <= i < |a| && a[i] == b[0];
    if a[0] != b[0] {
      AscendingPairwise(a, 0, i);
      AscendingPairwise(b, 0, j);
      PrecedesTrichotomy(a[0], b[0]);
    }
  }

  /**
   * Two ascending arrangements of the same entries over one base prime are
   * the same list, so the sorted element list does not depend on how List.Sort
   * sorts.
   */
  lemma {:induction false} AscendingUnique(a: seq<Polynomial>, b: seq<Polynomial>, p: int)
    requires Ascending(a) && Ascending(b) && OverBase(a, p) && OverBase(b, p)
    requires multiset(a) == multiset(b)
    ensures a == b
  {
    assert |a| == |multiset(a)| == |multiset(b)| == |b|;
    if |a| > 0 {
      AscendingSameFirst(a, b, p);
      AscendingTail(a, p);
      AscendingTail(b, p);
      MultisetTail(a, b);
      AscendingUnique(a[1..], b[1..], p);
      assert a == [a[0]] + a[1..] && b == [b[0]] + b[1..];
    }
  }

  /** Dropping the first entry keeps a list ascending and over p. */
  lemma AscendingTail(a: seq<Polynomial>, p: int)
    requires Ascending(a) && OverBase(a, p) && |a| > 0
    ensures Ascending(a[1..]) && OverBase(a[1..], p)
  {
    var t := a[1..];
    assert forall k :: 0 <= k < |t| ==> t[k] == a[k + 1];
  }

  /** Rearrangements with the same first entry agree on the rest. */
  lemma MultisetTail(a: seq<Polynomial>, b: seq<Polynomial>)
    requires |a| > 0 && |b| > 0 && a[0] == b[0] && multiset(a) == multiset(b)
    ensures multiset(a[1..]) == multiset(b[1..])
  {
    assert a == [a[0]] + a[1..] && b == [b[0]] + b[1..];
    assert multiset(a) == multiset{a[0]} + multiset(a[1..]);
    assert multiset(b) == multiset{b[0]} + multiset(b[1..]);
    assert multiset(a[1..]) == multiset(a) - multiset{a[0]};
    assert multiset(b[1..]) == multiset(b) - multiset{b[0]};
  }

  // ---------------------------------------------------------------------
  // The element list
  // ---------------------------------------------------------------------

  /** Different coefficient tuples of one length make different polynomials. */
  lemma MakeInjective(a: seq<int>, b: seq<int>, p: int)
    requires |a| == |b| && Make(a, p) == Make(b, p)
    ensures a == b
  {
    forall i | 0 <= i < |a| ensures a[i] == b[i] {
      TrimKeepsCoefficients(a, p, i);
      TrimKeepsCoefficients(b, p, i);
    }
  }

  /** The polynomials of all coefficient tuples are pairwise different. */
  lemma ResiduePolysDistinct(p: int, k: nat)
    requires p >= 0 && k >= 1
    ensures Combinatorics.Distinct(ResiduePolys(p, k))
  {
    var pool := Residues(p);
    var tuples := Combinatorics.PermutationsWithRept(pool, k);
    assert Combinatorics.Distinct(pool);
    Combinatorics.PermutationsWithReptDistinct(pool, k);
    ResidueTuples(p, k);
    var r := ResiduePolys(p, k);
    forall i, j | 0 <= i < j < |r| ensures r[i] != r[j] {
      assert tuples[i] in tuples && tuples[j] in tuples;
      if r[i] == r[j] {
        MakeInjective(tuples[i], tuples[j], p);
      }
    }
  }

  /** _fieldElements after SetFieldElements: the polynomials of all tuples, sorted. */
  function FieldElementsOf(p: int, k: nat): seq<Polynomial>
    requires p >= 0 && k >= 1
  {
    Sorted(ResiduePolys(p, k))
  }

  /** There are p^k field elements. */
  lemma FieldElementsCount(p: int, k: nat)
    requires p >= 0 && k >= 1
    ensures |FieldElementsOf(p, k)| == Pow(p, k)
  {
    Combinatorics.PermutationsWithReptCount(Residues(p), k);
  }

  /** The field elements are exactly the reduced polynomials over p of degree below k. */
  lemma FieldElementsMembers(p: int, k: nat, x: Polynomial)
    requires Prime(p) && k >= 1
    ensures x in FieldElementsOf(p, k) <==> InFp(x) && x.p == p && Degree(x) < k
  {
    var r := ResiduePolys(p, k);
    var s := FieldElementsOf(p, k);
    if x in s {
      var j :| 0 <= j < |s| && s[j] == x;
      MultisetMember(s, r, j);
      var i :| 0 <= i < |r| && r[i] == x;
      ResiduePolysInFp(p, k);
    }
    if InFp(x) && x.p == p && Degree(x) < k {
      var i := ResiduePolysComplete(p, k, x);
      MultisetMember(r, s, i);
    }
  }

  /** The field elements are in strictly ascending order, all over p. */
  lemma FieldElementsAscending(p: int, k: nat)
    requires Prime(p) && k >= 1
    ensures Ascending(FieldElementsOf(p, k)) && OverBase(FieldElementsOf(p, k), p)
  {
    var r := ResiduePolys(p, k);
    ResiduePolysDistinct(p, k);
    ResiduePolysInFp(p, k);
    SortedAscending(r, p);
  }

  /** Any ascending list of exactly the field elements is the element list. */
  lemma FieldElementsUnique(p: int, k: nat, s: seq<Polynomial>)
    requires Prime(p) && k >= 1
    requires Ascending(s) && multiset(s) == multiset(ResiduePolys(p, k))
    ensures s == FieldElementsOf(p, k)
  {
    FieldElementsAscending(p, k);
    forall i | 0 <= i < |s| ensures s[i].p == p {
      MultisetMember(s, FieldElementsOf(p, k), i);
      FieldElementsMembers(p, k, s[i]);
    }
    AscendingUnique(s, FieldElementsOf(p, k), p);
  }

  /** Zero comes first: it has the lowest degree. */
  lemma FieldElementsStartWithZero(p: int, k: nat)
    requires Prime(p) && k >= 1
    ensures |FieldElementsOf(p, k)| >= 1 && FieldElementsOf(p, k)[0] == Zero(p)
  {
    var s := FieldElementsOf(p, k);
    FieldElementsMembers(p, k, Zero(p));
    var i :| 0 <= i < |s| && s[i] == Zero(p);
    if i > 0 {
      FieldElementsAscending(p, k);
      AscendingPairwise(s, 0, i);
    }
  }
}
