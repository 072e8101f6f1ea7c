/**
 * The enumerators and random draws of the MathUtils.Combinatorics helper.
 *
 * Each enumerator is a recursion on k: the k = 1 case lists the singletons in
 * pool order, and step k extends every (k-1)-tuple t, in order, by the pool
 * elements that pass a filter depending on t (LINQ SelectMany over Where).
 * The random index of the shuffles and draws is an arbitrary in-range choice.
 */
module Combinatorics {
  import opened Wrappers
  import opened ModArith

  // ---------------------------------------------------------------------
  // Sequence vocabulary
  // ---------------------------------------------------------------------

  ghost predicate Distinct<T>(s: seq<T>)
  {
    forall i, j :: 0 <= i < j < |s| ==> s[i] != s[j]
  }

  ghost predicate AllIn<T>(s: seq<T>, pool: seq<T>)
  {
    forall i :: 0 <= i < |s| ==> s[i] in pool
  }

  predicate NonDecreasing(s: seq<int>)
  {
    forall i :: 0 < i < |s| ==> s[i - 1] <= s[i]
  }

  predicate StrictlyIncreasing(s: seq<int>)
  {
    forall i :: 0 < i < |s| ==> s[i - 1] < s[i]
  }

  /** How each shape predicate splits between a tuple's prefix and its last element. */
  lemma PrefixDistinct<T>(s: seq<T>)
    requires |s| >= 1
    ensures Distinct(s) <==> Distinct(s[..|s| - 1]) && s[|s| - 1] !in s[..|s| - 1]
  {
    var u := s[..|s| - 1];
    assert forall i :: 0 <= i < |u| ==> s[i] == u[i];
    if Distinct(s) {
      forall i | 0 <= i < |u| ensures u[i] != s[|s| - 1] {
        assert s[i] != s[|s| - 1];
      }
    }
    if Distinct(u) && s[|s| - 1] !in u {
      forall i, j | 0 <= i < j < |s| ensures s[i] != s[j] {
        if j == |u| {
          assert s[i] == u[i];
        }
      }
    }
  }

  lemma PrefixAllIn<T>(s: seq<T>, pool: seq<T>)
    requires |s| >= 1
    ensures AllIn(s, pool) <==> AllIn(s[..|s| - 1], pool) && s[|s| - 1] in pool
  {
    var u := s[..|s| - 1];
    assert forall i :: 0 <= i < |u| ==> s[i] == u[i];
  }

  lemma PrefixNonDecreasing(s: seq<int>)
    requires |s| >= 1
    ensures NonDecreasing(s) <==> NonDecreasing(s[..|s| - 1]) && NotBelowLast(s[..|s| - 1], s[|s| - 1])
  {
    var u := s[..|s| - 1];
    assert forall i :: 0 <= i < |u| ==> s[i] == u[i];
    if NonDecreasing(s) {
      forall i | 0 < i < |u| ensures u[i - 1] <= u[i] {
        assert s[i - 1] <= s[i];
      }
    }
  }

  lemma PrefixStrictlyIncreasing(s: seq<int>)
    requires |s| >= 1
    ensures StrictlyIncreasing(s) <==> StrictlyIncreasing(s[..|s| - 1]) && AboveLast(s[..|s| - 1], s[|s| - 1])
  {
    var u := s[..|s| - 1];
    assert forall i :: 0 <= i < |u| ==> s[i] == u[i];
    if StrictlyIncreasing(s) {
      forall i | 0 < i < |u| ensures u[i - 1] < u[i] {
        assert s[i - 1] < s[i];
      }
    }
  }

  /** A one-element tuple has every shape; it lies in the pool when its element does. */
  lemma OneTuple<T>(s: seq<T>, pool: seq<T>)
    requires |s| == 1
    ensures Distinct(s)
    ensures AllIn(s, pool) <==> s[0] in pool
  {
  }

  lemma OneTupleOrdered(s: seq<int>)
    requires |s| == 1
    ensures NonDecreasing(s) && StrictlyIncreasing(s)
  {
  }

  /** A subset is no larger than its superset. */
  lemma SubsetCard<T>(a: set<T>, b: set<T>)
    requires a <= b
    ensures |b| == |a| + |b - a|
  {
    assert b == a + (b - a);
    assert a * (b - a) == {};
  }

  /** A duplicate-free sequence has as many elements as its set. */
  lemma {:induction false} DistinctCard<T>(s: seq<T>)
    requires Distinct(s)
    ensures |set x | x in s| == |s|
  {
    if s != [] {
      DistinctCard(s[1..]);
      assert (set x | x in s) == {s[0]} + (set x | x in s[1..]);
    }
  }

  // ---------------------------------------------------------------------
  // The enumerators
  // ---------------------------------------------------------------------

  /** pool.Where(l => keep(t, l)): the candidates that may follow the tuple t, in pool order. */
  function Candidates<T>(t: seq<T>, pool: seq<T>, keep: (seq<T>, T) -> bool): (r: seq<T>)
    ensures |r| <= |pool|
  {
    if pool == [] then []
    else (if keep(t, pool[0]) then [pool[0]] else []) + Candidates(t, pool[1..], keep)
  }

  lemma {:induction false} CandidatesMembers<T>(t: seq<T>, pool: seq<T>, keep: (seq<T>, T) -> bool, x: T)
    ensures x in Candidates(t, pool, keep) <==> x in pool && keep(t, x)
  {
    if pool != [] {
      CandidatesMembers(t, pool[1..], keep, x);
      assert pool == [pool[0]] + pool[1..];
    }
  }

  /** With a duplicate-free pool, the number of candidates is the size of the candidate set. */
  lemma {:induction false} CandidatesCard<T>(t: seq<T>, pool: seq<T>, keep: (seq<T>, T) -> bool)
    requires Distinct(pool)
    ensures |Candidates(t, pool, keep)| == |set x | x in pool && keep(t, x)|
  {
    if pool == [] {
      assert (set x | x in pool && keep(t, x)) == {};
    } else {
      CandidatesCard(t, pool[1..], keep);
      var rest := set x | x in pool[1..] && keep(t, x);
      assert pool[0] !in pool[1..];
      assert pool[0] !in rest;
      if keep(t, pool[0]) {
        assert (set x | x in pool && keep(t, x)) == {pool[0]} + rest;
      } else {
        assert (set x | x in pool && keep(t, x)) == rest;
      }
    }
  }

  /** pool.Select(t => new T[] { t }) */
  function Singletons<T>(pool: seq<T>): (r: seq<seq<T>>)
    ensures |r| == |pool|
  {
    seq(|pool|, i requires 0 <= i < |pool| => [pool[i]])
  }

  lemma SingletonsMembers<T>(pool: seq<T>, s: seq<T>)
    ensures s in Singletons(pool) <==> |s| == 1 && s[0] in pool
  {
    if |s| == 1 && s[0] in pool {
      var i :| 0 <= i < |pool| && pool[i] == s[0];
      assert Singletons(pool)[i] == s;
    }
  }

  /** The result selector (t1, t2) => t1.Concat(new T[] { t2 }) over the candidates of t1. */
  function AppendEach<T>(t: seq<T>, cands: seq<T>): (r: seq<seq<T>>)
    ensures |r| == |cands|
  {
    seq(|cands|, i requires 0 <= i < |cands| => t + [cands[i]])
  }

  /** ts.SelectMany(t => pool.Where(l => keep(t, l)), (t1, t2) => t1.Concat(new T[] { t2 })) */
  function ExtendWhere<T>(ts: seq<seq<T>>, pool: seq<T>, keep: (seq<T>, T) -> bool): seq<seq<T>>
  {
    if ts == [] then []
    else AppendEach(ts[0], Candidates(ts[0], pool, keep)) + ExtendWhere(ts[1..], pool, keep)
  }

  /** s is produced exactly when its prefix is one of ts and its last element is a candidate. */
  lemma {:induction false} ExtendWhereMembers<T>(ts: seq<seq<T>>, pool: seq<T>, keep: (seq<T>, T) -> bool, s: seq<T>)
    ensures s in ExtendWhere(ts, pool, keep) <==>
      |s| >= 1 && s[..|s| - 1] in ts && s[|s| - 1] in pool && keep(s[..|s| - 1], s[|s| - 1])
  {
    if ts != [] {
      var t := ts[0];
      var c := Candidates(t, pool, keep);
      var head := AppendEach(t, c);
      assert ExtendWhere(ts, pool, keep) == head + ExtendWhere(ts[1..], pool, keep);
      ExtendWhereMembers(ts[1..], pool, keep, s);
      assert ts == [t] + ts[1..];
      if s in head {
        var i :| 0 <= i < |head| && head[i] == s;
        assert s == t + [c[i]];
        assert s[..|s| - 1] == t;
        CandidatesMembers(t, pool, keep, c[i]);
      }
      if |s| >= 1 && s[..|s| - 1] == t && s[|s| - 1] in pool && keep(t, s[|s| - 1]) {
        CandidatesMembers(t, pool, keep, s[|s| - 1]);
        var i :| 0 <= i < |c| && c[i] == s[|s| - 1];
        assert s == t + [s[|s| - 1]];
        assert head[i] == s;
      }
    }
  }

  /** The filter of each enumerator, as a function of the tuple t being extended. */
  function AnyNext<T>(t: seq<T>, l: T): bool
  {
    true
  }

  function FreshNext<T(==)>(t: seq<T>, l: T): bool
  {
    l !in t
  }

  /** l.CompareTo(t.Last()) >= 0; tuples are never empty when extended. */
  function NotBelowLast(t: seq<int>, l: int): bool
  {
    |t| == 0 || l >= t[|t| - 1]
  }

  /** l.CompareTo(t.Last()) > 0 */
  function AboveLast(t: seq<int>, l: int): bool
  {
    |t| == 0 || l > t[|t| - 1]
  }

  function PermutationsWithRept<T>(pool: seq<T>, k: nat): seq<seq<T>>
    requires k >= 1
  {
    if k == 1 then Singletons(pool)
    else ExtendWhere(PermutationsWithRept(pool, k - 1), pool, AnyNext)
  }

  function PermutationsWithoutRept<T(==)>(pool: seq<T>, k: nat): seq<seq<T>>
    requires k >= 1
  {
    if k == 1 then Singletons(pool)
    else ExtendWhere(PermutationsWithoutRept(pool, k - 1), pool, FreshNext)
  }

  function CombinationsWithRept(pool: seq<int>, k: nat): seq<seq<int>>
    requires k >= 1
  {
    if k == 1 then Singletons(pool)
    else ExtendWhere(CombinationsWithRept(pool, k - 1), pool, NotBelowLast)
  }

  function CombinationsWithoutRept(pool: seq<int>, k: nat): seq<seq<int>>
    requires k >= 1
  {
    if k == 1 then Singletons(pool)
    else ExtendWhere(CombinationsWithoutRept(pool, k - 1), pool, AboveLast)
  }

  /** The public entry points: k < 1 throws, otherwise the enumeration. */
  function GetPermutationsWithRept<T>(pool: seq<T>, k: int): (r: Result<seq<seq<T>>>)
    ensures k < 1 <==> r == Failure(KNotPositive)
    ensures k == 1 ==>
      r.Success? && |r.value| == |pool| && forall i :: 0 <= i < |pool| ==> r.value[i] == [pool[i]]
  {
    if k < 1 then Failure(KNotPositive) else Success(PermutationsWithRept(pool, k))
  }

  function GetPermutationsWithoutRept<T(==)>(pool: seq<T>, k: int): (r: Result<seq<seq<T>>>)
    ensures k < 1 <==> r == Failure(KNotPositive)
    ensures k == 1 ==>
      r.Success? && |r.value| == |pool| && forall i :: 0 <= i < |pool| ==> r.value[i] == [pool[i]]
  {
    if k < 1 then Failure(KNotPositive) else Success(PermutationsWithoutRept(pool, k))
  }

  function GetCombinationsWithRept(pool: seq<int>, k: int): (r: Result<seq<seq<int>>>)
    ensures k < 1 <==> r == Failure(KNotPositive)
    ensures k == 1 ==>
      r.Success? && |r.value| == |pool| && forall i :: 0 <= i < |pool| ==> r.value[i] == [pool[i]]
  {
    if k < 1 then Failure(KNotPositive) else Success(CombinationsWithRept(pool, k))
  }

  function GetCombinationsWithoutRept(pool: seq<int>, k: int): (r: Result<seq<seq<int>>>)
    ensures k < 1 <==> r == Failure(KNotPositive)
    ensures k == 1 ==>
      r.Success? && |r.value| == |pool| && forall i :: 0 <= i < |pool| ==> r.value[i] == [pool[i]]
  {
    if k < 1 then Failure(KNotPositive) else Success(CombinationsWithoutRept(pool, k))
  }

  // ---------------------------------------------------------------------
  // Permutations with repetition: count, members, order, distinctness
  // ---------------------------------------------------------------------

  lemma {:induction false} CandidatesAll<T>(t: seq<T>, pool: seq<T>)
    ensures Candidates(t, pool, AnyNext) == pool
  {
    if pool != [] {
      CandidatesAll(t, pool[1..]);
      assert pool == [pool[0]] + pool[1..];
    }
  }

  lemma {:induction false} ExtendAnyLength<T>(ts: seq<seq<T>>, pool: seq<T>)
    ensures |ExtendWhere(ts, pool, AnyNext)| == |pool| * |ts|
  {
    if ts != [] {
      CandidatesAll(ts[0], pool);
      ExtendAnyLength(ts[1..], pool);
      assert |pool| + |pool| * (|ts| - 1) == |pool| * |ts|;
    }
  }

  /** Index i of a block-structured sequence, one step past the first block of n. */
  lemma QuotientStep(i: int, n: int)
    requires n > 0 && i >= n
    ensures i / n == (i - n) / n + 1 && i % n == (i - n) % n
  {
    var j := i - n;
    assert j == n * (j / n) + j % n;
    ModUnique(i, n, j / n + 1, j % n);
  }

  lemma BelowProductStep(i: int, n: int, m: int)
    requires n <= i < n * m
    ensures i - n < n * (m - 1)
  {
    assert n * (m - 1) == n * m - n;
  }

  lemma NonEmptyFactor(a: nat, b: nat)
    requires b * a > 0
    ensures a > 0
  {
  }

  /** Extending by the whole pool puts tuple i / n first and candidate i % n last. */
  lemma {:induction false} ExtendAnyIndex<T>(ts: seq<seq<T>>, pool: seq<T>, i: int)
    requires |pool| > 0 && 0 <= i < |pool| * |ts|
    ensures i < |ExtendWhere(ts, pool, AnyNext)|
    ensures ExtendWhere(ts, pool, AnyNext)[i] == ts[i / |pool|] + [pool[i % |pool|]]
    decreases |ts|
  {
    var n := |pool|;
    NonEmptyFactor(|ts|, n);
    assert |ts| > 0;
    CandidatesAll(ts[0], pool);
    var head := AppendEach(ts[0], pool);
    var rest := ExtendWhere(ts[1..], pool, AnyNext);
    assert ExtendWhere(ts, pool, AnyNext) == head + rest;
    if i < n {
      ModSmall(i, n);
      assert i / n == 0;
    } else {
      var j := i - n;
      BelowProductStep(i, n, |ts|);
      assert |ts[1..]| == |ts| - 1;
      assert j < n * |ts[1..]|;
      ExtendAnyIndex(ts[1..], pool, j);
      QuotientStep(i, n);
      DivBelow(j, n, |ts| - 1);
      assert (head + rest)[i] == rest[j];
      assert ts[1..][j / n] == ts[j / n + 1];
    }
  }

  /** n^k tuples ("in total there are n^k possibilities"). */
  lemma {:induction false} PermutationsWithReptCount<T>(pool: seq<T>, k: nat)
    requires k >= 1
    ensures |PermutationsWithRept(pool, k)| == Pow(|pool|, k)
  {
    if k > 1 {
      PermutationsWithReptCount(pool, k - 1);
      ExtendAnyLength(PermutationsWithRept(pool, k - 1), pool);
    }
  }

  /** One extension step of PermutationsWithRept, for a single tuple s. */
  lemma AnyStep<T>(prev: seq<seq<T>>, pool: seq<T>, m: nat, s: seq<T>)
    requires |s| >= 1
    requires s[..|s| - 1] in prev <==> |s| - 1 == m && AllIn(s[..|s| - 1], pool)
    ensures s in ExtendWhere(prev, pool, AnyNext) <==> |s| == m + 1 && AllIn(s, pool)
  {
    ExtendWhereMembers(prev, pool, AnyNext, s);
    PrefixAllIn(s, pool);
  }

  /** Exactly the k-tuples over the pool. */
  lemma {:induction false} PermutationsWithReptMembers<T>(pool: seq<T>, k: nat, s: seq<T>)
    requires k >= 1
    ensures s in PermutationsWithRept(pool, k) <==> |s| == k && AllIn(s, pool)
  {
    if k == 1 {
      SingletonsMembers(pool, s);
      if |s| == 1 {
        OneTuple(s, pool);
      }
    } else if |s| == 0 {
      ExtendWhereMembers(PermutationsWithRept(pool, k - 1), pool, AnyNext, s);
    } else {
      PermutationsWithReptMembers(pool, k - 1, s[..|s| - 1]);
      AnyStep(PermutationsWithRept(pool, k - 1), pool, k - 1, s);
    }
  }

  /** Digit e of i in base n. */
  function Digit(i: int, n: int, e: nat): (d: int)
    requires n > 0
    ensures 0 <= d < n
  {
    PowPositive(n, e);
    (i / Pow(n, e)) % n
  }

  /** Dropping the last base-n digit shifts the digits down by one place. */
  lemma DigitStep(i: int, n: int, e: nat)
    requires i >= 0 && n > 0
    ensures Digit(i / n, n, e) == Digit(i, n, e + 1)
  {
    PowPositive(n, e);
    DivDiv(i, n, Pow(n, e));
    assert Pow(n, e + 1) == n * Pow(n, e);
  }

  /**
   * Lexicographic order by pool position, first coordinate varying slowest:
   * entry j of tuple i is the pool element at base-n digit k-1-j of i.
   */
  lemma {:induction false} PermutationsWithReptOrder<T>(pool: seq<T>, k: nat, i: int, j: nat)
    requires k >= 1 && |pool| > 0 && 0 <= i < Pow(|pool|, k) && j < k
    ensures |PermutationsWithRept(pool, k)| == Pow(|pool|, k)
    ensures |PermutationsWithRept(pool, k)[i]| == k
    ensures PermutationsWithRept(pool, k)[i][j] == pool[Digit(i, |pool|, k - 1 - j)]
  {
    var n := |pool|;
    PermutationsWithReptCount(pool, k);
    if k == 1 {
      ModSmall(i, n);
      DigitZero(i, n);
    } else {
      var prev := PermutationsWithRept(pool, k - 1);
      PermutationsWithReptCount(pool, k - 1);
      assert Pow(n, k) == n * |prev|;
      DivBelow(i, n, |prev|);
      ExtendAnyIndex(prev, pool, i);
      var t := prev[i / n];
      assert PermutationsWithRept(pool, k)[i] == t + [pool[i % n]];
      PermutationsWithReptOrder(pool, k - 1, i / n, 0);
      assert |t| == k - 1;
      if j < k - 1 {
        var e: nat := k - 2 - j;
        PermutationsWithReptOrder(pool, k - 1, i / n, j);
        assert t[j] == pool[Digit(i / n, n, e)];
        DigitStep(i, n, e);
        assert e + 1 == k - 1 - j;
      } else {
        DigitZero(i, n);
      }
    }
  }

  /** The lowest digit is the remainder. */
  lemma DigitZero(i: int, n: int)
    requires n > 0
    ensures Digit(i, n, 0) == i % n
  {
    assert Pow(n, 0) == 1;
  }

  lemma SameQuotientDistinctRemainder(a: int, b: int, n: int)
    requires n > 0 && a != b && a / n == b / n
    ensures a % n != b % n
  {
    assert a == n * (a / n) + a % n;
    assert b == n * (b / n) + b % n;
  }

  /** Extending duplicate-free tuples by a duplicate-free pool gives duplicate-free tuples. */
  lemma ExtendAnyDistinct<T>(ts: seq<seq<T>>, pool: seq<T>)
    requires Distinct(ts) && Distinct(pool)
    ensures Distinct(ExtendWhere(ts, pool, AnyNext))
  {
    var r := ExtendWhere(ts, pool, AnyNext);
    var n := |pool|;
    ExtendAnyLength(ts, pool);
    forall a, b | 0 <= a < b < |r| ensures r[a] != r[b] {
      ExtendAnyIndex(ts, pool, a);
      ExtendAnyIndex(ts, pool, b);
      DivBelow(a, n, |ts|);
      DivBelow(b, n, |ts|);
      var ta, tb := ts[a / n] + [pool[a % n]], ts[b / n] + [pool[b % n]];
      assert ta[..|ta| - 1] == ts[a / n] && tb[..|tb| - 1] == ts[b / n];
      if a / n == b / n {
        SameQuotientDistinctRemainder(a, b, n);
        assert ta[|ta| - 1] != tb[|tb| - 1];
      } else {
        assert ta[..|ta| - 1] != tb[..|tb| - 1];
      }
    }
  }

  /** Over a duplicate-free pool the tuples are pairwise distinct. */
  lemma {:induction false} PermutationsWithReptDistinct<T>(pool: seq<T>, k: nat)
    requires k >= 1 && Distinct(pool)
    ensures Distinct(PermutationsWithRept(pool, k))
  {
    if k > 1 {
      PermutationsWithReptDistinct(pool, k - 1);
      ExtendAnyDistinct(PermutationsWithRept(pool, k - 1), pool);
    }
  }

  // ---------------------------------------------------------------------
  // Permutations without repetition
  // ---------------------------------------------------------------------

  /** One extension step of PermutationsWithoutRept, for a single tuple s. */
  lemma FreshStep<T>(prev: seq<seq<T>>, pool: seq<T>, m: nat, s: seq<T>)
    requires |s| >= 1
    requires s[..|s| - 1] in prev <==> |s| - 1 == m && Distinct(s[..|s| - 1]) && AllIn(s[..|s| - 1], pool)
    ensures s in ExtendWhere(prev, pool, FreshNext) <==> |s| == m + 1 && Distinct(s) && AllIn(s, pool)
  {
    ExtendWhereMembers(prev, pool, FreshNext, s);
    PrefixAllIn(s, pool);
    PrefixDistinct(s);
  }

  /** Exactly the k-tuples over the pool with pairwise-distinct entries. */
  lemma {:induction false} PermutationsWithoutReptMembers<T>(pool: seq<T>, k: nat, s: seq<T>)
    requires k >= 1
    ensures s in PermutationsWithoutRept(pool, k) <==> |s| == k && Distinct(s) && AllIn(s, pool)
  {
    if k == 1 {
      SingletonsMembers(pool, s);
      if |s| == 1 {
        OneTuple(s, pool);
      }
    } else if |s| == 0 {
      ExtendWhereMembers(PermutationsWithoutRept(pool, k - 1), pool, FreshNext, s);
    } else {
      PermutationsWithoutReptMembers(pool, k - 1, s[..|s| - 1]);
      FreshStep(PermutationsWithoutRept(pool, k - 1), pool, k - 1, s);
    }
  }

  /** The pool elements not yet in a duplicate-free tuple over a duplicate-free pool. */
  lemma FreshCount<T>(t: seq<T>, pool: seq<T>)
    requires Distinct(pool) && Distinct(t) && AllIn(t, pool)
    ensures |Candidates(t, pool, FreshNext)| == |pool| - |t|
  {
    var keep: (seq<T>, T) -> bool := FreshNext;
    CandidatesCard(t, pool, keep);
    assert (set x | x in pool && keep(t, x)) == (set x | x in pool && FreshNext(t, x));
    DistinctCard(pool);
    DistinctCard(t);
    var all, used := set x | x in pool, set x | x in t;
    var left := set x | x in pool && FreshNext(t, x);
    assert used <= all by {
      forall x | x in used ensures x in all {
        var i :| 0 <= i < |t| && t[i] == x;
      }
    }
    assert left == all - used;
    SubsetCard(used, all);
  }

  lemma ExtendWhereLengthStep<T>(ts: seq<seq<T>>, pool: seq<T>, keep: (seq<T>, T) -> bool)
    requires ts != []
    ensures |ExtendWhere(ts, pool, keep)| == |Candidates(ts[0], pool, keep)| + |ExtendWhere(ts[1..], pool, keep)|
  {
  }

  lemma MulSucc(a: int, c: int)
    ensures c + (a - 1) * c == a * c
  {
  }

  lemma {:induction false} ExtendFreshLength<T>(ts: seq<seq<T>>, pool: seq<T>, m: nat)
    requires Distinct(pool)
    requires forall t :: t in ts ==> |t| == m && Distinct(t) && AllIn(t, pool)
    ensures |ExtendWhere(ts, pool, FreshNext)| == |ts| * (|pool| - m)
  {
    if ts != [] {
      assert ts[0] in ts;
      FreshCount(ts[0], pool);
      ExtendWhereLengthStep(ts, pool, FreshNext);
      forall t | t in ts[1..] ensures |t| == m && Distinct(t) && AllIn(t, pool) {
        assert t in ts;
      }
      ExtendFreshLength(ts[1..], pool, m);
      MulSucc(|ts|, |pool| - m);
    }
  }

  /** n (n-1) ... (n-k+1) */
  function FallingFactorial(n: int, k: nat): int
  {
    if k == 0 then 1 else FallingFactorial(n, k - 1) * (n - k + 1)
  }

  /** The count n (n-1) ... (n-k+1) for a duplicate-free pool. */
  lemma {:induction false} PermutationsWithoutReptCount<T>(pool: seq<T>, k: nat)
    requires k >= 1 && Distinct(pool)
    ensures |PermutationsWithoutRept(pool, k)| == FallingFactorial(|pool|, k)
  {
    if k > 1 {
      var prev := PermutationsWithoutRept(pool, k - 1);
      PermutationsWithoutReptCount(pool, k - 1);
      forall t | t in prev
        ensures |t| == k - 1 && Distinct(t) && AllIn(t, pool)
      {
        PermutationsWithoutReptMembers(pool, k - 1, t);
      }
      ExtendFreshLength(prev, pool, k - 1);
    }
  }

  /** Drawing more than n without repetition leaves nothing: the count is 0 once k > n. */
  lemma {:induction false} PermutationsWithoutReptEmpty<T>(pool: seq<T>, k: nat)
    requires k > |pool|
    ensures PermutationsWithoutRept(pool, k) == []
  {
    if |PermutationsWithoutRept(pool, k)| > 0 {
      var s := PermutationsWithoutRept(pool, k)[0];
      PermutationsWithoutReptMembers(pool, k, s);
      TooLongToBeDistinct(s, pool);
    }
  }

  /** A duplicate-free tuple over the pool is no longer than the pool. */
  lemma TooLongToBeDistinct<T>(s: seq<T>, pool: seq<T>)
    requires Distinct(s) && AllIn(s, pool)
    ensures |s| <= |pool|
  {
    DistinctCard(s);
    var inS, inPool := set x | x in s, set x | x in pool;
    assert inS <= inPool by {
      forall x | x in inS ensures x in inPool {
        var i :| 0 <= i < |s| && s[i] == x;
      }
    }
    SubsetCard(inS, inPool);
    SetOfSeqCard(pool);
  }

  lemma {:induction false} SetOfSeqCard<T>(s: seq<T>)
    ensures |set x | x in s| <= |s|
  {
    if s != [] {
      SetOfSeqCard(s[1..]);
      assert (set x | x in s) == {s[0]} + (set x | x in s[1..]);
    }
  }

  // ---------------------------------------------------------------------
  // Combinations
  // ---------------------------------------------------------------------

  /** One extension step of CombinationsWithRept, for a single tuple s. */
  lemma NonDecreasingStep(prev: seq<seq<int>>, pool: seq<int>, m: nat, s: seq<int>)
    requires |s| >= 1
    requires s[..|s| - 1] in prev <==>
      |s| - 1 == m && NonDecreasing(s[..|s| - 1]) && AllIn(s[..|s| - 1], pool)
    ensures s in ExtendWhere(prev, pool, NotBelowLast) <==> |s| == m + 1 && NonDecreasing(s) && AllIn(s, pool)
  {
    ExtendWhereMembers(prev, pool, NotBelowLast, s);
    PrefixAllIn(s, pool);
    PrefixNonDecreasing(s);
  }

  /** One extension step of CombinationsWithoutRept, for a single tuple s. */
  lemma StrictlyIncreasingStep(prev: seq<seq<int>>, pool: seq<int>, m: nat, s: seq<int>)
    requires |s| >= 1
    requires s[..|s| - 1] in prev <==>
      |s| - 1 == m && StrictlyIncreasing(s[..|s| - 1]) && AllIn(s[..|s| - 1], pool)
    ensures s in ExtendWhere(prev, pool, AboveLast) <==> |s| == m + 1 && StrictlyIncreasing(s) && AllIn(s, pool)
  {
    ExtendWhereMembers(prev, pool, AboveLast, s);
    PrefixAllIn(s, pool);
    PrefixStrictlyIncreasing(s);
  }

  /** Exactly the non-decreasing k-tuples over the pool. */
  lemma {:induction false} CombinationsWithReptMembers(pool: seq<int>, k: nat, s: seq<int>)
    requires k >= 1
    ensures s in CombinationsWithRept(pool, k) <==> |s| == k && NonDecreasing(s) && AllIn(s, pool)
  {
    if k == 1 {
      SingletonsMembers(pool, s);
      if |s| == 1 {
        OneTuple(s, pool);
        OneTupleOrdered(s);
      }
    } else if |s| == 0 {
      ExtendWhereMembers(CombinationsWithRept(pool, k - 1), pool, NotBelowLast, s);
    } else {
      CombinationsWithReptMembers(pool, k - 1, s[..|s| - 1]);
      NonDecreasingStep(CombinationsWithRept(pool, k - 1), pool, k - 1, s);
    }
  }

  /** Exactly the strictly increasing k-tuples over the pool. */
  lemma {:induction false} CombinationsWithoutReptMembers(pool: seq<int>, k: nat, s: seq<int>)
    requires k >= 1
    ensures s in CombinationsWithoutRept(pool, k) <==> |s| == k && StrictlyIncreasing(s) && AllIn(s, pool)
  {
    if k == 1 {
      SingletonsMembers(pool, s);
      if |s| == 1 {
        OneTuple(s, pool);
        OneTupleOrdered(s);
      }
    } else if |s| == 0 {
      ExtendWhereMembers(CombinationsWithoutRept(pool, k - 1), pool, AboveLast, s);
    } else {
      CombinationsWithoutReptMembers(pool, k - 1, s[..|s| - 1]);
      StrictlyIncreasingStep(CombinationsWithoutRept(pool, k - 1), pool, k - 1, s);
    }
  }

  // ---------------------------------------------------------------------
  // Shuffles and random samples
  // ---------------------------------------------------------------------

  /** In-place Fisher-Yates shuffle; each swap index is an arbitrary choice in [0, n]. */
  method Shuffle<T>(list: array<T>)
    modifies list
    ensures multiset(list[..]) == multiset(old(list[..]))
  {
    var n := list.Length;
    while n > 1
      invariant 0 <= n <= list.Length
      invariant multiset(list[..]) == multiset(old(list[..]))
    {
      n := n - 1;
      var k :| 0 <= k <= n;
      list[k], list[n] := list[n], list[k];
    }
  }

  /** LINQ Skip: a non-positive count skips nothing, a large one skips everything. */
  function Skip<T>(s: seq<T>, pos: int): (r: seq<T>)
    ensures |r| == if pos <= 0 then |s| else if pos >= |s| then 0 else |s| - pos
  {
    if pos <= 0 then s else if pos >= |s| then [] else s[pos..]
  }

  /** LINQ Take: a non-positive count takes nothing. */
  function Take<T>(s: seq<T>, count: int): (r: seq<T>)
    ensures |r| == if count <= 0 then 0 else if count >= |s| then |s| else count
  {
    if count <= 0 then [] else if count >= |s| then s else s[..count]
  }

  /** Copies a sequence into a fresh list and shuffles it. */
  method ShuffledCopy<T>(s: seq<T>) returns (r: seq<T>)
    ensures |r| == |s| && multiset(r) == multiset(s)
  {
    var a := new T[|s|](i requires 0 <= i < |s| => s[i]);
    assert a[..] == s;
    Shuffle(a);
    r := a[..];
  }

  /** Shuffle(list, pos): a shuffled copy of the part of list from pos on. */
  method ShuffleFrom<T>(list: seq<T>, pos: int) returns (r: seq<T>)
    ensures |r| == |Skip(list, pos)| && multiset(r) == multiset(Skip(list, pos))
  {
    r := ShuffledCopy(Skip(list, pos));
  }

  /** Shuffle(list, pos, count): a shuffled copy of the count elements from pos. */
  method ShuffleRange<T>(list: seq<T>, pos: int, count: int) returns (r: Result<seq<T>>)
    ensures pos < 0 || pos >= |list| ==> r == Failure(PosOutOfRange)
    ensures 0 <= pos < |list| && pos + count >= |list| ==> r == Failure(CountOutOfRange)
    ensures 0 <= pos < |list| && pos + count < |list| ==>
      r.Success? && |r.value| == (if count <= 0 then 0 else count) &&
      multiset(r.value) == multiset(list[pos..pos + (if count <= 0 then 0 else count)])
  {
    if pos < 0 || pos >= |list| {
      return Failure(PosOutOfRange);
    }
    if pos + count >= |list| {
      return Failure(CountOutOfRange);
    }
    var part := Take(Skip(list, pos), count);
    assert part == list[pos..pos + (if count <= 0 then 0 else count)];
    var shuffled := ShuffledCopy(part);
    return Success(shuffled);
  }

  /**
   * DrawRandomSampleWithRept: k draws, each an arbitrary pool element. An
   * empty pool with k >= 1 fails on the first index access.
   */
  method DrawRandomSampleWithRept<T>(pool: seq<T>, k: int) returns (r: Result<seq<T>>)
    ensures k >= 1 && |pool| == 0 ==> r == Failure(EmptyPool)
    ensures k < 1 || |pool| > 0 ==>
      r.Success? && |r.value| == (if k < 0 then 0 else k) &&
      forall x :: x in r.value ==> x in pool
  {
    var n := |pool|;
    var sample: seq<T> := [];
    var j := 0;
    while j < k
      invariant 0 <= j <= (if k < 0 then 0 else k) && |sample| == j
      invariant j > 0 ==> n > 0
      invariant forall x :: x in sample ==> x in pool
    {
      if n == 0 {
        return Failure(EmptyPool);
      }
      var ix :| 0 <= ix < n;
      sample := sample + [pool[ix]];
      j := j + 1;
    }
    return Success(sample);
  }

  /** The pool elements at the given positions. */
  function Pick<T>(pool: seq<T>, positions: seq<int>): seq<T>
    requires forall i :: 0 <= i < |positions| ==> 0 <= positions[i] < |pool|
  {
    seq(|positions|, i requires 0 <= i < |positions| => pool[positions[i]])
  }

  /** Removing a position moves its element out of the picked multiset. */
  lemma PickRemove<T>(pool: seq<T>, positions: seq<int>, ix: int)
    requires forall i :: 0 <= i < |positions| ==> 0 <= positions[i] < |pool|
    requires 0 <= ix < |positions|
    ensures multiset(Pick(pool, positions)) ==
      multiset{pool[positions[ix]]} + multiset(Pick(pool, positions[..ix] + positions[ix + 1..]))
  {
    var before, after := positions[..ix], positions[ix + 1..];
    assert positions == before + [positions[ix]] + after;
    assert Pick(pool, positions) == Pick(pool, before) + [pool[positions[ix]]] + Pick(pool, after);
    assert Pick(pool, before + after) == Pick(pool, before) + Pick(pool, after);
  }

  /**
   * DrawRandomSampleWithoutRept: k draws, each removing the drawn position,
   * so the sample is a sub-multiset of the pool.
   */
  method DrawRandomSampleWithoutRept<T>(pool: seq<T>, k: int) returns (r: Result<seq<T>>)
    ensures k > |pool| <==> r == Failure(KExceedsPool)
    ensures k <= |pool| ==>
      r.Success? && |r.value| == (if k < 0 then 0 else k) &&
      multiset(r.value) <= multiset(pool)
  {
    var n := |pool|;
    if k > n {
      return Failure(KExceedsPool);
    }
    var sample: seq<T> := [];
    var positions := seq(n, i => i);
    assert Pick(pool, positions) == pool;
    var j := 0;
    while j < k
      invariant 0 <= j <= (if k < 0 then 0 else k) && |sample| == j && |positions| == n - j
      invariant forall i :: 0 <= i < |positions| ==> 0 <= positions[i] < n
      invariant multiset(sample) + multiset(Pick(pool, positions)) == multiset(pool)
    {
      var ix :| 0 <= ix < |positions|;
      PickRemove(pool, positions, ix);
      sample := sample + [pool[positions[ix]]];
      positions := positions[..ix] + positions[ix + 1..];
      j := j + 1;
    }
    return Success(sample);
  }
}
