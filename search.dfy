/** First-match searches: LINQ's First over a sequence, and foreach loops that return on the first hit. */
module Searches {
  import opened Wrappers

  /** The position of the first element satisfying P, or |s| when there is none. */
  function FirstIndex<T>(s: seq<T>, P: T -> bool): (i: nat)
    ensures i <= |s|
    ensures i < |s| ==> P(s[i])
    ensures forall j :: 0 <= j < i ==> !P(s[j])
  {
    if |s| == 0 then 0
    else if P(s[0]) then 0
    else
      var i := FirstIndex(s[1..], P);
      assert forall j :: 1 <= j <= i ==> s[j] == s[1..][j - 1];
      1 + i
  }

  /** A loop that stops at i, having rejected everything before it, has found the first index. */
  lemma FirstIndexAt<T>(s: seq<T>, P: T -> bool, i: nat)
    requires i <= |s| && (i < |s| ==> P(s[i]))
    requires forall j :: 0 <= j < i ==> !P(s[j])
    ensures FirstIndex(s, P) == i
  {
  }

  /** The first element satisfying P, if any. */
  function FirstWhere<T>(s: seq<T>, P: T -> bool): (r: Option<T>)
    ensures r.None? <==> forall j :: 0 <= j < |s| ==> !P(s[j])
    ensures r.Some? ==> FirstIndex(s, P) < |s| && r.value == s[FirstIndex(s, P)]
  {
    var i := FirstIndex(s, P);
    if i < |s| then Some(s[i]) else None
  }

  /** LINQ's Where: the elements satisfying P, in their original order. */
  function Where<T(==)>(s: seq<T>, P: T -> bool): (r: seq<T>)
    ensures |r| <= |s|
    ensures forall i :: 0 <= i < |r| ==> r[i] in s && P(r[i])
    ensures forall i :: 0 <= i < |s| && P(s[i]) ==> s[i] in r
  {
    if |s| == 0 then []
    else
      var rest := Where(s[1..], P);
      assert forall i :: 1 <= i < |s| ==> s[i] == s[1..][i - 1];
      (if P(s[0]) then [s[0]] else []) + rest
  }
}
