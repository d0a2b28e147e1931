/**
 * Sequence utilities shared by the model: first-index lookup (the source's
 * `stream().filter(..).findFirst()`), uniqueness of names, and sums of totals.
 */
module Seqs {
  import opened Wrappers

  /** Index of the first occurrence of `k` in `s`, if any. */
  function IndexOf<K(==)>(s: seq<K>, k: K): (r: Option<nat>)
    ensures r.Some? ==> r.value < |s| && s[r.value] == k
    ensures r.Some? ==> forall j :: 0 <= j < r.value ==> s[j] != k
    ensures r.None? <==> k !in s
  {
    if |s| == 0 then None
    else if s[0] == k then Some(0)
    else
      match IndexOf(s[1..], k)
      case Some(i) => assert s[1..][i] == s[i + 1]; Some(i + 1)
      case None => assert forall j :: 1 <= j < |s| ==> s[j] == s[1..][j - 1]; None
  }

  /** No element occurs twice. */
  predicate Unique<K(==)>(s: seq<K>) {
    forall i, j :: 0 <= i < j < |s| ==> s[i] != s[j]
  }

  /** Appending an element keeps the position of every earlier first occurrence. */
  lemma IndexOfAppend<K>(s: seq<K>, x: K, k: K)
    ensures k in s ==> IndexOf(s + [x], k) == IndexOf(s, k)
    ensures k !in s && k == x ==> IndexOf(s + [x], k) == Some(|s|)
    ensures k !in s && k != x ==> IndexOf(s + [x], k) == None
  {
    var t := s + [x];
    assert forall j :: 0 <= j < |s| ==> t[j] == s[j];
    if k in s {
      var i := IndexOf(s, k).value;
      assert t[i] == k;
      assert forall j :: 0 <= j < i ==> t[j] != k;
      var r := IndexOf(t, k);
      assert r.Some?;
      assert r.value <= i;
      assert r.value >= i;
    }
  }

  /** Dropping position `i` keeps every value that also occurs elsewhere. */
  lemma InAfterRemove<K>(s: seq<K>, i: nat, k: K)
    requires i < |s| && k in s && k != s[i]
    ensures k in s[..i] + s[i + 1..]
  {
    var p := IndexOf(s, k).value;
    var t := s[..i] + s[i + 1..];
    if p < i { assert t[p] == k; } else { assert t[p - 1] == k; }
  }

  /** Sum of a sequence of amounts. */
  function Sum(s: seq<real>): real {
    if |s| == 0 then 0.0 else Sum(s[..|s| - 1]) + s[|s| - 1]
  }

  lemma SumAppend(s: seq<real>, x: real)
    ensures Sum(s + [x]) == Sum(s) + x
  {
    assert (s + [x])[..|s|] == s;
  }

  /** Replacing one amount changes the sum by exactly the difference. */
  lemma {:induction false} SumUpdate(s: seq<real>, i: nat, x: real)
    requires i < |s|
    ensures Sum(s[i := x]) == Sum(s) - s[i] + x
  {
    var t := s[i := x];
    if i == |s| - 1 {
      assert t[..|t| - 1] == s[..|s| - 1];
    } else {
      assert t[..|t| - 1] == s[..|s| - 1][i := x];
      SumUpdate(s[..|s| - 1], i, x);
    }
  }

  /** Removing one amount lowers the sum by exactly that amount. */
  lemma {:induction false} SumRemove(s: seq<real>, i: nat)
    requires i < |s|
    ensures Sum(s[..i] + s[i + 1..]) == Sum(s) - s[i]
  {
    var t := s[..i] + s[i + 1..];
    if i == |s| - 1 {
      assert t == s[..|s| - 1];
    } else {
      var s' := s[..|s| - 1];
      assert t[..|t| - 1] == s'[..i] + s'[i + 1..];
      assert t[|t| - 1] == s[|s| - 1];
      SumRemove(s', i);
    }
  }

  /** In a sequence without repetitions, dropping position `i` removes its value and keeps the rest unique. */
  lemma RemovedIndexGone<K>(s: seq<K>, i: nat)
    requires Unique(s) && i < |s|
    ensures s[i] !in s[..i] + s[i + 1..]
    ensures Unique(s[..i] + s[i + 1..])
  {
    var t := s[..i] + s[i + 1..];
    assert forall j :: 0 <= j < i ==> t[j] == s[j];
    assert forall j :: i <= j < |t| ==> t[j] == s[j + 1];
  }
}
