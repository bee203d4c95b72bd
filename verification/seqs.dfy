/**
 Sequence helpers: the first index of an element, duplicate-freedom, and the
 JavaScript idiom `[...new Set(xs)]`, which keeps the first occurrence of
 every value and drops the later ones.
 */
module Seqs {

  predicate NoDuplicates<T(==)>(s: seq<T>) {
    forall i, j :: 0 <= i < j < |s| ==> s[i] != s[j]
  }

  function FirstIndex<T(==)>(s: seq<T>, x: T): (i: nat)
    requires x in s
    ensures i < |s| && s[i] == x
    ensures x !in s[..i]
  {
    if s[0] == x then 0 else 1 + FirstIndex(s[1..], x)
  }

  /** `[...new Set(s)]`: the distinct elements of `s`. */
  function Distinct<T(==,!new)>(s: seq<T>): (r: seq<T>)
    ensures NoDuplicates(r)
    ensures forall x :: x in r <==> x in s
    ensures |r| <= |s|
    ensures |s| > 0 ==> |r| > 0 && r[0] == s[0]
    decreases |s|
  {
    if |s| == 0 then
      []
    else
      var p := Distinct(s[..|s| - 1]);
      var x := s[|s| - 1];
      assert forall y :: y in s <==> y in s[..|s| - 1] || y == x by {
        assert s == s[..|s| - 1] + [x];
      }
      if x in p then p else p + [x]
  }

  /** An element of a prefix has the same first index in the whole sequence. */
  lemma FirstIndexPrefix<T>(s: seq<T>, n: nat, y: T)
    requires n <= |s|
    requires y in s[..n]
    ensures y in s
    ensures FirstIndex(s, y) == FirstIndex(s[..n], y)
  {
    var k := FirstIndex(s[..n], y);
    assert s[k] == y;
    assert s[..n][..k] == s[..k];
    FirstIndexUnique(s, y, k);
  }

  /** The only index holding `y` with no `y` before it is the first index of `y`. */
  lemma FirstIndexUnique<T>(s: seq<T>, y: T, k: nat)
    requires k < |s| && s[k] == y && y !in s[..k]
    ensures FirstIndex(s, y) == k
  {
  }

  /** `Distinct` keeps the values in the order of their first occurrence in `s`. */
  lemma {:induction false} DistinctFirstOccurrenceOrder<T(!new)>(s: seq<T>)
    ensures forall i, j :: 0 <= i < j < |Distinct(s)| ==>
      FirstIndex(s, Distinct(s)[i]) < FirstIndex(s, Distinct(s)[j])
    decreases |s|
  {
    if |s| > 0 {
      var n := |s| - 1;
      var prefix := s[..n];
      var p := Distinct(prefix);
      var x := s[n];
      var r := Distinct(s);
      DistinctFirstOccurrenceOrder(prefix);
      forall y | y in p
        ensures FirstIndex(s, y) == FirstIndex(prefix, y) && FirstIndex(s, y) < n
      {
        FirstIndexPrefix(s, n, y);
      }
      if x !in p {
        assert x !in prefix;
        assert FirstIndex(s, x) == n;
        assert r == p + [x];
      } else {
        assert r == p;
      }
      forall i, j | 0 <= i < j < |r|
        ensures FirstIndex(s, r[i]) < FirstIndex(s, r[j])
      {
        assert r[i] == p[i];
        if j < |p| {
          assert r[j] == p[j];
        }
      }
    }
  }
}
