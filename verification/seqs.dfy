/** Sequence vocabulary shared by the filters and groupings. */
module Seqs {

  predicate Distinct<T(==)>(s: seq<T>) {
    forall i, j :: 0 <= i < j < |s| ==> s[i] != s[j]
  }

  /** `a` can be obtained from `b` by deleting elements: same order, gaps allowed. */
  predicate IsSubsequence<T(==)>(a: seq<T>, b: seq<T>)
    decreases |b|
  {
    if |a| == 0 then true
    else if |b| == 0 then false
    else if a[|a| - 1] == b[|b| - 1] then IsSubsequence(a[..|a| - 1], b[..|b| - 1])
    else IsSubsequence(a, b[..|b| - 1])
  }

  /** `Array.prototype.filter` with a total predicate: the elements of `s`
      satisfying `p`, in order. */
  function Keep<T(!new)>(s: seq<T>, p: T -> bool): (r: seq<T>)
    ensures |r| <= |s|
    ensures forall i :: 0 <= i < |r| ==> p(r[i])
    ensures forall i :: 0 <= i < |s| && p(s[i]) ==> s[i] in r
    ensures IsSubsequence(r, s)
    decreases |s|
  {
    if |s| == 0 then []
    else
      var r0 := Keep(s[..|s| - 1], p);
      var last := s[|s| - 1];
      assert s == s[..|s| - 1] + [last];
      if p(last) then
        var r := r0 + [last];
        assert r[..|r| - 1] == r0;
        r
      else
        r0
  }

  /** `Keep` takes one more element at the end exactly when it satisfies `p`. */
  lemma KeepSnoc<T(!new)>(s: seq<T>, p: T -> bool)
    requires |s| > 0
    ensures Keep(s, p) == if p(s[|s| - 1]) then Keep(s[..|s| - 1], p) + [s[|s| - 1]] else Keep(s[..|s| - 1], p)
  {
  }

  /** `Keep` keeps every occurrence of a satisfying element and none of the
      others: each element occurs in the result as often as in `s`, or not at all. */
  lemma {:induction false} KeepCounts<T(!new)>(s: seq<T>, p: T -> bool)
    ensures forall x :: multiset(Keep(s, p))[x] == if p(x) then multiset(s)[x] else 0
    decreases |s|
  {
    if |s| > 0 {
      var init, last := s[..|s| - 1], s[|s| - 1];
      KeepCounts(init, p);
      KeepSnocMultiset(s, p);
      CountsStep(multiset(Keep(init, p)), multiset(init), last, p);
    }
  }

  /** `KeepSnoc` on the multisets of the sequences involved. */
  lemma KeepSnocMultiset<T(!new)>(s: seq<T>, p: T -> bool)
    requires |s| > 0
    ensures multiset(s) == multiset(s[..|s| - 1]) + multiset{s[|s| - 1]}
    ensures p(s[|s| - 1]) ==> multiset(Keep(s, p)) == multiset(Keep(s[..|s| - 1], p)) + multiset{s[|s| - 1]}
    ensures !p(s[|s| - 1]) ==> multiset(Keep(s, p)) == multiset(Keep(s[..|s| - 1], p))
  {
    var init, last := s[..|s| - 1], s[|s| - 1];
    assert s == init + [last];
    MultisetSnoc(init, last);
    KeepSnoc(s, p);
    if p(last) {
      MultisetSnoc(Keep(init, p), last);
    }
  }

  lemma MultisetSnoc<T>(a: seq<T>, x: T)
    ensures multiset(a + [x]) == multiset(a) + multiset{x}
  {
  }

  /** One step of `KeepCounts`, on multisets alone. */
  lemma CountsStep<T(!new)>(kept: multiset<T>, all: multiset<T>, last: T, p: T -> bool)
    requires forall x :: kept[x] == if p(x) then all[x] else 0
    ensures p(last) ==> forall x :: (kept + multiset{last})[x] == if p(x) then (all + multiset{last})[x] else 0
    ensures !p(last) ==> forall x :: kept[x] == if p(x) then (all + multiset{last})[x] else 0
  {
  }

  /** The position of the first occurrence of `x` in `s`. */
  function FirstIndex<T(==)>(s: seq<T>, x: T): (i: nat)
    requires x in s
    ensures i < |s| && s[i] == x
    ensures forall j :: 0 <= j < i ==> s[j] != x
    decreases |s|
  {
    if s[0] == x then 0 else 1 + FirstIndex(s[1..], x)
  }

  /** Appending an element moves no first occurrence, and puts a new element
      at the end. */
  lemma FirstIndexSnoc<T>(s: seq<T>, last: T, y: T)
    requires y in s + [last]
    ensures y in s ==> FirstIndex(s + [last], y) == FirstIndex(s, y)
    ensures y !in s ==> FirstIndex(s + [last], y) == |s|
  {
    assert forall j :: 0 <= j < |s| ==> (s + [last])[j] == s[j];
    if y in s {
      assert (s + [last])[FirstIndex(s, y)] == y;
    } else {
      assert (s + [last])[|s|] == y;
    }
  }

  /** `s.slice(0, n)`: the first `n` elements, or all of them when there are fewer. */
  function Take<T>(s: seq<T>, n: nat): (r: seq<T>)
    ensures |r| == if n < |s| then n else |s|
    ensures forall i :: 0 <= i < |r| ==> r[i] == s[i]
  {
    if n < |s| then s[..n] else s
  }

  /** Every element of a subsequence is an element of the whole. */
  lemma {:induction false} SubsequenceMembers<T>(a: seq<T>, b: seq<T>)
    requires IsSubsequence(a, b)
    ensures forall x :: x in a ==> x in b
    decreases |b|
  {
    if |a| > 0 && |b| > 0 {
      if a[|a| - 1] == b[|b| - 1] {
        SubsequenceMembers(a[..|a| - 1], b[..|b| - 1]);
        assert a == a[..|a| - 1] + [a[|a| - 1]];
      } else {
        SubsequenceMembers(a, b[..|b| - 1]);
      }
    }
  }
}
