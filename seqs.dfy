/** Sequence operations the dashboard's data handling is made of: a boolean
    mask (or list comprehension with a condition) is `Filter`, pandas'
    `unique()` is `Unique`. */
module Seqs {

  /** Keep the elements satisfying `p`, in their original order. */
  function Filter<T>(p: T -> bool, s: seq<T>): (r: seq<T>)
    ensures |r| <= |s|
    ensures forall k :: 0 <= k < |r| ==> p(r[k])
  {
    if s == [] then []
    else
      var last := s[|s| - 1];
      Filter(p, s[..|s| - 1]) + (if p(last) then [last] else [])
  }

  /** The positions in `s` of the elements `Filter` keeps: increasing, each
      pointing at the kept element, and covering every position satisfying `p`. */
  function FilterIndices<T>(p: T -> bool, s: seq<T>): (idx: seq<nat>)
    ensures |idx| == |Filter(p, s)|
    ensures forall k :: 0 <= k < |idx| ==> idx[k] < |s| && s[idx[k]] == Filter(p, s)[k]
    ensures forall k, l :: 0 <= k < l < |idx| ==> idx[k] < idx[l]
    ensures forall i :: 0 <= i < |s| && p(s[i]) ==> i in idx
  {
    if s == [] then []
    else
      var n := |s| - 1;
      var pre := FilterIndices(p, s[..n]);
      assert forall k :: 0 <= k < |pre| ==> pre[k] < n;
      pre + (if p(s[n]) then [n] else [])
  }

  /** `r` is `s` with some elements dropped, the rest kept in order. */
  ghost predicate Embeds<T>(idx: seq<nat>, r: seq<T>, s: seq<T>) {
    && |idx| == |r|
    && (forall k :: 0 <= k < |idx| ==> idx[k] < |s| && r[k] == s[idx[k]])
    && (forall k, l :: 0 <= k < l < |idx| ==> idx[k] < idx[l])
  }

  ghost predicate IsSubsequence<T>(r: seq<T>, s: seq<T>) {
    exists idx :: Embeds(idx, r, s)
  }

  predicate Distinct<T(==)>(s: seq<T>) {
    forall i, j :: 0 <= i < j < |s| ==> s[i] != s[j]
  }

  /** An element is kept exactly when it occurs in the input and satisfies `p`. */
  lemma FilterMembership<T>(p: T -> bool, s: seq<T>, x: T)
    ensures x in Filter(p, s) <==> x in s && p(x)
  {
    var idx := FilterIndices(p, s);
    if x in s && p(x) {
      var i :| 0 <= i < |s| && s[i] == x;
      assert i in idx;
      var k :| 0 <= k < |idx| && idx[k] == i;
      assert Filter(p, s)[k] == x;
    }
  }

  /** What `Filter` returns is an order-preserving subsequence of its input. */
  lemma FilterIsSubsequence<T>(p: T -> bool, s: seq<T>)
    ensures IsSubsequence(Filter(p, s), s)
  {
    assert Embeds(FilterIndices(p, s), Filter(p, s), s);
  }

  /** Filtering keeps a list without duplicates free of them. */
  lemma FilterDistinct<T>(p: T -> bool, s: seq<T>)
    requires Distinct(s)
    ensures Distinct(Filter(p, s))
  {
    var idx := FilterIndices(p, s);
    var r := Filter(p, s);
    forall i, j | 0 <= i < j < |r| ensures r[i] != r[j] {
      assert idx[i] < idx[j];
    }
  }

  /** Filtering twice by the same condition is filtering once. */
  lemma {:induction false} FilterIdempotent<T>(p: T -> bool, s: seq<T>)
    ensures Filter(p, Filter(p, s)) == Filter(p, s)
  {
    if s != [] {
      var n := |s| - 1;
      FilterIdempotent(p, s[..n]);
      var f := Filter(p, s[..n]);
      var tail := if p(s[n]) then [s[n]] else [];
      var r := f + tail;
      if tail != [] {
        assert r[..|r| - 1] == f;
      } else {
        assert r == f;
      }
    }
  }

  /** When nothing satisfies `p`, nothing is kept. */
  lemma {:induction false} FilterNone<T>(p: T -> bool, s: seq<T>)
    requires forall i :: 0 <= i < |s| ==> !p(s[i])
    ensures Filter(p, s) == []
  {
    if s != [] {
      FilterNone(p, s[..|s| - 1]);
    }
  }

  /** The position of the first occurrence of `x` in `s`. */
  function FirstIndex<T(==)>(s: seq<T>, x: T): (i: nat)
    requires x in s
    ensures i < |s| && s[i] == x
    ensures forall j :: 0 <= j < i ==> s[j] != x
  {
    if s[0] == x then 0 else 1 + FirstIndex(s[1..], x)
  }

  /** pandas' `unique()`: each distinct value once, in order of first appearance. */
  function Unique<T(==)>(s: seq<T>): (r: seq<T>)
    ensures Distinct(r)
    ensures forall k :: 0 <= k < |r| ==> r[k] in s
    ensures forall i :: 0 <= i < |s| ==> s[i] in r
  {
    if s == [] then []
    else
      var n := |s| - 1;
      var u := Unique(s[..n]);
      if s[n] in s[..n] then u else u + [s[n]]
  }

  /** `Unique` keeps exactly the values of its input. */
  lemma UniqueMembership<T>(s: seq<T>, x: T)
    ensures x in Unique(s) <==> x in s
  {
    var r := Unique(s);
    if x in r {
      var k :| 0 <= k < |r| && r[k] == x;
    }
    if x in s {
      var i :| 0 <= i < |s| && s[i] == x;
    }
  }

  /** `Unique` lists the values in the order in which they first appear. */
  lemma {:induction false} UniqueFirstAppearanceOrder<T>(s: seq<T>)
    ensures forall k, l :: 0 <= k < l < |Unique(s)| ==>
      FirstIndex(s, Unique(s)[k]) < FirstIndex(s, Unique(s)[l])
  {
    if s != [] {
      var n := |s| - 1;
      var pre := s[..n];
      var u, r := Unique(pre), Unique(s);
      UniqueFirstAppearanceOrder(pre);
      forall k, l | 0 <= k < l < |r| ensures FirstIndex(s, r[k]) < FirstIndex(s, r[l]) {
        assert r[k] == u[k] && r[k] in pre;
        FirstIndexInPrefix(s, n, r[k]);
        if l < |u| {
          assert r[l] == u[l];
          FirstIndexInPrefix(s, n, r[l]);
        } else {
          assert r[l] == s[n] && s[n] !in pre;
        }
      }
    }
  }

  /** A value found before position `n` is first found at the same place in
      `s` and in its first `n` elements. */
  lemma FirstIndexInPrefix<T>(s: seq<T>, n: nat, x: T)
    requires n <= |s| && x in s[..n]
    ensures x in s && FirstIndex(s, x) == FirstIndex(s[..n], x)
  {
    var pre := s[..n];
    var i := FirstIndex(pre, x);
    assert s[i] == pre[i];
    var j := FirstIndex(s, x);
    assert j <= i;
    assert pre[j] == s[j];
  }

  /** A list without duplicates has each value at most once. */
  lemma {:induction false} DistinctMultiplicity<T>(s: seq<T>, x: T)
    requires Distinct(s)
    ensures multiset(s)[x] <= 1
  {
    if s != [] {
      var n := |s| - 1;
      assert s == s[..n] + [s[n]];
      DistinctMultiplicity(s[..n], x);
      if s[n] == x {
        assert x !in s[..n];
      }
    }
  }

  /** Rearranging a list without duplicates leaves it without duplicates. */
  lemma PermutationDistinct<T>(s: seq<T>, r: seq<T>)
    requires Distinct(s) && multiset(r) == multiset(s)
    ensures Distinct(r)
  {
    forall i, j | 0 <= i < j < |r| ensures r[i] != r[j] {
      if r[i] == r[j] {
        assert r == r[..j] + r[j..];
        assert r[i] in r[..j] && r[j] in r[j..];
        assert multiset(r)[r[i]] >= 2;
        DistinctMultiplicity(s, r[i]);
      }
    }
  }
}
