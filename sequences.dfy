/**
 Generic facts about the list operations the sensor-log analysis is built
 from: keeping the elements of a list that satisfy a predicate (a list
 comprehension with an `if`), order-preserving subsequences, and sums.
 */
module Sequences {

  /** The elements of `s` that satisfy `p`, in their original order.
      Defined from the back, so that the induction lemmas below peel off
      the last element, the way the sums and the indicator lists are built. */
  function Filter<T>(s: seq<T>, p: T -> bool): (r: seq<T>)
    ensures |r| <= |s|
    ensures forall k :: 0 <= k < |r| ==> p(r[k])
    ensures forall k :: 0 <= k < |r| ==> r[k] in s
  {
    if s == [] then []
    else Filter(s[..|s| - 1], p) + (if p(s[|s| - 1]) then [s[|s| - 1]] else [])
  }

  /** Filtering a list extended by one element. */
  lemma FilterSnoc<T>(s: seq<T>, x: T, p: T -> bool)
    ensures Filter(s + [x], p) == Filter(s, p) + (if p(x) then [x] else [])
  {
    assert (s + [x])[..|s|] == s;
  }

  /** A filter keeps every occurrence of an element that satisfies the
      predicate and drops every occurrence of one that does not. */
  lemma {:induction false} FilterMultiplicity<T>(s: seq<T>, p: T -> bool, x: T)
    ensures multiset(Filter(s, p))[x] == if p(x) then multiset(s)[x] else 0
  {
    if s != [] {
      var init, last := s[..|s| - 1], s[|s| - 1];
      assert s == init + [last];
      FilterMultiplicity(init, p, x);
    }
  }

  /** An element is kept exactly when it occurs in the list and satisfies
      the predicate. */
  lemma FilterMembership<T>(s: seq<T>, p: T -> bool, x: T)
    ensures x in Filter(s, p) <==> x in s && p(x)
  {
    FilterMultiplicity(s, p, x);
  }

  /** Nothing is dropped exactly when every element satisfies the predicate. */
  lemma {:induction false} FilterKeepsAll<T>(s: seq<T>, p: T -> bool)
    ensures |Filter(s, p)| == |s| <==> forall k :: 0 <= k < |s| ==> p(s[k])
  {
    if s != [] {
      var init := s[..|s| - 1];
      FilterKeepsAll(init, p);
      assert forall k :: 0 <= k < |init| ==> init[k] == s[k];
    }
  }

  /** Nothing is kept exactly when no element satisfies the predicate. */
  lemma FilterKeepsNone<T>(s: seq<T>, p: T -> bool)
    ensures Filter(s, p) == [] <==> forall k :: 0 <= k < |s| ==> !p(s[k])
  {
    if Filter(s, p) != [] {
      var x := Filter(s, p)[0];
      FilterMembership(s, p, x);
    }
    forall k | 0 <= k < |s| && p(s[k])
      ensures Filter(s, p) != []
    {
      FilterMembership(s, p, s[k]);
    }
  }

  /** Filtering twice is filtering once by the conjunction. */
  lemma {:induction false} FilterTwice<T>(s: seq<T>, p: T -> bool, q: T -> bool, pq: T -> bool)
    requires forall x :: pq(x) == (p(x) && q(x))
    ensures Filter(Filter(s, p), q) == Filter(s, pq)
  {
    if s != [] {
      var init, last := s[..|s| - 1], s[|s| - 1];
      FilterTwice(init, p, q, pq);
      assert Filter(s, pq) == Filter(init, pq) + (if pq(last) then [last] else []);
      assert pq(last) == (p(last) && q(last));
      if p(last) {
        assert Filter(s, p) == Filter(init, p) + [last];
        FilterSnoc(Filter(init, p), last, q);
      } else {
        assert Filter(s, p) == Filter(init, p);
      }
    }
  }

  /** `idx` lists, in strictly increasing order, positions of `b` at which
      the elements of `a` occur one after another. */
  ghost predicate IsEmbedding<T>(idx: seq<nat>, a: seq<T>, b: seq<T>)
  {
    && |idx| == |a|
    && (forall k :: 0 <= k < |idx| ==> idx[k] < |b| && b[idx[k]] == a[k])
    && (forall k, l :: 0 <= k < l < |idx| ==> idx[k] < idx[l])
  }

  /** `a` is obtained from `b` by deleting elements, keeping the order. */
  ghost predicate IsSubsequence<T>(a: seq<T>, b: seq<T>)
  {
    exists idx :: IsEmbedding(idx, a, b)
  }

  /** The positions of `s` whose elements a filter keeps. */
  ghost function FilterIndices<T>(s: seq<T>, p: T -> bool): (idx: seq<nat>)
    ensures |idx| == |Filter(s, p)|
    ensures forall k :: 0 <= k < |idx| ==> idx[k] < |s|
  {
    if s == [] then []
    else FilterIndices(s[..|s| - 1], p) + (if p(s[|s| - 1]) then [|s| - 1] else [])
  }

  /** The result of a filter is an order-preserving subsequence of its input. */
  lemma {:induction false} FilterEmbeds<T>(s: seq<T>, p: T -> bool)
    ensures IsEmbedding(FilterIndices(s, p), Filter(s, p), s)
  {
    if s != [] {
      var init, last := s[..|s| - 1], s[|s| - 1];
      FilterEmbeds(init, p);
      var idx, r := FilterIndices(init, p), Filter(init, p);
      assert forall k :: 0 <= k < |idx| ==> s[idx[k]] == init[idx[k]];
      if p(last) {
        var idx', r' := idx + [|s| - 1], r + [last];
        assert FilterIndices(s, p) == idx' && Filter(s, p) == r';
        assert forall k :: 0 <= k < |idx| ==> idx'[k] == idx[k] && r'[k] == r[k];
        assert forall k :: 0 <= k < |idx'| ==> idx'[k] < |s| && s[idx'[k]] == r'[k];
        assert forall k, l :: 0 <= k < l < |idx'| ==> idx'[k] < idx'[l];
      } else {
        assert FilterIndices(s, p) == idx && Filter(s, p) == r;
      }
    }
  }

  lemma FilterIsSubsequence<T>(s: seq<T>, p: T -> bool)
    ensures IsSubsequence(Filter(s, p), s)
  {
    FilterEmbeds(s, p);
  }

  /** Deleting elements from a list obtained by deleting elements. */
  lemma SubsequenceTransitive<T>(a: seq<T>, b: seq<T>, c: seq<T>)
    requires IsSubsequence(a, b) && IsSubsequence(b, c)
    ensures IsSubsequence(a, c)
  {
    var ab :| IsEmbedding(ab, a, b);
    var bc :| IsEmbedding(bc, b, c);
    var ac := seq(|ab|, k requires 0 <= k < |ab| => bc[ab[k]]);
    assert IsEmbedding(ac, a, c);
  }

  /** The sum of a list of reals, from the back. */
  function Sum(s: seq<real>): real
  {
    if s == [] then 0.0 else Sum(s[..|s| - 1]) + s[|s| - 1]
  }

  /** The sum of a list of integers, from the back. */
  function SumInt(s: seq<int>): int
  {
    if s == [] then 0 else SumInt(s[..|s| - 1]) + s[|s| - 1]
  }

  /** A sum of terms between `lo` and `hi` lies between `|s| * lo` and `|s| * hi`. */
  lemma {:induction false} SumBetween(s: seq<real>, lo: real, hi: real)
    requires forall k :: 0 <= k < |s| ==> lo <= s[k] <= hi
    ensures |s| as real * lo <= Sum(s) <= |s| as real * hi
  {
    if s != [] {
      SumBetween(s[..|s| - 1], lo, hi);
    }
  }

  /** A non-empty sum of terms below `c` is below `|s| * c`. */
  lemma {:induction false} SumBelow(s: seq<real>, c: real)
    requires |s| > 0
    requires forall k :: 0 <= k < |s| ==> s[k] < c
    ensures Sum(s) < |s| as real * c
  {
    if |s| > 1 {
      SumBelow(s[..|s| - 1], c);
    }
  }

  /** A list of 0/1 indicators of a predicate sums to the number of
      elements the predicate keeps. */
  lemma {:induction false} IndicatorSum<T>(s: seq<T>, p: T -> bool, ind: seq<int>)
    requires |ind| == |s|
    requires forall k :: 0 <= k < |s| ==> ind[k] == if p(s[k]) then 1 else 0
    ensures SumInt(ind) == |Filter(s, p)|
  {
    if s != [] {
      IndicatorSum(s[..|s| - 1], p, ind[..|ind| - 1]);
    }
  }
}
