/** Permutations of `0..n` as sequences, and the counting facts about them. */
module Permutations {
  /** No value occurs twice in `s`. */
  predicate Distinct(s: seq<int>) {
    forall i, j :: 0 <= i < j < |s| ==> s[i] != s[j]
  }

  /** Every value of `s` lies in `0..n`. */
  predicate InRange(s: seq<int>, n: int) {
    forall i :: 0 <= i < |s| ==> 0 <= s[i] < n
  }

  /** `s` holds each of `0..|s|` exactly once. */
  predicate IsPermutation(s: seq<int>) {
    InRange(s, |s|) && Distinct(s)
  }

  /** The set `{0, ..., n-1}`. */
  function Range(n: nat): (r: set<int>)
    ensures forall x :: x in r <==> 0 <= x < n
  {
    if n == 0 then {} else Range(n - 1) + {n - 1}
  }

  function Elems(s: seq<int>): set<int> {
    set x | x in s
  }

  /** `0, 1, ..., n-1`. */
  function Identity(n: nat): (r: seq<int>)
    ensures |r| == n && forall i :: 0 <= i < n ==> r[i] == i
  {
    seq(n, i => i)
  }

  lemma {:induction false} RangeCard(n: nat)
    ensures |Range(n)| == n
  {
    if n > 0 {
      RangeCard(n - 1);
    }
  }

  lemma {:induction false} DistinctElemsCard(s: seq<int>)
    requires Distinct(s)
    ensures |Elems(s)| == |s|
  {
    if |s| > 0 {
      var p := s[..|s| - 1];
      assert Distinct(p);
      DistinctElemsCard(p);
      assert Elems(s) == Elems(p) + {s[|s| - 1]};
    }
  }

  lemma SubsetCard(a: set<int>, b: set<int>)
    requires a <= b
    ensures |a| <= |b|
    ensures |a| == |b| ==> a == b
  {
    assert b == a + (b - a);
    if |a| == |b| {
      assert |b - a| == 0;
    }
  }

  /** A sequence of distinct values in `0..n` has at most `n` elements. */
  lemma DistinctBounded(s: seq<int>, n: nat)
    requires Distinct(s) && InRange(s, n)
    ensures |s| <= n
  {
    DistinctElemsCard(s);
    RangeCard(n);
    SubsetCard(Elems(s), Range(n));
  }

  /** Pigeonhole: a permutation of `0..|s|` takes every value of `0..|s|`. */
  lemma PermutationCovers(s: seq<int>, v: int)
    requires IsPermutation(s) && 0 <= v < |s|
    ensures v in s
  {
    DistinctElemsCard(s);
    RangeCard(|s|);
    assert Elems(s) <= Range(|s|);
    SubsetCard(Elems(s), Range(|s|));
    assert v in Range(|s|);
  }

  /** A value occurs at most once in a distinct sequence. */
  lemma {:induction false} DistinctCount(s: seq<int>, x: int)
    requires Distinct(s)
    ensures multiset(s)[x] <= 1
  {
    if |s| > 0 {
      var p := s[..|s| - 1];
      assert s == p + [s[|s| - 1]];
      DistinctCount(p, x);
    }
  }

  /** A value found at two places occurs at least twice. */
  lemma TwiceCount(t: seq<int>, i: int, j: int)
    requires 0 <= i < j < |t| && t[i] == t[j]
    ensures multiset(t)[t[i]] >= 2
  {
    assert t == t[..i] + [t[i]] + t[i + 1..j] + [t[j]] + t[j + 1..];
  }

  /** A rearrangement of a permutation is a permutation. */
  lemma MultisetPermutation(s: seq<int>, t: seq<int>)
    requires IsPermutation(s) && multiset(t) == multiset(s)
    ensures |t| == |s| && IsPermutation(t)
  {
    assert |t| == |multiset(t)| == |multiset(s)| == |s|;
    forall i | 0 <= i < |t| ensures 0 <= t[i] < |t| {
      assert t[i] in multiset(s);
    }
    forall i, j | 0 <= i < j < |t| ensures t[i] != t[j] {
      if t[i] == t[j] {
        TwiceCount(t, i, j);
        DistinctCount(s, t[i]);
      }
    }
  }

  /** The identity sequence is a permutation. */
  lemma IdentityIsPermutation(n: nat)
    ensures IsPermutation(Identity(n))
  {
  }
}
