/** The two list shapes the queries build: the distinct elements of a sequence in
    first-occurrence order, and the elements that satisfy a test, in order. Both
    are written from the back, as a loop that appends to its output builds them. */
module Sequences {

  /** No element occurs twice. */
  predicate NoDuplicates<T(==)>(s: seq<T>)
  {
    forall i, j :: 0 <= i < j < |s| ==> s[i] != s[j]
  }

  /** Position of the first occurrence of `x` in `s`. */
  function FirstIndex<T(==)>(s: seq<T>, x: T): (i: nat)
    requires x in s
    ensures i < |s| && s[i] == x && x !in s[..i]
  {
    if x in s[..|s| - 1] then FirstIndex(s[..|s| - 1], x) else |s| - 1
  }

  /** `s` with every repeated element dropped: an element is kept only when no
      equal element has been kept before it. */
  function Deduplicate<T(==)>(s: seq<T>): (d: seq<T>)
    ensures NoDuplicates(d)
    ensures forall i :: 0 <= i < |d| ==> d[i] in s
    ensures forall i :: 0 <= i < |s| ==> s[i] in d
    ensures |d| <= |s|
  {
    if |s| == 0 then []
    else
      var d := Deduplicate(s[..|s| - 1]);
      var x := s[|s| - 1];
      assert s == s[..|s| - 1] + [x];
      if x in d then d else d + [x]
  }

  /** The kept elements stand in the order of their first occurrences in `s`. */
  lemma {:induction false} DeduplicateKeepsFirstOccurrenceOrder<T>(s: seq<T>)
    ensures forall a, b :: 0 <= a < b < |Deduplicate(s)| ==>
      FirstIndex(s, Deduplicate(s)[a]) < FirstIndex(s, Deduplicate(s)[b])
  {
    if |s| > 0 {
      var s', x := s[..|s| - 1], s[|s| - 1];
      DeduplicateKeepsFirstOccurrenceOrder(s');
      var d', d := Deduplicate(s'), Deduplicate(s);
      forall a, b | 0 <= a < b < |d|
        ensures FirstIndex(s, d[a]) < FirstIndex(s, d[b])
      {
        assert d[a] in d' && d[a] in s';
        assert FirstIndex(s, d[a]) == FirstIndex(s', d[a]);
        if b < |d'| {
          assert d[b] in d' && d[b] in s';
          assert FirstIndex(s, d[b]) == FirstIndex(s', d[b]);
        } else {
          assert d[b] == x && x !in s';
          assert FirstIndex(s, d[b]) == |s| - 1;
        }
      }
    }
  }

  /** A sequence without repetitions is its own deduplication. */
  lemma {:induction false} DeduplicateOfDistinct<T>(s: seq<T>)
    requires NoDuplicates(s)
    ensures Deduplicate(s) == s
  {
    if |s| > 0 {
      var s' := s[..|s| - 1];
      DeduplicateOfDistinct(s');
      assert s[|s| - 1] !in s';
    }
  }

  /** Deduplicating the input grown by one element: the element is appended exactly
      when it is new (the step an append-if-absent loop takes). */
  lemma DeduplicateSnoc<T>(s: seq<T>, x: T)
    ensures Deduplicate(s + [x]) == if x in Deduplicate(s) then Deduplicate(s) else Deduplicate(s) + [x]
  {
    assert (s + [x])[..|s + [x]| - 1] == s;
  }

  /** The elements of `s` that satisfy `p`, in their order in `s`. */
  function Filter<T>(s: seq<T>, p: T -> bool): (r: seq<T>)
    ensures |r| <= |s|
    ensures forall i :: 0 <= i < |r| ==> r[i] in s && p(r[i])
    ensures forall i :: 0 <= i < |s| && p(s[i]) ==> s[i] in r
  {
    if |s| == 0 then []
    else
      var r := Filter(s[..|s| - 1], p);
      var x := s[|s| - 1];
      assert s == s[..|s| - 1] + [x];
      if p(x) then r + [x] else r
  }

  /** `a` is obtained from `b` by deleting elements: the order of what is kept is
      the order in `b`. */
  ghost predicate IsSubsequence<T>(a: seq<T>, b: seq<T>)
    decreases |b|
  {
    |a| == 0 ||
    (|b| > 0 &&
     ((a[|a| - 1] == b[|b| - 1] && IsSubsequence(a[..|a| - 1], b[..|b| - 1])) ||
      IsSubsequence(a, b[..|b| - 1])))
  }

  /** Filtering keeps the relative order of the kept elements. */
  lemma {:induction false} FilterIsSubsequence<T>(s: seq<T>, p: T -> bool)
    ensures IsSubsequence(Filter(s, p), s)
  {
    if |s| > 0 {
      var s' := s[..|s| - 1];
      FilterIsSubsequence(s', p);
      var r := Filter(s, p);
      if p(s[|s| - 1]) {
        assert r[..|r| - 1] == Filter(s', p);
      }
    }
  }

  /** Filtering keeps every occurrence of a satisfying element and no occurrence of
      any other: an element that occurs once in `s` occurs at most once in the result. */
  lemma {:induction false} FilterCount<T>(s: seq<T>, p: T -> bool, x: T)
    ensures multiset(Filter(s, p))[x] == if p(x) then multiset(s)[x] else 0
  {
    if |s| > 0 {
      var s', y := s[..|s| - 1], s[|s| - 1];
      FilterCount(s', p, x);
      assert s == s' + [y];
      assert multiset(s) == multiset(s') + multiset{y};
    }
  }

  /** When every element satisfies the test, filtering returns the whole sequence. */
  lemma {:induction false} FilterKeepsAll<T>(s: seq<T>, p: T -> bool)
    requires forall i :: 0 <= i < |s| ==> p(s[i])
    ensures Filter(s, p) == s
  {
    if |s| > 0 {
      FilterKeepsAll(s[..|s| - 1], p);
    }
  }

  /** Filtering the input grown by one element: the result grows by that element
      exactly when it satisfies the test (the step a scanning loop takes). */
  lemma FilterSnoc<T>(s: seq<T>, i: nat, p: T -> bool)
    requires i < |s|
    ensures Filter(s[..i + 1], p) == if p(s[i]) then Filter(s[..i], p) + [s[i]] else Filter(s[..i], p)
  {
    assert s[..i + 1][..i] == s[..i];
  }
}
