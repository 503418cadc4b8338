/** List comprehensions of the form `[x for x in s if p(x)]`, used by the store, the comment list and the statistics. */
module Sequences {

  /** The elements of `s` satisfying `p`, in their original order. */
  function Filter<T>(s: seq<T>, p: T -> bool): (r: seq<T>)
    ensures |r| <= |s|
    ensures forall x :: x in r ==> x in s && p(x)
    ensures forall x :: x in s && p(x) ==> x in r
    decreases |s|
  {
    if s == [] then []
    else Filter(s[..|s| - 1], p) + (if p(s[|s| - 1]) then [s[|s| - 1]] else [])
  }

  /** Filtering commutes with concatenation, so the kept elements stay in the order they had in `s`. */
  lemma {:induction false} FilterAppend<T>(a: seq<T>, b: seq<T>, p: T -> bool)
    ensures Filter(a + b, p) == Filter(a, p) + Filter(b, p)
    decreases |b|
  {
    if b == [] {
      assert a + b == a;
    } else {
      var b', last := b[..|b| - 1], b[|b| - 1];
      var tail := if p(last) then [last] else [];
      assert (a + b)[..|a + b| - 1] == a + b';
      assert (a + b)[|a + b| - 1] == last;
      assert Filter(a + b, p) == Filter(a + b', p) + tail;
      assert Filter(b, p) == Filter(b', p) + tail;
      FilterAppend(a, b', p);
    }
  }

  /** Every element satisfying `p` keeps its number of occurrences; every other element disappears. */
  lemma {:induction false} FilterMultiset<T>(s: seq<T>, p: T -> bool)
    ensures forall x :: multiset(Filter(s, p))[x] == if p(x) then multiset(s)[x] else 0
    decreases |s|
  {
    if s != [] {
      var s' := s[..|s| - 1];
      FilterMultiset(s', p);
      assert s == s' + [s[|s| - 1]];
    }
  }

  /** A filter and its complement split `s` into two parts that together hold every element exactly as often as `s`. */
  lemma FilterPartition<T>(s: seq<T>, p: T -> bool, q: T -> bool)
    requires forall x :: q(x) == !p(x)
    ensures multiset(Filter(s, p)) + multiset(Filter(s, q)) == multiset(s)
    ensures |Filter(s, p)| + |Filter(s, q)| == |s|
  {
    FilterMultiset(s, p);
    FilterMultiset(s, q);
    MultisetSplit(multiset(Filter(s, p)), multiset(Filter(s, q)), multiset(s), p, q);
    assert |multiset(Filter(s, p))| == |Filter(s, p)|;
    assert |multiset(Filter(s, q))| == |Filter(s, q)|;
  }

  lemma MultisetSplit<T>(kept: multiset<T>, dropped: multiset<T>, whole: multiset<T>, p: T -> bool, q: T -> bool)
    requires forall x :: q(x) == !p(x)
    requires forall x :: kept[x] == if p(x) then whole[x] else 0
    requires forall x :: dropped[x] == if q(x) then whole[x] else 0
    ensures kept + dropped == whole
  {
    forall x ensures (kept + dropped)[x] == whole[x] {
    }
  }

  /** When every element passes, the filter returns `s` itself. */
  lemma {:induction false} FilterKeepsAll<T>(s: seq<T>, p: T -> bool)
    requires forall x :: x in s ==> p(x)
    ensures Filter(s, p) == s
    decreases |s|
  {
    if s != [] {
      FilterKeepsAll(s[..|s| - 1], p);
      assert s == s[..|s| - 1] + [s[|s| - 1]];
    }
  }

  /** When no element passes, the filter is empty. */
  lemma {:induction false} FilterDropsAll<T>(s: seq<T>, p: T -> bool)
    requires forall x :: x in s ==> !p(x)
    ensures Filter(s, p) == []
    decreases |s|
  {
    if s != [] {
      FilterDropsAll(s[..|s| - 1], p);
    }
  }

  /** Filtering by `q` and then by a stronger `p` is filtering by `p` alone. */
  lemma {:induction false} FilterNarrow<T>(s: seq<T>, p: T -> bool, q: T -> bool)
    requires forall x :: p(x) ==> q(x)
    ensures Filter(Filter(s, q), p) == Filter(s, p)
    decreases |s|
  {
    if s != [] {
      var s' := s[..|s| - 1];
      var last := s[|s| - 1];
      FilterNarrow(s', p, q);
      FilterAppend(Filter(s', q), if q(last) then [last] else [], p);
      if q(last) {
        assert Filter([last], p) == Filter([], p) + (if p(last) then [last] else []);
      }
    }
  }
}
