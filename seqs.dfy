/**
 * Kotlin's `List.filter`, the one list operation shared by the repository
 * query and the home-screen bucketing, with the facts both rely on.
 */
module Seqs {

  /** `s.filter(p)`: the elements of `s` satisfying `p`, in their order. */
  function Filter<T>(s: seq<T>, p: T -> bool): (r: seq<T>)
    ensures |r| <= |s|
    ensures forall x :: x in r ==> p(x)
  {
    if s == [] then []
    else Filter(s[..|s| - 1], p) + (if p(s[|s| - 1]) then [s[|s| - 1]] else [])
  }

  lemma {:induction false} FilterConcat<T>(a: seq<T>, b: seq<T>, p: T -> bool)
    ensures Filter(a + b, p) == Filter(a, p) + Filter(b, p)
    decreases |b|
  {
    if b == [] {
      assert a + b == a;
    } else {
      var b' := b[..|b| - 1];
      assert (a + b)[..|a + b| - 1] == a + b';
      FilterConcat(a, b', p);
    }
  }

  lemma {:induction false} FilterCons<T>(x: T, t: seq<T>, p: T -> bool)
    ensures Filter([x] + t, p) == (if p(x) then [x] else []) + Filter(t, p)
  {
    FilterConcat([x], t, p);
    assert Filter([x], p) == (if p(x) then [x] else []) by {
      assert [x][..0] == [];
    }
  }

  lemma {:induction false} FilterSnoc<T>(t: seq<T>, x: T, p: T -> bool)
    ensures Filter(t + [x], p) == Filter(t, p) + (if p(x) then [x] else [])
  {
    assert (t + [x])[..|t|] == t;
  }

  /** Filtering keeps, for every value, all of its copies or none of them. */
  lemma {:induction false} FilterMultiset<T>(s: seq<T>, p: T -> bool, x: T)
    ensures multiset(Filter(s, p))[x] == if p(x) then multiset(s)[x] else 0
    decreases |s|
  {
    if s != [] {
      var s' := s[..|s| - 1];
      FilterMultiset(s', p, x);
      assert s == s' + [s[|s| - 1]];
    }
  }

  lemma {:induction false} FilterMembership<T>(s: seq<T>, p: T -> bool, x: T)
    ensures x in Filter(s, p) <==> x in s && p(x)
  {
    FilterMultiset(s, p, x);
    assert x in Filter(s, p) <==> multiset(Filter(s, p))[x] > 0;
    assert x in s <==> multiset(s)[x] > 0;
  }

  /** Predicates that agree on the elements give the same filter. */
  lemma {:induction false} FilterSame<T>(s: seq<T>, p: T -> bool, q: T -> bool)
    requires forall x :: x in s ==> p(x) == q(x)
    ensures Filter(s, p) == Filter(s, q)
    decreases |s|
  {
    if s != [] {
      FilterSame(s[..|s| - 1], p, q);
    }
  }

  /** A predicate every element satisfies filters nothing out. */
  lemma {:induction false} FilterAll<T>(s: seq<T>, p: T -> bool)
    requires forall x :: x in s ==> p(x)
    ensures Filter(s, p) == s
  {
    if s != [] {
      FilterAll(s[..|s| - 1], p);
      assert s == s[..|s| - 1] + [s[|s| - 1]];
    }
  }

  /** Two filters in a row are one filter by the conjunction. */
  lemma {:induction false} FilterFilter<T>(s: seq<T>, p: T -> bool, q: T -> bool, pq: T -> bool)
    requires forall x :: x in s ==> pq(x) == (p(x) && q(x))
    ensures Filter(Filter(s, p), q) == Filter(s, pq)
    decreases |s|
  {
    if s != [] {
      var s' := s[..|s| - 1];
      FilterFilter(s', p, q, pq);
      var x := s[|s| - 1];
      FilterConcat(Filter(s', p), if p(x) then [x] else [], q);
      assert Filter([x], q) == (if q(x) then [x] else []) by {
        assert [x][..0] == [];
      }
    }
  }

  /** A relation holding between every earlier and every later element. */
  ghost predicate Chain<T>(s: seq<T>, rel: (T, T) -> bool) {
    forall i, j :: 0 <= i < j < |s| ==> rel(s[i], s[j])
  }

  /** `idx` picks out `a` from `b` at strictly increasing positions. */
  ghost predicate Embedding<T>(a: seq<T>, b: seq<T>, idx: seq<nat>) {
    && |idx| == |a|
    && (forall k :: 0 <= k < |idx| ==> idx[k] < |b| && a[k] == b[idx[k]])
    && (forall k, l :: 0 <= k < l < |idx| ==> idx[k] < idx[l])
  }

  /** The filtered list is an order-preserving subsequence of the input. */
  lemma {:induction false} FilterSubsequence<T>(s: seq<T>, p: T -> bool) returns (idx: seq<nat>)
    ensures Embedding(Filter(s, p), s, idx)
    decreases |s|
  {
    if s == [] {
      idx := [];
    } else {
      var s' := s[..|s| - 1];
      idx := FilterSubsequence(s', p);
      if p(s[|s| - 1]) {
        idx := idx + [|s| - 1];
      }
    }
  }

  /** Anything every earlier element bears to every later one survives filtering. */
  lemma {:induction false} FilterChain<T>(s: seq<T>, p: T -> bool, rel: (T, T) -> bool)
    requires Chain(s, rel)
    ensures Chain(Filter(s, p), rel)
  {
    var r := Filter(s, p);
    var idx := FilterSubsequence(s, p);
    forall i, j | 0 <= i < j < |r| ensures rel(r[i], r[j]) {
      assert r[i] == s[idx[i]] && r[j] == s[idx[j]];
    }
  }
}
