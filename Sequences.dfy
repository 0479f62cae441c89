/**
 Order-preserving filtering of a sequence, the one operation shared by the
 character strip of `clean_percent` (a regular-expression substitution that
 deletes every character outside a class) and by the row drop of `dropna`.
 Besides the definition this module gives an independent description of the
 result (a subsequence holding every kept element as often as the input does,
 and nothing else) and proves that the description determines it.
 */
module Sequences {

  /** The elements of `s` that satisfy `p`, in their original order. */
  function Filter<T>(s: seq<T>, p: T -> bool): (r: seq<T>)
    ensures |r| <= |s|
    ensures forall i :: 0 <= i < |r| ==> p(r[i])
  {
    if s == [] then []
    else if p(s[0]) then [s[0]] + Filter(s[1..], p)
    else Filter(s[1..], p)
  }

  /** `a` can be obtained from `b` by deleting elements (greedy matching, which is complete). */
  ghost predicate IsSubsequence<T>(a: seq<T>, b: seq<T>)
    decreases |b|
  {
    if a == [] then true
    else if b == [] then false
    else if a[0] == b[0] then IsSubsequence(a[1..], b[1..])
    else IsSubsequence(a, b[1..])
  }

  /** A subsequence never holds an element more often than the sequence it is taken from. */
  lemma {:induction false} SubsequenceCount<T>(a: seq<T>, b: seq<T>, x: T)
    requires IsSubsequence(a, b)
    ensures multiset(a)[x] <= multiset(b)[x]
    decreases |b|
  {
    if a == [] {
    } else {
      assert b != [];
      assert b == [b[0]] + b[1..];
      if a[0] == b[0] {
        assert a == [a[0]] + a[1..];
        SubsequenceCount(a[1..], b[1..], x);
      } else {
        SubsequenceCount(a, b[1..], x);
      }
    }
  }

  /** Filtering deletes elements and never reorders the ones it keeps. */
  lemma {:induction false} FilterIsSubsequence<T>(s: seq<T>, p: T -> bool)
    ensures IsSubsequence(Filter(s, p), s)
  {
    if s != [] {
      FilterIsSubsequence(s[1..], p);
      var rest := Filter(s[1..], p);
      if !p(s[0]) && rest != [] {
        assert p(rest[0]);
      }
    }
  }

  /** Every element satisfying `p` appears in the result exactly as often as in the input. */
  lemma {:induction false} FilterCount<T>(s: seq<T>, p: T -> bool, x: T)
    requires p(x)
    ensures multiset(Filter(s, p))[x] == multiset(s)[x]
  {
    if s != [] {
      assert s == [s[0]] + s[1..];
      FilterCount(s[1..], p, x);
    }
  }

  /**
   The description is complete: a subsequence of `s` that holds only elements
   satisfying `p`, each as often as `s` does, is the filtered sequence.
   */
  lemma {:induction false} FilterUnique<T>(s: seq<T>, p: T -> bool, t: seq<T>)
    requires IsSubsequence(t, s)
    requires forall i :: 0 <= i < |t| ==> p(t[i])
    requires forall x :: p(x) ==> multiset(t)[x] == multiset(s)[x]
    ensures t == Filter(s, p)
  {
    if s == [] {
      assert t == [];
    } else {
      var c := s[0];
      assert s == [c] + s[1..];
      if p(c) {
        assert multiset(t)[c] == multiset(s)[c] > 0;
        assert t != [];
        assert t == [t[0]] + t[1..];
        if t[0] == c {
          forall x | p(x) ensures multiset(t[1..])[x] == multiset(s[1..])[x] {
            assert multiset(t)[x] == multiset(t[1..])[x] + (if x == c then 1 else 0);
          }
          FilterUnique(s[1..], p, t[1..]);
        } else {
          SubsequenceCount(t, s[1..], c);
          assert false;
        }
      } else {
        if t != [] {
          assert p(t[0]);
          assert t[0] != c;
        }
        assert IsSubsequence(t, s[1..]);
        forall x | p(x) ensures multiset(t)[x] == multiset(s[1..])[x] {
          assert x != c;
        }
        FilterUnique(s[1..], p, t);
      }
    }
  }

  /** A sequence whose elements all satisfy `p` is left unchanged. */
  lemma {:induction false} FilterAllKept<T>(s: seq<T>, p: T -> bool)
    requires forall i :: 0 <= i < |s| ==> p(s[i])
    ensures Filter(s, p) == s
  {
    if s != [] {
      assert p(s[0]);
      FilterAllKept(s[1..], p);
    }
  }

  /** Filtering twice with the same predicate is filtering once. */
  lemma FilterIdempotent<T>(s: seq<T>, p: T -> bool)
    ensures Filter(Filter(s, p), p) == Filter(s, p)
  {
    FilterAllKept(Filter(s, p), p);
  }

  /** What `p` keeps and what its complement `q` keeps add up to the whole input. */
  lemma {:induction false} FilterPartition<T>(s: seq<T>, p: T -> bool, q: T -> bool)
    requires forall x :: q(x) == !p(x)
    ensures |Filter(s, p)| + |Filter(s, q)| == |s|
  {
    if s != [] {
      FilterPartition(s[1..], p, q);
    }
  }
}
