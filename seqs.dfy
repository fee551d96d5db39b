/** Generic sequence vocabulary: an optional value, filtering by a predicate and
    the order-preserving subsequence relation. */
module Seqs {

  datatype Option<+T> = None | Some(value: T)

  /** The elements of `s` that satisfy `p`, in their order (a list comprehension
      with an `if`). */
  function Filter<T>(s: seq<T>, p: T -> bool): seq<T>
  {
    if |s| == 0 then []
    else Filter(s[..|s| - 1], p) + (if p(s[|s| - 1]) then [s[|s| - 1]] else [])
  }

  /** `a` is obtained from `b` by deleting elements: it keeps their order. */
  predicate IsSubsequence<T(==)>(a: seq<T>, b: seq<T>)
    decreases |b|
  {
    |a| == 0 ||
    (|b| > 0 &&
      if a[|a| - 1] == b[|b| - 1] then IsSubsequence(a[..|a| - 1], b[..|b| - 1])
      else IsSubsequence(a, b[..|b| - 1]))
  }

  lemma {:induction false} IsSubsequenceOfSelf<T>(a: seq<T>)
    ensures IsSubsequence(a, a)
    decreases |a|
  {
    if |a| > 0 { IsSubsequenceOfSelf(a[..|a| - 1]); }
  }

  /** Appending to the larger sequence keeps a subsequence a subsequence. */
  lemma {:induction false} IsSubsequenceExtend<T>(a: seq<T>, b: seq<T>, x: T)
    requires IsSubsequence(a, b)
    ensures IsSubsequence(a, b + [x])
    decreases |b|, 1
  {
    assert (b + [x])[..|b|] == b;
    if |a| > 0 && a[|a| - 1] == x {
      var a' := a[..|a| - 1];
      IsSubsequencePrefix(a, b);
      assert IsSubsequence(a', b);
    }
  }

  /** Dropping the last element of the smaller sequence keeps the relation. */
  lemma {:induction false} IsSubsequencePrefix<T>(a: seq<T>, b: seq<T>)
    requires IsSubsequence(a, b) && |a| > 0
    ensures IsSubsequence(a[..|a| - 1], b)
    decreases |b|, 0
  {
    var b' := b[..|b| - 1];
    if a[|a| - 1] == b[|b| - 1] {
      IsSubsequenceExtend(a[..|a| - 1], b', b[|b| - 1]);
      assert b' + [b[|b| - 1]] == b;
    } else {
      IsSubsequencePrefix(a, b');
      IsSubsequenceExtend(a[..|a| - 1], b', b[|b| - 1]);
      assert b' + [b[|b| - 1]] == b;
    }
  }

  /** The filtered list keeps the input's order, and an element is in it exactly when
      it is in the input and satisfies the predicate. */
  lemma {:induction false} FilterFacts<T>(s: seq<T>, p: T -> bool)
    ensures IsSubsequence(Filter(s, p), s)
    ensures forall x :: x in Filter(s, p) <==> x in s && p(x)
    ensures |Filter(s, p)| <= |s|
    decreases |s|
  {
    if |s| > 0 {
      var init, x := s[..|s| - 1], s[|s| - 1];
      assert s == init + [x];
      FilterFacts(init, p);
      IsSubsequenceExtend(Filter(init, p), init, x);
      var f := Filter(s, p);
      if p(x) {
        assert f == Filter(init, p) + [x];
        assert f[..|f| - 1] == Filter(init, p) && f[|f| - 1] == x;
        assert s[..|s| - 1] == init && s[|s| - 1] == x;
      } else {
        assert f == Filter(init, p);
      }
    }
  }
}
