/** Order-preserving filtering, the shape of the Java loops that copy the matching elements of a list. */
module Seqs {

  /** The elements of s that satisfy f, in their original order. */
  function Filter<T>(s: seq<T>, f: T -> bool): (r: seq<T>)
    ensures |r| <= |s|
    ensures forall i :: 0 <= i < |r| ==> f(r[i])
  {
    if s == [] then []
    else Filter(s[..|s| - 1], f) + (if f(s[|s| - 1]) then [s[|s| - 1]] else [])
  }

  /** a can be obtained from b by deleting elements (the order of what is kept is unchanged). */
  ghost predicate IsSubsequence<T>(a: seq<T>, b: seq<T>)
    decreases |b|
  {
    if a == [] then true
    else if b == [] then false
    else if a[|a| - 1] == b[|b| - 1] then IsSubsequence(a[..|a| - 1], b[..|b| - 1])
    else IsSubsequence(a, b[..|b| - 1])
  }

  /** An element is kept exactly when it occurs in s and satisfies f. */
  lemma {:induction false} FilterMembership<T>(s: seq<T>, f: T -> bool, x: T)
    ensures x in Filter(s, f) <==> x in s && f(x)
  {
    if s != [] {
      FilterMembership(s[..|s| - 1], f, x);
      assert s == s[..|s| - 1] + [s[|s| - 1]];
    }
  }

  /** Extending the input by one element extends the output by that element when it matches. */
  lemma FilterSnoc<T>(s: seq<T>, x: T, f: T -> bool)
    ensures Filter(s + [x], f) == Filter(s, f) + (if f(x) then [x] else [])
  {
    assert (s + [x])[..|s + [x]| - 1] == s;
  }

  /** Filtering keeps the order of what it keeps. */
  lemma {:induction false} FilterIsSubsequence<T>(s: seq<T>, f: T -> bool)
    ensures IsSubsequence(Filter(s, f), s)
  {
    if s != [] {
      var init, last := s[..|s| - 1], s[|s| - 1];
      FilterIsSubsequence(init, f);
      if f(last) {
        var r := Filter(init, f) + [last];
        assert r[..|r| - 1] == Filter(init, f);
      } else {
        if Filter(s, f) != [] {
          assert Filter(s, f) == Filter(init, f);
        }
      }
    }
  }

  /** Filtering by a stronger condition after a weaker one is filtering by the stronger one. */
  lemma {:induction false} FilterFilter<T>(s: seq<T>, f: T -> bool, g: T -> bool)
    requires forall x :: g(x) ==> f(x)
    ensures Filter(Filter(s, f), g) == Filter(s, g)
  {
    if s != [] {
      var init, last := s[..|s| - 1], s[|s| - 1];
      FilterFilter(init, f, g);
      assert Filter(s, g) == Filter(init, g) + (if g(last) then [last] else []);
      if f(last) {
        assert Filter(s, f) == Filter(init, f) + [last];
        FilterSnoc(Filter(init, f), last, g);
      } else {
        assert Filter(s, f) == Filter(init, f);
      }
    }
  }

  /** The result is empty exactly when no element matches. */
  lemma FilterEmpty<T>(s: seq<T>, f: T -> bool)
    ensures Filter(s, f) == [] <==> forall i :: 0 <= i < |s| ==> !f(s[i])
  {
    if Filter(s, f) == [] {
      forall i | 0 <= i < |s| ensures !f(s[i]) {
        FilterMembership(s, f, s[i]);
      }
    } else {
      FilterMembership(s, f, Filter(s, f)[0]);
    }
  }
}
