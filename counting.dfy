/** Counting the elements of a sequence that satisfy a condition, as the
    scripts' counters do one element at a time. */
module Counting {
  /** How many elements of `s` satisfy `p`. */
  function CountIf<T>(s: seq<T>, p: T -> bool): (n: nat)
    ensures n <= |s|
  {
    if s == [] then 0
    else CountIf(s[..|s| - 1], p) + (if p(s[|s| - 1]) then 1 else 0)
  }

  lemma CountIfSnoc<T>(s: seq<T>, x: T, p: T -> bool)
    ensures CountIf(s + [x], p) == CountIf(s, p) + (if p(x) then 1 else 0)
  {
    assert (s + [x])[..|s|] == s;
  }

  /** What satisfies `p` also satisfies `q`, so is counted no more often. */
  lemma {:induction false} CountIfMono<T>(s: seq<T>, p: T -> bool, q: T -> bool)
    requires forall x :: p(x) ==> q(x)
    ensures CountIf(s, p) <= CountIf(s, q)
  {
    if s != [] {
      CountIfMono(s[..|s| - 1], p, q);
    }
  }

  /** Counting by `p` splits into counting by two cases that never overlap. */
  lemma {:induction false} CountIfSplit<T>(s: seq<T>, p: T -> bool, a: T -> bool, b: T -> bool)
    requires forall x :: p(x) <==> a(x) || b(x)
    requires forall x :: !(a(x) && b(x))
    ensures CountIf(s, p) == CountIf(s, a) + CountIf(s, b)
  {
    if s != [] {
      CountIfSplit(s[..|s| - 1], p, a, b);
    }
  }

  /** Every element is counted by `p` or by its negation, never both. */
  lemma CountIfBoth<T>(s: seq<T>, p: T -> bool)
    ensures CountIf(s, p) + CountIf(s, x => !p(x)) == |s|
  {
    CountIfSplit(s, x => true, p, x => !p(x));
    CountIfAll(s);
  }

  lemma {:induction false} CountIfAll<T>(s: seq<T>)
    ensures CountIf(s, x => true) == |s|
  {
    if s != [] {
      CountIfAll(s[..|s| - 1]);
    }
  }

  /** No element satisfies the false predicate. */
  lemma {:induction false} CountIfNone<T>(s: seq<T>)
    ensures CountIf(s, x => false) == 0
  {
    if s != [] {
      CountIfNone(s[..|s| - 1]);
    }
  }

  /** `r` is `s` with some elements left out and the rest kept in order. */
  ghost predicate Subsequence<T>(r: seq<T>, s: seq<T>)
    decreases |s|
  {
    if r == [] then true
    else if s == [] then false
    else
      || (r[|r| - 1] == s[|s| - 1] && Subsequence(r[..|r| - 1], s[..|s| - 1]))
      || Subsequence(r, s[..|s| - 1])
  }

  /** `r` is `[x for x in s if p(x)]`: a subsequence of `s` made only of
      elements satisfying `p`, as many as `s` holds. */
  ghost predicate IsFilter<T>(r: seq<T>, s: seq<T>, p: T -> bool) {
    && Subsequence(r, s)
    && (forall i :: 0 <= i < |r| ==> p(r[i]))
    && |r| == CountIf(s, p)
  }

  /** Filtering one more element keeps it exactly when it satisfies `p`. */
  lemma FilterSnoc<T>(r: seq<T>, s: seq<T>, x: T, p: T -> bool)
    requires IsFilter(r, s, p)
    ensures IsFilter(r + (if p(x) then [x] else []), s + [x], p)
  {
    CountIfSnoc(s, x, p);
    assert (s + [x])[..|s|] == s;
    if p(x) {
      assert (r + [x])[..|r|] == r;
    } else {
      SubsequenceSnoc(r, s, x);
      assert r + [] == r;
    }
  }

  lemma SubsequenceSnoc<T>(r: seq<T>, s: seq<T>, x: T)
    requires Subsequence(r, s)
    ensures Subsequence(r, s + [x])
  {
    assert (s + [x])[..|s|] == s;
  }

  /** A subsequence made of elements satisfying `p` is no longer than the
      number of them in `s`. */
  lemma {:induction false} SubsequenceCount<T>(r: seq<T>, s: seq<T>, p: T -> bool)
    requires Subsequence(r, s) && forall i :: 0 <= i < |r| ==> p(r[i])
    ensures |r| <= CountIf(s, p)
    decreases |s|
  {
    if r != [] {
      var s' := s[..|s| - 1];
      if r[|r| - 1] == s[|s| - 1] && Subsequence(r[..|r| - 1], s') {
        SubsequenceCount(r[..|r| - 1], s', p);
      } else {
        SubsequenceCount(r, s', p);
      }
    }
  }

  /** The filter of `s + [x]` is the filter of `s`, followed by `x` when it
      satisfies `p`. */
  lemma FilterInit<T>(r: seq<T>, s: seq<T>, x: T, p: T -> bool)
    requires IsFilter(r, s + [x], p)
    ensures p(x) ==> r != [] && r[|r| - 1] == x && IsFilter(r[..|r| - 1], s, p)
    ensures !p(x) ==> IsFilter(r, s, p)
  {
    CountIfSnoc(s, x, p);
    assert (s + [x])[..|s|] == s;
    if p(x) {
      if !(r[|r| - 1] == x && Subsequence(r[..|r| - 1], s)) {
        SubsequenceCount(r, s, p);
        assert false;
      }
    } else if r != [] && r[|r| - 1] == x {
      assert false;
    }
  }

  /** There is only one filter of `s` by `p`. */
  lemma {:induction false} FilterUnique<T>(r1: seq<T>, r2: seq<T>, s: seq<T>, p: T -> bool)
    requires IsFilter(r1, s, p) && IsFilter(r2, s, p)
    ensures r1 == r2
    decreases |s|
  {
    if s != [] {
      var s', x := s[..|s| - 1], s[|s| - 1];
      assert s == s' + [x];
      FilterInit(r1, s', x, p);
      FilterInit(r2, s', x, p);
      if p(x) {
        FilterUnique(r1[..|r1| - 1], r2[..|r2| - 1], s', p);
        assert r1 == r1[..|r1| - 1] + [x] && r2 == r2[..|r2| - 1] + [x];
      } else {
        FilterUnique(r1, r2, s', p);
      }
    }
  }

  /** The filter holds exactly the elements of `s` that satisfy `p`. */
  lemma {:induction false} FilterMembers<T>(r: seq<T>, s: seq<T>, p: T -> bool)
    requires IsFilter(r, s, p)
    ensures forall x :: x in r <==> x in s && p(x)
    decreases |s|
  {
    if s != [] {
      var s', y := s[..|s| - 1], s[|s| - 1];
      assert s == s' + [y];
      FilterInit(r, s', y, p);
      if p(y) {
        var r' := r[..|r| - 1];
        FilterMembers(r', s', p);
        assert r == r' + [y];
      } else {
        FilterMembers(r, s', p);
      }
    }
  }
}
