/** Order-preserving selection on sequences: JavaScript's `Array.prototype.filter` and `slice`. */
module Seqs {

  /** `s.filter(p)`: the elements of `s` satisfying `p`, in their original order. */
  function Filter<T>(s: seq<T>, p: T -> bool): (r: seq<T>)
    ensures |r| <= |s|
  {
    if s == [] then []
    else if p(s[0]) then [s[0]] + Filter(s[1..], p)
    else Filter(s[1..], p)
  }

  /** An element is selected exactly when it is in `s` and passes `p`. */
  lemma {:induction false} FilterMembers<T>(s: seq<T>, p: T -> bool)
    ensures forall x :: x in Filter(s, p) <==> x in s && p(x)
    decreases |s|
  {
    if s != [] {
      FilterMembers(s[1..], p);
      assert s == [s[0]] + s[1..];
    }
  }

  /** `filter` keeps every copy of a passing element and no copy of a failing one. */
  lemma {:induction false} FilterMultiset<T>(s: seq<T>, p: T -> bool)
    ensures forall x :: multiset(Filter(s, p))[x] == if p(x) then multiset(s)[x] else 0
    decreases |s|
  {
    if s != [] {
      FilterMultiset(s[1..], p);
      assert s == [s[0]] + s[1..];
      assert multiset(s) == multiset{s[0]} + multiset(s[1..]);
      if p(s[0]) {
        assert multiset(Filter(s, p)) == multiset{s[0]} + multiset(Filter(s[1..], p));
      }
    }
  }

  /** One step of `Filter` on a sequence written as head and tail. */
  lemma FilterCons<T>(h: T, t: seq<T>, p: T -> bool)
    ensures Filter([h] + t, p) == if p(h) then [h] + Filter(t, p) else Filter(t, p)
  {
  }

  /** `s.slice(0, n)`: the first `n` elements, or all of `s` when it is shorter. */
  function Take<T>(s: seq<T>, n: nat): (r: seq<T>)
    ensures |r| == if |s| < n then |s| else n
    ensures r <= s
  {
    if |s| <= n then s else s[..n]
  }

  /** `a` is obtained from `b` by deleting elements, keeping the order of the rest. */
  ghost predicate IsSubseq<T>(a: seq<T>, b: seq<T>)
    decreases |b|
  {
    if a == [] then true
    else if b == [] then false
    else (a[0] == b[0] && IsSubseq(a[1..], b[1..])) || IsSubseq(a, b[1..])
  }

  lemma {:induction false} SubseqRefl<T>(a: seq<T>)
    ensures IsSubseq(a, a)
    decreases |a|
  {
    if a != [] {
      SubseqRefl(a[1..]);
    }
  }

  lemma {:induction false} PrefixIsSubseq<T>(a: seq<T>, b: seq<T>)
    requires a <= b
    ensures IsSubseq(a, b)
    decreases |b|
  {
    if a != [] {
      PrefixIsSubseq(a[1..], b[1..]);
    }
  }

  lemma {:induction false} SubseqTrans<T>(a: seq<T>, b: seq<T>, c: seq<T>)
    requires IsSubseq(a, b) && IsSubseq(b, c)
    ensures IsSubseq(a, c)
    decreases |c|
  {
    if a == [] {
    } else if a[0] == b[0] && IsSubseq(a[1..], b[1..]) {
      if b[0] == c[0] && IsSubseq(b[1..], c[1..]) {
        SubseqTrans(a[1..], b[1..], c[1..]);
      } else {
        SubseqTrans(a, b, c[1..]);
      }
    } else {
      if b[0] == c[0] && IsSubseq(b[1..], c[1..]) {
        SubseqTrans(a, b[1..], c[1..]);
      } else {
        SubseqTrans(a, b, c[1..]);
      }
    }
  }

  /** A subsequence has no element its source lacks. */
  lemma {:induction false} SubseqMembers<T>(a: seq<T>, b: seq<T>)
    requires IsSubseq(a, b)
    ensures forall x :: x in a ==> x in b
    decreases |b|
  {
    if a != [] {
      assert a == [a[0]] + a[1..];
      assert b == [b[0]] + b[1..];
      if a[0] == b[0] && IsSubseq(a[1..], b[1..]) {
        SubseqMembers(a[1..], b[1..]);
      } else {
        SubseqMembers(a, b[1..]);
      }
    }
  }

  lemma {:induction false} FilterIsSubseq<T>(s: seq<T>, p: T -> bool)
    ensures IsSubseq(Filter(s, p), s)
    decreases |s|
  {
    if s != [] {
      FilterIsSubseq(s[1..], p);
      if p(s[0]) {
        assert Filter(s, p)[1..] == Filter(s[1..], p);
      }
    }
  }

  /** Filtering keeps everything when every element passes. */
  lemma {:induction false} FilterAll<T>(s: seq<T>, p: T -> bool)
    requires forall x :: x in s ==> p(x)
    ensures Filter(s, p) == s
    decreases |s|
  {
    if s != [] {
      FilterAll(s[1..], p);
    }
  }

  /** Predicates that agree on the elements of `s` select the same elements. */
  lemma {:induction false} FilterCongruent<T>(s: seq<T>, p: T -> bool, q: T -> bool)
    requires forall x :: x in s ==> p(x) == q(x)
    ensures Filter(s, p) == Filter(s, q)
    decreases |s|
  {
    if s != [] {
      FilterCongruent(s[1..], p, q);
    }
  }

  /** Two filters in a row are one filter by the conjunction. */
  lemma {:induction false} FilterFilter<T>(s: seq<T>, p: T -> bool, q: T -> bool, pq: T -> bool)
    requires forall x :: pq(x) == (p(x) && q(x))
    ensures Filter(Filter(s, p), q) == Filter(s, pq)
    decreases |s|
  {
    if s != [] {
      FilterFilter(s[1..], p, q, pq);
    }
  }

  lemma {:induction false} FilterAppend<T>(a: seq<T>, b: seq<T>, p: T -> bool)
    ensures Filter(a + b, p) == Filter(a, p) + Filter(b, p)
    decreases |a|
  {
    if a != [] {
      assert (a + b)[0] == a[0];
      assert (a + b)[1..] == a[1..] + b;
      FilterAppend(a[1..], b, p);
      if p(a[0]) {
        assert Filter(a + b, p) == [a[0]] + Filter(a[1..] + b, p);
        assert [a[0]] + (Filter(a[1..], p) + Filter(b, p)) == ([a[0]] + Filter(a[1..], p)) + Filter(b, p);
      } else {
        assert Filter(a + b, p) == Filter(a[1..] + b, p);
      }
    } else {
      assert a + b == b;
    }
  }

  /** A weaker predicate selects a longer sequence. */
  lemma {:induction false} FilterWeakerIsLonger<T>(s: seq<T>, p: T -> bool, q: T -> bool)
    requires forall x :: p(x) ==> q(x)
    ensures |Filter(s, p)| <= |Filter(s, q)|
    decreases |s|
  {
    if s != [] {
      FilterWeakerIsLonger(s[1..], p, q);
    }
  }
}
