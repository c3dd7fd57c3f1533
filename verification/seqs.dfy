/** Order-preserving filtering of sequences, the shape of JavaScript's
    `Array.prototype.filter`, with the subsequence relation that specifies it. */
module Seqs {

  /** `a` can be obtained from `b` by deleting elements, keeping the order of the rest. */
  predicate IsSubsequence<T(==)>(a: seq<T>, b: seq<T>)
    decreases |b|
  {
    || |a| == 0
    || (&& |b| > 0
        && ((a[0] == b[0] && IsSubsequence(a[1..], b[1..])) || IsSubsequence(a, b[1..])))
  }

  lemma {:induction false} SubsequenceLength<T>(a: seq<T>, b: seq<T>)
    requires IsSubsequence(a, b)
    ensures |a| <= |b|
    decreases |b|
  {
    if |a| > 0 {
      if a[0] == b[0] && IsSubsequence(a[1..], b[1..]) {
        SubsequenceLength(a[1..], b[1..]);
      } else {
        SubsequenceLength(a, b[1..]);
      }
    }
  }

  /** A subsequence as long as the whole is the whole. */
  lemma {:induction false} SubsequenceSameLength<T>(a: seq<T>, b: seq<T>)
    requires IsSubsequence(a, b) && |a| == |b|
    ensures a == b
    decreases |b|
  {
    if |a| > 0 {
      if a[0] == b[0] && IsSubsequence(a[1..], b[1..]) {
        SubsequenceSameLength(a[1..], b[1..]);
        assert a == [a[0]] + a[1..];
        assert b == [b[0]] + b[1..];
      } else {
        SubsequenceLength(a, b[1..]);
        assert false;
      }
    }
  }

  /** The elements of `s` satisfying `p`, in their original order. */
  function Filter<T(==,!new)>(p: T -> bool, s: seq<T>): (r: seq<T>)
    ensures |r| <= |s|
    ensures forall i :: 0 <= i < |r| ==> p(r[i])
    ensures forall x :: x in r <==> x in s && p(x)
    ensures forall x :: multiset(r)[x] == if p(x) then multiset(s)[x] else 0
    ensures IsSubsequence(r, s)
  {
    if |s| == 0 then []
    else
      assert s == [s[0]] + s[1..];
      var rest := Filter(p, s[1..]);
      if p(s[0]) then
        assert ([s[0]] + rest)[1..] == rest;
        [s[0]] + rest
      else
        assert |rest| > 0 ==> rest[0] != s[0];
        rest
  }

  /** Every subsequence of `s` whose elements all satisfy `p` is a subsequence
      of `Filter(p, s)`: the filter keeps the longest such subsequence. */
  lemma {:induction false} FilterMaximal<T(!new)>(p: T -> bool, t: seq<T>, s: seq<T>)
    requires IsSubsequence(t, s)
    requires forall i :: 0 <= i < |t| ==> p(t[i])
    ensures IsSubsequence(t, Filter(p, s))
    decreases |s|
  {
    if |t| > 0 {
      var f, rest := Filter(p, s), Filter(p, s[1..]);
      if t[0] == s[0] && IsSubsequence(t[1..], s[1..]) {
        FilterMaximal(p, t[1..], s[1..]);
        assert f == [s[0]] + rest;
        assert f[1..] == rest;
      } else {
        FilterMaximal(p, t, s[1..]);
        if p(s[0]) {
          assert f == [s[0]] + rest;
          assert f[1..] == rest;
          SubsequenceDropHead(t, f);
        } else {
          assert f == rest;
        }
      }
    }
  }

  /** A subsequence of the tail is a subsequence of the whole. */
  lemma SubsequenceDropHead<T>(t: seq<T>, f: seq<T>)
    requires |f| > 0 && IsSubsequence(t, f[1..])
    ensures IsSubsequence(t, f)
  {
  }

  /** `Filter(p, s)` is the only subsequence of `s` of its length whose
      elements all satisfy `p`. */
  lemma FilterUnique<T(!new)>(p: T -> bool, t: seq<T>, s: seq<T>)
    requires IsSubsequence(t, s)
    requires forall i :: 0 <= i < |t| ==> p(t[i])
    requires |t| >= |Filter(p, s)|
    ensures t == Filter(p, s)
  {
    FilterMaximal(p, t, s);
    SubsequenceLength(t, Filter(p, s));
    SubsequenceSameLength(t, Filter(p, s));
  }

  /** Filtering a sequence with a known head: the head is kept iff it passes. */
  lemma FilterCons<T(!new)>(p: T -> bool, a: T, t: seq<T>)
    ensures Filter(p, [a] + t) == (if p(a) then [a] else []) + Filter(p, t)
  {
    assert ([a] + t)[1..] == t;
  }

  /** Filtering a sequence whose elements all pass returns it unchanged. */
  lemma {:induction false} FilterAllPass<T(!new)>(p: T -> bool, s: seq<T>)
    requires forall i :: 0 <= i < |s| ==> p(s[i])
    ensures Filter(p, s) == s
  {
    if |s| > 0 {
      FilterAllPass(p, s[1..]);
      assert s == [s[0]] + s[1..];
    }
  }
}
