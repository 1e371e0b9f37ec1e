/** Order-preserving filtering of sequences, the meaning of JavaScript's `Array.prototype.filter`. */
module Seqs {

  /** The elements of `s` that satisfy `p`, in their original order. */
  function Filter<T>(p: T -> bool, s: seq<T>): (r: seq<T>)
    ensures |r| <= |s|
    ensures forall i :: 0 <= i < |r| ==> p(r[i])
  {
    if |s| == 0 then []
    else if p(s[0]) then [s[0]] + Filter(p, s[1..])
    else Filter(p, s[1..])
  }

  /** `a` is obtained from `b` by deleting elements, without reordering. */
  predicate IsSubseq<T(==)>(a: seq<T>, b: seq<T>)
    decreases |b|
  {
    || |a| == 0
    || (&& |b| > 0
        && ((a[0] == b[0] && IsSubseq(a[1..], b[1..])) || IsSubseq(a, b[1..])))
  }

  /** Every element of a subsequence occurs in the sequence it was taken from. */
  lemma {:induction false} SubseqMembers<T>(a: seq<T>, b: seq<T>)
    requires IsSubseq(a, b)
    ensures forall x :: x in a ==> x in b
    decreases |b|
  {
    if |a| > 0 {
      if a[0] == b[0] && IsSubseq(a[1..], b[1..]) {
        SubseqMembers(a[1..], b[1..]);
        assert a == [a[0]] + a[1..];
      } else {
        SubseqMembers(a, b[1..]);
      }
    }
  }

  /** Filtering keeps the order of the kept elements: the result is a subsequence. */
  lemma {:induction false} FilterIsSubseq<T>(p: T -> bool, s: seq<T>)
    ensures IsSubseq(Filter(p, s), s)
  {
    if |s| > 0 {
      FilterIsSubseq(p, s[1..]);
      if p(s[0]) {
        assert Filter(p, s)[1..] == Filter(p, s[1..]);
      }
    }
  }

  /** Filtering keeps every occurrence of a satisfying element and drops every other one. */
  lemma {:induction false} FilterCounts<T>(p: T -> bool, s: seq<T>)
    ensures forall x :: multiset(Filter(p, s))[x] == if p(x) then multiset(s)[x] else 0
  {
    if |s| > 0 {
      FilterCounts(p, s[1..]);
      assert s == [s[0]] + s[1..];
      assert multiset(s) == multiset{s[0]} + multiset(s[1..]);
    }
  }

  /** Filtering twice by the same predicate is filtering once. */
  lemma {:induction false} FilterIdempotent<T>(p: T -> bool, s: seq<T>)
    ensures Filter(p, Filter(p, s)) == Filter(p, s)
  {
    if |s| > 0 {
      FilterIdempotent(p, s[1..]);
      if p(s[0]) {
        var r := Filter(p, s);
        assert r[0] == s[0] && r[1..] == Filter(p, s[1..]);
      }
    }
  }

  /** A filter that keeps every element is the identity. */
  lemma {:induction false} FilterKeepsAll<T>(p: T -> bool, s: seq<T>)
    requires forall i :: 0 <= i < |s| ==> p(s[i])
    ensures Filter(p, s) == s
  {
    if |s| > 0 {
      FilterKeepsAll(p, s[1..]);
      assert s == [s[0]] + s[1..];
    }
  }

  /** An element found at two positions occurs at least twice. */
  lemma TwoPositionsCount<T>(s: seq<T>, p: nat, q: nat)
    requires p < q < |s| && s[p] == s[q]
    ensures multiset(s)[s[p]] >= 2
  {
    assert s == s[..p] + [s[p]] + s[p + 1..];
    assert s[q] in s[p + 1..] by {
      assert s[p + 1..][q - p - 1] == s[q];
    }
  }

  /** An element occurring at least twice is found at two positions. */
  lemma TwoPositions<T>(s: seq<T>, x: T) returns (p: nat, q: nat)
    requires multiset(s)[x] >= 2
    ensures p < q < |s| && s[p] == x && s[q] == x
  {
    assert x in multiset(s);
    var i :| 0 <= i < |s| && s[i] == x;
    var rest := s[..i] + s[i + 1..];
    assert s == s[..i] + [s[i]] + s[i + 1..];
    assert multiset(rest)[x] >= 1;
    assert x in rest;
    var k :| 0 <= k < |rest| && rest[k] == x;
    if k < i {
      p, q := k, i;
    } else {
      p, q := i, k + 1;
    }
  }

  /** A property of every element carries over to any sub-multiset, in any order. */
  lemma SubmultisetAll<T>(p: T -> bool, a: seq<T>, b: seq<T>)
    requires multiset(b) <= multiset(a)
    requires forall i :: 0 <= i < |a| ==> p(a[i])
    ensures forall i :: 0 <= i < |b| ==> p(b[i])
  {
    forall i | 0 <= i < |b| ensures p(b[i]) {
      assert b[i] in multiset(a);
    }
  }

  /** No two positions of `s` whose elements satisfy `has` share a key. */
  predicate KeysDistinct<T, K(==)>(has: T -> bool, key: T -> K, s: seq<T>) {
    forall i, j :: 0 <= i < j < |s| && has(s[i]) && has(s[j]) ==> key(s[i]) != key(s[j])
  }

  /** Deleting elements keeps keys distinct. */
  lemma {:induction false} SubseqKeysDistinct<T, K>(has: T -> bool, key: T -> K, a: seq<T>, b: seq<T>)
    requires IsSubseq(a, b) && KeysDistinct(has, key, b)
    ensures KeysDistinct(has, key, a)
    decreases |b|
  {
    if |a| > 0 {
      assert KeysDistinct(has, key, b[1..]);
      if a[0] == b[0] && IsSubseq(a[1..], b[1..]) {
        SubseqKeysDistinct(has, key, a[1..], b[1..]);
        SubseqMembers(a[1..], b[1..]);
        forall j | 0 < j < |a| && has(a[0]) && has(a[j])
          ensures key(a[0]) != key(a[j])
        {
          assert a[j] == a[1..][j - 1];
          assert a[j] in a[1..];
          var m :| 0 <= m < |b[1..]| && b[1..][m] == a[j];
          assert b[m + 1] == a[j];
        }
      } else {
        SubseqKeysDistinct(has, key, a, b[1..]);
      }
    }
  }

  /** Reordering elements keeps keys distinct. */
  lemma PermutationKeysDistinct<T, K>(has: T -> bool, key: T -> K, a: seq<T>, b: seq<T>)
    requires multiset(a) == multiset(b) && KeysDistinct(has, key, a)
    ensures KeysDistinct(has, key, b)
  {
    forall i, j | 0 <= i < j < |b| && has(b[i]) && has(b[j])
      ensures key(b[i]) != key(b[j])
    {
      if b[i] == b[j] {
        TwoPositionsCount(b, i, j);
        var p, q := TwoPositions(a, b[i]);
      } else {
        assert b[i] in multiset(a) && b[j] in multiset(a);
        var p :| 0 <= p < |a| && a[p] == b[i];
        var q :| 0 <= q < |a| && a[q] == b[j];
        if p > q {
          assert key(a[q]) != key(a[p]);
        }
      }
    }
  }
}
