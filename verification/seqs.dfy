/**
 Order-preserving selection from a sequence: the Python list comprehension
 `[x for x in xs if p(x)]`, and the subsequence relation that describes it.
 */
module Seqs {

  /** `a` is obtained from `b` by deleting zero or more elements, keeping the order of the rest. */
  predicate IsSubseq<T(==)>(a: seq<T>, b: seq<T>)
    decreases |b|
  {
    |a| == 0 || (|b| > 0 && ((a[0] == b[0] && IsSubseq(a[1..], b[1..])) || IsSubseq(a, b[1..])))
  }

  /** Every sequence is a subsequence of itself. */
  lemma {:induction false} SubseqRefl<T>(s: seq<T>)
    ensures IsSubseq(s, s)
    decreases |s|
  {
    if |s| > 0 {
      SubseqRefl(s[1..]);
    }
  }

  /** A subsequence keeps only elements of the original. */
  lemma {:induction false} SubseqMembers<T>(a: seq<T>, b: seq<T>)
    requires IsSubseq(a, b)
    ensures |a| <= |b|
    ensures forall x :: x in a ==> x in b
    decreases |b|
  {
    if |a| > 0 {
      if a[0] == b[0] && IsSubseq(a[1..], b[1..]) {
        SubseqMembers(a[1..], b[1..]);
        assert a == [a[0]] + a[1..];
      } else {
        SubseqMembers(a, b[1..]);
      }
    }
  }

  /** A subsequence missing one of the elements is strictly shorter. */
  lemma {:induction false} SubseqLengthStrict<T>(a: seq<T>, b: seq<T>, x: T)
    requires IsSubseq(a, b)
    requires x in b && x !in a
    ensures |a| < |b|
    decreases |b|
  {
    if |a| == 0 {
    } else if a[0] == b[0] && IsSubseq(a[1..], b[1..]) {
      assert x != b[0];
      assert x in b[1..] by { assert b == [b[0]] + b[1..]; }
      assert x !in a[1..] by { assert a == [a[0]] + a[1..]; }
      SubseqLengthStrict(a[1..], b[1..], x);
    } else {
      SubseqMembers(a, b[1..]);
    }
  }

  /** The elements of `s` that satisfy `p`, in their original order and with their multiplicities. */
  function Filter<T(==,!new)>(s: seq<T>, p: T -> bool): (r: seq<T>)
    ensures IsSubseq(r, s)
    ensures forall x :: multiset(r)[x] == if p(x) then multiset(s)[x] else 0
    ensures forall x :: x in r <==> x in s && p(x)
    decreases |s|
  {
    if |s| == 0 then
      []
    else
      assert s == [s[0]] + s[1..];
      var rest := Filter(s[1..], p);
      if p(s[0]) then
        assert ([s[0]] + rest)[1..] == rest;
        [s[0]] + rest
      else
        rest
  }

  /** A predicate that holds everywhere selects everything. */
  lemma {:induction false} FilterKeepsAll<T(!new)>(s: seq<T>, p: T -> bool)
    requires forall i :: 0 <= i < |s| ==> p(s[i])
    ensures Filter(s, p) == s
    decreases |s|
  {
    if |s| > 0 {
      FilterKeepsAll(s[1..], p);
      assert s == [s[0]] + s[1..];
    }
  }

  /** A predicate that fails at exactly one position splices that one element out. */
  lemma {:induction false} FilterDropsOne<T(!new)>(s: seq<T>, p: T -> bool, k: nat)
    requires k < |s|
    requires !p(s[k])
    requires forall i :: 0 <= i < |s| && i != k ==> p(s[i])
    ensures Filter(s, p) == s[..k] + s[k + 1..]
    decreases |s|
  {
    if k == 0 {
      calc {
        Filter(s, p);
        Filter(s[1..], p);
        { FilterKeepsAll(s[1..], p); }
        s[1..];
      }
      assert s[..0] + s[1..] == s[1..];
    } else {
      calc {
        Filter(s, p);
        [s[0]] + Filter(s[1..], p);
        { FilterDropsOne(s[1..], p, k - 1); }
        [s[0]] + (s[1..][..k - 1] + s[1..][k..]);
        { assert s[1..][..k - 1] == s[1..k]; assert s[1..][k..] == s[k + 1..]; }
        [s[0]] + (s[1..k] + s[k + 1..]);
        { assert [s[0]] + s[1..k] == s[..k]; }
        s[..k] + s[k + 1..];
      }
    }
  }

  /** A subsequence holds no element more often than the original. */
  lemma {:induction false} SubseqMultiset<T>(a: seq<T>, b: seq<T>)
    requires IsSubseq(a, b)
    ensures multiset(a) <= multiset(b)
    decreases |b|
  {
    if |a| > 0 {
      assert b == [b[0]] + b[1..];
      if a[0] == b[0] && IsSubseq(a[1..], b[1..]) {
        SubseqMultiset(a[1..], b[1..]);
        assert a == [a[0]] + a[1..];
      } else {
        SubseqMultiset(a, b[1..]);
      }
    }
  }

  /** Filter is characterised by its contract: the only subsequence of `s` that keeps every
      occurrence of the elements satisfying `p` and none of the others is `Filter(s, p)`. */
  lemma {:induction false} FilterUnique<T(!new)>(a: seq<T>, s: seq<T>, p: T -> bool)
    requires IsSubseq(a, s)
    requires forall x :: multiset(a)[x] == if p(x) then multiset(s)[x] else 0
    ensures a == Filter(s, p)
    decreases |s|
  {
    if |s| == 0 {
      assert |multiset(a)| == 0;
    } else {
      var h, t := s[0], s[1..];
      assert s == [h] + t;
      if p(h) {
        assert multiset(a)[h] > 0;
        if !(a[0] == h && IsSubseq(a[1..], t)) {
          SubseqMultiset(a, t);
          assert false;
        }
        assert a == [h] + a[1..];
        FilterUnique(a[1..], t, p);
      } else {
        if |a| > 0 {
          assert a[0] in multiset(a);
        }
        FilterUnique(a, t, p);
      }
    }
  }
}
