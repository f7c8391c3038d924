/** Sequence notions shared by the stories reducer, the search history and the sorts. */
module Seqs {

  /** `a` is obtained from `b` by dropping some elements, keeping the order of the rest. */
  predicate IsSubsequence<T(==)>(a: seq<T>, b: seq<T>)
  {
    a == [] ||
    (b != [] && ((a[0] == b[0] && IsSubsequence(a[1..], b[1..])) || IsSubsequence(a, b[1..])))
  }

  lemma {:induction false} SubsequenceOfSelf<T>(a: seq<T>)
    ensures IsSubsequence(a, a)
  {
    if a != [] {
      SubsequenceOfSelf(a[1..]);
    }
  }

  /** A subsequence of the tail is a subsequence of the whole. */
  lemma SubsequenceSkipsHead<T>(a: seq<T>, x: T, b: seq<T>)
    requires IsSubsequence(a, b)
    ensures IsSubsequence(a, [x] + b)
  {
    assert ([x] + b)[1..] == b;
  }

  /** Keeping the same head on both sides preserves the subsequence relation. */
  lemma SubsequenceConsBoth<T>(x: T, a: seq<T>, b: seq<T>)
    requires IsSubsequence(a, b)
    ensures IsSubsequence([x] + a, [x] + b)
  {
    assert ([x] + a)[1..] == a;
    assert ([x] + b)[1..] == b;
  }

  lemma {:induction false} LastIsSubsequence<T>(b: seq<T>, x: T)
    ensures IsSubsequence([x], b + [x])
  {
    if b != [] {
      assert (b + [x])[1..] == b[1..] + [x];
      LastIsSubsequence(b[1..], x);
    } else {
      assert [x][1..] == [];
    }
  }

  /** Appending to both sides preserves the subsequence relation. */
  lemma {:induction false} SubsequenceSnocBoth<T>(a: seq<T>, b: seq<T>, x: T)
    requires IsSubsequence(a, b)
    ensures IsSubsequence(a + [x], b + [x])
  {
    if a == [] {
      LastIsSubsequence(b, x);
      assert a + [x] == [x];
    } else {
      assert (a + [x])[1..] == a[1..] + [x];
      assert (b + [x])[1..] == b[1..] + [x];
      if a[0] == b[0] && IsSubsequence(a[1..], b[1..]) {
        SubsequenceSnocBoth(a[1..], b[1..], x);
      } else {
        SubsequenceSnocBoth(a, b[1..], x);
      }
    }
  }

  /** Appending to the longer side only preserves the subsequence relation. */
  lemma {:induction false} SubsequenceSnocRight<T>(a: seq<T>, b: seq<T>, x: T)
    requires IsSubsequence(a, b)
    ensures IsSubsequence(a, b + [x])
  {
    if a != [] {
      assert (b + [x])[1..] == b[1..] + [x];
      if a[0] == b[0] && IsSubsequence(a[1..], b[1..]) {
        SubsequenceSnocRight(a[1..], b[1..], x);
      } else {
        SubsequenceSnocRight(a, b[1..], x);
      }
    }
  }

  /** The elements of `s` in the opposite order. */
  function Reverse<T>(s: seq<T>): (r: seq<T>)
    ensures |r| == |s|
    ensures multiset(r) == multiset(s)
  {
    if s == [] then []
    else
      assert s == [s[0]] + s[1..];
      Reverse(s[1..]) + [s[0]]
  }

  lemma {:induction false} ReverseAt<T>(s: seq<T>, k: nat)
    requires k < |s|
    ensures Reverse(s)[k] == s[|s| - 1 - k]
  {
    if k < |s| - 1 {
      ReverseAt(s[1..], k);
    }
  }

  lemma {:induction false} ReverseReverse<T>(s: seq<T>)
    ensures Reverse(Reverse(s)) == s
  {
    var r := Reverse(s);
    forall k | 0 <= k < |s|
      ensures Reverse(r)[k] == s[k]
    {
      ReverseAt(r, k);
      ReverseAt(s, |s| - 1 - k);
    }
  }
}
