/** Sequence helpers shared by the per-spot and per-frame models. */
module Seqs {

  /** `f` may be applied to every element of `s`. */
  ghost predicate Defined<A, B>(f: A --> B, s: seq<A>)
  {
    forall i :: 0 <= i < |s| ==> f.requires(s[i])
  }

  /** Applies `f` to every element of `s`, keeping the order. */
  function Map<A, B>(f: A --> B, s: seq<A>): (r: seq<B>)
    requires Defined(f, s)
    ensures |r| == |s|
    ensures forall i :: 0 <= i < |s| ==> r[i] == f(s[i])
  {
    if |s| == 0 then [] else Map(f, s[..|s| - 1]) + [f(s[|s| - 1])]
  }

  /** Mapping a sequence extended by one element extends the image by the
      element's image. */
  lemma MapSnoc<A, B>(f: A --> B, s: seq<A>, x: A)
    requires Defined(f, s) && f.requires(x)
    ensures Defined(f, s + [x])
    ensures Map(f, s + [x]) == Map(f, s) + [f(x)]
  {
    assert (s + [x])[..|s|] == s;
  }

  lemma MapConcat<A, B>(f: A --> B, a: seq<A>, b: seq<A>)
    requires Defined(f, a) && Defined(f, b)
    ensures Defined(f, a + b)
    ensures Map(f, a + b) == Map(f, a) + Map(f, b)
  {
    var l := Map(f, a + b);
    var r := Map(f, a) + Map(f, b);
    forall i | 0 <= i < |l|
      ensures l[i] == r[i]
    {
      if i >= |a| {
        assert (a + b)[i] == b[i - |a|];
      }
    }
  }

  /** A prefix one longer is the prefix extended by the next element. */
  lemma TakeSnoc<T>(s: seq<T>, k: nat)
    requires k < |s|
    ensures s[..k + 1] == s[..k] + [s[k]]
  {
  }

  /** A prefix of a prefix is a prefix. */
  lemma TakeTake<T>(s: seq<T>, i: nat, j: nat)
    requires i <= j <= |s|
    ensures s[..j][..i] == s[..i]
  {
  }

  /** Cutting an extended sequence back to its old length undoes the
      extension. */
  lemma TakeAppend<T>(s: seq<T>, x: T)
    ensures (s + [x])[..|s|] == s
  {
  }

  lemma TakeAll<T>(s: seq<T>)
    ensures s[..|s|] == s
  {
  }

  lemma Split<T>(s: seq<T>, j: nat)
    requires j < |s|
    ensures s == s[..j] + ([s[j]] + s[j + 1..])
  {
  }

  /** A sequence is its head, middle and tail put back together. */
  lemma Rejoin<T>(s: seq<T>, lo: nat, hi: nat)
    requires lo <= hi <= |s|
    ensures s == s[..lo] + s[lo..hi] + s[hi..]
  {
  }

  lemma DefinedSlices<A, B>(f: A --> B, s: seq<A>, j: nat)
    requires j < |s| && Defined(f, s)
    ensures Defined(f, s[..j]) && Defined(f, [s[j]]) && Defined(f, s[j + 1..])
  {
  }

  /** Dropping the `j`-th element before mapping drops exactly one copy of
      its image from the mapped multiset. */
  lemma MapWithout<A, B>(f: A --> B, s: seq<A>, j: nat)
    requires j < |s|
    requires Defined(f, s)
    ensures Defined(f, s[..j] + s[j + 1..])
    ensures multiset(Map(f, s)) == multiset(Map(f, s[..j] + s[j + 1..])) + multiset{f(s[j])}
  {
    var pre, post, x := s[..j], s[j + 1..], s[j];
    DefinedSlices(f, s, j);
    var mpre, mpost := Map(f, pre), Map(f, post);
    MapConcat(f, pre, post);
    calc {
      multiset(Map(f, s));
      { Split(s, j); }
      multiset(Map(f, pre + ([x] + post)));
      { MapConcat(f, [x], post); MapConcat(f, pre, [x] + post); assert Map(f, [x]) == [f(x)]; }
      multiset(mpre + ([f(x)] + mpost));
      multiset(mpre + mpost) + multiset{f(x)};
      multiset(Map(f, pre + post)) + multiset{f(x)};
    }
  }

  /** Mapping commutes with reordering: two sequences holding the same
      elements (with multiplicity) are mapped to sequences holding the same
      images (with multiplicity). */
  lemma {:induction false} MapPermutation<A, B>(f: A --> B, a: seq<A>, b: seq<A>)
    requires multiset(a) == multiset(b)
    requires Defined(f, a)
    ensures Defined(f, b)
    ensures multiset(Map(f, a)) == multiset(Map(f, b))
    decreases |a|
  {
    DefinedPermutation(f, a, b);
    if |a| == 0 {
      assert |multiset(b)| == 0;
    } else {
      var n := |a| - 1;
      var x := a[n];
      assert x in multiset(b);
      var j :| 0 <= j < |b| && b[j] == x;
      var a', b' := a[..n] + a[n + 1..], b[..j] + b[j + 1..];
      Split(a, n);
      Split(b, j);
      assert multiset(a') == multiset(a) - multiset{x};
      assert multiset(b') == multiset(b) - multiset{x};
      MapWithout(f, a, n);
      MapWithout(f, b, j);
      MapPermutation(f, a', b');
    }
  }

  /** Whether `f` applies to every element does not depend on their
      order. */
  lemma DefinedPermutation<A, B>(f: A --> B, a: seq<A>, b: seq<A>)
    requires multiset(a) == multiset(b)
    requires Defined(f, a)
    ensures Defined(f, b)
  {
    forall i | 0 <= i < |b|
      ensures f.requires(b[i])
    {
      assert b[i] in multiset(a);
      var k :| 0 <= k < |a| && a[k] == b[i];
    }
  }

  /** A value found at one position and at no other occurs exactly once. */
  lemma OccursOnce<T>(s: seq<T>, j: nat, x: T)
    requires j < |s| && s[j] == x
    requires forall k :: 0 <= k < |s| && k != j ==> s[k] != x
    ensures multiset(s)[x] == 1
  {
    Split(s, j);
    var pre, post := s[..j], s[j + 1..];
    assert x !in pre by {
      forall k | 0 <= k < |pre| ensures pre[k] != x { assert pre[k] == s[k]; }
    }
    assert x !in post by {
      forall k | 0 <= k < |post| ensures post[k] != x { assert post[k] == s[j + 1 + k]; }
    }
    assert multiset(s) == multiset(pre) + multiset{x} + multiset(post);
  }

  /** No value occurs in a sequence more often than the sequence is long. */
  lemma {:induction false} OccurrencesBound<T>(s: seq<T>, x: T)
    ensures multiset(s)[x] <= |s|
  {
    if |s| > 0 {
      OccurrencesBound(s[..|s| - 1], x);
      assert s == s[..|s| - 1] + [s[|s| - 1]];
    }
  }
}
