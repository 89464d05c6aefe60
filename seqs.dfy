/** Sequence facts used by the children index and by the store scans. */
module Seqs {

  /** `a` can be obtained from `b` by deleting elements (order kept). */
  ghost predicate IsSubseq<T>(a: seq<T>, b: seq<T>)
    decreases |b|
  {
    a == [] || (b != [] && ((a[0] == b[0] && IsSubseq(a[1..], b[1..])) || IsSubseq(a, b[1..])))
  }

  /**
   * The erase-remove idiom: every occurrence of `x` is dropped. What is kept,
   * and in which order, is stated by the lemmas below.
   */
  function RemoveAll<T(==)>(s: seq<T>, x: T): (r: seq<T>)
    ensures x !in r
    ensures |r| <= |s|
    ensures x !in s ==> r == s
  {
    if s == [] then []
    else if s[0] == x then RemoveAll(s[1..], x)
    else [s[0]] + RemoveAll(s[1..], x)
  }

  /** Every element other than `x` is kept as often as it occurs. */
  lemma {:induction false} RemoveAllCounts<T>(s: seq<T>, x: T)
    ensures multiset(RemoveAll(s, x)) == multiset(s)[x := 0]
  {
    if s != [] {
      RemoveAllCounts(s[1..], x);
      assert s == [s[0]] + s[1..];
    }
  }

  /** The kept elements are in their original order. */
  lemma {:induction false} RemoveAllIsSubseq<T>(s: seq<T>, x: T)
    ensures IsSubseq(RemoveAll(s, x), s)
  {
    if s != [] {
      RemoveAllIsSubseq(s[1..], x);
      var rest := RemoveAll(s[1..], x);
      if s[0] != x {
        AppendTail([s[0]], rest);
      }
    }
  }

  /** An element survives RemoveAll exactly when it occurs and is not the one removed. */
  lemma RemoveAllMembers<T>(s: seq<T>, x: T, y: T)
    ensures y in RemoveAll(s, x) <==> y in s && y != x
  {
    RemoveAllCounts(s, x);
    assert y in RemoveAll(s, x) <==> multiset(RemoveAll(s, x))[y] > 0;
    assert y in s <==> multiset(s)[y] > 0;
  }

  lemma AppendTail<T>(a: seq<T>, b: seq<T>)
    requires a != []
    ensures (a + b)[0] == a[0] && (a + b)[1..] == a[1..] + b
  {
  }

  /** Taking one more element of a prefix appends that element. */
  lemma TakeOneMore<T>(s: seq<T>, i: nat)
    requires i < |s|
    ensures s[..i + 1] == s[..i] + [s[i]]
  {
  }

  /** No element occurs twice. */
  ghost predicate Distinct<T>(s: seq<T>)
  {
    forall i, j :: 0 <= i < j < |s| ==> s[i] != s[j]
  }

  /** In a sequence without repetitions an element is not among those before it. */
  lemma DistinctNotBefore<T>(s: seq<T>, i: nat)
    requires i < |s| && Distinct(s)
    ensures s[i] !in s[..i]
  {
  }

  lemma SnocParts<T>(p: seq<T>, x: T)
    ensures (p + [x])[..|p|] == p && (p + [x])[|p|] == x && |p + [x]| == |p| + 1
  {
  }

  /** An element of a non-empty sequence's prefix without the last element is an element of it. */
  lemma PrefixMembers<T>(s: seq<T>, x: T)
    requires s != []
    ensures x in s <==> x in s[..|s| - 1] || x == s[|s| - 1]
  {
    assert s == s[..|s| - 1] + [s[|s| - 1]];
  }

  lemma DistinctPrefix<T>(s: seq<T>)
    requires s != [] && Distinct(s)
    ensures Distinct(s[..|s| - 1])
  {
  }
}
