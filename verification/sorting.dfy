/**
 The ordering vocabulary shared by the sorting engine: what it means for a
 sequence of 64-bit keys to be in ascending order, an independent reference
 sort that the sequential cutover sorter is specified against, and the
 reference two-way merge that the cursor-based merge step must reproduce.

 Keys are unbounded `int`s: the engine only compares keys and never does
 arithmetic on them, so the 64-bit width of the stored values plays no role.
 */
module Sorting {

  /** Ascending (non-decreasing) order, stated pairwise. */
  predicate IsSorted(s: seq<int>) {
    forall i, j :: 0 <= i < j < |s| ==> s[i] <= s[j]
  }

  /** `x` is a lower bound of every element of `s`. */
  predicate IsLowerBound(x: int, s: seq<int>) {
    forall k :: 0 <= k < |s| ==> x <= s[k]
  }

  /* -------------------------------------------------------------------------
     Reference sort: insertion into a sorted sequence.
     ------------------------------------------------------------------------- */

  /** Inserts `x` into the sorted sequence `s` in front of the first larger element. */
  function Insert(x: int, s: seq<int>): (r: seq<int>)
    requires IsSorted(s)
    ensures IsSorted(r)
    ensures multiset(r) == multiset(s) + multiset{x}
    ensures |r| == |s| + 1
    decreases |s|
  {
    if |s| == 0 then [x]
    else if x <= s[0] then [x] + s
    else
      var tail := Insert(x, s[1..]);
      InsertBehindHead(x, s, tail);
      [s[0]] + tail
  }

  /**
   When `x` goes behind the head of `s`, the head bounds the rest of the result
   from below and the keys add up.
   */
  lemma InsertBehindHead(x: int, s: seq<int>, tail: seq<int>)
    requires IsSorted(s) && |s| > 0 && s[0] < x
    requires IsSorted(tail) && multiset(tail) == multiset(s[1..]) + multiset{x}
    ensures IsSorted([s[0]] + tail)
    ensures multiset([s[0]] + tail) == multiset(s) + multiset{x}
  {
    assert s == [s[0]] + s[1..];
    assert multiset(tail) == multiset(s[1..] + [x]);
    LowerBoundOfPermutation(s[0], s[1..] + [x], tail);
  }

  /** The reference sort: the unique sorted permutation of `s`. */
  function SortSeq(s: seq<int>): (r: seq<int>)
    ensures IsSorted(r)
    ensures multiset(r) == multiset(s)
    ensures |r| == |s|
    decreases |s|
  {
    if |s| == 0 then []
    else
      assert s == [s[0]] + s[1..];
      Insert(s[0], SortSeq(s[1..]))
  }

  /** A lower bound of `s` bounds every rearrangement of `s` from below. */
  lemma LowerBoundOfPermutation(x: int, s: seq<int>, t: seq<int>)
    requires IsLowerBound(x, s) && multiset(t) == multiset(s)
    ensures IsLowerBound(x, t)
  {
    forall k | 0 <= k < |t|
      ensures x <= t[k]
    {
      assert t[k] in multiset(s);
      assert t[k] in s;
    }
  }

  /** Every element of a sorted sequence is at least its first element, by value. */
  lemma SortedHeadBelowMembers(s: seq<int>, x: int)
    requires IsSorted(s) && x in multiset(s)
    ensures |s| > 0 && s[0] <= x
  {
    assert x in s;
    var k :| 0 <= k < |s| && s[k] == x;
  }

  /**
   Two sorted sequences holding the same multiset of keys are equal: a sorted
   permutation is unique. Hence any correct sorting routine (in particular the
   C library's `qsort` the cutover sorter delegates to) yields exactly
   `SortSeq` of its input.
   */
  lemma {:induction false} SortedPermutationUnique(a: seq<int>, b: seq<int>)
    requires IsSorted(a) && IsSorted(b)
    requires multiset(a) == multiset(b)
    ensures a == b
    decreases |a|
  {
    if |a| == 0 {
      assert |b| == |multiset(b)| == 0;
    } else {
      assert a[0] in multiset(b);
      SortedHeadBelowMembers(b, a[0]);
      assert b[0] in multiset(a);
      SortedHeadBelowMembers(a, b[0]);
      assert a[0] == b[0];
      assert a == [a[0]] + a[1..];
      assert b == [b[0]] + b[1..];
      assert multiset(a[1..]) == multiset(a) - multiset{a[0]};
      assert multiset(b[1..]) == multiset(b) - multiset{b[0]};
      SortedPermutationUnique(a[1..], b[1..]);
    }
  }

  /** Any sorted permutation of `s` is the reference sort of `s`. */
  lemma SortedPermutationIsSortSeq(s: seq<int>, r: seq<int>)
    requires IsSorted(r) && multiset(r) == multiset(s)
    ensures r == SortSeq(s)
  {
    SortedPermutationUnique(r, SortSeq(s));
  }

  /** Sorting already-sorted keys changes nothing. */
  lemma SortIdempotent(s: seq<int>)
    requires IsSorted(s)
    ensures SortSeq(s) == s
  {
    SortedPermutationUnique(s, SortSeq(s));
  }

  /* -------------------------------------------------------------------------
     Reference merge of two sequences, left side preferred on equal heads.
     ------------------------------------------------------------------------- */

  /**
   The interleaving a two-cursor merge produces: whichever head is smaller is
   taken next, and on equal heads the left one is taken first. When one side
   is exhausted the rest of the other follows unchanged.
   */
  function MergeSeqs(xs: seq<int>, ys: seq<int>): seq<int>
    decreases |xs| + |ys|
  {
    if |xs| == 0 then ys
    else if |ys| == 0 then xs
    else if xs[0] <= ys[0] then [xs[0]] + MergeSeqs(xs[1..], ys)
    else [ys[0]] + MergeSeqs(xs, ys[1..])
  }

  /** The merge neither loses nor invents keys. */
  lemma {:induction false} MergeSeqsPermutation(xs: seq<int>, ys: seq<int>)
    ensures multiset(MergeSeqs(xs, ys)) == multiset(xs) + multiset(ys)
    decreases |xs| + |ys|
  {
    var m := MergeSeqs(xs, ys);
    if |xs| == 0 || |ys| == 0 {
    } else if xs[0] <= ys[0] {
      MergeSeqsPermutation(xs[1..], ys);
      ConsKeys(xs[0], xs[1..], xs);
      ConsKeys(xs[0], MergeSeqs(xs[1..], ys), m);
    } else {
      MergeSeqsPermutation(xs, ys[1..]);
      ConsKeys(ys[0], ys[1..], ys);
      ConsKeys(ys[0], MergeSeqs(xs, ys[1..]), m);
    }
  }

  /** The merge is as long as its two inputs together. */
  lemma MergeSeqsLength(xs: seq<int>, ys: seq<int>)
    ensures |MergeSeqs(xs, ys)| == |xs| + |ys|
  {
    var m := MergeSeqs(xs, ys);
    MergeSeqsPermutation(xs, ys);
    assert |m| == |multiset(m)|;
  }

  /** The keys of `[x] + s` are `x` together with the keys of `s`. */
  lemma ConsKeys(x: int, s: seq<int>, t: seq<int>)
    requires t == [x] + s
    ensures multiset(t) == multiset{x} + multiset(s)
  {
  }

  /** A key bounding both inputs from below bounds their merge. */
  lemma LowerBoundOfMerge(x: int, xs: seq<int>, ys: seq<int>)
    requires IsLowerBound(x, xs) && IsLowerBound(x, ys)
    ensures IsLowerBound(x, MergeSeqs(xs, ys))
  {
    MergeSeqsPermutation(xs, ys);
    assert multiset(xs + ys) == multiset(xs) + multiset(ys);
    assert IsLowerBound(x, xs + ys);
    LowerBoundOfPermutation(x, xs + ys, MergeSeqs(xs, ys));
  }

  /** Merging two sorted sequences yields a sorted sequence. */
  lemma {:induction false} MergeSeqsSorted(xs: seq<int>, ys: seq<int>)
    requires IsSorted(xs) && IsSorted(ys)
    ensures IsSorted(MergeSeqs(xs, ys))
    decreases |xs| + |ys|
  {
    if |xs| == 0 || |ys| == 0 {
    } else if xs[0] <= ys[0] {
      MergeSeqsSorted(xs[1..], ys);
      LowerBoundOfMerge(xs[0], xs[1..], ys);
    } else {
      MergeSeqsSorted(xs, ys[1..]);
      LowerBoundOfMerge(ys[0], xs, ys[1..]);
    }
  }
}
