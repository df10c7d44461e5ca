/**
 The sorting engine of parsort: the three-way key comparator, the sequential
 cutover sorter, the two-cursor merge into a scratch buffer, the copy-back of
 the scratch buffer, and the recursive coordinator that splits a range at its
 midpoint, sorts both halves and merges them.

 The working buffer is a `seq<int>` value: each step takes the buffer as it
 stands and returns the buffer it leaves behind, so "the rest of the buffer is
 untouched" is a statement relating the two values. The two halves of a range
 are sorted one after the other; they are disjoint index ranges, so this order
 yields the same buffer as running them concurrently.
 */
module Parsort {
  import opened Sorting
  import opened Workers

  /** `a` and `b` have the same length and agree at every index outside `[begin, end)`. */
  predicate SameOutside(a: seq<int>, b: seq<int>, begin: nat, end: nat) {
    |a| == |b| && forall i :: 0 <= i < |a| && !(begin <= i < end) ==> a[i] == b[i]
  }

  /* -------------------------------------------------------------------------
     compare_i64
     ------------------------------------------------------------------------- */

  /** Three-way comparison: -1, 0 or 1 as `left` is below, equal to or above `right`. */
  function Compare(left: int, right: int): (r: int)
    ensures r == -1 || r == 0 || r == 1
    ensures r < 0 <==> left < right
    ensures r == 0 <==> left == right
    ensures r > 0 <==> left > right
  {
    if left < right then -1
    else if left > right then 1
    else 0
  }

  /* -------------------------------------------------------------------------
     seq_sort
     ------------------------------------------------------------------------- */

  /**
   Sorts `arr[begin..end)` in place and leaves the rest of the buffer alone.
   The C library sort it delegates to is specified only by its outcome, a
   sorted permutation of the range; since that permutation is unique
   (`SortedPermutationUnique`), the reference sort stands in for it.
   */
  function SeqSort(arr: seq<int>, begin: nat, end: nat): (res: seq<int>)
    requires begin <= end <= |arr|
    ensures SameOutside(arr, res, begin, end)
    ensures IsSorted(res[begin..end])
    ensures multiset(res[begin..end]) == multiset(arr[begin..end])
  {
    var sorted := SortSeq(arr[begin..end]);
    var res := arr[..begin] + sorted + arr[end..];
    assert res[begin..end] == sorted;
    res
  }

  /* -------------------------------------------------------------------------
     merge
     ------------------------------------------------------------------------- */

  /**
   Merges the ranges `[begin, mid)` and `[mid, end)` of `arr` into a fresh
   scratch buffer with one cursor per range, taking from the left range when
   the heads compare equal. The buffer itself is only read.
   */
  method Merge(arr: seq<int>, begin: nat, mid: nat, end: nat) returns (temp: seq<int>)
    requires begin <= mid <= end <= |arr|
    ensures |temp| == end - begin
    ensures temp == MergeSeqs(arr[begin..mid], arr[mid..end])
    ensures multiset(temp) == multiset(arr[begin..end])
    ensures IsSorted(arr[begin..mid]) && IsSorted(arr[mid..end]) ==> IsSorted(temp)
  {
    var left, right := begin, mid;
    temp := [];
    while left < mid || right < end
      invariant begin <= left <= mid <= right <= end
      invariant MergedSoFar(arr, begin, mid, end, left, right, temp)
      decreases (mid - left) + (end - right)
    {
      left, right, temp := MergeStep(arr, begin, mid, end, left, right, temp);
    }
    MergedAll(arr, begin, mid, end, temp);
    MergeOfRanges(arr, begin, mid, end);
  }

  /**
   One pass of the merge loop: append the head of the right range when the
   left one is exhausted or its head compares greater, and otherwise the head
   of the left range, advancing that range's cursor by one.
   */
  method MergeStep(arr: seq<int>, begin: nat, mid: nat, end: nat, left: nat, right: nat, temp: seq<int>)
    returns (left': nat, right': nat, temp': seq<int>)
    requires begin <= left <= mid <= right <= end <= |arr|
    requires left < mid || right < end
    requires MergedSoFar(arr, begin, mid, end, left, right, temp)
    ensures begin <= left' <= mid <= right' <= end
    ensures MergedSoFar(arr, begin, mid, end, left', right', temp')
    ensures (left' == left + 1 && right' == right) || (left' == left && right' == right + 1)
  {
    if left >= mid {
      StepRight(arr, begin, mid, end, left, right, temp);
      left', right', temp' := left, right + 1, temp + [arr[right]];
    } else if right >= end {
      StepLeft(arr, begin, mid, end, left, right, temp);
      left', right', temp' := left + 1, right, temp + [arr[left]];
    } else if Compare(arr[left], arr[right]) <= 0 {
      StepLeft(arr, begin, mid, end, left, right, temp);
      left', right', temp' := left + 1, right, temp + [arr[left]];
    } else {
      StepRight(arr, begin, mid, end, left, right, temp);
      left', right', temp' := left, right + 1, temp + [arr[right]];
    }
  }

  /** The reference merge of two ranges keeps their keys and, from sorted ranges, is sorted. */
  lemma MergeOfRanges(arr: seq<int>, begin: nat, mid: nat, end: nat)
    requires begin <= mid <= end <= |arr|
    ensures |MergeSeqs(arr[begin..mid], arr[mid..end])| == end - begin
    ensures multiset(MergeSeqs(arr[begin..mid], arr[mid..end])) == multiset(arr[begin..end])
    ensures IsSorted(arr[begin..mid]) && IsSorted(arr[mid..end]) ==>
              IsSorted(MergeSeqs(arr[begin..mid], arr[mid..end]))
  {
    var xs, ys := arr[begin..mid], arr[mid..end];
    MergeSeqsPermutation(xs, ys);
    MergeSeqsLength(xs, ys);
    assert arr[begin..end] == xs + ys;
    if IsSorted(xs) && IsSorted(ys) {
      MergeSeqsSorted(xs, ys);
    }
  }

  /**
   The merge loop invariant: the keys already written to the scratch buffer,
   followed by the merge of what remains behind the two cursors, make up the
   merge of the two whole ranges.
   */
  predicate MergedSoFar(arr: seq<int>, begin: nat, mid: nat, end: nat, left: nat, right: nat, temp: seq<int>) {
    && begin <= left <= mid <= right <= end <= |arr|
    && temp + MergeSeqs(arr[left..mid], arr[right..end]) == MergeSeqs(arr[begin..mid], arr[mid..end])
  }

  /** With both cursors at the end of their ranges, the scratch buffer holds the whole merge. */
  lemma MergedAll(arr: seq<int>, begin: nat, mid: nat, end: nat, temp: seq<int>)
    requires begin <= mid <= end <= |arr|
    requires MergedSoFar(arr, begin, mid, end, mid, end, temp)
    ensures temp == MergeSeqs(arr[begin..mid], arr[mid..end])
  {
    assert arr[mid..mid] == [] && arr[end..end] == [];
    assert temp + [] == temp;
  }

  /** Taking the left head keeps the merge invariant with the left cursor advanced. */
  lemma StepLeft(arr: seq<int>, begin: nat, mid: nat, end: nat, left: nat, right: nat, temp: seq<int>)
    requires begin <= left < mid <= right <= end <= |arr|
    requires right == end || arr[left] <= arr[right]
    requires MergedSoFar(arr, begin, mid, end, left, right, temp)
    ensures MergedSoFar(arr, begin, mid, end, left + 1, right, temp + [arr[left]])
  {
    var xs, ys := arr[left..mid], arr[right..end];
    TakeLeft(xs, ys);
    assert arr[left + 1..mid] == xs[1..];
    assert (temp + [xs[0]]) + MergeSeqs(xs[1..], ys) == temp + ([xs[0]] + MergeSeqs(xs[1..], ys));
  }

  /** Taking the right head keeps the merge invariant with the right cursor advanced. */
  lemma StepRight(arr: seq<int>, begin: nat, mid: nat, end: nat, left: nat, right: nat, temp: seq<int>)
    requires begin <= left <= mid <= right < end <= |arr|
    requires left == mid || arr[left] > arr[right]
    requires MergedSoFar(arr, begin, mid, end, left, right, temp)
    ensures MergedSoFar(arr, begin, mid, end, left, right + 1, temp + [arr[right]])
  {
    var xs, ys := arr[left..mid], arr[right..end];
    TakeRight(xs, ys);
    assert arr[right + 1..end] == ys[1..];
    assert (temp + [ys[0]]) + MergeSeqs(xs, ys[1..]) == temp + ([ys[0]] + MergeSeqs(xs, ys[1..]));
  }

  /** Merging with an exhausted right side leaves the left side as it is. */
  lemma MergeWithNothing(xs: seq<int>, ys: seq<int>)
    requires |ys| == 0
    ensures MergeSeqs(xs, ys) == xs
  {
  }

  /** One step of the merge that takes the left head. */
  lemma TakeLeft(xs: seq<int>, ys: seq<int>)
    requires |xs| > 0 && (|ys| == 0 || xs[0] <= ys[0])
    ensures MergeSeqs(xs, ys) == [xs[0]] + MergeSeqs(xs[1..], ys)
  {
    if |ys| == 0 {
      MergeWithNothing(xs, ys);
      MergeWithNothing(xs[1..], ys);
      assert xs == [xs[0]] + xs[1..];
    } else {
      assert xs[0] <= ys[0];
    }
  }

  /** One step of the merge that takes the right head. */
  lemma TakeRight(xs: seq<int>, ys: seq<int>)
    requires |ys| > 0 && (|xs| == 0 || xs[0] > ys[0])
    ensures MergeSeqs(xs, ys) == [ys[0]] + MergeSeqs(xs, ys[1..])
  {
    if |xs| == 0 {
      assert ys == [ys[0]] + ys[1..];
    } else {
      assert xs[0] > ys[0];
    }
  }

  /* -------------------------------------------------------------------------
     copy-back
     ------------------------------------------------------------------------- */

  /** Copies the scratch buffer `temp` over `arr[begin..begin+|temp|)`, one element at a time. */
  method CopyBack(arr: seq<int>, begin: nat, temp: seq<int>) returns (res: seq<int>)
    requires begin + |temp| <= |arr|
    ensures SameOutside(arr, res, begin, begin + |temp|)
    ensures res[begin..begin + |temp|] == temp
  {
    res := arr;
    var i := 0;
    while i < |temp|
      invariant 0 <= i <= |temp|
      invariant SameOutside(arr, res, begin, begin + i)
      invariant forall k :: 0 <= k < i ==> res[begin + k] == temp[k]
    {
      res := res[begin + i := temp[i]];
      i := i + 1;
    }
  }

  /**
   The last phase of a coordinator call: merge the two halves into the scratch
   buffer, then copy the scratch buffer back over the range.
   */
  method MergeInto(arr: seq<int>, begin: nat, mid: nat, end: nat) returns (res: seq<int>)
    requires begin <= mid <= end <= |arr|
    ensures SameOutside(arr, res, begin, end)
    ensures res[begin..end] == MergeSeqs(arr[begin..mid], arr[mid..end])
    ensures multiset(res[begin..end]) == multiset(arr[begin..end])
    ensures IsSorted(arr[begin..mid]) && IsSorted(arr[mid..end]) ==> IsSorted(res[begin..end])
  {
    var temp := Merge(arr, begin, mid, end);
    res := CopyBack(arr, begin, temp);
  }

  /**
   The coordinator after both workers were launched: join the left worker,
   then the right one, and only if both succeeded allocate the scratch buffer,
   merge and copy back. Every failure returns before the scratch buffer is
   allocated, leaving the buffer exactly as the workers left it.
   */
  method JoinAndMerge(sys: Sys, leftOutcome: Outcome, rightOutcome: Outcome,
                      arr: seq<int>, begin: nat, mid: nat, end: nat)
    returns (o: Outcome, res: seq<int>)
    requires begin <= mid <= end <= |arr|
    requires leftOutcome.Done? ==> IsSorted(arr[begin..mid])
    requires rightOutcome.Done? ==> IsSorted(arr[mid..end])
    ensures o.Done? <==>
              && sys.endLeft.Exited? && leftOutcome.Done?
              && sys.endRight.Exited? && rightOutcome.Done?
              && sys.scratch
    ensures !(sys.endLeft.Exited? && leftOutcome.Done?) ==> o == Classify(sys.endLeft, ExitCode(leftOutcome))
    ensures sys.endLeft.Exited? && leftOutcome.Done? && !(sys.endRight.Exited? && rightOutcome.Done?) ==>
              o == Classify(sys.endRight, ExitCode(rightOutcome))
    ensures o == Failed(ScratchFailed) ==>
              sys.endLeft.Exited? && leftOutcome.Done? && sys.endRight.Exited? && rightOutcome.Done?
    ensures o.Failed? ==> res == arr
    ensures SameOutside(arr, res, begin, end)
    ensures multiset(res[begin..end]) == multiset(arr[begin..end])
    ensures o.Done? ==> IsSorted(res[begin..end])
  {
    var joinedLeft := Classify(sys.endLeft, ExitCode(leftOutcome));
    if joinedLeft.Failed? {
      return joinedLeft, arr;
    }
    var joinedRight := Classify(sys.endRight, ExitCode(rightOutcome));
    if joinedRight.Failed? {
      return joinedRight, arr;
    }
    if !sys.scratch {
      return Failed(ScratchFailed), arr;
    }
    res := MergeInto(arr, begin, mid, end);
    o := Done;
  }

  /* -------------------------------------------------------------------------
     merge_sort
     ------------------------------------------------------------------------- */

  /**
   Ranges handled by the cutover sorter: those no longer than the threshold,
   and also every range of fewer than two elements, which is already sorted
   and cannot be split into two strictly smaller halves.
   */
  predicate IsBaseCase(size: nat, threshold: nat) {
    size <= threshold || size < 2
  }

  /** The split point of `[begin, end)`: the start of the right half. */
  function Mid(begin: nat, end: nat): (mid: nat)
    requires begin <= end
    ensures begin <= mid <= end
    ensures end - begin >= 2 ==> begin < mid < end
    ensures (mid - begin) + (end - mid) == end - begin
    ensures end - mid - (mid - begin) in {0, 1}
  {
    begin + (end - begin) / 2
  }

  /**
   Every fork, waitpid and allocation of every coordinator call in the
   recursion over a range of `size` elements succeeds, and every worker
   exits normally. Ranges handled by the cutover sorter make no such calls
   and spawn no workers.
   */
  predicate FaultFree(env: Env, size: nat, threshold: nat)
    decreases size
  {
    IsBaseCase(size, threshold) ||
    (AllSucceed(SysAt(env))
     && FaultFree(LeftEnv(env), size / 2, threshold)
     && FaultFree(RightEnv(env), size - size / 2, threshold))
  }

  /** A system whose calls never fail lets every recursion succeed. */
  lemma {:induction false} HealthyIsFaultFree(size: nat, threshold: nat)
    ensures FaultFree(Healthy, size, threshold)
    decreases size
  {
    if !IsBaseCase(size, threshold) {
      HealthyIsFaultFree(size / 2, threshold);
      HealthyIsFaultFree(size - size / 2, threshold);
    }
  }

  /** The keys of `s[a..c)` are those of `s[a..b)` together with those of `s[b..c)`. */
  lemma MultisetSplit(s: seq<int>, a: nat, b: nat, c: nat)
    requires a <= b <= c <= |s|
    ensures multiset(s[a..c]) == multiset(s[a..b]) + multiset(s[b..c])
  {
    assert s[a..c] == s[a..b] + s[b..c];
  }

  /** Two buffers that agree outside `[begin, end)` agree on every slice disjoint from it. */
  lemma SliceOutside(a: seq<int>, b: seq<int>, begin: nat, end: nat, lo: nat, hi: nat)
    requires SameOutside(a, b, begin, end)
    requires lo <= hi <= |a|
    requires hi <= begin || end <= lo
    ensures a[lo..hi] == b[lo..hi]
  {
  }

  /** Two changes confined to sub-ranges of `[begin, end)` are together confined to it. */
  lemma SameOutsideWiden(a: seq<int>, b: seq<int>, c: seq<int>,
                         lo1: nat, hi1: nat, lo2: nat, hi2: nat, begin: nat, end: nat)
    requires SameOutside(a, b, lo1, hi1) && SameOutside(b, c, lo2, hi2)
    requires begin <= lo1 && hi1 <= end && begin <= lo2 && hi2 <= end
    ensures SameOutside(a, c, begin, end)
  {
  }

  /** A buffer whose two halves each keep their keys keeps the keys of the whole range. */
  lemma HalvesKeepKeys(a: seq<int>, b: seq<int>, begin: nat, mid: nat, end: nat)
    requires begin <= mid <= end <= |a| == |b|
    requires multiset(b[begin..mid]) == multiset(a[begin..mid])
    requires multiset(b[mid..end]) == multiset(a[mid..end])
    ensures multiset(b[begin..end]) == multiset(a[begin..end])
  {
    MultisetSplit(a, begin, mid, end);
    MultisetSplit(b, begin, mid, end);
  }

  /** One level of `FaultFree` above the threshold, in terms of the split point. */
  lemma FaultFreeSplit(env: Env, begin: nat, end: nat, threshold: nat)
    requires begin <= end && !IsBaseCase(end - begin, threshold)
    ensures FaultFree(env, end - begin, threshold) <==>
              && AllSucceed(SysAt(env))
              && FaultFree(LeftEnv(env), Mid(begin, end) - begin, threshold)
              && FaultFree(RightEnv(env), end - Mid(begin, end), threshold)
  {
  }

  /**
   Sorts `arr[begin..end)` and reports whether it succeeded.

   At or below the threshold (and for ranges of fewer than two elements) the
   range goes to the cutover sorter. Otherwise the range is split at its
   midpoint, the left and then the right worker sort their halves, both are
   joined in that order, and only if both joined successfully is the scratch
   buffer allocated, the halves merged into it and the result copied back.
   Any failure returns at once, before the merge.
   */
  method MergeSort(arr: seq<int>, begin: nat, end: nat, threshold: nat, env: Env)
    returns (o: Outcome, res: seq<int>)
    requires begin <= end <= |arr|
    ensures SameOutside(arr, res, begin, end)
    ensures multiset(res[begin..end]) == multiset(arr[begin..end])
    ensures o.Done? <==> FaultFree(env, end - begin, threshold)
    ensures o.Done? ==> IsSorted(res[begin..end])
    ensures o.Failed? ==> !IsBaseCase(end - begin, threshold)
    decreases end - begin
  {
    var size := end - begin;
    if IsBaseCase(size, threshold) {
      res := SeqSort(arr, begin, end);
      return Done, res;
    }

    var mid := Mid(begin, end);
    var sys := SysAt(env);
    FaultFreeSplit(env, begin, end, threshold);

    if !sys.forkLeft {
      return Failed(LaunchFailed), arr;
    }
    var leftOutcome, afterLeft := MergeSort(arr, begin, mid, threshold, LeftEnv(env));
    SliceOutside(arr, afterLeft, begin, mid, mid, end);

    if !sys.forkRight {
      HalvesKeepKeys(arr, afterLeft, begin, mid, end);
      SameOutsideWiden(arr, afterLeft, afterLeft, begin, mid, begin, mid, begin, end);
      return Failed(LaunchFailed), afterLeft;
    }
    var rightOutcome, afterRight := MergeSort(afterLeft, mid, end, threshold, RightEnv(env));
    SliceOutside(afterLeft, afterRight, mid, end, begin, mid);
    HalvesKeepKeys(arr, afterRight, begin, mid, end);
    SameOutsideWiden(arr, afterLeft, afterRight, begin, mid, mid, end, begin, end);

    o, res := JoinAndMerge(sys, leftOutcome, rightOutcome, afterRight, begin, mid, end);
    SameOutsideWiden(arr, afterRight, res, begin, end, begin, end, begin, end);
  }

  /* -------------------------------------------------------------------------
     Entry point
     ------------------------------------------------------------------------- */

  /** Size of one stored key in bytes. */
  const KeyBytes := 8

  /**
   Number of whole keys in a file of `fileSize` bytes; trailing bytes that do
   not form a whole key lie outside the sorted buffer.
   */
  function ElementCount(fileSize: nat): (count: nat)
    ensures count * KeyBytes <= fileSize < (count + 1) * KeyBytes
  {
    fileSize / KeyBytes
  }

  /**
   Sorts the whole buffer mapped from the file. A successful result is a
   sorted permutation of the input, and by `SortedPermutationUnique` there is
   only one, so it does not depend on the threshold.
   */
  method SortAll(data: seq<int>, threshold: nat, env: Env) returns (o: Outcome, res: seq<int>)
    ensures |res| == |data|
    ensures multiset(res) == multiset(data)
    ensures o.Done? <==> FaultFree(env, |data|, threshold)
    ensures o.Done? ==> IsSorted(res)
  {
    o, res := MergeSort(data, 0, |data|, threshold, env);
    assert data[0..|data|] == data;
    assert res[0..|data|] == res;
  }

  /**
   Two successful sorts of the same keys, with any two thresholds and any
   system answers, leave the same buffer: the threshold only decides how the
   work is divided, never the result.
   */
  method SortTwice(data: seq<int>, threshold1: nat, env1: Env, threshold2: nat, env2: Env)
    returns (o1: Outcome, res1: seq<int>, o2: Outcome, res2: seq<int>)
    ensures o1.Done? <==> FaultFree(env1, |data|, threshold1)
    ensures o2.Done? <==> FaultFree(env2, |data|, threshold2)
    ensures o1.Done? && o2.Done? ==> res1 == res2
  {
    o1, res1 := SortAll(data, threshold1, env1);
    o2, res2 := SortAll(data, threshold2, env2);
    if o1.Done? && o2.Done? {
      SortedPermutationUnique(res1, res2);
    }
  }

  /** A successful sort of keys that are already in order changes nothing. */
  method SortSorted(data: seq<int>, threshold: nat, env: Env) returns (o: Outcome, res: seq<int>)
    requires IsSorted(data)
    ensures o.Done? <==> FaultFree(env, |data|, threshold)
    ensures o.Done? ==> res == data
  {
    o, res := SortAll(data, threshold, env);
    if o.Done? {
      SortedPermutationUnique(res, data);
    }
  }
}
