/**
 Two places where the coordinator as written in parsort.c does not do what it
 evidently intends, each stated next to the corrected definition that the
 model in `Parsort` and `Workers` uses.

 1. Recursion guard. The source sends a range to the cutover sorter only when
    its size is at most the threshold. With threshold 0 a one-element range
    is split at `mid == begin`, so its right half is the same range again:
    the recursion never shrinks, and the worker for it forks a chain of
    processes on the same range until the system refuses a fork. The
    corrected guard (`Parsort.IsBaseCase`) also treats every range of fewer
    than two elements as a base case.

 2. Exit status of a worker. A worker runs the coordinator on its half and
    then calls exit(0) unconditionally; the coordinator returns nothing, and
    only a failed scratch allocation leaves through fatal() with status 1. So
    a worker whose own forks or joins failed reports success, and its parent
    goes on to merge a half that was never sorted. The corrected status
    (`Workers.ExitCode`) is 0 exactly when the worker's call succeeded.
 */
module AsWritten {
  import opened Sorting
  import opened Workers
  import Parsort

  /** The source's recursion guard: a range is split whenever it is longer than the threshold. */
  predicate SplitsAsWritten(size: nat, threshold: nat) {
    size > threshold
  }

  /**
   Under the source's guard the right half `[mid, end)` is the whole range
   again exactly when the threshold is 0 and the range holds one element.
   */
  lemma AsWrittenRightHalfStalls(begin: nat, end: nat, threshold: nat)
    requires begin <= end
    ensures SplitsAsWritten(end - begin, threshold) && Parsort.Mid(begin, end) == begin
            <==> threshold == 0 && end - begin == 1
  {
  }

  /** The concrete input: threshold 0, range `[0, 1)`; it is split and its right half is `[0, 1)`. */
  lemma OneElementRangeRepeats()
    ensures SplitsAsWritten(1, 0)
    ensures Parsort.Mid(0, 1) == 0
  {
  }

  /**
   The corrected guard departs from the source's only on the stalling input,
   and under it both halves of a split range are strictly shorter.
   */
  lemma CorrectedGuardShrinks(begin: nat, end: nat, threshold: nat)
    requires begin <= end
    ensures Parsort.IsBaseCase(end - begin, threshold)
            <==> !SplitsAsWritten(end - begin, threshold) || (threshold == 0 && end - begin == 1)
    ensures !Parsort.IsBaseCase(end - begin, threshold) ==>
              && Parsort.Mid(begin, end) - begin < end - begin
              && end - Parsort.Mid(begin, end) < end - begin
  {
  }

  /**
   The status a worker exits with in the source: 0 after the coordinator
   returns, whatever happened in it, and 1 only when the scratch allocation
   failed and fatal() ended the process.
   */
  function ExitCodeAsWritten(o: Outcome): (status: nat)
    ensures status == 0 <==> o != Failed(ScratchFailed)
  {
    if o == Failed(ScratchFailed) then 1 else 0
  }

  /**
   With the source's exit status a normally exiting worker is joined as a
   success although its own call failed, for every failure but the
   allocation one.
   */
  lemma AsWrittenJoinHidesFailure(o: Outcome)
    ensures Classify(Exited, ExitCodeAsWritten(o)).Done? <==> o != Failed(ScratchFailed)
  {
  }

  /** The concrete input: a worker whose own fork failed is joined as a success. */
  lemma LaunchFailureJoinedAsSuccess()
    ensures Classify(Exited, ExitCodeAsWritten(Failed(LaunchFailed))) == Done
    ensures Classify(Exited, ExitCode(Failed(LaunchFailed))) == Failed(NonZeroExit)
  {
  }

  /**
   The join-and-merge phase of the coordinator with the source's worker
   status: join the left worker, then the right one, then allocate the
   scratch buffer and merge the two halves over the range. A worker whose
   own call failed for any reason but the allocation is taken as a success,
   so its half is merged as it stands.
   */
  function JoinAndMergeAsWritten(sys: Sys, leftOutcome: Outcome, rightOutcome: Outcome,
                                 arr: seq<int>, begin: nat, mid: nat, end: nat): (r: (Outcome, seq<int>))
    requires begin <= mid <= end <= |arr|
    ensures r.0.Done? <==>
              && sys.endLeft.Exited? && leftOutcome != Failed(ScratchFailed)
              && sys.endRight.Exited? && rightOutcome != Failed(ScratchFailed)
              && sys.scratch
    ensures r.0.Failed? ==> r.1 == arr
    ensures r.0.Done? ==> |r.1| == |arr| && r.1[begin..end] == MergeSeqs(arr[begin..mid], arr[mid..end])
  {
    var joinedLeft := Classify(sys.endLeft, ExitCodeAsWritten(leftOutcome));
    var joinedRight := Classify(sys.endRight, ExitCodeAsWritten(rightOutcome));
    if joinedLeft.Failed? then (joinedLeft, arr)
    else if joinedRight.Failed? then (joinedRight, arr)
    else if !sys.scratch then (Failed(ScratchFailed), arr)
    else
      var merged := arr[..begin] + MergeSeqs(arr[begin..mid], arr[mid..end]) + arr[end..];
      MergeSeqsLength(arr[begin..mid], arr[mid..end]);
      assert merged[begin..end] == MergeSeqs(arr[begin..mid], arr[mid..end]);
      (Done, merged)
  }

  /**
   The concrete consequence: the left worker of `[0, 4)` fails to fork, so
   its half `[2, 1]` stays unsorted, yet it exits 0. The parent merges it
   with the sorted right half `[0, 3]` and reports success over a range that
   is not sorted.
   */
  lemma UnsortedHalfMergedAsSuccess()
    ensures JoinAndMergeAsWritten(Reliable, Failed(LaunchFailed), Done, [2, 1, 0, 3], 0, 2, 4).0 == Done
    ensures JoinAndMergeAsWritten(Reliable, Failed(LaunchFailed), Done, [2, 1, 0, 3], 0, 2, 4).1 == [0, 2, 1, 3]
    ensures !IsSorted(JoinAndMergeAsWritten(Reliable, Failed(LaunchFailed), Done, [2, 1, 0, 3], 0, 2, 4).1)
  {
    var arr := [2, 1, 0, 3];
    assert arr[0..2] == [2, 1] && arr[2..4] == [0, 3];
    assert MergeSeqs([2, 1], [0, 3]) == [0] + MergeSeqs([2, 1], [3]);
    assert MergeSeqs([2, 1], [3]) == [2] + MergeSeqs([1], [3]);
    assert MergeSeqs([1], [3]) == [1] + MergeSeqs([], [3]);
    assert arr[..0] + [0, 2, 1, 3] + arr[4..] == [0, 2, 1, 3];
    var r := [0, 2, 1, 3];
    assert r[1] > r[2];
  }

  /**
   The same join under the corrected status: the left worker reports its
   failure, the parent stops before allocating, and the range is left as
   the workers left it.
   */
  method UnsortedHalfRejected() returns (o: Outcome, res: seq<int>)
    ensures o == Failed(NonZeroExit)
    ensures res == [2, 1, 0, 3]
  {
    o, res := Parsort.JoinAndMerge(Reliable, Failed(LaunchFailed), Done, [2, 1, 0, 3], 0, 2, 4);
  }
}
