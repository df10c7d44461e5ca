# parsort sorting engine, modelled in Dafny

parsort sorts a file of signed 64-bit keys in place. The file is mapped into
memory as one working buffer. A recursive coordinator (`merge_sort`) sorts a
half-open range `[begin, end)` of that buffer. A range no longer than the
threshold goes to the sequential cutover sorter (`seq_sort`, which calls the
C library's `qsort` with the comparator `compare_i64`). A longer range is
split at `mid = begin + size/2`. One forked worker process sorts each half.
The coordinator joins the left worker and then the right one. When both
succeeded, it allocates a scratch buffer, merges the two sorted halves into
it with a two-cursor merge (`merge`), and copies the scratch buffer back over
the range.

This project models that engine and proves its properties:

- `sorting.dfy` (module `Sorting`): ascending order, a reference sort
  (`SortSeq`), the uniqueness of a sorted permutation, and the reference
  left-preferring merge (`MergeSeqs`) with its ordering and permutation
  lemmas.
- `workers.dfy` (module `Workers`): the outcome of a coordinator call and its
  error kinds. It also holds the answers the operating system gives to fork,
  waitpid and malloc, as a tree `Env` that follows the recursion. It defines
  how a joined worker is classified and which exit status a worker reports.
- `parsort.dfy` (module `Parsort`): the comparator, the cutover sorter, the
  cursor merge, the copy-back loop, the join-and-merge phase, the recursive
  coordinator, and the element count of the mapped file.
- `as_written.dfy` (module `AsWritten`): the two places where the source's
  behaviour departs from its evident intent, next to the corrected behaviour
  (see "## Findings").

The buffer is a `seq<int>` value. Every step takes the buffer as it stands and
returns the buffer it leaves behind. "The rest of the buffer is untouched" is
then the predicate `SameOutside` relating the two values. The two workers of
a split run one after the other, left first. They own disjoint index ranges,
so this order yields the same buffer as running them concurrently.

Both sorted halves and the whole result are stated against `IsSorted`
(pairwise non-decreasing) and multiset equality. A sorted permutation is
unique (`Sorting.SortedPermutationUnique`). So a successful sort
(`Parsort.SortAll`) yields the same buffer for every threshold
(`Parsort.SortTwice`), namely `SortSeq` of its input
(`Sorting.SortedPermutationIsSortSeq`), and sorting sorted input changes
nothing (`Parsort.SortSorted`).

## Model

| member | source | states |
|---|---|---|
| `Parsort.Compare` | parsort.c:13-19 | The comparator returns only -1, 0 or 1. It is negative exactly when left < right, zero exactly when they are equal, and positive exactly when left > right. |
| `Parsort.SeqSort` | parsort.c:21-24 | The cutover sorter leaves `arr[begin..end)` sorted and a permutation of what it held. Every index outside the range keeps its value. |
| `Sorting.SortSeq` | parsort.c:23 | The reference for `qsort` on a range: its result is sorted, a permutation of its input, and of the same length. |
| `Sorting.SortedPermutationUnique` | parsort.c:21-24 | Two sorted sequences with the same multiset of keys are equal. So whichever correct sort `qsort` performs, the range ends up the same. |
| `Sorting.SortedPermutationIsSortSeq` | parsort.c:21-24 | Any sorted permutation of a sequence is the reference sort of it. |
| `Sorting.SortIdempotent` | parsort.c:21-24 | Sorting keys that are already in order returns them unchanged. |
| `Parsort.Merge` | parsort.c:26-51 | The merge writes exactly `end - begin` keys to the scratch buffer. It writes them in the left-preferring merge order of the two ranges and neither loses nor invents a key. When both ranges are sorted the output is sorted. The buffer is only read. The loop invariant keeps both cursors within their ranges, and the loop ends because each step advances exactly one cursor. |
| `Parsort.MergeStep` | parsort.c:34-49 | One pass of the merge loop advances exactly one cursor by one and keeps the merge invariant: what is written so far, followed by the merge of what remains, is the merge of the two whole ranges. |
| `Parsort.StepLeft` | parsort.c:41-46 | Taking the left head, when the right range is exhausted or the left head compares `<= 0` (equal keys included), keeps the merge invariant with the left cursor advanced. |
| `Parsort.StepRight` | parsort.c:39-48 | Taking the right head, when the left range is exhausted or the left head compares `> 0`, keeps the merge invariant with the right cursor advanced. |
| `Sorting.MergeSeqsPermutation` | parsort.c:28-51 | The merge's output holds exactly the keys of both input ranges. |
| `Sorting.MergeSeqsLength` | parsort.c:28-51 | The merge's output is as long as the two input ranges together. |
| `Sorting.MergeSeqsSorted` | parsort.c:28-51 | Merging two sorted ranges yields a sorted sequence. |
| `Parsort.CopyBack` | parsort.c:158-160 | After the copy-back loop, `arr[begin..begin+size)` equals the scratch buffer and every other index keeps its value. |
| `Parsort.MergeInto` | parsort.c:154-160 | The merge followed by the copy-back puts the merged halves over the range, keeps the range's keys, sorts it when both halves were sorted, and leaves the rest of the buffer alone. |
| `Parsort.Mid` | parsort.c:71 | The split point lies within the range. The two halves cover the range. The right half is as long as the left one or one longer. With at least two elements, both halves are non-empty. |
| `Parsort.JoinAndMerge` | parsort.c:104-163 | After both workers were launched, the call succeeds exactly when both workers were reaped, both exited normally, both succeeded, and the scratch allocation succeeded. The left worker is judged first: when its join fails, the outcome is that join's error, whatever the right worker and the allocation would have answered. Only then is the right worker judged. An allocation failure is reported only after both joins succeeded. Every failure returns the buffer exactly as the workers left it, without merging or copying back. On success the range is sorted with its keys kept. |
| `Parsort.MergeSort` | parsort.c:60-166 | The coordinator never touches indices outside `[begin, end)` and always keeps the range's keys. It succeeds exactly when no fork, waitpid or allocation fails and no worker ends abnormally anywhere in its recursion. On success the range is sorted. A failure can only come from a range that was split. The recursion terminates for every threshold, including 0. |
| `Parsort.HealthyIsFaultFree` | parsort.c:77-145 | When no fork, waitpid or allocation fails and every worker exits normally, every coordinator call in the recursion is fault-free, whatever the range size and threshold. |
| `Workers.Classify` | parsort.c:107-124 | A joined worker counts as a success only when waitpid succeeded, the worker exited normally and its status is 0. A failed waitpid, an abnormal end and a non-zero status each yield their own error. |
| `Workers.ExitCode` | parsort.c:83-87 | The status a worker reports is 0 exactly when its own coordinator call succeeded (corrected behaviour, see Findings). |
| `Workers.JoinSucceedsIffWorkerSucceeded` | parsort.c:104-145 | With the corrected exit status, a join succeeds exactly when the worker exited normally and its call succeeded. |
| `Parsort.ElementCount` | parsort.c:219 | The buffer holds the whole 8-byte keys of the file. The trailing bytes that do not form a key, fewer than 8, are outside it. |
| `Parsort.SortAll` | parsort.c:229 | Sorting the whole buffer keeps its length and keys. It succeeds exactly when no fork, waitpid or allocation fails and no worker ends abnormally anywhere in the recursion. On success the whole buffer is sorted. |
| `Parsort.SortSorted` | parsort.c:229 | A successful sort of keys that are already in order leaves them exactly as they were. |
| `Parsort.SortTwice` | parsort.c:60-71 | Two successful sorts of the same keys leave the same buffer, whatever the two thresholds and system answers. The threshold decides only how the work is divided. |
| `AsWritten.AsWrittenRightHalfStalls` | parsort.c:64-99 | Under the source's guard `size <= threshold`, the right half of a split is the whole range again exactly when the threshold is 0 and the range has one element. |
| `AsWritten.OneElementRangeRepeats` | parsort.c:71 | The concrete case: with threshold 0 the range `[0, 1)` is split at 0, so its right half is `[0, 1)` again. |
| `AsWritten.CorrectedGuardShrinks` | parsort.c:64-71 | The corrected guard differs from the source's only on that stalling input. Under it both halves of a split are strictly shorter than the range. |
| `AsWritten.ExitCodeAsWritten` | parsort.c:83-87 | The source's worker status is 0 unless the scratch allocation failed and `fatal` exited with 1. |
| `AsWritten.AsWrittenJoinHidesFailure` | parsort.c:107-124 | With the source's status, a worker that exited normally is joined as a success exactly when its own failure, if any, was not the allocation failure. |
| `AsWritten.LaunchFailureJoinedAsSuccess` | parsort.c:78-86 | The concrete case: a worker whose own fork failed is joined as a success as written, and as a failure with the corrected status. |
| `AsWritten.JoinAndMergeAsWritten` | parsort.c:104-160 | With the source's worker status, the join-and-merge phase succeeds exactly when both workers exited normally, neither failed on its scratch allocation, and the parent's allocation succeeded. On success the range holds the merge of the two halves as they stand. On failure the buffer is unchanged. |
| `AsWritten.UnsortedHalfMergedAsSuccess` | parsort.c:78-100 | The concrete consequence: a left worker of `[0, 4)` whose fork failed leaves `[2, 1]` unsorted. The parent merges it with `[0, 3]` and reports success over `[0, 2, 1, 3]`, which is not sorted. |
| `AsWritten.UnsortedHalfRejected` | parsort.c:104-124 | The same join under the corrected status fails with a non-zero exit status and leaves the range as the workers left it. |

## Findings

| source | as written | input that shows it | evidently intended | confidence | as-written member | corrected member |
|---|---|---|---|---|---|---|
| parsort.c:64-99 | A range goes to `seq_sort` only when `size <= threshold`. With threshold 0 a one-element range is split at `mid == begin`, so the right worker recurses on the same range. The recursion never shrinks: it forks a chain of processes on the same range until the system refuses a fork. | threshold 0, any non-empty file, a range `[b, b+1)` | A range of fewer than two elements is already sorted and is never split. | high; not executed | `AsWritten.AsWrittenRightHalfStalls` | `AsWritten.CorrectedGuardShrinks` (the guard `Parsort.IsBaseCase` that `Parsort.MergeSort` uses) |
| parsort.c:83-100 | A worker calls `merge_sort` and then `exit(0)` unconditionally. `merge_sort` returns nothing, so a failed fork or waitpid inside the worker is reported as success. The parent then merges a half that was never sorted. Only a failed allocation leaves through `fatal` with status 1. | a worker whose own left fork returns -1 (parsort.c:78-82) | A worker's exit status is non-zero whenever its own call failed, so failure reaches every ancestor. | medium; not executed | `AsWritten.LaunchFailureJoinedAsSuccess`, `AsWritten.UnsortedHalfMergedAsSuccess` | `Workers.ExitCode` (used by `Parsort.MergeSort` through `Parsort.JoinAndMerge`; see `AsWritten.UnsortedHalfRejected`) |

## Left out

- `fork`, `waitpid`, `WIFEXITED`/`WEXITSTATUS` and `exit` are not modelled as process concurrency. Each launch, each join result and each allocation result is an input taken from the `Env` tree, and the two workers run one after the other on their disjoint halves.
- Partial writes by a worker that is killed are left out. A worker that ends abnormally is modelled as having finished its own call first. So the failure path still keeps the range's keys, which a real crash in the middle of a copy-back would not.
- Some failures return without reaping a worker that is still running. When the right fork fails (parsort.c:92-96), the left worker is not waited for. When the left join fails (parsort.c:108-124), the right worker is not waited for and keeps writing `[mid, end)`. In the model every launched worker has already finished its half by then.
- The internals of `qsort` are left out because it is a foreign library call. `seq_sort` is specified by its result only, a sorted permutation of the range. This result is unique, and the reference sort `SortSeq` stands in for it.
- `malloc`/`free`: memory is not modelled. A failed scratch allocation is the outcome `Failed(ScratchFailed)`. In the top-level process the source calls `fatal` there, which exits the program with status 1.
- `fatal`'s message and every `printf` diagnostic are left out because they are output only.
- Most of `main` is left out because it is I/O and command-line handling: argument count, `strtoul` of the threshold (an invalid threshold is reported but not rejected), `open`, `fstat`, `mmap`, `close`, `munmap`, printing the keys, and the exit status. That status is 0 whenever `merge_sort` returns. It is 1 on a usage error, an I/O failure or a failed top-level scratch allocation (parsort.c:57, 172, 189, 198, 212). Only the element count (`Parsort.ElementCount`) and the top-level call (`Parsort.SortAll`) are modelled.
- Keys are unbounded integers, not 64-bit ones. The engine only compares keys, so the width never matters.
- Merge: the left preference on equal heads is stated through the definition of the reference merge `Sorting.MergeSeqs`, which `Merge` reproduces exactly. With plain integer keys, which range an equal key came from cannot be seen in the result, so no separate stability lemma is stated.
