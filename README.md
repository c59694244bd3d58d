# Merge sort, sequential and thread-pool variants

A Dafny model of the merge-sort pipeline in `merge_sort_multihilo_secuencial.py`:

- `merge` is a two-pointer linear merge of two lists. It compares the heads with a strict `<`, so on a tie the right head is emitted first. When one side runs out, the rest of the other side is appended.
- `merge_sort` is a top-down recursive sort. Lists of length at most 1 come back unchanged. Longer lists are split at `len // 2`, both halves are sorted, and the results are merged.
- `threaded_merge_sort` splits the same way. While `depth < max_depth` it submits the two sub-sorts to a `ThreadPoolExecutor` and waits for both results. Otherwise it calls itself directly. Either way it finishes with the same `merge`.

Everything is in `merge_sort.dfy`, module `MergeSortPipeline`. Elements are Python integers, modelled as unbounded `int`.

- `merge` appends to a local list inside a `while` loop. It is modelled as the method `Merge`, whose loop invariant says that the output so far, followed by the merge of the two unconsumed suffixes, is the full merge. `Merge` is proved equal to the specification function `Merged`.
- `merge_sort` and `threaded_merge_sort` only slice, recurse and return new lists, so they are modelled as functions.
- The thread pool does not change the value computed, because both futures are awaited before `merge`. In `ThreadedMergeSort` the pool branch is therefore two recursive calls, like the direct branch. The one thing the pool adds is task submissions, and `Submissions` counts them.

## Model

| member | source | states |
|---|---|---|
| `MergeSortPipeline.MergedPermutes` | merge_sort_multihilo_secuencial.py:37-56 | the merged list has length `len(left) + len(right)` and exactly the elements of both inputs: nothing is dropped or duplicated |
| `MergeSortPipeline.Merge` | merge_sort_multihilo_secuencial.py:37-56 | the index loop with append and the final extends returns exactly `Merged(left, right)` |
| `MergeSortPipeline.MergedTakeLeft` | merge_sort_multihilo_secuencial.py:43-45 | when `left[i] < right[j]`, the loop step that appends `left[i]` and advances `i` keeps "output so far + merge of the rest = whole merge" |
| `MergeSortPipeline.MergedTakeRight` | merge_sort_multihilo_secuencial.py:46-48 | when `left[i] < right[j]` fails, ties included, appending `right[j]` and advancing `j` keeps the same invariant, so ties are taken from the right |
| `MergeSortPipeline.MergedDrained` | merge_sort_multihilo_secuencial.py:51-54 | once one side is exhausted, the merge is the remainder of the other side in its original order |
| `MergeSortPipeline.MergedSorted` | merge_sort_multihilo_secuencial.py:42-54 | if both inputs are non-decreasing, their merge is non-decreasing |
| `MergeSortPipeline.MergedLeftBelow` | merge_sort_multihilo_secuencial.py:42-54 | if every left element is strictly below every right element, the merge is `left + right`; in particular `merge(l, []) == l` |
| `MergeSortPipeline.MergedRightNotAbove` | merge_sort_multihilo_secuencial.py:42-54 | if no right element exceeds any left element, ties included, the merge is `right + left`; in particular `merge([], r) == r` |
| `MergeSortPipeline.TieTakesRight` | merge_sort_multihilo_secuencial.py:43-48 | the tie-break is observable on unsorted inputs: `merge([1, 0], [1]) == [1, 1, 0]`, not `[1, 0, 1]` |
| `MergeSortPipeline.Halves` | merge_sort_multihilo_secuencial.py:26-28 | the split at `len // 2` puts the first `len // 2` elements on the left and the rest on the right; their concatenation is the input, and both halves are strictly shorter once `len >= 2` (this is the termination argument) |
| `MergeSortPipeline.MergeSortCorrect` | merge_sort_multihilo_secuencial.py:21-34 | the result is non-decreasing and a permutation (same multiset) of the input |
| `MergeSortPipeline.SortedUnique` | merge_sort_multihilo_secuencial.py:21-34 | two non-decreasing lists with the same multiset are equal, so the sorted output is fully determined by the input's elements |
| `MergeSortPipeline.MergeSortOfSorted` | merge_sort_multihilo_secuencial.py:22-23 | a non-decreasing input is returned unchanged; this includes every input of length at most 1 |
| `MergeSortPipeline.MergeSortIdempotent` | merge_sort_multihilo_secuencial.py:21-34 | `merge_sort(merge_sort(arr)) == merge_sort(arr)` |
| `MergeSortPipeline.MergeSortIsTheSortedPermutation` | merge_sort_multihilo_secuencial.py:21-34 | any non-decreasing permutation of the input is exactly what `merge_sort` returns |
| `MergeSortPipeline.ThreadedEqualsSequential` | merge_sort_multihilo_secuencial.py:59-81 | for every `depth` and `max_depth`, `threaded_merge_sort(arr, depth, max_depth) == merge_sort(arr)`; the pool branch and the direct branch both compute `merge(sort(left), sort(right))` |
| `MergeSortPipeline.ThreadedSortsCorrectly` | merge_sort_multihilo_secuencial.py:59-81 | the threaded sort's result is non-decreasing and a permutation of its input |
| `MergeSortPipeline.NoSubmissionsAtDepthLimit` | merge_sort_multihilo_secuencial.py:67-79 | from `depth >= max_depth` on, nothing is submitted to a pool; in particular a call with `max_depth = 0` never submits a task |
| `MergeSortPipeline.SubmissionsBound` | merge_sort_multihilo_secuencial.py:67-76 | starting at `depth <= max_depth`, at most `2^(max_depth - depth + 1) - 2` sub-sorts are submitted over the whole recursion |

Notes on the design:

- With integer elements, equal values cannot be told apart. On sorted inputs the strict-`<` tie-break therefore cannot be seen in the result: by `SortedUnique`, a sorted list is fully determined by its elements, and merging two sorted lists with either tie-break gives a sorted list with the same elements. It can be seen on unsorted inputs (`TieTakesRight`). The tie-break is also part of what `Merge` is proved equal to, through `MergedTakeRight`.
- The depth bound limits the deepest pool level to 2^max_depth tasks; it does not limit the total to that number. The code submits two tasks at every node above `max_depth`. Starting from `depth = 0`, that means up to 2^max_depth tasks on the deepest pool level, and up to 2^(max_depth + 1) - 2 submissions in total. `SubmissionsBound` states the total.

## Left out

- The thread pool itself (merge_sort_multihilo_secuencial.py:68-76): thread creation, futures, scheduling and the pool size of 8 workers. Only the submissions are counted, and each pair of results is awaited before the merge. Concurrency is not modelled.
- Error propagation through `.result()`: the sort's code raises no errors of its own on integer lists, so there is nothing to propagate.
- The `__main__` block (merge_sort_multihilo_secuencial.py:84-98): random input, wall-clock timing and printing are I/O. Its two printed labels are swapped relative to the functions being timed. That is presentation only.
- `MAX_ITEMS` (merge_sort_multihilo_secuencial.py:18) is benchmark configuration.
- `pj_mandelbrot_set_multithreading.py` (the escape-count function, the sequential and per-row parallel grid generators, and plotting) is not part of this model. It is floating-point complex arithmetic plus numpy and matplotlib glue.
- Python lists are modelled as values (`seq<int>`). Aliasing cannot be observed: the sort returns the input object itself only when its length is at most 1, and nothing ever mutates that object.
