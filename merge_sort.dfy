/**
 * Sequential and depth-bounded "threaded" top-down merge sort over lists of
 * integers, with the two-pointer merge they share.
 *
 * The merge is a loop over two indices that appends to an output list; it is
 * modelled as a method proved equal to the specification function `Merged`.
 * Both sorts build new lists by slicing and recursion; they are modelled as
 * functions. The thread pool of the threaded sort awaits both sub-sorts before
 * merging, so its value is that of two plain recursive calls; what the pool
 * adds is a number of task submissions, counted by `Submissions`.
 */
module MergeSortPipeline {

  /** Non-decreasing order. */
  predicate Sorted(s: seq<int>) {
    forall i, j :: 0 <= i < j < |s| ==> s[i] <= s[j]
  }

  /** x is at most every element of s. */
  predicate AtMostAll(x: int, s: seq<int>) {
    forall k :: 0 <= k < |s| ==> x <= s[k]
  }

  // ---------------------------------------------------------------------------
  // merge
  // ---------------------------------------------------------------------------

  /**
   * The list the two-pointer merge produces: at each step the heads are
   * compared with a strict `<`; only a strictly smaller left head is taken
   * first, so on a tie the right head goes out first. Once one side is empty
   * the rest of the other follows in its own order.
   */
  function Merged(left: seq<int>, right: seq<int>): seq<int>
    decreases |left| + |right|
  {
    if left == [] then right
    else if right == [] then left
    else if left[0] < right[0] then [left[0]] + Merged(left[1..], right)
    else [right[0]] + Merged(left, right[1..])
  }

  /** The merged list has exactly the elements of both inputs. */
  lemma {:induction false} MergedPermutes(left: seq<int>, right: seq<int>)
    ensures |Merged(left, right)| == |left| + |right|
    ensures multiset(Merged(left, right)) == multiset(left) + multiset(right)
    decreases |left| + |right|
  {
    if left != [] && right != [] {
      if left[0] < right[0] {
        MergedPermutes(left[1..], right);
        assert left == [left[0]] + left[1..];
      } else {
        MergedPermutes(left, right[1..]);
        assert right == [right[0]] + right[1..];
      }
    }
  }

  /** The source's `merge`: two indices walk the lists, the output grows by appending. */
  method Merge(left: seq<int>, right: seq<int>) returns (merged: seq<int>)
    ensures merged == Merged(left, right)
  {
    merged := [];
    var i, j := 0, 0;
    while i < |left| && j < |right|
      invariant 0 <= i <= |left| && 0 <= j <= |right|
      invariant merged + Merged(left[i..], right[j..]) == Merged(left, right)
      decreases |left| - i + |right| - j
    {
      if left[i] < right[j] {
        MergedTakeLeft(left, right, i, j, merged);
        merged := merged + [left[i]];
        i := i + 1;
      } else {
        MergedTakeRight(left, right, i, j, merged);
        merged := merged + [right[j]];
        j := j + 1;
      }
    }
    MergedDrained(left[i..], right[j..]);
    if i < |left| {
      merged := merged + left[i..];
    }
    if j < |right| {
      merged := merged + right[j..];
    }
  }

  /** A loop step that takes the strictly smaller left head keeps the loop invariant. */
  lemma MergedTakeLeft(left: seq<int>, right: seq<int>, i: nat, j: nat, merged: seq<int>)
    requires i < |left| && j < |right| && left[i] < right[j]
    ensures merged + Merged(left[i..], right[j..])
         == (merged + [left[i]]) + Merged(left[i + 1..], right[j..])
  {
    assert left[i..][1..] == left[i + 1..];
    ghost var rest := Merged(left[i + 1..], right[j..]);
    assert Merged(left[i..], right[j..]) == [left[i]] + rest;
    assert (merged + [left[i]]) + rest == merged + ([left[i]] + rest);
  }

  /** A loop step that takes the right head (a tie included) keeps the loop invariant. */
  lemma MergedTakeRight(left: seq<int>, right: seq<int>, i: nat, j: nat, merged: seq<int>)
    requires i < |left| && j < |right| && !(left[i] < right[j])
    ensures merged + Merged(left[i..], right[j..])
         == (merged + [right[j]]) + Merged(left[i..], right[j + 1..])
  {
    assert right[j..][1..] == right[j + 1..];
    ghost var rest := Merged(left[i..], right[j + 1..]);
    assert Merged(left[i..], right[j..]) == [right[j]] + rest;
    assert (merged + [right[j]]) + rest == merged + ([right[j]] + rest);
  }

  /** Once one side is used up the merge is the other side's remainder. */
  lemma MergedDrained(left: seq<int>, right: seq<int>)
    requires left == [] || right == []
    ensures Merged(left, right) == left + right
  {
  }

  /** Prepending a lower bound keeps a list sorted. */
  lemma SortedCons(x: int, s: seq<int>)
    requires Sorted(s) && AtMostAll(x, s)
    ensures Sorted([x] + s)
  {
  }

  /** A lower bound of both inputs bounds their merge. */
  lemma MergedLowerBound(x: int, left: seq<int>, right: seq<int>)
    requires AtMostAll(x, left) && AtMostAll(x, right)
    ensures AtMostAll(x, Merged(left, right))
  {
    var r := Merged(left, right);
    MergedPermutes(left, right);
    forall k | 0 <= k < |r| ensures x <= r[k] {
      assert r[k] in multiset(r);
      assert r[k] in multiset(left) || r[k] in multiset(right);
    }
  }

  /** Merging two non-decreasing lists gives a non-decreasing list. */
  lemma {:induction false} MergedSorted(left: seq<int>, right: seq<int>)
    requires Sorted(left) && Sorted(right)
    ensures Sorted(Merged(left, right))
    decreases |left| + |right|
  {
    if left == [] || right == [] {
    } else if left[0] < right[0] {
      MergedSorted(left[1..], right);
      MergedLowerBound(left[0], left[1..], right);
      SortedCons(left[0], Merged(left[1..], right));
    } else {
      MergedSorted(left, right[1..]);
      MergedLowerBound(right[0], left, right[1..]);
      SortedCons(right[0], Merged(left, right[1..]));
    }
  }

  /** Every element of the tail is an element of the list. */
  lemma TailMembers(s: seq<int>)
    requires s != []
    ensures forall x :: x in s[1..] ==> x in s
  {
    forall x | x in s[1..] ensures x in s {
      var k :| 0 <= k < |s[1..]| && s[1..][k] == x;
      assert s[k + 1] == x;
    }
  }

  /**
   * When every left element is strictly below every right element the left
   * list is used up first and the right list follows unchanged; with an empty
   * right list this is `merge(l, []) == l`.
   */
  lemma {:induction false} MergedLeftBelow(left: seq<int>, right: seq<int>)
    requires forall a, b :: a in left && b in right ==> a < b
    ensures Merged(left, right) == left + right
    decreases |left|
  {
    if left != [] && right != [] {
      assert left[0] in left && right[0] in right;
      TailMembers(left);
      MergedLeftBelow(left[1..], right);
      assert left == [left[0]] + left[1..];
    }
  }

  /**
   * When no right element exceeds any left element, ties included, the right
   * list goes out first and the left list follows unchanged; with an empty
   * left list this is `merge([], r) == r`.
   */
  lemma {:induction false} MergedRightNotAbove(left: seq<int>, right: seq<int>)
    requires forall a, b :: a in left && b in right ==> b <= a
    ensures Merged(left, right) == right + left
    decreases |right|
  {
    if left != [] && right != [] {
      assert left[0] in left && right[0] in right;
      TailMembers(right);
      MergedRightNotAbove(left, right[1..]);
      assert right == [right[0]] + right[1..];
    }
  }

  /**
   * The tie-break is observable on inputs that are not sorted: the right `1`
   * goes out before the left `1`, so the left `0` ends up last (taking the
   * left head on the tie would give [1, 0, 1]).
   */
  lemma TieTakesRight()
    ensures Merged([1, 0], [1]) == [1, 1, 0]
  {
    assert Merged([1, 0], []) == [1, 0];
  }

  // ---------------------------------------------------------------------------
  // merge_sort
  // ---------------------------------------------------------------------------

  /** The split at the middle, rounded down: `arr[:n // 2]` and `arr[n // 2:]`. */
  function Halves(s: seq<int>): (h: (seq<int>, seq<int>))
    ensures h.0 + h.1 == s
    ensures |h.0| == |s| / 2 && |h.1| == |s| - |s| / 2
    ensures |s| >= 2 ==> |h.0| < |s| && |h.1| < |s|
  {
    (s[..|s| / 2], s[|s| / 2..])
  }

  /** The source's `merge_sort`. */
  function MergeSort(s: seq<int>): (r: seq<int>)
    decreases |s|
  {
    if |s| <= 1 then s
    else
      var (left, right) := Halves(s);
      Merged(MergeSort(left), MergeSort(right))
  }

  /** merge_sort's result is sorted and a permutation of its input. */
  lemma {:induction false} MergeSortCorrect(s: seq<int>)
    ensures Sorted(MergeSort(s))
    ensures multiset(MergeSort(s)) == multiset(s)
    decreases |s|
  {
    if |s| > 1 {
      var (left, right) := Halves(s);
      assert multiset(s) == multiset(left) + multiset(right) by {
        assert s == left + right;
      }
      MergeSortCorrect(left);
      MergeSortCorrect(right);
      MergedSorted(MergeSort(left), MergeSort(right));
      MergedPermutes(MergeSort(left), MergeSort(right));
    }
  }

  /** Two sorted lists with the same elements are the same list. */
  lemma {:induction false} SortedUnique(a: seq<int>, b: seq<int>)
    requires Sorted(a) && Sorted(b)
    requires multiset(a) == multiset(b)
    ensures a == b
    decreases |a|
  {
    if a != [] {
      assert a[0] in multiset(b);
      assert b[0] in multiset(a);
      assert b != [];
      assert a[0] == b[0];
      assert a == [a[0]] + a[1..];
      assert b == [b[0]] + b[1..];
      assert multiset(a[1..]) == multiset(a) - multiset{a[0]};
      assert multiset(b[1..]) == multiset(b) - multiset{b[0]};
      SortedUnique(a[1..], b[1..]);
    } else {
      assert |b| == |multiset(b)| == 0;
    }
  }

  /** A list that is already sorted is returned as it is (in particular every list of length <= 1). */
  lemma MergeSortOfSorted(s: seq<int>)
    requires Sorted(s)
    ensures MergeSort(s) == s
  {
    MergeSortCorrect(s);
    SortedUnique(MergeSort(s), s);
  }

  /** Sorting twice is sorting once. */
  lemma MergeSortIdempotent(s: seq<int>)
    ensures MergeSort(MergeSort(s)) == MergeSort(s)
  {
    MergeSortCorrect(s);
    MergeSortOfSorted(MergeSort(s));
  }

  /** Any sorted permutation of the input is what merge_sort returns. */
  lemma MergeSortIsTheSortedPermutation(s: seq<int>, t: seq<int>)
    requires Sorted(t) && multiset(t) == multiset(s)
    ensures MergeSort(s) == t
  {
    MergeSortCorrect(s);
    SortedUnique(MergeSort(s), t);
  }

  // ---------------------------------------------------------------------------
  // threaded_merge_sort
  // ---------------------------------------------------------------------------

  /**
   * The source's `threaded_merge_sort`. Below `maxDepth` the two halves are
   * submitted to a thread pool and both results are awaited before the merge;
   * from `maxDepth` on the function calls itself directly. Either way the two
   * halves are sorted one level deeper and merged.
   */
  function ThreadedMergeSort(s: seq<int>, depth: int, maxDepth: int): seq<int>
    decreases |s|
  {
    if |s| <= 1 then s
    else
      var (left, right) := Halves(s);
      if depth < maxDepth then
        // pool branch: submit both sub-sorts, then wait for both results
        var leftFuture := ThreadedMergeSort(left, depth + 1, maxDepth);
        var rightFuture := ThreadedMergeSort(right, depth + 1, maxDepth);
        Merged(leftFuture, rightFuture)
      else
        // direct recursion
        Merged(ThreadedMergeSort(left, depth + 1, maxDepth), ThreadedMergeSort(right, depth + 1, maxDepth))
  }

  /** The number of sub-sorts `threaded_merge_sort` submits to a thread pool, over the whole recursion. */
  function Submissions(s: seq<int>, depth: int, maxDepth: int): nat
    decreases |s|
  {
    if |s| <= 1 then 0
    else
      var (left, right) := Halves(s);
      (if depth < maxDepth then 2 else 0)
        + Submissions(left, depth + 1, maxDepth) + Submissions(right, depth + 1, maxDepth)
  }

  /** For every depth and depth limit the threaded sort returns exactly what merge_sort returns. */
  lemma {:induction false} ThreadedEqualsSequential(s: seq<int>, depth: int, maxDepth: int)
    ensures ThreadedMergeSort(s, depth, maxDepth) == MergeSort(s)
    decreases |s|
  {
    if |s| > 1 {
      var (left, right) := Halves(s);
      ThreadedEqualsSequential(left, depth + 1, maxDepth);
      ThreadedEqualsSequential(right, depth + 1, maxDepth);
    }
  }

  /** Hence the threaded sort is sorted and a permutation of its input. */
  lemma ThreadedSortsCorrectly(s: seq<int>, depth: int, maxDepth: int)
    ensures Sorted(ThreadedMergeSort(s, depth, maxDepth))
    ensures multiset(ThreadedMergeSort(s, depth, maxDepth)) == multiset(s)
  {
    ThreadedEqualsSequential(s, depth, maxDepth);
    MergeSortCorrect(s);
  }

  /** Once the depth limit is reached nothing is submitted to a pool (so `max_depth = 0` never uses one). */
  lemma {:induction false} NoSubmissionsAtDepthLimit(s: seq<int>, depth: int, maxDepth: int)
    requires maxDepth <= depth
    ensures Submissions(s, depth, maxDepth) == 0
    decreases |s|
  {
    if |s| > 1 {
      var (left, right) := Halves(s);
      NoSubmissionsAtDepthLimit(left, depth + 1, maxDepth);
      NoSubmissionsAtDepthLimit(right, depth + 1, maxDepth);
    }
  }

  function Pow2(n: nat): (p: nat)
    ensures p >= 1
  {
    if n == 0 then 1 else 2 * Pow2(n - 1)
  }

  /**
   * With `maxDepth - depth` pool levels still to go, at most
   * 2^(maxDepth - depth + 1) - 2 sub-sorts are submitted in all: two per node
   * on a pool level, on at most 2^k nodes at level k.
   */
  lemma {:induction false} SubmissionsBound(s: seq<int>, depth: int, maxDepth: int)
    requires depth <= maxDepth
    ensures Submissions(s, depth, maxDepth) <= Pow2(maxDepth - depth + 1) - 2
    decreases |s|
  {
    if |s| > 1 {
      var (left, right) := Halves(s);
      if depth < maxDepth {
        SubmissionsBound(left, depth + 1, maxDepth);
        SubmissionsBound(right, depth + 1, maxDepth);
        assert Pow2(maxDepth - depth + 1) == 2 * Pow2(maxDepth - depth);
      } else {
        NoSubmissionsAtDepthLimit(left, depth + 1, maxDepth);
        NoSubmissionsAtDepthLimit(right, depth + 1, maxDepth);
      }
    }
  }
}
