/**
 * Alignment search: `get_pad_indexer` / `get_backfill_indexer`, which hand
 * over to the two-pointer merges `algos.pad` and `algos.backfill`, and the
 * per-target reference definitions they must agree with.
 */
module Alignment {
  import opened Keys

  /** Reference pad: the last position whose value is at most `t`, or -1 when there is none. */
  function PadRef(s: seq<Key>, t: Key): (r: int)
    ensures -1 <= r < |s|
    ensures r >= 0 ==> Le(s[r], t)
    ensures forall j :: r < j < |s| ==> !Le(s[j], t)
    decreases |s|
  {
    if |s| == 0 then -1
    else if Le(s[|s| - 1], t) then |s| - 1
    else PadRef(s[..|s| - 1], t)
  }

  /** Reference backfill: the first position whose value is at least `t`, or -1 when there is none. */
  function BackfillRef(s: seq<Key>, t: Key): (r: int)
    ensures -1 <= r < |s|
    ensures r >= 0 ==> Le(t, s[r]) && forall j :: 0 <= j < r ==> !Le(t, s[j])
    ensures r == -1 ==> forall j :: 0 <= j < |s| ==> !Le(t, s[j])
    decreases |s|
  {
    if |s| == 0 then -1
    else if Le(t, s[0]) then 0
    else
      var r := BackfillRef(s[1..], t);
      if r == -1 then -1 else r + 1
  }

  /** On a sorted array, a target in [s[i], s[i+1]) pads to i. */
  lemma PadRefAt(s: seq<Key>, t: Key, i: nat)
    requires Sorted(s) && i < |s| && Le(s[i], t)
    requires i + 1 == |s| || Lt(t, s[i + 1])
    ensures PadRef(s, t) == i
  {
    var r := PadRef(s, t);
    if r > i {
      LeTrans(s[i + 1], s[r], t);
    }
  }

  /** On a sorted array, a target below the first value pads to nothing. */
  lemma PadRefBelowFirst(s: seq<Key>, t: Key)
    requires Sorted(s) && (|s| == 0 || Lt(t, s[0]))
    ensures PadRef(s, t) == -1
  {
    var r := PadRef(s, t);
    if r >= 0 {
      LeTrans(s[0], s[r], t);
    }
  }

  /** On a sorted array, a target in (s[i-1], s[i]] backfills to i. */
  lemma BackfillRefAt(s: seq<Key>, t: Key, i: nat)
    requires Sorted(s) && i < |s| && Le(t, s[i])
    requires i == 0 || Lt(s[i - 1], t)
    ensures BackfillRef(s, t) == i
  {
    var r := BackfillRef(s, t);
    if 0 <= r < i {
      LeTrans(t, s[r], s[i - 1]);
    }
  }

  /** On a sorted array, a target above the last value backfills to nothing. */
  lemma BackfillRefAboveLast(s: seq<Key>, t: Key)
    requires Sorted(s) && (|s| == 0 || Lt(s[|s| - 1], t))
    ensures BackfillRef(s, t) == -1
  {
    var r := BackfillRef(s, t);
    if r >= 0 {
      LeTrans(t, s[r], s[|s| - 1]);
    }
  }

  /**
   * Targets before `j` that all lie below the first value (every target,
   * when the last one does) pad to nothing.
   */
  lemma PadNothingBelow(values: seq<Key>, targets: seq<Key>, j: nat)
    requires Sorted(values) && Sorted(targets) && j <= |targets|
    requires |values| == 0 || (j == |targets| && |targets| > 0 && Lt(targets[j - 1], values[0]))
      || (forall k :: 0 <= k < j ==> Lt(targets[k], values[0]))
    ensures forall k :: 0 <= k < j ==> PadRef(values, targets[k]) == -1
  {
    forall k | 0 <= k < j
      ensures PadRef(values, targets[k]) == -1
    {
      if |values| > 0 && Le(values[0], targets[k]) {
        LeTrans(values[0], targets[k], targets[j - 1]);
      }
      PadRefBelowFirst(values, targets[k]);
    }
  }

  /**
   * Targets after `j` that all lie above the last value (every target, when
   * the first one does) backfill to nothing.
   */
  lemma BackfillNothingAbove(values: seq<Key>, targets: seq<Key>, j: int)
    requires Sorted(values) && Sorted(targets) && -1 <= j < |targets|
    requires |values| == 0 || (j == -1 && |targets| > 0 && Lt(values[|values| - 1], targets[0]))
      || (forall k :: j < k < |targets| ==> Lt(values[|values| - 1], targets[k]))
    ensures forall k :: j < k < |targets| ==> BackfillRef(values, targets[k]) == -1
  {
    forall k | j < k < |targets|
      ensures BackfillRef(values, targets[k]) == -1
    {
      if |values| > 0 && Le(targets[k], values[|values| - 1]) {
        LeTrans(targets[j + 1], targets[k], values[|values| - 1]);
      }
      BackfillRefAboveLast(values, targets[k]);
    }
  }

  /** Everything left of `j` holds its pad position, everything from `j` on is still -1. */
  ghost predicate PadFilled(values: seq<Key>, targets: seq<Key>, indexer: seq<int>, j: int)
    requires |indexer| == |targets| && 0 <= j <= |targets|
  {
    && (forall k :: 0 <= k < j ==> indexer[k] == PadRef(values, targets[k]))
    && (forall k :: j <= k < |targets| ==> indexer[k] == -1)
  }

  /** Everything right of `j` holds its backfill position, everything up to `j` is still -1. */
  ghost predicate BackfillFilled(values: seq<Key>, targets: seq<Key>, indexer: seq<int>, j: int)
    requires |indexer| == |targets| && -1 <= j < |targets|
  {
    && (forall k :: j < k < |targets| ==> indexer[k] == BackfillRef(values, targets[k]))
    && (forall k :: 0 <= k <= j ==> indexer[k] == -1)
  }

  /**
   * The inner loop of `pad`: targets from `j` on that lie in
   * [values[i], values[i + 1]) (or at or above the last value) take position i.
   */
  method PadRun(values: seq<Key>, targets: seq<Key>, indexer: array<int>, i: nat, j0: nat) returns (j: nat)
    requires Sorted(values) && Sorted(targets) && indexer.Length == |targets|
    requires i < |values| && j0 <= |targets| && PadFilled(values, targets, indexer[..], j0)
    requires j0 < |targets| ==> Le(values[i], targets[j0])
    modifies indexer
    ensures j0 <= j <= |targets| && PadFilled(values, targets, indexer[..], j)
    ensures i + 1 == |values| ==> j == |targets|
    ensures i + 1 < |values| && j < |targets| ==> Le(values[i + 1], targets[j])
  {
    var cur := values[i];
    j := j0;
    while j < |targets| && Le(cur, targets[j]) && (i + 1 == |values| || Lt(targets[j], values[i + 1]))
      invariant j0 <= j <= |targets| && PadFilled(values, targets, indexer[..], j)
      invariant j < |targets| ==> Le(cur, targets[j])
    {
      PadRefAt(values, targets[j], i);
      indexer[j] := i;
      if j + 1 < |targets| {
        LeTrans(cur, targets[j], targets[j + 1]);
      }
      j := j + 1;
    }
  }

  /**
   * The inner loop of `backfill`: targets from `j` down that lie in
   * (values[i - 1], values[i]] (or at or below the first value) take position i.
   */
  method BackfillRun(values: seq<Key>, targets: seq<Key>, indexer: array<int>, i: nat, j0: int) returns (j: int)
    requires Sorted(values) && Sorted(targets) && indexer.Length == |targets|
    requires i < |values| && -1 <= j0 < |targets| && BackfillFilled(values, targets, indexer[..], j0)
    requires j0 >= 0 ==> Le(targets[j0], values[i])
    modifies indexer
    ensures -1 <= j <= j0 && BackfillFilled(values, targets, indexer[..], j)
    ensures i == 0 ==> j == -1
    ensures i > 0 && j >= 0 ==> Le(targets[j], values[i - 1])
  {
    var cur := values[i];
    j := j0;
    while j >= 0 && Le(targets[j], cur) && (i == 0 || Lt(values[i - 1], targets[j]))
      invariant -1 <= j <= j0 && BackfillFilled(values, targets, indexer[..], j)
      invariant j >= 0 ==> Le(targets[j], cur)
    {
      BackfillRefAt(values, targets[j], i);
      indexer[j] := i;
      if j > 0 {
        LeTrans(targets[j - 1], targets[j], cur);
      }
      j := j - 1;
    }
  }

  /**
   * `algos.pad(values, targets)` with no limit: one forward merge of the two
   * sorted arrays filling each target with the last position at or below it.
   */
  method Pad(values: seq<Key>, targets: seq<Key>) returns (indexer: array<int>)
    requires NonDecreasing(values) && NonDecreasing(targets)
    ensures fresh(indexer) && indexer.Length == |targets|
    ensures forall j :: 0 <= j < |targets| ==> indexer[j] == PadRef(values, targets[j])
  {
    var nleft, nright := |values|, |targets|;
    indexer := new int[nright](_ => -1);
    NonDecreasingIsSorted(values);
    NonDecreasingIsSorted(targets);
    if nleft == 0 || nright == 0 || Lt(targets[nright - 1], values[0]) {
      PadNothingBelow(values, targets, nright);
      return;
    }
    var j := 0;
    while j <= nright - 1 && Lt(targets[j], values[0])
      invariant 0 <= j <= nright
      invariant forall k :: 0 <= k < j ==> Lt(targets[k], values[0])
    {
      j := j + 1;
    }
    PadNothingBelow(values, targets, j);
    PadMerge(values, targets, indexer, j);
  }

  /** The main loop of `pad`: walk the values upward, filling the run of targets each one covers. */
  method PadMerge(values: seq<Key>, targets: seq<Key>, indexer: array<int>, j0: nat)
    requires Sorted(values) && Sorted(targets) && indexer.Length == |targets| && |values| > 0
    requires j0 <= |targets| && PadFilled(values, targets, indexer[..], j0)
    requires j0 < |targets| ==> Le(values[0], targets[j0])
    modifies indexer
    ensures PadFilled(values, targets, indexer[..], |targets|)
  {
    var nleft, nright := |values|, |targets|;
    var i, j := 0, j0;
    while true
      invariant 0 <= i < nleft && 0 <= j <= nright
      invariant PadFilled(values, targets, indexer[..], j)
      invariant j < nright ==> Le(values[i], targets[j])
      decreases nleft - i
    {
      if j == nright {
        break;
      }
      if i == nleft - 1 {
        j := PadRun(values, targets, indexer, i, j);
        break;
      }
      j := PadRun(values, targets, indexer, i, j);
      i := i + 1;
    }
  }

  /**
   * `algos.backfill(values, targets)` with no limit: one backward merge of
   * the two sorted arrays filling each target with the first position at or
   * above it.
   */
  method Backfill(values: seq<Key>, targets: seq<Key>) returns (indexer: array<int>)
    requires NonDecreasing(values) && NonDecreasing(targets)
    ensures fresh(indexer) && indexer.Length == |targets|
    ensures forall j :: 0 <= j < |targets| ==> indexer[j] == BackfillRef(values, targets[j])
  {
    var nleft, nright := |values|, |targets|;
    indexer := new int[nright](_ => -1);
    NonDecreasingIsSorted(values);
    NonDecreasingIsSorted(targets);
    if nleft == 0 || nright == 0 || Lt(values[nleft - 1], targets[0]) {
      BackfillNothingAbove(values, targets, -1);
      return;
    }
    var j := nright - 1;
    while j >= 0 && Lt(values[nleft - 1], targets[j])
      invariant -1 <= j < nright
      invariant forall k :: j < k < nright ==> Lt(values[nleft - 1], targets[k])
    {
      j := j - 1;
    }
    BackfillNothingAbove(values, targets, j);
    BackfillMerge(values, targets, indexer, j);
  }

  /** The main loop of `backfill`: walk the values downward, filling the run of targets each one covers. */
  method BackfillMerge(values: seq<Key>, targets: seq<Key>, indexer: array<int>, j0: int)
    requires Sorted(values) && Sorted(targets) && indexer.Length == |targets| && |values| > 0
    requires -1 <= j0 < |targets| && BackfillFilled(values, targets, indexer[..], j0)
    requires j0 >= 0 ==> Le(targets[j0], values[|values| - 1])
    modifies indexer
    ensures BackfillFilled(values, targets, indexer[..], -1)
  {
    var i, j := |values| - 1, j0;
    while true
      invariant 0 <= i < |values| && -1 <= j < |targets|
      invariant BackfillFilled(values, targets, indexer[..], j)
      invariant j >= 0 ==> Le(targets[j], values[i])
      decreases i
    {
      if j < 0 {
        break;
      }
      if i == 0 {
        j := BackfillRun(values, targets, indexer, i, j);
        break;
      }
      j := BackfillRun(values, targets, indexer, i, j);
      i := i - 1;
    }
  }
}
