/**
 * Binary search over a sorted key array: numpy's `searchsorted` with side
 * "left" and "right", and the engine's own `_bin_search` used on large
 * monotonic arrays.
 */
module Search {
  import opened Keys

  /** `i` is the left insertion point of `x`: everything before it is smaller, nothing from it on is. */
  ghost predicate IsLeftBound(s: seq<Key>, x: Key, i: int) {
    && 0 <= i <= |s|
    && (forall j :: 0 <= j < i ==> Lt(s[j], x))
    && (forall j :: i <= j < |s| ==> Le(x, s[j]))
  }

  /** `i` is the right insertion point of `x`: nothing before it is larger, everything from it on is. */
  ghost predicate IsRightBound(s: seq<Key>, x: Key, i: int) {
    && 0 <= i <= |s|
    && (forall j :: 0 <= j < i ==> Le(s[j], x))
    && (forall j :: i <= j < |s| ==> Lt(x, s[j]))
  }

  lemma LeftBoundUnique(s: seq<Key>, x: Key, i: int, k: int)
    requires IsLeftBound(s, x, i) && IsLeftBound(s, x, k)
    ensures i == k
  {
    var m := if i < k then i else k;
    if m < |s| {
      assert Lt(s[m], x) <==> m < i;
      assert Lt(s[m], x) <==> m < k;
    }
  }

  lemma RightBoundUnique(s: seq<Key>, x: Key, i: int, k: int)
    requires IsRightBound(s, x, i) && IsRightBound(s, x, k)
    ensures i == k
  {
    var m := if i < k then i else k;
    if m < |s| {
      assert Le(s[m], x) <==> m < i;
      assert Le(s[m], x) <==> m < k;
    }
  }

  /** Everything up to a position below `x` is below `x`. */
  lemma BelowUpTo(s: seq<Key>, x: Key, mid: nat)
    requires Sorted(s) && mid < |s|
    ensures Lt(s[mid], x) ==> forall j :: 0 <= j <= mid ==> Lt(s[j], x)
    ensures Le(s[mid], x) ==> forall j :: 0 <= j <= mid ==> Le(s[j], x)
  {
    forall j | 0 <= j <= mid
      ensures Lt(s[mid], x) ==> Lt(s[j], x)
      ensures Le(s[mid], x) ==> Le(s[j], x)
    {
      if Le(x, s[j]) {
        LeTrans(x, s[j], s[mid]);
      }
      if Le(s[mid], x) {
        LeTrans(s[j], s[mid], x);
      }
    }
  }

  /** Everything from a position above `x` on is above `x`. */
  lemma AboveFrom(s: seq<Key>, x: Key, mid: nat)
    requires Sorted(s) && mid < |s|
    ensures Le(x, s[mid]) ==> forall j :: mid <= j < |s| ==> Le(x, s[j])
    ensures Lt(x, s[mid]) ==> forall j :: mid <= j < |s| ==> Lt(x, s[j])
  {
    forall j | mid <= j < |s|
      ensures Le(x, s[mid]) ==> Le(x, s[j])
      ensures Lt(x, s[mid]) ==> Lt(x, s[j])
    {
      if Le(x, s[mid]) {
        LeTrans(x, s[mid], s[j]);
      }
      if Le(s[j], x) {
        LeTrans(s[mid], s[j], x);
      }
    }
  }

  /** The run of a key in a non-decreasing array starts at its left insertion point and ends at its right one. */
  lemma RunIsBounds(values: seq<Key>, key: Key, a: nat, b: nat)
    requires NonDecreasing(values) && a < b <= |values|
    requires forall i :: 0 <= i < |values| ==> (values[i] == key <==> a <= i < b)
    ensures IsLeftBound(values, key, a) && IsRightBound(values, key, b)
  {
    assert values[a] == key;
    forall j | 0 <= j < |values|
      ensures j < a ==> Lt(values[j], key)
      ensures a <= j ==> Le(key, values[j])
      ensures j < b ==> Le(values[j], key)
      ensures b <= j ==> Lt(key, values[j])
    {
      LeRefl(key);
      if j < a {
        NonDecreasingChain(values, j, a);
        if Le(key, values[j]) {
          LeAntisym(key, values[j]);
        }
      }
      if b <= j {
        NonDecreasingChain(values, a, j);
        if Le(values[j], key) {
          LeAntisym(key, values[j]);
        }
      }
    }
  }

  /** Left search between `lo` and `hi`, the positions outside already classified. */
  function BisectLeftIn(s: seq<Key>, x: Key, lo: nat, hi: nat): (r: nat)
    requires Sorted(s) && lo <= hi <= |s|
    requires forall j :: 0 <= j < lo ==> Lt(s[j], x)
    requires forall j :: hi <= j < |s| ==> Le(x, s[j])
    ensures lo <= r <= hi && IsLeftBound(s, x, r)
    decreases hi - lo
  {
    if lo == hi then lo
    else
      var mid := (lo + hi) / 2;
      BelowUpTo(s, x, mid);
      AboveFrom(s, x, mid);
      if Lt(s[mid], x) then BisectLeftIn(s, x, mid + 1, hi) else BisectLeftIn(s, x, lo, mid)
  }

  /** Right search between `lo` and `hi`, the positions outside already classified. */
  function BisectRightIn(s: seq<Key>, x: Key, lo: nat, hi: nat): (r: nat)
    requires Sorted(s) && lo <= hi <= |s|
    requires forall j :: 0 <= j < lo ==> Le(s[j], x)
    requires forall j :: hi <= j < |s| ==> Lt(x, s[j])
    ensures lo <= r <= hi && IsRightBound(s, x, r)
    decreases hi - lo
  {
    if lo == hi then lo
    else
      var mid := (lo + hi) / 2;
      BelowUpTo(s, x, mid);
      AboveFrom(s, x, mid);
      if Le(s[mid], x) then BisectRightIn(s, x, mid + 1, hi) else BisectRightIn(s, x, lo, mid)
  }

  /** `searchsorted(x, side="left")` on a non-decreasing array. */
  function BisectLeft(s: seq<Key>, x: Key): (r: nat)
    requires NonDecreasing(s)
    ensures IsLeftBound(s, x, r)
  {
    NonDecreasingIsSorted(s);
    BisectLeftIn(s, x, 0, |s|)
  }

  /** `searchsorted(x, side="right")` on a non-decreasing array. */
  function BisectRight(s: seq<Key>, x: Key): (r: nat)
    requires NonDecreasing(s)
    ensures IsRightBound(s, x, r)
  {
    NonDecreasingIsSorted(s);
    BisectRightIn(s, x, 0, |s|)
  }

  /**
   * The engine's `_bin_search`, used by `get_loc` on monotonic arrays at or
   * above the size cutoff. On two or more elements it finds the left
   * insertion point, walking back over equal neighbours on a hit. Its first
   * test returns the length for a one-element array whatever the key; the
   * cutoff keeps such arrays away from it.
   */
  method BinSearch(values: seq<Key>, val: Key) returns (r: nat)
    requires NonDecreasing(values) && |values| >= 1
    ensures |values| == 1 ==> r == 1
    ensures |values| >= 2 ==> IsLeftBound(values, val, r)
  {
    NonDecreasingIsSorted(values);
    var lo, hi := 0, |values| - 1;
    if hi == 0 || Lt(values[hi], val) {
      AboveFrom(values, val, hi);
      BelowUpTo(values, val, hi);
      return |values|;
    }
    AboveFrom(values, val, hi);
    var mid := 0;
    while lo < hi
      invariant 0 <= lo <= hi < |values| && 0 <= mid < |values|
      invariant forall j :: 0 <= j < lo ==> Lt(values[j], val)
      invariant forall j :: hi <= j < |values| ==> Le(val, values[j])
      invariant lo == hi ==> (Le(val, values[mid]) ==> mid == lo) && (!Le(val, values[mid]) ==> mid + 1 == lo)
    {
      mid := (lo + hi) / 2;
      var pval := values[mid];
      LtFacts(val, pval);
      BelowUpTo(values, val, mid);
      AboveFrom(values, val, mid);
      if Lt(val, pval) {
        hi := mid;
      } else if Lt(pval, val) {
        lo := mid + 1;
      } else {
        while mid > 0 && val == values[mid - 1]
          invariant 0 <= mid < |values| && values[mid] == val
          invariant forall j :: mid <= j < |values| ==> Le(val, values[j])
        {
          mid := mid - 1;
        }
        if mid > 0 {
          LtFacts(val, values[mid - 1]);
          BelowUpTo(values, val, mid - 1);
        }
        return mid;
      }
    }
    if Le(val, values[mid]) {
      r := mid;
    } else {
      r := mid + 1;
    }
  }
}
