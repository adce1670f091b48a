/**
 * The monotonicity/uniqueness analyzer and the hash index: the single pass
 * that decides `is_monotonic_increasing` / `is_monotonic_decreasing`, and the
 * value -> position mapping whose size decides `is_unique`.
 */
module Analysis {
  import opened Keys

  /** No value repeats. */
  predicate Distinct(s: seq<Key>) {
    forall i, j :: 0 <= i < j < |s| ==> s[i] != s[j]
  }

  /** No two neighbours are equal. */
  ghost predicate AdjacentDistinct(s: seq<Key>) {
    forall i :: 0 < i < |s| ==> s[i - 1] != s[i]
  }

  /** The set of values held. */
  ghost function Elements(s: seq<Key>): set<Key> {
    set k | k in s
  }

  /**
   * What the monotonic check's third result promises: at most one element,
   * or monotonic (as the check sees it) with no two equal neighbours.
   */
  ghost predicate StrictlyMonotonic(s: seq<Key>, timelike: bool) {
    |s| <= 1 || ((MonotonicIncreasing(s, timelike) || MonotonicDecreasing(s, timelike)) && AdjacentDistinct(s))
  }

  /**
   * `algos.is_monotonic(values, timelike)`: one scan that stops as soon as the
   * array is known to be neither increasing nor decreasing, or, on a
   * datetime or timedelta array, at the first NaT. The third result is
   * "strictly monotonic", the only case in which the pass proves uniqueness.
   */
  method IsMonotonic(values: seq<Key>, timelike: bool) returns (inc: bool, dec: bool, strict: bool)
    ensures inc == MonotonicIncreasing(values, timelike)
    ensures dec == MonotonicDecreasing(values, timelike)
    ensures strict == StrictlyMonotonic(values, timelike)
  {
    var n := |values|;
    if n == 1 && timelike && values[0] == Int(NaTValue) {
      return false, false, true;
    }
    if n < 2 {
      return true, true, true;
    }
    if timelike && values[0] == Int(NaTValue) {
      return false, false, false;
    }
    inc, dec := true, true;
    var unique := true;
    var prev := values[0];
    var i := 1;
    assert values[..1] == [values[0]];
    while i < n && (inc || dec)
      invariant 1 <= i <= n
      invariant prev == values[i - 1]
      invariant inc == MonotonicIncreasing(values[..i], timelike)
      invariant dec == MonotonicDecreasing(values[..i], timelike)
      invariant (inc || dec) ==> unique == AdjacentDistinct(values[..i])
    {
      var cur := values[i];
      PrefixStep(values, i);
      LtFacts(cur, prev);
      if timelike && cur == Int(NaTValue) {
        inc, dec := false, false;
      } else if Lt(cur, prev) {
        inc := false;
      } else if Lt(prev, cur) {
        dec := false;
      } else {
        unique := false;
      }
      prev := cur;
      i := i + 1;
    }
    if i < n {
      PrefixOrder(values, i);
    } else {
      assert values[..i] == values;
    }
    strict := unique && (inc || dec);
  }

  /** Extending a prefix by one element keeps each property exactly when the new neighbour pair has it. */
  lemma PrefixStep(s: seq<Key>, i: nat)
    requires 0 < i < |s|
    ensures NonDecreasing(s[..i + 1]) == (NonDecreasing(s[..i]) && Le(s[i - 1], s[i]))
    ensures NonIncreasing(s[..i + 1]) == (NonIncreasing(s[..i]) && Le(s[i], s[i - 1]))
    ensures AdjacentDistinct(s[..i + 1]) == (AdjacentDistinct(s[..i]) && s[i - 1] != s[i])
    ensures HasNaT(s[..i + 1]) == (HasNaT(s[..i]) || s[i] == Int(NaTValue))
  {
    assert s[..i + 1] == s[..i] + [s[i]];
  }

  /** An array is no more ordered, and holds no fewer NaTs, than any of its prefixes. */
  lemma PrefixOrder(s: seq<Key>, i: nat)
    requires i <= |s|
    ensures NonDecreasing(s) ==> NonDecreasing(s[..i])
    ensures NonIncreasing(s) ==> NonIncreasing(s[..i])
    ensures HasNaT(s[..i]) ==> HasNaT(s)
  {
    if HasNaT(s[..i]) {
      var k :| 0 <= k < i && s[..i][k] == Int(NaTValue);
      assert s[k] == Int(NaTValue);
    }
  }

  /**
   * What pandas' `is_monotonic` reports as its third ("strict") result: on a
   * timelike array of two or more values whose first value is NaT it returns
   * early with the flag set, whatever the rest holds.
   */
  ghost predicate StrictAsWritten(s: seq<Key>, timelike: bool) {
    (|s| >= 2 && timelike && s[0] == Int(NaTValue)) || StrictlyMonotonic(s, timelike)
  }

  /**
   * The monotonic pass as pandas writes it: the same flags as `IsMonotonic`,
   * except that a leading NaT on a timelike array of two or more values
   * reports the array as strictly monotonic.
   */
  method IsMonotonicAsWritten(values: seq<Key>, timelike: bool) returns (inc: bool, dec: bool, strict: bool)
    ensures inc == MonotonicIncreasing(values, timelike)
    ensures dec == MonotonicDecreasing(values, timelike)
    ensures strict == StrictAsWritten(values, timelike)
  {
    if |values| >= 2 && timelike && values[0] == Int(NaTValue) {
      assert HasNaT(values);
      return false, false, true;
    }
    inc, dec, strict := IsMonotonic(values, timelike);
  }

  /**
   * The as-written pass is wrong about uniqueness: `[NaT, NaT]` on a
   * timelike array is reported strictly monotonic although it repeats a
   * value, so recording it as unique breaks `is_unique`.
   */
  lemma LeadingNaTReportedStrict()
    ensures StrictAsWritten([Int(NaTValue), Int(NaTValue)], true)
    ensures !Distinct([Int(NaTValue), Int(NaTValue)])
    ensures !StrictlyMonotonic([Int(NaTValue), Int(NaTValue)], true)
  {
    var s := [Int(NaTValue), Int(NaTValue)];
    assert s[0] == s[1];
    assert HasNaT(s) by { assert s[0] == Int(NaTValue); }
  }

  /** A strictly monotonic array is duplicate-free: why the pass may set `unique`. */
  lemma StrictlyMonotonicIsDistinct(s: seq<Key>, timelike: bool)
    requires StrictlyMonotonic(s, timelike)
    ensures Distinct(s)
  {
    forall i, j | 0 <= i < j < |s|
      ensures s[i] != s[j]
    {
      if NonDecreasing(s) {
        NonDecreasingChain(s, i, j - 1);
        if s[i] == s[j] {
          LeAntisym(s[j - 1], s[j]);
        }
      } else {
        NonIncreasingChain(s, i, j - 1);
        if s[i] == s[j] {
          LeAntisym(s[j - 1], s[j]);
        }
      }
    }
  }

  /**
   * `m` is the hash index of `values`: it holds exactly the values present,
   * each mapped to the last position holding it (a later occurrence
   * overwrites an earlier one).
   */
  ghost predicate IsLocationMap(values: seq<Key>, m: map<Key, nat>) {
    && (forall k :: k in m <==> k in values)
    && (forall k :: k in m ==>
          && m[k] < |values|
          && values[m[k]] == k
          && forall j :: m[k] < j < |values| ==> values[j] != k)
  }

  /** `map_locations`: one pass inserting every value with its position. */
  method BuildMapping(values: seq<Key>) returns (m: map<Key, nat>)
    ensures IsLocationMap(values, m)
  {
    m := map[];
    var i := 0;
    while i < |values|
      invariant 0 <= i <= |values|
      invariant IsLocationMap(values[..i], m)
    {
      assert values[..i + 1] == values[..i] + [values[i]];
      m := m[values[i] := i];
      i := i + 1;
    }
    assert values[..i] == values;
  }

  /** A value set is never larger than the array, and as large exactly when nothing repeats. */
  lemma {:induction false} DistinctIffAllElements(s: seq<Key>)
    ensures |Elements(s)| <= |s|
    ensures |Elements(s)| == |s| <==> Distinct(s)
    decreases |s|
  {
    if |s| > 0 {
      var t, x := s[..|s| - 1], s[|s| - 1];
      assert s == t + [x];
      DistinctIffAllElements(t);
      DistinctSnoc(t, x);
      assert Elements(s) == Elements(t) + {x};
      if x in t {
        assert Elements(s) == Elements(t);
      } else {
        assert |Elements(s)| == |Elements(t)| + 1;
      }
    }
  }

  /** Appending a value keeps the array duplicate-free exactly when the value is new. */
  lemma DistinctSnoc(t: seq<Key>, x: Key)
    ensures Distinct(t + [x]) <==> Distinct(t) && x !in t
  {
    var s := t + [x];
    if Distinct(s) {
      forall i, j | 0 <= i < j < |t| ensures t[i] != t[j] {
        assert s[i] == t[i] && s[j] == t[j];
      }
      forall k | 0 <= k < |t| ensures t[k] != x {
        assert s[k] == t[k] && s[|t|] == x;
      }
    }
    if Distinct(t) && x !in t {
      forall i, j | 0 <= i < j < |s| ensures s[i] != s[j] {
        if j == |t| {
          assert s[i] == t[i];
        } else {
          assert s[i] == t[i] && s[j] == t[j];
        }
      }
    }
  }

  /** The unique check: the hash index has one entry per position exactly when nothing repeats. */
  lemma MappingSizeDecidesUnique(values: seq<Key>, m: map<Key, nat>)
    requires IsLocationMap(values, m)
    ensures |m| == |values| <==> Distinct(values)
  {
    assert m.Keys == Elements(values);
    DistinctIffAllElements(values);
  }

  /** The last position holding `x`, or -1. */
  function LastIndexOf(s: seq<Key>, x: Key): (r: int)
    ensures -1 <= r < |s|
    ensures r == -1 <==> x !in s
    ensures r >= 0 ==> s[r] == x && forall j :: r < j < |s| ==> s[j] != x
    decreases |s|
  {
    if |s| == 0 then -1
    else if s[|s| - 1] == x then |s| - 1
    else LastIndexOf(s[..|s| - 1], x)
  }
}
