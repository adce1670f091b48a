/**
 * Exact lookup: what `get_loc` answers for one key, a single position, a
 * contiguous slice or a boolean mask, depending on how the key array is
 * laid out.
 */
module Lookup {
  import opened Keys
  import opened Results
  import opened Analysis
  import opened Search

  /** The three shapes `get_loc` returns. */
  datatype Loc =
    | Position(pos: nat)                // an int
    | Slice(start: nat, stop: nat)      // slice(start, stop)
    | Mask(mask: seq<bool>)             // a boolean array as long as the index

  /**
   * `loc` picks out exactly the positions of `values` equal to `key`: a
   * position is the only occurrence, a slice and a mask cover two or more.
   */
  ghost predicate Denotes(values: seq<Key>, key: Key, loc: Loc) {
    match loc
    case Position(p) =>
      p < |values| && forall i :: 0 <= i < |values| ==> (values[i] == key <==> i == p)
    case Slice(a, b) =>
      a + 1 < b <= |values| && forall i :: 0 <= i < |values| ==> (values[i] == key <==> a <= i < b)
    case Mask(m) =>
      && |m| == |values|
      && (forall i :: 0 <= i < |m| ==> (m[i] <==> values[i] == key))
      && exists i, j :: 0 <= i < j < |m| && m[i] && m[j]
  }

  /** `_get_bool_indexer`: true exactly where the value equals the key. */
  function MaskOf(values: seq<Key>, key: Key): (m: seq<bool>)
    ensures |m| == |values|
    ensures forall i :: 0 <= i < |values| ==> (m[i] <==> values[i] == key)
  {
    seq(|values|, i requires 0 <= i < |values| => values[i] == key)
  }

  /** `np.where(mask)[0]`: the positions holding true, in increasing order. */
  function TruePositions(m: seq<bool>): (r: seq<nat>)
    ensures forall k :: 0 <= k < |r| ==> r[k] < |m| && m[r[k]]
    ensures forall i :: 0 <= i < |m| && m[i] ==> i in r
    ensures forall k, l :: 0 <= k < l < |r| ==> r[k] < r[l]
    decreases |m|
  {
    if |m| == 0 then []
    else TruePositions(m[..|m| - 1]) + (if m[|m| - 1] then [|m| - 1] else [])
  }

  /**
   * `_unpack_bool_indexer`: no hit is a KeyError, one hit its position, more
   * the mask itself; never a slice.
   */
  function UnpackBoolIndexer(m: seq<bool>): (r: Result<Loc>)
    ensures r.Err? <==> forall i :: 0 <= i < |m| ==> !m[i]
    ensures r.Err? ==> r.error == NotFound
    ensures r.Ok? ==> !r.value.Slice?
    ensures r.Ok? && r.value.Position? ==>
      r.value.pos < |m| && forall i :: 0 <= i < |m| ==> (m[i] <==> i == r.value.pos)
    ensures r.Ok? && r.value.Mask? ==>
      r.value.mask == m && exists i, j :: 0 <= i < j < |m| && m[i] && m[j]
  {
    var found := TruePositions(m);
    if |found| == 0 then
      Err(NotFound)
    else if |found| == 1 then
      Ok(Position(found[0]))
    else
      assert m[found[0]] && m[found[1]];
      Ok(Mask(m))
  }

  /** `r` is a correct `get_loc` answer: a KeyError exactly when the key is absent, else a picture of its occurrences. */
  ghost predicate Answers(values: seq<Key>, key: Key, r: Result<Loc>) {
    && (r.Err? <==> key !in values)
    && (r.Err? ==> r.error == NotFound)
    && (r.Ok? ==> Denotes(values, key, r.value))
  }

  /**
   * `_get_loc_duplicates`: on an array the monotonic check calls increasing
   * the run of equal keys is found with two binary searches; otherwise a
   * boolean mask is built. `timelike` marks a datetime or timedelta engine.
   * Either way the answer is correct, a slice only on an increasing array
   * and a mask only on one that is not.
   */
  function GetLocDuplicates(values: seq<Key>, key: Key, timelike: bool): (r: Result<Loc>)
    ensures Answers(values, key, r)
    ensures r.Ok? && r.value.Slice? ==> MonotonicIncreasing(values, timelike)
    ensures r.Ok? && r.value.Mask? ==> !MonotonicIncreasing(values, timelike)
  {
    if MonotonicIncreasing(values, timelike) then
      var left := BisectLeft(values, key);
      var right := BisectRight(values, key);
      RunBetweenBounds(values, key, left, right);
      if right - left == 0 then Err(NotFound)
      else if right - left == 1 then Ok(Position(left))
      else Ok(Slice(left, right))
    else
      UnpackBoolIndexer(MaskOf(values, key))
  }

  /**
   * `get_loc`: a unique array answers from its hash index; otherwise the key's
   * occurrences come back as a position, a slice (monotonic increasing) or a
   * mask. An absent key is always a KeyError.
   */
  function GetLoc(values: seq<Key>, key: Key, timelike: bool): (r: Result<Loc>)
    ensures r.Err? <==> key !in values
    ensures r.Err? ==> r.error == NotFound
    ensures r.Ok? ==> Denotes(values, key, r.value)
    ensures r.Ok? && r.value.Slice? ==> MonotonicIncreasing(values, timelike)
    ensures r.Ok? && r.value.Mask? ==> !MonotonicIncreasing(values, timelike)
  {
    if Distinct(values) then
      var p := LastIndexOf(values, key);
      if p >= 0 then Ok(Position(p)) else Err(NotFound)
    else
      GetLocDuplicates(values, key, timelike)
  }

  /** On an array without repeats, looking up the value at `k` gives `k`. */
  lemma UniqueGetLocExact(values: seq<Key>, k: nat, timelike: bool)
    requires Distinct(values) && k < |values|
    ensures GetLoc(values, values[k], timelike) == Ok(Position(k))
  {
    var p := LastIndexOf(values, values[k]);
    assert values[p] == values[k];
  }

  /** Between the two insertion points of a sorted array lie exactly the equal keys. */
  lemma RunBetweenBounds(values: seq<Key>, key: Key, left: int, right: int)
    requires IsLeftBound(values, key, left) && IsRightBound(values, key, right)
    ensures left <= right
    ensures forall i :: 0 <= i < |values| ==> (values[i] == key <==> left <= i < right)
    ensures left == right <==> key !in values
  {
    forall i | 0 <= i < |values|
      ensures values[i] == key <==> left <= i < right
    {
      LtFacts(values[i], key);
      LtFacts(key, values[i]);
      if left <= i < right {
        LeAntisym(values[i], key);
      }
    }
    if right < left {
      LtFacts(values[right], key);
    }
    if left < right {
      assert values[left] == key;
    }
  }

  /** `_get_bool_indexer`: one pass comparing every value with the key. */
  method BoolIndexer(values: seq<Key>, key: Key) returns (indexer: array<bool>)
    ensures fresh(indexer) && indexer[..] == MaskOf(values, key)
  {
    indexer := new bool[|values|];
    var i := 0;
    while i < |values|
      invariant 0 <= i <= |values|
      invariant forall k :: 0 <= k < i ==> indexer[k] == (values[k] == key)
    {
      indexer[i] := values[i] == key;
      i := i + 1;
    }
  }

  /** The hash index answers a lookup exactly as a scan for the last occurrence would. */
  lemma LocationMapAnswers(values: seq<Key>, m: map<Key, nat>, key: Key)
    requires IsLocationMap(values, m)
    ensures key in m <==> key in values
    ensures key in m ==> m[key] == LastIndexOf(values, key)
  {
    if key in m {
      var r := LastIndexOf(values, key);
    }
  }

  /**
   * On a sorted array without repeats, the left insertion point holds the
   * key exactly when the key is present, and is then its only position.
   */
  lemma SortedUniqueHit(values: seq<Key>, key: Key, loc: int)
    requires NonDecreasing(values) && Distinct(values) && IsLeftBound(values, key, loc)
    ensures (loc < |values| && values[loc] == key) <==> key in values
    ensures key in values ==> LastIndexOf(values, key) == loc
  {
    if key in values {
      var i :| 0 <= i < |values| && values[i] == key;
      LtFacts(values[i], key);
      assert loc <= i;
      NonDecreasingChain(values, loc, i);
      LeAntisym(values[loc], key);
      var r := LastIndexOf(values, key);
    }
  }
}
