/**
 * The index engine: one immutable key array with lazily computed, write-once
 * analysis caches (the hash index, `is_unique`, `is_monotonic_increasing`,
 * `is_monotonic_decreasing`) and the lookups built on them.
 */
module Engines {
  import opened Keys
  import opened Results
  import opened Analysis
  import opened Search
  import opened Lookup
  import opened Alignment

  /** Arrays at least this long are searched by bisection instead of through the hash index when sorted. */
  const SizeCutoff: nat := 1_000_000

  class Engine {
    /** The key array; never changes after construction. */
    const values: seq<Key>
    /** `n >= _SIZE_CUTOFF`, fixed at construction. */
    const overSizeThreshold: bool
    /** The object engine finds the left insertion point with `_bin_search`; the others with `searchsorted`. */
    const usesBinSearch: bool
    /** A datetime or timedelta engine, whose monotonic check treats NaT as breaking order. */
    const timelike: bool
    /** The hash index, once populated. */
    var mapping: Option<map<Key, nat>>
    var unique: Cached
    var monotonicInc: Cached
    var monotonicDec: Cached

    /** Every cache that is known holds the true answer for `values`. */
    ghost predicate Valid()
      reads this
    {
      && overSizeThreshold == (|values| >= SizeCutoff)
      && (mapping.Some? ==> IsLocationMap(values, mapping.value) && unique.Known?)
      && (unique.Known? ==> unique.value == Distinct(values))
      && (monotonicInc.Known? <==> monotonicDec.Known?)
      && (monotonicInc.Known? ==> monotonicInc.value == MonotonicIncreasing(values, timelike))
      && (monotonicDec.Known? ==> monotonicDec.value == MonotonicDecreasing(values, timelike))
    }

    /** A cache, once known, is never recomputed to a different answer or dropped. */
    twostate predicate WriteOnce()
      reads this
    {
      && (old(mapping).Some? ==> mapping == old(mapping))
      && (old(unique).Known? ==> unique == old(unique))
      && (old(monotonicInc).Known? ==> monotonicInc == old(monotonicInc))
      && (old(monotonicDec).Known? ==> monotonicDec == old(monotonicDec))
    }

    /** A fresh engine knows nothing yet about its array. */
    constructor(vals: seq<Key>, binSearch: bool, isTimelike: bool)
      ensures values == vals && usesBinSearch == binSearch && timelike == isTimelike && Valid()
      ensures mapping.None? && unique.Unknown? && monotonicInc.Unknown? && monotonicDec.Unknown?
    {
      values := vals;
      overSizeThreshold := |vals| >= SizeCutoff;
      usesBinSearch := binSearch;
      timelike := isTimelike;
      mapping := None;
      unique := Unknown;
      monotonicInc := Unknown;
      monotonicDec := Unknown;
    }

    /**
     * `_ensure_mapping_populated`: build the hash index once; its size
     * settles uniqueness.
     */
    method EnsureMappingPopulated()
      requires Valid()
      modifies this
      ensures Valid() && WriteOnce()
      ensures mapping.Some? && unique.Known?
      ensures monotonicInc == old(monotonicInc) && monotonicDec == old(monotonicDec)
    {
      if mapping.None? {
        var m := BuildMapping(values);
        mapping := Some(m);
        MappingSizeDecidesUnique(values, m);
        if |m| == |values| {
          unique := Known(true);
        } else {
          unique := Known(false);
        }
      }
    }

    /**
     * `_do_monotonic_check`: one pass settles both monotonic flags, and a
     * strictly monotonic array is recorded as unique without building the
     * hash index.
     */
    method DoMonotonicCheck()
      requires Valid()
      modifies this
      ensures Valid() && WriteOnce()
      ensures monotonicInc.Known? && monotonicDec.Known?
      ensures unique == if StrictlyMonotonic(values, timelike) then Known(true) else old(unique)
      ensures mapping == old(mapping)
    {
      var inc, dec, strict := IsMonotonic(values, timelike);
      monotonicInc := Known(inc);
      monotonicDec := Known(dec);
      if strict {
        StrictlyMonotonicIsDistinct(values, timelike);
        unique := Known(true);
      }
    }

    /** `is_unique`: true exactly when no value repeats. */
    method IsUnique() returns (b: bool)
      requires Valid()
      modifies this
      ensures Valid() && WriteOnce()
      ensures b == Distinct(values)
      ensures unique == Known(b)
      ensures monotonicInc == old(monotonicInc) && monotonicDec == old(monotonicDec)
    {
      if unique.Unknown? {
        EnsureMappingPopulated();
      }
      b := unique.value;
    }

    /** `is_monotonic_increasing`: every value is at most its successor (and, timelike, none is NaT). */
    method IsMonotonicIncreasing() returns (b: bool)
      requires Valid()
      modifies this
      ensures Valid() && WriteOnce()
      ensures b == MonotonicIncreasing(values, timelike)
      ensures monotonicInc == Known(b) && monotonicDec.Known?
      ensures unique == if old(monotonicInc).Unknown? && StrictlyMonotonic(values, timelike) then Known(true) else old(unique)
      ensures mapping == old(mapping)
    {
      if monotonicInc.Unknown? {
        DoMonotonicCheck();
      }
      b := monotonicInc.value;
    }

    /** `is_monotonic_decreasing`: every value is at least its successor (and, timelike, none is NaT). */
    method IsMonotonicDecreasing() returns (b: bool)
      requires Valid()
      modifies this
      ensures Valid() && WriteOnce()
      ensures b == MonotonicDecreasing(values, timelike)
      ensures monotonicDec == Known(b) && monotonicInc.Known?
      ensures unique == if old(monotonicDec).Unknown? && StrictlyMonotonic(values, timelike) then Known(true) else old(unique)
      ensures mapping == old(mapping)
    {
      if monotonicDec.Unknown? {
        DoMonotonicCheck();
      }
      b := monotonicDec.value;
    }

    /** `__contains__`: membership through the hash index. */
    method Contains(key: Key) returns (b: bool)
      requires Valid()
      modifies this
      ensures Valid() && WriteOnce()
      ensures b == (key in values)
    {
      EnsureMappingPopulated();
      b := key in mapping.value;
    }

    /** `_get_loc_duplicates`: two binary searches on a sorted array, a boolean mask otherwise. */
    method GetLocDuplicates(key: Key) returns (r: Result<Loc>)
      requires Valid()
      modifies this
      ensures Valid() && WriteOnce()
      ensures r == Lookup.GetLocDuplicates(values, key, timelike)
    {
      var inc := IsMonotonicIncreasing();
      if inc {
        var left := BisectLeft(values, key);
        var right := BisectRight(values, key);
        var diff := right as int - left as int;
        if diff == 0 {
          r := Err(NotFound);
        } else if diff == 1 {
          r := Ok(Position(left));
        } else {
          r := Ok(Slice(left, right));
        }
      } else {
        var indexer := BoolIndexer(values, key);
        r := UnpackBoolIndexer(indexer[..]);
      }
    }

    /**
     * `get_loc`: a large sorted array is searched by bisection, anything
     * else goes through the hash index; duplicates are handed to
     * `_get_loc_duplicates`. Whichever path is taken, the answer is the
     * one `Lookup.GetLoc` describes.
     */
    method GetLoc(key: Key) returns (r: Result<Loc>)
      requires Valid()
      modifies this
      ensures Valid() && WriteOnce()
      ensures r == Lookup.GetLoc(values, key, timelike)
    {
      if overSizeThreshold {
        var inc := IsMonotonicIncreasing();
        if inc {
          var u := IsUnique();
          if !u {
            r := GetLocDuplicates(key);
            return;
          }
          var loc: nat;
          if usesBinSearch {
            loc := BinSearch(values, key);
          } else {
            loc := BisectLeft(values, key);
          }
          SortedUniqueHit(values, key, loc);
          if loc >= |values| || values[loc] != key {
            r := Err(NotFound);
          } else {
            r := Ok(Position(loc));
          }
          return;
        }
      }
      EnsureMappingPopulated();
      if !unique.value {
        r := GetLocDuplicates(key);
        return;
      }
      LocationMapAnswers(values, mapping.value, key);
      if key in mapping.value {
        r := Ok(Position(mapping.value[key]));
      } else {
        r := Err(NotFound);
      }
    }

    /** `get_pad_indexer`: `algos.pad` of the engine's values against the targets. */
    method GetPadIndexer(targets: seq<Key>) returns (indexer: array<int>)
      requires NonDecreasing(values) && NonDecreasing(targets)
      ensures fresh(indexer) && indexer.Length == |targets|
      ensures forall j :: 0 <= j < |targets| ==> indexer[j] == PadRef(values, targets[j])
    {
      indexer := Pad(values, targets);
    }

    /** `get_backfill_indexer`: `algos.backfill` of the engine's values against the targets. */
    method GetBackfillIndexer(targets: seq<Key>) returns (indexer: array<int>)
      requires NonDecreasing(values) && NonDecreasing(targets)
      ensures fresh(indexer) && indexer.Length == |targets|
      ensures forall j :: 0 <= j < |targets| ==> indexer[j] == BackfillRef(values, targets[j])
    {
      indexer := Backfill(values, targets);
    }
  }
}
