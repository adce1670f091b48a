# pandas index engine, modelled in Dafny

This project models the lookup engine behind a pandas `Index`
(`libindex.ObjectEngine`, the numeric engines, `DatetimeEngine` and
`TimedeltaEngine`). It also models the index-level helpers built on that
engine.

An engine holds one immutable key array. It fills four caches lazily, and
each is written at most once:

- the hash index (a key → position map);
- `is_unique`;
- `is_monotonic_increasing`;
- `is_monotonic_decreasing`.

On these it answers the following operations:

- `get_loc`: one position, a slice or a boolean mask.
- `__contains__`.
- `get_pad_indexer` and `get_backfill_indexer`: the two-pointer merges `algos.pad` and `algos.backfill`.

The datetime and timedelta engines put a kind guard in front of the integer
engine. Only their own pandas scalar, or NaT, is unboxed to a nanosecond
count. Any other kind makes `in` a TypeError and `get_loc` a KeyError.

Two index-level helpers are modelled:

- `Index.get_slice_bound`: the side check, the mapping from the `get_loc` shapes to a bound, and the searchsorted fallback for absent labels on a monotonic index.
- `Index.get_indexer_non_unique`: the positions and the missing targets, as the engine computes them. An index and targets of different kinds (strings against integers) meet as object arrays and go through the same engine scan, which matches nothing; a lemma proves that answer is "all -1, every target missing".

## Layout

| module | file | content |
|---|---|---|
| `Results` | `results.dfy` | `Result`/`Error` (KeyError, TypeError, ValueError), `Option`, `Cached` |
| `Keys` | `keys.dfy` | keys (integers and strings), their total order, monotonicity |
| `Analysis` | `analysis.dfy` | `is_monotonic` as one loop, uniqueness, the hash index |
| `Search` | `search.dfy` | insertion points (`searchsorted`) and the object engine's `_bin_search` |
| `Lookup` | `lookup.dfy` | the shapes `get_loc` returns and what they must denote |
| `Alignment` | `alignment.dfy` | `pad`/`backfill` as in-place merges, each against a per-target reference |
| `Engines` | `engine.dfy` | the `Engine` class: write-once caches and the engine methods |
| `Temporal` | `temporal.dfy` | the datetime and timedelta kind guard and `TemporalEngine` |
| `Indexes` | `indexops.dfy` | `get_slice_bound` and `get_indexer_non_unique` |
| `Scenarios` | `scenarios.dfy` | the concrete arrays the tests exercise, with their answers proved |

Every stateful `Engine` method keeps `Valid()`: every known cache holds
the true answer for the array. Each one also keeps `WriteOnce()`: a known
cache is never changed or dropped. Each query method ties its result to a
specification function on the key array. Properties are proved about those
functions.

## Model

| member | source | states |
|---|---|---|
| Temporal.Unbox | pandas/tests/indexes/test_engines.py:44-57 | the count is unboxed exactly for the engine's own scalar kind or NaT; every other kind (even one denoting the same instant) is a TypeError; NaT becomes the smallest 64-bit integer |
| Temporal.RefusedKindGuard | pandas/tests/indexes/test_engines.py:52-57 | for a refused scalar, `in` is a TypeError and `get_loc` a KeyError, whether the array is unique or not, sorted or not, small or over the size threshold |
| Temporal.ContainsIffGetLoc | pandas/tests/indexes/test_engines.py:84-89 | for an accepted scalar, `in` raises nothing; it is true exactly when the count is stored, which is exactly when `get_loc` succeeds |
| Temporal.TestedScalarsRefused | pandas/tests/indexes/test_engines.py:35-75 | the tested scalars are all refused: the other kind, a raw integer, the Python object, the numpy scalar (for both engines) |
| Temporal.TemporalEngine.constructor | pandas/tests/indexes/test_engines.py:77-81 | a temporal engine wraps a fresh, valid, timelike integer engine over the nanosecond counts |
| Temporal.TemporalEngine.GetLoc | pandas/tests/indexes/test_engines.py:56-57 | the answer is the guarded specification: a refused kind is a KeyError, otherwise the integer engine's `get_loc`; caches stay valid and write-once |
| Temporal.TemporalEngine.Contains | pandas/tests/indexes/test_engines.py:53-54 | the answer is the guarded specification: a refused kind is a TypeError, otherwise whether `get_loc` finds the count |
| Engines.Engine.constructor | pandas/tests/indexes/test_engines.py:99 | a new engine holds the given array, with every cache unknown and the size threshold fixed |
| Engines.Engine.EnsureMappingPopulated | pandas/tests/indexes/test_engines.py:114-125 | afterwards the hash index is a correct location map and uniqueness is known; the monotonic caches are untouched |
| Engines.Engine.DoMonotonicCheck | pandas/tests/indexes/test_engines.py:93-112 | afterwards both monotonic flags are known and correct; `unique` becomes known-true when the pass finds the array strictly monotonic (or of length at most one) and is otherwise left as it was; the hash index is untouched |
| Engines.Engine.IsUnique | pandas/tests/indexes/test_engines.py:114-125 | the answer is true exactly when no value repeats, and it is cached |
| Engines.Engine.IsMonotonicIncreasing | pandas/tests/indexes/test_engines.py:98-101 | the answer is true exactly when every value is at most its successor and, on a datetime or timedelta engine, no value is NaT; it is cached; when it was not yet known, the monotonic check runs and records `unique` as true for a strictly monotonic array, otherwise `unique` is unchanged |
| Engines.Engine.IsMonotonicDecreasing | pandas/tests/indexes/test_engines.py:103-106 | the answer is true exactly when every value is at least its successor and, on a datetime or timedelta engine, no value is NaT; it is cached; when it was not yet known, the monotonic check runs and records `unique` as true for a strictly monotonic array, otherwise `unique` is unchanged |
| Engines.Engine.Contains | pandas/tests/indexes/test_engines.py:53-54 | `key in engine` is true exactly when the key occurs in the array |
| Engines.Engine.GetLocDuplicates | pandas/tests/indexes/test_engines.py:135-146 | two binary searches when the engine reports increasing, a mask otherwise; the answer equals `Lookup.GetLocDuplicates` |
| Engines.Engine.GetLoc | pandas/tests/indexes/test_engines.py:127-146 | on every path (bisection over the size threshold, by `_bin_search` or `searchsorted`; the hash index; the duplicates path) the answer equals `Lookup.GetLoc` |
| Engines.Engine.GetPadIndexer | pandas/tests/indexes/test_engines.py:160-170 | each target gets the last position whose value is at most the target, or -1 |
| Engines.Engine.GetBackfillIndexer | pandas/tests/indexes/test_engines.py:148-158 | each target gets the first position whose value is at least the target, or -1 |
| Analysis.IsMonotonic | pandas/tests/indexes/test_engines.py:93-112 | one pass decides increasing, decreasing (on a timelike array, any NaT makes both false) and strictly monotonic (monotonic with no equal neighbours, or at most one element) |
| Analysis.StrictlyMonotonicIsDistinct | pandas/tests/indexes/test_engines.py:114-125 | whatever the pass reports as strictly monotonic has no repeated value, so the monotonic check may settle uniqueness |
| Analysis.IsMonotonicAsWritten | pandas/tests/indexes/test_engines.py:45-46 | the pass with pandas' early return: the same two flags, but a timelike array of two or more values starting with NaT is reported strictly monotonic |
| Analysis.LeadingNaTReportedStrict | pandas/tests/indexes/test_engines.py:45-46 | that early return reports `[NaT, NaT]` strictly monotonic although it repeats a value; the corrected pass does not |
| Analysis.BuildMapping | pandas/tests/indexes/test_engines.py:114-125 | the hash index maps exactly the stored keys, each to its last position |
| Analysis.DistinctIffAllElements | pandas/tests/indexes/test_engines.py:114-125 | there are at most as many distinct values as positions, with equality exactly when no value repeats |
| Analysis.MappingSizeDecidesUnique | pandas/tests/indexes/test_engines.py:118-125 | the hash index has one entry per position exactly when the array is unique |
| Analysis.LastIndexOf | pandas/tests/indexes/test_engines.py:131-133 | the last position holding the key, or -1 exactly when the key is absent |
| Keys.Reverse | pandas/tests/indexes/test_engines.py:104 | `arr[::-1]`: as long as the array, position i holding the element at the mirrored position |
| Keys.ReverseInvolutive | pandas/tests/indexes/test_engines.py:104 | reversing twice gives the array back |
| Keys.ReverseFlipsOrder | pandas/tests/indexes/test_engines.py:103-106 | reversing an array turns non-decreasing into non-increasing and back |
| Search.BisectLeft | pandas/tests/indexes/test_engines.py:135-139 | on a non-decreasing array: everything before the result is below the key, everything from it on is at or above it |
| Search.BisectRight | pandas/tests/indexes/test_engines.py:135-139 | on a non-decreasing array: everything before the result is at or below the key, everything from it on is above it |
| Search.RunIsBounds | pandas/tests/indexes/test_engines.py:135-139 | on a non-decreasing array, the ends of the key's run are its left and right insertion points |
| Search.BinSearch | pandas/tests/indexes/base_class/test_indexing.py:42-58 | on a sorted array of two or more, `_bin_search` returns the left insertion point; on one element it returns 1 whatever the key |
| Lookup.MaskOf | pandas/tests/indexes/test_engines.py:141-146 | the boolean indexer is as long as the array and true exactly where the value equals the key |
| Lookup.TruePositions | pandas/tests/indexes/test_engines.py:141-146 | the true positions of a mask, all of them, strictly increasing |
| Lookup.UnpackBoolIndexer | pandas/tests/indexes/test_engines.py:141-146 | a KeyError exactly when the mask has no true entry; a position exactly the one true entry; otherwise the mask itself, with two or more true entries; never a slice |
| Lookup.GetLocDuplicates | pandas/tests/indexes/test_engines.py:135-146 | the answer is correct (KeyError exactly when absent, else exactly the key's positions); a slice only when the engine reports increasing, a mask only when it does not |
| Lookup.GetLoc | pandas/tests/indexes/test_engines.py:127-146 | a KeyError exactly when the key is absent; otherwise a position (its only occurrence), a slice (two or more occurrences, only when the engine reports increasing) or a mask (two or more occurrences, only when it does not), picking out exactly the key's positions |
| Lookup.UniqueGetLocExact | pandas/tests/indexes/test_engines.py:130-133 | on a unique array, looking up the value at `k` gives position `k` |
| Lookup.RunBetweenBounds | pandas/tests/indexes/test_engines.py:135-139 | between the two insertion points lie exactly the positions equal to the key; they coincide exactly when the key is absent |
| Lookup.BoolIndexer | pandas/tests/indexes/test_engines.py:141-146 | the loop fills a fresh array with exactly the boolean indexer |
| Lookup.LocationMapAnswers | pandas/tests/indexes/test_engines.py:130-133 | the hash index holds a key exactly when the array does, at its last position |
| Lookup.SortedUniqueHit | pandas/tests/indexes/base_class/test_indexing.py:54-58 | on a sorted unique array, the left insertion point holds the key exactly when it is present, and is then its position |
| Alignment.PadRef | pandas/tests/indexes/test_engines.py:160-170 | the last position whose value is at most the target; -1 when there is none |
| Alignment.BackfillRef | pandas/tests/indexes/test_engines.py:148-158 | the first position whose value is at least the target; -1 when there is none |
| Alignment.PadRefAt | pandas/tests/indexes/test_engines.py:160-170 | on a sorted array, a target in [s[i], s[i+1]) pads to i |
| Alignment.PadRefBelowFirst | pandas/tests/indexes/test_engines.py:160-170 | on a sorted array, a target below the first value pads to -1 |
| Alignment.BackfillRefAt | pandas/tests/indexes/test_engines.py:148-158 | on a sorted array, a target in (s[i-1], s[i]] backfills to i |
| Alignment.BackfillRefAboveLast | pandas/tests/indexes/test_engines.py:148-158 | on a sorted array, a target above the last value backfills to -1 |
| Alignment.Pad | pandas/tests/indexes/test_engines.py:166-170 | the forward merge fills a fresh indexer so that each target gets its reference pad position |
| Alignment.Backfill | pandas/tests/indexes/test_engines.py:154-158 | the backward merge fills a fresh indexer so that each target gets its reference backfill position |
| Indexes.MaybeBooleansToSlice | pandas/tests/indexes/base_class/test_indexing.py:9-16 | None exactly when a false entry lies between two true ones; otherwise a range within the mask that is true exactly inside it |
| Indexes.SearchsortedMonotonic | pandas/tests/indexes/base_class/test_indexing.py:18-27 | a ValueError exactly when the index is neither increasing nor decreasing; on an increasing index the left or right insertion point; on a decreasing one the mirrored point: before it everything is above the label (left) or at or above it (right), from it on everything is at or below it (left) or below it (right) |
| Indexes.GetSliceBound | pandas/tests/indexes/base_class/test_indexing.py:29-31 | a side other than left/right is a ValueError; any other failure is a KeyError; a bound lies within the array |
| Indexes.SortedSliceBound | pandas/tests/indexes/base_class/test_indexing.py:9-27 | on an increasing index every label has a bound: its left insertion point for "left", its right one for "right", present or not |
| Indexes.UniqueSliceBound | pandas/tests/indexes/base_class/test_indexing.py:12-16 | on a unique index, the value at `k` bounds at `k` on the left and `k+1` on the right |
| Indexes.SliceBoundWithin | pandas/tests/indexes/base_class/test_indexing.py:11-16 | on "abcdef", "e" is bounded by 4 on the left and 5 on the right |
| Indexes.SliceBoundAboveAll | pandas/tests/indexes/base_class/test_indexing.py:21-27 | on an increasing index, a label above every value bounds at the length on both sides |
| Indexes.SliceBoundBelowAll | pandas/tests/indexes/base_class/test_indexing.py:21-27 | on an increasing index, a label below every value bounds at 0 on both sides |
| Indexes.SliceBoundOutside | pandas/tests/indexes/base_class/test_indexing.py:18-27 | "x" bounds "abcdef" at 6 and "a" bounds "bcdefg" at 0, on either side |
| Indexes.SliceBoundInvalidSide | pandas/tests/indexes/base_class/test_indexing.py:29-31 | side "middle" is a ValueError, even on an empty index |
| Indexes.Occurrences | pandas/tests/indexes/base_class/test_indexing.py:34-39 | all positions holding the key, strictly increasing; none exactly when the key is absent |
| Indexes.Entries | pandas/tests/indexes/base_class/test_indexing.py:34-39 | one target contributes its positions, or exactly [-1] when it is absent |
| Indexes.IndexerPositions | pandas/tests/indexes/base_class/test_indexing.py:34-39 | at least one entry per target, each a position of the index or -1 |
| Indexes.IndexerNonUnique | pandas/tests/indexes/base_class/test_indexing.py:34-39 | the engine's answer: at least one entry per target, each a position or -1, and exactly the indices of the absent targets, increasing |
| Indexes.IndexerPositionsSingle | pandas/tests/indexes/base_class/test_indexing.py:34-39 | a single target contributes exactly its entries: its positions, or [-1] when absent |
| Indexes.IndexerPositionsSnoc | pandas/tests/indexes/base_class/test_indexing.py:34-39 | one more target at the end appends its entries to the positions |
| Indexes.IndexerPositionsAppend | pandas/tests/indexes/base_class/test_indexing.py:34-39 | the positions for a concatenation of targets are the concatenation of the positions for each part, in order |
| Indexes.MissingTargets | pandas/tests/indexes/base_class/test_indexing.py:34-39 | exactly the indices of the absent targets, strictly increasing |
| Indexes.UniqueIndexer | pandas/tests/indexes/base_class/test_indexing.py:34-39 | `get_indexer` on a unique index: per target, its hash-index position or -1 |
| Indexes.EntriesOfDistinct | pandas/tests/indexes/base_class/test_indexing.py:34-39 | on a unique index a target contributes exactly its hash-index answer |
| Indexes.UniqueIndexerNonUnique | pandas/tests/indexes/base_class/test_indexing.py:34-39 | on a unique index the non-unique positions agree with `get_indexer` |
| Indexes.NoMatches | pandas/tests/indexes/base_class/test_indexing.py:37-39 | the nothing-matches answer: all -1, and every target index missing |
| Indexes.DisjointKindsNoMatches | pandas/tests/indexes/base_class/test_indexing.py:34-39 | when no target shares a kind with any value of the index, the engine's answer is the nothing-matches answer |
| Indexes.DisjointKindsPositions | pandas/tests/indexes/base_class/test_indexing.py:37-38 | when kinds never meet, every target contributes a single -1 |
| Indexes.DisjointKindsMissing | pandas/tests/indexes/base_class/test_indexing.py:37-39 | when kinds never meet, every target is reported missing |
| Indexes.NonUniqueKindMismatch | pandas/tests/indexes/base_class/test_indexing.py:35-39 | index ["A", "B"] with target [0] gives positions [-1] and missing [0] |
| Scenarios.RisingRunsMonotonic | pandas/tests/indexes/test_engines.py:93-106 | runs a…b…c with a < c are increasing and not decreasing; reversed, the opposite (covers [1,2,3] and "a","a","c") |
| Scenarios.RiseThenFallNeither | pandas/tests/indexes/test_engines.py:108-112 | runs a…b…a, reversed, are neither increasing nor decreasing |
| Scenarios.UniqueExamples | pandas/tests/indexes/test_engines.py:114-125 | [1,3,2] and "abc" are unique; [1,2,1] and "aba" are not |
| Scenarios.UniqueGetLocExamples | pandas/tests/indexes/test_engines.py:130-133 | `get_loc(2)` on [1,2,3] and `get_loc("b")` on "abc" give 1 |
| Scenarios.RunsGetLocSlice | pandas/tests/indexes/test_engines.py:135-139 | on n copies each of a < b < c, `get_loc(b)` is slice(n, 2n) |
| Scenarios.CycleGetLocMask | pandas/tests/indexes/test_engines.py:141-146 | on [a, b, c] repeated n ≥ 2 times, `get_loc(b)` is the mask true exactly at positions ≡ 1 (mod 3) |
| Scenarios.NaTBreaksMonotonic | pandas/tests/indexes/test_engines.py:45-46 | counts [NaT, NaT, t] are in integer order, yet a datetime engine reports them not increasing and answers a NaT lookup with a mask, where a numeric engine answers slice(0, 2); in pandas the mask is the answer of a fresh engine's first lookup only (see Findings) |
| Scenarios.LeadingNaTLookupDiverges | pandas/tests/indexes/test_engines.py:45-46 | on [NaT, NaT, t] the as-written pass reports a non-unique array strictly monotonic, so pandas' engine would then answer NaT from the hash index with position 1 where the corrected model answers the mask |
| Scenarios.PadNumericExample | pandas/tests/indexes/test_engines.py:160-170 | pad of [1,5,10] over 0..11 is [-1,0,0,0,0,1,1,1,1,1,2,2] |
| Scenarios.BackfillNumericExample | pandas/tests/indexes/test_engines.py:148-158 | backfill of [1,5,10] over 0..11 is [0,0,1,1,1,1,2,2,2,2,2,-1] |
| Scenarios.LetterPadExample | pandas/tests/indexes/test_engines.py:239-247 | pad of "aej" over "abcdefghij" is [0,0,0,0,1,1,1,1,1,2] |
| Scenarios.LetterBackfillExample | pandas/tests/indexes/test_engines.py:229-237 | backfill of "aej" over "abcdefghij" is [0,1,1,1,1,2,2,2,2,2] |
| Scenarios.SortedUniqueLookupAboveCutoff | pandas/tests/indexes/base_class/test_indexing.py:54-58 | on a sorted unique engine over the size threshold, `get_loc` of the value at `k` gives `k`, whichever search the engine uses |

## Left out

- The behaviour modelled is the one pandas' test suite pins down for `pandas/_libs/index.pyx` (the engines and `_bin_search`), `pandas/_libs/algos.pyx` (`is_monotonic`, `pad`, `backfill`) and `pandas/core/indexes/base.py` (`get_slice_bound`, `get_indexer_non_unique`); those three files are not part of this model, and the model follows the behaviour of those sources as the tests exercise it.
- Fixed-width integers, unsigned types and floats (NaN included): keys are unbounded integers and strings, so the per-dtype engines collapse into one integer engine.
- Engines.Engine.Contains: on an integer engine pandas converts the key to a C integer, so a string key raises TypeError; the model answers false.
- Mixed-kind comparisons: Python raises TypeError when an object array compares an integer with a string, while the model orders every integer before every string.
- The TypeError fallback of the monotonic check (both flags false when the values cannot be compared) is left out, because the model's keys are always comparable.
- Analysis.IsMonotonic: when the first of two or more values of a timelike array is NaT, pandas returns at once with its third result set; the model corrects this (see Findings), so `Engines.Engine.DoMonotonicCheck`, `IsMonotonicIncreasing`/`IsMonotonicDecreasing`, `IsUnique` and `GetLoc` give the corrected answers for every call sequence. In pandas, once the monotonic check has run on a datetime engine over `[NaT, NaT, t]`, `is_unique` answers true and `get_loc(NaT)` answers position 1.
- Alignment.Pad: the `limit` argument is not modelled; `get_pad_indexer` forwards it to `algos.pad`, but the tests call without it (test_engines.py:155, :167), which is the unlimited fill modelled here. The input must be increasing, which is what the callers guarantee; other input is not modelled.
- Alignment.Backfill: the same `limit` and increasing-input restrictions as `Pad`; `get_backfill_indexer` forwards `limit` to `algos.backfill`.
- Engines.Engine.GetPadIndexer: requires both arrays increasing, as the index that calls it guarantees.
- Engines.Engine.GetBackfillIndexer: the same requirement as `GetPadIndexer`.
- Indexes.GetSliceBound: modelled for a non-temporal index (the monotonic checks without the NaT rule). For a mask whose true run reaches the end, pandas gives a slice with stop `None`; the model gives the length, which is the bound such a stop denotes.
- Lookup.GetLoc: only a monotonic increasing array takes the two-search slice path; a decreasing array with duplicates gets a mask, as the engine checks only `is_monotonic_increasing`.
- `Index.get_indexer_non_unique` is modelled by the engine's answer: the cast of both sides to a common (object) dtype leaves the keys unchanged, and the non-comparable branch, chosen by a dtype test that object arrays always pass, never applies to these keys.
- Search.BinSearch: requires a non-empty array. On an empty one the source would index out of bounds; no caller gives it one.
- The `kind` argument of `get_slice_bound` and its FutureWarning, and the text of error messages.
- `is_definitely_invalid_key` and the hashability TypeError of `get_loc`.
- Tuple keys, `MultiIndex.from_product` and `to_flat_index`: the large-array test is modelled by a sorted unique engine over the size threshold.
- The hash table implementation, memory layout, and thread safety.
- Clocks and date ranges: timestamps and timedeltas are their nanosecond counts.

## Findings

| source | as written | input that shows it | evidently intended | confidence | as-written member | corrected member |
|---|---|---|---|---|---|---|
| `is_monotonic` in `pandas/_libs/algos.pyx`, exercised on the datetime index with a NaT at pandas/tests/indexes/test_engines.py:45-46 | on a timelike array of two or more values whose first value is NaT, returns early with the strictly-monotonic result set, and `_do_monotonic_check` then records the engine as unique | a datetime engine over `[NaT, NaT, t]`: after `is_monotonic_increasing`, `is_unique` is true and `get_loc(NaT)` is 1 instead of the mask `[True, True, False]` | a leading NaT makes the array neither increasing nor decreasing and not strictly monotonic, so uniqueness is left to the hash index | not executed; medium | Analysis.IsMonotonicAsWritten, Analysis.LeadingNaTReportedStrict, Scenarios.LeadingNaTLookupDiverges | Analysis.IsMonotonic, Analysis.StrictlyMonotonicIsDistinct |
