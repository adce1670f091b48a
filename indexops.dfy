/**
 * Index-level helpers built on the engine: `get_slice_bound`, which turns a
 * label into the position a slice starts or stops at, and
 * `get_indexer_non_unique`, which reports every position of every target.
 */
module Indexes {
  import opened Keys
  import opened Results
  import opened Analysis
  import opened Search
  import opened Lookup

  /**
   * `lib.maybe_booleans_to_slice`: the half-open range of a mask whose true
   * entries are contiguous, or None exactly when a false entry lies between
   * two true ones. (An all-false mask gives the empty range at 0.)
   */
  function MaybeBooleansToSlice(m: seq<bool>): (r: Option<(nat, nat)>)
    ensures r.Some? ==> r.value.0 <= r.value.1 <= |m|
    ensures r.Some? ==> forall i :: 0 <= i < |m| ==> (m[i] <==> r.value.0 <= i < r.value.1)
    ensures r.None? <==> exists i, j, k :: 0 <= i < j < k < |m| && m[i] && !m[j] && m[k]
  {
    var found := TruePositions(m);
    if |found| == 0 then
      Some((0, 0))
    else if found[|found| - 1] - found[0] + 1 == |found| then
      ContiguousRun(m, found);
      Some((found[0], found[|found| - 1] + 1))
    else
      MaskGap(m, found);
      None
  }

  /** Strictly increasing positions whose span exceeds their number leave a false entry between two true ones. */
  lemma MaskGap(m: seq<bool>, found: seq<nat>)
    requires forall k :: 0 <= k < |found| ==> found[k] < |m| && m[found[k]]
    requires forall i :: 0 <= i < |m| && m[i] ==> i in found
    requires forall k, l :: 0 <= k < l < |found| ==> found[k] < found[l]
    requires |found| > 0
    requires found[|found| - 1] - found[0] + 1 != |found|
    ensures exists i, j, k :: 0 <= i < j < k < |m| && m[i] && !m[j] && m[k]
  {
    var n := |found|;
    StepsAtLeastOne(found, 0, n - 1);
    var k := WideStep(found);
    var p := found[k] + 1;
    forall l | 0 <= l < n
      ensures found[l] != p
    {
      if l < k {
        assert found[l] < found[k];
      } else if l > k + 1 {
        assert found[k + 1] < found[l];
      }
    }
    assert found[k] < p < found[k + 1];
    assert p !in found;
    assert m[found[k]] && !m[p] && m[found[k + 1]];
  }

  /** A strictly increasing sequence that spans more than its length takes at least one step of two or more. */
  lemma {:induction false} WideStep(s: seq<nat>) returns (k: nat)
    requires forall k, l :: 0 <= k < l < |s| ==> s[k] < s[l]
    requires |s| > 0 && s[|s| - 1] - s[0] > |s| - 1
    ensures k + 1 < |s| && s[k + 1] - s[k] >= 2
    decreases |s|
  {
    if s[1] - s[0] >= 2 {
      k := 0;
    } else {
      var t := s[1..];
      assert forall a, b :: 0 <= a < b < |t| ==> t[a] < t[b] by {
        forall a, b | 0 <= a < b < |t| ensures t[a] < t[b] {
          assert t[a] == s[a + 1] && t[b] == s[b + 1];
        }
      }
      var k' := WideStep(t);
      k := k' + 1;
    }
  }

  /** Strictly increasing positions whose span equals their number leave no gap. */
  lemma ContiguousRun(m: seq<bool>, found: seq<nat>)
    requires forall k :: 0 <= k < |found| ==> found[k] < |m| && m[found[k]]
    requires forall i :: 0 <= i < |m| && m[i] ==> i in found
    requires forall k, l :: 0 <= k < l < |found| ==> found[k] < found[l]
    requires |found| > 0
    requires found[|found| - 1] - found[0] + 1 == |found|
    ensures forall i :: 0 <= i < |m| ==> (m[i] <==> found[0] <= i <= found[|found| - 1])
  {
    var n, lo, hi := |found|, found[0], found[|found| - 1];
    forall i | 0 <= i < |m|
      ensures m[i] <==> lo <= i <= hi
    {
      if lo <= i <= hi {
        var k := i - lo;
        StepsAtLeastOne(found, 0, k);
        StepsAtLeastOne(found, k, n - 1);
        assert found[k] == i;
      }
      if m[i] {
        assert i in found;
        var k :| 0 <= k < n && found[k] == i;
        StepsAtLeastOne(found, 0, k);
        StepsAtLeastOne(found, k, n - 1);
      }
    }
  }

  /** Strictly increasing naturals grow by at least one per step. */
  lemma {:induction false} StepsAtLeastOne(s: seq<nat>, i: nat, j: nat)
    requires forall k, l :: 0 <= k < l < |s| ==> s[k] < s[l]
    requires i <= j < |s|
    ensures s[j] - s[i] >= j - i
    decreases j - i
  {
    if i < j {
      StepsAtLeastOne(s, i + 1, j);
      assert s[i] < s[i + 1];
    }
  }

  /**
   * `_searchsorted_monotonic`: the insertion point on an increasing index;
   * on a decreasing one, the mirrored insertion point in the reversed index
   * with the side swapped; anything else is a ValueError.
   */
  function SearchsortedMonotonic(values: seq<Key>, key: Key, left: bool): (r: Result<nat>)
    ensures r.Ok? ==> r.value <= |values|
    ensures r.Ok? <==> NonDecreasing(values) || NonIncreasing(values)
    ensures r.Err? ==> r.error == InvalidArgument
    ensures NonDecreasing(values) && left ==> IsLeftBound(values, key, r.value)
    ensures NonDecreasing(values) && !left ==> IsRightBound(values, key, r.value)
    ensures NonIncreasing(values) && !NonDecreasing(values) && left ==>
      && (forall j :: 0 <= j < r.value ==> Lt(key, values[j]))
      && (forall j :: r.value <= j < |values| ==> Le(values[j], key))
    ensures NonIncreasing(values) && !NonDecreasing(values) && !left ==>
      && (forall j :: 0 <= j < r.value ==> Le(key, values[j]))
      && (forall j :: r.value <= j < |values| ==> Lt(values[j], key))
  {
    if NonDecreasing(values) then
      Ok(if left then BisectLeft(values, key) else BisectRight(values, key))
    else if NonIncreasing(values) then
      ReverseFlipsOrder(values);
      var rev := Reverse(values);
      var pos := if left then BisectRight(rev, key) else BisectLeft(rev, key);
      MirroredBounds(values, key, pos);
      Ok(|values| - pos)
    else
      Err(InvalidArgument)
  }

  /**
   * An insertion point in the reversed array, mirrored: what lies before it
   * in the reversal lies after `|values| - pos` in the array, and the other
   * way round.
   */
  lemma MirroredBounds(values: seq<Key>, key: Key, pos: int)
    requires 0 <= pos <= |values|
    ensures IsRightBound(Reverse(values), key, pos) ==>
      && (forall j :: 0 <= j < |values| - pos ==> Lt(key, values[j]))
      && (forall j :: |values| - pos <= j < |values| ==> Le(values[j], key))
    ensures IsLeftBound(Reverse(values), key, pos) ==>
      && (forall j :: 0 <= j < |values| - pos ==> Le(key, values[j]))
      && (forall j :: |values| - pos <= j < |values| ==> Lt(values[j], key))
  {
    var rev, n := Reverse(values), |values|;
    forall j | 0 <= j < n
      ensures values[j] == rev[n - 1 - j]
    {
    }
  }

  /**
   * `Index.get_slice_bound(label, side)`: a side other than "left" or
   * "right" is a ValueError. A label `get_loc` finds gives the start of its
   * run (left) or one past its end (right); a mask whose run is not
   * contiguous is a KeyError. A label `get_loc` does not find falls back to
   * its insertion point on a monotonic index, and is a KeyError otherwise.
   */
  function GetSliceBound(values: seq<Key>, key: Key, side: string): (r: Result<nat>)
    ensures r.Ok? ==> r.value <= |values|
    ensures side != "left" && side != "right" ==> r == Err(InvalidArgument)
    ensures (side == "left" || side == "right") && r.Err? ==> r.error == NotFound
  {
    if side != "left" && side != "right" then
      Err(InvalidArgument)
    else
      match Lookup.GetLoc(values, key, false)
      case Err(_) =>
        (match SearchsortedMonotonic(values, key, side == "left")
         case Ok(p) => Ok(p)
         case Err(_) => Err(NotFound))
      case Ok(Position(p)) =>
        Ok(if side == "left" then p else p + 1)
      case Ok(Slice(a, b)) =>
        Ok(if side == "left" then a else b)
      case Ok(Mask(m)) =>
        (match MaybeBooleansToSlice(m)
         case Some((a, b)) => Ok(if side == "left" then a else b)
         case None => Err(NotFound))
  }

  /**
   * On a non-decreasing index every label has a bound for either side:
   * the left one is its left insertion point (the first position at or
   * above it) and the right one its right insertion point (the first
   * position above it), whether or not the label is present.
   */
  lemma SortedSliceBound(values: seq<Key>, key: Key, side: string)
    requires NonDecreasing(values) && (side == "left" || side == "right")
    ensures GetSliceBound(values, key, side).Ok?
    ensures side == "left" ==> IsLeftBound(values, key, GetSliceBound(values, key, side).value)
    ensures side == "right" ==> IsRightBound(values, key, GetSliceBound(values, key, side).value)
  {
    match Lookup.GetLoc(values, key, false)
    case Err(_) =>
    case Ok(Position(p)) =>
      RunIsBounds(values, key, p, p + 1);
    case Ok(Slice(a, b)) =>
      RunIsBounds(values, key, a, b);
    case Ok(Mask(_)) =>
  }

  /** On an index without repeats, a present label bounds at its position on the left and just past it on the right. */
  lemma UniqueSliceBound(values: seq<Key>, k: nat, side: string)
    requires Distinct(values) && k < |values| && (side == "left" || side == "right")
    ensures GetSliceBound(values, values[k], side) == Ok(if side == "left" then k else k + 1)
  {
    UniqueGetLocExact(values, k, false);
  }

  /** `"abcdef"`: `"e"` is bounded by 4 on the left and 5 on the right. */
  lemma SliceBoundWithin()
    ensures GetSliceBound([Str("a"), Str("b"), Str("c"), Str("d"), Str("e"), Str("f")], Str("e"), "left") == Ok(4)
    ensures GetSliceBound([Str("a"), Str("b"), Str("c"), Str("d"), Str("e"), Str("f")], Str("e"), "right") == Ok(5)
  {
    var values := [Str("a"), Str("b"), Str("c"), Str("d"), Str("e"), Str("f")];
    assert Distinct(values);
    UniqueSliceBound(values, 4, "left");
    UniqueSliceBound(values, 4, "right");
  }

  /** On a non-decreasing index, a label above every value bounds at the end for either side. */
  lemma SliceBoundAboveAll(values: seq<Key>, key: Key, side: string)
    requires NonDecreasing(values) && (side == "left" || side == "right")
    requires |values| == 0 || Lt(values[|values| - 1], key)
    ensures GetSliceBound(values, key, side) == Ok(|values|)
  {
    SortedSliceBound(values, key, side);
    var b := GetSliceBound(values, key, side).value;
    if b < |values| {
      LtFacts(key, values[b]);
      NonDecreasingChain(values, b, |values| - 1);
      LeTrans(key, values[b], values[|values| - 1]);
    }
  }

  /** On a non-decreasing index, a label below every value bounds at the start for either side. */
  lemma SliceBoundBelowAll(values: seq<Key>, key: Key, side: string)
    requires NonDecreasing(values) && (side == "left" || side == "right")
    requires |values| == 0 || Lt(key, values[0])
    ensures GetSliceBound(values, key, side) == Ok(0)
  {
    SortedSliceBound(values, key, side);
    var b := GetSliceBound(values, key, side).value;
    if b > 0 {
      LtFacts(values[b - 1], key);
      NonDecreasingChain(values, 0, b - 1);
      LeTrans(values[0], values[b - 1], key);
    }
  }

  /** An absent label bounds at its insertion point for both sides: `"x"` past `"abcdef"`, `"a"` before `"bcdefg"`. */
  lemma SliceBoundOutside(side: string)
    requires side == "left" || side == "right"
    ensures GetSliceBound([Str("a"), Str("b"), Str("c"), Str("d"), Str("e"), Str("f")], Str("x"), side) == Ok(6)
    ensures GetSliceBound([Str("b"), Str("c"), Str("d"), Str("e"), Str("f"), Str("g")], Str("a"), side) == Ok(0)
  {
    SliceBoundPastEnd([Str("a"), Str("b"), Str("c"), Str("d"), Str("e"), Str("f")], side);
    SliceBoundBeforeStart([Str("b"), Str("c"), Str("d"), Str("e"), Str("f"), Str("g")], side);
  }

  /** `"x"` past `"abcdef"`: the end, on either side. */
  lemma SliceBoundPastEnd(v: seq<Key>, side: string)
    requires v == [Str("a"), Str("b"), Str("c"), Str("d"), Str("e"), Str("f")]
    requires side == "left" || side == "right"
    ensures GetSliceBound(v, Str("x"), side) == Ok(6)
  {
    assert NonDecreasing(v);
    SliceBoundAboveAll(v, Str("x"), side);
  }

  /** `"a"` before `"bcdefg"`: the start, on either side. */
  lemma SliceBoundBeforeStart(v: seq<Key>, side: string)
    requires v == [Str("b"), Str("c"), Str("d"), Str("e"), Str("f"), Str("g")]
    requires side == "left" || side == "right"
    ensures GetSliceBound(v, Str("a"), side) == Ok(0)
  {
    assert NonDecreasing(v);
    SliceBoundBelowAll(v, Str("a"), side);
  }

  /** A side of "middle" is refused, even on an empty index. */
  lemma SliceBoundInvalidSide()
    ensures GetSliceBound([], Str("a"), "middle") == Err(InvalidArgument)
  {
  }

  /** All positions holding `key`, in increasing order. */
  function Occurrences(values: seq<Key>, key: Key): (r: seq<nat>)
    ensures forall k :: 0 <= k < |r| ==> r[k] < |values| && values[r[k]] == key
    ensures forall i :: 0 <= i < |values| && values[i] == key ==> i in r
    ensures forall k, l :: 0 <= k < l < |r| ==> r[k] < r[l]
    ensures |r| == 0 <==> key !in values
  {
    MaskHitsFound(values, key);
    TruePositions(MaskOf(values, key))
  }

  /** A key that is present leaves at least one true entry in its mask. */
  lemma MaskHitsFound(values: seq<Key>, key: Key)
    ensures key in values <==> |TruePositions(MaskOf(values, key))| > 0
  {
    var m := MaskOf(values, key);
    var found := TruePositions(m);
    if key in values {
      var i :| 0 <= i < |values| && values[i] == key;
      assert m[i];
    }
    if |found| > 0 {
      assert m[found[0]];
    }
  }

  /** What one target contributes to the positions: its occurrences, or a single -1. */
  function Entries(values: seq<Key>, key: Key): (r: seq<int>)
    ensures |r| >= 1 && forall k :: 0 <= k < |r| ==> -1 <= r[k] < |values|
    ensures r == [-1] <==> key !in values
  {
    var occ: seq<int> := Occurrences(values, key);
    if |occ| == 0 then [-1] else occ
  }

  /**
   * The positions half of the engine's `get_indexer_non_unique`: for each
   * target in turn, every position holding it, or a single -1 when there
   * is none.
   */
  function IndexerPositions(values: seq<Key>, targets: seq<Key>): (r: seq<int>)
    ensures forall k :: 0 <= k < |r| ==> -1 <= r[k] < |values|
    ensures |targets| <= |r|
    decreases |targets|
  {
    if |targets| == 0 then []
    else IndexerPositions(values, targets[..|targets| - 1]) + Entries(values, targets[|targets| - 1])
  }

  /** One target on its own contributes exactly its entries. */
  lemma IndexerPositionsSingle(values: seq<Key>, t: Key)
    ensures IndexerPositions(values, [t]) == Entries(values, t)
  {
    assert [t][..0] == [];
  }

  /** Appending one target appends its entries. */
  lemma IndexerPositionsSnoc(values: seq<Key>, t: seq<Key>, x: Key)
    ensures IndexerPositions(values, t + [x]) == IndexerPositions(values, t) + Entries(values, x)
  {
    var u := t + [x];
    assert u[..|u| - 1] == t && u[|u| - 1] == x;
  }

  /** The positions of a concatenation of targets are the concatenation of their positions. */
  lemma {:induction false} IndexerPositionsAppend(values: seq<Key>, t1: seq<Key>, t2: seq<Key>)
    ensures IndexerPositions(values, t1 + t2) == IndexerPositions(values, t1) + IndexerPositions(values, t2)
    decreases |t2|
  {
    if |t2| == 0 {
      assert t1 + t2 == t1;
    } else {
      var init, last := t2[..|t2| - 1], t2[|t2| - 1];
      assert t2 == init + [last];
      IndexerPositionsAppend(values, t1, init);
      AppendStep(values, t1, init, last);
    }
  }

  /** The inductive step of `IndexerPositionsAppend`: one more target at the end. */
  lemma AppendStep(values: seq<Key>, t1: seq<Key>, init: seq<Key>, last: Key)
    requires IndexerPositions(values, t1 + init) == IndexerPositions(values, t1) + IndexerPositions(values, init)
    ensures IndexerPositions(values, t1 + (init + [last])) == IndexerPositions(values, t1) + IndexerPositions(values, init + [last])
  {
    ConcatAssoc(t1, init, [last]);
    IndexerPositionsSnoc(values, t1 + init, last);
    IndexerPositionsSnoc(values, init, last);
    ConcatAssoc(IndexerPositions(values, t1), IndexerPositions(values, init), Entries(values, last));
  }

  /** Concatenation is associative. */
  lemma ConcatAssoc<T>(a: seq<T>, b: seq<T>, c: seq<T>)
    ensures (a + b) + c == a + (b + c)
  {
  }

  /** The missing half: the indices of the targets the index does not hold, in order. */
  function MissingTargets(values: seq<Key>, targets: seq<Key>): (r: seq<nat>)
    ensures forall j :: j in r <==> 0 <= j < |targets| && targets[j] !in values
    ensures forall k :: 0 <= k < |r| ==> r[k] < |targets|
    ensures forall k, l :: 0 <= k < l < |r| ==> r[k] < r[l]
    ensures |r| <= |targets|
    decreases |targets|
  {
    if |targets| == 0 then []
    else
      var init := targets[..|targets| - 1];
      var m := MissingTargets(values, init);
      assert forall j :: 0 <= j < |init| ==> init[j] == targets[j];
      if targets[|targets| - 1] in values then m else m + [|targets| - 1]
  }

  /**
   * `get_indexer_non_unique`, as the engine answers it: the positions (at
   * least one entry per target, each a position or -1) and the indices of
   * the targets the index does not hold, in order. An index and targets of
   * different kinds meet at the index level as object arrays, and the
   * engine's equality scan answers them like any others.
   */
  function IndexerNonUnique(values: seq<Key>, targets: seq<Key>): (r: (seq<int>, seq<nat>))
    ensures |targets| <= |r.0| && forall k :: 0 <= k < |r.0| ==> -1 <= r.0[k] < |values|
    ensures forall j :: j in r.1 <==> 0 <= j < |targets| && targets[j] !in values
    ensures forall k, l :: 0 <= k < l < |r.1| ==> r.1[k] < r.1[l]
  {
    (IndexerPositions(values, targets), MissingTargets(values, targets))
  }

  /** In an index without repeats a key contributes exactly its hash-index answer: its position, or -1. */
  lemma EntriesOfDistinct(values: seq<Key>, key: Key)
    requires Distinct(values)
    ensures Entries(values, key) == [LastIndexOf(values, key)]
  {
    var r, p := Occurrences(values, key), LastIndexOf(values, key);
    forall k | 0 <= k < |r|
      ensures r[k] == p
    {
      assert values[r[k]] == values[p];
    }
    if |r| > 0 {
      StepsAtLeastOne(r, 0, |r| - 1);
    }
  }

  /** `get_indexer` on an index without repeats: each target's hash-index position, or -1. */
  function UniqueIndexer(values: seq<Key>, targets: seq<Key>): (r: seq<int>)
    ensures |r| == |targets|
    ensures forall j :: 0 <= j < |targets| ==> r[j] == LastIndexOf(values, targets[j])
    decreases |targets|
  {
    if |targets| == 0 then []
    else
      var init := targets[..|targets| - 1];
      assert forall j :: 0 <= j < |init| ==> init[j] == targets[j];
      UniqueIndexer(values, init) + [LastIndexOf(values, targets[|targets| - 1])]
  }

  /**
   * On an index without repeats, `get_indexer_non_unique` agrees with
   * `get_indexer`: one entry per target, its position or -1.
   */
  lemma {:induction false} UniqueIndexerNonUnique(values: seq<Key>, targets: seq<Key>)
    requires Distinct(values)
    ensures IndexerPositions(values, targets) == UniqueIndexer(values, targets)
    decreases |targets|
  {
    if |targets| > 0 {
      UniqueIndexerNonUnique(values, targets[..|targets| - 1]);
      EntriesOfDistinct(values, targets[|targets| - 1]);
    }
  }

  /** The key kind: integers and strings never compare equal. */
  predicate SameKind(a: Key, b: Key) {
    a.Int? == b.Int?
  }

  /** No target has the kind of any value of the index. */
  predicate KindsDisjoint(values: seq<Key>, targets: seq<Key>) {
    forall i, j :: 0 <= i < |values| && 0 <= j < |targets| ==> !SameKind(values[i], targets[j])
  }

  /** The "nothing matches" answer: every position -1, every target missing. */
  function NoMatches(n: nat): (r: (seq<int>, seq<nat>))
    ensures |r.0| == n && |r.1| == n
    ensures forall k :: 0 <= k < n ==> r.0[k] == -1 && r.1[k] == k
  {
    (seq(n, _ => -1), seq(n, k requires 0 <= k => k))
  }

  /**
   * When no target shares a kind with any value, the engine's answer is
   * "nothing matches": the equality scan finds no hit.
   */
  lemma DisjointKindsNoMatches(values: seq<Key>, targets: seq<Key>)
    requires KindsDisjoint(values, targets)
    ensures IndexerNonUnique(values, targets) == NoMatches(|targets|)
  {
    DisjointKindsPositions(values, targets);
    DisjointKindsMissing(values, targets);
  }

  /** Dropping the last target keeps the kinds apart. */
  lemma DisjointInit(values: seq<Key>, targets: seq<Key>)
    requires |targets| > 0 && KindsDisjoint(values, targets)
    ensures KindsDisjoint(values, targets[..|targets| - 1])
    ensures targets[|targets| - 1] !in values
  {
    var init := targets[..|targets| - 1];
    forall i, j | 0 <= i < |values| && 0 <= j < |init|
      ensures !SameKind(values[i], init[j])
    {
      assert init[j] == targets[j];
    }
  }

  /** When no kinds meet, every target contributes a single -1. */
  lemma {:induction false} DisjointKindsPositions(values: seq<Key>, targets: seq<Key>)
    requires KindsDisjoint(values, targets)
    ensures IndexerPositions(values, targets) == NoMatches(|targets|).0
    decreases |targets|
  {
    if |targets| > 0 {
      var n := |targets|;
      DisjointInit(values, targets);
      DisjointKindsPositions(values, targets[..n - 1]);
      assert IndexerPositions(values, targets) == IndexerPositions(values, targets[..n - 1]) + Entries(values, targets[n - 1]);
      assert Entries(values, targets[n - 1]) == [-1];
      assert NoMatches(n - 1).0 + [-1] == NoMatches(n).0;
    }
  }

  /** When no kinds meet, every target is reported missing. */
  lemma {:induction false} DisjointKindsMissing(values: seq<Key>, targets: seq<Key>)
    requires KindsDisjoint(values, targets)
    ensures MissingTargets(values, targets) == NoMatches(|targets|).1
    decreases |targets|
  {
    if |targets| > 0 {
      var n := |targets|;
      DisjointInit(values, targets);
      DisjointKindsMissing(values, targets[..n - 1]);
      assert MissingTargets(values, targets) == MissingTargets(values, targets[..n - 1]) + [n - 1];
      assert NoMatches(n - 1).1 + [n - 1] == NoMatches(n).1;
    }
  }

  /** String index, integer target: one -1 and the target reported missing. */
  lemma NonUniqueKindMismatch()
    ensures IndexerNonUnique([Str("A"), Str("B")], [Int(0)]) == ([-1], [0])
  {
    KindMismatchAnswer([Str("A"), Str("B")], [Int(0)]);
  }

  /** The test's index and target, named: the kinds never meet. */
  lemma KindMismatchAnswer(v: seq<Key>, t: seq<Key>)
    requires v == [Str("A"), Str("B")] && t == [Int(0)]
    ensures IndexerNonUnique(v, t) == ([-1], [0])
  {
    assert KindsDisjoint(v, t);
    DisjointKindsNoMatches(v, t);
    var r := NoMatches(1);
    assert r.0 == [-1] && r.1 == [0];
  }
}
