/**
 * The engine behaviours the tests pin down, stated over arrays of any
 * length built the way the tests build them: runs of equal keys, a
 * repeated cycle, and concrete arrays for uniqueness and alignment.
 */
module Scenarios {
  import opened Keys
  import opened Results
  import opened Analysis
  import opened Search
  import opened Lookup
  import opened Alignment
  import opened Engines

  /** `[k] * n`. */
  function Repeat(k: Key, n: nat): (r: seq<Key>)
    ensures |r| == n && forall i :: 0 <= i < n ==> r[i] == k
  {
    seq(n, _ => k)
  }

  /** `[a] * n + [b] * n + [c] * n`. */
  function Runs(a: Key, b: Key, c: Key, n: nat): (r: seq<Key>)
    ensures |r| == 3 * n
    ensures forall i :: 0 <= i < 3 * n ==> r[i] == if i < n then a else if i < 2 * n then b else c
  {
    Repeat(a, n) + Repeat(b, n) + Repeat(c, n)
  }

  /** `[a, b, c] * n`. */
  function Cycle(a: Key, b: Key, c: Key, n: nat): (r: seq<Key>)
    ensures |r| == 3 * n
    ensures forall i :: 0 <= i < 3 * n ==> r[i] == if i % 3 == 0 then a else if i % 3 == 1 then b else c
  {
    seq(3 * n, i => if i % 3 == 0 then a else if i % 3 == 1 then b else c)
  }

  /** `<` chains. */
  lemma LtTrans(a: Key, b: Key, c: Key)
    requires Lt(a, b) && Lt(b, c)
    ensures Lt(a, c)
  {
    LtFacts(a, b);
    LtFacts(b, c);
    LeTrans(a, b, c);
    if Le(c, a) {
      LeTrans(b, c, a);
    }
  }

  /**
   * Three runs that rise (`[1]*n + [2]*n + [3]*n`, or the object test's
   * `["a"]*n + ["a"]*n + ["c"]*n`) are increasing and not decreasing; read
   * backwards they are decreasing and not increasing.
   */
  lemma RisingRunsMonotonic(a: Key, b: Key, c: Key, n: nat)
    requires n >= 1 && Le(a, b) && Le(b, c) && Lt(a, c)
    ensures NonDecreasing(Runs(a, b, c, n)) && !NonIncreasing(Runs(a, b, c, n))
    ensures NonIncreasing(Reverse(Runs(a, b, c, n))) && !NonDecreasing(Reverse(Runs(a, b, c, n)))
  {
    var s := Runs(a, b, c, n);
    forall i | 0 < i < |s|
      ensures Le(s[i - 1], s[i])
    {
      LeRefl(s[i]);
    }
    if NonIncreasing(s) {
      NonIncreasingChain(s, 0, |s| - 1);
    }
    ReverseFlipsOrder(s);
  }

  /**
   * Runs that rise and fall back (`[1]*n + [2]*n + [1]*n`), read backwards,
   * are neither increasing nor decreasing.
   */
  lemma RiseThenFallNeither(a: Key, b: Key, n: nat)
    requires n >= 1 && Lt(a, b)
    ensures !NonDecreasing(Reverse(Runs(a, b, a, n))) && !NonIncreasing(Reverse(Runs(a, b, a, n)))
  {
    var s := Runs(a, b, a, n);
    ReverseFlipsOrder(s);
    assert s[n - 1] == a && s[n] == b;
    assert s[2 * n - 1] == b && s[2 * n] == a;
  }

  /** `[1, 3, 2]` and `["a", "b", "c"]` are unique; `[1, 2, 1]` and `["a", "b", "a"]` are not. */
  lemma UniqueExamples()
    ensures Distinct([Int(1), Int(3), Int(2)]) && !Distinct([Int(1), Int(2), Int(1)])
    ensures Distinct([Str("a"), Str("b"), Str("c")]) && !Distinct([Str("a"), Str("b"), Str("a")])
  {
    var s1, s2 := [Int(1), Int(2), Int(1)], [Str("a"), Str("b"), Str("a")];
    assert s1[0] == s1[2] && s2[0] == s2[2];
  }

  /** `[1, 2, 3].get_loc(2) == 1` and `["a", "b", "c"].get_loc("b") == 1`. */
  lemma UniqueGetLocExamples()
    ensures GetLoc([Int(1), Int(2), Int(3)], Int(2), false) == Ok(Position(1))
    ensures GetLoc([Str("a"), Str("b"), Str("c")], Str("b"), false) == Ok(Position(1))
  {
    UniqueGetLocExact([Int(1), Int(2), Int(3)], 1, false);
    UniqueGetLocExact([Str("a"), Str("b"), Str("c")], 1, false);
  }

  /** In sorted runs of length two or more, the middle key's lookup is the slice `[n, 2n)`. */
  lemma RunsGetLocSlice(a: Key, b: Key, c: Key, n: nat)
    requires n >= 2 && Lt(a, b) && Lt(b, c)
    ensures GetLoc(Runs(a, b, c, n), b, false) == Ok(Slice(n, 2 * n))
  {
    var s := Runs(a, b, c, n);
    LtFacts(a, b);
    LtFacts(b, c);
    LtTrans(a, b, c);
    RisingRunsMonotonic(a, b, c, n);
    assert s[n] == s[n + 1];
    RunIsBounds(s, b, n, 2 * n);
    LeftBoundUnique(s, b, BisectLeft(s, b), n);
    RightBoundUnique(s, b, BisectRight(s, b), 2 * n);
  }

  /** The boolean indexer of the middle key of a cycle is true exactly at the positions `i % 3 == 1`. */
  lemma CycleMask(a: Key, b: Key, c: Key, n: nat)
    requires a != b && b != c
    ensures MaskOf(Cycle(a, b, c, n), b) == seq(3 * n, i => i % 3 == 1)
  {
  }

  /** Two true entries make at least two hits. */
  lemma TwoHits(m: seq<bool>, i: nat, j: nat)
    requires i < j < |m| && m[i] && m[j]
    ensures |TruePositions(m)| >= 2
  {
    var found := TruePositions(m);
    var k1 :| 0 <= k1 < |found| && found[k1] == i;
    var k2 :| 0 <= k2 < |found| && found[k2] == j;
    assert k1 != k2;
  }

  /**
   * In a repeated unsorted cycle (`[1, 2, 3] * n` with n >= 2), the middle
   * key's lookup is the mask true exactly at the positions `i % 3 == 1`.
   */
  lemma CycleGetLocMask(a: Key, b: Key, c: Key, n: nat)
    requires n >= 2 && Lt(a, b) && Lt(b, c)
    ensures GetLoc(Cycle(a, b, c, n), b, false) == Ok(Mask(seq(3 * n, i => i % 3 == 1)))
  {
    var s := Cycle(a, b, c, n);
    LtFacts(a, b);
    LtFacts(b, c);
    LtTrans(a, b, c);
    assert s[1] == s[4];
    assert s[2] == c && s[3] == a;
    CycleMask(a, b, c, n);
    TwoHits(MaskOf(s, b), 1, 4);
  }

  /**
   * A datetime array with NaTs in it, as the tests build to make one
   * non-monotonic: the counts `[NaT, NaT, t]` are in integer order, but the
   * timelike monotonic check refuses them, so looking up NaT gives a mask
   * where the same integers in a numeric engine give a slice.
   */
  lemma NaTBreaksMonotonic(t: int)
    requires NaTValue < t
    ensures !MonotonicIncreasing([Int(NaTValue), Int(NaTValue), Int(t)], true)
    ensures MonotonicIncreasing([Int(NaTValue), Int(NaTValue), Int(t)], false)
    ensures GetLoc([Int(NaTValue), Int(NaTValue), Int(t)], Int(NaTValue), true) == Ok(Mask([true, true, false]))
    ensures GetLoc([Int(NaTValue), Int(NaTValue), Int(t)], Int(NaTValue), false) == Ok(Slice(0, 2))
  {
    var s, missing := [Int(NaTValue), Int(NaTValue), Int(t)], Int(NaTValue);
    assert !Distinct(s) by { assert s[0] == s[1]; }
    NaTMask(s, t);
    NaTSlice(s, t);
  }

  /**
   * On `[NaT, NaT, t]` pandas' pass reports the datetime array strictly
   * monotonic, so after its monotonic check the engine answers a NaT lookup
   * from the hash index with the last position, 1; the corrected pass keeps
   * the mask.
   */
  lemma LeadingNaTLookupDiverges(t: int)
    requires NaTValue < t
    ensures StrictAsWritten([Int(NaTValue), Int(NaTValue), Int(t)], true)
    ensures !Distinct([Int(NaTValue), Int(NaTValue), Int(t)])
    ensures LastIndexOf([Int(NaTValue), Int(NaTValue), Int(t)], Int(NaTValue)) == 1
    ensures GetLoc([Int(NaTValue), Int(NaTValue), Int(t)], Int(NaTValue), true) == Ok(Mask([true, true, false]))
  {
    var s := [Int(NaTValue), Int(NaTValue), Int(t)];
    assert s[0] == s[1];
    NaTBreaksMonotonic(t);
  }

  /** The timelike half of `NaTBreaksMonotonic`: the mask path. */
  lemma NaTMask(s: seq<Key>, t: int)
    requires NaTValue < t && s == [Int(NaTValue), Int(NaTValue), Int(t)]
    ensures GetLocDuplicates(s, Int(NaTValue), true) == Ok(Mask([true, true, false]))
  {
    assert HasNaT(s) by { assert s[0] == Int(NaTValue); }
    assert MaskOf(s, Int(NaTValue)) == [true, true, false];
    TwoHits(MaskOf(s, Int(NaTValue)), 0, 1);
  }

  /** The numeric half of `NaTBreaksMonotonic`: the two binary searches. */
  lemma NaTSlice(s: seq<Key>, t: int)
    requires NaTValue < t && s == [Int(NaTValue), Int(NaTValue), Int(t)]
    ensures GetLocDuplicates(s, Int(NaTValue), false) == Ok(Slice(0, 2))
  {
    assert NonDecreasing(s);
    RunIsBounds(s, Int(NaTValue), 0, 2);
    LeftBoundUnique(s, Int(NaTValue), BisectLeft(s, Int(NaTValue)), 0);
    RightBoundUnique(s, Int(NaTValue), BisectRight(s, Int(NaTValue)), 2);
  }

  /** `pad([1, 5, 10], 0..11)` is `[-1, 0, 0, 0, 0, 1, 1, 1, 1, 1, 2, 2]`. */
  lemma PadNumericExample()
    ensures forall t :: 0 <= t < 12 ==>
      PadRef([Int(1), Int(5), Int(10)], Int(t)) == [-1, 0, 0, 0, 0, 1, 1, 1, 1, 1, 2, 2][t]
  {
    var s := [Int(1), Int(5), Int(10)];
    NonDecreasingIsSorted(s);
    forall t | 0 <= t < 12
      ensures PadRef(s, Int(t)) == [-1, 0, 0, 0, 0, 1, 1, 1, 1, 1, 2, 2][t]
    {
      if t < 1 {
        PadRefBelowFirst(s, Int(t));
      } else if t < 5 {
        PadRefAt(s, Int(t), 0);
      } else if t < 10 {
        PadRefAt(s, Int(t), 1);
      } else {
        PadRefAt(s, Int(t), 2);
      }
    }
  }

  /** `backfill([1, 5, 10], 0..11)` is `[0, 0, 1, 1, 1, 1, 2, 2, 2, 2, 2, -1]`. */
  lemma BackfillNumericExample()
    ensures forall t :: 0 <= t < 12 ==>
      BackfillRef([Int(1), Int(5), Int(10)], Int(t)) == [0, 0, 1, 1, 1, 1, 2, 2, 2, 2, 2, -1][t]
  {
    var s := [Int(1), Int(5), Int(10)];
    NonDecreasingIsSorted(s);
    forall t | 0 <= t < 12
      ensures BackfillRef(s, Int(t)) == [0, 0, 1, 1, 1, 1, 2, 2, 2, 2, 2, -1][t]
    {
      if t <= 1 {
        BackfillRefAt(s, Int(t), 0);
      } else if t <= 5 {
        BackfillRefAt(s, Int(t), 1);
      } else if t <= 10 {
        BackfillRefAt(s, Int(t), 2);
      } else {
        BackfillRefAboveLast(s, Int(t));
      }
    }
  }

  /** The one-letter strings `"a"` to `"j"`. */
  function Letters(): (r: seq<Key>)
    ensures |r| == 10 && forall k :: 0 <= k < 10 ==> r[k] == Str(['a' + k as char])
  {
    seq(10, k requires 0 <= k < 10 => Str(['a' + k as char]))
  }

  /** Single-character strings compare as their characters. */
  lemma CharOrder(x: char, y: char)
    ensures Le(Str([x]), Str([y])) <==> x <= y
  {
    assert [x][1..] == [] && [y][1..] == [];
    assert StrLe([x][1..], [y][1..]);
    assert Le(Str([x]), Str([y])) == StrLe([x], [y]);
  }

  /** `pad(["a", "e", "j"], "a".."j")` is `[0, 0, 0, 0, 1, 1, 1, 1, 1, 2]`. */
  lemma LetterPadExample()
    ensures forall k :: 0 <= k < 10 ==>
      PadRef([Str("a"), Str("e"), Str("j")], Letters()[k]) == [0, 0, 0, 0, 1, 1, 1, 1, 1, 2][k]
  {
    var s := [Str(['a']), Str(['e']), Str(['j'])];
    assert s == [Str("a"), Str("e"), Str("j")];
    CharOrder('a', 'e');
    CharOrder('e', 'j');
    NonDecreasingIsSorted(s);
    forall k | 0 <= k < 10
      ensures PadRef(s, Letters()[k]) == [0, 0, 0, 0, 1, 1, 1, 1, 1, 2][k]
    {
      var x := 'a' + k as char;
      if k < 4 {
        CharOrder('a', x);
        CharOrder('e', x);
        PadRefAt(s, Str([x]), 0);
      } else if k < 9 {
        CharOrder('e', x);
        CharOrder('j', x);
        PadRefAt(s, Str([x]), 1);
      } else {
        CharOrder('j', x);
        PadRefAt(s, Str([x]), 2);
      }
    }
  }

  /** `backfill(["a", "e", "j"], "a".."j")` is `[0, 1, 1, 1, 1, 2, 2, 2, 2, 2]`. */
  lemma LetterBackfillExample()
    ensures forall k :: 0 <= k < 10 ==>
      BackfillRef([Str("a"), Str("e"), Str("j")], Letters()[k]) == [0, 1, 1, 1, 1, 2, 2, 2, 2, 2][k]
  {
    var s := [Str(['a']), Str(['e']), Str(['j'])];
    assert s == [Str("a"), Str("e"), Str("j")];
    CharOrder('a', 'e');
    CharOrder('e', 'j');
    NonDecreasingIsSorted(s);
    forall k | 0 <= k < 10
      ensures BackfillRef(s, Letters()[k]) == [0, 1, 1, 1, 1, 2, 2, 2, 2, 2][k]
    {
      var x := 'a' + k as char;
      if k == 0 {
        CharOrder(x, 'a');
        BackfillRefAt(s, Str([x]), 0);
      } else if k <= 4 {
        CharOrder(x, 'e');
        CharOrder(x, 'a');
        BackfillRefAt(s, Str([x]), 1);
      } else {
        CharOrder(x, 'j');
        CharOrder(x, 'e');
        BackfillRefAt(s, Str([x]), 2);
      }
    }
  }

  /**
   * A large sorted array without repeats is searched by bisection, and
   * the value at `k` is found at `k` whichever search the engine uses.
   */
  method SortedUniqueLookupAboveCutoff(e: Engine, k: nat) returns (r: Result<Loc>)
    requires e.Valid() && |e.values| >= SizeCutoff && k < |e.values|
    requires NonDecreasing(e.values) && Distinct(e.values)
    modifies e
    ensures e.Valid() && e.WriteOnce()
    ensures r == Ok(Position(k))
  {
    r := e.GetLoc(e.values[k]);
    UniqueGetLocExact(e.values, k, e.timelike);
  }
}
