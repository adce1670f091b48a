/** Keys held by an engine and the total order the engines compare them by. */
module Keys {

  /** A lookup key: an integer (the numeric engines) or a string (the object engine). */
  datatype Key = Int(i: int) | Str(s: string)

  /** Python's string order: code point by code point, a proper prefix first. */
  predicate StrLe(a: string, b: string)
    decreases |a|
  {
    if |a| == 0 then true
    else if |b| == 0 then false
    else if a[0] != b[0] then a[0] < b[0]
    else StrLe(a[1..], b[1..])
  }

  /** `a <= b`: integers numerically, strings lexicographically, every integer before every string. */
  predicate Le(a: Key, b: Key) {
    match (a, b)
    case (Int(x), Int(y)) => x <= y
    case (Str(x), Str(y)) => StrLe(x, y)
    case (Int(_), Str(_)) => true
    case (Str(_), Int(_)) => false
  }

  /** `a < b`. */
  predicate Lt(a: Key, b: Key) {
    !Le(b, a)
  }

  lemma {:induction false} StrLeRefl(a: string)
    ensures StrLe(a, a)
    decreases |a|
  {
    if |a| > 0 {
      StrLeRefl(a[1..]);
    }
  }

  lemma {:induction false} StrLeTotal(a: string, b: string)
    ensures StrLe(a, b) || StrLe(b, a)
    decreases |a|
  {
    if |a| > 0 && |b| > 0 && a[0] == b[0] {
      StrLeTotal(a[1..], b[1..]);
    }
  }

  lemma {:induction false} StrLeAntisym(a: string, b: string)
    requires StrLe(a, b) && StrLe(b, a)
    ensures a == b
    decreases |a|
  {
    if |a| > 0 && |b| > 0 {
      StrLeAntisym(a[1..], b[1..]);
      assert a == [a[0]] + a[1..];
      assert b == [b[0]] + b[1..];
    }
  }

  lemma {:induction false} StrLeTrans(a: string, b: string, c: string)
    requires StrLe(a, b) && StrLe(b, c)
    ensures StrLe(a, c)
    decreases |a|
  {
    if |a| > 0 && |b| > 0 && |c| > 0 && a[0] == b[0] && b[0] == c[0] {
      StrLeTrans(a[1..], b[1..], c[1..]);
    }
  }

  lemma LeRefl(a: Key)
    ensures Le(a, a)
  {
    if a.Str? {
      StrLeRefl(a.s);
    }
  }

  lemma LeTotal(a: Key, b: Key)
    ensures Le(a, b) || Le(b, a)
  {
    if a.Str? && b.Str? {
      StrLeTotal(a.s, b.s);
    }
  }

  lemma LeAntisym(a: Key, b: Key)
    requires Le(a, b) && Le(b, a)
    ensures a == b
  {
    if a.Str? && b.Str? {
      StrLeAntisym(a.s, b.s);
    }
  }

  lemma LeTrans(a: Key, b: Key, c: Key)
    requires Le(a, b) && Le(b, c)
    ensures Le(a, c)
  {
    if a.Str? && b.Str? && c.Str? {
      StrLeTrans(a.s, b.s, c.s);
    }
  }

  /** `<` is irreflexive and implies `<=`; of two different keys one is below the other. */
  lemma LtFacts(a: Key, b: Key)
    ensures !Lt(a, a)
    ensures Lt(a, b) ==> Le(a, b) && a != b
    ensures a != b ==> Lt(a, b) || Lt(b, a)
  {
    LeRefl(a);
    LeTotal(a, b);
    if Le(a, b) && Le(b, a) {
      LeAntisym(a, b);
    }
  }

  /** Every element is at least its predecessor: what `is_monotonic_increasing` reports. */
  predicate NonDecreasing(s: seq<Key>) {
    forall i :: 0 < i < |s| ==> Le(s[i - 1], s[i])
  }

  /** Every element is at most its predecessor: what `is_monotonic_decreasing` reports. */
  predicate NonIncreasing(s: seq<Key>) {
    forall i :: 0 < i < |s| ==> Le(s[i], s[i - 1])
  }

  /** The integer a missing datetime or timedelta (NaT) is stored as: the smallest signed 64-bit integer. */
  const NaTValue: int := -0x8000_0000_0000_0000

  /** The array holds a NaT. */
  predicate HasNaT(s: seq<Key>) {
    Int(NaTValue) in s
  }

  /**
   * What the engine's monotonic check reports as increasing: on a datetime or
   * timedelta array (`timelike`) any NaT makes it neither increasing nor
   * decreasing; otherwise it is plain non-decreasing order.
   */
  predicate MonotonicIncreasing(s: seq<Key>, timelike: bool) {
    NonDecreasing(s) && !(timelike && HasNaT(s))
  }

  /** The decreasing counterpart of `MonotonicIncreasing`. */
  predicate MonotonicDecreasing(s: seq<Key>, timelike: bool) {
    NonIncreasing(s) && !(timelike && HasNaT(s))
  }

  /** Every pair is in order: the precondition of a binary search. */
  ghost predicate Sorted(s: seq<Key>) {
    forall i, j :: 0 <= i <= j < |s| ==> Le(s[i], s[j])
  }

  /** `s[::-1]`. */
  function Reverse(s: seq<Key>): (r: seq<Key>)
    ensures |r| == |s|
    ensures forall i :: 0 <= i < |s| ==> r[i] == s[|s| - 1 - i] && r[|s| - 1 - i] == s[i]
  {
    seq(|s|, i requires 0 <= i < |s| => s[|s| - 1 - i])
  }

  lemma {:induction false} NonDecreasingChain(s: seq<Key>, i: nat, j: nat)
    requires NonDecreasing(s) && i <= j < |s|
    ensures Le(s[i], s[j])
    decreases j - i
  {
    if i == j {
      LeRefl(s[i]);
    } else {
      NonDecreasingChain(s, i, j - 1);
      LeTrans(s[i], s[j - 1], s[j]);
    }
  }

  lemma {:induction false} NonIncreasingChain(s: seq<Key>, i: nat, j: nat)
    requires NonIncreasing(s) && i <= j < |s|
    ensures Le(s[j], s[i])
    decreases j - i
  {
    if i == j {
      LeRefl(s[i]);
    } else {
      NonIncreasingChain(s, i, j - 1);
      LeTrans(s[j], s[j - 1], s[i]);
    }
  }

  /** Adjacent order gives pairwise order. */
  lemma NonDecreasingIsSorted(s: seq<Key>)
    requires NonDecreasing(s)
    ensures Sorted(s)
  {
    forall i, j | 0 <= i <= j < |s|
      ensures Le(s[i], s[j])
    {
      NonDecreasingChain(s, i, j);
    }
  }

  /** Reversing turns a non-increasing array into a non-decreasing one and back. */
  lemma ReverseFlipsOrder(s: seq<Key>)
    ensures NonIncreasing(s) <==> NonDecreasing(Reverse(s))
    ensures NonDecreasing(s) <==> NonIncreasing(Reverse(s))
  {
    var r := Reverse(s);
    var n := |s|;
    if NonIncreasing(s) {
      forall i | 0 < i < n ensures Le(r[i - 1], r[i]) {
        assert r[i - 1] == s[n - i] && r[i] == s[n - 1 - i];
      }
    }
    if NonDecreasing(r) {
      forall i | 0 < i < n ensures Le(s[i], s[i - 1]) {
        assert r[n - i] == s[i - 1] && r[n - i - 1] == s[i];
      }
    }
    if NonDecreasing(s) {
      forall i | 0 < i < n ensures Le(r[i], r[i - 1]) {
        assert r[i - 1] == s[n - i] && r[i] == s[n - 1 - i];
      }
    }
    if NonIncreasing(r) {
      forall i | 0 < i < n ensures Le(s[i - 1], s[i]) {
        assert r[n - i] == s[i - 1] && r[n - i - 1] == s[i];
      }
    }
  }

  /** Reversing twice gives the array back. */
  lemma ReverseInvolutive(s: seq<Key>)
    ensures Reverse(Reverse(s)) == s
  {
    var r := Reverse(s);
    assert forall i :: 0 <= i < |s| ==> Reverse(r)[i] == r[|s| - 1 - i];
  }
}
