/**
 * The datetime and timedelta engines: an integer engine over nanosecond
 * counts that first checks the kind of the query. Only a scalar of the
 * engine's own kind, or NaT, is unboxed to its nanosecond count; anything
 * else is refused before the array is looked at.
 */
module Temporal {
  import opened Keys
  import opened Results
  import opened Lookup
  import opened Engines

  /** Which engine: `DatetimeEngine` (datetime64[ns]) or `TimedeltaEngine` (timedelta64[ns]). */
  datatype Unit = Datetime | Timedelta

  /** A query scalar, each carrying the nanosecond count it stands for. */
  datatype Scalar =
    | Timestamp(ns: int)        // pandas Timestamp
    | TimedeltaScalar(ns: int)  // pandas Timedelta
    | NaT                       // the missing-value marker of both kinds
    | RawInt(ns: int)           // a plain integer, e.g. a Timestamp's `.value`
    | PyDatetime(ns: int)       // datetime.datetime
    | PyTimedelta(ns: int)      // datetime.timedelta
    | Datetime64(ns: int)       // numpy.datetime64
    | Timedelta64(ns: int)      // numpy.timedelta64

  /** The scalars the engine of `unit` unboxes: its own pandas scalar kind and NaT. */
  predicate Accepts(unit: Unit, q: Scalar) {
    match q
    case NaT => true
    case Timestamp(_) => unit == Datetime
    case TimedeltaScalar(_) => unit == Timedelta
    case _ => false
  }

  /**
   * `_unbox_scalar`: the nanosecond count of an accepted scalar, a
   * TypeError for every other kind, even one denoting the same instant.
   */
  function Unbox(unit: Unit, q: Scalar): (r: Result<int>)
    ensures r.Ok? <==> Accepts(unit, q)
    ensures r.Err? ==> r.error == TypeMismatch
    ensures q.NaT? ==> r == Ok(NaTValue)
    ensures r.Ok? && !q.NaT? ==> r.value == q.ns
  {
    if !Accepts(unit, q) then Err(TypeMismatch)
    else if q.NaT? then Ok(NaTValue)
    else Ok(q.ns)
  }

  /** The integer keys an engine over nanosecond counts holds. */
  function IntKeys(ns: seq<int>): (r: seq<Key>)
    ensures |r| == |ns| && forall i :: 0 <= i < |ns| ==> r[i] == Int(ns[i])
  {
    seq(|ns|, i requires 0 <= i < |ns| => Int(ns[i]))
  }

  /** `get_loc`: a refused kind becomes a KeyError; otherwise the integer lookup of the count. */
  function GetLocSpec(unit: Unit, keys: seq<Key>, q: Scalar): Result<Loc> {
    match Unbox(unit, q)
    case Err(_) => Err(NotFound)
    case Ok(v) => Lookup.GetLoc(keys, Int(v), true)
  }

  /**
   * `__contains__`: a refused kind stays a TypeError; otherwise membership
   * is whether `get_loc` finds the key.
   */
  function ContainsSpec(unit: Unit, keys: seq<Key>, q: Scalar): Result<bool> {
    match Unbox(unit, q)
    case Err(e) => Err(e)
    case Ok(_) => Ok(GetLocSpec(unit, keys, q).Ok?)
  }

  /**
   * The kind guard: a refused scalar makes `in` a TypeError and `get_loc`
   * a KeyError, whatever the array holds (unique or not, sorted or not,
   * even when its nanosecond count is in the array).
   */
  lemma RefusedKindGuard(unit: Unit, keys: seq<Key>, q: Scalar)
    requires !Accepts(unit, q)
    ensures ContainsSpec(unit, keys, q) == Err(TypeMismatch)
    ensures GetLocSpec(unit, keys, q) == Err(NotFound)
  {
  }

  /**
   * For an accepted scalar nothing is raised by `in`, and it answers true
   * exactly when the count is in the array, which is exactly when
   * `get_loc` succeeds.
   */
  lemma ContainsIffGetLoc(unit: Unit, keys: seq<Key>, q: Scalar)
    requires Accepts(unit, q)
    ensures ContainsSpec(unit, keys, q).Ok?
    ensures ContainsSpec(unit, keys, q).value <==> Int(Unbox(unit, q).value) in keys
    ensures ContainsSpec(unit, keys, q).value <==> GetLocSpec(unit, keys, q).Ok?
  {
  }

  /** The kinds each engine refuses in the tests: the other kind, a raw integer, the Python and numpy scalars. */
  lemma TestedScalarsRefused(ns: int)
    ensures !Accepts(Datetime, TimedeltaScalar(ns)) && !Accepts(Datetime, RawInt(ns))
    ensures !Accepts(Datetime, PyDatetime(ns)) && !Accepts(Datetime, Datetime64(ns))
    ensures !Accepts(Timedelta, Timestamp(ns)) && !Accepts(Timedelta, RawInt(ns))
    ensures !Accepts(Timedelta, PyTimedelta(ns)) && !Accepts(Timedelta, Timedelta64(ns))
  {
  }

  /** `DatetimeEngine` / `TimedeltaEngine`: a searchsorted, timelike integer engine behind the kind guard. */
  class TemporalEngine {
    const unit: Unit
    const engine: Engine

    ghost predicate Valid()
      reads this, engine
    {
      engine.Valid() && !engine.usesBinSearch && engine.timelike
    }

    constructor(u: Unit, ns: seq<int>)
      ensures unit == u && engine.values == IntKeys(ns) && fresh(engine) && Valid()
    {
      unit := u;
      engine := new Engine(IntKeys(ns), false, true);
    }

    /** `get_loc`: unbox (a refusal is a KeyError), then the integer engine's lookup. */
    method GetLoc(q: Scalar) returns (r: Result<Loc>)
      requires Valid()
      modifies engine
      ensures Valid() && engine.WriteOnce()
      ensures r == GetLocSpec(unit, engine.values, q)
    {
      var conv := Unbox(unit, q);
      if conv.Err? {
        return Err(NotFound);
      }
      r := engine.GetLoc(Int(conv.value));
    }

    /** `__contains__`: unbox (a refusal is a TypeError), then whether `get_loc` finds the key. */
    method Contains(q: Scalar) returns (r: Result<bool>)
      requires Valid()
      modifies engine
      ensures Valid() && engine.WriteOnce()
      ensures r == ContainsSpec(unit, engine.values, q)
    {
      var conv := Unbox(unit, q);
      if conv.Err? {
        return Err(conv.error);
      }
      var loc := GetLoc(q);
      r := Ok(loc.Ok?);
    }
  }
}
