/**
 `date_add` and `date_diff` on TIMESTAMP, DATE and TIMESTAMP WITH TIME ZONE:
 unit resolution, the 32-bit overflow check on the amount, and the time-zone
 handling around the calendar arithmetic. The arithmetic itself
 (`addToTimestamp`, `diffTimestamp`, `addToDate`, `diffDate`) is a parameter.
 */
module Shift {
  import opened CInt
  import opened Wrappers
  import opened Errors
  import opened Units
  import opened Instant

  /** `addToTimestamp(timestamp, unit, value)`. */
  type TimestampAdder = (Timestamp, DateTimeUnit, Int32) -> Timestamp
  /** `diffTimestamp(unit, from, to)`. */
  type TimestampDiffer = (DateTimeUnit, Timestamp, Timestamp) -> Int64
  /** `addToDate(date, unit, value)`. */
  type DateAdder = (Int32, DateTimeUnit, Int32) -> Int32
  /** `diffDate(unit, from, to)`. */
  type DateDiffer = (DateTimeUnit, Int32, Int32) -> Int64

  /** The amount check `value != (int32_t)value`: amounts outside 32 bits are
      rejected as an integer overflow. */
  function CheckedAmount(value: Int64): (r: Result<Int32, DateTimeError>)
    ensures r.Ok? <==> InInt32(value)
    ensures r.Ok? ==> r.value == value
    ensures r.Err? ==> r.error == IntegerOverflow
  {
    Wrap32Identity(value);
    if value != Wrap32(value) then Err(IntegerOverflow) else Ok(Wrap32(value))
  }

  /** `DateAddFunction::call` for TIMESTAMP. Any unit is accepted; an unknown
      one fails before the amount is checked. With a session zone the
      arithmetic runs on the zone's wall clock: a time unit's result is moved
      back by the offset at the original instant, a date unit's result is
      resolved back to UTC in the zone. */
  function DateAddTimestamp(unitString: string, value: Int64, ts: Timestamp, session: Option<Zone>, add: TimestampAdder): (r: Result<Timestamp, DateTimeError>)
    ensures ParseUnit(unitString).None? ==> r == Err(UnsupportedUnit(unitString))
    ensures ParseUnit(unitString).Some? ==> (r.Err? <==> !InInt32(value))
    ensures ParseUnit(unitString).Some? && !InInt32(value) ==> r == Err(IntegerOverflow)
  {
    var unit :- RequireUnit(FromUnitString(unitString, true), unitString);
    var amount :- CheckedAmount(value);
    match session
    case None => Ok(add(ts, unit, amount))
    case Some(zone) =>
      var zoned := ToTimezone(ts, zone);
      var shifted := add(zoned, unit, amount);
      if IsTimeUnit(unit) then
        var offset := ts.seconds - zoned.seconds;
        Ok(Timestamp(shifted.seconds + offset, shifted.nanos))
      else
        Ok(ToGmt(shifted, zone))
  }

  /** `DateDiffFunction::call` for TIMESTAMP. With a session zone both
      arguments are read on the zone's wall clock; for a time unit the second
      one is moved by the offset at the first instant, so that whole hours
      and minutes are counted in absolute time. */
  function DateDiffTimestamp(unitString: string, t1: Timestamp, t2: Timestamp, session: Option<Zone>, diff: TimestampDiffer): (r: Result<Int64, DateTimeError>)
    ensures ParseUnit(unitString).None? <==> r.Err?
    ensures r.Err? ==> r.error == UnsupportedUnit(unitString)
  {
    var unit :- RequireUnit(FromUnitString(unitString, true), unitString);
    match session
    case None => Ok(diff(unit, t1, t2))
    case Some(zone) =>
      var from := ToTimezone(t1, zone);
      if IsTimeUnit(unit) then
        var offset := t1.seconds - from.seconds;
        Ok(diff(unit, from, Timestamp(t2.seconds - offset, t2.nanos)))
      else
        Ok(diff(unit, from, ToTimezone(t2, zone)))
  }

  /** Time-unit arithmetic that only depends on the distance between instants. */
  ghost predicate AddShiftInvariant(add: TimestampAdder) {
    forall t1: Timestamp, t2: Timestamp, u: DateTimeUnit, v: Int32 {:trigger add(t1, u, v), add(t2, u, v)} ::
      IsTimeUnit(u) && t1.nanos == t2.nanos ==>
        && add(t2, u, v).seconds - add(t1, u, v).seconds == t2.seconds - t1.seconds
        && add(t2, u, v).nanos == add(t1, u, v).nanos
  }

  ghost predicate DiffShiftInvariant(diff: TimestampDiffer) {
    forall u: DateTimeUnit, a1: Timestamp, a2: Timestamp, b1: Timestamp, b2: Timestamp {:trigger diff(u, a1, a2), diff(u, b1, b2)} ::
      IsTimeUnit(u) && a1.nanos == b1.nanos && a2.nanos == b2.nanos
        && b1.seconds - a1.seconds == b2.seconds - a2.seconds ==>
        diff(u, a1, a2) == diff(u, b1, b2)
  }

  /** `diff` counts back exactly the units `add` added. */
  ghost predicate DiffInvertsAdd(add: TimestampAdder, diff: TimestampDiffer) {
    forall t: Timestamp, u: DateTimeUnit, v: Int32 {:trigger add(t, u, v)} :: diff(u, t, add(t, u, v)) == v
  }

  /** A zone in which resolving a wall clock to UTC and reading it back is the identity. */
  ghost predicate WallClockRoundTrip(z: Zone) {
    forall t: Timestamp {:trigger ToGmt(t, z)} :: ToTimezone(ToGmt(t, z), z) == t
  }

  /** Fixed-offset zones have the round trip. */
  lemma FixedOffsetWallClockRoundTrip(z: Zone, offset: int)
    requires FixedOffset(z, offset)
    ensures WallClockRoundTrip(z)
  {
  }

  /** Adding a time unit gives the same instant whatever the session zone,
      when the arithmetic depends only on distances between instants. */
  lemma TimeUnitAddIgnoresZone(unitString: string, value: Int64, ts: Timestamp, zone: Zone, add: TimestampAdder)
    requires AddShiftInvariant(add)
    requires ParseUnit(unitString).Some? && IsTimeUnit(ParseUnit(unitString).value)
    ensures DateAddTimestamp(unitString, value, ts, Some(zone), add) == DateAddTimestamp(unitString, value, ts, None, add)
  {
    if InInt32(value) {
      var u := ParseUnit(unitString).value;
      var zoned := ToTimezone(ts, zone);
      assert add(zoned, u, value).seconds - add(ts, u, value).seconds == zoned.seconds - ts.seconds;
    }
  }

  /** Likewise a time-unit difference does not depend on the session zone. */
  lemma TimeUnitDiffIgnoresZone(unitString: string, t1: Timestamp, t2: Timestamp, zone: Zone, diff: TimestampDiffer)
    requires DiffShiftInvariant(diff)
    requires ParseUnit(unitString).Some? && IsTimeUnit(ParseUnit(unitString).value)
    ensures DateDiffTimestamp(unitString, t1, t2, Some(zone), diff) == DateDiffTimestamp(unitString, t1, t2, None, diff)
  {
    var u := ParseUnit(unitString).value;
    var from := ToTimezone(t1, zone);
    var to := Timestamp(t2.seconds - (t1.seconds - from.seconds), t2.nanos);
    assert diff(u, from, to) == diff(u, t1, t2);
  }

  /** `date_diff` counts back the amount `date_add` added, with or without a
      session zone: for a time unit because both sides use the offset at the
      first instant, for a date unit when the zone's wall clock round-trips. */
  lemma AddThenDiff(unitString: string, value: Int64, ts: Timestamp, session: Option<Zone>, add: TimestampAdder, diff: TimestampDiffer)
    requires DiffInvertsAdd(add, diff)
    requires ParseUnit(unitString).Some? && InInt32(value)
    requires session.Some? && IsDateUnit(ParseUnit(unitString).value) ==> WallClockRoundTrip(session.value)
    ensures DateAddTimestamp(unitString, value, ts, session, add).Ok?
    ensures DateDiffTimestamp(unitString, ts, DateAddTimestamp(unitString, value, ts, session, add).value, session, diff) == Ok(value)
  {
    var u := ParseUnit(unitString).value;
    var r := DateAddTimestamp(unitString, value, ts, session, add).value;
    match session {
      case None =>
        assert r == add(ts, u, value);
      case Some(zone) =>
        var zoned := ToTimezone(ts, zone);
        var shifted := add(zoned, u, value);
        if IsTimeUnit(u) {
          assert Timestamp(r.seconds - (ts.seconds - zoned.seconds), r.nanos) == shifted;
        } else {
          assert r == ToGmt(shifted, zone);
          assert ToTimezone(r, zone) == shifted;
        }
        assert diff(u, zoned, shifted) == value;
    }
  }

  /** `DateAddFunction::call` for TIMESTAMP WITH TIME ZONE: the arithmetic
      runs on the value's own wall clock (no session zone), the result is
      resolved to UTC in the value's zone and must fit in 64-bit milliseconds.
      The zone id is kept. */
  function DateAddZoned(unitString: string, value: Int64, v: ZonedTimestamp, db: ZoneDatabase, add: TimestampAdder): (r: Result<ZonedTimestamp, DateTimeError>)
    ensures ParseUnit(unitString).None? ==> r == Err(UnsupportedUnit(unitString))
    ensures ParseUnit(unitString).Some? && !InInt32(value) ==> r == Err(IntegerOverflow)
    ensures r.Ok? ==> r.value.zoneId == v.zoneId
  {
    var unit :- RequireUnit(FromUnitString(unitString, true), unitString);
    var amount :- CheckedAmount(value);
    var finalTimestamp := ToGmt(add(ZonedLocal(v, db), unit, amount), ZoneOf(db, v.zoneId));
    var millis :- ToMillis(finalTimestamp);
    Ok(ZonedTimestamp(millis, v.zoneId))
  }

  /** `DateDiffFunction::call` for TIMESTAMP WITH TIME ZONE: the difference
      of the two wall clocks, each in its own zone, with no session zone
      (this overload never reads the session configuration). */
  function DateDiffZoned(unitString: string, v1: ZonedTimestamp, v2: ZonedTimestamp, db: ZoneDatabase, diff: TimestampDiffer): (r: Result<Int64, DateTimeError>)
    ensures ParseUnit(unitString).None? <==> r.Err?
    ensures r.Ok? ==> r.value == diff(ParseUnit(unitString).value, ZonedLocal(v1, db), ZonedLocal(v2, db))
  {
    DateDiffTimestamp(unitString, ZonedLocal(v1, db), ZonedLocal(v2, db), None, diff)
  }

  /** Arithmetic that keeps a millisecond-precise wall clock millisecond-precise. */
  ghost predicate AddKeepsMillis(add: TimestampAdder) {
    forall t: Timestamp, u: DateTimeUnit, v: Int32 {:trigger add(t, u, v)} ::
      t.nanos % 1_000_000 == 0 ==> add(t, u, v).nanos % 1_000_000 == 0
  }

  /** `date_diff` counts back the amount `date_add` added to a TIMESTAMP WITH
      TIME ZONE, when the zone's wall clock round-trips. */
  lemma ZonedAddThenDiff(unitString: string, value: Int64, v: ZonedTimestamp, db: ZoneDatabase, add: TimestampAdder, diff: TimestampDiffer)
    requires DiffInvertsAdd(add, diff) && AddKeepsMillis(add)
    requires WallClockRoundTrip(ZoneOf(db, v.zoneId))
    requires ParseUnit(unitString).Some?
    requires DateAddZoned(unitString, value, v, db, add).Ok?
    ensures DateDiffZoned(unitString, v, DateAddZoned(unitString, value, v, db, add).value, db, diff) == Ok(value)
  {
    var u := ParseUnit(unitString).value;
    var z := ZoneOf(db, v.zoneId);
    var local := ZonedLocal(v, db);
    var shifted := add(local, u, value);
    var utc := ToGmt(shifted, z);
    var w := DateAddZoned(unitString, value, v, db, add).value;
    assert w == ZonedTimestamp(ExactMillis(utc), v.zoneId);
    FromMillisOfToMillis(utc);
    assert FromMillis(w.millis) == utc;
    assert ZonedLocal(w, db) == shifted;
  }

  /** `DateAddFunction::call` for DATE: only date units are accepted. */
  function DateAddDate(unitString: string, value: Int64, date: Int32, addDate: DateAdder): (r: Result<Int32, DateTimeError>)
    ensures r.Err? <==> !(ParseUnit(unitString).Some? && IsDateUnit(ParseUnit(unitString).value)) || !InInt32(value)
    ensures ParseUnit(unitString).None? ==> r == Err(UnsupportedUnit(unitString))
    ensures ParseUnit(unitString).Some? && IsTimeUnit(ParseUnit(unitString).value) ==> r == Err(NotADateField(unitString))
    ensures ParseUnit(unitString).Some? && IsDateUnit(ParseUnit(unitString).value) && !InInt32(value) ==> r == Err(IntegerOverflow)
  {
    var unit :- RequireUnit(GetDateUnit(unitString, true), unitString);
    var amount :- CheckedAmount(value);
    Ok(addDate(date, unit, amount))
  }

  /** `DateDiffFunction::call` for DATE: only date units are accepted. */
  function DateDiffDate(unitString: string, d1: Int32, d2: Int32, diffDate: DateDiffer): (r: Result<Int64, DateTimeError>)
    ensures r.Err? <==> !(ParseUnit(unitString).Some? && IsDateUnit(ParseUnit(unitString).value))
    ensures r.Ok? ==> r.value == diffDate(ParseUnit(unitString).value, d1, d2)
  {
    var unit :- RequireUnit(GetDateUnit(unitString, true), unitString);
    Ok(diffDate(unit, d1, d2))
  }

  /** `date_diff` on DATEs counts back what `date_add` added. */
  lemma DateAddThenDiff(unitString: string, value: Int64, date: Int32, addDate: DateAdder, diffDate: DateDiffer)
    requires forall d: Int32, u: DateTimeUnit, v: Int32 {:trigger addDate(d, u, v)} :: diffDate(u, d, addDate(d, u, v)) == v
    requires DateAddDate(unitString, value, date, addDate).Ok?
    ensures DateDiffDate(unitString, date, DateAddDate(unitString, value, date, addDate).value, diffDate) == Ok(value)
  {
  }
}
