/**
 Instants and time zones: velox's `Timestamp` (seconds plus nanoseconds), the
 `TIMESTAMP WITH TIME ZONE` pair (UTC milliseconds plus a zone id), the zone
 shifts `toTimezone`/`toGMT`, and the millisecond conversions.
 */
module Instant {
  import opened CInt
  import opened Wrappers
  import opened Errors
  import opened Calendar

  type Nanos = n: int | 0 <= n < 1_000_000_000

  /** `Timestamp`: whole seconds since the epoch and a nanosecond fraction that
      is always reduced into [0, 1e9), so pre-epoch instants have negative seconds. */
  datatype Timestamp = Timestamp(seconds: int, nanos: Nanos)

  /** A time zone as the core consumes it: its offset from UTC in seconds,
      looked up at a UTC instant (`toTimezone`) or at a local wall-clock reading
      (`toGMT`, which resolves the local time through the zone's rules). */
  datatype Zone = Zone(utcOffset: int -> int, localOffset: int -> int)

  /** Zone ids other than GMT's resolve to zones through the time-zone database. */
  type ZoneDatabase = int -> Zone

  /** The id of GMT (`+00:00`), the fallback of the parsing functions. */
  const GmtZoneId: int := 0

  /** GMT: no offset at any instant. */
  const Gmt: Zone := Zone(s => 0, s => 0)

  /** `Timestamp::toTimezone`: the wall clock of the zone at this instant. */
  function ToTimezone(t: Timestamp, z: Zone): (r: Timestamp)
    ensures r.nanos == t.nanos
    ensures r.seconds - t.seconds == z.utcOffset(t.seconds)
  {
    Timestamp(t.seconds + z.utcOffset(t.seconds), t.nanos)
  }

  /** `Timestamp::toGMT`: the UTC instant of a wall-clock reading in the zone. */
  function ToGmt(t: Timestamp, z: Zone): (r: Timestamp)
    ensures r.nanos == t.nanos
    ensures t.seconds - r.seconds == z.localOffset(t.seconds)
  {
    Timestamp(t.seconds - z.localOffset(t.seconds), t.nanos)
  }

  /** A zone whose offset never changes. */
  ghost predicate FixedOffset(z: Zone, offset: int) {
    (forall s :: z.utcOffset(s) == offset) && (forall s :: z.localOffset(s) == offset)
  }

  /** The zone of an id: id 0 is GMT whatever the database holds, and every
      other id is looked up. */
  function ZoneOf(db: ZoneDatabase, id: int): (z: Zone)
    ensures id == GmtZoneId ==> FixedOffset(z, 0)
    ensures id != GmtZoneId ==> z == db(id)
  {
    if id == GmtZoneId then Gmt else db(id)
  }

  /** In a fixed-offset zone `toGMT` undoes `toTimezone`. */
  lemma FixedOffsetRoundTrip(t: Timestamp, z: Zone, offset: int)
    requires FixedOffset(z, offset)
    ensures ToGmt(ToTimezone(t, z), z) == t
  {
  }

  /** Exact milliseconds of a timestamp, sub-millisecond nanos dropped. */
  function ExactMillis(t: Timestamp): int {
    t.seconds * 1000 + t.nanos / 1_000_000
  }

  /** `Timestamp::toMillis`: fails when the milliseconds do not fit an int64. */
  function ToMillis(t: Timestamp): (r: Result<Int64, DateTimeError>)
    ensures r.Ok? <==> InInt64(ExactMillis(t))
    ensures r.Ok? ==> r.value == t.seconds * 1000 + t.nanos / 1_000_000
    ensures r.Err? ==> r.error == MillisOverflow(t.seconds, t.nanos)
  {
    var ms := ExactMillis(t);
    if InInt64(ms) then Ok(ms) else Err(MillisOverflow(t.seconds, t.nanos))
  }

  /** `Timestamp::fromMillis`: seconds are the floor of millis / 1000, so the
      nanosecond fraction stays non-negative before the epoch. */
  function FromMillis(ms: int): (r: Timestamp)
    ensures ExactMillis(r) == ms
    ensures r.nanos % 1_000_000 == 0
  {
    Timestamp(ms / 1000, ms % 1000 * 1_000_000)
  }

  /** Milliseconds survive a trip through a timestamp. */
  lemma ToMillisOfFromMillis(ms: Int64)
    ensures ToMillis(FromMillis(ms)) == Ok(ms)
  {
  }

  /** A timestamp survives a trip through milliseconds exactly when it has no
      sub-millisecond part. */
  lemma {:induction false} FromMillisOfToMillis(t: Timestamp)
    requires InInt64(ExactMillis(t))
    ensures FromMillis(ExactMillis(t)) == t <==> t.nanos % 1_000_000 == 0
  {
    var ms := ExactMillis(t);
    var q := t.nanos / 1_000_000;
    EuclidUnique(ms, 1000, t.seconds, q);
    if t.nanos % 1_000_000 == 0 {
      assert t.nanos == q * 1_000_000;
    }
  }

  /** `TIMESTAMP WITH TIME ZONE`: UTC milliseconds and the id of the zone the
      value is expressed in. */
  datatype ZonedTimestamp = ZonedTimestamp(millis: Int64, zoneId: int)

  /** `TimestampWithTimezoneSupport::toTimestamp`: the value's wall clock in its own zone. */
  function ZonedLocal(v: ZonedTimestamp, db: ZoneDatabase): (r: Timestamp)
    ensures r.seconds == v.millis / 1000 + ZoneOf(db, v.zoneId).utcOffset(v.millis / 1000)
    ensures r.nanos == v.millis % 1000 * 1_000_000
  {
    ToTimezone(FromMillis(v.millis), ZoneOf(db, v.zoneId))
  }

  /** `TimestampWithTimezoneSupport::getGMTOffsetSec`: the zone's offset as the
      difference between the local reading and its UTC resolution. */
  function GmtOffsetSeconds(v: ZonedTimestamp, db: ZoneDatabase): (r: int)
    ensures r == ZoneOf(db, v.zoneId).localOffset(ZonedLocal(v, db).seconds)
  {
    var local := ZonedLocal(v, db);
    local.seconds - ToGmt(local, ZoneOf(db, v.zoneId)).seconds
  }

  /** Seconds of the wall clock a `Timestamp` argument is read in: the session
      zone's when one is configured, UTC otherwise. */
  function LocalSeconds(t: Timestamp, zone: Option<Zone>): (r: int)
    ensures zone.None? ==> r == t.seconds
    ensures zone.Some? ==> r == t.seconds + zone.value.utcOffset(t.seconds)
  {
    match zone
    case None => t.seconds
    case Some(z) => ToTimezone(t, z).seconds
  }

  /** `getDateTime(timestamp, timeZone)`. */
  function TimestampTm(t: Timestamp, zone: Option<Zone>): (r: Tm)
    ensures ValidTm(r) && Timegm(r) == LocalSeconds(t, zone)
  {
    BreakDown(LocalSeconds(t, zone))
  }

  /** `getDateTime(date)`: midnight UTC of a day count. */
  function DaysTm(days: int): (r: Tm)
    ensures ValidTm(r) && TmDayNumber(r) == days
    ensures r.hour == 0 && r.min == 0 && r.sec == 0
  {
    var t := BreakDown(days * SecondsPerDay);
    DivisionOfMultiple(days, SecondsPerDay);
    EuclidUnique(Timegm(t), SecondsPerDay, days, 0);
    MidnightFields(t);
    t
  }

  lemma MidnightFields(t: Tm)
    requires ValidTm(t) && Timegm(t) % SecondsPerDay == 0
    ensures t.hour == 0 && t.min == 0 && t.sec == 0
  {
    var n := TmDayNumber(t);
    var sod := t.hour * 3600 + t.min * 60 + t.sec;
    assert 0 <= t.mon < 12;
    assert t.mon / 12 == 0 && t.mon % 12 == t.mon;
    assert Timegm(t) == n * SecondsPerDay + sod;
    EuclidUnique(Timegm(t), SecondsPerDay, n, sod);
  }
}
