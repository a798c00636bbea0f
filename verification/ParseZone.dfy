/**
 The time zone the parsing functions resolve a parsed wall clock in: the
 zone the text named, else the session zone, else zone 0 (GMT). Zone ids
 are stored in 16 bits. The pattern languages themselves are not modelled:
 the parser's output (a wall-clock timestamp and a zone id, -1 when the text
 named none) is an input here.
 */
module ParseZone {
  import opened CInt
  import opened Wrappers
  import opened Errors
  import opened Instant
  import Shift

  /** The id the parser reports when the text names no zone. */
  const NoZone: int := -1

  /** `ParseDateTimeFunction`'s choice of zone id, narrowed to `int16_t`. */
  function ZoneIdFallback(parsedId: Int64, sessionId: Option<Int64>): (r: int)
    ensures InInt16(r)
    ensures parsedId != NoZone && InInt16(parsedId) ==> r == parsedId
    ensures parsedId == NoZone && sessionId.None? ==> r == 0
    ensures parsedId == NoZone && sessionId.Some? && InInt16(sessionId.value) ==> r == sessionId.value
  {
    Wrap16(if parsedId != NoZone then parsedId else sessionId.ValueOr(0))
  }

  /** `DateParseFunction`: the MySQL patterns name no zone, so the wall clock
      is resolved in the session zone, or GMT without one. */
  function DateParse(parsed: Timestamp, sessionId: Option<Int64>, db: ZoneDatabase): (r: Timestamp)
    ensures r.nanos == parsed.nanos
    ensures parsed.seconds - r.seconds == ZoneOf(db, ZoneIdFallback(NoZone, sessionId)).localOffset(parsed.seconds)
    ensures ZoneIdFallback(NoZone, sessionId) == GmtZoneId ==> r == parsed
  {
    ToGmt(parsed, ZoneOf(db, Wrap16(sessionId.ValueOr(0))))
  }

  /** `ParseDateTimeFunction`: the wall clock is resolved to UTC in the
      chosen zone and kept with that zone's id; the UTC milliseconds must fit
      in 64 bits. */
  function ParseDateTime(parsed: Timestamp, parsedId: Int64, sessionId: Option<Int64>, db: ZoneDatabase): (r: Result<ZonedTimestamp, DateTimeError>)
    ensures r.Ok? ==> r.value.zoneId == ZoneIdFallback(parsedId, sessionId)
    ensures r.Ok? <==> InInt64(ExactMillis(ToGmt(parsed, ZoneOf(db, ZoneIdFallback(parsedId, sessionId)))))
    ensures ZoneIdFallback(parsedId, sessionId) == GmtZoneId ==>
      r == if InInt64(ExactMillis(parsed)) then Ok(ZonedTimestamp(ExactMillis(parsed), GmtZoneId))
           else Err(MillisOverflow(parsed.seconds, parsed.nanos))
  {
    var zoneId := ZoneIdFallback(parsedId, sessionId);
    var utc := ToGmt(parsed, ZoneOf(db, zoneId));
    var millis :- ToMillis(utc);
    Ok(ZonedTimestamp(millis, zoneId))
  }

  /** Without a zone in the text, both parsers land on the same instant. */
  lemma ParsersAgreeWithoutZone(parsed: Timestamp, sessionId: Option<Int64>, db: ZoneDatabase)
    requires ParseDateTime(parsed, NoZone, sessionId, db).Ok?
    ensures ParseDateTime(parsed, NoZone, sessionId, db).value.millis == ExactMillis(DateParse(parsed, sessionId, db))
  {
  }

  /** Reading a parsed TIMESTAMP WITH TIME ZONE back in its own zone gives
      the wall clock that was parsed, when that zone's wall clock round-trips
      and the parse is millisecond-precise. */
  lemma {:induction false} ParsedWallClockRoundTrip(parsed: Timestamp, parsedId: Int64, sessionId: Option<Int64>, db: ZoneDatabase)
    requires ParseDateTime(parsed, parsedId, sessionId, db).Ok?
    requires Shift.WallClockRoundTrip(ZoneOf(db, ZoneIdFallback(parsedId, sessionId)))
    requires parsed.nanos % 1_000_000 == 0
    ensures ZonedLocal(ParseDateTime(parsed, parsedId, sessionId, db).value, db) == parsed
  {
    var zone := ZoneOf(db, ZoneIdFallback(parsedId, sessionId));
    var utc := ToGmt(parsed, zone);
    FromMillisOfToMillis(utc);
    assert FromMillis(ExactMillis(utc)) == utc;
    assert ToTimezone(utc, zone) == parsed;
  }

  /** With neither a zone in the text nor a session zone, both parsers read
      the wall clock as GMT. */
  lemma ParsersFallBackToGmt(parsed: Timestamp, db: ZoneDatabase)
    ensures DateParse(parsed, None, db) == parsed
    ensures InInt64(ExactMillis(parsed)) ==>
      ParseDateTime(parsed, NoZone, None, db) == Ok(ZonedTimestamp(ExactMillis(parsed), GmtZoneId))
  {
  }

  /** A zone id outside 16 bits is narrowed: 65,536 + 5 becomes 5. */
  lemma NarrowedSessionExample()
    ensures ZoneIdFallback(NoZone, Some(65_541)) == 5
    ensures ZoneIdFallback(7, Some(65_541)) == 7
  {
  }
}
