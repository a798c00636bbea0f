/**
 The field extractors (`year`, `quarter`, `month`, `day`, `day_of_week`,
 `day_of_year`, `week`, `year_of_week`, `hour`, `minute`, `second`,
 `millisecond`, `timezone_hour`, `timezone_minute`) and `date`, over the three
 argument types: a plain `TIMESTAMP` read in the session zone, a `DATE`
 (a day count) and a `TIMESTAMP WITH TIME ZONE` read in its own zone.
 */
module Extract {
  import opened CInt
  import opened Wrappers
  import opened Calendar
  import opened Instant
  import opened IsoWeek

  /** An argument of an extractor. */
  datatype DateTimeValue =
    | TimestampValue(ts: Timestamp)
    | DateValue(days: Int32)
    | ZonedValue(zoned: ZonedTimestamp)

  /** The day of a second count, as `timestampToDate` computes it on top of
      C++ truncating division: a negative count that is not a whole number of
      days is moved one day back. */
  function SecondsToDays(seconds: int): (d: int)
    ensures d * SecondsPerDay <= seconds < (d + 1) * SecondsPerDay
  {
    if seconds >= 0 || CRem(seconds, SecondsPerDay) == 0 then
      CTrunc(seconds, SecondsPerDay)
    else
      CTrunc(seconds, SecondsPerDay) - 1
  }

  /** The adjusted truncation is floor division. */
  lemma {:induction false} SecondsToDaysIsFloor(seconds: int)
    ensures SecondsToDays(seconds) == seconds / SecondsPerDay
  {
    var d := SecondsToDays(seconds);
    EuclidUnique(seconds, SecondsPerDay, d, seconds - d * SecondsPerDay);
  }

  /** Exactly the negative counts that are not whole days differ from C++ division. */
  lemma SecondsToDaysAdjustment(seconds: int)
    ensures SecondsToDays(seconds) != CTrunc(seconds, SecondsPerDay) <==>
      seconds < 0 && seconds % SecondsPerDay != 0
  {
    CRemZeroIsDivisible(seconds, SecondsPerDay);
  }

  /** `DateFunction::timestampToDate`: the day of the wall clock in the
      session zone, if any, narrowed to the int32 of a DATE. */
  function TimestampToDate(ts: Timestamp, session: Option<Zone>): (r: Int32)
    ensures r == Wrap32(LocalSeconds(ts, session) / SecondsPerDay)
  {
    SecondsToDaysIsFloor(LocalSeconds(ts, session));
    Wrap32(SecondsToDays(LocalSeconds(ts, session)))
  }

  /** The date is the day of the broken-down wall clock the other extractors read. */
  lemma TimestampToDateIsBrokenDownDay(ts: Timestamp, session: Option<Zone>)
    requires InInt32(TmDayNumber(TimestampTm(ts, session)))
    ensures TimestampToDate(ts, session) == TmDayNumber(TimestampTm(ts, session))
  {
  }

  /** One second, or one nanosecond, before the epoch is on 1969-12-31. */
  lemma PreEpochDate()
    ensures TimestampToDate(Timestamp(-1, 0), None) == -1
    ensures TimestampToDate(Timestamp(-1, 999_999_999), None) == -1
    ensures TimestampToDate(Timestamp(-86_400, 0), None) == -1
    ensures TimestampToDate(Timestamp(-86_401, 0), None) == -2
  {
    SecondsToDaysIsFloor(-1);
    SecondsToDaysIsFloor(-86_400);
    SecondsToDaysIsFloor(-86_401);
  }

  /** `date(timestamp with time zone)` as written: the value's wall clock in
      its own zone is passed to `timestampToDate`, which shifts it once more by
      the session zone. */
  function ZonedDateAsWritten(v: ZonedTimestamp, session: Option<Zone>, db: ZoneDatabase): (r: Int32)
    ensures r == Wrap32(LocalSeconds(ZonedLocal(v, db), session) / SecondsPerDay)
  {
    TimestampToDate(ZonedLocal(v, db), session)
  }

  /** `date(timestamp with time zone)` read, like every other extractor of a
      zoned value, in the value's own zone only. */
  function ZonedDate(v: ZonedTimestamp, db: ZoneDatabase): (r: Int32)
    ensures InInt32(LocalDay(ZonedValue(v), db, None)) ==> r == LocalDay(ZonedValue(v), db, None)
  {
    TimestampToDate(ZonedLocal(v, db), None)
  }

  /** A zone ten hours east of UTC, and a database whose every zone is UTC. */
  function PlusTen(): Zone {
    Zone(s => 36_000, s => 36_000)
  }

  function AllUtc(): ZoneDatabase {
    id => Zone(s => 0, s => 0)
  }

  /** 1970-01-01T20:00 in UTC is on 1970-01-01, but with a session zone ten
      hours east the as-written conversion answers 1970-01-02. */
  lemma ZonedDateCounterexample()
    ensures ZonedDate(ZonedTimestamp(72_000_000, 0), AllUtc()) == 0
    ensures ZonedDateAsWritten(ZonedTimestamp(72_000_000, 0), Some(PlusTen()), AllUtc()) == 1
  {
    var v := ZonedTimestamp(72_000_000, 0);
    assert ZonedLocal(v, AllUtc()).seconds == 72_000;
    assert LocalSeconds(ZonedLocal(v, AllUtc()), Some(PlusTen())) == 108_000;
  }

  /** Seconds of the wall clock an extractor reads: the session zone's for a
      TIMESTAMP, midnight for a DATE, the value's own zone for a zoned value. */
  function LocalSecondsOf(v: DateTimeValue, db: ZoneDatabase, session: Option<Zone>): int {
    match v
    case TimestampValue(ts) => LocalSeconds(ts, session)
    case DateValue(days) => days * SecondsPerDay
    case ZonedValue(z) => ZonedLocal(z, db).seconds
  }

  /** The day number (floor) and the second of that day of the wall clock. */
  function LocalDay(v: DateTimeValue, db: ZoneDatabase, session: Option<Zone>): int {
    LocalSecondsOf(v, db, session) / SecondsPerDay
  }

  function LocalSecondOfDay(v: DateTimeValue, db: ZoneDatabase, session: Option<Zone>): int {
    LocalSecondsOf(v, db, session) % SecondsPerDay
  }

  /** `getDateTime` of an extractor's argument: `gmtime_r` of its wall clock. */
  function ValueTm(v: DateTimeValue, db: ZoneDatabase, session: Option<Zone>): (t: Tm)
    ensures ValidTm(t)
    ensures TmDayNumber(t) == LocalDay(v, db, session)
    ensures t.hour * 3600 + t.min * 60 + t.sec == LocalSecondOfDay(v, db, session)
  {
    var t := BreakDown(LocalSecondsOf(v, db, session));
    TimegmSplit(t);
    t
  }

  /** `getYear`: the calendar year holding the local day. */
  function Year(v: DateTimeValue, db: ZoneDatabase, session: Option<Zone>): (r: int)
    ensures YearStart(r) <= LocalDay(v, db, session) < YearStart(r + 1)
  {
    var t := ValueTm(v, db, session);
    ValidTmFacts(t);
    YearStartStep(t.FullYear());
    1900 + t.year
  }

  /** Day number `n` falls in months `first` up to (not including) `last` of year `y`. */
  predicate DayInMonths(y: int, first: int, last: int, n: int)
    requires 0 <= first <= last <= 12
  {
    YearStart(y) + DaysBeforeMonth(y, first) <= n < YearStart(y) + DaysBeforeMonth(y, last)
  }

  /** A day in some months is also in any wider run of months. */
  lemma DayInMonthsWiden(y: int, a: int, b: int, c: int, d: int, n: int)
    requires 0 <= a <= b <= c <= d <= 12
    requires DayInMonths(y, b, c, n)
    ensures DayInMonths(y, a, d, n)
  {
    DaysBeforeMonthMonotone(y, a, b);
    DaysBeforeMonthMonotone(y, c, d);
  }

  /** `getMonth`: the 1-based month holding the local day. */
  function Month(v: DateTimeValue, db: ZoneDatabase, session: Option<Zone>): (r: int)
    ensures 1 <= r <= 12
  {
    1 + ValueTm(v, db, session).mon
  }

  /** The month found is the one whose days hold the local day. */
  lemma MonthHoldsDay(v: DateTimeValue, db: ZoneDatabase, session: Option<Zone>)
    ensures DayInMonths(Year(v, db, session), Month(v, db, session) - 1, Month(v, db, session), LocalDay(v, db, session))
  {
    var t := ValueTm(v, db, session);
    MonthOfTm(t);
    assert Year(v, db, session) == t.FullYear() && Month(v, db, session) == t.mon + 1;
    assert TmDayNumber(t) == LocalDay(v, db, session);
  }

  lemma MonthOfTm(t: Tm)
    requires ValidTm(t)
    ensures DayInMonths(t.FullYear(), t.mon, t.mon + 1, TmDayNumber(t))
  {
    DaysBeforeMonthStep(t.FullYear(), t.mon);
  }

  /** `getQuarter(const std::tm&)`: `tm_mon / 3 + 1`. */
  function TmQuarter(t: Tm): (r: int)
    requires 0 <= t.mon < 12
    ensures 1 <= r <= 4
    ensures 3 * (r - 1) <= t.mon < 3 * r
  {
    CTrunc(t.mon, 3) + 1
  }

  /** The quarter of a record is the one whose three months hold its day. */
  lemma QuarterHoldsDay(t: Tm)
    requires ValidTm(t)
    ensures DayInMonths(t.FullYear(), 3 * (TmQuarter(t) - 1), 3 * TmQuarter(t), TmDayNumber(t))
  {
    MonthOfTm(t);
    DayInMonthsWiden(t.FullYear(), 3 * (TmQuarter(t) - 1), t.mon, t.mon + 1, 3 * TmQuarter(t), TmDayNumber(t));
  }

  /** `getQuarter` on the local wall clock. */
  function Quarter(v: DateTimeValue, db: ZoneDatabase, session: Option<Zone>): (r: int)
    ensures 1 <= r <= 4
    ensures 3 * (r - 1) < Month(v, db, session) <= 3 * r
  {
    TmQuarter(ValueTm(v, db, session))
  }

  /** The quarter holds the month. */
  lemma QuarterHoldsMonth(v: DateTimeValue, db: ZoneDatabase, session: Option<Zone>)
    ensures 3 * (Quarter(v, db, session) - 1) < Month(v, db, session) <= 3 * Quarter(v, db, session)
  {
    var t := ValueTm(v, db, session);
    assert Quarter(v, db, session) == TmQuarter(t) && Month(v, db, session) == t.mon + 1;
  }

  /** `day`: the day of the month of the local day. */
  function DayOfMonth(v: DateTimeValue, db: ZoneDatabase, session: Option<Zone>): (r: int)
    ensures 1 <= r <= 31
  {
    ValueTm(v, db, session).mday
  }

  /** The year, month and day extractors together name a valid date, and that
      date is the local day. */
  lemma ExtractorsRecoverDay(v: DateTimeValue, db: ZoneDatabase, session: Option<Zone>)
    ensures ValidDate(Year(v, db, session), Month(v, db, session) - 1, DayOfMonth(v, db, session))
    ensures DayNumber(Year(v, db, session), Month(v, db, session) - 1, DayOfMonth(v, db, session)) == LocalDay(v, db, session)
  {
    var t := ValueTm(v, db, session);
    var y, m, d := Year(v, db, session), Month(v, db, session), DayOfMonth(v, db, session);
    assert y == t.FullYear() && m - 1 == t.mon && d == t.mday;
    assert ValidDate(t.FullYear(), t.mon, t.mday);
    assert DayNumber(t.FullYear(), t.mon, t.mday) == LocalDay(v, db, session);
  }

  /** `getDayOfWeek`: the ISO weekday of the local day, Monday = 1 … Sunday = 7. */
  function DayOfWeek(v: DateTimeValue, db: ZoneDatabase, session: Option<Zone>): (r: int)
    ensures r == MondayIndex(LocalDay(v, db, session)) + 1
  {
    var t := ValueTm(v, db, session);
    ValidTmFacts(t);
    IsoWeekday(t.wday)
  }

  /** `getDayOfYear`: the 1-based position of the local day in its year. */
  function DayOfYear(v: DateTimeValue, db: ZoneDatabase, session: Option<Zone>): (r: int)
    ensures r == LocalDay(v, db, session) - YearStart(Year(v, db, session)) + 1
    ensures 1 <= r <= DaysInYear(Year(v, db, session))
  {
    var t := ValueTm(v, db, session);
    ValidTmFacts(t);
    t.yday + 1
  }

  /** `year_of_week`: the year holding the Thursday of the local day's week. */
  function YearOfIsoWeek(v: DateTimeValue, db: ZoneDatabase, session: Option<Zone>): (r: int)
    ensures YearStart(r) <= WeekThursday(LocalDay(v, db, session)) < YearStart(r + 1)
  {
    var t := ValueTm(v, db, session);
    IsoWeekIsIsoWeekDate(t);
    YearOfWeek(t)
  }

  /** `week`, through `getWeek` as written: in 1..53, and the ISO 8601 week of
      the local day except on the misnumbered week-0 days, where it answers 53
      for ISO week 52. */
  function Week(v: DateTimeValue, db: ZoneDatabase, session: Option<Zone>): (r: int)
    ensures 1 <= r <= 53
    ensures !MisnumberedWeekZero(ValueTm(v, db, session)) ==>
      IsIsoWeekDate(LocalDay(v, db, session), YearOfIsoWeek(v, db, session), r)
    ensures MisnumberedWeekZero(ValueTm(v, db, session)) ==>
      r == 53 && IsIsoWeekDate(LocalDay(v, db, session), YearOfIsoWeek(v, db, session), 52)
  {
    var t := ValueTm(v, db, session);
    GetWeekIsIsoWeekDate(t);
    GetWeek(t)
  }

  /** The week number `week` evidently intends: the ISO 8601 week of the local
      day in its week-year. */
  function CorrectedWeek(v: DateTimeValue, db: ZoneDatabase, session: Option<Zone>): (r: int)
    ensures 1 <= r <= 53
    ensures IsIsoWeekDate(LocalDay(v, db, session), YearOfIsoWeek(v, db, session), r)
  {
    var t := ValueTm(v, db, session);
    IsoWeekIsIsoWeekDate(t);
    IsoWeekNumber(t)
  }

  /** The two agree except on the misnumbered days. */
  lemma WeekAgreesWithCorrected(v: DateTimeValue, db: ZoneDatabase, session: Option<Zone>)
    ensures Week(v, db, session) == CorrectedWeek(v, db, session) <==> !MisnumberedWeekZero(ValueTm(v, db, session))
  {
    var t := ValueTm(v, db, session);
    GetWeekDiscrepancy(t);
    assert Week(v, db, session) == GetWeek(t);
    assert CorrectedWeek(v, db, session) == IsoWeekNumber(t);
  }

  /** DATE 2022-01-01 (day 18,993, a Saturday) is in ISO week 52 of 2021,
      but `week` answers 53. */
  lemma WeekOf20220101(db: ZoneDatabase, session: Option<Zone>)
    ensures Week(DateValue(18993), db, session) == 53
    ensures CorrectedWeek(DateValue(18993), db, session) == 52
  {
    var t := ValueTm(DateValue(18993), db, session);
    assert LocalDay(DateValue(18993), db, session) == 18993;
    MisnumberedOn20220101(t);
    GetWeekDiscrepancy(t);
    WeekAgreesWithCorrected(DateValue(18993), db, session);
  }

  /** `hour` and `minute` of the local wall clock. */
  function Hour(v: DateTimeValue, db: ZoneDatabase, session: Option<Zone>): (r: int)
    ensures 0 <= r < 24
    ensures 3600 * r <= LocalSecondOfDay(v, db, session) < 3600 * (r + 1)
  {
    ValueTm(v, db, session).hour
  }

  function Minute(v: DateTimeValue, db: ZoneDatabase, session: Option<Zone>): (r: int)
    ensures 0 <= r < 60
    ensures 3600 * Hour(v, db, session) + 60 * r <= LocalSecondOfDay(v, db, session) < 3600 * Hour(v, db, session) + 60 * (r + 1)
  {
    ValueTm(v, db, session).min
  }

  /** `second`: a TIMESTAMP is broken down in UTC, never in the session zone. */
  function SecondOfMinute(v: DateTimeValue, db: ZoneDatabase): (r: int)
    ensures 0 <= r < 60
    ensures r == LocalSecondsOf(v, db, None) % 60
  {
    var t := ValueTm(v, db, None);
    var s := LocalSecondsOf(v, db, None);
    EuclidUnique(s, 60, (s / SecondsPerDay) * 1440 + t.hour * 60 + t.min, t.sec);
    t.sec
  }

  /** `millisecond`: the millisecond of the second; a DATE has none. */
  function MillisecondOfSecond(v: DateTimeValue, db: ZoneDatabase): (r: int)
    ensures 0 <= r < 1000
    ensures v.DateValue? ==> r == 0
    ensures v.ZonedValue? ==> r == v.zoned.millis % 1000
    ensures v.TimestampValue? ==> r * 1_000_000 <= v.ts.nanos < (r + 1) * 1_000_000
  {
    match v
    case TimestampValue(ts) => ts.nanos / 1_000_000
    case DateValue(_) => 0
    case ZonedValue(z) => ZonedLocal(z, db).nanos / 1_000_000
  }

  /** The hour part of a zone offset in seconds, truncated toward zero. */
  function OffsetHours(offset: int): (r: int)
    ensures offset >= 0 ==> 3600 * r <= offset < 3600 * (r + 1)
    ensures offset < 0 ==> 3600 * (r - 1) < offset <= 3600 * r
  {
    CTrunc(offset, 3600)
  }

  /** The minute part of a zone offset: `(offset / 60) % 60` in C++. */
  function OffsetMinutes(offset: int): (r: int)
    ensures -60 < r < 60
    ensures 60 * OffsetHours(offset) + r == CTrunc(offset, 60)
  {
    NestedTruncation(offset);
    CRem(CTrunc(offset, 60), 60)
  }

  /** Truncating by 60 twice truncates by 3600. */
  lemma {:induction false} NestedTruncation(a: int)
    ensures CTrunc(CTrunc(a, 60), 60) == CTrunc(a, 3600)
  {
    if a >= 0 {
      NestedDivision(a);
    } else {
      NestedDivision(-a);
      CTruncNegate(a, 60);
      CTruncNegate(CTrunc(a, 60), 60);
      CTruncNegate(a, 3600);
    }
  }

  lemma {:induction false} NestedDivision(a: int)
    requires a >= 0
    ensures a / 60 / 60 == a / 3600
  {
    var q1 := a / 60;
    EuclidUnique(a, 3600, q1 / 60, 60 * (q1 % 60) + a % 60);
  }

  /** Hours and minutes of an offset share its sign, and together give the
      offset's whole minutes. */
  lemma OffsetSplit(offset: int)
    ensures 60 * (60 * OffsetHours(offset) + OffsetMinutes(offset)) == offset - CRem(offset, 60)
    ensures offset >= 0 ==> OffsetHours(offset) >= 0 && OffsetMinutes(offset) >= 0
    ensures offset <= 0 ==> OffsetHours(offset) <= 0 && OffsetMinutes(offset) <= 0
  {
    NestedTruncation(offset);
  }

  /** A zone ninety minutes west is -1 hours and -30 minutes; thirty minutes
      west is 0 hours and -30 minutes. */
  lemma OffsetSplitExample()
    ensures OffsetHours(-5400) == -1 && OffsetMinutes(-5400) == -30
    ensures OffsetHours(-1800) == 0 && OffsetMinutes(-1800) == -30
    ensures OffsetHours(19800) == 5 && OffsetMinutes(19800) == 30
  {
  }

  /** `timezone_hour` and `timezone_minute` of a zoned value. */
  function TimeZoneHour(v: ZonedTimestamp, db: ZoneDatabase): (r: int)
    ensures r == OffsetHours(ZoneOf(db, v.zoneId).localOffset(ZonedLocal(v, db).seconds))
  {
    OffsetHours(GmtOffsetSeconds(v, db))
  }

  function TimeZoneMinute(v: ZonedTimestamp, db: ZoneDatabase): (r: int)
    ensures r == OffsetMinutes(ZoneOf(db, v.zoneId).localOffset(ZonedLocal(v, db).seconds))
  {
    OffsetMinutes(GmtOffsetSeconds(v, db))
  }
}
