/**
 `date_trunc`: the broken-down record is cut back to the start of its minute,
 hour, day, ISO week, month, quarter or year (`adjustDateTime`), and the three
 `call` overloads for TIMESTAMP, DATE and TIMESTAMP WITH TIME ZONE.
 */
module Truncate {
  import opened CInt
  import opened Wrappers
  import opened Errors
  import opened Calendar
  import opened Units
  import opened Instant
  import opened IsoWeek

  /** The leap-year test `adjustDateTime` writes out with C++ remainders. */
  predicate CLeapYear(y: int) {
    CRem(y, 4) == 0 && (CRem(y, 100) != 0 || CRem(y, 400) == 0)
  }

  /** The C++ test agrees with the calendar's rule for every year, negative ones included. */
  lemma CLeapYearIsLeapYear(y: int)
    ensures CLeapYear(y) <==> IsLeapYear(y)
  {
    CRemZeroIsDivisible(y, 4);
    CRemZeroIsDivisible(y, 100);
    CRemZeroIsDivisible(y, 400);
  }

  /** The units `adjustDateTime` handles; milliseconds and seconds never reach it. */
  predicate Adjustable(u: DateTimeUnit) {
    u != Millisecond && u != Second
  }

  /** The `kMinute` case: clear the seconds. */
  function AdjustMinute(t: Tm): Tm {
    t.(sec := 0)
  }

  /** The `kHour` case, falling through to `kMinute`. */
  function AdjustHour(t: Tm): Tm {
    AdjustMinute(t.(min := 0))
  }

  /** The `kDay` case, falling through to `kHour`. */
  function AdjustDay(t: Tm): Tm {
    AdjustHour(t.(hour := 0))
  }

  /** The `kMonth` case: the first of the month at midnight. */
  function AdjustMonth(t: Tm): Tm {
    t.(mday := 1, hour := 0, min := 0, sec := 0)
  }

  /** The `kQuarter` case, falling through to `kMonth`. */
  function AdjustQuarter(t: Tm): (r: Tm)
    ensures r.mon % 3 == 0 && r.mday == 1
    ensures t.mon >= 0 ==> r.mon <= t.mon < r.mon + 3
  {
    DivisionOfMultiple(CTrunc(t.mon, 3), 3);
    AdjustMonth(t.(mon := CTrunc(t.mon, 3) * 3))
  }

  /** The `kYear` case, falling through to `kQuarter`. */
  function AdjustYear(t: Tm): Tm {
    AdjustQuarter(t.(mon := 0, yday := 0))
  }

  /** Days from Monday to the weekday `wday` (Sunday = 0) of the same ISO week. */
  function DaysBackToMonday(wday: int): int {
    if wday == 0 then 6 else wday - 1
  }

  /** The `kWeek` case: step back to Monday, borrowing the length of the
      previous month (and year) when the day of the month drops below 1.
      `yday` is left as it was. */
  function AdjustWeek(t: Tm): Tm
    requires 0 <= t.mon < 12
  {
    var mday := t.mday - DaysBackToMonday(t.wday);
    if mday >= 1 then
      t.(mday := mday, wday := 1, hour := 0, min := 0, sec := 0)
    else
      var year := if t.mon == 0 then t.year - 1 else t.year;
      var mon := if t.mon == 0 then 11 else t.mon - 1;
      var daysInPrevMonth := if mon == 1 && CLeapYear(year + 1900) then 29 else CommonMonthDays[mon];
      t.(year := year, mon := mon, mday := mday + daysInPrevMonth, wday := 1, hour := 0, min := 0, sec := 0)
  }

  /** `adjustDateTime`. The week case indexes the month-length table, so it
      needs the month in range, as every record `gmtime_r` produces has it. */
  function AdjustDateTime(t: Tm, u: DateTimeUnit): (r: Tm)
    requires Adjustable(u)
    requires u == Week ==> 0 <= t.mon < 12
    ensures u != Minute ==> r.sec == 0 && r.min == 0
    ensures IsDateUnit(u) ==> r.hour == 0
    ensures r.sec == 0
    ensures u == Year ==> r.year == t.year && r.mon == 0 && r.mday == 1 && r.yday == 0
    ensures u == Quarter ==> r.year == t.year && r.mon % 3 == 0 && r.mday == 1
    ensures u == Quarter && t.mon >= 0 ==> r.mon <= t.mon < r.mon + 3
    ensures u == Month ==> r.year == t.year && r.mon == t.mon && r.mday == 1
    ensures u == Week ==> r.wday == 1
    ensures u == Day || u == Hour || u == Minute ==>
      r.year == t.year && r.mon == t.mon && r.mday == t.mday && r.wday == t.wday && r.yday == t.yday
    ensures u == Hour || u == Minute ==> r.hour == t.hour
    ensures u == Minute ==> r.min == t.min
  {
    match u
    case Minute => AdjustMinute(t)
    case Hour => AdjustHour(t)
    case Day => AdjustDay(t)
    case Week => AdjustWeek(t)
    case Month => AdjustMonth(t)
    case Quarter => AdjustQuarter(t)
    case Year => AdjustYear(t)
  }

  /** Adjusting an adjusted valid record changes nothing. */
  lemma AdjustDateTimeIdempotent(t: Tm, u: DateTimeUnit)
    requires ValidTm(t) && Adjustable(u)
    ensures u == Week ==> 0 <= AdjustDateTime(t, u).mon < 12
    ensures AdjustDateTime(AdjustDateTime(t, u), u) == AdjustDateTime(t, u)
  {
    var r := AdjustDateTime(t, u);
    if u == Week {
      AdjustWeekDate(t);
      assert r.mday - DaysBackToMonday(r.wday) == r.mday >= 1;
    } else if u == Quarter || u == Year {
      var q := CTrunc(r.mon, 3);
      assert r.mon == CTrunc(if u == Year then 0 else t.mon, 3) * 3;
      DivisionOfMultiple(CTrunc(if u == Year then 0 else t.mon, 3), 3);
      assert q * 3 == r.mon;
    }
  }

  /** Monday of the week holding day `n`. */
  function WeekStart(n: int): (d: int)
    ensures d <= n < d + 7
    ensures MondayIndex(d) == 0
  {
    var d := n - MondayIndex(n);
    assert (d + 3) % 7 == 0 by { EuclidUnique(d + 3, 7, (n + 3) / 7, 0); }
    d
  }

  /** First day of the month holding day `n`. */
  function MonthStart(n: int): (d: int)
    ensures d <= n
    ensures CivilOfDay(d) == CivilOfDay(n).(day := 1)
  {
    var c := CivilOfDay(n);
    assert DayNumber(c.year, c.month, c.day) == n;
    assert DayNumber(c.year, c.month, 1) <= n;
    CivilOfDayUnique(c.year, c.month, 1);
    DayNumber(c.year, c.month, 1)
  }

  /** First day of the quarter holding day `n`. */
  function QuarterStart(n: int): (d: int)
    ensures d <= n
    ensures CivilOfDay(d) == Civil(CivilOfDay(n).year, CivilOfDay(n).month / 3 * 3, 1)
  {
    var c := CivilOfDay(n);
    var m := c.month / 3 * 3;
    QuarterFirstMonth(c.month);
    DaysBeforeMonthMonotone(c.year, m, c.month);
    assert DayNumber(c.year, c.month, c.day) == n;
    assert DayNumber(c.year, m, 1) <= n;
    CivilOfDayUnique(c.year, m, 1);
    DayNumber(c.year, m, 1)
  }

  /** January 1 of the year holding day `n`. */
  function YearStartOf(n: int): (d: int)
    ensures d <= n
    ensures CivilOfDay(d) == Civil(CivilOfDay(n).year, 0, 1)
  {
    var c := CivilOfDay(n);
    assert DaysBeforeMonth(c.year, c.month) >= 0;
    assert DayNumber(c.year, c.month, c.day) == n;
    assert YearStart(c.year) <= n;
    assert DayNumber(c.year, 0, 1) == YearStart(c.year);
    CivilOfDayUnique(c.year, 0, 1);
    YearStart(c.year)
  }

  /** Reference semantics of truncation on seconds since the epoch: the first
      second of the minute, hour, day, Monday-based week, month, quarter or
      year holding `s`. A second is its own truncation. */
  function PeriodStart(s: int, u: DateTimeUnit): (r: int)
    requires u != Millisecond
  {
    var n := s / SecondsPerDay;
    match u
    case Second => s
    case Minute => s / 60 * 60
    case Hour => s / 3600 * 3600
    case Day => n * SecondsPerDay
    case Week => WeekStart(n) * SecondsPerDay
    case Month => MonthStart(n) * SecondsPerDay
    case Quarter => QuarterStart(n) * SecondsPerDay
    case Year => YearStartOf(n) * SecondsPerDay
  }

  /** The midnight of a day no later than the day of `s` is no later than `s`. */
  lemma MidnightNoLater(d: int, s: int)
    requires d <= s / SecondsPerDay
    ensures d * SecondsPerDay <= s
    ensures (d * SecondsPerDay) % SecondsPerDay == 0
  {
    assert s == s / SecondsPerDay * SecondsPerDay + s % SecondsPerDay;
    DivisionOfMultiple(d, SecondsPerDay);
  }

  /** Every period start is a second no later than `s`; that of a date unit
      is the midnight beginning a day of the period. */
  lemma PeriodStartBounds(s: int, u: DateTimeUnit)
    requires u != Millisecond
    ensures PeriodStart(s, u) <= s
    ensures IsDateUnit(u) ==> PeriodStart(s, u) % SecondsPerDay == 0
  {
    var n := s / SecondsPerDay;
    match u {
      case Second =>
      case Minute =>
        assert s / 60 * 60 + s % 60 == s;
      case Hour =>
        assert s / 3600 * 3600 + s % 3600 == s;
      case Day =>
        MidnightNoLater(n, s);
      case Week =>
        MidnightNoLater(WeekStart(n), s);
      case Month =>
        MidnightNoLater(MonthStart(n), s);
      case Quarter =>
        MidnightNoLater(QuarterStart(n), s);
      case Year =>
        MidnightNoLater(YearStartOf(n), s);
    }
  }

  /** Truncating twice is truncating once. */
  lemma PeriodStartIdempotent(s: int, u: DateTimeUnit)
    requires u != Millisecond
    ensures PeriodStart(PeriodStart(s, u), u) == PeriodStart(s, u)
  {
    var n := s / SecondsPerDay;
    match u {
      case Second =>
      case Minute =>
        DivisionOfMultiple(s / 60, 60);
      case Hour =>
        DivisionOfMultiple(s / 3600, 3600);
      case Day =>
        DivisionOfMultiple(n, SecondsPerDay);
      case Week =>
        var d := WeekStart(n);
        DivisionOfMultiple(d, SecondsPerDay);
        assert WeekStart(d) == d;
      case Month =>
        MonthStartIdempotent(n);
      case Quarter =>
        QuarterStartIdempotent(n);
      case Year =>
        YearStartOfIdempotent(n);
    }
  }

  lemma MonthStartIdempotent(n: int)
    ensures PeriodStart(MonthStart(n) * SecondsPerDay, Month) == MonthStart(n) * SecondsPerDay
  {
    var d := MonthStart(n);
    DivisionOfMultiple(d, SecondsPerDay);
    assert (d * SecondsPerDay) / SecondsPerDay == d;
    var c := CivilOfDay(d);
    assert c.day == 1;
    assert MonthStart(d) == DayNumber(c.year, c.month, 1);
  }

  /** The first month of a quarter is its own quarter's first month. */
  lemma QuarterFirstMonth(m: int)
    requires 0 <= m
    ensures 0 <= m / 3 * 3 <= m
    ensures (m / 3 * 3) / 3 * 3 == m / 3 * 3
  {
    var k := m / 3;
    assert k * 3 == 3 * k;
    DivisionOfMultiple(k, 3);
  }

  lemma QuarterStartIdempotent(n: int)
    ensures PeriodStart(QuarterStart(n) * SecondsPerDay, Quarter) == QuarterStart(n) * SecondsPerDay
  {
    var d := QuarterStart(n);
    DivisionOfMultiple(d, SecondsPerDay);
    assert (d * SecondsPerDay) / SecondsPerDay == d;
    var c := CivilOfDay(d);
    QuarterFirstMonth(CivilOfDay(n).month);
    assert c.day == 1 && c.month / 3 * 3 == c.month;
    assert QuarterStart(d) == DayNumber(c.year, c.month, 1);
  }

  lemma YearStartOfIdempotent(n: int)
    ensures PeriodStart(YearStartOf(n) * SecondsPerDay, Year) == YearStartOf(n) * SecondsPerDay
  {
    var d := YearStartOf(n);
    DivisionOfMultiple(d, SecondsPerDay);
    assert (d * SecondsPerDay) / SecondsPerDay == d;
    var c := CivilOfDay(d);
    assert c.day == 1 && c.month == 0;
    assert DayNumber(c.year, 0, 1) == d;
    assert YearStartOf(d) == YearStart(c.year);
  }

  /** Clearing the seconds of a valid record gives the start of its minute. */
  lemma AdjustMinuteMatches(t: Tm)
    requires ValidTm(t)
    ensures Timegm(AdjustMinute(t)) == Timegm(t) / 60 * 60
  {
    var n := TmDayNumber(t);
    MonthInRange(t.mon);
    assert Timegm(t) == 60 * (n * 1440 + t.hour * 60 + t.min) + t.sec;
    EuclidUnique(Timegm(t), 60, n * 1440 + t.hour * 60 + t.min, t.sec);
  }

  /** Clearing minutes and seconds gives the start of the hour. */
  lemma AdjustHourMatches(t: Tm)
    requires ValidTm(t)
    ensures Timegm(AdjustHour(t)) == Timegm(t) / 3600 * 3600
  {
    var n := TmDayNumber(t);
    MonthInRange(t.mon);
    assert Timegm(t) == 3600 * (n * 24 + t.hour) + (t.min * 60 + t.sec);
    EuclidUnique(Timegm(t), 3600, n * 24 + t.hour, t.min * 60 + t.sec);
  }

  /** Clearing the time of day gives midnight of the record's day. */
  lemma AdjustDayMatches(t: Tm)
    requires ValidTm(t)
    ensures Timegm(AdjustDay(t)) == Timegm(t) / SecondsPerDay * SecondsPerDay
  {
    TimegmSplit(t);
    MonthInRange(t.mon);
  }

  /** A day number 0 to -5 of month `m` is the same day counted from the
      start of the previous month of the same year. */
  lemma BorrowMonth(y: int, m: int, d: int)
    requires 1 <= m < 12 && -5 <= d < 1
    ensures ValidDate(y, m - 1, d + DaysInMonth(y, m - 1))
    ensures DayNumber(y, m - 1, d + DaysInMonth(y, m - 1)) == DayNumber(y, m, d)
  {
    DaysBeforeMonthStep(y, m - 1);
  }

  /** A day number 0 to -5 of January is a day of the previous December. */
  lemma BorrowYear(y: int, d: int)
    requires -5 <= d < 1
    ensures ValidDate(y - 1, 11, d + 31)
    ensures DayNumber(y - 1, 11, d + 31) == DayNumber(y, 0, d)
  {
    DaysBeforeMonthStep(y - 1, 11);
    YearStartStep(y - 1);
    assert DaysBeforeMonth(y - 1, 11) + 31 == DaysInYear(y - 1);
    assert YearStart(y) == YearStart(y - 1) + DaysInYear(y - 1);
  }

  /** `r` holds the Monday, at midnight, of the week of the valid record `t`. */
  predicate IsWeekStartOf(r: Tm, t: Tm)
    requires ValidTm(t)
  {
    && ValidDate(r.FullYear(), r.mon, r.mday)
    && DayNumber(r.FullYear(), r.mon, r.mday) == WeekStart(TmDayNumber(t))
    && r.hour == 0 && r.min == 0 && r.sec == 0 && r.wday == 1
  }

  /** In a valid record, stepping back `DaysBackToMonday` days from the day
      of the month reaches the Monday of the week, counted in the same month. */
  lemma DaysBackIsMondayIndex(t: Tm)
    requires ValidTm(t)
    ensures DaysBackToMonday(t.wday) == MondayIndex(TmDayNumber(t))
    ensures DayNumber(t.FullYear(), t.mon, t.mday - DaysBackToMonday(t.wday)) == WeekStart(TmDayNumber(t))
  {
    IsoWeekdayOfDay(TmDayNumber(t));
  }

  lemma AdjustWeekSameMonth(t: Tm)
    requires ValidTm(t) && t.mday - DaysBackToMonday(t.wday) >= 1
    ensures IsWeekStartOf(AdjustWeek(t), t)
  {
    DaysBackIsMondayIndex(t);
    var mday := t.mday - DaysBackToMonday(t.wday);
    assert AdjustWeek(t) == t.(mday := mday, wday := 1, hour := 0, min := 0, sec := 0);
  }

  lemma AdjustWeekPreviousMonth(t: Tm)
    requires ValidTm(t) && t.mday - DaysBackToMonday(t.wday) < 1 && t.mon > 0
    ensures IsWeekStartOf(AdjustWeek(t), t)
  {
    var y := t.FullYear();
    DaysBackIsMondayIndex(t);
    var mday := t.mday - DaysBackToMonday(t.wday);
    CLeapYearIsLeapYear(y);
    var prev := DaysInMonth(y, t.mon - 1);
    assert AdjustWeek(t) == t.(mon := t.mon - 1, mday := mday + prev, wday := 1, hour := 0, min := 0, sec := 0);
    BorrowMonth(y, t.mon, mday);
  }

  lemma AdjustWeekPreviousYear(t: Tm)
    requires ValidTm(t) && t.mday - DaysBackToMonday(t.wday) < 1 && t.mon == 0
    ensures IsWeekStartOf(AdjustWeek(t), t)
  {
    var y := t.FullYear();
    DaysBackIsMondayIndex(t);
    var mday := t.mday - DaysBackToMonday(t.wday);
    CLeapYearIsLeapYear(y - 1);
    assert AdjustWeek(t) == t.(year := t.year - 1, mon := 11, mday := mday + 31, wday := 1, hour := 0, min := 0, sec := 0);
    BorrowYear(y, mday);
  }

  /** Stepping back to Monday lands on a valid date of the same week, whether
      or not it crosses into the previous month or year. */
  lemma AdjustWeekDate(t: Tm)
    requires ValidTm(t)
    ensures IsWeekStartOf(AdjustWeek(t), t)
  {
    if t.mday - DaysBackToMonday(t.wday) >= 1 {
      AdjustWeekSameMonth(t);
    } else if t.mon > 0 {
      AdjustWeekPreviousMonth(t);
    } else {
      AdjustWeekPreviousYear(t);
    }
  }

  lemma AdjustWeekMatches(t: Tm)
    requires ValidTm(t)
    ensures Timegm(AdjustWeek(t)) == WeekStart(Timegm(t) / SecondsPerDay) * SecondsPerDay
  {
    var r := AdjustWeek(t);
    var n := TmDayNumber(t);
    AdjustWeekDate(t);
    assert IsWeekStartOf(r, t);
    MonthInRange(r.mon);
    assert Timegm(r) == DayNumber(r.FullYear(), r.mon, r.mday) * SecondsPerDay;
    TimegmSplit(t);
    assert Timegm(t) / SecondsPerDay == n;
  }

  lemma AdjustMonthMatches(t: Tm)
    requires ValidTm(t)
    ensures Timegm(AdjustMonth(t)) == MonthStart(Timegm(t) / SecondsPerDay) * SecondsPerDay
  {
    var y, n := t.FullYear(), TmDayNumber(t);
    TimegmSplit(t);
    assert Timegm(t) / SecondsPerDay == n;
    MonthInRange(t.mon);
    assert Timegm(AdjustMonth(t)) == DayNumber(y, t.mon, 1) * SecondsPerDay;
    CivilOfDayUnique(y, t.mon, t.mday);
    assert CivilOfDay(n) == Civil(y, t.mon, t.mday);
    assert MonthStart(n) == DayNumber(y, t.mon, 1);
  }

  lemma AdjustQuarterMatches(t: Tm)
    requires ValidTm(t)
    ensures Timegm(AdjustQuarter(t)) == QuarterStart(Timegm(t) / SecondsPerDay) * SecondsPerDay
  {
    var y, n := t.FullYear(), TmDayNumber(t);
    var m := t.mon / 3 * 3;
    TimegmSplit(t);
    assert Timegm(t) / SecondsPerDay == n;
    QuarterFirstMonth(t.mon);
    MonthInRange(m);
    var q := AdjustQuarter(t);
    assert q == t.(mon := m, mday := 1, hour := 0, min := 0, sec := 0);
    assert Timegm(q) == DayNumber(y, m, 1) * SecondsPerDay;
    CivilOfDayUnique(y, t.mon, t.mday);
    assert CivilOfDay(n) == Civil(y, t.mon, t.mday);
    assert QuarterStart(n) == DayNumber(y, m, 1);
  }

  lemma AdjustYearMatches(t: Tm)
    requires ValidTm(t)
    ensures Timegm(AdjustYear(t)) == YearStartOf(Timegm(t) / SecondsPerDay) * SecondsPerDay
  {
    var y, n := t.FullYear(), TmDayNumber(t);
    TimegmSplit(t);
    assert Timegm(t) / SecondsPerDay == n;
    assert Timegm(AdjustYear(t)) == DayNumber(y, 0, 1) * SecondsPerDay;
    assert DayNumber(y, 0, 1) == YearStart(y);
    CivilOfDayUnique(y, t.mon, t.mday);
    assert CivilOfDay(n) == Civil(y, t.mon, t.mday);
    assert YearStartOf(n) == YearStart(y);
  }

  /** `timegm` of an adjusted valid record is the reference truncation of the
      record's own instant: the field edits of `adjustDateTime`, fall-throughs
      and month borrowing included, cut back to the start of the period. */
  lemma AdjustMatchesReference(t: Tm, u: DateTimeUnit)
    requires ValidTm(t) && Adjustable(u)
    ensures Timegm(AdjustDateTime(t, u)) == PeriodStart(Timegm(t), u)
  {
    match u {
      case Minute => AdjustMinuteMatches(t);
      case Hour => AdjustHourMatches(t);
      case Day => AdjustDayMatches(t);
      case Week => AdjustWeekMatches(t);
      case Month => AdjustMonthMatches(t);
      case Quarter => AdjustQuarterMatches(t);
      case Year => AdjustYearMatches(t);
    }
  }

  /** Monday 2023-02-27 starts the week of Wednesday 2023-03-01: the step back
      borrows February's 28 days. */
  lemma WeekAcrossMonthExample()
    ensures AdjustWeek(Tm(123, 2, 1, 10, 3, 59, 3, 59)) == Tm(123, 1, 27, 0, 0, 0, 1, 59)
  {
  }

  /** Monday 2024-02-26 starts the week of Friday 2024-03-01: February of a
      leap year lends 29 days. */
  lemma WeekAcrossLeapMonthExample()
    ensures AdjustWeek(Tm(124, 2, 1, 0, 0, 0, 5, 60)) == Tm(124, 1, 26, 0, 0, 0, 1, 60)
  {
    assert CLeapYear(2024);
  }

  /** Monday 2020-12-28 starts the week of Friday 2021-01-01. */
  lemma WeekAcrossYearExample()
    ensures AdjustWeek(Tm(121, 0, 1, 23, 59, 59, 5, 0)) == Tm(120, 11, 28, 0, 0, 0, 1, 0)
  {
  }

  /** `DateTruncFunction::call` for TIMESTAMP. A unit string the session did
      not resolve is looked up per row, and an unknown one fails as an empty
      optional. Seconds are cut in place; every other unit is applied to the
      wall clock of the session zone, if one is configured, and the result is
      converted back to UTC. */
  function TruncTimestamp(unitString: string, ts: Timestamp, session: Option<Zone>): (r: Result<Timestamp, DateTimeError>)
    ensures r.Err? <==> ParseUnit(unitString).None? || ParseUnit(unitString) == Some(Millisecond)
    ensures ParseUnit(unitString).None? ==> r == Err(MissingUnit(unitString))
    ensures ParseUnit(unitString) == Some(Millisecond) ==> r == Err(NotATimestampField(unitString))
    ensures r.Ok? ==> r.value.nanos == 0
  {
    var unit :- RequireUnit(GetTimestampUnit(unitString), unitString);
    if unit == Second then
      Ok(Timestamp(ts.seconds, 0))
    else
      var dateTime := AdjustDateTime(TimestampTm(ts, session), unit);
      var result := Timestamp(Timegm(dateTime), 0);
      Ok(if session.Some? then ToGmt(result, session.value) else result)
  }

  /** `date_trunc` on a TIMESTAMP is the reference truncation of its wall
      clock, taken back to UTC through the session zone. */
  lemma TruncTimestampIsPeriodStart(unitString: string, ts: Timestamp, session: Option<Zone>, u: DateTimeUnit)
    requires ParseUnit(unitString) == Some(u) && u != Millisecond
    ensures var start := PeriodStart(LocalSeconds(ts, session), u);
      TruncTimestamp(unitString, ts, session) ==
        if u == Second then Ok(Timestamp(ts.seconds, 0))
        else if session.Some? then Ok(ToGmt(Timestamp(start, 0), session.value))
        else Ok(Timestamp(start, 0))
  {
    if u != Second {
      AdjustMatchesReference(TimestampTm(ts, session), u);
    }
  }

  /** Without a session zone, truncating a TIMESTAMP never moves it forward
      and is idempotent. */
  lemma TruncTimestampUtc(unitString: string, ts: Timestamp, u: DateTimeUnit)
    requires ParseUnit(unitString) == Some(u) && u != Millisecond
    ensures TruncTimestamp(unitString, ts, None).Ok?
    ensures var r := TruncTimestamp(unitString, ts, None).value;
      && r.seconds <= ts.seconds
      && TruncTimestamp(unitString, r, None) == Ok(r)
  {
    TruncTimestampIsPeriodStart(unitString, ts, None, u);
    PeriodStartBounds(ts.seconds, u);
    var r := TruncTimestamp(unitString, ts, None).value;
    TruncTimestampIsPeriodStart(unitString, r, None, u);
    PeriodStartIdempotent(ts.seconds, u);
  }

  /** `DateTruncFunction::call` for DATE: only date units are accepted, and
      `day` returns the date unchanged. The midnight `timegm` gives is divided
      back into days with C++ division and narrowed to the 32-bit DATE. */
  function TruncDate(unitString: string, days: Int32): (r: Result<Int32, DateTimeError>)
    ensures r.Err? <==> !(ParseUnit(unitString).Some? && IsDateUnit(ParseUnit(unitString).value))
    ensures ParseUnit(unitString).None? ==> r == Err(UnsupportedUnit(unitString))
    ensures ParseUnit(unitString).Some? && IsTimeUnit(ParseUnit(unitString).value) ==> r == Err(NotADateField(unitString))
    ensures ParseUnit(unitString) == Some(Day) ==> r == Ok(days)
  {
    var unit :- RequireUnit(GetDateUnit(unitString, true), unitString);
    if unit == Day then
      Ok(days)
    else
      var dateTime := AdjustDateTime(DaysTm(days), unit);
      Ok(Wrap32(CTrunc(Timegm(dateTime), SecondsPerDay)))
  }

  /** `date_trunc` on a DATE is the first day of the reference period holding
      it, narrowed to 32 bits. */
  lemma TruncDateIsPeriodStart(unitString: string, days: Int32, u: DateTimeUnit)
    requires ParseUnit(unitString) == Some(u) && IsDateUnit(u)
    ensures TruncDate(unitString, days) == Ok(Wrap32(PeriodStart(days * SecondsPerDay, u) / SecondsPerDay))
  {
    var t := DaysTm(days);
    TimegmSplit(t);
    assert Timegm(t) == days * SecondsPerDay;
    DivisionOfMultiple(days, SecondsPerDay);
    if u != Day {
      AdjustMatchesReference(t, u);
      PeriodStartBounds(days * SecondsPerDay, u);
      CRemZeroIsDivisible(PeriodStart(days * SecondsPerDay, u), SecondsPerDay);
    } else {
      Wrap32Identity(days);
    }
  }

  /** `DateTruncFunction::call` for TIMESTAMP WITH TIME ZONE: seconds are
      floored in place (the product with 1000 is 64-bit and wraps); every
      other unit goes through `ZonedTruncation`. The zone id is kept. */
  function TruncZoned(unitString: string, v: ZonedTimestamp, db: ZoneDatabase): (r: Result<ZonedTimestamp, DateTimeError>)
    ensures r.Err? && ParseUnit(unitString).None? ==> r == Err(MissingUnit(unitString))
    ensures ParseUnit(unitString) == Some(Millisecond) ==> r == Err(NotATimestampField(unitString))
    ensures ParseUnit(unitString).None? ==> r.Err?
    ensures r.Ok? ==> r.value.zoneId == v.zoneId
  {
    var unit :- RequireUnit(GetTimestampUnit(unitString), unitString);
    if unit == Second then
      Ok(ZonedTimestamp(Wrap64(FromMillis(v.millis).seconds * 1000), v.zoneId))
    else
      ZonedTruncation(unit, v, db)
  }

  /** The truncation branch for TIMESTAMP WITH TIME ZONE: `adjustDateTime` on
      the value's own wall clock (no session zone), then `ZonedOfWallClock`. */
  function ZonedTruncation(unit: DateTimeUnit, v: ZonedTimestamp, db: ZoneDatabase): (r: Result<ZonedTimestamp, DateTimeError>)
    requires Adjustable(unit)
    ensures r.Ok? ==> r.value.zoneId == v.zoneId
    ensures r.Err? ==> r.error.MillisOverflow?
  {
    var dateTime := AdjustDateTime(TimestampTm(ZonedLocal(v, db), None), unit);
    ZonedOfWallClock(Timegm(dateTime), v.zoneId, db)
  }

  /** Wall-clock seconds back to a zoned value: milliseconds by a wrapping
      64-bit product, resolved to UTC in the zone, and a conversion to
      milliseconds that fails when it overflows. */
  function ZonedOfWallClock(seconds: int, zoneId: int, db: ZoneDatabase): (r: Result<ZonedTimestamp, DateTimeError>)
    ensures r.Ok? ==> r.value.zoneId == zoneId
    ensures r.Err? ==> r.error.MillisOverflow?
  {
    var ts := ToGmt(FromMillis(Wrap64(seconds * 1000)), ZoneOf(db, zoneId));
    var millis :- ToMillis(ts);
    Ok(ZonedTimestamp(millis, zoneId))
  }

  /** Without wrap-around, the zoned value of a wall clock is its UTC
      resolution in whole seconds, or an overflow error. */
  lemma ZonedOfWallClockExact(seconds: int, zoneId: int, db: ZoneDatabase)
    requires InInt64(seconds * 1000)
    ensures var utc := ToGmt(Timestamp(seconds, 0), ZoneOf(db, zoneId));
      ZonedOfWallClock(seconds, zoneId, db) ==
        if InInt64(utc.seconds * 1000) then Ok(ZonedTimestamp(utc.seconds * 1000, zoneId))
        else Err(MillisOverflow(utc.seconds, 0))
  {
    DivisionOfMultiple(seconds, 1000);
    assert FromMillis(Wrap64(seconds * 1000)) == Timestamp(seconds, 0);
  }

  /** Truncating a TIMESTAMP WITH TIME ZONE to the second floors its
      milliseconds to a whole second whenever that fits in 64 bits. */
  lemma TruncZonedSecond(unitString: string, v: ZonedTimestamp, db: ZoneDatabase)
    requires ParseUnit(unitString) == Some(Second)
    requires InInt64(v.millis / 1000 * 1000)
    ensures TruncZoned(unitString, v, db).Ok?
    ensures var r := TruncZoned(unitString, v, db).value;
      r.millis % 1000 == 0 && r.millis <= v.millis < r.millis + 1000
  {
    DivisionOfMultiple(v.millis / 1000, 1000);
  }

  /** `timegm` of the adjusted UTC break-down of a wall clock is its reference truncation. */
  lemma WallClockTruncation(local: Timestamp, u: DateTimeUnit)
    requires Adjustable(u)
    ensures Timegm(AdjustDateTime(TimestampTm(local, None), u)) == PeriodStart(local.seconds, u)
  {
    AdjustMatchesReference(TimestampTm(local, None), u);
  }

  /** The truncation branch yields the reference truncation of the value's
      wall clock, resolved to UTC in the value's own zone, whenever the
      intermediate milliseconds fit in 64 bits; it fails exactly when the
      UTC result has no 64-bit millisecond count. */
  lemma ZonedTruncationIsPeriodStart(u: DateTimeUnit, v: ZonedTimestamp, db: ZoneDatabase)
    requires Adjustable(u)
    requires InInt64(PeriodStart(ZonedLocal(v, db).seconds, u) * 1000)
    ensures var utc := ToGmt(Timestamp(PeriodStart(ZonedLocal(v, db).seconds, u), 0), ZoneOf(db, v.zoneId));
      ZonedTruncation(u, v, db) ==
        if InInt64(utc.seconds * 1000) then Ok(ZonedTimestamp(utc.seconds * 1000, v.zoneId))
        else Err(MillisOverflow(utc.seconds, 0))
  {
    var local := ZonedLocal(v, db);
    WallClockTruncation(local, u);
    ZonedOfWallClockExact(PeriodStart(local.seconds, u), v.zoneId, db);
  }

  /** Every unit other than milliseconds and seconds takes the truncation branch. */
  lemma TruncZonedTakesTruncation(unitString: string, v: ZonedTimestamp, db: ZoneDatabase, u: DateTimeUnit)
    requires ParseUnit(unitString) == Some(u) && Adjustable(u)
    ensures TruncZoned(unitString, v, db) == ZonedTruncation(u, v, db)
  {
  }
}
