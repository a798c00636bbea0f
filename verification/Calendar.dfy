/**
 The proleptic Gregorian calendar (section 3.2.1 of ISO 8601:2004) on day
 numbers counted from 1970-01-01, and the broken-down `std::tm` record that
 `gmtime_r` produces and `timegm` consumes.
 */
module Calendar {
  import opened CInt

  const SecondsPerDay: int := 86_400

  /** Section 3.2.1 of ISO 8601:2004: every fourth year is a leap year, except
      centuries that are not a multiple of 400. */
  predicate IsLeapYear(y: int) {
    y % 4 == 0 && (y % 100 != 0 || y % 400 == 0)
  }

  function DaysInYear(y: int): int {
    if IsLeapYear(y) then 366 else 365
  }

  /** Month lengths of a common year, January first. */
  const CommonMonthDays: seq<int> := [31, 28, 31, 30, 31, 30, 31, 31, 30, 31, 30, 31]

  /** Days before each month of a common year; entry 12 is the year length. */
  const CommonDaysBefore: seq<int> := [0, 31, 59, 90, 120, 151, 181, 212, 243, 273, 304, 334, 365]

  /** Length of month `m` (0 = January) of year `y`. */
  function DaysInMonth(y: int, m: int): (r: int)
    requires 0 <= m < 12
    ensures 28 <= r <= 31
    ensures r == 29 <==> m == 1 && IsLeapYear(y)
  {
    if m == 1 && IsLeapYear(y) then 29 else CommonMonthDays[m]
  }

  /** Days of year `y` before the first of month `m`; `m == 12` gives the year length. */
  function DaysBeforeMonth(y: int, m: int): int
    requires 0 <= m <= 12
  {
    CommonDaysBefore[m] + (if m >= 2 && IsLeapYear(y) then 1 else 0)
  }

  lemma DaysBeforeMonthStep(y: int, m: int)
    requires 0 <= m < 12
    ensures DaysBeforeMonth(y, m + 1) == DaysBeforeMonth(y, m) + DaysInMonth(y, m)
    ensures DaysBeforeMonth(y, 12) == DaysInYear(y)
  {
  }

  lemma {:induction false} DaysBeforeMonthMonotone(y: int, i: int, j: int)
    requires 0 <= i <= j <= 12
    ensures DaysBeforeMonth(y, i) + 28 * (j - i) <= DaysBeforeMonth(y, j)
    decreases j - i
  {
    if i < j {
      DaysBeforeMonthMonotone(y, i + 1, j);
      DaysBeforeMonthStep(y, i);
    }
  }

  /** Leap days in the years before `y` (counted from year 1, in closed form). */
  function LeapDaysBefore(y: int): int {
    (y - 1) / 4 - (y - 1) / 100 + (y - 1) / 400
  }

  /** Day number of January 1 of year `y` (477 leap days precede 1970). */
  function YearStart(y: int): int {
    365 * (y - 1970) + LeapDaysBefore(y) - 477
  }

  /** One step of a Euclidean quotient: it grows by one exactly at multiples. */
  lemma {:induction false} QuotientStep(a: int, k: int)
    requires k > 0
    ensures a / k - (a - 1) / k == (if a % k == 0 then 1 else 0)
  {
    var q := a / k;
    var r := a % k;
    if r == 0 {
      EuclidUnique(a - 1, k, q - 1, k - 1);
    } else {
      EuclidUnique(a - 1, k, q, r - 1);
    }
  }

  lemma {:induction false} YearStartStep(y: int)
    ensures YearStart(y + 1) == YearStart(y) + DaysInYear(y)
  {
    QuotientStep(y, 4);
    QuotientStep(y, 100);
    QuotientStep(y, 400);
    if y % 400 == 0 {
      var q := y / 400;
      EuclidUnique(y, 100, 4 * q, 0);
      EuclidUnique(y, 4, 100 * q, 0);
    } else if y % 100 == 0 {
      var q := y / 100;
      EuclidUnique(y, 4, 25 * q, 0);
    }
  }

  lemma {:induction false} YearStartMonotone(a: int, b: int)
    requires a <= b
    ensures YearStart(a) + 365 * (b - a) <= YearStart(b)
    decreases b - a
  {
    if a < b {
      YearStartMonotone(a + 1, b);
      YearStartStep(a);
    }
  }

  /** Day number of the civil date (`y`, `m`, `mday`). Like `timegm`, it accepts a
      day of month outside the month and counts from the month's first day. */
  function DayNumber(y: int, m: int, mday: int): int
    requires 0 <= m < 12
  {
    YearStart(y) + DaysBeforeMonth(y, m) + mday - 1
  }

  predicate ValidDate(y: int, m: int, mday: int) {
    0 <= m < 12 && 1 <= mday <= DaysInMonth(y, m)
  }

  /** Day of the week of a day number, Monday = 0 … Sunday = 6 (1970-01-01 was a Thursday). */
  function MondayIndex(n: int): (r: int)
    ensures 0 <= r < 7
    ensures (n - r) % 7 == 4
  {
    (n + 3) % 7
  }

  /** `std::tm`: `year` counts from 1900, `mon` from 0, `wday` from Sunday = 0,
      `yday` from 0. */
  datatype Tm = Tm(year: int, mon: int, mday: int, hour: int, min: int, sec: int, wday: int, yday: int)
  {
    function FullYear(): int {
      year + 1900
    }
  }

  /** The records `gmtime_r` produces: every field in range and `wday`/`yday`
      consistent with the date. */
  predicate ValidTm(t: Tm) {
    && ValidDate(t.FullYear(), t.mon, t.mday)
    && 0 <= t.hour < 24 && 0 <= t.min < 60 && 0 <= t.sec < 60
    && t.yday == DaysBeforeMonth(t.FullYear(), t.mon) + t.mday - 1
    && t.wday == (DayNumber(t.FullYear(), t.mon, t.mday) + 4) % 7
  }

  /** Day number of a record whose month is in range. */
  function TmDayNumber(t: Tm): int
    requires 0 <= t.mon < 12
  {
    DayNumber(t.FullYear(), t.mon, t.mday)
  }

  /** `timegm`: seconds since the epoch of the fields, normalising an
      out-of-range month into the year and ignoring `wday` and `yday`. */
  function Timegm(t: Tm): int {
    var y := t.FullYear() + t.mon / 12;
    DayNumber(y, t.mon % 12, t.mday) * SecondsPerDay + t.hour * 3600 + t.min * 60 + t.sec
  }

  function YearWalkUp(y: int, n: int): (r: int)
    requires YearStart(y) <= n
    ensures YearStart(r) <= n < YearStart(r + 1)
    decreases n - YearStart(y)
  {
    YearStartStep(y);
    if n < YearStart(y + 1) then y else YearWalkUp(y + 1, n)
  }

  function YearWalkDown(y: int, n: int): (r: int)
    requires n < YearStart(y + 1)
    ensures YearStart(r) <= n < YearStart(r + 1)
    decreases YearStart(y + 1) - n
  {
    YearStartStep(y - 1);
    if YearStart(y) <= n then y else YearWalkDown(y - 1, n)
  }

  /** The year containing day number `n`, found by walking whole years from 1970. */
  function YearOfDay(n: int): (y: int)
    ensures YearStart(y) <= n < YearStart(y + 1)
  {
    if n >= 0 then YearWalkUp(1970, n) else YearWalkDown(1969, n)
  }

  lemma YearOfDayUnique(n: int, y: int)
    requires YearStart(y) <= n < YearStart(y + 1)
    ensures YearOfDay(n) == y
  {
    var z := YearOfDay(n);
    if z < y {
      YearStartMonotone(z + 1, y);
    } else if z > y {
      YearStartMonotone(y + 1, z);
    }
  }

  function MonthWalk(y: int, m: int, yday: int): (r: int)
    requires 0 <= m < 12 && DaysBeforeMonth(y, m) <= yday < DaysInYear(y)
    ensures 0 <= r < 12 && DaysBeforeMonth(y, r) <= yday < DaysBeforeMonth(y, r + 1)
    decreases 12 - m
  {
    if yday < DaysBeforeMonth(y, m + 1) then m else MonthWalk(y, m + 1, yday)
  }

  /** The month containing 0-based day `yday` of year `y`. */
  function MonthOfYearDay(y: int, yday: int): (m: int)
    requires 0 <= yday < DaysInYear(y)
    ensures 0 <= m < 12 && DaysBeforeMonth(y, m) <= yday < DaysBeforeMonth(y, m + 1)
  {
    MonthWalk(y, 0, yday)
  }

  lemma MonthOfYearDayUnique(y: int, yday: int, m: int)
    requires 0 <= m < 12 && DaysBeforeMonth(y, m) <= yday < DaysBeforeMonth(y, m + 1)
    ensures 0 <= yday < DaysInYear(y)
    ensures MonthOfYearDay(y, yday) == m
  {
    DaysBeforeMonthMonotone(y, 0, m);
    DaysBeforeMonthMonotone(y, m + 1, 12);
    var k := MonthOfYearDay(y, yday);
    if k < m {
      DaysBeforeMonthMonotone(y, k + 1, m);
    } else if k > m {
      DaysBeforeMonthMonotone(y, m + 1, k);
    }
  }

  /** A civil date: full year, month from 0, day of month from 1. */
  datatype Civil = Civil(year: int, month: int, day: int)

  /** The civil date of day number `n`. */
  function CivilOfDay(n: int): (c: Civil)
    ensures ValidDate(c.year, c.month, c.day)
    ensures DayNumber(c.year, c.month, c.day) == n
  {
    var y := YearOfDay(n);
    YearStartStep(y);
    var yday := n - YearStart(y);
    var m := MonthOfYearDay(y, yday);
    DaysBeforeMonthStep(y, m);
    Civil(y, m, yday - DaysBeforeMonth(y, m) + 1)
  }

  /** The record of second `sod` of the civil date `c`, `wday` and `yday` filled in. */
  function CivilTm(c: Civil, sod: int): Tm
    requires 0 <= c.month < 12
  {
    var n := DayNumber(c.year, c.month, c.day);
    Tm(c.year - 1900, c.month, c.day, sod / 3600, sod % 3600 / 60, sod % 60,
       (n + 4) % 7, DaysBeforeMonth(c.year, c.month) + c.day - 1)
  }

  lemma CivilTmFacts(c: Civil, sod: int)
    requires ValidDate(c.year, c.month, c.day) && 0 <= sod < SecondsPerDay
    ensures ValidTm(CivilTm(c, sod))
    ensures TmDayNumber(CivilTm(c, sod)) == DayNumber(c.year, c.month, c.day)
    ensures Timegm(CivilTm(c, sod)) == DayNumber(c.year, c.month, c.day) * SecondsPerDay + sod
  {
    SplitSecondOfDay(sod);
    MonthInRange(c.month);
  }

  /** `gmtime_r`: breaks seconds since the epoch down in UTC. Days are counted
      with floor division, so an instant before the epoch lands on the previous day. */
  function BreakDown(s: int): (t: Tm)
    ensures ValidTm(t)
    ensures Timegm(t) == s
    ensures TmDayNumber(t) == s / SecondsPerDay
  {
    var c := CivilOfDay(s / SecondsPerDay);
    CivilTmFacts(c, s % SecondsPerDay);
    CivilTm(c, s % SecondsPerDay)
  }

  lemma SplitSecondOfDay(sod: int)
    requires 0 <= sod < SecondsPerDay
    ensures 0 <= sod / 3600 < 24 && 0 <= sod % 3600 / 60 < 60 && 0 <= sod % 60 < 60
    ensures sod / 3600 * 3600 + sod % 3600 / 60 * 60 + sod % 60 == sod
  {
  }

  lemma MonthInRange(m: int)
    requires 0 <= m < 12
    ensures m / 12 == 0 && m % 12 == m
  {
  }

  /** The civil date of a day number is unique. */
  lemma CivilOfDayUnique(y: int, m: int, mday: int)
    requires ValidDate(y, m, mday)
    ensures CivilOfDay(DayNumber(y, m, mday)) == Civil(y, m, mday)
  {
    var n := DayNumber(y, m, mday);
    DaysBeforeMonthStep(y, m);
    DaysBeforeMonthMonotone(y, m + 1, 12);
    YearStartStep(y);
    YearOfDayUnique(n, y);
    MonthOfYearDayUnique(y, n - YearStart(y), m);
  }

  /** Hours, minutes and seconds of a second of the day are unique. */
  lemma {:induction false} SplitSecondOfDayUnique(hour: int, min: int, sec: int)
    requires 0 <= hour < 24 && 0 <= min < 60 && 0 <= sec < 60
    ensures var sod := hour * 3600 + min * 60 + sec;
      sod / 3600 == hour && sod % 3600 / 60 == min && sod % 60 == sec
  {
    var sod := hour * 3600 + min * 60 + sec;
    EuclidUnique(sod, 3600, hour, min * 60 + sec);
    EuclidUnique(min * 60 + sec, 60, min, sec);
    EuclidUnique(sod, 60, hour * 60 + min, sec);
  }

  /** A valid record is the record of its own civil date and second of the day. */
  lemma CivilTmOfTm(t: Tm)
    requires ValidTm(t)
    ensures CivilTm(Civil(t.FullYear(), t.mon, t.mday), t.hour * 3600 + t.min * 60 + t.sec) == t
  {
    SplitSecondOfDayUnique(t.hour, t.min, t.sec);
  }

  /** `timegm` of a valid record splits into its day number and its second of the day. */
  lemma TimegmSplit(t: Tm)
    requires ValidTm(t)
    ensures Timegm(t) / SecondsPerDay == TmDayNumber(t)
    ensures Timegm(t) % SecondsPerDay == t.hour * 3600 + t.min * 60 + t.sec
  {
    var sod := t.hour * 3600 + t.min * 60 + t.sec;
    MonthInRange(t.mon);
    assert Timegm(t) == TmDayNumber(t) * SecondsPerDay + sod;
    EuclidUnique(Timegm(t), SecondsPerDay, TmDayNumber(t), sod);
  }

  /** Breaking down an instant on the day and at the second of the day of a
      valid record gives that record. */
  lemma BreakDownOnTm(s: int, t: Tm)
    requires ValidTm(t)
    requires s / SecondsPerDay == TmDayNumber(t)
    requires s % SecondsPerDay == t.hour * 3600 + t.min * 60 + t.sec
    ensures BreakDown(s) == t
  {
    var c := Civil(t.FullYear(), t.mon, t.mday);
    CivilOfDayUnique(t.FullYear(), t.mon, t.mday);
    assert CivilOfDay(s / SecondsPerDay) == c;
    CivilTmOfTm(t);
    assert CivilTm(c, s % SecondsPerDay) == t;
    assert BreakDown(s) == CivilTm(CivilOfDay(s / SecondsPerDay), s % SecondsPerDay);
  }

  /** Breaking down `timegm` of a valid record gives the record back: the civil
      fields of a day number are unique. */
  lemma BreakDownOfTimegm(t: Tm)
    requires ValidTm(t)
    ensures BreakDown(Timegm(t)) == t
  {
    TimegmSplit(t);
    BreakDownOnTm(Timegm(t), t);
  }

  /** The midnight record of a civil date, with `wday` and `yday` filled in. */
  function DateTm(y: int, m: int, mday: int): (t: Tm)
    requires ValidDate(y, m, mday)
    ensures ValidTm(t)
    ensures t.FullYear() == y && t.mon == m && t.mday == mday
    ensures t.hour == 0 && t.min == 0 && t.sec == 0
  {
    Tm(y - 1900, m, mday, 0, 0, 0, (DayNumber(y, m, mday) + 4) % 7, DaysBeforeMonth(y, m) + mday - 1)
  }

  /** Breaking down the first second of a valid civil date yields that date. */
  lemma BreakDownOfDate(y: int, m: int, mday: int)
    requires ValidDate(y, m, mday)
    ensures BreakDown(DayNumber(y, m, mday) * SecondsPerDay) == DateTm(y, m, mday)
  {
    var t := DateTm(y, m, mday);
    MonthInRange(m);
    assert Timegm(t) == DayNumber(y, m, mday) * SecondsPerDay;
    BreakDownOfTimegm(t);
  }
}
