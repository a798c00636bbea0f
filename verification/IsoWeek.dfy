/**
 The week calendar of ISO 8601:2004 (section 3.2.2; week dates, section
 4.1.4) as the `week` and `year_of_week` functions compute it from a
 broken-down `tm`.
 */
module IsoWeek {
  import opened CInt
  import opened Calendar

  const DaysInWeek: int := 7

  /** ISO day of the week (Monday = 1 … Sunday = 7) of `tm_wday` (Sunday = 0). */
  function IsoWeekday(wday: int): (r: int)
    ensures 0 <= wday < 7 ==> 1 <= r <= 7 && r % 7 == wday
  {
    if wday == 0 then DaysInWeek else wday
  }

  /** ISO 8601 week date of day number `n`: a week belongs to the year that
      holds its Thursday, and weeks are numbered by that year's Thursdays. */
  predicate IsIsoWeekDate(n: int, weekYear: int, week: int) {
    && YearStart(weekYear) <= WeekThursday(n) < YearStart(weekYear + 1)
    && week == (WeekThursday(n) - YearStart(weekYear)) / 7 + 1
  }

  /** Day number of the Thursday in the Monday-to-Sunday week of day `n`. */
  function WeekThursday(n: int): int {
    n - MondayIndex(n) + 3
  }

  /** Every day has exactly one ISO week date. */
  lemma IsoWeekDateUnique(n: int, y1: int, w1: int, y2: int, w2: int)
    requires IsIsoWeekDate(n, y1, w1) && IsIsoWeekDate(n, y2, w2)
    ensures y1 == y2 && w1 == w2
  {
    YearOfDayUnique(WeekThursday(n), y1);
    YearOfDayUnique(WeekThursday(n), y2);
  }

  /** The first estimate of `getWeek`: `floor(10 + (yday + 1) - isoWeekday) / 7`,
      a double division truncated into an int64. */
  function ProvisionalWeek(t: Tm): int {
    CTrunc(10 + (t.yday + 1) - IsoWeekday(t.wday), DaysInWeek)
  }

  /** 1-based day of the year of the Monday of `t`'s week (zero or negative in
      the previous year). */
  function MondayOfWeek(t: Tm): int {
    t.yday + 1 - CRem(t.wday + DaysInWeek - 1, DaysInWeek)
  }

  /** 1-based day of January of the first Monday of `t`'s year, derived from
      the Monday of `t`'s week. */
  function FirstMondayOfYear(t: Tm): int {
    1 + CRem(MondayOfWeek(t) + DaysInWeek - 1, DaysInWeek)
  }

  /** Week 53 is renumbered to week 1 of the next year when its Monday leaves
      fewer than three days of the year (its Thursday is in the next year). */
  function RolloverWeek53(t: Tm): int {
    var daysInYear := if IsLeapYear(t.FullYear()) then 366 else 365;
    if daysInYear - MondayOfWeek(t) < 3 then 1 else 53
  }

  /** `WeekFunction::getWeek` as written. A provisional week 0 becomes 53 when
      the year's first Monday is January 3 or 4, or January 2 after a leap year. */
  function GetWeek(t: Tm): (r: int)
    ensures 0 <= t.yday <= 365 && 0 <= t.wday < 7 ==> 1 <= r <= 53
  {
    var week := ProvisionalWeek(t);
    if week == 0 then
      var firstMonday := FirstMondayOfYear(t);
      if (IsLeapYear(t.FullYear() - 1) && firstMonday == 2) || firstMonday == 3 || firstMonday == 4 then 53 else 52
    else if week == 53 then
      RolloverWeek53(t)
    else
      week
  }

  /** The ISO week number with the previous-year rule corrected: the previous
      year ends in week 53 when the current year's first Monday is January 4
      (December 31 was a Thursday), or January 3 after a leap year (December 31
      was a Friday that closed a leap year starting on a Wednesday). */
  function IsoWeekNumber(t: Tm): (r: int)
    ensures ProvisionalWeek(t) != 0 ==> r == GetWeek(t)
    ensures ProvisionalWeek(t) == 0 ==> r == 52 || r == 53
  {
    var week := ProvisionalWeek(t);
    if week == 0 then
      var firstMonday := FirstMondayOfYear(t);
      if firstMonday == 4 || (IsLeapYear(t.FullYear() - 1) && firstMonday == 3) then 53 else 52
    else if week == 53 then
      RolloverWeek53(t)
    else
      week
  }

  /** `YearOfWeekFunction::computeYearOfWeek`. */
  function YearOfWeek(t: Tm): (r: int)
    ensures r == t.FullYear() - 1 || r == t.FullYear() || r == t.FullYear() + 1
    ensures r == t.FullYear() + 1 <==> t.mon == 11 && t.mday >= 29 && t.mday - IsoWeekday(t.wday) >= 28
    ensures r == t.FullYear() - 1 <==>
      !(t.mon == 11 && t.mday >= 29 && t.mday - IsoWeekday(t.wday) >= 28) &&
      t.mon == 0 && t.mday <= 3 && IsoWeekday(t.wday) - (t.mday - 1) >= 5
  {
    var isoWeekDay := IsoWeekday(t.wday);
    if t.mon == 11 && t.mday >= 29 && t.mday - isoWeekDay >= 31 - 3 then
      1900 + t.year + 1
    else if t.mon == 0 && t.mday <= 3 && isoWeekDay - (t.mday - 1) >= 5 then
      1900 + t.year - 1
    else
      1900 + t.year
  }

  /** The ISO weekday stored in a valid record is that of its day number. */
  lemma {:induction false} IsoWeekdayOfDay(n: int)
    ensures IsoWeekday((n + 4) % 7) == MondayIndex(n) + 1
  {
    var r := (n + 3) % 7;
    var q := (n + 3) / 7;
    if r < 6 {
      EuclidUnique(n + 4, 7, q, r + 1);
    } else {
      EuclidUnique(n + 4, 7, q + 1, 0);
    }
  }

  /** Offset of the Thursday of a valid record's week from January 1 of its year. */
  function ThursdayOffset(t: Tm): int {
    t.yday - IsoWeekday(t.wday) + 4
  }

  lemma ValidTmFacts(t: Tm)
    requires ValidTm(t)
    ensures 1 <= IsoWeekday(t.wday) <= 7
    ensures IsoWeekday(t.wday) == MondayIndex(TmDayNumber(t)) + 1
    ensures TmDayNumber(t) == YearStart(t.FullYear()) + t.yday
    ensures 0 <= t.yday < DaysInYear(t.FullYear())
    ensures ProvisionalWeek(t) == (ThursdayOffset(t) + 7) / 7
    ensures MondayOfWeek(t) == ThursdayOffset(t) - 2
  {
    var y := t.FullYear();
    IsoWeekdayOfDay(TmDayNumber(t));
    DaysBeforeMonthStep(y, t.mon);
    DaysBeforeMonthMonotone(y, t.mon + 1, 12);
  }

  /** `computeYearOfWeek` returns the year holding the Thursday of the week. */
  lemma YearOfWeekByThursday(t: Tm)
    requires ValidTm(t)
    ensures YearOfWeek(t) == t.FullYear() + 1 <==> ThursdayOffset(t) >= DaysInYear(t.FullYear())
    ensures YearOfWeek(t) == t.FullYear() - 1 <==> ThursdayOffset(t) < 0
  {
    var y := t.FullYear();
    ValidTmFacts(t);
    DaysBeforeMonthStep(y, 11);
    if t.mon < 11 {
      DaysBeforeMonthMonotone(y, t.mon + 1, 11);
    }
    if t.mon > 0 {
      DaysBeforeMonthMonotone(y, 1, t.mon);
    }
  }

  /** `computeYearOfWeek` and the corrected week number give the ISO 8601 week
      date of every valid record. */
  lemma IsoWeekIsIsoWeekDate(t: Tm)
    requires ValidTm(t)
    ensures IsIsoWeekDate(TmDayNumber(t), YearOfWeek(t), IsoWeekNumber(t))
    ensures 1 <= IsoWeekNumber(t) <= 53
  {
    var y := t.FullYear();
    var x := ThursdayOffset(t);
    ValidTmFacts(t);
    YearOfWeekByThursday(t);
    var n := TmDayNumber(t);
    assert WeekThursday(n) == YearStart(y) + x;
    if x < 0 {
      PreviousYearWeek(t);
    } else if x < DaysInYear(y) {
      YearStartStep(y);
      assert YearOfWeek(t) == y;
      if x < 364 {
        assert IsoWeekNumber(t) == ProvisionalWeek(t);
      } else {
        assert ProvisionalWeek(t) == 53;
      }
    } else {
      YearStartStep(y);
      YearStartStep(y + 1);
      assert ProvisionalWeek(t) == 53;
      assert IsoWeekNumber(t) == 1;
    }
  }

  lemma PreviousYearWeek(t: Tm)
    requires ValidTm(t) && ThursdayOffset(t) < 0
    ensures YearOfWeek(t) == t.FullYear() - 1
    ensures IsIsoWeekDate(TmDayNumber(t), YearOfWeek(t), IsoWeekNumber(t))
    ensures IsoWeekNumber(t) == 52 || IsoWeekNumber(t) == 53
  {
    var y := t.FullYear();
    var x := ThursdayOffset(t);
    ValidTmFacts(t);
    YearOfWeekByThursday(t);
    YearStartStep(y - 1);
    assert -3 <= x;
    assert ProvisionalWeek(t) == 0;
    assert FirstMondayOfYear(t) == x + 5;
    var n := TmDayNumber(t);
    var d := WeekThursday(n) - YearStart(y - 1);
    assert d == x + DaysInYear(y - 1);
    assert YearStart(y - 1) <= WeekThursday(n) < YearStart(y);
    var w := if x == -1 || (IsLeapYear(y - 1) && x == -2) then 53 else 52;
    assert IsoWeekNumber(t) == w;
    assert d / 7 + 1 == w;
  }

  /** `getWeek` differs from the ISO week exactly in its previous-year branch:
      for a provisional week 0 it answers 53 instead of 52 when the first Monday
      is January 3 after a common year or January 2 after a leap year. */
  lemma GetWeekDiscrepancy(t: Tm)
    requires ValidTm(t)
    ensures GetWeek(t) != IsoWeekNumber(t) <==> MisnumberedWeekZero(t)
    ensures MisnumberedWeekZero(t) ==> GetWeek(t) == 53 && IsoWeekNumber(t) == 52
  {
  }

  /** `getWeek` as written gives the ISO 8601 week date of every valid record
      but the misnumbered ones, which it puts in week 53 instead of week 52. */
  lemma GetWeekIsIsoWeekDate(t: Tm)
    requires ValidTm(t)
    ensures 1 <= GetWeek(t) <= 53
    ensures !MisnumberedWeekZero(t) ==> IsIsoWeekDate(TmDayNumber(t), YearOfWeek(t), GetWeek(t))
    ensures MisnumberedWeekZero(t) ==> GetWeek(t) == 53 && IsIsoWeekDate(TmDayNumber(t), YearOfWeek(t), 52)
  {
    ValidTmFacts(t);
    GetWeekDiscrepancy(t);
    IsoWeekIsIsoWeekDate(t);
  }

  /** The records `getWeek` misnumbers: a provisional week 0 whose year's
      first Monday is January 3 after a common year or January 2 after a leap year. */
  predicate MisnumberedWeekZero(t: Tm) {
    && ProvisionalWeek(t) == 0
    && ((FirstMondayOfYear(t) == 3 && !IsLeapYear(t.FullYear() - 1)) ||
        (FirstMondayOfYear(t) == 2 && IsLeapYear(t.FullYear() - 1)))
  }

  /** 2022-01-01, a Saturday, is in week 52 of 2021, but `getWeek` returns 53. */
  lemma GetWeekCounterexample()
    ensures var t := Tm(122, 0, 1, 0, 0, 0, 6, 0);
      ValidTm(t) && GetWeek(t) == 53 && IsoWeekNumber(t) == 52
  {
    var t := Tm(122, 0, 1, 0, 0, 0, 6, 0);
    assert DayNumber(2022, 0, 1) == 18993;
    assert ProvisionalWeek(t) == 0;
    assert MondayOfWeek(t) == -4;
    assert FirstMondayOfYear(t) == 3;
    assert !IsLeapYear(2021);
  }

  /** A valid record is determined by its day number. */
  lemma SameDayRecord(t: Tm, y: int, m: int, d: int)
    requires ValidTm(t) && ValidDate(y, m, d) && TmDayNumber(t) == DayNumber(y, m, d)
    ensures t.FullYear() == y && t.mon == m && t.mday == d
  {
    CivilOfDayUnique(t.FullYear(), t.mon, t.mday);
    CivilOfDayUnique(y, m, d);
  }

  /** Every valid record of day 18,993 (2022-01-01) is misnumbered by `getWeek`. */
  lemma MisnumberedOn20220101(t: Tm)
    requires ValidTm(t) && TmDayNumber(t) == 18993
    ensures MisnumberedWeekZero(t)
  {
    assert DayNumber(2022, 0, 1) == 18993;
    SameDayRecord(t, 2022, 0, 1);
    assert t.yday == 0 && t.wday == 6;
    assert MondayOfWeek(t) == -4;
    assert FirstMondayOfYear(t) == 3;
    assert !IsLeapYear(2021);
  }

  /** The ISO week date of 2022-01-01 is 2021-W52. */
  lemma WeekDateOf20220101()
    ensures IsIsoWeekDate(TmDayNumber(Tm(122, 0, 1, 0, 0, 0, 6, 0)), 2021, 52)
  {
    assert TmDayNumber(Tm(122, 0, 1, 0, 0, 0, 6, 0)) == 18993;
    assert YearStart(2021) == 18628 && YearStart(2022) == 18993;
  }

  /** 2024-12-30 (a Monday) is day 1 of week 1 of 2025. */
  lemma WeekDateOf20241230()
    ensures var t := Tm(124, 11, 30, 0, 0, 0, 1, 364);
      ValidTm(t) && YearOfWeek(t) == 2025 && IsoWeekNumber(t) == 1 && GetWeek(t) == 1
  {
    assert DayNumber(2024, 11, 30) == 20087;
  }

  /** 2023-01-01 (a Sunday) is in week 52 of 2022. */
  lemma WeekDateOf20230101()
    ensures var t := Tm(123, 0, 1, 0, 0, 0, 0, 0);
      ValidTm(t) && YearOfWeek(t) == 2022 && IsoWeekNumber(t) == 52 && GetWeek(t) == 52
  {
    var t := Tm(123, 0, 1, 0, 0, 0, 0, 0);
    assert DayNumber(2023, 0, 1) == 19358;
    assert ProvisionalWeek(t) == 0;
    assert MondayOfWeek(t) == -5;
    assert FirstMondayOfYear(t) == 2;
    assert !IsLeapYear(2022);
  }
}
