# Calendar and timestamp core of the Presto date/time functions

This project models the scalar logic of velox's Presto date/time functions
(`velox/functions/prestosql/DateTimeFunctions.h`) in Dafny and proves
properties of it:

- the proleptic Gregorian calendar and the `std::tm` record that `gmtime_r`/`timegm` produce and consume (`Calendar`);
- timestamps (seconds plus nanoseconds), time zones as offset functions, and millisecond conversions (`Instant`);
- C++ fixed-width integers and truncating division (`CInt`);
- the nine date/time units and the lookups that turn a unit string into a unit (`Units`);
- ISO 8601 week numbers and week-years (`IsoWeek`);
- the field extractors, `date`, and `timezone_hour`/`timezone_minute` (`Extract`);
- `date_trunc` and its `adjustDateTime` cascade (`Truncate`);
- the session-zone policy and overflow checks of `date_add` and `date_diff` (`Shift`);
- date and timestamp arithmetic with day-time intervals (`Interval`);
- the zone-id fallback of `date_parse` and `parse_datetime` (`ParseZone`).

Every operation is a pure function over immutable values. Errors that the C++
code throws (`VELOX_USER_FAIL`, `VELOX_UNSUPPORTED`, `bad_optional_access`,
an overflowing `toMillis`) are `Result` errors. Each operation is related to an
independent reference definition, an inverse, or the ISO 8601 week-date rules:

- truncation is proved equal to the start of the period holding the instant;
- the corrected week number is proved to be the unique ISO week date of the day, and `getWeek` is proved to depart from it exactly on the misnumbered days;
- `date_diff` is proved to count back what `date_add` added;
- interval subtraction and addition are proved to cancel even across wrap-around.

Points where the code behaves differently from what the function names or
their Presto documentation suggest; the model follows the code:

- The TIMESTAMP WITH TIME ZONE overloads of `date_add` and `date_diff` do not split time and date units.
  - `date_add` adds on the value's wall clock and re-resolves the result in the value's zone.
  - `date_diff` compares the two wall clocks directly, and its session zone is never set.
- For a time unit, `date_diff` with a session zone moves the second operand by the first operand's offset. It therefore measures absolute elapsed time, which `Shift.TimeUnitDiffIgnoresZone` proves.
- `date_trunc` on a TIMESTAMP with an unknown unit fails with `bad_optional_access` (`MissingUnit`), not with a message about the unit.
- `week` returns `getWeek` as written, which misnumbers some early-January days (see Findings); `Extract.Week` models that, and `Extract.CorrectedWeek` is the ISO week.
- `timestamp - timestamp` subtracts 64-bit milliseconds with no overflow check. Unlike the interval functions it carries no exemption from the signed-overflow sanitizer, so an overflowing difference is undefined behaviour in C++; the model wraps it.
- Zone id 0 is GMT, as the parsing functions' comments state; every other id is resolved through the time-zone database (`Instant.ZoneOf`).

## Model

| member | source | states |
|---|---|---|
| CInt.CTrunc | velox/functions/prestosql/DateTimeFunctions.h:134-140 | C++ `/` by a positive divisor: the remainder left over lies in `[0, b)` for a non-negative dividend and in `(-b, 0]` for a negative one |
| CInt.CRem | velox/functions/prestosql/DateTimeFunctions.h:134-135 | C++ `%`: `a == b * (a / b) + r`, `|r| < b`, and a non-zero remainder has the dividend's sign |
| CInt.CRemZeroIsDivisible | velox/functions/prestosql/DateTimeFunctions.h:361-367 | a zero C++ remainder is exactly Euclidean divisibility, and then the truncating and Euclidean quotients agree |
| CInt.CTruncNegate | velox/functions/prestosql/DateTimeFunctions.h:382 | negating the dividend negates the C++ quotient and remainder |
| CInt.Wrap32Identity | velox/functions/prestosql/DateTimeFunctions.h:962-964 | `value != (int32_t)value` holds exactly when the value is outside the int32 range |
| CInt.Wrap64AddWrapped | velox/functions/prestosql/DateTimeFunctions.h:427 | a wrapping int64 sum is unchanged when an operand is wrapped first |
| Calendar.DaysInMonth | velox/functions/prestosql/DateTimeFunctions.h:822-829 | months have 28 to 31 days, and 29 exactly for February of a leap year |
| Calendar.DaysBeforeMonthStep | velox/functions/prestosql/DateTimeFunctions.h:822-830 | consecutive month starts are a month length apart, and the twelve months fill the year |
| Calendar.YearStartStep | velox/functions/prestosql/DateTimeFunctions.h:200 | consecutive January firsts are 365 or 366 days apart, as the leap rule says |
| Calendar.CivilOfDay | velox/functions/prestosql/DateTimeFunctions.h:866 | every day number has a valid civil date that numbers back to it |
| Calendar.CivilOfDayUnique | velox/functions/prestosql/DateTimeFunctions.h:866 | the civil date of a day number is unique |
| Calendar.BreakDown | velox/functions/prestosql/DateTimeFunctions.h:866 | `gmtime_r` yields a consistent record whose `timegm` is the input and whose day is the floor of seconds / 86,400 |
| Calendar.TimegmSplit | velox/functions/prestosql/DateTimeFunctions.h:869 | `timegm` of a valid record is its day number times 86,400 plus its second of the day |
| Calendar.BreakDownOfTimegm | velox/functions/prestosql/DateTimeFunctions.h:866-869 | breaking down `timegm` of a valid record gives the record back |
| Calendar.BreakDownOfDate | velox/functions/prestosql/DateTimeFunctions.h:888 | breaking down the first second of a valid civil date gives that date at midnight |
| Instant.ToTimezone | velox/functions/prestosql/DateTimeFunctions.h:143-146 | `toTimezone` keeps the nanoseconds and moves the seconds by the zone's offset at the instant |
| Instant.ToGmt | velox/functions/prestosql/DateTimeFunctions.h:870-872 | `toGMT` keeps the nanoseconds and moves the seconds back by the zone's offset at the wall clock |
| Instant.FixedOffsetRoundTrip | velox/functions/prestosql/DateTimeFunctions.h:870-872 | in a zone with a fixed offset, `toGMT` undoes `toTimezone` |
| Instant.ToMillis | velox/functions/prestosql/DateTimeFunctions.h:920 | `toMillis` succeeds exactly when the milliseconds fit in int64, and then returns them |
| Instant.FromMillis | velox/functions/prestosql/DateTimeFunctions.h:76 | `fromMillis` gives a timestamp with exactly those milliseconds and no sub-millisecond part |
| Instant.ToMillisOfFromMillis | velox/functions/prestosql/DateTimeFunctions.h:917-920 | milliseconds survive a trip through a timestamp |
| Instant.FromMillisOfToMillis | velox/functions/prestosql/DateTimeFunctions.h:917-920 | a timestamp survives a trip through milliseconds exactly when it is millisecond-precise |
| Instant.ZoneOf | velox/functions/prestosql/DateTimeFunctions.h:1224-1226 | zone id 0 is GMT, with no offset at any instant, and every other id is the database's zone |
| Instant.ZonedLocal | velox/functions/prestosql/DateTimeFunctions.h:74-80 | the wall clock of a zoned value is its floored UTC second plus its zone's offset, with the millisecond fraction as nanoseconds |
| Instant.GmtOffsetSeconds | velox/functions/prestosql/DateTimeFunctions.h:84-95 | `getGMTOffsetSec` is the zone's offset at the value's wall clock |
| Instant.LocalSeconds | velox/functions/prestosql/DateTimeFunctions.h:866 | a TIMESTAMP is read at its UTC second, shifted by the session zone's offset when there is one |
| Instant.TimestampTm | velox/functions/prestosql/DateTimeFunctions.h:866 | `getDateTime` of a timestamp is a valid record whose `timegm` is the local second |
| Instant.DaysTm | velox/functions/prestosql/DateTimeFunctions.h:888 | `getDateTime` of a date is the valid midnight record of that day |
| Extract.SecondsToDays | velox/functions/prestosql/DateTimeFunctions.h:131-141 | the adjusted C++ division puts a second count in the day whose 86,400 seconds contain it |
| Extract.SecondsToDaysIsFloor | velox/functions/prestosql/DateTimeFunctions.h:131-141 | the adjusted division is floor division |
| Extract.SecondsToDaysAdjustment | velox/functions/prestosql/DateTimeFunctions.h:134-140 | it differs from plain C++ division exactly for negative counts that are not whole days |
| Extract.TimestampToDate | velox/functions/prestosql/DateTimeFunctions.h:130-150 | `timestampToDate` is the floored day of the wall clock in the session zone, narrowed to int32 |
| Extract.TimestampToDateIsBrokenDownDay | velox/functions/prestosql/DateTimeFunctions.h:130-156 | `date` agrees with the day of the record the other extractors read |
| Extract.PreEpochDate | velox/functions/prestosql/DateTimeFunctions.h:131-141 | one second or one nanosecond before the epoch is day -1; -86,401 s is day -2 |
| Extract.ZonedDateAsWritten | velox/functions/prestosql/DateTimeFunctions.h:158-162 | `date` of a zoned value as written shifts the value's own wall clock by the session zone as well |
| Extract.ZonedDate | velox/functions/prestosql/DateTimeFunctions.h:158-162 | `date` of a zoned value is the floored day of its wall clock in its own zone |
| Extract.ZonedDateCounterexample | velox/functions/prestosql/DateTimeFunctions.h:158-162 | 1970-01-01T20:00Z in UTC is day 0, but the as-written form gives day 1 with a session zone ten hours east |
| Extract.ValueTm | velox/functions/prestosql/DateTimeFunctions.h:290-305 | `getDateTime` of any argument is a valid record of the wall clock's day and second of the day |
| Extract.Year | velox/functions/prestosql/DateTimeFunctions.h:232-251 | `year` is the calendar year whose days contain the local day |
| Extract.Month | velox/functions/prestosql/DateTimeFunctions.h:286-288 | `month` is between 1 and 12 |
| Extract.MonthHoldsDay | velox/functions/prestosql/DateTimeFunctions.h:286-305 | the month returned is the one whose days contain the local day |
| Extract.QuarterHoldsDay | velox/functions/prestosql/DateTimeFunctions.h:259-261 | `tm_mon / 3 + 1` names the three months that contain the record's day |
| Extract.QuarterHoldsMonth | velox/functions/prestosql/DateTimeFunctions.h:259-261 | the quarter contains the month |
| Extract.DayOfMonth | velox/functions/prestosql/DateTimeFunctions.h:309-329 | `day` is between 1 and 31 |
| Extract.ExtractorsRecoverDay | velox/functions/prestosql/DateTimeFunctions.h:232-329 | year, month and day together are a valid date whose day number is the local day |
| Extract.DayOfWeek | velox/functions/prestosql/DateTimeFunctions.h:472-474 | `day_of_week` is the ISO weekday (Monday 1 to Sunday 7) of the local day |
| Extract.DayOfYear | velox/functions/prestosql/DateTimeFunctions.h:499-501 | `day_of_year` is the 1-based position of the local day in its year, at most the year length |
| Extract.Week | velox/functions/prestosql/DateTimeFunctions.h:209-225 | `week` as written: in 1..53, the ISO 8601 week of the local day in its week-year, except on the misnumbered week-0 days, where it answers 53 for ISO week 52 |
| Extract.CorrectedWeek | velox/functions/prestosql/DateTimeFunctions.h:209-225 | the evidently intended `week`: in 1..53 and the ISO 8601 week of the local day in its week-year |
| Extract.WeekAgreesWithCorrected | velox/functions/prestosql/DateTimeFunctions.h:209-225 | `week` and the corrected week agree exactly off the misnumbered week-0 days |
| Extract.WeekOf20220101 | velox/functions/prestosql/DateTimeFunctions.h:214-217 | DATE 2022-01-01 gets week 53 from `week`, against ISO week 52 |
| Extract.YearOfIsoWeek | velox/functions/prestosql/DateTimeFunctions.h:547-562 | `year_of_week` is the year holding the Thursday of the local day's week |
| Extract.TmQuarter | velox/functions/prestosql/DateTimeFunctions.h:259-261 | `tm_mon / 3 + 1` is in 1..4 and its three months hold `tm_mon` |
| Extract.Quarter | velox/functions/prestosql/DateTimeFunctions.h:262-279 | `quarter` is in 1..4 and holds the month of the local day |
| Extract.Hour | velox/functions/prestosql/DateTimeFunctions.h:566-586 | `hour` is the hour of the day holding the local second of the day |
| Extract.Minute | velox/functions/prestosql/DateTimeFunctions.h:589-609 | `minute` is the minute within that hour holding the local second of the day |
| Extract.SecondOfMinute | velox/functions/prestosql/DateTimeFunctions.h:612-631 | `second` reads a TIMESTAMP in UTC, never in the session zone |
| Extract.MillisecondOfSecond | velox/functions/prestosql/DateTimeFunctions.h:634-656 | `millisecond` is 0 for a date, the millisecond part of a zoned value, and the whole milliseconds of a timestamp's nanoseconds |
| Extract.OffsetHours | velox/functions/prestosql/DateTimeFunctions.h:1378 | the hour part of an offset is rounded toward zero |
| Extract.OffsetMinutes | velox/functions/prestosql/DateTimeFunctions.h:1391 | the minute part is below 60 in magnitude and completes the hours to the offset's whole minutes |
| Extract.NestedTruncation | velox/functions/prestosql/DateTimeFunctions.h:1391 | truncating by 60 twice is truncating by 3,600 |
| Extract.OffsetSplit | velox/functions/prestosql/DateTimeFunctions.h:1369-1393 | hours and minutes give back the offset's whole minutes and both share the offset's sign |
| Extract.OffsetSplitExample | velox/functions/prestosql/DateTimeFunctions.h:1369-1393 | -5,400 s is -1 h -30 min, -1,800 s is 0 h -30 min, and 19,800 s is 5 h 30 min |
| Extract.TimeZoneHour | velox/functions/prestosql/DateTimeFunctions.h:1369-1380 | `timezone_hour` is the hour part of the value's offset |
| Extract.TimeZoneMinute | velox/functions/prestosql/DateTimeFunctions.h:1382-1393 | `timezone_minute` is the minute part of the value's offset |
| IsoWeek.IsoWeekday | velox/functions/prestosql/DateTimeFunctions.h:527 | the ISO weekday is in 1..7 and congruent to `tm_wday` modulo 7 |
| IsoWeek.IsoWeekDateUnique | velox/functions/prestosql/DateTimeFunctions.h:170-207 | a day has exactly one ISO 8601 week date |
| IsoWeek.YearOfWeek | velox/functions/prestosql/DateTimeFunctions.h:526-545 | `computeYearOfWeek` returns year-1, year or year+1, with year+1 and year-1 exactly under the December and January conditions |
| IsoWeek.YearOfWeekByThursday | velox/functions/prestosql/DateTimeFunctions.h:526-545 | the week-year is the year holding the Thursday of the day's week |
| IsoWeek.IsoWeekIsIsoWeekDate | velox/functions/prestosql/DateTimeFunctions.h:170-207 | the corrected week number, with `computeYearOfWeek`, is the ISO 8601 week date of the day and lies in 1..53 |
| IsoWeek.PreviousYearWeek | velox/functions/prestosql/DateTimeFunctions.h:178-194 | a day before its year's first week is in week 52 or 53 of the previous week-year |
| IsoWeek.GetWeek | velox/functions/prestosql/DateTimeFunctions.h:170-207 | `getWeek` stays in 1..53 for any record with `tm_yday` and `tm_wday` in range |
| IsoWeek.IsoWeekNumber | velox/functions/prestosql/DateTimeFunctions.h:170-207 | the corrected week differs from `getWeek` only in the provisional week-0 branch, where it is 52 or 53 |
| IsoWeek.GetWeekIsIsoWeekDate | velox/functions/prestosql/DateTimeFunctions.h:170-207 | `getWeek` is the ISO 8601 week date of every valid record except the misnumbered ones, which get 53 where ISO says 52 |
| IsoWeek.MisnumberedOn20220101 | velox/functions/prestosql/DateTimeFunctions.h:188-191 | every valid record of 2022-01-01 is misnumbered by the week-0 branch |
| IsoWeek.WeekDateOf20220101 | velox/functions/prestosql/DateTimeFunctions.h:178-194 | 2022-01-01 is in ISO week 52 of 2021 |
| IsoWeek.GetWeekDiscrepancy | velox/functions/prestosql/DateTimeFunctions.h:188-191 | `getWeek` differs from the ISO week exactly when its week-0 branch sees a first Monday on January 3 after a common year or January 2 after a leap year |
| IsoWeek.GetWeekCounterexample | velox/functions/prestosql/DateTimeFunctions.h:188-191 | 2022-01-01 gets week 53 from `getWeek`, while its ISO week is 52 |
| IsoWeek.WeekDateOf20241230 | velox/functions/prestosql/DateTimeFunctions.h:195-203 | 2024-12-30 rolls over from week 53 to week 1 of 2025 |
| IsoWeek.WeekDateOf20230101 | velox/functions/prestosql/DateTimeFunctions.h:178-194 | 2023-01-01 is in week 52 of 2022 |
| Units.UnitNameInjective | velox/functions/prestosql/DateTimeFunctions.h:662-670 | the nine unit keywords are distinct |
| Units.ToLower | velox/functions/prestosql/DateTimeFunctions.h:672 | lower-casing keeps the length and maps only A-Z, character by character |
| Units.ToLowerIdempotent | velox/functions/prestosql/DateTimeFunctions.h:672 | lower-casing twice is lower-casing once |
| Units.ParseUnit | velox/functions/prestosql/DateTimeFunctions.h:672-700 | a unit is found exactly when the lower-cased string is its keyword |
| Units.ParseUnitOfName | velox/functions/prestosql/DateTimeFunctions.h:659-705 | every keyword, in any case, parses to its unit |
| Units.FromUnitString | velox/functions/prestosql/DateTimeFunctions.h:659-705 | the nine keywords are accepted ignoring case; anything else is no unit, or an unsupported-unit error when asked to throw |
| Units.FromUnitStringIgnoresCase | velox/functions/prestosql/DateTimeFunctions.h:672 | a string and its lower-case form give the same lookup result |
| Units.TimeDatePartition | velox/functions/prestosql/DateTimeFunctions.h:707-716 | every unit is a time unit or a date unit, never both |
| Units.GetDateUnit | velox/functions/prestosql/DateTimeFunctions.h:718-730 | only date units are returned; a time unit is a not-a-DATE-field error or no unit, depending on the flag |
| Units.GetTimestampUnit | velox/functions/prestosql/DateTimeFunctions.h:732-742 | only `millisecond` is rejected; an unknown string passes through as no unit |
| Units.RequireUnit | velox/functions/prestosql/DateTimeFunctions.h:858 | `.value()` on a lookup yields the unit, propagates its error, or fails on an empty result |
| Units.PrecomputedUnitAgrees | velox/functions/prestosql/DateTimeFunctions.h:753-780 | a unit cached at initialisation is the one the per-row lookup finds |
| Units.GetDateUnitOfName | velox/functions/prestosql/DateTimeFunctions.h:718-730 | every date unit's keyword is accepted for DATE and every time unit's keyword is rejected |
| Units.MixedCaseExample | velox/functions/prestosql/DateTimeFunctions.h:672-688 | `WeEk` is the week unit |
| Units.PluralExample | velox/functions/prestosql/DateTimeFunctions.h:698-705 | `weeks` is not a unit |
| Units.MillisecondTimestampExample | velox/functions/prestosql/DateTimeFunctions.h:736-740 | `MilliSecond` is not a TIMESTAMP field |
| Truncate.CLeapYearIsLeapYear | velox/functions/prestosql/DateTimeFunctions.h:825-827 | the leap test written with C++ remainders is the Gregorian rule for every year |
| Truncate.AdjustDateTime | velox/functions/prestosql/DateTimeFunctions.h:782-848 | every case clears the seconds; every case above the minute clears the minutes; every date unit clears the hour; `year` gives January 1 of the same year; `quarter` gives day 1 of a month that is a multiple of 3 and at most three months back; `month` gives day 1 of the same month; `week` gives a Monday; `day`, `hour` and `minute` keep the date, and the finer units keep the fields above them |
| Truncate.AdjustDateTimeIdempotent | velox/functions/prestosql/DateTimeFunctions.h:782-848 | adjusting an already adjusted valid record to the same unit changes nothing |
| Truncate.WeekStart | velox/functions/prestosql/DateTimeFunctions.h:799-801 | the reference week start is the Monday among the seven days ending at the day |
| Truncate.MonthStart | velox/functions/prestosql/DateTimeFunctions.h:793-797 | the reference month start is the day 1 of the same year and month |
| Truncate.QuarterStart | velox/functions/prestosql/DateTimeFunctions.h:790-797 | the reference quarter start is day 1 of the quarter's first month |
| Truncate.YearStartOf | velox/functions/prestosql/DateTimeFunctions.h:786-797 | the reference year start is January 1 of the same year |
| Truncate.PeriodStartBounds | velox/functions/prestosql/DateTimeFunctions.h:782-848 | a period start is no later than the instant, and a date unit's start is a midnight |
| Truncate.PeriodStartIdempotent | velox/functions/prestosql/DateTimeFunctions.h:782-848 | truncating twice is truncating once |
| Truncate.AdjustMinuteMatches | velox/functions/prestosql/DateTimeFunctions.h:842-844 | clearing the seconds gives the start of the minute |
| Truncate.AdjustHourMatches | velox/functions/prestosql/DateTimeFunctions.h:839-844 | clearing minutes and seconds gives the start of the hour |
| Truncate.AdjustDayMatches | velox/functions/prestosql/DateTimeFunctions.h:836-844 | clearing the time of day gives the midnight of the day |
| Truncate.BorrowMonth | velox/functions/prestosql/DateTimeFunctions.h:807-830 | a day 0 to -5 of a month is the same day counted from the previous month's length |
| Truncate.BorrowYear | velox/functions/prestosql/DateTimeFunctions.h:812-816 | a day 0 to -5 of January is a day of the previous December |
| Truncate.DaysBackIsMondayIndex | velox/functions/prestosql/DateTimeFunctions.h:801 | stepping back `wday == 0 ? 6 : wday - 1` days reaches the week's Monday |
| Truncate.AdjustWeekDate | velox/functions/prestosql/DateTimeFunctions.h:799-835 | the week case yields a valid Monday at midnight of the same week, borrowing from the previous month or year |
| Truncate.AdjustWeekMatches | velox/functions/prestosql/DateTimeFunctions.h:799-835 | the week case gives the reference week start |
| Truncate.AdjustMonthMatches | velox/functions/prestosql/DateTimeFunctions.h:793-798 | the month case gives the reference month start |
| Truncate.AdjustQuarterMatches | velox/functions/prestosql/DateTimeFunctions.h:790-798 | the quarter case gives the reference quarter start |
| Truncate.AdjustYearMatches | velox/functions/prestosql/DateTimeFunctions.h:786-798 | the year case gives the reference year start |
| Truncate.AdjustMatchesReference | velox/functions/prestosql/DateTimeFunctions.h:782-848 | `timegm` of an adjusted valid record is the reference truncation of its `timegm` |
| Truncate.WeekAcrossMonthExample | velox/functions/prestosql/DateTimeFunctions.h:799-835 | 2023-03-01 truncates to Monday 2023-02-27 |
| Truncate.WeekAcrossLeapMonthExample | velox/functions/prestosql/DateTimeFunctions.h:824-829 | 2024-03-01 truncates to Monday 2024-02-26 |
| Truncate.WeekAcrossYearExample | velox/functions/prestosql/DateTimeFunctions.h:812-816 | 2021-01-01 truncates to Monday 2020-12-28 |
| Truncate.TruncTimestamp | velox/functions/prestosql/DateTimeFunctions.h:850-873 | it fails exactly for an unknown unit or `millisecond`, with those errors, and otherwise has no nanoseconds |
| Truncate.TruncTimestampIsPeriodStart | velox/functions/prestosql/DateTimeFunctions.h:850-873 | `date_trunc` on a TIMESTAMP is the reference truncation of the wall clock, resolved back to UTC in the session zone |
| Truncate.TruncTimestampUtc | velox/functions/prestosql/DateTimeFunctions.h:850-873 | without a session zone, truncation never moves a timestamp forward and is idempotent |
| Truncate.TruncDate | velox/functions/prestosql/DateTimeFunctions.h:875-892 | only date units are accepted, with the unknown-unit and not-a-DATE-field errors; `day` returns the date unchanged |
| Truncate.TruncDateIsPeriodStart | velox/functions/prestosql/DateTimeFunctions.h:875-892 | `date_trunc` on a DATE is the day of the reference period start, and `day` leaves the date unchanged |
| Truncate.TruncZoned | velox/functions/prestosql/DateTimeFunctions.h:894-923 | a zoned truncation fails for an unknown unit and for `millisecond`, and keeps the zone id |
| Truncate.ZonedTruncation | velox/functions/prestosql/DateTimeFunctions.h:913-922 | truncation of a zoned value keeps its zone id and fails only with a millisecond overflow; its value is pinned by `Truncate.ZonedTruncationIsPeriodStart` |
| Truncate.ZonedOfWallClock | velox/functions/prestosql/DateTimeFunctions.h:917-920 | a wall clock resolved back in a zone keeps the zone id and fails only with a millisecond overflow |
| Truncate.TruncZonedTakesTruncation | velox/functions/prestosql/DateTimeFunctions.h:894-923 | every unit other than `millisecond` and `second` takes the wall-clock truncation branch |
| Truncate.ZonedOfWallClockExact | velox/functions/prestosql/DateTimeFunctions.h:917-920 | without wrap-around, a truncated wall clock comes back as its UTC milliseconds in the value's zone, or a millisecond overflow |
| Truncate.TruncZonedSecond | velox/functions/prestosql/DateTimeFunctions.h:905-911 | `second` floors the UTC milliseconds to a whole second |
| Truncate.WallClockTruncation | velox/functions/prestosql/DateTimeFunctions.h:914-917 | the UTC break-down of a wall clock, adjusted, is its reference truncation |
| Truncate.ZonedTruncationIsPeriodStart | velox/functions/prestosql/DateTimeFunctions.h:913-922 | other units truncate the value's wall clock in its own zone and resolve it back to UTC there |
| Shift.CheckedAmount | velox/functions/prestosql/DateTimeFunctions.h:962-964 | an amount outside int32 is an integer-overflow error, and any other amount is kept |
| Shift.DateAddTimestamp | velox/functions/prestosql/DateTimeFunctions.h:954-990 | an unknown unit is reported before the amount; with a known unit it fails exactly for an amount outside int32 |
| Shift.DateDiffTimestamp | velox/functions/prestosql/DateTimeFunctions.h:1071-1100 | `date_diff` fails exactly for an unknown unit |
| Shift.FixedOffsetWallClockRoundTrip | velox/functions/prestosql/DateTimeFunctions.h:983-985 | in a fixed-offset zone, resolving a wall clock to UTC and reading it back is the identity |
| Shift.TimeUnitAddIgnoresZone | velox/functions/prestosql/DateTimeFunctions.h:966-981 | with distance-only arithmetic, adding a time unit gives the same instant with or without a session zone |
| Shift.TimeUnitDiffIgnoresZone | velox/functions/prestosql/DateTimeFunctions.h:1080-1093 | with distance-only arithmetic, a time-unit difference is the same with or without a session zone |
| Shift.AddThenDiff | velox/functions/prestosql/DateTimeFunctions.h:954-1100 | `date_diff` of a timestamp and `date_add` of it gives back the amount, for time units with any session zone and for date units when the zone round-trips |
| Shift.DateAddZoned | velox/functions/prestosql/DateTimeFunctions.h:992-1012 | unknown unit and overflowing amount are reported in that order, and the zone id is kept |
| Shift.DateDiffZoned | velox/functions/prestosql/DateTimeFunctions.h:1114-1124 | a zoned `date_diff` compares the two values' own wall clocks and ignores the session zone |
| Shift.ZonedAddThenDiff | velox/functions/prestosql/DateTimeFunctions.h:992-1124 | a zoned `date_diff` counts back what a zoned `date_add` added, when the value's zone round-trips |
| Shift.DateAddDate | velox/functions/prestosql/DateTimeFunctions.h:1014-1029 | `date_add` on a DATE fails exactly for a non-date unit or an amount outside int32, with the right error |
| Shift.DateDiffDate | velox/functions/prestosql/DateTimeFunctions.h:1102-1112 | `date_diff` on DATEs fails exactly for a non-date unit, and otherwise is `diffDate` of the parsed unit |
| Shift.DateAddThenDiff | velox/functions/prestosql/DateTimeFunctions.h:1014-1112 | `date_diff` on DATEs counts back what `date_add` added |
| Interval.IntervalDays | velox/functions/prestosql/DateTimeFunctions.h:365-367 | the day count of an interval is rounded toward zero |
| Interval.WholeDaysExact | velox/functions/prestosql/DateTimeFunctions.h:361-367 | the whole-days test is divisibility by 86,400,000, and then the day count is exact |
| Interval.DatePlusInterval | velox/functions/prestosql/DateTimeFunctions.h:386-399 | a sub-day interval is refused, and otherwise its days are added |
| Interval.DateMinusInterval | velox/functions/prestosql/DateTimeFunctions.h:371-384 | a sub-day interval is refused, and otherwise its days are subtracted |
| Interval.DateMinusIsPlusNegated | velox/functions/prestosql/DateTimeFunctions.h:371-399 | subtracting an interval from a date is adding its negation |
| Interval.TimestampMinus | velox/functions/prestosql/DateTimeFunctions.h:401-411 | `timestamp - timestamp` fails exactly when a conversion overflows, and is the exact millisecond difference when that fits |
| Interval.TimestampPlusInterval | velox/functions/prestosql/DateTimeFunctions.h:413-429 | adding an interval moves the milliseconds by it when the sum fits, and always gives a millisecond-precise timestamp |
| Interval.IntervalPlusTimestamp | velox/functions/prestosql/DateTimeFunctions.h:431-447 | interval-first addition moves the milliseconds by the interval when the sum fits |
| Interval.TimestampMinusInterval | velox/functions/prestosql/DateTimeFunctions.h:449-465 | subtracting an interval moves the milliseconds back by it when the difference fits |
| Interval.PlusValue | velox/functions/prestosql/DateTimeFunctions.h:414-429 | when the timestamp converts, the sum is the wrapped millisecond sum |
| Interval.MinusValue | velox/functions/prestosql/DateTimeFunctions.h:450-465 | when the timestamp converts, the difference is the wrapped millisecond difference |
| Interval.PlusCommutes | velox/functions/prestosql/DateTimeFunctions.h:413-447 | both addition orders agree |
| Interval.MinusIsPlusNegated | velox/functions/prestosql/DateTimeFunctions.h:413-465 | subtracting an interval is adding its two's-complement negation |
| Interval.MinusThenPlus | velox/functions/prestosql/DateTimeFunctions.h:413-465 | subtracting and adding back an interval restores a millisecond-precise timestamp, even across wrap-around |
| Interval.PlusMinusDifference | velox/functions/prestosql/DateTimeFunctions.h:401-429 | adding `a - b` to `b` gives back a millisecond-precise `a` |
| Interval.WrapExample | velox/functions/prestosql/DateTimeFunctions.h:427 | one millisecond past the largest instant wraps to the smallest |
| Interval.SubDayExample | velox/functions/prestosql/DateTimeFunctions.h:371-399 | 1.5 days is refused and 2 days is accepted in both directions |
| ParseZone.ZoneIdFallback | velox/functions/prestosql/DateTimeFunctions.h:1337-1339 | the parsed zone wins, then the session zone, then 0, narrowed to 16 bits |
| ParseZone.DateParse | velox/functions/prestosql/DateTimeFunctions.h:1224-1228 | `date_parse` resolves the wall clock in the session zone; with no session zone, or session zone 0, the wall clock is taken as GMT unchanged |
| ParseZone.ParseDateTime | velox/functions/prestosql/DateTimeFunctions.h:1333-1341 | `parse_datetime` keeps the chosen zone id, fails exactly when the UTC milliseconds overflow, and reads the wall clock as GMT when the chosen id is 0 |
| ParseZone.ParsersFallBackToGmt | velox/functions/prestosql/DateTimeFunctions.h:1224-1228 | with no zone in the text and no session zone, both parsers read the wall clock as GMT |
| ParseZone.ParsersAgreeWithoutZone | velox/functions/prestosql/DateTimeFunctions.h:1226-1341 | with no zone in the text both parsers give the same instant |
| ParseZone.ParsedWallClockRoundTrip | velox/functions/prestosql/DateTimeFunctions.h:1337-1341 | reading a parsed zoned value in its zone gives the parsed wall clock back |
| ParseZone.NarrowedSessionExample | velox/functions/prestosql/DateTimeFunctions.h:1337-1339 | a session zone id of 65,541 becomes 5, and a parsed id wins over it |

## Left out

- `ToUnixtimeFunction` and `FromUnixtimeFunction`: double-precision conversions.
- `CurrentDateFunction`: reads the wall clock.
- `LastDayOfMonthFunction` and `date(varchar)`: they rely on helpers that are not part of this model.
- `DateFormatFunction`, `FormatDateTimeFunction`, and the pattern languages of the parsers: the formatter and parser internals are not part of this model. The parsed wall clock and zone id are inputs.
- The time-zone database: a zone is a pair of offset functions, one for reading an instant and one for resolving a wall clock. Zone ids resolve through a function parameter.
- `addToTimestamp`, `diffTimestamp`, `addToDate` and `diffDate` are not part of this model. They are function parameters, and the round-trip lemmas state what they assume of them.
- `addToDate`'s 32-bit amount parameter is taken from its declaration elsewhere. The interval day count is narrowed to it.
- Vector, null and constant-folding plumbing: a unit cached in `initialize` is modelled only as the per-row lookup (`Units.PrecomputedUnitAgrees`).
- `Timestamp`'s own range checks on seconds are not modelled: seconds are unbounded, and only `toMillis` checks its range.
- Truncate.AdjustDateTime: the week case leaves `tm_yday` unchanged, as the source does. Only `timegm` reads the record afterwards, and it ignores `tm_yday`.
- Truncate.TruncZonedSecond: stated only for milliseconds whose floored seconds times 1,000 fit in int64. For the 808 smallest values that product overflows int64; the model wraps it.
- Interval.TimestampMinus: when both conversions overflow, the C++ evaluation order of the operands is unspecified. The model reports the first operand.
- Interval.TimestampMinus: an overflowing int64 subtraction is undefined behaviour in C++; the model wraps it, so nothing is promised about the source's result there.

## Findings

| source | as written | input that shows it | evidently intended | confidence | as-written member | corrected member |
|---|---|---|---|---|---|---|
| velox/functions/prestosql/DateTimeFunctions.h:188-191 | a provisional week 0 becomes 53 when the year's first Monday is January 3 or 4, or January 2 after a leap year | 2022-01-01 (a Saturday, after the common year 2021) gets week 53 | ISO 8601 puts it in 2021-W52: the previous year has 53 weeks only when its last day is a Thursday, or a Friday closing a leap year, so the first Monday is January 4, or January 3 after a leap year | not executed | IsoWeek.GetWeekCounterexample | IsoWeek.IsoWeekIsIsoWeekDate |
| velox/functions/prestosql/DateTimeFunctions.h:158-162 | `date` of a TIMESTAMP WITH TIME ZONE passes the value's wall clock to `timestampToDate`, which shifts it again by the session zone | 72,000,000 ms in a UTC zone, with a session zone ten hours east, gives day 1 | day 0: the value is read in its own zone only, like every other extractor of a zoned value | not executed | Extract.ZonedDateCounterexample | Extract.ZonedDate |
