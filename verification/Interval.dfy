/**
 Arithmetic between dates, timestamps and day-time intervals. An interval is
 a signed count of milliseconds (INTERVAL DAY TO SECOND). Adding one to a
 DATE needs a whole number of days; the timestamp forms work in 64-bit
 milliseconds and wrap around on overflow.
 */
module Interval {
  import opened CInt
  import opened Wrappers
  import opened Errors
  import opened Units
  import opened Instant
  import Shift

  const MillisPerDay: int := 86_400_000

  /** `isIntervalWholeDays`: the C++ remainder by one day is zero. */
  predicate IsWholeDays(ms: Int64) {
    CRem(ms, MillisPerDay) == 0
  }

  /** `intervalDays`: whole days in the interval, rounded toward zero. */
  function IntervalDays(ms: Int64): (d: int)
    ensures ms >= 0 ==> 0 <= ms - d * MillisPerDay < MillisPerDay
    ensures ms < 0 ==> -MillisPerDay < ms - d * MillisPerDay <= 0
  {
    CTrunc(ms, MillisPerDay)
  }

  /** The whole-days test is divisibility, and then the day count is exact. */
  lemma WholeDaysExact(ms: Int64)
    ensures IsWholeDays(ms) <==> ms % MillisPerDay == 0
    ensures IsWholeDays(ms) ==> IntervalDays(ms) * MillisPerDay == ms
  {
    CRemZeroIsDivisible(ms, MillisPerDay);
  }

  /** `DatePlusIntervalDayTime`: a sub-day interval is refused; otherwise
      the day count, narrowed to the 32-bit amount `addToDate` takes, is added. */
  function DatePlusInterval(date: Int32, ms: Int64, addDate: Shift.DateAdder): (r: Result<Int32, DateTimeError>)
    ensures r.Err? <==> ms % MillisPerDay != 0
    ensures r.Err? ==> r.error == CannotAddSubDayInterval
    ensures r.Ok? && InInt32(ms / MillisPerDay) ==> r.value == addDate(date, Day, ms / MillisPerDay)
  {
    WholeDaysExact(ms);
    if !IsWholeDays(ms) then Err(CannotAddSubDayInterval)
    else Ok(addDate(date, Day, Wrap32(IntervalDays(ms))))
  }

  /** `DateMinusIntervalDayTime`: as above with the day count negated. */
  function DateMinusInterval(date: Int32, ms: Int64, addDate: Shift.DateAdder): (r: Result<Int32, DateTimeError>)
    ensures r.Err? <==> ms % MillisPerDay != 0
    ensures r.Err? ==> r.error == CannotSubtractSubDayInterval
    ensures r.Ok? && InInt32(ms / MillisPerDay) ==> r.value == addDate(date, Day, Wrap32(-(ms / MillisPerDay)))
  {
    WholeDaysExact(ms);
    if !IsWholeDays(ms) then Err(CannotSubtractSubDayInterval)
    else Ok(addDate(date, Day, Wrap32(-IntervalDays(ms))))
  }

  /** Subtracting an interval from a date is adding its negation: both are
      refused together and otherwise agree, whenever the negation exists. */
  lemma {:induction false} DateMinusIsPlusNegated(date: Int32, ms: Int64, addDate: Shift.DateAdder)
    requires ms != Int64Min
    ensures DateMinusInterval(date, ms, addDate).Ok? <==> DatePlusInterval(date, -ms, addDate).Ok?
    ensures DateMinusInterval(date, ms, addDate).Ok? ==>
      DateMinusInterval(date, ms, addDate).value == DatePlusInterval(date, -ms, addDate).value
  {
    CTruncNegate(ms, MillisPerDay);
    WholeDaysExact(ms);
    WholeDaysExact(-ms);
  }

  /** `TimestampMinusFunction`: the difference of the two timestamps'
      milliseconds. Either conversion may overflow; the subtraction wraps. */
  function TimestampMinus(a: Timestamp, b: Timestamp): (r: Result<Int64, DateTimeError>)
    ensures r.Ok? <==> InInt64(ExactMillis(a)) && InInt64(ExactMillis(b))
    ensures r.Ok? && InInt64(ExactMillis(a) - ExactMillis(b)) ==> r.value == ExactMillis(a) - ExactMillis(b)
  {
    var ma :- ToMillis(a);
    var mb :- ToMillis(b);
    Ok(Wrap64(ma - mb))
  }

  /** `TimestampPlusIntervalDayTime`: milliseconds plus the interval, wrapping. */
  function TimestampPlusInterval(a: Timestamp, ms: Int64): (r: Result<Timestamp, DateTimeError>)
    ensures r.Ok? <==> InInt64(ExactMillis(a))
    ensures r.Ok? ==> r.value.nanos % 1_000_000 == 0
    ensures r.Ok? && InInt64(ExactMillis(a) + ms) ==> ExactMillis(r.value) == ExactMillis(a) + ms
  {
    var ma :- ToMillis(a);
    Ok(FromMillis(Wrap64(ma + ms)))
  }

  /** `IntervalDayTimePlusTimestamp`: the interval first. */
  function IntervalPlusTimestamp(ms: Int64, b: Timestamp): (r: Result<Timestamp, DateTimeError>)
    ensures r.Ok? <==> InInt64(ExactMillis(b))
    ensures r.Ok? && InInt64(ms + ExactMillis(b)) ==> ExactMillis(r.value) == ms + ExactMillis(b)
  {
    var mb :- ToMillis(b);
    Ok(FromMillis(Wrap64(ms + mb)))
  }

  /** `TimestampMinusIntervalDayTime`: milliseconds minus the interval, wrapping. */
  function TimestampMinusInterval(a: Timestamp, ms: Int64): (r: Result<Timestamp, DateTimeError>)
    ensures r.Ok? <==> InInt64(ExactMillis(a))
    ensures r.Ok? && InInt64(ExactMillis(a) - ms) ==> ExactMillis(r.value) == ExactMillis(a) - ms
  {
    var ma :- ToMillis(a);
    Ok(FromMillis(Wrap64(ma - ms)))
  }

  /** Adding an interval commutes. */
  lemma PlusCommutes(a: Timestamp, ms: Int64)
    ensures IntervalPlusTimestamp(ms, a) == TimestampPlusInterval(a, ms)
  {
  }

  /** Subtracting an interval is adding its two's-complement negation, even
      for the most negative interval. */
  lemma {:induction false} MinusIsPlusNegated(a: Timestamp, ms: Int64)
    ensures TimestampMinusInterval(a, ms) == TimestampPlusInterval(a, Wrap64(-(ms as int)))
  {
    if InInt64(ExactMillis(a)) {
      var ma := ExactMillis(a);
      Wrap64AddWrapped(ma, -(ms as int));
    }
  }

  /** Wrapped subtraction and wrapped addition of the same amount cancel. */
  lemma WrapCancels(x: Int64, y: int)
    ensures Wrap64(Wrap64(x - y) + y) == x
  {
    Wrap64AddWrapped(y, x - y);
  }

  /** Millisecond-precise timestamps are the ones rebuilt from their milliseconds. */
  lemma MillisPrecise(a: Timestamp, ms: Int64)
    requires ExactMillis(a) == ms && a.nanos % 1_000_000 == 0
    ensures FromMillis(ms) == a
  {
    FromMillisOfToMillis(a);
  }

  /** The value of an addition whose timestamp converts. */
  lemma PlusValue(b: Timestamp, ms: Int64)
    requires InInt64(ExactMillis(b))
    ensures TimestampPlusInterval(b, ms) == Ok(FromMillis(Wrap64(ExactMillis(b) + ms)))
  {
  }

  /** The value of a subtraction whose timestamp converts. */
  lemma MinusValue(a: Timestamp, ms: Int64)
    requires InInt64(ExactMillis(a))
    ensures TimestampMinusInterval(a, ms) == Ok(FromMillis(Wrap64(ExactMillis(a) - ms)))
  {
  }

  /** Subtracting and then adding back the same interval restores a
      millisecond-precise timestamp, wrap-around included. */
  lemma {:induction false} MinusThenPlus(a: Timestamp, ms: Int64)
    requires InInt64(ExactMillis(a)) && a.nanos % 1_000_000 == 0
    ensures TimestampPlusInterval(TimestampMinusInterval(a, ms).value, ms) == Ok(a)
  {
    var ma: Int64 := ExactMillis(a);
    var w := Wrap64(ma - ms);
    MinusValue(a, ms);
    assert ExactMillis(FromMillis(w)) == w;
    PlusValue(FromMillis(w), ms);
    WrapCancels(ma, ms);
    MillisPrecise(a, ma);
  }

  /** Adding the difference of two timestamps to the second gives back the
      first, when the first is millisecond-precise; this holds even when the
      difference wraps. */
  lemma {:induction false} PlusMinusDifference(a: Timestamp, b: Timestamp)
    requires InInt64(ExactMillis(a)) && InInt64(ExactMillis(b))
    requires a.nanos % 1_000_000 == 0
    ensures TimestampPlusInterval(b, TimestampMinus(a, b).value) == Ok(a)
  {
    var ma: Int64 := ExactMillis(a);
    var mb: Int64 := ExactMillis(b);
    var d := Wrap64(ma - mb);
    assert TimestampMinus(a, b) == Ok(d);
    Wrap64AddWrapped(mb, ma - mb);
    assert Wrap64(mb + d) == ma;
    MillisPrecise(a, ma);
    PlusValue(b, d);
  }

  /** One millisecond past the largest representable instant wraps to the smallest. */
  lemma WrapExample()
    ensures TimestampPlusInterval(FromMillis(Int64Max), 1) == Ok(FromMillis(Int64Min))
  {
    ToMillisOfFromMillis(Int64Max);
  }

  /** A day and a half cannot be added to a date; two days can. */
  lemma SubDayExample(addDate: Shift.DateAdder)
    ensures DatePlusInterval(0, 129_600_000, addDate) == Err(CannotAddSubDayInterval)
    ensures DatePlusInterval(0, 172_800_000, addDate) == Ok(addDate(0, Day, 2))
    ensures DateMinusInterval(0, 172_800_000, addDate) == Ok(addDate(0, Day, -2))
  {
  }
}
