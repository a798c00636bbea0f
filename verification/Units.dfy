/**
 The closed set of date/time units, their case-insensitive names, the
 time/date classification, and the validating lookups the SQL functions use
 to turn a unit string into a unit.
 */
module Units {
  import opened Wrappers
  import opened Errors

  datatype DateTimeUnit = Millisecond | Second | Minute | Hour | Day | Week | Month | Quarter | Year

  /** The lower-case keyword of each unit. */
  function UnitName(u: DateTimeUnit): string {
    match u
    case Millisecond => "millisecond"
    case Second => "second"
    case Minute => "minute"
    case Hour => "hour"
    case Day => "day"
    case Week => "week"
    case Month => "month"
    case Quarter => "quarter"
    case Year => "year"
  }

  /** Distinct units have distinct names. */
  lemma UnitNameInjective(u: DateTimeUnit, v: DateTimeUnit)
    ensures UnitName(u) == UnitName(v) <==> u == v
  {
  }

  /** Lower-casing of one character in the "C" locale: only A-Z change. */
  function LowerChar(c: char): (r: char)
    ensures 'A' <= c <= 'Z' ==> 'a' <= r <= 'z' && r as int - c as int == 'a' as int - 'A' as int
    ensures !('A' <= c <= 'Z') ==> r == c
  {
    if 'A' <= c <= 'Z' then (c as int - 'A' as int + 'a' as int) as char else c
  }

  /** `boost::algorithm::to_lower_copy` in the "C" locale. */
  function ToLower(s: string): (r: string)
    ensures |r| == |s|
    ensures forall i :: 0 <= i < |s| ==> r[i] == LowerChar(s[i])
  {
    if s == [] then [] else [LowerChar(s[0])] + ToLower(s[1..])
  }

  /** The character-wise description determines the lower-case form: any
      string that lower-cases `s` position by position is `ToLower(s)`. */
  lemma ToLowerByChars(s: string, l: string)
    requires |s| == |l|
    requires forall i :: 0 <= i < |s| ==> LowerChar(s[i]) == l[i]
    ensures ToLower(s) == l
  {
  }

  /** Lower-casing is idempotent. */
  lemma ToLowerIdempotent(s: string)
    ensures ToLower(ToLower(s)) == ToLower(s)
  {
    assert forall i :: 0 <= i < |s| ==> LowerChar(LowerChar(s[i])) == LowerChar(s[i]);
  }

  /** Unit names are already lower case. */
  lemma UnitNameIsLower(u: DateTimeUnit)
    ensures ToLower(UnitName(u)) == UnitName(u)
  {
    var n := UnitName(u);
    assert forall i :: 0 <= i < |n| ==> 'a' <= n[i] <= 'z';
  }

  /** The unit named by `s`, ignoring case. */
  function ParseUnit(s: string): (r: Option<DateTimeUnit>)
    ensures r.Some? ==> UnitName(r.value) == ToLower(s)
    ensures r.None? ==> forall u :: UnitName(u) != ToLower(s)
  {
    var unit := ToLower(s);
    if unit == "millisecond" then Some(Millisecond)
    else if unit == "second" then Some(Second)
    else if unit == "minute" then Some(Minute)
    else if unit == "hour" then Some(Hour)
    else if unit == "day" then Some(Day)
    else if unit == "week" then Some(Week)
    else if unit == "month" then Some(Month)
    else if unit == "quarter" then Some(Quarter)
    else if unit == "year" then Some(Year)
    else None
  }

  /** Every unit's name, in any case, parses back to the unit. */
  lemma ParseUnitOfName(u: DateTimeUnit, s: string)
    requires ToLower(s) == UnitName(u)
    ensures ParseUnit(s) == Some(u)
  {
    var r := ParseUnit(s);
    if r.Some? {
      UnitNameInjective(r.value, u);
    }
  }

  /** `fromDateTimeUnitString`: an unknown name is an error when
      `throwIfInvalid` is set and an empty result otherwise. */
  function FromUnitString(s: string, throwIfInvalid: bool): (r: Result<Option<DateTimeUnit>, DateTimeError>)
    ensures r.Ok? && r.value.Some? <==> exists u :: UnitName(u) == ToLower(s)
    ensures r.Ok? && r.value.Some? ==> UnitName(r.value.value) == ToLower(s)
    ensures r.Err? <==> throwIfInvalid && forall u :: UnitName(u) != ToLower(s)
    ensures r.Err? ==> r.error == UnsupportedUnit(s)
  {
    var unit := ParseUnit(s);
    if unit.Some? then Ok(unit)
    else if throwIfInvalid then Err(UnsupportedUnit(s))
    else Ok(None)
  }

  /** Lookups are insensitive to case: a string and its lower-case form give
      the same unit, or both give none. */
  lemma FromUnitStringIgnoresCase(s: string)
    ensures FromUnitString(s, false) == FromUnitString(ToLower(s), false)
  {
    ToLowerIdempotent(s);
  }

  predicate IsTimeUnit(u: DateTimeUnit) {
    u == Millisecond || u == Second || u == Minute || u == Hour
  }

  predicate IsDateUnit(u: DateTimeUnit) {
    u == Day || u == Month || u == Quarter || u == Year || u == Week
  }

  /** Every unit is either a time unit or a date unit, never both. */
  lemma TimeDatePartition(u: DateTimeUnit)
    ensures IsTimeUnit(u) <==> !IsDateUnit(u)
  {
  }

  /** `getDateUnit`: like `fromDateTimeUnitString`, and a known time unit is
      rejected as not a DATE field. */
  function GetDateUnit(s: string, throwIfInvalid: bool): (r: Result<Option<DateTimeUnit>, DateTimeError>)
    ensures r.Ok? && r.value.Some? <==> ParseUnit(s).Some? && IsDateUnit(ParseUnit(s).value)
    ensures r.Ok? && r.value.Some? ==> r.value == ParseUnit(s)
    ensures r.Err? <==> throwIfInvalid && !(ParseUnit(s).Some? && IsDateUnit(ParseUnit(s).value))
    ensures r.Err? ==> r.error == (if ParseUnit(s).None? then UnsupportedUnit(s) else NotADateField(s))
  {
    var unit :- FromUnitString(s, throwIfInvalid);
    if unit.Some? && !IsDateUnit(unit.value) then
      if throwIfInvalid then Err(NotADateField(s)) else Ok(None)
    else
      Ok(unit)
  }

  /** `getTimestampUnit`: an unknown name passes through as no unit; only
      `millisecond` is rejected. */
  function GetTimestampUnit(s: string): (r: Result<Option<DateTimeUnit>, DateTimeError>)
    ensures r.Err? <==> ParseUnit(s) == Some(Millisecond)
    ensures r.Err? ==> r.error == NotATimestampField(s)
    ensures r.Ok? ==> r.value == ParseUnit(s)
  {
    var unit := FromUnitString(s, false).value;
    if unit.Some? && unit.value == Millisecond then Err(NotATimestampField(s)) else Ok(unit)
  }

  /** `std::optional::value()` on a unit lookup: an empty result fails with
      `bad_optional_access`. */
  function RequireUnit(r: Result<Option<DateTimeUnit>, DateTimeError>, s: string): (u: Result<DateTimeUnit, DateTimeError>)
    ensures u.Ok? <==> r.Ok? && r.value.Some?
    ensures u.Ok? ==> u.value == r.value.value
    ensures r.Err? ==> u == Err(r.error)
    ensures r == Ok(None) ==> u == Err(MissingUnit(s))
  {
    var unit :- r;
    if unit.Some? then Ok(unit.value) else Err(MissingUnit(s))
  }

  /** A unit resolved once at initialisation with the non-throwing lookup is
      the unit the throwing lookup finds row by row, so caching it does not
      change any result. */
  lemma PrecomputedUnitAgrees(s: string)
    ensures FromUnitString(s, false).Ok?
    ensures FromUnitString(s, false).value.Some? ==> FromUnitString(s, true) == FromUnitString(s, false)
    ensures GetDateUnit(s, false).Ok?
    ensures GetDateUnit(s, false).value.Some? ==> GetDateUnit(s, true) == GetDateUnit(s, false)
  {
  }

  /** A date unit name is accepted for DATE and every time unit name rejected. */
  lemma GetDateUnitOfName(u: DateTimeUnit, throwIfInvalid: bool)
    ensures IsDateUnit(u) ==> GetDateUnit(UnitName(u), throwIfInvalid) == Ok(Some(u))
    ensures IsTimeUnit(u) ==>
      (GetDateUnit(UnitName(u), throwIfInvalid) ==
       if throwIfInvalid then Err(NotADateField(UnitName(u))) else Ok(None))
  {
    UnitNameIsLower(u);
    ParseUnitOfName(u, UnitName(u));
  }

  /** Upper- and mixed-case spellings are recognised. */
  lemma MixedCaseExample()
    ensures FromUnitString("WeEk", true) == Ok(Some(Week))
  {
    ToLowerByChars("WeEk", "week");
  }

  /** A plural is not a unit name. */
  lemma PluralExample()
    ensures FromUnitString("weeks", false) == Ok(None)
    ensures FromUnitString("weeks", true) == Err(UnsupportedUnit("weeks"))
  {
    ToLowerByChars("weeks", "weeks");
  }

  /** `millisecond` is no TIMESTAMP field, whatever its case. */
  lemma MillisecondTimestampExample()
    ensures GetTimestampUnit("MilliSecond") == Err(NotATimestampField("MilliSecond"))
  {
    ToLowerByChars("MilliSecond", "millisecond");
  }
}
