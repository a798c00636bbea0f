/** The errors the date/time functions raise, one constructor per distinct
    message, each carrying what the message names. */
module Errors {

  datatype DateTimeError =
      /** "Unsupported datetime unit: {}" (an unsupported-feature error) */
    | UnsupportedUnit(unitString: string)
      /** "{} is not a valid DATE field" */
    | NotADateField(unitString: string)
      /** "{} is not a valid TIMESTAMP field" */
    | NotATimestampField(unitString: string)
      /** `.value()` of an empty `std::optional` (bad_optional_access) */
    | MissingUnit(unitString: string)
      /** "integer overflow" (an unsupported-feature error) */
    | IntegerOverflow
      /** "Cannot add hours, minutes, seconds or milliseconds to a date" */
    | CannotAddSubDayInterval
      /** "Cannot subtract hours, minutes, seconds or milliseconds from a date" */
    | CannotSubtractSubDayInterval
      /** "Could not convert Timestamp({}, {}) to milliseconds" */
    | MillisOverflow(seconds: int, nanos: int)
}
