/** Failure-compatible wrappers: `Option` for the `std::optional` results of the
    unit parsers and `Result` for calls that can raise a user-facing error. */
module Wrappers {

  datatype Option<+T> = None | Some(value: T) {
    /** `std::optional::value_or` */
    function ValueOr(default: T): T {
      if Some? then value else default
    }
  }

  datatype Result<+T, +E> = Ok(value: T) | Err(error: E) {
    predicate IsFailure() {
      Err?
    }

    function PropagateFailure<U>(): Result<U, E>
      requires Err?
    {
      Err(error)
    }

    function Extract(): T
      requires Ok?
    {
      value
    }
  }
}
