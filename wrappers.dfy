/** Option and Result values used in place of `undefined`, thrown errors,
    Rust's `Option` and Rust's `Result`. */
module Wrappers {

  datatype Option<+T> = None | Some(value: T) {
    function GetOr(default: T): T {
      if Some? then value else default
    }
  }

  datatype Result<+T, +E> = Success(value: T) | Failure(error: E)

  /** The outcome of an operation that only succeeds or fails. */
  datatype Outcome<+E> = Pass | Fail(error: E)
}
