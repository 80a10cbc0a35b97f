/** The value-or-error shapes the catalogue model returns in place of PHP's
    nullable types and exceptions. */
module Wrappers {

  /** A nullable PHP value such as `?Category` or `?float`. */
  datatype Option<+T> = None | Some(value: T) {

    /** PHP's `$x ?? $default`. */
    function GetOr(default: T): T {
      if Some? then value else default
    }
  }

  /** A call that returns `value` or throws `error`; `:-` stops at the first
      throw, as an uncaught PHP exception would. */
  datatype Result<+T, +E> = Success(value: T) | Failure(error: E) {

    predicate IsFailure() {
      Failure?
    }

    function PropagateFailure<U>(): Result<U, E>
      requires Failure?
    {
      Failure(error)
    }

    function Extract(): T
      requires Success?
    {
      value
    }
  }

  /** A PHP `validate` method: it returns nothing, or it throws `error`. */
  datatype Outcome<+E> = Pass | Fail(error: E)
}
