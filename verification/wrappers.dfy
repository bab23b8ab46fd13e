/** Failure-carrying wrappers used throughout the model: `Option` for the
    source's `None` / missing-key results and `Result` for operations that
    raise an exception or return an error payload. */
module Wrappers {

  /** A value that may be absent (Python `None`, a missing dictionary key). */
  datatype Option<+T> = None | Some(value: T) {

    /** The carried value, or `default` when absent (Python `d.get(k, default)`). */
    function GetOr(default: T): T {
      match this
      case Some(v) => v
      case None => default
    }
  }

  /** The outcome of an operation that can raise: either its value or the
      error it raised. */
  datatype Result<+R, +E> = Success(value: R) | Failure(error: E) {

    predicate IsFailure() {
      Failure?
    }

    function PropagateFailure<U>(): Result<U, E>
      requires Failure?
    {
      Failure(error)
    }

    function Extract(): R
      requires Success?
    {
      value
    }
  }
}
