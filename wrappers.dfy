/** Option and Result values for the exporter's absent values and thrown errors. */
module Wrappers {

  datatype Option<+T> = None | Some(value: T) {
    /** The value, or `default` when there is none (JavaScript's `x || default`). */
    function GetOr(default: T): T {
      match this
      case Some(v) => v
      case None => default
    }
  }

  /** The outcome of an operation that may throw: the value it returns or the error it throws. */
  datatype Result<+R, +E> = Success(value: R) | Failure(error: E)
}
