/** Option and Result, shared by the modules of this model. */
module Wrappers {

  /** A value that may be absent (a .NET `null` or a failed `TryParse`). */
  datatype Option<+T> = None | Some(value: T) {

    /** The value, or `default` when absent. */
    function GetOr(default: T): T {
      match this
      case Some(v) => v
      case None => default
    }
  }

  /** The outcome of an operation that throws in the source: a value or the reason it failed. */
  datatype Result<+T, +E> = Success(value: T) | Failure(error: E)
}
