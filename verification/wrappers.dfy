/** Failure-carrying datatypes used by the model: Option for a value that
    may be absent (Python's None), Result for an operation that raises. */
module Wrappers {

  datatype Option<+T> = None | Some(value: T) {

    /** The value, or `default` when absent (Python's `dict.get(k, default)`). */
    function GetOr(default: T): T {
      match this
      case Some(v) => v
      case None => default
    }
  }

  /** Success carries the value; Failure carries the exception the source raises. */
  datatype Result<+T, +E> = Success(value: T) | Failure(error: E)
}
