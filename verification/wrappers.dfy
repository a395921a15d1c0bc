/** Failure-compatible helper datatypes shared by every other module. */
module Wrappers {

  /** An optional value: Python's `None` versus a present value. */
  datatype Option<+T> = None | Some(value: T) {

    /** The encapsulated value, or `default` when absent (Python's `dict.get(k, default)`). */
    function GetOr(default: T): T {
      match this
      case Some(v) => v
      case None => default
    }
  }

  /** Either a computed value or the error that the source reports (or raises) instead. */
  datatype Result<+T, +E> = Success(value: T) | Failure(error: E)
}
