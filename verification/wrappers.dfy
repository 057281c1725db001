/** Optional values and results with an error, as used throughout the model. */
module Wrappers {

  /** A value that may be absent: Java's `Optional` and nullable references. */
  datatype Option<+T> = None | Some(value: T) {

    /** The carried value, or `default` when absent (`Optional.orElse`). */
    function GetOr(default: T): T {
      match this
      case Some(v) => v
      case None => default
    }
  }

  /** Either a value or the error that prevented computing it. */
  datatype Result<+T, +E> = Success(value: T) | Failure(error: E)
}
