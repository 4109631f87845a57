/** Option and Result, the model's stand-ins for Java's null and exceptions. */
module Wrappers {

  /** A value that may be absent (a nullable reference or a `java.util.Optional`). */
  datatype Option<+T> = None | Some(value: T) {

    /** The value, or `default` when absent (`Optional.orElse`). */
    function GetOr(default: T): T {
      match this
      case Some(v) => v
      case None => default
    }
  }

  /** The outcome of an operation that may throw: a value, or the error it raised. */
  datatype Result<+T, +E> = Success(value: T) | Failure(error: E)
}
