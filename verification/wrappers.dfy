/** Failure-compatible wrappers for Java's nullable references and thrown exceptions. */
module Wrappers {

  /** A Java reference that may be null. */
  datatype Option<+T> = None | Some(value: T) {

    /** The value, or the given default when the reference is null. */
    function GetOr(default: T): T
    {
      match this
      case Some(v) => v
      case None => default
    }
  }

  /** The outcome of a Java call: a returned value or a thrown exception. */
  datatype Result<+R, +E> = Success(value: R) | Failure(error: E)
}
