/** Failure-carrying wrappers shared by every module of the model. */
module Wrappers {

  /** A value that may be absent: Python's `None` or a missing key. */
  datatype Option<+T> = None | Some(value: T) {

    /** The wrapped value, or `default` when absent. */
    function GetOr(default: T): T {
      match this
      case Some(v) => v
      case None => default
    }
  }

  /** The outcome of an operation whose source raises or aborts on some inputs. */
  datatype Result<+T, +E> = Success(value: T) | Failure(error: E) {

    predicate IsFailure() {
      Failure?
    }
  }
}
