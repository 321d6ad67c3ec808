/** Failure-carrying wrappers shared by the parsers and the harvester. */
module Wrappers {

  /** An optional value: `None` stands for Python's `None` or "no match". */
  datatype Option<+T> = None | Some(value: T) {

    /** The wrapped value, or `default` when there is none. */
    function GetOr(default: T): T {
      match this
      case Some(v) => v
      case None => default
    }
  }

  /** A computation that either succeeds with a value or fails with an error. */
  datatype Result<+R, +E> = Success(value: R) | Failure(error: E)
}
