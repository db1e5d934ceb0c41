/** Option and Result, the two wrappers the importer model needs. */
module Wrappers {

  datatype Option<+T> = None | Some(value: T) {
    /** The wrapped value, or `default` when there is none. */
    function GetOr(default: T): T {
      match this
      case Some(v) => v
      case None => default
    }
  }

  /** A value, or the error that the C++ code reports by throwing. */
  datatype Result<+R, +E> = Success(value: R) | Failure(error: E)
}
