/** Option and Result, the two failure-compatible wrappers the rest of the model uses
    for JavaScript's `null`/`undefined` and for thrown HTTP exceptions. */
module Wrappers {

  datatype Option<+T> = None | Some(value: T) {
    function GetOr(default: T): T {
      match this
      case Some(v) => v
      case None => default
    }
  }

  datatype Result<+R, +E> = Success(value: R) | Failure(error: E)
}
