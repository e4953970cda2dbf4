/** Option and Result, the two failure-carrying shapes the extension uses:
    `T | undefined` becomes Option, a thrown or returned error becomes Result. */
module Wrappers {

  datatype Option<+T> = None | Some(value: T) {
    function GetOr(default: T): T {
      match this
      case Some(v) => v
      case None => default
    }
  }

  datatype Result<+R, +E> = Success(value: R) | Failure(error: E)
}
