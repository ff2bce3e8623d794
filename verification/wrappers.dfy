/** Option and Result types used for the scripts' missing values and raised exceptions. */
module Wrappers {

  datatype Option<+T> = None | Some(value: T) {
    function GetOr(default: T): T {
      match this
      case Some(v) => v
      case None => default
    }
  }

  /** `Failure` stands for an exception the Python code raises and does not catch. */
  datatype Result<+R, +E> = Success(value: R) | Failure(error: E)
}
