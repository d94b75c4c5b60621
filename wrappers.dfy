/** Failure-carrying values: Python's `None` and raised exceptions become data. */
module Wrappers {

  datatype Option<+T> = None | Some(value: T)

  /** `Failure` carries the text the source would put into a raised exception. */
  datatype Result<+R> = Success(value: R) | Failure(error: string)
}
