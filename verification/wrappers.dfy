/** Optional values and error-carrying results shared by every module of the model. */
module Wrappers {

  /** A value that may be absent: Python's `None` versus a present object. */
  datatype Option<+T> = None | Some(value: T)

  /** Either a computed value or the exception the pipeline raises instead. */
  datatype Result<+R, +E> = Success(value: R) | Failure(error: E)
}
