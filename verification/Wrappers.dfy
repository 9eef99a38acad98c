/** Optional values and results shared by the model. */
module Wrappers {

  /** A value that may be absent; models a Java reference that may be `null`. */
  datatype Option<+T> = None | Some(value: T)

  /** Either a value or an error; models a Java method that returns or throws. */
  datatype Result<+T, +E> = Success(value: T) | Failure(error: E)
}
