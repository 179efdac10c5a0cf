/** Optional values and results with an error, for the nullable fields and the
    exceptions of the report resolver. */
module Wrappers {

  datatype Option<+T> = None | Some(value: T)

  datatype Result<+R, +E> = Success(value: R) | Failure(error: E)
}
