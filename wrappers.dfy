/** Optional values and success-or-failure results, used for the fields a
    schemaless record may lack and for calls that may raise. */
module Wrappers {

  datatype Option<+T> = None | Some(value: T)

  datatype Result<+R, +E> = Success(value: R) | Failure(error: E)
}
