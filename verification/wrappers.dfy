/** Failure-carrying values used where the Python code raises or leaves a
    variable unbound. */
module Wrappers {

  datatype Option<+T> = None | Some(value: T)

  datatype Result<+R, +E> = Success(value: R) | Failure(error: E)
}
