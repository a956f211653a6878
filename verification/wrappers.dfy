/** Failure-carrying results used wherever the modelled C code has an error
    path or behaviour the model refuses to guess (a short file, an
    out-of-bounds write, a call made out of protocol). */
module Wrappers {

  datatype Option<+T> = None | Some(value: T)

  datatype Result<+T, +E> = Success(value: T) | Failure(error: E)
}
