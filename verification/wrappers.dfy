/** The Option and Result datatypes the model uses for absent JSON fields and
    for Python exceptions that abort a computation. */
module Wrappers {

  datatype Option<+T> = None | Some(value: T)

  datatype Result<+R, +E> = Success(value: R) | Failure(error: E)
}
