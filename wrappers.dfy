/** Option and Result, the two failure-carrying datatypes the rest of the model uses
    for JavaScript's `undefined`/`null` values and thrown errors. */
module Wrappers {

  datatype Option<+T> = None | Some(value: T)

  datatype Result<+R, +E> = Success(value: R) | Failure(error: E)
}
