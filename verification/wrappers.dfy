/** Failure-carrying values: an absent Go pointer or error is `None`, a
    function that returns a value or an error returns a `Result`. */
module Wrappers {

  datatype Option<+T> = None | Some(value: T)

  datatype Result<+R, +E> = Success(value: R) | Failure(error: E)
}
