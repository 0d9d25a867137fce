/** Wrappers for the model: an optional value and a value-or-error result, standing for JavaScript's `undefined` and for a thrown
    `Error` whose message is the error value. */
module Wrappers {

  datatype Option<+T> = None | Some(value: T)

  datatype Result<+R, +E> = Success(value: R) | Failure(error: E)
}
