/** Option, Result and Outcome: the model's stand-ins for JavaScript's
    undefined, for a thrown error, and for a hook's `next()` / `next(error)`. */
module Wrappers {

  datatype Option<+T> = None | Some(value: T)

  datatype Result<+R, +E> = Success(value: R) | Failure(error: E)

  /** What a pre-save hook hands to `next`: nothing (the save proceeds) or an error (the save aborts). */
  datatype Outcome<+E> = Pass | Fail(error: E)
}
