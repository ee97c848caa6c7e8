/** Failure-compatible result types shared by the model. */
module Wrappers {

  /** `Option<T>`: `None` for an absent value. */
  datatype Option<+T> = None | Some(value: T)

  /** `Result<T, E>`: the value of a successful call, or the error it reports. */
  datatype Result<+T, +E> = Success(value: T) | Failure(error: E)
}
