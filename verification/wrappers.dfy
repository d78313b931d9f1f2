/** Failure-carrying result types shared by the modules of this project. */
module Wrappers {

  /** An optional value; `None` stands for "no value was found". */
  datatype Option<+T> = None | Some(value: T)

  /** The outcome of an operation that can fail with an error of type `E`. */
  datatype Result<+T, +E> = Success(value: T) | Failure(error: E)
}
