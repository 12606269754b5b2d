/** Failure-carrying result types shared by every module of the model. */
module Wrappers {

  /** An optional value: `None` stands for a missing key or an absent result. */
  datatype Option<+T> = None | Some(value: T)

  /** The outcome of an assertion helper: it either returns normally or throws `error`. */
  datatype Outcome<+E> = Pass | Fail(error: E)

  /** A call that either returns `value` or throws `error` to its caller. */
  datatype Result<+T, +E> = Ok(value: T) | Err(error: E)
}
