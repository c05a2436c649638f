/** Failure-carrying values returned by the model's operations: the `Option`
    and `anyhow::Result` of the tool, and a `Result<()>` written as `Outcome`. */
module Wrappers {

  datatype Option<+T> = None | Some(value: T)

  datatype Result<+T, +E> = Success(value: T) | Failure(error: E)

  datatype Outcome<+E> = Pass | Fail(error: E)
}
