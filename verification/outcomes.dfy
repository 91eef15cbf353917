/** Failure-carrying results used across the model.
    The source signals failures by raising Python exceptions; each exception
    that an operation can raise becomes an `Error` value here. */
module Outcomes {

  /** The two exceptions the modelled code can raise. */
  datatype Error = ValueError | KeyError

  datatype Option<+T> = None | Some(value: T)

  /** The value an operation returns, or the exception it raises. */
  datatype Result<+T> = Success(value: T) | Failure(error: Error)

  /** The outcome of an operation that returns nothing when it succeeds. */
  datatype Outcome = Pass | Fail(error: Error)
}
