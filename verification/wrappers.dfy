/** Failure-carrying values shared by the game rules and the console front end. */
module Wrappers {

  /** Python's `None` next to a present value. */
  datatype Option<+T> = None | Some(value: T)

  /** The value of a computation, or the exception it raised. */
  datatype Result<+T> = Ok(value: T) | Error(message: string)
}
