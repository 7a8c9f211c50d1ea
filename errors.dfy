/**
 * The error taxonomy of the tool (src/error.rs) and the result type every
 * fallible operation returns.
 */
module Errors {

  /** `ErrorKind`: each kind carries the message shown to the user. */
  datatype ErrorKind = User(message: string) | System(message: string) | LogFile(message: string)

  /**
   * `Result<T, AppError>`, extended with `Abort`: the outcome of code that
   * panics (an `unwrap()` on a failing parse, an index out of bounds, a
   * calendar date that does not exist). A panic ends the process, so it is
   * never caught or converted into an error.
   */
  datatype Result<T> = Ok(value: T) | Err(error: ErrorKind) | Abort
}
