/** Error results shared by the model: the exceptions the source throws
    (and the conditions it ends the process on) become values. */
module Errors {

  /** The exception classes the modelled code raises. */
  datatype Error =
    | InvalidParameterError
    | OutOfRangeError
    | LogicError
    | RuntimeError
    /** A consistency failure the source reports by ending the process. */
    | IndexCorruption

  datatype Result<+T> = Ok(value: T) | Err(error: Error)

  datatype Outcome = Pass | Fail(error: Error)
}
