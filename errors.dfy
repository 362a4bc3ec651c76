/** Failure values for the exceptions the training driver can raise. */
module Errors {

  /** The exceptions the driver's own code can raise. */
  datatype Error =
    | NotInDictionary   // the sampler ran past the end of the distribution
    | IndexOutOfRange   // a window was read past the end of the corpus

  datatype Option<+T> = None | Some(value: T)

  datatype Result<+T> = Ok(value: T) | Fail(error: Error)
}
