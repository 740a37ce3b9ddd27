/** The error taxonomy of the embedding engine (src/error.rs), with the
    message strings dropped, and the result wrappers built on it. */
module Errors {

  /** The three kinds of failure `KernelPca::apply` can report. */
  datatype PcaError = ComputationFailure | InvalidConfig | InvalidData

  /** `Result<T, PcaError>`: a value or the error that stopped the computation. */
  datatype Result<T> = Ok(value: T) | Err(error: PcaError)

  /** `Option<T>`, as returned for the left singular vectors of an SVD. */
  datatype Option<T> = None | Some(value: T)
}
