/** Shared failure modes of the crate's public operations. */
module Errors {
  datatype Error =
    | Unsupported
    | ControllerUnavailable
    | InvalidController
    | InvalidAddressSpace
    | InvalidClient
    | InvalidBinding
    | InvalidAddress
    | InvalidRange
    | InvalidGranule
    | InvalidWidth
    | AlreadyMapped
    | NotMapped
    | FeatureUnavailable
    | AddressOverflow
    | PageTable

  datatype Result<+T> = Ok(value: T) | Err(error: Error)
}
