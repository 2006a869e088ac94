/** `src/errors.rs`: the error kinds the verification methods return. Message texts become constructors. */
module Errors {
  datatype HeaderFault = HeightNotNewer | TimestampNotNewer | TimestampInFuture

  datatype DiffFault = KeysDoNotMatchAddresses | CannotRemove | CannotAdd

  datatype Kind =
    | RlpDecodeError
    | InvalidValidatorSetDiff(diff: DiffFault)
    | MissingSeals(current: nat, expected: nat)
    | BlsVerifyError
    | BlsInvalidSignature
    | BlsInvalidPublicKey
    | HeaderVerificationError(fault: HeaderFault)
}
