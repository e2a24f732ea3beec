/** Why encoding, decoding or validating a message fails. */
module WireErrors {

  datatype WireError =
    // Rejection classes of the validator.
    | IllegalMemoryRange
    | UnexpectedStructHeader
    | UnexpectedArrayHeader
    | IllegalHandle
    | UnexpectedNullPointer
    | DifferentSizedArraysInMap
    | UnknownUnionTag
    | DeserializationFailed
    | MaxRecursionDepth
    | MessageHeaderInvalidFlags
    | MessageHeaderMissingRequestId
    // Encode-side errors.
    | UnexpectedNull
    | MessageTooLarge(size: nat, limit: nat)
    | RecursionLimitExceeded(depth: nat)
    | MapKeyCountMismatch(keys: nat, values: nat)
    | InvalidUnionValue
    | TypeMismatch
    | Unsupported(detail: Detail)
    // An index past the end of the buffer, where the source would panic.
    | OutOfBounds

  /** What an `Unsupported` error is about. */
  datatype Detail =
    | VersionOutOfOrder
    | UnversionedAfterVersioned
    | VersionedNonNullableReference
    | PayloadNotStruct
    | StructMismatch
    | ValueMismatch
    | ArrayElementEncode
    | ArrayElementDecode
}
