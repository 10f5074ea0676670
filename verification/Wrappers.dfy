/** The failure-compatible result types every operation of the model returns, and
    the error type of the library (src/error.rs). */
module Wrappers {
  import opened Bytes

  datatype Option<+T> = None | Some(value: T)

  /** What went wrong, one constructor per variant of the library's error type.
      Codec, normalizer and legacy failures carry no category here: no branch of
      the modelled code reads it. */
  datatype Error =
    | NotCiphertext
    | InvalidEnvelope
    | UnsupportedFormatVersion(version: Byte)
    | UnsupportedSuite(suite: Byte)
    | UnsupportedFlags(flags: Byte)
    | UnknownEncryptionKey(keyId: Id)
    | UnknownBlindIndexKey(indexKeyId: Id)
    | AuthenticationFailed
    | ContextMismatch
    | CodecFailed
    | BlindIndexNormalizationFailed
    | BlindIndexKeysNotConfigured
    | UnexpectedRecord
    | DuplicateEncryptionKey(keyId: Id)
    | DuplicateBlindIndexKey(indexKeyId: Id)
    | RandomnessUnavailable
    | InvalidKeyEncoding
    | Internal
    | MessageTooLong
    | PaddingOverflow
    | InvalidPadding
    | InvalidBlindIndex
    | UnsupportedBlindIndexVersion(version: Byte)
    | IndexColumnMismatch(expected: nat, actual: nat)
    | LegacyRecoveryFailed

  datatype Result<+T> = Ok(value: T) | Err(error: Error) {
    predicate IsFailure() {
      Err?
    }

    function PropagateFailure<U>(): Result<U>
      requires Err?
    {
      Err(error)
    }

    function Extract(): T
      requires Ok?
    {
      value
    }
  }
}
