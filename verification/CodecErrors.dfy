/** Failures of the codec (mls-rs-codec/src/lib.rs) and the outcome of a read. */
module CodecErrors {
  import opened Bytes

  datatype CodecError =
    | VarIntOutOfRange
    | InvalidVarIntPrefix(prefix: nat)
    | VarIntMinimumLengthEncoding
    | UnexpectedEOF
    | OptionOutOfRange(marker: nat)
    | UnsupportedEnumDiscriminant
    | Custom(code: nat)
    /** Reported only by the strict reference decoder, never by the code. */
    | NotCanonical

  /** The value or error a decoder returns, and where it leaves the reader in either case. */
  datatype Parsed<+T> = Parsed(result: Result<T, CodecError>, rest: ByteSeq)
}
