/** Error values and the usual Option/Result wrappers shared by every module. */
module Errors {

  datatype Option<+T> = None | Some(value: T)

  datatype Result<+T> = Success(value: T) | Failure(error: Error)

  /** Every error value the codec layer can return.  The first five are the
      package-level sentinels of the codec and header packages; the next three
      come from encoding/binary and io; the rest stand for errors produced by
      collaborators this model does not look inside. */
  datatype Error =
    | UnmarshalError                // header.UnmarshalError
    | NotFoundCompressorError       // tag absent from compressor.Compressors
    | CompressorTypeMismatchError   // response tag differs from the client's tag
    | UnexpectedChecksumError       // CRC-32 of the body differs from the header
    | InvalidSequenceError          // WriteResponse for an unknown sequence number
    | EOF                           // io.EOF
    | UnexpectedEOF                 // io.ErrUnexpectedEOF
    | VarintOverflow                // binary.ReadUvarint's overflow error
    | NetError(code: nat)           // a value implementing net.Error: retried by the I/O loops
    | IOError(code: nat)            // any other transport error: terminal
    | SerializerError(code: nat)    // returned by Serializer.Marshal / UnMarshal
    | CompressorError(code: nat)    // returned by Compressor.Compress / Decompress
    | NilCompressorPanic            // Go runtime panic: Decompress called on a nil Compressor

  /** The `err.(net.Error)` type assertion of the I/O loops. */
  predicate IsNetError(e: Error) {
    e.NetError?
  }
}
