/**
 * Outcomes of the codec's operations: the exceptions the source throws become
 * error values, so that every error path is part of the model.
 */
module Results {
  import opened ByteOrder

  datatype Option<T> = None | Some(value: T)

  /** The failures the encoder and decoder can raise. */
  datatype CodecError =
    | InputExhausted        // a row read found the payload stream at its end
    | BadMagic              // the tEXt chunk does not carry the "N3RD" identifier
    | NegativeChunkLength   // a chunk length field with the top bit set
    | CorruptCompressedData // the inflater rejected the concatenated IDAT data
    | ArrayTooLarge         // a byte array or buffer past 2^31 - 1 bytes
    | RowOutOfBounds        // a deframed row reaches past the inflated data
    | NotImplemented        // the single-byte write of the IDAT splitter

  datatype Result<T> = Success(value: T) | Failure(error: CodecError)

  /**
   * What an operation that streams to an output leaves behind: the bytes it
   * wrote, which stay written when it throws, and the error it ended with.
   */
  datatype Outcome = Outcome(written: Bytes, error: Option<CodecError>)
}
