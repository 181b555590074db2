/** Failure-carrying results shared by every part of the model. */
module Outcomes {

  datatype Option<+T> = None | Some(value: T)

  /**
   * Everything that can stop an operation of the client. The first group are the
   * `error` values the Go code returns; the second group are Go runtime panics
   * (and the two explicit `panic` calls of the piece download); the last group
   * are what the model reports where the source reads past the end of a socket.
   */
  datatype Error =
    // errors returned as values
    | StringLength        // "Failed to decode string length"
    | IntegerSyntax       // strconv.Atoi rejected the digits between `i` and `e`
    | KeyNotString        // "Key must be a string"
    | Unsupported         // decodeBencode: first byte is not a tag
    | EmptyInput          // decodeBencode: "Invalid bencodedString"
    | UnexpectedType      // bencode: "unexpected type"
    // Go runtime panics and explicit panic calls
    | SliceOutOfRange
    | IndexOutOfRange
    | PieceIndexMismatch  // "something went wrong [expected ... actual ...]"
    | UnequalPieces       // "unequal pieces"
    | NegativeLength      // make with a negative length: "makeslice: len out of range"
    // reading beyond the bytes the peer sent
    | StreamEnded
    | KeepAliveFrame
  {
    /** A panic aborts the whole program; the other errors are ordinary values. */
    predicate IsPanic() {
      SliceOutOfRange? || IndexOutOfRange? || PieceIndexMismatch? || UnequalPieces? || NegativeLength?
    }
  }

  datatype Result<+T> = Ok(value: T) | Fail(error: Error)
}
