/** Failure-carrying result types used by the encode/decode pipeline. */
module Results {

  datatype Option<+T> = None | Some(value: T)

  datatype Result<+T, +E> = Success(value: T) | Failure(error: E)

  /** The ways an encode or decode operation of the tool can fail. */
  datatype Error =
    | CapacityError   // the framed bitstream does not fit in 3 x |pixels| channels
    | EmptyLength     // the length prefix read from the carrier is the empty string
    | InvalidToken    // the authenticated cipher rejected the token
}
