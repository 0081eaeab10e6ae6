/** Bytes, failure kinds and the outcome of one protocol step, shared by every module. */
module Wire {

  /** One octet on the wire. */
  newtype byte = x: int | 0 <= x < 256

  datatype Option<T> = None | Some(value: T)

  /** Why a decode or a handshake step gave up. */
  datatype Failure =
    | Truncated                              // io.ReadFull hit the end of the stream
    | UnknownAddressType(tag: byte)          // "unknown address type %x"
    | NoAcceptableMethod                     // "no authentication required"
    | UnsupportedCommand(header: seq<byte>)  // "unsupported CMD %x", with the 3 header bytes

  datatype Result<T> = Ok(value: T) | Err(failure: Failure)

  /**
   * What running one reader against the bytes still pending on a connection
   * does: its result, the bytes it leaves unread, and what it wrote back to
   * the peer.
   */
  datatype Step<T> = Step(result: Result<T>, rest: seq<byte>, written: seq<byte>)
}
