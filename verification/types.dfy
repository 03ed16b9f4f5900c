/** Machine-level value types shared by the data-file model. */
module Types {

  /** An unsigned 8-bit value, one byte of a segment file. */
  type byte = b: int | 0 <= b < 0x100

  /** Go's `uint32`, used for file ids, CRC values and the key/value sizes of a header. */
  type uint32 = n: int | 0 <= n < 0x1_0000_0000

  datatype Option<+T> = None | Some(value: T)

  /** The failures an IO manager can report. */
  datatype IoError =
    | ShortRead                      // fewer bytes than requested were available
    | NegativeOffset                 // a read at an offset below zero
    | NoSpace                        // a write stopped because the disk is full
    | DeviceFailure(reason: string)  // any other error of the operating system

  /** A value or the IO error that prevented it, as Go's `(T, error)` pairs. */
  datatype Result<+T> = Ok(value: T) | Err(error: IoError)
}
