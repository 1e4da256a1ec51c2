/**
 * The values the protocol's handlers exchange with the user store and the
 * clock: record identifiers, timestamps, floating-point coordinates and the
 * user row.
 */
module Records {
  import opened Wrappers
  import opened Bytes

  /** A database record identifier, by its text. */
  type RecordId = string

  /** An instant, as the clock reports it. */
  type Timestamp = int

  /** An `f64`, by its 64-bit IEEE 754 bit pattern. */
  type F64 = n: int | 0 <= n < 0x1_0000_0000_0000_0000

  /** A row of the users table. */
  datatype UserData = UserData(id: Option<RecordId>, name: string, username: string, password: string, clientId: U32)
}
