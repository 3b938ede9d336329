/** The octets the serial line carries and the C programs keep in `char` buffers. */
module Bytes {
  /** A C `char` as stored in the buffers. */
  newtype byte = x: int | 0 <= x < 256
}
