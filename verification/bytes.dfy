/** Byte-level vocabulary shared by every layer of the WHR930 serial protocol. */
module Bytes {

  /** An unsigned 8-bit value: the unit the serial transport moves and the
      width of every field of a frame. */
  type byte = x: int | 0 <= x < 256

  /** The stop byte: first byte of the start, end and acknowledgement markers,
      and the value the checksum counts at most once. */
  const StopByte: byte := 0x07
}
