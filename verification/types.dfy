/** Machine-width integer types and the optional value used across the model. */
module Types {

  /** An unsigned char / uint8_t. */
  type byte = b: int | 0 <= b < 0x100

  /** A uint16_t, the width of the ethertype field. */
  type uint16 = n: int | 0 <= n < 0x1_0000

  /** A uint32_t, the width of a network address handed over by the capture library. */
  type uint32 = n: int | 0 <= n < 0x1_0000_0000

  /** A value that may be absent (a null pointer in the C++ code). */
  datatype Option<+T> = None | Some(value: T)

  /** Bitwise AND of two bytes. */
  function And(x: byte, y: byte): byte
  {
    ((x as bv8) & (y as bv8)) as int
  }
}
