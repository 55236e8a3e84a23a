/** Machine integer widths and byte strings as the firmware uses them.
    A C++ `std::string` (or Arduino `String`) holding binary data is a
    sequence of bytes; unsigned C types are integer ranges, and their
    wrap-around is written out with `%` where the source relies on it. */
module Bytes {

  type byte = x: int | 0 <= x < 0x100
  type u16 = x: int | 0 <= x < 0x1_0000
  type u32 = x: int | 0 <= x < 0x1_0000_0000

  type Bytes = seq<byte>

  /** 2^32: the modulus of `uint32_t` arithmetic (and of `size_t` on the ESP32). */
  const U32_MODULUS: int := 0x1_0000_0000
  const U32_MAX: u32 := 0xFFFF_FFFF

  /** The field delimiter of the envelope record, the ASCII code of '|'. */
  const PIPE: byte := 124

  datatype Option<T> = None | Some(value: T)

  /** Unsigned 32-bit subtraction `a - b` as C computes it on `uint32_t`. */
  function Sub32(a: u32, b: u32): (r: u32)
    ensures a >= b ==> r == a - b
    ensures a < b ==> r == a - b + U32_MODULUS
  {
    (a - b) % U32_MODULUS
  }

  /** Conversion of a wider integer to `uint32_t`: the value modulo 2^32. */
  function ToU32(x: int): (r: u32)
    ensures (r - x) % U32_MODULUS == 0
  {
    x % U32_MODULUS
  }
}
