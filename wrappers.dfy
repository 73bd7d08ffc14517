/** Small shared vocabulary: optional values and the 8-bit unsigned byte (`uchar`). */
module Wrappers {

  datatype Option<+T> = None | Some(value: T)

  /** The values of a C++ `unsigned char` (`uchar`). */
  type Byte = x: int | 0 <= x < 256

  /** Conversion of an integer to `unsigned char`: reduction modulo 2^8,
      which is what `static_cast<uchar>` and the char-to-uchar conversion do. */
  function UChar(x: int): (b: Byte)
    ensures 0 <= x < 256 ==> b == x
    ensures (b - x) % 256 == 0
  {
    x % 256
  }
}
