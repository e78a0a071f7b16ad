/** Bytes, and arithmetic modulo 256. */
module Bytes {
  newtype byte = x: int | 0 <= x < 256

  /** The low 8 bits of an integer: a cast to an unsigned char. */
  function Low8(x: int): byte {
    (x % 256) as byte
  }
}
