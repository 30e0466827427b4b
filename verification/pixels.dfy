/** Pixels as the bitmap codec stores them: four 8-bit channels. */
module Pixels {

  /** An unsigned 8-bit channel value (the codec's `ebmpBYTE`). */
  newtype byte = x: int | 0 <= x < 256

  /** One RGBA pixel; every program here reads and writes it channel by channel. */
  datatype Pixel = Pixel(red: byte, green: byte, blue: byte, alpha: byte)

  /** Storing an integer through `(char)v` into an unsigned 8-bit field keeps
      the value modulo 256; the value is kept as it is when it already fits. */
  function ToByte(v: int): (b: byte)
    ensures 0 <= v < 256 ==> b as int == v
    ensures (v - b as int) % 256 == 0
  {
    (v % 256) as byte
  }
}
