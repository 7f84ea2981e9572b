/** Pixel positions and the 16-bit arithmetic of the drawing functions. */
module Raster {
  datatype Point = Point(x: nat, y: nat)

  // A uint16_t result.
  function U16(x: int): nat {
    x % 0x1_0000
  }

  // An int16_t result.
  function I16(x: int): int {
    (x + 0x8000) % 0x1_0000 - 0x8000
  }

  // Both wrap to the one value of their width that is the same modulo 2^16.
  lemma WrapsAround(x: int)
    ensures 0 <= U16(x) < 0x1_0000 && (x - U16(x)) % 0x1_0000 == 0
    ensures -0x8000 <= I16(x) < 0x8000 && (x - I16(x)) % 0x1_0000 == 0
  {}

  lemma I16Fits(x: int)
    ensures -0x8000 <= x < 0x8000 ==> I16(x) == x
  {}
}
