/** Bytes built from the numbers 0 to 255, standing for the conversion
    `x as bv8`. The byte is reached by counting up from zero rather than by
    that conversion, because the verifier relates a converted number to its
    byte only slowly and unreliably, while each counting step needs no more
    than one byte addition. */
module Octets {
  /** The byte whose unsigned value is `x`. */
  function FromValue(x: nat): (b: bv8)
    requires x < 0x100
    ensures b as int == x
  {
    if x == 0 then 0 else FromValue(x - 1) + 1
  }
}
