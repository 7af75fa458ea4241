/**
 * Values shared by the binary helpers: bytes of a "binary string" or byte
 * array, and the 16-bit code units of a JavaScript string.
 */
module Bytes {

  /** One 8-bit value: a character of a binary string, or an entry of a byte array. */
  type Byte = x: int | 0 <= x < 0x100

  /** One UTF-16 code unit, as `charCodeAt` returns it. */
  type CodeUnit = x: int | 0 <= x < 0x1_0000

  /**
   * A binary string seen as the code units `charCodeAt` reads from it: each
   * byte is a character whose code is the byte itself.
   */
  function ToCodeUnits(bytes: seq<Byte>): (r: seq<bv16>)
    ensures |r| == |bytes|
  {
    seq(|bytes|, i requires 0 <= i < |bytes| => bytes[i] as bv16)
  }

  lemma ToCodeUnitsAppend(a: seq<Byte>, b: seq<Byte>)
    ensures ToCodeUnits(a + b) == ToCodeUnits(a) + ToCodeUnits(b)
  {
  }
}
