/** Unsigned 8-bit values and the float-to-`u8` cast used twice by the program:
    once to bucket luminances, once to turn the dithered samples into bytes. */
module Bytes {

  newtype byte = x: int | 0 <= x < 256

  /** A numeric `as u8` cast from a floating-point value. */
  function SaturatingByte(x: real): byte
  {
    if x < 0.0 then 0
    else if x >= 255.0 then 255
    else x.Floor as byte
  }

  /** The cast truncates toward zero inside the byte range and saturates outside it. */
  lemma SaturatingByteTruncates(x: real)
    ensures 0.0 <= x < 256.0 ==> SaturatingByte(x) as real <= x < SaturatingByte(x) as real + 1.0
    ensures x < 0.0 ==> SaturatingByte(x) == 0
    ensures x >= 256.0 ==> SaturatingByte(x) == 255
  {
  }

  /** `(x * factor) as u8`. */
  function CastScaled(x: real, factor: real): byte
  {
    SaturatingByte(x * factor)
  }

  /** Every sample scaled by `factor` and cast to a byte, in order. */
  function ScaleToBytes(s: seq<real>, factor: real): (r: seq<byte>)
    ensures |r| == |s|
    ensures forall k :: 0 <= k < |s| ==> r[k] == CastScaled(s[k], factor)
  {
    seq(|s|, k requires 0 <= k < |s| => CastScaled(s[k], factor))
  }
}
