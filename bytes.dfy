/** Byte strings as Python's `bytes` holds them: finite sequences of values 0..255. */
module Bytes {

  type byte = b: int | 0 <= b < 0x100

  /** True iff every byte is below 0x80, the range of the `ascii` codec. */
  predicate IsAscii(s: seq<byte>)
  {
    forall i :: 0 <= i < |s| ==> s[i] < 0x80
  }

}
