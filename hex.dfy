/**
 * Lower-case hexadecimal text of a byte string, as `binascii.hexlify(b).decode('ascii')`
 * produces it, and its inverse `binascii.unhexlify`, which reads either case.
 */
module Hex {
  import opened Wrappers
  import opened Bytes

  /** The lower-case digit for a nibble: '0'..'9' then 'a'..'f'. */
  function LowerDigit(v: int): (c: char)
    requires 0 <= v < 16
    ensures IsLowerHexDigit(c)
  {
    if v < 10 then ('0' as int + v) as char else ('a' as int + v - 10) as char
  }

  predicate IsLowerHexDigit(c: char)
  {
    '0' <= c <= '9' || 'a' <= c <= 'f'
  }

  /** The value of one hexadecimal digit of either case. */
  function DigitValue(c: char): (v: Option<int>)
    ensures v.Some? <==> IsLowerHexDigit(c) || 'A' <= c <= 'F'
    ensures v.Some? ==> 0 <= v.value < 16
  {
    if '0' <= c <= '9' then Some(c as int - '0' as int)
    else if 'a' <= c <= 'f' then Some(c as int - 'a' as int + 10)
    else if 'A' <= c <= 'F' then Some(c as int - 'A' as int + 10)
    else None
  }

  /** Two lower-case digits per byte, high nibble first. */
  function Hexlify(s: seq<byte>): (h: string)
    ensures |h| == 2 * |s|
    ensures forall i :: 0 <= i < |h| ==> IsLowerHexDigit(h[i])
  {
    if s == [] then []
    else [LowerDigit(s[0] / 16), LowerDigit(s[0] % 16)] + Hexlify(s[1..])
  }

  /** The bytes a hexadecimal string spells, or None for odd length or a non-digit. */
  function Unhexlify(h: string): Option<seq<byte>>
  {
    if h == [] then Some([])
    else if |h| == 1 then None
    else
      var hi, lo, rest := DigitValue(h[0]), DigitValue(h[1]), Unhexlify(h[2..]);
      if hi.Some? && lo.Some? && rest.Some?
      then Some([hi.value * 16 + lo.value] + rest.value)
      else None
  }

  /** Hex text reads back as the bytes it was made from. */
  lemma {:induction false} UnhexlifyHexlify(s: seq<byte>)
    ensures Unhexlify(Hexlify(s)) == Some(s)
  {
    if s != [] {
      var h := Hexlify(s);
      assert h == [LowerDigit(s[0] / 16), LowerDigit(s[0] % 16)] + Hexlify(s[1..]);
      assert h[2..] == Hexlify(s[1..]);
      UnhexlifyHexlify(s[1..]);
      assert (s[0] / 16) * 16 + s[0] % 16 == s[0];
      assert [s[0]] + s[1..] == s;
    }
  }

  /** Lower-case hex text is the hexlified form of what it spells: the two are inverse. */
  lemma {:induction false} HexlifyUnhexlify(h: string)
    requires forall i :: 0 <= i < |h| ==> IsLowerHexDigit(h[i])
    requires Unhexlify(h).Some?
    ensures Hexlify(Unhexlify(h).value) == h
  {
    if h != [] {
      var hi := DigitValue(h[0]).value;
      var lo := DigitValue(h[1]).value;
      HexlifyUnhexlify(h[2..]);
      var b := hi * 16 + lo;
      assert b / 16 == hi && b % 16 == lo;
      assert LowerDigit(hi) == h[0] && LowerDigit(lo) == h[1];
      assert h == [h[0], h[1]] + h[2..];
    }
  }

}
