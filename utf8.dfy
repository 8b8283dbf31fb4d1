/**
 * Strict UTF-8 as defined by the byte syntax of section 4 of RFC 3629, which is
 * exactly what Python's `bytes.decode('utf-8')` accepts: shortest forms only, no
 * encoded surrogates, nothing above U+10FFFF. Dafny's `char` is a Unicode scalar
 * value, so a decoded `string` is a sequence of code points.
 */
module Utf8 {
  import opened Wrappers
  import opened Bytes

  /** UTF8-tail = %x80-BF */
  predicate IsTail(b: byte)
  {
    0x80 <= b <= 0xBF
  }

  /**
   * The character encoded at the front of `s` and the number of bytes it takes,
   * or None when `s` does not start with one of UTF8-1 .. UTF8-4.
   */
  function DecodeFirst(s: seq<byte>): (r: Option<(char, nat)>)
    ensures r.Some? ==> 1 <= r.value.1 <= |s| && r.value.1 <= 4
  {
    if |s| == 0 then None
    else if s[0] <= 0x7F then
      Some((s[0] as char, 1))
    else if 0xC2 <= s[0] <= 0xDF then
      if 2 <= |s| && IsTail(s[1])
      then Some((((s[0] as int - 0xC0) * 64 + (s[1] as int - 0x80)) as char, 2))
      else None
    else if 0xE0 <= s[0] <= 0xEF then
      var lo := if s[0] == 0xE0 then 0xA0 else 0x80;
      var hi := if s[0] == 0xED then 0x9F else 0xBF;
      if 3 <= |s| && lo <= s[1] <= hi && IsTail(s[2])
      then Some((((s[0] as int - 0xE0) * 4096 + (s[1] as int - 0x80) * 64 + (s[2] as int - 0x80)) as char, 3))
      else None
    else if 0xF0 <= s[0] <= 0xF4 then
      var lo := if s[0] == 0xF0 then 0x90 else 0x80;
      var hi := if s[0] == 0xF4 then 0x8F else 0xBF;
      if 4 <= |s| && lo <= s[1] <= hi && IsTail(s[2]) && IsTail(s[3])
      then Some((((s[0] as int - 0xF0) * 262144 + (s[1] as int - 0x80) * 4096 + (s[2] as int - 0x80) * 64 + (s[3] as int - 0x80)) as char, 4))
      else None
    else
      None
  }

  /** Strict decoding: the whole of `s` must be a sequence of UTF-8 characters. */
  function Decode(s: seq<byte>): (r: Option<string>)
    ensures r.Some? ==> |r.value| <= |s| <= 4 * |r.value|
    decreases |s|
  {
    if s == [] then Some([])
    else
      match DecodeFirst(s)
      case None => None
      case Some((c, k)) =>
        match Decode(s[k..])
        case None => None
        case Some(t) => Some([c] + t)
  }

  /** The shortest UTF-8 form of one character. */
  function EncodeChar(c: char): (r: seq<byte>)
    ensures 1 <= |r| <= 4
  {
    var n := c as int;
    if n < 0x80 then [n]
    else if n < 0x800 then [0xC0 + n / 64, 0x80 + n % 64]
    else if n < 0x10000 then [0xE0 + n / 64 / 64, 0x80 + n / 64 % 64, 0x80 + n % 64]
    else [0xF0 + n / 64 / 64 / 64, 0x80 + n / 64 / 64 % 64, 0x80 + n / 64 % 64, 0x80 + n % 64]
  }

  function Encode(t: string): seq<byte>
  {
    if t == [] then [] else EncodeChar(t[0]) + Encode(t[1..])
  }

  /** Encoding one character and decoding the front gives the character back. */
  lemma EncodeCharDecodes(c: char, rest: seq<byte>)
    ensures DecodeFirst(EncodeChar(c) + rest) == Some((c, |EncodeChar(c)|))
  {
    var n := c as int;
    if n < 0x80 {
    } else if n < 0x800 {
      TwoByteEncoding(n);
    } else if n < 0x10000 {
      ThreeByteEncoding(n);
    } else {
      FourByteEncoding(n);
    }
  }

  /** The bytes EncodeChar gives U+0080..U+07FF are a two-byte form whose value is the code point. */
  lemma TwoByteEncoding(n: int)
    requires 0x80 <= n < 0x800
    ensures var b0, b1 := 0xC0 + n / 64, 0x80 + n % 64;
      0xC2 <= b0 <= 0xDF && 0x80 <= b1 <= 0xBF && (b0 - 0xC0) * 64 + (b1 - 0x80) == n
  {
  }

  /** The bytes EncodeChar gives U+0800..U+FFFF are a three-byte form whose value is the code point. */
  lemma ThreeByteEncoding(n: int)
    requires 0x800 <= n < 0x10000 && !(0xD800 <= n < 0xE000)
    ensures var b0, b1, b2 := 0xE0 + n / 64 / 64, 0x80 + n / 64 % 64, 0x80 + n % 64;
      && 0xE0 <= b0 <= 0xEF && 0x80 <= b1 <= 0xBF && 0x80 <= b2 <= 0xBF
      && (b0 == 0xE0 ==> 0xA0 <= b1) && (b0 == 0xED ==> b1 <= 0x9F)
      && (b0 - 0xE0) * 4096 + (b1 - 0x80) * 64 + (b2 - 0x80) == n
  {
    var m := n / 64;
    assert n == m * 64 + n % 64;
    assert m == (m / 64) * 64 + m % 64;
  }

  /** The bytes EncodeChar gives U+10000..U+10FFFF are a four-byte form whose value is the code point. */
  lemma FourByteEncoding(n: int)
    requires 0x10000 <= n < 0x110000
    ensures var b0, b1, b2, b3 := 0xF0 + n / 64 / 64 / 64, 0x80 + n / 64 / 64 % 64, 0x80 + n / 64 % 64, 0x80 + n % 64;
      && 0xF0 <= b0 <= 0xF4 && 0x80 <= b1 <= 0xBF && 0x80 <= b2 <= 0xBF && 0x80 <= b3 <= 0xBF
      && (b0 == 0xF0 ==> 0x90 <= b1) && (b0 == 0xF4 ==> b1 <= 0x8F)
      && (b0 - 0xF0) * 262144 + (b1 - 0x80) * 4096 + (b2 - 0x80) * 64 + (b3 - 0x80) == n
  {
    var m := n / 64;
    var m2 := m / 64;
    assert n == m * 64 + n % 64;
    assert m == m2 * 64 + m % 64;
    assert m2 == (m2 / 64) * 64 + m2 % 64;
  }

  /** The two-byte forms re-encode to themselves. */
  lemma TwoByteForm(b0: int, b1: int)
    requires 0xC2 <= b0 <= 0xDF && 0x80 <= b1 <= 0xBF
    ensures EncodeChar(((b0 - 0xC0) * 64 + (b1 - 0x80)) as char) == [b0, b1]
  {
    var n := (b0 - 0xC0) * 64 + (b1 - 0x80);
    assert n / 64 == b0 - 0xC0 && n % 64 == b1 - 0x80;
  }

  /** The three-byte forms, shortest and surrogate-free, re-encode to themselves. */
  lemma ThreeByteForm(b0: int, b1: int, b2: int)
    requires 0xE0 <= b0 <= 0xEF && 0x80 <= b1 <= 0xBF && 0x80 <= b2 <= 0xBF
    requires b0 == 0xE0 ==> 0xA0 <= b1
    requires b0 == 0xED ==> b1 <= 0x9F
    ensures EncodeChar(((b0 - 0xE0) * 4096 + (b1 - 0x80) * 64 + (b2 - 0x80)) as char) == [b0, b1, b2]
  {
    var m := (b0 - 0xE0) * 64 + (b1 - 0x80);
    var n := m * 64 + (b2 - 0x80);
    assert n / 64 == m && n % 64 == b2 - 0x80;
    assert m / 64 == b0 - 0xE0 && m % 64 == b1 - 0x80;
  }

  /** The four-byte forms, shortest and at most U+10FFFF, re-encode to themselves. */
  lemma FourByteForm(b0: int, b1: int, b2: int, b3: int)
    requires 0xF0 <= b0 <= 0xF4 && 0x80 <= b1 <= 0xBF && 0x80 <= b2 <= 0xBF && 0x80 <= b3 <= 0xBF
    requires b0 == 0xF0 ==> 0x90 <= b1
    requires b0 == 0xF4 ==> b1 <= 0x8F
    ensures EncodeChar(((b0 - 0xF0) * 262144 + (b1 - 0x80) * 4096 + (b2 - 0x80) * 64 + (b3 - 0x80)) as char)
         == [b0, b1, b2, b3]
  {
    var m2 := (b0 - 0xF0) * 64 + (b1 - 0x80);
    var m := m2 * 64 + (b2 - 0x80);
    var n := m * 64 + (b3 - 0x80);
    assert n / 64 == m && n % 64 == b3 - 0x80;
    assert m / 64 == m2 && m % 64 == b2 - 0x80;
    assert m2 / 64 == b0 - 0xF0 && m2 % 64 == b1 - 0x80;
  }

  /** A character decoded from the front of `s` re-encodes to exactly the bytes it came from. */
  lemma DecodeFirstEncodes(s: seq<byte>)
    requires DecodeFirst(s).Some?
    ensures EncodeChar(DecodeFirst(s).value.0) == s[..DecodeFirst(s).value.1]
  {
    if s[0] <= 0x7F {
      assert s[..1] == [s[0]];
    } else if s[0] <= 0xDF {
      TwoByteForm(s[0], s[1]);
      assert s[..2] == [s[0], s[1]];
    } else if s[0] <= 0xEF {
      ThreeByteForm(s[0], s[1], s[2]);
      assert s[..3] == [s[0], s[1], s[2]];
    } else {
      FourByteForm(s[0], s[1], s[2], s[3]);
      assert s[..4] == [s[0], s[1], s[2], s[3]];
    }
  }

  /** Every string is decoded back from its encoding. */
  lemma {:induction false} DecodeEncode(t: string)
    ensures Decode(Encode(t)) == Some(t)
  {
    if t != [] {
      var e := EncodeChar(t[0]);
      var rest := Encode(t[1..]);
      EncodeCharDecodes(t[0], rest);
      assert Encode(t) == e + rest;
      assert (e + rest)[|e|..] == rest;
      DecodeEncode(t[1..]);
      assert [t[0]] + t[1..] == t;
    }
  }

  /**
   * A successful decode of non-empty bytes splits into a first character `c`, read
   * from the first `k` bytes and re-encoding to exactly them, and the decode `t` of
   * the rest.
   */
  lemma DecodeCons(s: seq<byte>) returns (c: char, k: nat, t: string)
    requires s != [] && Decode(s).Some?
    ensures 1 <= k <= |s| && EncodeChar(c) == s[..k]
    ensures Decode(s[k..]) == Some(t) && Decode(s).value == [c] + t
  {
    c, k := DecodeFirst(s).value.0, DecodeFirst(s).value.1;
    t := Decode(s[k..]).value;
    DecodeFirstEncodes(s);
  }

  /** Encoding a string is encoding its first character, then the rest. */
  lemma EncodeCons(c: char, t: string)
    ensures Encode([c] + t) == EncodeChar(c) + Encode(t)
  {
    assert ([c] + t)[0] == c && ([c] + t)[1..] == t;
  }

  /** Whatever decodes was the encoding of its decoding: valid UTF-8 has exactly one reading. */
  lemma {:induction false} EncodeDecode(s: seq<byte>)
    requires Decode(s).Some?
    ensures Encode(Decode(s).value) == s
  {
    if s != [] {
      var c, k, t := DecodeCons(s);
      EncodeDecode(s[k..]);
      EncodeCons(c, t);
      assert s == s[..k] + s[k..];
    }
  }

  /** Strict UTF-8 validity is membership in the image of the encoder. */
  lemma ValidIffEncoded(s: seq<byte>)
    ensures Decode(s).Some? <==> exists t :: Encode(t) == s
  {
    if Decode(s).Some? {
      EncodeDecode(s);
    }
    if t :| Encode(t) == s {
      DecodeEncode(t);
    }
  }

  /** A byte below 0x80 in an encoding can only come from the character with that code point. */
  lemma {:induction false} AsciiByteEncodesItsChar(t: string, b: byte)
    requires b < 0x80
    ensures b in Encode(t) ==> b as char in t
  {
    if t != [] {
      AsciiByteEncodesItsChar(t[1..], b);
      assert Encode(t) == EncodeChar(t[0]) + Encode(t[1..]);
    }
  }

  /** In valid UTF-8 a byte below 0x80 always decodes to the character with that code point. */
  lemma AsciiByteDecodesToItsChar(s: seq<byte>, b: byte)
    requires Decode(s).Some? && b in s && b < 0x80
    ensures b as char in Decode(s).value
  {
    EncodeDecode(s);
    AsciiByteEncodesItsChar(Decode(s).value, b);
  }

}
