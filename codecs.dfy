/**
 * The text codecs the safe decoder tries. Latin-1 and ASCII are simple enough to
 * state concretely; the Unicode database behind `isprintable` (above U+00FF) and the
 * `utf-16`, `utf-32` and `cp1252` codecs belong to the Python library and are
 * parameters of the model, collected in a `Library` value.
 */
module Codecs {
  import opened Wrappers
  import opened Bytes
  import Utf8
  import Unicode

  /**
   * The parts of the Python library the model does not look inside. Each codec is a
   * partial function: None stands for the UnicodeDecodeError it raises.
   */
  datatype Library = Library(
    wideIsPrintable: char -> bool,
    utf16: seq<byte> -> Option<string>,
    utf32: seq<byte> -> Option<string>,
    cp1252: seq<byte> -> Option<string>)

  /** `bytes.decode('latin-1')`: total, one character per byte, code point = byte value. */
  function Latin1Decode(s: seq<byte>): (t: string)
    ensures |t| == |s|
    ensures forall i :: 0 <= i < |s| ==> t[i] as int == s[i]
  {
    seq(|s|, i requires 0 <= i < |s| => s[i] as char)
  }

  /** Latin-1 text is printable exactly when every byte is a printable Latin-1 code point. */
  lemma Latin1PrintableIff(wide: char -> bool, s: seq<byte>)
    ensures Unicode.IsPrintableString(wide, Latin1Decode(s)) <==> forall i :: 0 <= i < |s| ==> Unicode.Latin1Printable(s[i])
  {
    var t := Latin1Decode(s);
    assert forall i :: 0 <= i < |s| ==> (Unicode.IsPrintable(wide, t[i]) <==> Unicode.Latin1Printable(s[i]));
  }

  /** `bytes.decode('ascii')`: fails on any byte at or above 0x80. */
  function AsciiDecode(s: seq<byte>): (r: Option<string>)
    ensures r.Some? <==> forall i :: 0 <= i < |s| ==> s[i] < 0x80
    ensures r.Some? ==> |r.value| == |s| && forall i :: 0 <= i < |s| ==> r.value[i] as int == s[i]
  {
    if IsAscii(s) then Some(Latin1Decode(s)) else None
  }

  /** ASCII text is valid UTF-8 and both codecs read it the same way. */
  lemma {:induction false} AsciiIsUtf8(s: seq<byte>)
    requires IsAscii(s)
    ensures Utf8.Decode(s) == Some(Latin1Decode(s))
  {
    if s != [] {
      assert Utf8.DecodeFirst(s) == Some((s[0] as char, 1));
      AsciiIsUtf8(s[1..]);
      assert Latin1Decode(s) == [s[0] as char] + Latin1Decode(s[1..]);
    }
  }

  /** The legacy codecs of the third stage, in the order they are tried. */
  datatype Encoding = Utf16 | Utf32 | Ascii | Cp1252

  const FallbackEncodings: seq<Encoding> := [Utf16, Utf32, Ascii, Cp1252]

  /** `raw_bytes.decode(encoding)`, with None for a codec error. */
  function TryDecode(lib: Library, e: Encoding, s: seq<byte>): (r: Option<string>)
    ensures e == Ascii ==> (r.Some? <==> forall i :: 0 <= i < |s| ==> s[i] < 0x80)
  {
    match e
    case Utf16 => lib.utf16(s)
    case Utf32 => lib.utf32(s)
    case Ascii => AsciiDecode(s)
    case Cp1252 => lib.cp1252(s)
  }

  /**
   * The position in `encs` of the first encoding that decodes `s` without error,
   * or None when every one of them fails.
   */
  function FirstDecoding(lib: Library, encs: seq<Encoding>, s: seq<byte>): (r: Option<nat>)
    ensures r.Some? ==> r.value < |encs| && TryDecode(lib, encs[r.value], s).Some?
    ensures r.Some? ==> forall j :: 0 <= j < r.value ==> TryDecode(lib, encs[j], s).None?
    ensures r.None? ==> forall j :: 0 <= j < |encs| ==> TryDecode(lib, encs[j], s).None?
  {
    if encs == [] then None
    else if TryDecode(lib, encs[0], s).Some? then Some(0)
    else
      match FirstDecoding(lib, encs[1..], s)
      case None => None
      case Some(k) => Some(k + 1)
  }

  /** The bytes cp1252 leaves undefined; Python's cp1252 codec rejects each of them. */
  predicate Cp1252Undefined(b: byte)
  {
    b == 0x81 || b == 0x8D || b == 0x8F || b == 0x90 || b == 0x9D
  }

  /**
   * Facts about Python's codecs that hold whatever their internals: utf-16 rejects
   * an odd number of bytes, utf-32 a number that is not a multiple of four (both as
   * "truncated data"), and cp1252 rejects any undefined byte.
   */
  ghost predicate HasPythonCodecFacts(lib: Library)
  {
    && (forall s: seq<byte> :: |s| % 2 == 1 ==> lib.utf16(s).None?)
    && (forall s: seq<byte> :: |s| % 4 != 0 ==> lib.utf32(s).None?)
    && (forall s: seq<byte>, i :: 0 <= i < |s| && Cp1252Undefined(s[i]) ==> lib.cp1252(s).None?)
  }

  /** An odd-length payload holding a byte cp1252 leaves undefined defeats all three library codecs. */
  lemma OddUndefinedDefeatsLibraryCodecs(lib: Library, s: seq<byte>)
    requires HasPythonCodecFacts(lib)
    requires |s| % 2 == 1
    requires exists i :: 0 <= i < |s| && Cp1252Undefined(s[i])
    ensures lib.utf16(s).None? && lib.utf32(s).None? && lib.cp1252(s).None?
  {
    assert lib.utf16(s).None?;
    assert lib.utf32(s).None? by { assert |s| % 4 != 0; }
  }

}
