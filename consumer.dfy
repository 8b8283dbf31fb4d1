/**
 * The message-inspection logic of the topic-draining consumer: the content
 * classifier, the best-effort decoder with its ordered fallback chain, and the
 * per-tag tally the consuming loop keeps. Payloads are Python `bytes | None`,
 * written Option<seq<byte>>.
 */
module PythonConsumer {
  import opened Wrappers
  import opened Bytes
  import Utf8
  import Hex
  import opened Unicode
  import opened Codecs

  // ---------------------------------------------------------------------------
  // Content classification
  // ---------------------------------------------------------------------------

  datatype ContentTag = Null | AvroBinary | JsonLike | Utf8Text | BinaryWithNull | Unknown

  /** The label the consumer records for each tag. */
  function Label(tag: ContentTag): string
  {
    match tag
    case Null => "NULL"
    case AvroBinary => "AVRO_BINARY"
    case JsonLike => "JSON_LIKE"
    case Utf8Text => "UTF8_TEXT"
    case BinaryWithNull => "BINARY_WITH_NULL"
    case Unknown => "UNKNOWN"
  }

  /** Distinct tags have distinct labels, so a table keyed by tag is one keyed by label. */
  lemma LabelsAreDistinct(a: ContentTag, b: ContentTag)
    ensures Label(a) == Label(b) ==> a == b
  {
  }

  /** At least five bytes, the first of them 0x00. */
  predicate HasAvroPrefix(s: seq<byte>)
  {
    |s| >= 5 && s[0] == 0x00
  }

  /** Starts with `{` (0x7B) or `[` (0x5B). */
  predicate StartsLikeJson(s: seq<byte>)
  {
    |s| > 0 && (s[0] == 0x7B || s[0] == 0x5B)
  }

  /** Strictly valid UTF-8 whose decoding `isprintable()` accepts. */
  predicate IsPrintableUtf8(lib: Library, s: seq<byte>)
  {
    Utf8.Decode(s).Some? && IsPrintableString(lib.wideIsPrintable, Utf8.Decode(s).value)
  }

  /** `analyze_message_encoding`: the first rule that matches decides the tag. */
  function AnalyzeMessageEncoding(lib: Library, payload: Option<seq<byte>>): (tag: ContentTag)
    ensures tag == Null <==> payload.None?
  {
    match payload
    case None => Null
    case Some(s) =>
      if HasAvroPrefix(s) then AvroBinary
      else if StartsLikeJson(s) then JsonLike
      else if IsPrintableUtf8(lib, s) then Utf8Text
      else if 0 in s then BinaryWithNull
      else Unknown
  }

  /** A C0 control or DEL byte is a control character wherever it sits in valid UTF-8. */
  predicate IsControlByte(b: byte)
  {
    b < 0x20 || b == 0x7F
  }

  /**
   * A control byte rules out printable UTF-8: in valid UTF-8 it stands for its own
   * control character, which is not printable. So multi-line text, or text with a
   * tab, never passes the test.
   */
  lemma ControlByteIsNotPrintableUtf8(lib: Library, s: seq<byte>, b: byte)
    requires b in s && IsControlByte(b)
    ensures !IsPrintableUtf8(lib, s)
  {
    if Utf8.Decode(s).Some? {
      var t := Utf8.Decode(s).value;
      Utf8.AsciiByteDecodesToItsChar(s, b);
      var i :| 0 <= i < |t| && t[i] == b as char;
      assert !IsPrintable(lib.wideIsPrintable, t[i]);
    }
  }

  /** AVRO_BINARY is decided by the first byte and the length alone, whatever follows. */
  lemma AvroBinaryIff(lib: Library, s: seq<byte>)
    ensures AnalyzeMessageEncoding(lib, Some(s)) == AvroBinary <==> |s| >= 5 && s[0] == 0x00
  {
  }

  /** JSON_LIKE is decided by the first byte alone; the empty payload is never JSON_LIKE. */
  lemma JsonLikeIff(lib: Library, s: seq<byte>)
    ensures AnalyzeMessageEncoding(lib, Some(s)) == JsonLike <==> |s| > 0 && (s[0] == 0x7B || s[0] == 0x5B)
  {
  }

  /**
   * UTF8_TEXT exactly for printable valid UTF-8 that does not open like JSON. The
   * AVRO rule needs no exclusion here: a leading 0x00 is never printable UTF-8.
   */
  lemma Utf8TextIff(lib: Library, s: seq<byte>)
    ensures AnalyzeMessageEncoding(lib, Some(s)) == Utf8Text <==> IsPrintableUtf8(lib, s) && !StartsLikeJson(s)
  {
    if HasAvroPrefix(s) {
      ControlByteIsNotPrintableUtf8(lib, s, 0);
    }
  }

  /** No payload holding a C0 control byte or DEL (0x00, a tab, a line feed, ...) is ever UTF8_TEXT. */
  lemma ControlByteIsNeverUtf8Text(lib: Library, s: seq<byte>, b: byte)
    requires b in s && IsControlByte(b)
    ensures AnalyzeMessageEncoding(lib, Some(s)) != Utf8Text
  {
    ControlByteIsNotPrintableUtf8(lib, s, b);
  }

  /**
   * BINARY_WITH_NULL exactly when a 0x00 byte is present and neither the AVRO nor
   * the JSON rule fired: the printable-UTF-8 rule can never take such a payload.
   */
  lemma BinaryWithNullIff(lib: Library, s: seq<byte>)
    ensures AnalyzeMessageEncoding(lib, Some(s)) == BinaryWithNull
        <==> 0 in s && !HasAvroPrefix(s) && !StartsLikeJson(s)
  {
    if 0 in s {
      ControlByteIsNotPrintableUtf8(lib, s, 0);
    }
  }

  /** A payload of one to four bytes led by 0x00 is too short for AVRO_BINARY and falls through to BINARY_WITH_NULL. */
  lemma ShortNulLedIsBinaryWithNull(lib: Library, s: seq<byte>)
    requires 0 < |s| < 5 && s[0] == 0x00
    ensures AnalyzeMessageEncoding(lib, Some(s)) == BinaryWithNull
  {
    assert s[0] in s;
    ControlByteIsNotPrintableUtf8(lib, s, 0);
  }

  /** UNKNOWN exactly for a zero-free payload that neither opens like JSON nor is printable UTF-8. */
  lemma UnknownIff(lib: Library, s: seq<byte>)
    ensures AnalyzeMessageEncoding(lib, Some(s)) == Unknown
        <==> 0 !in s && !StartsLikeJson(s) && !IsPrintableUtf8(lib, s)
  {
    if HasAvroPrefix(s) {
      assert s[0] in s;
    }
  }

  /**
   * A payload with a control byte other than 0x00 (a tab, a line feed, ...) that
   * holds no 0x00 and does not open like JSON is UNKNOWN, even when it is valid text.
   */
  lemma ControlTextIsUnknown(lib: Library, s: seq<byte>, b: byte)
    requires b in s && IsControlByte(b) && 0 !in s && !StartsLikeJson(s)
    ensures AnalyzeMessageEncoding(lib, Some(s)) == Unknown
  {
    ControlByteIsNotPrintableUtf8(lib, s, b);
    UnknownIff(lib, s);
  }

  /** A lone tab, and `h` followed by a line feed, are tagged UNKNOWN. */
  lemma ControlTextExamples(lib: Library)
    ensures AnalyzeMessageEncoding(lib, Some([0x09])) == Unknown
    ensures AnalyzeMessageEncoding(lib, Some([0x68, 0x0A])) == Unknown
  {
    var tab: seq<byte> := [0x09];
    var line: seq<byte> := [0x68, 0x0A];
    assert tab[0] in tab;
    ControlTextIsUnknown(lib, tab, 0x09);
    assert line[1] in line;
    ControlTextIsUnknown(lib, line, 0x0A);
  }

  /** The empty payload decodes to the empty string, which is vacuously printable. */
  lemma EmptyIsUtf8Text(lib: Library)
    ensures AnalyzeMessageEncoding(lib, Some([])) == Utf8Text
  {
    assert Utf8.Decode([]) == Some([]);
  }

  // ---------------------------------------------------------------------------
  // Safe decoding
  // ---------------------------------------------------------------------------

  /** The last-resort display form `[BINARY: <hex>]`. */
  function HexMarker(s: seq<byte>): (m: string)
    ensures |m| == 2 * |s| + 10
    ensures m[..9] == "[BINARY: " && m[|m| - 1] == ']'
    ensures forall i :: 9 <= i < |m| - 1 ==> Hex.IsLowerHexDigit(m[i])
    ensures Hex.Unhexlify(m[9..|m| - 1]) == Some(s)
  {
    var h := Hex.Hexlify(s);
    var m := "[BINARY: " + h + "]";
    assert m[9..|m| - 1] == h;
    Hex.UnhexlifyHexlify(s);
    m
  }

  /**
   * `safe_decode_message`: strict UTF-8; else Latin-1 when the result is printable;
   * else the first of utf-16, utf-32, ascii, cp1252 that decodes; else the hex
   * marker. Only an absent payload gives None.
   */
  function SafeDecodeMessage(lib: Library, payload: Option<seq<byte>>): (r: Option<string>)
    ensures r.None? <==> payload.None?
  {
    match payload
    case None => None
    case Some(s) =>
      match Utf8.Decode(s)
      case Some(t) => Some(t)
      case None =>
        var latin := Latin1Decode(s);
        if IsPrintableString(lib.wideIsPrintable, latin) then Some(latin)
        else
          match FirstDecoding(lib, FallbackEncodings, s)
          case Some(k) => TryDecode(lib, FallbackEncodings[k], s)
          case None => Some(HexMarker(s))
  }

  /** Any text sent as UTF-8 is displayed as exactly that text. */
  lemma Utf8TextRoundTrips(lib: Library, t: string)
    ensures SafeDecodeMessage(lib, Some(Utf8.Encode(t))) == Some(t)
  {
    Utf8.DecodeEncode(t);
  }

  /** For valid UTF-8 the display string is the one text whose UTF-8 encoding is the payload. */
  lemma ValidUtf8IsDecodedVerbatim(lib: Library, s: seq<byte>)
    requires Utf8.Decode(s).Some?
    ensures SafeDecodeMessage(lib, Some(s)).Some?
    ensures Utf8.Encode(SafeDecodeMessage(lib, Some(s)).value) == s
  {
    Utf8.EncodeDecode(s);
  }

  /**
   * When UTF-8 fails and every byte is a printable Latin-1 code point, the display
   * string has one character per byte, each with the byte's value as code point.
   */
  lemma Latin1Stage(lib: Library, s: seq<byte>)
    requires Utf8.Decode(s).None?
    requires forall i :: 0 <= i < |s| ==> Latin1Printable(s[i])
    ensures SafeDecodeMessage(lib, Some(s)).Some?
    ensures |SafeDecodeMessage(lib, Some(s)).value| == |s|
    ensures forall i :: 0 <= i < |s| ==> SafeDecodeMessage(lib, Some(s)).value[i] as int == s[i]
  {
    Latin1PrintableIff(lib.wideIsPrintable, s);
  }

  /** The ascii attempt never succeeds where it is reached: ASCII input already decoded as UTF-8. */
  lemma AsciiFallbackIsDead(lib: Library, s: seq<byte>)
    requires Utf8.Decode(s).None?
    ensures TryDecode(lib, Ascii, s).None?
  {
    if IsAscii(s) {
      AsciiIsUtf8(s);
    }
  }

  /** When utf-16, utf-32 and cp1252 all fail after UTF-8 did, the third stage finds nothing. */
  lemma LegacyStageFails(lib: Library, s: seq<byte>)
    requires Utf8.Decode(s).None?
    requires lib.utf16(s).None? && lib.utf32(s).None? && lib.cp1252(s).None?
    ensures FirstDecoding(lib, FallbackEncodings, s).None?
  {
    AsciiFallbackIsDead(lib, s);
    assert FallbackEncodings == [Utf16, Utf32, Ascii, Cp1252];
  }

  /** When every text strategy fails, the display string is the hex marker of the payload. */
  lemma HexStage(lib: Library, s: seq<byte>)
    requires Utf8.Decode(s).None?
    requires exists i :: 0 <= i < |s| && !Latin1Printable(s[i])
    requires lib.utf16(s).None? && lib.utf32(s).None? && lib.cp1252(s).None?
    ensures SafeDecodeMessage(lib, Some(s)) == Some(HexMarker(s))
  {
    Latin1PrintableIff(lib.wideIsPrintable, s);
    LegacyStageFails(lib, s);
  }

  /**
   * Under Python's codec behaviour the hex marker is reachable: an odd-length payload
   * that is not UTF-8 and holds a byte cp1252 leaves undefined gets the marker.
   */
  lemma HexStageReachable(lib: Library, s: seq<byte>)
    requires HasPythonCodecFacts(lib)
    requires Utf8.Decode(s).None? && |s| % 2 == 1
    requires exists i :: 0 <= i < |s| && Cp1252Undefined(s[i])
    ensures SafeDecodeMessage(lib, Some(s)) == Some(HexMarker(s))
  {
    var i :| 0 <= i < |s| && Cp1252Undefined(s[i]);
    assert !Latin1Printable(s[i]);
    OddUndefinedDefeatsLibraryCodecs(lib, s);
    HexStage(lib, s);
  }

  /** The single byte 0x81 is shown as `[BINARY: 81]`. */
  lemma LoneByte81IsShownInHex(lib: Library)
    requires HasPythonCodecFacts(lib)
    ensures SafeDecodeMessage(lib, Some([0x81])) == Some("[BINARY: 81]")
  {
    var s: seq<byte> := [0x81];
    assert Utf8.Decode(s).None? by {
      assert Utf8.DecodeFirst(s).None?;
    }
    assert Cp1252Undefined(s[0]);
    HexStageReachable(lib, s);
    HexMarkerOf81();
  }

  /** The marker for the single byte 0x81. */
  lemma HexMarkerOf81()
    ensures HexMarker([0x81]) == "[BINARY: 81]"
  {
    var s: seq<byte> := [0x81];
    assert s[1..] == [];
    assert Hex.Hexlify(s) == [Hex.LowerDigit(8), Hex.LowerDigit(1)];
  }

  /** A payload tagged UTF8_TEXT is displayed as its own printable UTF-8 decoding. */
  lemma Utf8TextIsDisplayedAsDecoded(lib: Library, s: seq<byte>)
    requires AnalyzeMessageEncoding(lib, Some(s)) == Utf8Text
    ensures SafeDecodeMessage(lib, Some(s)).Some?
    ensures Utf8.Encode(SafeDecodeMessage(lib, Some(s)).value) == s
    ensures IsPrintableString(lib.wideIsPrintable, SafeDecodeMessage(lib, Some(s)).value)
  {
    Utf8.EncodeDecode(s);
  }

  /** The binary and JSON payloads the classifier is usually illustrated with. */
  lemma ClassificationExamples(lib: Library)
    ensures AnalyzeMessageEncoding(lib, None) == Null
    ensures AnalyzeMessageEncoding(lib, Some([0x00, 0x00, 0x00, 0x00, 0x00])) == AvroBinary
    ensures AnalyzeMessageEncoding(lib, Some([0x7B, 0x22, 0x61, 0x22, 0x3A, 0x31, 0x7D])) == JsonLike
    ensures AnalyzeMessageEncoding(lib, Some([0x5B, 0x31, 0x2C, 0x32, 0x5D])) == JsonLike
    ensures AnalyzeMessageEncoding(lib, Some([0x41, 0x00, 0x42])) == BinaryWithNull
  {
    var nul: seq<byte> := [0x41, 0x00, 0x42];
    assert nul[1] == 0;
    BinaryWithNullIff(lib, nul);
  }

  /** Printable ASCII that does not open like JSON is classified as UTF-8 text. */
  lemma PrintableAsciiIsUtf8Text(lib: Library, s: seq<byte>)
    requires forall i :: 0 <= i < |s| ==> 0x20 <= s[i] <= 0x7E
    requires !StartsLikeJson(s)
    ensures AnalyzeMessageEncoding(lib, Some(s)) == Utf8Text
  {
    AsciiIsUtf8(s);
    Latin1PrintableIff(lib.wideIsPrintable, s);
    assert IsPrintableUtf8(lib, s);
    Utf8TextIff(lib, s);
  }

  /** `hello world` is printable UTF-8 text. */
  lemma TextClassificationExample(lib: Library)
    ensures AnalyzeMessageEncoding(lib, Some([0x68, 0x65, 0x6C, 0x6C, 0x6F, 0x20, 0x77, 0x6F, 0x72, 0x6C, 0x64])) == Utf8Text
  {
    var hw: seq<byte> := [0x68, 0x65, 0x6C, 0x6C, 0x6F, 0x20, 0x77, 0x6F, 0x72, 0x6C, 0x64];
    assert forall i :: 0 <= i < |hw| ==> 0x20 <= hw[i] <= 0x7E;
    PrintableAsciiIsUtf8Text(lib, hw);
  }

  /** Text payloads are displayed as themselves, the empty payload as the empty string. */
  lemma DecodingExamples(lib: Library)
    ensures SafeDecodeMessage(lib, None) == None
    ensures SafeDecodeMessage(lib, Some([])) == Some("")
    ensures SafeDecodeMessage(lib, Some([0x68, 0x65, 0x6C, 0x6C, 0x6F])) == Some("hello")
  {
    var hello: seq<byte> := [0x68, 0x65, 0x6C, 0x6C, 0x6F];
    AsciiIsUtf8(hello);
    assert Latin1Decode(hello) == "hello";
  }

  // ---------------------------------------------------------------------------
  // The consuming loop's bookkeeping
  // ---------------------------------------------------------------------------

  /** A record as the broker client hands it over: key and value may each be absent. */
  datatype Message = Message(key: Option<seq<byte>>, value: Option<seq<byte>>)

  /** What the loop keeps of a record (broker metadata left out). */
  datatype MessageData = MessageData(
    encodingType: ContentTag,
    key: Option<string>,
    value: Option<string>,
    rawValueLength: nat)

  /** Python truthiness of `bytes | None`: absent and empty are both false. */
  predicate IsTruthy(p: Option<seq<byte>>)
  {
    p.Some? && |p.value| > 0
  }

  /** `safe_decode_message(raw) if raw else None`: an empty payload is shown as None. */
  function DecodeIfTruthy(lib: Library, p: Option<seq<byte>>): (r: Option<string>)
    ensures r.Some? <==> IsTruthy(p)
  {
    if IsTruthy(p) then SafeDecodeMessage(lib, p) else None
  }

  /**
   * The record kept for one message: the value's tag, the key and the value decoded
   * when truthy, and the value's length. The truthiness guard on the length makes no
   * difference, since an empty value has length 0 anyway.
   */
  function Inspect(lib: Library, m: Message): (r: MessageData)
    ensures r.encodingType == Null <==> m.value.None?
    ensures r.key.Some? <==> IsTruthy(m.key)
    ensures r.value.Some? <==> IsTruthy(m.value)
    ensures r.rawValueLength == if m.value.Some? then |m.value.value| else 0
  {
    MessageData(
      AnalyzeMessageEncoding(lib, m.value),
      DecodeIfTruthy(lib, m.key),
      DecodeIfTruthy(lib, m.value),
      if IsTruthy(m.value) then |m.value.value| else 0)
  }

  /** The number of messages in `msgs` whose value carries `tag`. */
  function Count(lib: Library, msgs: seq<Message>, tag: ContentTag): nat
  {
    if msgs == [] then 0
    else Count(lib, msgs[..|msgs| - 1], tag)
         + (if AnalyzeMessageEncoding(lib, msgs[|msgs| - 1].value) == tag then 1 else 0)
  }

  /** `encoding_stats.get(tag, 0)` */
  function Get(stats: map<ContentTag, nat>, tag: ContentTag): nat
  {
    if tag in stats then stats[tag] else 0
  }

  /** The sum of all counts in the table. */
  function Total(stats: map<ContentTag, nat>): nat
  {
    Get(stats, Null) + Get(stats, AvroBinary) + Get(stats, JsonLike)
    + Get(stats, Utf8Text) + Get(stats, BinaryWithNull) + Get(stats, Unknown)
  }

  /** `encoding_stats[tag] = encoding_stats.get(tag, 0) + 1` */
  function Bump(stats: map<ContentTag, nat>, tag: ContentTag): (r: map<ContentTag, nat>)
    ensures Get(r, tag) == Get(stats, tag) + 1
    ensures forall other :: other != tag ==> Get(r, other) == Get(stats, other)
    ensures r.Keys == stats.Keys + {tag}
    ensures Total(r) == Total(stats) + 1
  {
    var r := stats[tag := Get(stats, tag) + 1];
    assert forall other :: Get(r, other) == Get(stats, other) + (if other == tag then 1 else 0);
    r
  }

  /**
   * The tally after processing `msgs` in order, one update per message. For each
   * tag it holds that tag's number of occurrences, a tag that never occurred has no
   * entry, and since every message carries exactly one tag the counts add up to the
   * number of messages.
   */
  function Tally(lib: Library, msgs: seq<Message>): (stats: map<ContentTag, nat>)
    ensures forall tag :: Get(stats, tag) == Count(lib, msgs, tag)
    ensures forall tag :: tag in stats ==> stats[tag] >= 1
    ensures Total(stats) == |msgs|
  {
    if msgs == [] then map[]
    else Bump(Tally(lib, msgs[..|msgs| - 1]), AnalyzeMessageEncoding(lib, msgs[|msgs| - 1].value))
  }

  /** The records kept for `msgs`, in delivery order: one per message. */
  function Records(lib: Library, msgs: seq<Message>): (r: seq<MessageData>)
    ensures |r| == |msgs|
    ensures forall i :: 0 <= i < |msgs| ==> r[i] == Inspect(lib, msgs[i])
  {
    if msgs == [] then []
    else Records(lib, msgs[..|msgs| - 1]) + [Inspect(lib, msgs[|msgs| - 1])]
  }

  /** Taking one more message appends its record. */
  lemma RecordsStep(lib: Library, delivered: seq<Message>, k: nat)
    requires k < |delivered|
    ensures Records(lib, delivered[..k + 1]) == Records(lib, delivered[..k]) + [Inspect(lib, delivered[k])]
  {
    assert delivered[..k + 1][..k] == delivered[..k];
  }

  /** Taking one more message applies one more update to the tally. */
  lemma TallyStep(lib: Library, delivered: seq<Message>, k: nat)
    requires k < |delivered|
    ensures Tally(lib, delivered[..k + 1])
         == Bump(Tally(lib, delivered[..k]), AnalyzeMessageEncoding(lib, delivered[k].value))
  {
    assert delivered[..k + 1][..k] == delivered[..k];
  }

  /**
   * The bookkeeping of `consume_all_messages_safe` over the messages the poll loop
   * delivered, in order: one record per message, `message_count` incremented once
   * per message, and `encoding_stats` holding, for each tag that occurred, how often.
   */
  method ConsumeAll(lib: Library, delivered: seq<Message>)
    returns (messages: seq<MessageData>, encodingStats: map<ContentTag, nat>, messageCount: nat)
    ensures messageCount == |delivered|
    ensures messages == Records(lib, delivered)
    ensures encodingStats == Tally(lib, delivered)
  {
    messages, encodingStats, messageCount := [], map[], 0;
    while messageCount < |delivered|
      invariant messageCount <= |delivered|
      invariant messages == Records(lib, delivered[..messageCount])
      invariant encodingStats == Tally(lib, delivered[..messageCount])
    {
      var msg := delivered[messageCount];
      TallyStep(lib, delivered, messageCount);
      RecordsStep(lib, delivered, messageCount);
      messageCount := messageCount + 1;
      var encodingType := AnalyzeMessageEncoding(lib, msg.value);
      encodingStats := Bump(encodingStats, encodingType);
      messages := messages + [Inspect(lib, msg)];
    }
    assert delivered[..messageCount] == delivered;
  }

  // ---------------------------------------------------------------------------
  // The display step as written: a tombstone ends the drain
  // ---------------------------------------------------------------------------

  /**
   * The display step slices the decoded value (`decoded_value[:100]`) for every tag
   * other than UTF8_TEXT and JSON_LIKE; slicing None raises, and the loop's
   * `except Exception` handler then ends consumption.
   */
  predicate DisplayFails(lib: Library, value: Option<seq<byte>>): (r: bool)
    ensures r ==> AnalyzeMessageEncoding(lib, value) == Null
  {
    EmptyIsUtf8Text(lib);
    AnalyzeMessageEncoding(lib, value) !in {Utf8Text, JsonLike} && DecodeIfTruthy(lib, value).None?
  }

  /** The display step fails exactly on a message whose value is absent (a tombstone). */
  lemma DisplayFailsIffAbsent(lib: Library, value: Option<seq<byte>>)
    ensures DisplayFails(lib, value) <==> value.None?
  {
    if value == Some([]) {
      EmptyIsUtf8Text(lib);
    }
  }

  /** The display step of one message: reports whether it raised. */
  method DisplayRaises(lib: Library, value: Option<seq<byte>>) returns (raised: bool)
    ensures raised <==> value.None?
  {
    DisplayFailsIffAbsent(lib, value);
    raised := DisplayFails(lib, value);
  }

  /** How many delivered messages the loop as written processes: up to and including the first tombstone. */
  function ProcessedAsWritten(delivered: seq<Message>): (n: nat)
    ensures n <= |delivered|
    ensures forall j :: 0 <= j < n - 1 ==> delivered[j].value.Some?
    ensures n < |delivered| ==> 0 < n && delivered[n - 1].value.None?
  {
    if delivered == [] then 0
    else if delivered[0].value.None? then 1
    else 1 + ProcessedAsWritten(delivered[1..])
  }

  /** One step of the loop as written: a tombstone is the last message processed. */
  lemma ProcessedExtend(delivered: seq<Message>, k: nat)
    requires k < |delivered|
    ensures ProcessedAsWritten(delivered[k..])
         == if delivered[k].value.None? then 1 else 1 + ProcessedAsWritten(delivered[k + 1..])
  {
    assert delivered[k..][1..] == delivered[k + 1..];
  }

  /** A tombstone leaves every message after it unconsumed. */
  lemma TombstoneEndsConsumption(delivered: seq<Message>, i: nat)
    requires i < |delivered| && delivered[i].value.None?
    ensures ProcessedAsWritten(delivered) <= i + 1
  {
  }

  /** A tombstone followed by an ordinary record: the second record is never counted. */
  lemma TombstoneThenRecord()
    ensures ProcessedAsWritten([Message(None, None), Message(None, Some([0x61]))]) == 1
  {
  }

  /**
   * `consume_all_messages_safe` as written: the same bookkeeping as ConsumeAll, but the
   * display of a tombstone raises after the message has been counted and recorded,
   * and the handler ends the loop there.
   */
  method ConsumeAllAsWritten(lib: Library, delivered: seq<Message>)
    returns (messages: seq<MessageData>, encodingStats: map<ContentTag, nat>, messageCount: nat)
    ensures messageCount == ProcessedAsWritten(delivered)
    ensures messages == Records(lib, delivered[..messageCount])
    ensures encodingStats == Tally(lib, delivered[..messageCount])
  {
    messages, encodingStats, messageCount := [], map[], 0;
    var stopped := false;
    while messageCount < |delivered| && !stopped
      invariant messageCount <= |delivered|
      invariant messages == Records(lib, delivered[..messageCount])
      invariant encodingStats == Tally(lib, delivered[..messageCount])
      invariant !stopped ==> ProcessedAsWritten(delivered) == messageCount + ProcessedAsWritten(delivered[messageCount..])
      invariant stopped ==> ProcessedAsWritten(delivered) == messageCount
    {
      var msg := delivered[messageCount];
      TallyStep(lib, delivered, messageCount);
      RecordsStep(lib, delivered, messageCount);
      ProcessedExtend(delivered, messageCount);
      messageCount := messageCount + 1;
      var encodingType := AnalyzeMessageEncoding(lib, msg.value);
      encodingStats := Bump(encodingStats, encodingType);
      messages := messages + [Inspect(lib, msg)];
      stopped := DisplayRaises(lib, msg.value);
    }
  }

}
