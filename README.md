# Message encoding inspection of the topic-draining consumer

This project models the message-inspection core of `kafka-compose/python-consumer.py`.
That script drains one topic and, for every record, does three things. It tags the raw
value bytes with one of six content tags (`analyze_message_encoding`). It turns the key
and the value into display strings through an ordered fallback chain
(`safe_decode_message`). It keeps a per-tag tally (`encoding_stats`) beside a message
counter.

The model has these modules:

- `Utf8` (utf8.dfy) implements strict UTF-8 as the byte syntax of section 4 of RFC 3629,
  which is what Python's `utf-8` codec accepts. It has a decoder and an encoder, and it
  proves that each undoes the other. So valid UTF-8 has exactly one reading, and a byte
  below 0x80 in valid UTF-8 always stands for the character with that code point.
- `Hex` (hex.dfy) models `binascii.hexlify` and its inverse `unhexlify`, with round trips
  in both directions.
- `Unicode` (unicode.dfy) models Python's `str.isprintable`. It is concrete for
  U+0000..U+00FF, where U+0000..U+001F, U+007F..U+009F, U+00A0 and U+00AD are not
  printable. Above U+00FF the Unicode database is a parameter.
- `Codecs` (codecs.dfy) holds the concrete `latin-1` and `ascii` codecs. The `utf-16`,
  `utf-32` and `cp1252` codecs are opaque partial functions collected in a `Library`
  value. The module also has the first-success search over the legacy encodings and
  `HasPythonCodecFacts`. That predicate states three facts about Python's codecs that
  hold whatever their internals: `utf-16` rejects odd lengths, `utf-32` rejects lengths
  that are not a multiple of four, and `cp1252` rejects its five undefined bytes.
- `PythonConsumer` (consumer.dfy) holds the classifier, the safe decoder, their
  properties, and the consuming loop's bookkeeping. Payloads are `Option<seq<byte>>`,
  where `None` is Python's `None`.

The classifier treats text strictly. `isprintable` rejects every control character,
including tab, line feed and carriage return, so multi-line text and text with a tab are
never `UTF8_TEXT`. Such a payload is `UNKNOWN` when it has no 0x00 byte and does not open
like JSON (`ControlTextIsUnknown`). The model follows the code here, not a looser notion of
text that would admit common whitespace.

## Model

| member | source | states |
|---|---|---|
| `Utf8.Decode` | kafka-compose/python-consumer.py:13-15 | strict decoding accepts exactly the RFC 3629 byte syntax and returns the code points; each character takes one to four bytes |
| `Utf8.EncodeCharDecodes` | kafka-compose/python-consumer.py:13-15 | the decoder reads the encoding of one character back as that character and its byte length, whatever follows |
| `Utf8.DecodeFirstEncodes` | kafka-compose/python-consumer.py:13-15 | a character the decoder reads from the front re-encodes to exactly the bytes it was read from |
| `Utf8.DecodeEncode` | kafka-compose/python-consumer.py:13-15 | strict UTF-8 decoding reads back every string from its UTF-8 encoding |
| `Utf8.EncodeDecode` | kafka-compose/python-consumer.py:13-15 | whatever strict UTF-8 decoding accepts is exactly the encoding of its result (the reading is unique) |
| `Utf8.ValidIffEncoded` | kafka-compose/python-consumer.py:13-15 | the UTF-8 decode succeeds iff the bytes are the encoding of some string |
| `Utf8.AsciiByteDecodesToItsChar` | kafka-compose/python-consumer.py:52-54 | in valid UTF-8 a byte below 0x80 always decodes to the character with that code point, so 0x00, a tab or a line feed stays that control character |
| `Hex.Hexlify` | kafka-compose/python-consumer.py:36 | the hex text has two characters per byte, all drawn from `0-9a-f` |
| `Hex.UnhexlifyHexlify` | kafka-compose/python-consumer.py:36 | the hex text decodes back to the original bytes |
| `Hex.HexlifyUnhexlify` | kafka-compose/python-consumer.py:36 | any lower-case hex text that decodes is the hexlified form of what it decodes to |
| `Unicode.IsPrintableString` | kafka-compose/python-consumer.py:54 | `isprintable()`: every character is printable; a printable string holds no C0 control character and no DEL, and the empty string is printable |
| `Codecs.Latin1Decode` | kafka-compose/python-consumer.py:19-21 | Latin-1 decoding always succeeds, with one character per byte whose code point is the byte value |
| `Codecs.Latin1PrintableIff` | kafka-compose/python-consumer.py:21-24 | the Latin-1 text is printable iff every byte is in 0x20..0x7E or in 0xA1..0xFF other than 0xAD |
| `Codecs.AsciiIsUtf8` | kafka-compose/python-consumer.py:29-31 | bytes the `ascii` codec accepts are valid UTF-8 and decode to the same text |
| `Codecs.AsciiDecode` | kafka-compose/python-consumer.py:29-31 | `decode('ascii')` succeeds iff every byte is below 0x80, giving one character per byte with code point equal to the byte |
| `Codecs.TryDecode` | kafka-compose/python-consumer.py:29-31 | `raw_bytes.decode(encoding)` for each entry of the list `utf-16`, `utf-32`, `ascii`, `cp1252` (`FallbackEncodings`); the `ascii` entry succeeds iff every byte is below 0x80, the others are the library codecs |
| `Codecs.FirstDecoding` | kafka-compose/python-consumer.py:28-33 | the chosen encoding is the first in list order that decodes; if none is chosen, every one of them fails |
| `Codecs.OddUndefinedDefeatsLibraryCodecs` | kafka-compose/python-consumer.py:29-33 | an odd-length payload holding a byte cp1252 leaves undefined is rejected by utf-16, utf-32 and cp1252 |
| `PythonConsumer.LabelsAreDistinct` | kafka-compose/python-consumer.py:38-63 | the six tag labels are pairwise distinct |
| `PythonConsumer.AnalyzeMessageEncoding` | kafka-compose/python-consumer.py:38-41 | the tag is `NULL` exactly for an absent payload |
| `PythonConsumer.ControlByteIsNotPrintableUtf8` | kafka-compose/python-consumer.py:52-57 | a payload containing a byte in 0x00..0x1F or 0x7F never passes the printable-UTF-8 test |
| `PythonConsumer.AvroBinaryIff` | kafka-compose/python-consumer.py:43-45 | `AVRO_BINARY` iff the length is at least 5 and the first byte is 0x00, whatever the other bytes are |
| `PythonConsumer.JsonLikeIff` | kafka-compose/python-consumer.py:47-49 | `JSON_LIKE` iff the payload is non-empty and starts with 0x7B or 0x5B |
| `PythonConsumer.Utf8TextIff` | kafka-compose/python-consumer.py:51-57 | `UTF8_TEXT` iff the payload is valid, printable UTF-8 that does not start like JSON; the AVRO rule can never pre-empt it |
| `PythonConsumer.ControlByteIsNeverUtf8Text` | kafka-compose/python-consumer.py:51-61 | no payload containing a byte in 0x00..0x1F or 0x7F (0x00, tab, line feed, carriage return, ...) is tagged `UTF8_TEXT` |
| `PythonConsumer.BinaryWithNullIff` | kafka-compose/python-consumer.py:59-61 | `BINARY_WITH_NULL` iff a 0x00 byte is present and neither the AVRO rule nor the JSON rule applies |
| `PythonConsumer.ShortNulLedIsBinaryWithNull` | kafka-compose/python-consumer.py:44-61 | a 0x00-led payload of 1 to 4 bytes falls through to `BINARY_WITH_NULL` |
| `PythonConsumer.UnknownIff` | kafka-compose/python-consumer.py:59-63 | `UNKNOWN` iff there is no 0x00, no JSON start, and the payload is not printable UTF-8 |
| `PythonConsumer.ControlTextIsUnknown` | kafka-compose/python-consumer.py:51-63 | a payload with a control byte, no 0x00 and no JSON opening is tagged `UNKNOWN`, even when it is valid UTF-8 text |
| `PythonConsumer.ControlTextExamples` | kafka-compose/python-consumer.py:51-63 | a lone tab and `h` followed by a line feed are tagged `UNKNOWN` |
| `PythonConsumer.EmptyIsUtf8Text` | kafka-compose/python-consumer.py:51-55 | the empty payload is tagged `UTF8_TEXT` |
| `PythonConsumer.ClassificationExamples` | kafka-compose/python-consumer.py:38-63 | the usual sample payloads get the tags `NULL`, `AVRO_BINARY`, `JSON_LIKE` (an object and an array) and `BINARY_WITH_NULL` |
| `PythonConsumer.PrintableAsciiIsUtf8Text` | kafka-compose/python-consumer.py:51-55 | a payload of bytes 0x20..0x7E that does not start with `{` or `[` is tagged `UTF8_TEXT` |
| `PythonConsumer.TextClassificationExample` | kafka-compose/python-consumer.py:51-55 | the bytes of `hello world` are tagged `UTF8_TEXT` |
| `PythonConsumer.HexMarker` | kafka-compose/python-consumer.py:35-36 | the marker is `[BINARY: `, then 2·n lower-case hex digits that decode back to the payload, then `]` |
| `PythonConsumer.SafeDecodeMessage` | kafka-compose/python-consumer.py:8-11 | the result is None exactly for an absent payload, so every present payload gets a display string |
| `PythonConsumer.Utf8TextRoundTrips` | kafka-compose/python-consumer.py:13-15 | any text sent as UTF-8 is displayed as exactly that text |
| `PythonConsumer.ValidUtf8IsDecodedVerbatim` | kafka-compose/python-consumer.py:13-15 | for valid UTF-8, the display string is the unique text whose encoding is the payload |
| `PythonConsumer.Latin1Stage` | kafka-compose/python-consumer.py:19-24 | when UTF-8 fails and all bytes are printable Latin-1, the display string has one character per byte with code point equal to the byte |
| `PythonConsumer.AsciiFallbackIsDead` | kafka-compose/python-consumer.py:29-31 | once UTF-8 has failed, the `ascii` attempt always fails too |
| `PythonConsumer.LegacyStageFails` | kafka-compose/python-consumer.py:28-33 | after a UTF-8 failure, if utf-16, utf-32 and cp1252 fail then the whole third stage fails |
| `PythonConsumer.HexStage` | kafka-compose/python-consumer.py:28-36 | when UTF-8, printable Latin-1 and all legacy codecs fail, the display string is the hex marker |
| `PythonConsumer.HexStageReachable` | kafka-compose/python-consumer.py:28-36 | given Python's codec facts, odd-length non-UTF-8 with a cp1252-undefined byte is shown as the hex marker |
| `PythonConsumer.LoneByte81IsShownInHex` | kafka-compose/python-consumer.py:35-36 | given Python's codec facts, the single byte 0x81 is shown as `[BINARY: 81]` |
| `PythonConsumer.HexMarkerOf81` | kafka-compose/python-consumer.py:36 | the marker for the single byte 0x81 is `[BINARY: 81]` |
| `PythonConsumer.Utf8TextIsDisplayedAsDecoded` | kafka-compose/python-consumer.py:52-55 | a payload tagged `UTF8_TEXT` is displayed as a printable text whose UTF-8 encoding is the payload |
| `PythonConsumer.DecodingExamples` | kafka-compose/python-consumer.py:8-17 | absent gives None, empty gives `""`, and the bytes of `hello` give `"hello"` |
| `PythonConsumer.DecodeIfTruthy` | kafka-compose/python-consumer.py:115-116 | a key or value gets a display string iff it is present and non-empty |
| `PythonConsumer.Inspect` | kafka-compose/python-consumer.py:115-127 | the record of one message: tag `NULL` exactly for an absent value, a decoded key or value exactly when it is truthy, and the value length (0 for an absent value) |
| `PythonConsumer.Bump` | kafka-compose/python-consumer.py:112 | one update raises the processed tag's count by 1, leaves the other counts unchanged, and raises the total by 1 |
| `PythonConsumer.Tally` | kafka-compose/python-consumer.py:104-112 | the tally after a message list holds, for each tag, that tag's number of occurrences; a tag that never occurred has no entry; the counts add up to the number of messages |
| `PythonConsumer.TallyStep` | kafka-compose/python-consumer.py:111-112 | proof step for the loop invariant: the tally of one more message is the previous tally updated with that message's tag |
| `PythonConsumer.Records` | kafka-compose/python-consumer.py:118-129 | the kept records are one per message, in delivery order, each being that message's inspection |
| `PythonConsumer.RecordsStep` | kafka-compose/python-consumer.py:129 | proof step for the loop invariant: the records of one more message are the previous records with its record appended |
| `PythonConsumer.ConsumeAll` | kafka-compose/python-consumer.py:80-129 | the message count is the number of delivered messages, the records are `Records` of all of them and the tally is `Tally` of all of them (so the tally has exactly the tags that occurred, with their occurrence counts, summing to the message count) |
| `PythonConsumer.DisplayFails` | kafka-compose/python-consumer.py:132-135 | the display step slices `None` only for a message tagged `NULL` |
| `PythonConsumer.DisplayFailsIffAbsent` | kafka-compose/python-consumer.py:131-135 | the display step slices `None` exactly when the message value is absent |
| `PythonConsumer.DisplayRaises` | kafka-compose/python-consumer.py:131-135 | the display step raises exactly for a message whose value is absent |
| `PythonConsumer.ProcessedAsWritten` | kafka-compose/python-consumer.py:131-141 | as written, the loop processes messages up to and including the first one with an absent value |
| `PythonConsumer.ProcessedExtend` | kafka-compose/python-consumer.py:131-141 | proof step for the as-written loop invariant: from any position, a tombstone is the last message processed, and any other message is processed and the loop goes on |
| `PythonConsumer.TombstoneEndsConsumption` | kafka-compose/python-consumer.py:131-141 | an absent value at position i means no message after position i is processed |
| `PythonConsumer.TombstoneThenRecord` | kafka-compose/python-consumer.py:131-141 | a tombstone followed by an ordinary record: only the tombstone is counted |
| `PythonConsumer.ConsumeAllAsWritten` | kafka-compose/python-consumer.py:103-141 | the message count is the length of the prefix the loop processes as written (up to and including the first tombstone), and the records and the tally are `Records` and `Tally` of that prefix |

## Findings

| source | as written | input that shows it | evidently intended | confidence | as-written member | corrected member |
|---|---|---|---|---|---|---|
| kafka-compose/python-consumer.py:135 | A message with an absent value gets tag `NULL` and decoded value `None`. Line 135 then evaluates `decoded_value[:100]`, which raises `TypeError`. The `except Exception` at line 140 catches it and the drain ends. | a tombstone followed by any record: only the tombstone is counted, and the later record is never consumed | every delivered message is counted and tallied | not executed; high | `PythonConsumer.ConsumeAllAsWritten` with `PythonConsumer.TombstoneThenRecord` | `PythonConsumer.ConsumeAll` |

An empty, non-absent value is not affected. It is tagged `UTF8_TEXT`, so line 133 displays
it without slicing.

## Left out

- The broker client is not modelled: the consumer configuration, the time-based group id, `subscribe`, `poll`, `close`, empty polls, partition-EOF and error handling (python-consumer.py:65-101, 137-144). These are calls into the `confluent_kafka` library and are driven by network I/O. `ConsumeAll` takes the delivered records as a sequence.
- The broker metadata of each record (topic, partition, offset, timestamp) is left out of `MessageData`. The model does not look at it.
- All `print` output, the JSON file dump and the sample listing are left out (python-consumer.py:78, 92, 133-135, 147-179). They are presentation and file I/O. Only the failure at line 135 is modelled, by `DisplayFails`.
- kafka-compose/check-connection-kafka.py is not part of this model. It wraps `AdminClient.list_topics` with argv handling and exit codes and has no logic of its own.
- The internals of the `utf-16`, `utf-32` and `cp1252` codecs (byte-order marks, surrogate pairs, code-page tables) are left out. So is the Unicode category database behind `isprintable` above U+00FF. These belong to the Python library and are parameters of type `Codecs.Library`. The only facts assumed about them are the three in `Codecs.HasPythonCodecFacts`, and only the lemmas that say so use them.
- The `except:` around the Latin-1 attempt (python-consumer.py:25-26) has no counterpart. Latin-1 decoding cannot fail.
- Tags are a datatype, not strings. `Label` gives each tag's string, and `LabelsAreDistinct` shows that keying the tally by tag is the same as keying it by label.
