# wav-endecoder trailer format, modelled in Dafny

`wav-endecoder.py` stores an arbitrary file as the PCM frames of a WAV file. Encoding
appends a trailer to the file's bytes: one code byte per character of the file extension,
a length byte, and a byte holding the sample width. It then pads with 0xFF bytes. Decoding
skips the trailing 0xFF run and checks that the byte it stops on equals the sample width the
WAV file reports. It then reads the length byte and the code bytes, turns each code byte back
into a decimal code, and reverse-looks-up the extension character. Whatever precedes the code
bytes is the recovered file.

This project models that format as pure functions over byte sequences and proves its
properties:

- `Outcomes` (outcomes.dfy): the `Option` and `Outcome` result types.
- `Bytes` (bytes.dfy): the byte type, and the two conversions `bytes.fromhex(str(code))`
  and `int(b.hex())`.
- `Codes` (codes.dfy): the code table, as a list of items with distinct keys, in insertion
  order. It holds `code[key]`, `get_key_from_value` and the built-in `default_code` table.
- `Encoder` (encoder.dfy): `encode_file`, with the file's bytes as a parameter. It also
  holds a corrected padding; see "Findings".
- `Decoder` (decoder.dfy): the trailer-parsing part of `decode_file`, with the frames and
  the reported sample width as parameters.
- `Properties` (properties.dfy): the round trip, tamper detection and the format's
  degenerate cases.
- `Scenarios` (scenarios.dfy): concrete payloads built with the built-in table.

Where the script raises an exception, the model returns a `Fail` naming it:
- `NoExtension`: the path has no '.'. The script returns `''` instead of a payload.
- `UnknownCharacter`: `code[char]` raises KeyError.
- `InvalidCode`: `bytes.fromhex` raises ValueError.
- `WidthNotAByte`: `to_bytes` raises OverflowError.
- `ZeroWidth`: the `%` raises ZeroDivisionError.
- `NoFrames`: `last_byte` is never bound.
- `Mismatch(expected, actual)`: the "wav sample width modified!" branch, which returns
  None.
- `NoLengthByte`: `frames[-2-i]` raises IndexError.
- `NotDecimal`: `int()` raises ValueError.
- `UnknownCode`: `'' + None` raises TypeError.

Bytes are integers in 0..255. Python's negative-index slices clamp at the front of the
frames, and the model writes that clamp out (`Decoder.CodeStart`).

## Model

| member | source | states |
|---|---|---|
| Bytes.Digits | wav-endecoder.py:33 | `str(n)` of a non-negative code is a digit string with no leading zero whose decimal value is `n` |
| Bytes.PackPairs | wav-endecoder.py:33 | `bytes.fromhex` of an even-length digit string gives one byte per digit pair, with the first digit as high nibble and the second as low nibble |
| Bytes.FromHexOfDecimal | wav-endecoder.py:33 | writing a code succeeds exactly when it is non-negative with an even number of digits; it then gives one byte per pair of digits of `str(code)`, with the first digit of the pair as high nibble and the second as low nibble |
| Bytes.FourDigitCodeTwoBytes | wav-endecoder.py:33 | the code 1234 is written as the two bytes 0x12 0x34 |
| Bytes.DecimalOfHex | wav-endecoder.py:67-68 | reading a byte back succeeds exactly when both nibbles are decimal digits; the value is below 100, with the high nibble as tens digit and the low nibble as ones digit |
| Bytes.TwoDigitCodeRoundTrip | wav-endecoder.py:33 | a code in 10..99 is written as exactly one byte whose nibbles are its tens and ones digits; that byte is not 0xFF, and reading it back gives the code |
| Bytes.OddLengthCodesRejected | wav-endecoder.py:33 | codes below 10 (including negative ones) and codes of three digits cannot be written at all |
| Bytes.DecimalByteIsWrittenCode | wav-endecoder.py:67-68 | conversely, every byte at or above 16 that reads back as a number is the byte that number is written as |
| Codes.Lookup | wav-endecoder.py:33 | `code[key]` is None exactly when no item has the key; otherwise some item pairs the key with the result |
| Codes.KeyFor | wav-endecoder.py:46-47 | `get_key_from_value` is None exactly when no item has the value; otherwise it returns the key of the first item, in insertion order, holding the value |
| Codes.LookupAt | wav-endecoder.py:33 | looking up the key stored at any position finds the code stored with it |
| Codes.KeyForInvertsLookup | wav-endecoder.py:46-47 | in a table where no two keys share a code, the reverse lookup of a key's code gives back that key |
| Codes.DefaultKeyCharsDistinct | wav-endecoder.py:82-119 | the 36 key characters of the built-in table are pairwise different |
| Codes.DefaultKeysDistinct | wav-endecoder.py:82-119 | the built-in items have distinct keys, so they are a dict's item list |
| Codes.DefaultCodesTwoDigit | wav-endecoder.py:82-119 | every built-in code lies in 10..99 |
| Codes.DefaultCodesDistinct | wav-endecoder.py:82-119 | the 36 built-in codes are pairwise different |
| Codes.DefaultCodesInjective | wav-endecoder.py:82-119 | no two built-in keys share a code |
| Codes.DefaultLookup | wav-endecoder.py:82-119 | looking up the i-th built-in key character gives the i-th built-in code |
| Codes.DefaultTableWellFormed | wav-endecoder.py:82-119 | the built-in table has 36 one-character keys, all codes have two digits, and no two keys share a code |
| Encoder.CharsAfterLastDot | wav-endecoder.py:18-20 | `file_str[::-1].find('.')` is None exactly when the path has no '.'; otherwise it counts the characters after a '.' that are themselves free of '.' |
| Encoder.Extension | wav-endecoder.py:18-21 | the extension is absent exactly when the path has no '.'; otherwise it is the suffix of the whole path that follows the last '.', and it contains no '.' |
| Encoder.LengthByte | wav-endecoder.py:23-27 | the length byte is the extension length when that is below 50, and 0 otherwise; it is always below 50 |
| Encoder.CharBytes | wav-endecoder.py:30-33 | a character without a key fails with UnknownCharacter; one whose code cannot be written fails with InvalidCode; on success the bytes are those `bytes.fromhex(str(code))` gives for the character's code; a two-digit code gives one non-0xFF byte that reads back as the code |
| Encoder.ExtensionBytes | wav-endecoder.py:29-33 | the code bytes exist exactly when every character's bytes do; otherwise the first failing character gives the error; with two-digit codes there is one byte per character, reading back as that character's code |
| Encoder.TwoDigitCodeByte | wav-endecoder.py:33 | in a table of two-digit codes, any key's code lies in 10..99 |
| Encoder.Unpadded | wav-endecoder.py:14-40 | it fails with NoExtension exactly when the path has no '.'; an extension character without a code gives that error; for an encodable extension it succeeds exactly when the width is 1..255, fails with ZeroWidth for 0 and WidthNotAByte otherwise; the result is the file bytes, the extension's code bytes, the length byte, then the width |
| Encoder.Padded | wav-endecoder.py:41-43 | exactly `len % width` bytes are appended, all 0xFF; the unpadded payload is an unchanged prefix |
| Encoder.Encode | wav-endecoder.py:14-44 | it fails with NoExtension exactly when the path has no '.'; it succeeds exactly when the unpadded payload does, and fails with the same error when that fails; the file bytes are then a prefix of the result |
| Encoder.PaddedAlignment | wav-endecoder.py:41-43 | the padded length is a multiple of the width exactly when twice the remainder is |
| Encoder.NarrowWidthsAlign | wav-endecoder.py:41-43 | for widths 1 and 2 the padded payload is a whole number of frames |
| Encoder.WidthFourAlignsOnEvenLengths | wav-endecoder.py:41-43 | for width 4 the padded payload is aligned exactly when the unpadded length is even |
| Encoder.AlignedPadded | wav-endecoder.py:41-43 | the corrected padding makes the length a multiple of the width with fewer than `width` bytes of 0xFF, keeping the payload as a prefix |
| Encoder.EncodeAligned | wav-endecoder.py:14-44 | the corrected encoder succeeds exactly when the script's encoder does; its result starts with the file bytes and is a whole number of frames |
| Decoder.MarkerIndex | wav-endecoder.py:56-59 | the scan stops on the last byte below 0xFF, with only 0xFF after it, or on the first byte when all bytes are 0xFF |
| Decoder.CodeValues | wav-endecoder.py:67-68 | the bytes read back as numbers exactly when every byte has two decimal nibbles; then value k is byte k's reading; otherwise the first bad byte gives NotDecimal |
| Decoder.KeysFor | wav-endecoder.py:69-71 | the keys are found exactly when every code has a key; otherwise the first code without a key gives UnknownCode; with one-character keys the result has one character per code, and character k is the key holding code k |
| Decoder.ExtensionOf | wav-endecoder.py:67-71 | decoding code bytes succeeds exactly when every byte reads as a decimal number that has a key; the first byte with a nibble above 9 gives NotDecimal; when every byte is decimal, the first number without a key gives UnknownCode; with one-character keys character k of the result is the key of the number byte k reads as |
| Decoder.CodeStart | wav-endecoder.py:67 | the code bytes start `n` bytes before the length byte, or at the front when fewer bytes precede it |
| Decoder.ReadTrailer | wav-endecoder.py:65-73 | after the width check: it succeeds exactly when the code bytes before the length byte decode, and otherwise fails with their decoding error; the content is the frames in front of the code bytes, the length byte bounds their count, and equals it whenever any content precedes them |
| Decoder.Decode | wav-endecoder.py:56-73 | NoFrames exactly for no frames; Mismatch exactly when the byte the scan stops on differs from the width, naming that byte as expected and the width as actual; NoLengthByte exactly when the scan reaches the front with a matching byte; otherwise it succeeds exactly when the code bytes decode, and fails with their NotDecimal or UnknownCode error when they do not; the content is the frames before the code bytes, and the length byte bounds their count |
| Properties.MarkerSkipsPadding | wav-endecoder.py:56-59 | after any number of appended 0xFF bytes, the scan stops on the last byte of a payload that does not end in 0xFF |
| Properties.ExtensionBytesReadBack | wav-endecoder.py:67-68 | with two-digit codes, an encodable extension's code bytes read back as the characters' codes, one per character |
| Properties.KeysSpellExtension | wav-endecoder.py:69-71 | in a table where no two keys share a code, reverse-looking-up the codes of an extension's characters spells the extension |
| Properties.ExtensionReadsBack | wav-endecoder.py:67-71 | in a well-formed table, the code bytes of an encodable extension decode back to it |
| Properties.DecodeTrailer | wav-endecoder.py:56-73 | any content, followed by code bytes, their count below 50, a width other than 0xFF and any run of 0xFF, decodes to the content and the extension those code bytes spell |
| Properties.UnpaddedLayout | wav-endecoder.py:29-40 | a successful unpadded payload is exactly file bytes, code bytes, length byte and width byte |
| Properties.UnpaddedShape | wav-endecoder.py:23-40 | under the round-trip conditions, the length byte is the extension length and the code bytes decode back to the extension |
| Properties.RoundTrip | wav-endecoder.py:14-73 | if the path has a '.', the extension is shorter than 50 characters and every character has a key, the codes are distinct and two-digit, and 1 <= width <= 254, then encoding succeeds and decoding with the same width gives back the file bytes and the extension |
| Properties.RoundTripAligned | wav-endecoder.py:14-73 | the same round trip holds for the corrected encoder |
| Properties.AlignedPayloadIsPaddedTrailer | wav-endecoder.py:41-43 | the corrected payload is the unpadded payload followed only by 0xFF bytes |
| Properties.PayloadIsPaddedTrailer | wav-endecoder.py:40-43 | an encoded payload is the unpadded payload followed by `len % width` bytes of 0xFF |
| Properties.TamperDetected | wav-endecoder.py:56-64 | decoding a payload encoded with a width other than 0xFF, while a different width is reported, fails with Mismatch naming the encoded width as expected |
| Properties.WidthFFReadsLengthByteAsWidth | wav-endecoder.py:56-66 | for a payload encoded with width 0xFF the scan skips the width byte as padding and stops on the length byte; a reported width other than the length byte gives Mismatch with it, and one equal to it passes the width check |
| Properties.WidthFFNeverDecodes | wav-endecoder.py:56-64 | a payload encoded with width 0xFF never decodes with the width it was encoded with: the length byte is read as the width and mismatches 0xFF |
| Properties.LongExtensionLeaks | wav-endecoder.py:23-27 | an extension of 50 or more characters is recorded with length 0, so decoding recovers an empty extension and the code bytes stay at the end of the content |
| Properties.LongExtensionUnpadded | wav-endecoder.py:23-40 | an extension of 50 or more characters is followed by a length byte of 0 |
| Properties.AllPaddingFrames | wav-endecoder.py:56-66 | frames that are all 0xFF fail with Mismatch unless the reported width is 0xFF, and then fail with NoLengthByte |
| Properties.MissingKeyStopsEncoding | wav-endecoder.py:30-33 | with two-digit codes, an extension with a character that has no key fails with UnknownCharacter naming the first such character |
| Scenarios.TwoLetterExtensionAtWidthTwo | wav-endecoder.py:14-44 | a ten-byte file named "notes.to" at width 2 becomes the file bytes followed by 0x51 0x91 0x02 0x02, with no padding |
| Scenarios.TwoLetterExtensionDecodes | wav-endecoder.py:56-73 | that payload decodes back to the ten bytes and "to" |
| Scenarios.WidthFFMisdecodes | wav-endecoder.py:14-73 | the empty file "a.to" at width 0xFF becomes 0x51 0x91 0x02 0xFF and four 0xFF bytes; read back with a reported width of 2 it decodes to an empty file with extension "t" |
| Scenarios.DotInDirectoryName | wav-endecoder.py:18-33 | for "archive.d/notes" the extension is "d/notes", and encoding fails on '/', which has no built-in code |
| Scenarios.PaddingMisalignsAtWidthThree | wav-endecoder.py:41-43 | a one-byte file named "a.c" at width 3 gets one 0xFF byte, leaving five bytes, which is not a whole number of frames; the corrected encoder adds two |
| Scenarios.MisalignedAtWidthThree | wav-endecoder.py:41-43 | at width 3, a payload one byte past a multiple of 3 gets one 0xFF byte and stays misaligned, while the corrected encoder adds two |

## Left out

- Reading the input file and writing `output.<extension>` (wav-endecoder.py:37-39, 50-55, 72-73). These are I/O: the file's bytes, the frames and the reported sample width are parameters, and the recovered file is the `Decoded` result.
- `write_frames` and the `wave` module (wav-endecoder.py:7-12, 51-55). The library is not part of this model. It limits sample widths to 1..4. On read-back it drops a trailing partial frame, which can cut off the width byte when the padding does not align. The model assumes the frames come back exactly as written.
- argparse, loading a code table from JSON with a silent fallback to the built-in table, and the output file name (wav-endecoder.py:75-147). This is command-line plumbing. A loaded table is any `CodeTable` with integer codes; JSON values that are not integers are not modelled.
- The `print` diagnostics on a mismatch (wav-endecoder.py:61-63). They become the `Mismatch(expected, actual)` result.
- The main program writing the empty string as frames when the path has no '.'. The model stops at `Fail(NoExtension)`.
- The built-in table has 36 entries in the code (wav-endecoder.py:82-119). The model follows the code.

## Findings

| source | as written | input that shows it | evidently intended | confidence | as-written member | corrected member |
|---|---|---|---|---|---|---|
| wav-endecoder.py:41-43 | appends `len(output) % sample_width` bytes of 0xFF | a one-byte file "a.c" with the built-in table at width 3: the four-byte payload gets one 0xFF and is five bytes long, not a whole number of 3-byte frames | append `(sample_width - len(output) % sample_width) % sample_width` bytes so the payload fills whole frames | not executed; follows from the arithmetic: the payload as written is always aligned at widths 1 and 2, at width 4 exactly for even unpadded lengths, and otherwise only when twice the remainder `len(output) % sample_width` is a multiple of the width (including remainder 0) | Scenarios.PaddingMisalignsAtWidthThree | Encoder.EncodeAligned |

`Encoder.Encode` keeps the padding as written, because that is what the script produces.
`Encoder.EncodeAligned` is proved to fill whole frames, and `Properties.RoundTripAligned`
proves the round trip for it as well.
