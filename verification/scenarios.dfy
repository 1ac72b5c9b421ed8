/** Concrete payloads built with the built-in table. */
module Scenarios {
  import opened Outcomes
  import opened Bytes
  import opened Codes
  import opened Encoder
  import opened Decoder
  import opened Properties

  /** The code bytes of an extension are those of its first character followed by those of
      the rest, and an error in either is the error of the whole. */
  lemma ExtensionBytesStep(t: CodeTable, ext: string)
    requires 0 < |ext|
    ensures CharBytes(t, ext[0]).Fail? ==> ExtensionBytes(t, ext) == CharBytes(t, ext[0])
    ensures CharBytes(t, ext[0]).Ok? && ExtensionBytes(t, ext[1..]).Fail? ==>
      ExtensionBytes(t, ext) == ExtensionBytes(t, ext[1..])
    ensures CharBytes(t, ext[0]).Ok? && ExtensionBytes(t, ext[1..]).Ok? ==>
      ExtensionBytes(t, ext) == Ok(CharBytes(t, ext[0]).value + ExtensionBytes(t, ext[1..]).value)
  {
  }

  /** The byte a two-digit code is written as. */
  function CodeByte(code: int): (b: byte)
    requires 10 <= code < 100
    ensures FromHexOfDecimal(code) == Some([b])
  {
    TwoDigitCodeRoundTrip(code);
    16 * (code / 10) + code % 10
  }

  /** A character whose code has two digits is written as that code's byte. */
  lemma CharWithTwoDigitCode(t: CodeTable, ch: char, code: int)
    requires Lookup(t, [ch]) == Some(code) && 10 <= code < 100
    ensures CharBytes(t, ch) == Ok([CodeByte(code)])
  {
  }

  /** The built-in table maps the `i`-th key character to the `i`-th code. */
  lemma DefaultLookupOf(i: nat, ch: char, code: int)
    requires i < |DefaultKeys| && DefaultKeys[i] == ch && DefaultCodes[i] == code
    ensures Lookup(DefaultTable, [ch]) == Some(code)
  {
    DefaultLookup(i);
  }

  /** A payload that is already a whole number of frames gets no padding. */
  lemma AlignedNeedsNoPadding(content: seq<byte>, path: string, t: CodeTable, width: int, u: seq<byte>)
    requires Unpadded(content, path, t, width) == Ok(u)
    requires 0 < width && |u| % width == 0
    ensures Encode(content, path, t, width) == Ok(u)
  {
    assert Padded(u, width) == u;
  }

  /** The unpadded payload once the extension and its code bytes are known. */
  lemma UnpaddedOf(content: seq<byte>, path: string, t: CodeTable, width: int, ext: string, codes: seq<byte>)
    requires Extension(path) == Some(ext) && ExtensionBytes(t, ext) == Ok(codes)
    requires 1 <= width < 256
    ensures Unpadded(content, path, t, width) == Ok(content + codes + [LengthByte(|ext|), width])
  {
  }

  /** The code bytes of a two-character extension whose codes have two digits. */
  lemma TwoCharCodes(t: CodeTable, a: char, b: char, ca: int, cb: int)
    requires Lookup(t, [a]) == Some(ca) && 10 <= ca < 100
    requires Lookup(t, [b]) == Some(cb) && 10 <= cb < 100
    ensures ExtensionBytes(t, [a, b]) == Ok([CodeByte(ca), CodeByte(cb)])
  {
    CharWithTwoDigitCode(t, a, ca);
    CharWithTwoDigitCode(t, b, cb);
    assert [a, b][1..] == [b] && [b][1..] == [];
    ExtensionBytesStep(t, [b]);
    ExtensionBytesStep(t, [a, b]);
    assert [CodeByte(ca)] + ([CodeByte(cb)] + []) == [CodeByte(ca), CodeByte(cb)];
  }

  /** 't' is code 51 and 'o' is code 91, written as the bytes 0x51 and 0x91. */
  lemma ToCodes()
    ensures Lookup(DefaultTable, "t") == Some(51) && Lookup(DefaultTable, "o") == Some(91)
    ensures ExtensionBytes(DefaultTable, "to") == Ok([0x51, 0x91])
  {
    ToLookups();
    TwoCharCodes(DefaultTable, 't', 'o', 51, 91);
    assert CodeByte(51) == 0x51 && CodeByte(91) == 0x91;
  }

  /** The forward lookups of 't' and 'o' in the built-in table. */
  lemma ToLookups()
    ensures Lookup(DefaultTable, "t") == Some(51) && Lookup(DefaultTable, "o") == Some(91)
  {
    TLookup();
    OLookup();
  }

  /** 't' is the fifth entry of the built-in table, with code 51. */
  lemma TLookup()
    ensures Lookup(DefaultTable, "t") == Some(51)
  {
    DefaultLookupOf(4, 't', 51);
  }

  /** 'o' is the ninth entry of the built-in table, with code 91. */
  lemma OLookup()
    ensures Lookup(DefaultTable, "o") == Some(91)
  {
    DefaultLookupOf(8, 'o', 91);
  }

  /** 'c' is code 33, written as the byte 0x33. */
  lemma CCode()
    ensures ExtensionBytes(DefaultTable, "c") == Ok([0x33])
  {
    DefaultLookupOf(20, 'c', 33);
    CharWithTwoDigitCode(DefaultTable, 'c', 33);
    assert CodeByte(33) == 0x33;
    assert ['c'][1..] == [];
    ExtensionBytesStep(DefaultTable, ['c']);
  }

  /** The extension of "notes.to" is "to". */
  lemma NotesToExtension()
    ensures Extension("notes.to") == Some("to")
    ensures '.' in "notes.to"
  {
    assert "notes.to"[5] == '.';
  }

  /** The trailer of "notes.to" at width 2. */
  lemma NotesToUnpadded(content: seq<byte>)
    ensures Unpadded(content, "notes.to", DefaultTable, 2) == Ok(content + [0x51, 0x91, 0x02, 0x02])
  {
    NotesToExtension();
    ToUnpadded(content, "notes.to", 2);
  }

  /** Code bytes and the two closing bytes join into one four-byte trailer. */
  lemma TrailerJoins(content: seq<byte>, a: byte, b: byte, c: byte, d: byte)
    ensures content + [a, b] + [c, d] == content + [a, b, c, d]
  {
  }

  /** A ten-byte file with extension "to" at width 2: the trailer is 0x51 0x91, length 2
      and width 2, and fourteen bytes need no padding. */
  lemma TwoLetterExtensionAtWidthTwo(content: seq<byte>)
    requires |content| == 10
    ensures Encode(content, "notes.to", DefaultTable, 2) == Ok(content + [0x51, 0x91, 0x02, 0x02])
  {
    NotesToUnpadded(content);
    var u: seq<byte> := content + [0x51, 0x91, 0x02, 0x02];
    assert |u| == 14;
    assert Unpadded(content, "notes.to", DefaultTable, 2) == Ok(u);
    AlignedNeedsNoPadding(content, "notes.to", DefaultTable, 2, u);
  }

  /** The built-in table meets the round-trip conditions for "notes.to" at width 2. */
  lemma NotesToRoundTrips()
    ensures RoundTripConditions("notes.to", DefaultTable, 2)
  {
    NotesToExtension();
    ToCodes();
    assert Encodable(DefaultTable, "to");
    DefaultTableWellFormed();
  }

  /** The payload of the ten-byte "notes.to" file decodes back to the file and "to". */
  lemma TwoLetterExtensionDecodes(content: seq<byte>)
    requires |content| == 10
    ensures Decode(content + [0x51, 0x91, 0x02, 0x02], 2, DefaultTable) == Ok(Decoded(content, "to"))
  {
    TwoLetterExtensionAtWidthTwo(content);
    NotesToExtension();
    NotesToRoundTrips();
    RoundTrip(content, "notes.to", DefaultTable, 2);
  }

  /** The extension is taken from the whole path, so a '.' in a directory name with none
      in the file name yields an "extension" holding a '/', which the built-in table has no
      key for. */
  lemma DotInDirectoryName(content: seq<byte>)
    ensures Extension("archive.d/notes") == Some("d/notes")
    ensures Encode(content, "archive.d/notes", DefaultTable, 2) == Fail(UnknownCharacter('/'))
  {
    DirectoryExtension();
    SlashHasNoCode();
    assert Unpadded(content, "archive.d/notes", DefaultTable, 2) == Fail(UnknownCharacter('/'));
  }

  /** The last '.' of "archive.d/notes" is in the directory name. */
  lemma DirectoryExtension()
    ensures Extension("archive.d/notes") == Some("d/notes")
  {
  }

  /** No built-in key is '/'; kept apart from `SlashHasNoCode` so that this search of the
      table's keys is not done alongside the unfolding of the encoder. */
  lemma NoSlashKey()
    ensures Lookup(DefaultTable, "/") == None
  {
    assert forall i :: 0 <= i < |DefaultKeys| ==> DefaultKeys[i] != '/';
  }

  /** '/' has no code, so the code bytes of "d/notes" stop at it. */
  lemma SlashHasNoCode()
    ensures Lookup(DefaultTable, "/") == None
    ensures ExtensionBytes(DefaultTable, "d/notes") == Fail(UnknownCharacter('/'))
  {
    var ext := "d/notes";
    DefaultLookupOf(11, 'd', 32);
    CharWithTwoDigitCode(DefaultTable, 'd', 32);
    NoSlashKey();
    assert ext[0] == 'd' && ext[1..][0] == '/';
    ExtensionBytesStep(DefaultTable, ext[1..]);
    ExtensionBytesStep(DefaultTable, ext);
  }

  /** The unpadded payload of a one-byte file named "a.c" at width 3. */
  lemma ACUnpadded(content: seq<byte>)
    ensures Unpadded(content, "a.c", DefaultTable, 3) == Ok(content + [0x33, 0x01, 0x03])
  {
    assert Extension("a.c") == Some("c");
    CCode();
    UnpaddedOf(content, "a.c", DefaultTable, 3, "c", [0x33]);
    assert content + [0x33] + [0x01, 0x03] == content + [0x33, 0x01, 0x03];
  }

  /** A payload one byte past a multiple of 3 gets one 0xFF byte from the script, which
      leaves it misaligned, and two from the aligned encoder. */
  lemma MisalignedAtWidthThree(content: seq<byte>, path: string, t: CodeTable, u: seq<byte>)
    requires Unpadded(content, path, t, 3) == Ok(u)
    requires |u| % 3 == 1
    ensures Encode(content, path, t, 3) == Ok(u + [Pad])
    ensures |u + [Pad]| % 3 != 0
    ensures EncodeAligned(content, path, t, 3) == Ok(u + [Pad, Pad])
  {
    assert Padded(u, 3) == u + [Pad];
    assert (3 - |u| % 3) % 3 == 2;
    assert AlignedPadded(u, 3) == u + [Pad, Pad];
  }

  /** A three-byte trailer and one or two 0xFF bytes join into one sequence. */
  lemma PadJoins(content: seq<byte>, a: byte, b: byte, c: byte)
    ensures content + [a, b, c] + [Pad] == content + [a, b, c, Pad]
    ensures content + [a, b, c] + [Pad, Pad] == content + [a, b, c, Pad, Pad]
  {
  }

  /** At width 3 the padding misses: a one-byte file with extension "c" gives a four-byte
      unpadded payload, one 0xFF byte is appended, and five bytes are not a whole number of
      three-byte frames. The aligned encoder appends two. */
  lemma PaddingMisalignsAtWidthThree(content: seq<byte>)
    requires |content| == 1
    ensures Encode(content, "a.c", DefaultTable, 3) == Ok(content + [0x33, 0x01, 0x03, Pad])
    ensures |Encode(content, "a.c", DefaultTable, 3).value| % 3 != 0
    ensures EncodeAligned(content, "a.c", DefaultTable, 3) == Ok(content + [0x33, 0x01, 0x03, Pad, Pad])
  {
    ACUnpadded(content);
    MisalignedAtWidthThree(content, "a.c", DefaultTable, content + [0x33, 0x01, 0x03]);
    PadJoins(content, 0x33, 0x01, 0x03);
  }

  /** A single code byte decodes to the key of the number it reads as. */
  lemma OneByteExtension(t: CodeTable, b: byte, code: int, key: string)
    requires DecimalOfHex(b) == Some(code) && KeyFor(t, code) == Some(key)
    ensures ExtensionOf(t, [b]) == Ok(key)
  {
    assert [b][1..] == [] && [b][0] == b;
    assert CodeValues([b][1..]) == Ok([]);
    assert [code] + [] == [code];
    assert CodeValues([b]) == Ok([code]);
    assert [code][1..] == [] && [code][0] == code;
    assert KeysFor(t, [code]) == Ok(key + "");
    assert key + "" == key;
  }

  /** The reverse lookup of code 51 in the built-in table is "t". */
  lemma KeyFor51()
    ensures KeyFor(DefaultTable, 51) == Some("t")
  {
    TLookup();
    DefaultTableWellFormed();
    KeyForInvertsLookup(DefaultTable, "t");
  }

  /** The byte 0x51 reads as the decimal number 51. */
  lemma HexFiftyOne()
    ensures DecimalOfHex(0x51) == Some(51)
  {
  }

  /** The code byte 0x51 decodes to "t" in the built-in table. */
  lemma T51Decodes()
    ensures ExtensionOf(DefaultTable, [0x51]) == Ok("t")
  {
    KeyFor51();
    HexFiftyOne();
    OneByteExtension(DefaultTable, 0x51, 51, "t");
  }

  /** The trailer of a path with extension "to", at any width. */
  lemma ToUnpadded(content: seq<byte>, path: string, width: int)
    requires Extension(path) == Some("to") && 1 <= width < 256
    ensures Unpadded(content, path, DefaultTable, width) == Ok(content + [0x51, 0x91, 0x02, width])
  {
    ToCodes();
    UnpaddedOf(content, path, DefaultTable, width, "to", [0x51, 0x91]);
    assert LengthByte(|"to"|) == 2;
    TrailerJoins(content, 0x51, 0x91, 0x02, width);
  }

  /** The script pads a payload of four bytes at width 255 with four 0xFF bytes. */
  lemma FourBytesAtWidthFF(content: seq<byte>, path: string, t: CodeTable, u: seq<byte>)
    requires Unpadded(content, path, t, 255) == Ok(u) && |u| == 4
    ensures Encode(content, path, t, 255) == Ok(u + [Pad, Pad, Pad, Pad])
  {
    assert Padded(u, 255) == u + [Pad, Pad, Pad, Pad];
  }

  /** The empty file "a.to" encoded at width 255: the code bytes 0x51 0x91, length 2, width
      0xFF, and four 0xFF bytes of padding. */
  lemma EmptyATo()
    ensures Encode([], "a.to", DefaultTable, 255) == Ok([0x51, 0x91, 0x02, 0xFF, Pad, Pad, Pad, Pad])
  {
    EmptyAToOf([]);
  }

  /** `EmptyATo` with the (empty) content named, so that the proof reasons about the
      encoder's layout rather than evaluating it on literal arguments. */
  lemma EmptyAToOf(content: seq<byte>)
    requires content == []
    ensures Encode(content, "a.to", DefaultTable, 255) == Ok([0x51, 0x91, 0x02, 0xFF, Pad, Pad, Pad, Pad])
  {
    assert Extension("a.to") == Some("to");
    ToUnpadded(content, "a.to", 255);
    FourBytesAtWidthFF(content, "a.to", DefaultTable, content + [0x51, 0x91, 0x02, 0xFF]);
    assert content + [0x51, 0x91, 0x02, 0xFF] + [Pad, Pad, Pad, Pad] == [0x51, 0x91, 0x02, 0xFF, Pad, Pad, Pad, Pad];
  }

  /** The payload of the empty "a.to" at width 255 read back with a reported width of 2:
      the scan stops on the length byte 2, which passes the width check, so 0x91 is taken
      for the length and 0x51 for the only code byte, and the script recovers an empty
      file named "t". */
  lemma WidthFFMisdecodes()
    ensures Encode([], "a.to", DefaultTable, 255) == Ok([0x51, 0x91, 0x02, 0xFF, Pad, Pad, Pad, Pad])
    ensures Decode([0x51, 0x91, 0x02, 0xFF, Pad, Pad, Pad, Pad], 2, DefaultTable) == Ok(Decoded([], "t"))
  {
    WidthFFMisdecodesOf([]);
  }

  /** `WidthFFMisdecodes` with the (empty) content named, for the same reason as
      `EmptyAToOf`. */
  lemma WidthFFMisdecodesOf(content: seq<byte>)
    requires content == []
    ensures Encode(content, "a.to", DefaultTable, 255) == Ok([0x51, 0x91, 0x02, 0xFF, Pad, Pad, Pad, Pad])
    ensures Decode([0x51, 0x91, 0x02, 0xFF, Pad, Pad, Pad, Pad], 2, DefaultTable) == Ok(Decoded(content, "t"))
  {
    EmptyAToOf(content);
    MisdecodedFrames();
  }

  /** The decoding half of the width-0xFF scenario, on the frames alone. */
  lemma MisdecodedFrames()
    ensures Decode([0x51, 0x91, 0x02, 0xFF, Pad, Pad, Pad, Pad], 2, DefaultTable) == Ok(Decoded([], "t"))
  {
    var frames: seq<byte> := [0x51, 0x91, 0x02, 0xFF, Pad, Pad, Pad, Pad];
    MarkerSkipsPadding([0x51, 0x91, 0x02], 5);
    assert [0x51, 0x91, 0x02] + seq(5, _ => Pad) == frames;
    assert MarkerIndex(frames) == 2;
    assert CodeStart(2, frames[1]) == 0;
    assert frames[0..1] == [0x51] && frames[..0] == [];
    T51Decodes();
  }
}
