/** What the trailer format guarantees when the encoder and the decoder are put together:
    the round trip, the sample-width check, and the degenerate cases the format keeps. */
module Properties {
  import opened Outcomes
  import opened Bytes
  import opened Codes
  import opened Encoder
  import opened Decoder

  /** The decoder's scan skips exactly the padding: it stops on the last byte before it. */
  lemma MarkerSkipsPadding(u: seq<byte>, k: nat)
    requires 0 < |u| && u[|u| - 1] != Pad
    ensures MarkerIndex(u + seq(k, _ => Pad)) == |u| - 1
  {
    var f := u + seq(k, _ => Pad);
    assert f[|u| - 1] == u[|u| - 1];
    assert forall i :: |u| <= i < |f| ==> f[i] == Pad;
  }

  /** The codes of the characters of an extension, in order. */
  ghost function CodesOf(t: CodeTable, ext: string): (codes: seq<int>)
    requires Encodable(t, ext)
    ensures |codes| == |ext|
    ensures forall k :: 0 <= k < |ext| ==> Lookup(t, [ext[k]]) == Some(codes[k])
  {
    seq(|ext|, k requires 0 <= k < |ext| => Lookup(t, [ext[k]]).value)
  }

  /** With two-digit codes, every character that has a key is written as one byte, and the
      bytes read back as the characters' codes. */
  lemma ExtensionBytesReadBack(t: CodeTable, ext: string)
    requires TwoDigitCodes(t) && Encodable(t, ext)
    ensures ExtensionBytes(t, ext).Ok?
    ensures |ExtensionBytes(t, ext).value| == |ext|
    ensures CodeValues(ExtensionBytes(t, ext).value) == Ok(CodesOf(t, ext))
  {
    forall k | 0 <= k < |ext|
      ensures CharBytes(t, ext[k]).Ok?
    {
      TwoDigitCodeByte(t, ext[k]);
      TwoDigitCodeRoundTrip(Lookup(t, [ext[k]]).value);
    }
    var bs := ExtensionBytes(t, ext).value;
    var vs := CodeValues(bs).value;
    var cs := CodesOf(t, ext);
    forall k | 0 <= k < |ext|
      ensures vs[k] == cs[k]
    {
      assert DecimalOfHex(bs[k]) == Some(vs[k]);
      assert DecimalOfHex(bs[k]) == Lookup(t, [ext[k]]) == Some(cs[k]);
    }
    assert vs == cs;
  }

  /** In a table where no two keys share a code, looking up the codes of an extension's
      characters spells the extension again. */
  lemma {:induction false} KeysSpellExtension(t: CodeTable, ext: string, codes: seq<int>)
    requires Injective(t)
    requires |codes| == |ext|
    requires forall k :: 0 <= k < |ext| ==> Lookup(t, [ext[k]]) == Some(codes[k])
    ensures KeysFor(t, codes) == Ok(ext)
    decreases |ext|
  {
    if |ext| > 0 {
      KeyForInvertsLookup(t, [ext[0]]);
      assert KeyFor(t, codes[0]) == Some([ext[0]]);
      assert forall k :: 0 <= k < |ext[1..]| ==> ext[1..][k] == ext[k + 1] && codes[1..][k] == codes[k + 1];
      KeysSpellExtension(t, ext[1..], codes[1..]);
      assert [ext[0]] + ext[1..] == ext;
    }
  }

  /** The code bytes of an extension, in a well-formed table, decode back to the extension. */
  lemma ExtensionReadsBack(t: CodeTable, ext: string)
    requires Injective(t) && TwoDigitCodes(t) && Encodable(t, ext)
    ensures ExtensionBytes(t, ext).Ok?
    ensures ExtensionOf(t, ExtensionBytes(t, ext).value) == Ok(ext)
  {
    ExtensionBytesReadBack(t, ext);
    KeysSpellExtension(t, ext, CodesOf(t, ext));
  }

  /** Decoding any trailer of the encoder's shape, followed by any amount of padding, gives
      back the content and the extension, provided the width byte is not the padding byte
      and the length byte counts the code bytes. */
  lemma DecodeTrailer(content: seq<byte>, codes: seq<byte>, width: byte, k: nat, t: CodeTable, ext: string)
    requires width != Pad
    requires |codes| < 50
    requires ExtensionOf(t, codes) == Ok(ext)
    ensures Decode(content + codes + [|codes|, width] + seq(k, _ => Pad), width, t) == Ok(Decoded(content, ext))
  {
    var u := content + codes + [|codes|, width];
    var frames := u + seq(k, _ => Pad);
    MarkerSkipsPadding(u, k);
    var p := |u| - 1;
    assert frames[p] == width && frames[p - 1] == |codes|;
    assert CodeStart(p, frames[p - 1]) == |content|;
    assert frames[|content|..p - 1] == codes;
    assert frames[..|content|] == content;
  }

  /** A successful unpadded payload is content, code bytes, length byte and width byte. */
  lemma UnpaddedLayout(content: seq<byte>, path: string, t: CodeTable, width: int)
    requires Unpadded(content, path, t, width).Ok?
    ensures ExtensionBytes(t, Extension(path).value).Ok?
    ensures Unpadded(content, path, t, width).value
      == content + ExtensionBytes(t, Extension(path).value).value + [LengthByte(|Extension(path).value|), width]
  {
    var u := Unpadded(content, path, t, width).value;
    assert u == u[..|content|] + u[|content|..|u| - 2] + [u[|u| - 2], u[|u| - 1]];
  }

  /** The conditions under which the round trip holds: the path has a '.', its extension is
      shorter than 50 characters and every character has a key, the table's codes are
      distinct two-digit numbers, and the width is a byte other than 0 and 0xFF. */
  ghost predicate RoundTripConditions(path: string, t: CodeTable, width: int)
  {
    && '.' in path
    && |Extension(path).value| < 50
    && Encodable(t, Extension(path).value)
    && Injective(t) && TwoDigitCodes(t)
    && 1 <= width <= 254
  }

  /** The unpadded payload of a well-formed encoding is content, code bytes, length byte
      and width byte. */
  lemma UnpaddedShape(content: seq<byte>, path: string, t: CodeTable, width: int)
    requires RoundTripConditions(path, t, width)
    ensures Unpadded(content, path, t, width).Ok?
    ensures Unpadded(content, path, t, width).value
      == content + ExtensionBytes(t, Extension(path).value).value + [|Extension(path).value|, width]
    ensures ExtensionOf(t, ExtensionBytes(t, Extension(path).value).value) == Ok(Extension(path).value)
  {
    var ext := Extension(path).value;
    ExtensionReadsBack(t, ext);
    ExtensionBytesReadBack(t, ext);
    UnpaddedLayout(content, path, t, width);
  }

  /** Round trip: decoding an encoded payload with the width it was encoded with gives back
      the file's bytes and its extension. */
  lemma RoundTrip(content: seq<byte>, path: string, t: CodeTable, width: int)
    requires RoundTripConditions(path, t, width)
    ensures Encode(content, path, t, width).Ok?
    ensures Decode(Encode(content, path, t, width).value, width, t)
      == Ok(Decoded(content, Extension(path).value))
  {
    var ext := Extension(path).value;
    UnpaddedShape(content, path, t, width);
    var u := Unpadded(content, path, t, width).value;
    var codes := ExtensionBytes(t, ext).value;
    assert Padded(u, width) == u + seq(|u| % width, _ => Pad);
    DecodeTrailer(content, codes, width, |u| % width, t, ext);
  }

  /** The round trip holds for the aligned encoder too. */
  lemma RoundTripAligned(content: seq<byte>, path: string, t: CodeTable, width: int)
    requires RoundTripConditions(path, t, width)
    ensures EncodeAligned(content, path, t, width).Ok?
    ensures Decode(EncodeAligned(content, path, t, width).value, width, t)
      == Ok(Decoded(content, Extension(path).value))
  {
    var ext := Extension(path).value;
    UnpaddedShape(content, path, t, width);
    var u := Unpadded(content, path, t, width).value;
    var codes := ExtensionBytes(t, ext).value;
    var r := EncodeAligned(content, path, t, width).value;
    AlignedPayloadIsPaddedTrailer(content, path, t, width);
    DecodeTrailer(content, codes, width, |r| - |u|, t, ext);
  }

  /** An aligned payload is its unpadded part followed by padding. */
  lemma AlignedPayloadIsPaddedTrailer(content: seq<byte>, path: string, t: CodeTable, width: int)
    requires EncodeAligned(content, path, t, width).Ok?
    ensures Unpadded(content, path, t, width).Ok?
    ensures var u := Unpadded(content, path, t, width).value;
      var r := EncodeAligned(content, path, t, width).value;
      |u| <= |r| && r == u + seq(|r| - |u|, _ => Pad)
  {
    var u := Unpadded(content, path, t, width).value;
    var r := AlignedPadded(u, width);
    assert r == u + seq(|r| - |u|, _ => Pad);
  }

  /** An encoded payload is its unpadded part followed by padding. */
  lemma PayloadIsPaddedTrailer(content: seq<byte>, path: string, t: CodeTable, width: int)
    requires Encode(content, path, t, width).Ok?
    ensures Unpadded(content, path, t, width).Ok?
    ensures var u := Unpadded(content, path, t, width).value;
      Encode(content, path, t, width).value == u + seq(|u| % width, _ => Pad)
  {
  }

  /** Tamper detection: decoding a payload encoded with width `width` (not 0xFF) while the
      WAV file reports any other width fails, naming `width` as the expected value. */
  lemma TamperDetected(content: seq<byte>, path: string, t: CodeTable, width: int, reported: int)
    requires Encode(content, path, t, width).Ok?
    requires width != 0xFF
    requires reported != width
    ensures Decode(Encode(content, path, t, width).value, reported, t) == Fail(Mismatch(width, reported))
  {
    PayloadIsPaddedTrailer(content, path, t, width);
    var u := Unpadded(content, path, t, width).value;
    MarkerSkipsPadding(u, |u| % width);
  }

  /** A payload encoded with width 0xFF has its width byte taken for padding: the scan stops
      on the length byte, so any reported width other than the length byte fails with that
      byte as the expected one, and a reported width equal to it gets past the check. */
  lemma WidthFFReadsLengthByteAsWidth(content: seq<byte>, path: string, t: CodeTable, reported: int)
    requires Encode(content, path, t, 0xFF).Ok?
    ensures var frames := Encode(content, path, t, 0xFF).value;
      frames[MarkerIndex(frames)] == LengthByte(|Extension(path).value|)
    ensures reported != LengthByte(|Extension(path).value|) ==>
      Decode(Encode(content, path, t, 0xFF).value, reported, t)
        == Fail(Mismatch(LengthByte(|Extension(path).value|), reported))
    ensures reported == LengthByte(|Extension(path).value|) ==>
      !Decode(Encode(content, path, t, 0xFF).value, reported, t).Fail?
      || !Decode(Encode(content, path, t, 0xFF).value, reported, t).error.Mismatch?
  {
    PayloadIsPaddedTrailer(content, path, t, 0xFF);
    var u := Unpadded(content, path, t, 0xFF).value;
    var front := u[..|u| - 1];
    var k := |u| % 0xFF;
    assert u + seq(k, _ => Pad) == front + seq(k + 1, _ => Pad);
    MarkerSkipsPadding(front, k + 1);
  }

  /** A payload encoded with width 0xFF never decodes with the width it was encoded with:
      the length byte, always below 50, is taken for the width byte. */
  lemma WidthFFNeverDecodes(content: seq<byte>, path: string, t: CodeTable)
    requires Encode(content, path, t, 0xFF).Ok?
    ensures Decode(Encode(content, path, t, 0xFF).value, 0xFF, t)
      == Fail(Mismatch(LengthByte(|Extension(path).value|), 0xFF))
  {
    WidthFFReadsLengthByteAsWidth(content, path, t, 0xFF);
  }

  /** An extension of 50 characters or more is recorded with length byte 0, so decoding
      recovers an empty extension and leaves the code bytes at the end of the content. */
  lemma LongExtensionLeaks(content: seq<byte>, path: string, t: CodeTable, width: int)
    requires '.' in path
    requires 50 <= |Extension(path).value|
    requires Encodable(t, Extension(path).value) && TwoDigitCodes(t)
    requires 1 <= width <= 254
    ensures Encode(content, path, t, width).Ok?
    ensures Decode(Encode(content, path, t, width).value, width, t)
      == Ok(Decoded(content + ExtensionBytes(t, Extension(path).value).value, ""))
  {
    var ext := Extension(path).value;
    ExtensionBytesReadBack(t, ext);
    var codes := ExtensionBytes(t, ext).value;
    LongExtensionUnpadded(content, path, t, width);
    var u := Unpadded(content, path, t, width).value;
    PayloadIsPaddedTrailer(content, path, t, width);
    assert ExtensionOf(t, []) == Ok("");
    DecodeTrailer(content + codes, [], width, |u| % width, t, "");
  }

  /** An extension of 50 or more characters gets the length byte 0, so no code bytes are
      kept for it and the trailer ends in 0 and the width. */
  lemma LongExtensionUnpadded(content: seq<byte>, path: string, t: CodeTable, width: int)
    requires '.' in path
    requires 50 <= |Extension(path).value|
    requires ExtensionBytes(t, Extension(path).value).Ok?
    requires 1 <= width <= 254
    ensures Unpadded(content, path, t, width)
      == Ok(content + ExtensionBytes(t, Extension(path).value).value + [] + [0, width])
  {
    UnpaddedLayout(content, path, t, width);
    var codes := ExtensionBytes(t, Extension(path).value).value;
    assert LengthByte(|Extension(path).value|) == 0;
    assert content + codes + [] == content + codes;
  }

  /** Frames made only of padding bytes: the scan stops on the first byte, so the check
      fails unless the reported width is 0xFF, and then there is no length byte. */
  lemma AllPaddingFrames(frames: seq<byte>, width: int, t: CodeTable)
    requires 0 < |frames|
    requires forall k :: 0 <= k < |frames| ==> frames[k] == Pad
    ensures width != 0xFF ==> Decode(frames, width, t) == Fail(Mismatch(0xFF, width))
    ensures width == 0xFF ==> Decode(frames, width, t) == Fail(NoLengthByte)
  {
    var p := MarkerIndex(frames);
    assert p == 0;
  }

  /** A character without a key stops the encoder, and with two-digit codes the error
      names the first such character of the extension. */
  lemma MissingKeyStopsEncoding(content: seq<byte>, path: string, t: CodeTable, width: int)
    requires '.' in path
    requires TwoDigitCodes(t)
    requires !Encodable(t, Extension(path).value)
    ensures exists k :: (0 <= k < |Extension(path).value|
                         && Encode(content, path, t, width) == Fail(UnknownCharacter(Extension(path).value[k]))
                         && Lookup(t, [Extension(path).value[k]]).None?
                         && forall j :: 0 <= j < k ==> Lookup(t, [Extension(path).value[j]]).Some?)
  {
    var ext := Extension(path).value;
    forall j | 0 <= j < |ext| && Lookup(t, [ext[j]]).Some?
      ensures CharBytes(t, ext[j]).Ok?
    {
      TwoDigitCodeByte(t, ext[j]);
      TwoDigitCodeRoundTrip(Lookup(t, [ext[j]]).value);
    }
    var r := ExtensionBytes(t, ext);
    var k :| 0 <= k < |ext| && CharBytes(t, ext[k]) == Fail(r.error)
      && forall j :: 0 <= j < k ==> CharBytes(t, ext[j]).Ok?;
    assert Lookup(t, [ext[k]]).None?;
  }
}
