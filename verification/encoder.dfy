/** The trailer encoder: the payload `encode_file` builds from a file's bytes, its path, a
    code table and a sample width. Reading the file is replaced by the `content` parameter. */
module Encoder {
  import opened Outcomes
  import opened Bytes
  import opened Codes

  /** Why no payload is produced. */
  datatype EncodeError =
    | NoExtension                          // no '.' in the path: the script returns '' instead
    | UnknownCharacter(ch: char)           // `code[char]` raises KeyError
    | InvalidCode(ch: char, code: int)     // `bytes.fromhex(str(code))` raises ValueError
    | WidthNotAByte(width: int)            // `sample_width.to_bytes(1, 'big')` raises OverflowError
    | ZeroWidth                            // `len(output) % sample_width` raises ZeroDivisionError

  /** `file_str[::-1].find('.')`: how many characters follow the last '.', or None when the
      path has no '.'. */
  function CharsAfterLastDot(path: string): (r: Option<nat>)
    ensures r.None? <==> '.' !in path
    ensures r.Some? ==> r.value < |path| && path[|path| - 1 - r.value] == '.'
    ensures r.Some? ==> forall k :: |path| - r.value <= k < |path| ==> path[k] != '.'
    decreases |path|
  {
    if |path| == 0 then None
    else if path[|path| - 1] == '.' then Some(0)
    else
      var front := path[..|path| - 1];
      assert path == front + [path[|path| - 1]];
      match CharsAfterLastDot(front)
      case None => None
      case Some(k) => Some(k + 1)
  }

  /** The extension: the text after the last '.' of the whole path (directories included),
      or None when the path has no '.'. */
  function Extension(path: string): (r: Option<string>)
    ensures r.None? <==> '.' !in path
    ensures r.Some? ==> |r.value| < |path| && path[|path| - |r.value| - 1] == '.'
    ensures r.Some? ==> path[|path| - |r.value|..] == r.value && '.' !in r.value
  {
    match CharsAfterLastDot(path)
    case None => None
    case Some(k) => Some(path[|path| - k..])
  }

  /** The byte recording the extension length: the length itself below 50, otherwise 0,
      the same byte as for an empty extension. */
  function LengthByte(n: nat): (b: byte)
    ensures b < 50
    ensures b == n || (b == 0 && 50 <= n)
  {
    if n < 50 then n else 0
  }

  /** The bytes `bytes.fromhex(str(code[ch]))` appends for one extension character. */
  function CharBytes(t: CodeTable, ch: char): (r: Outcome<seq<byte>, EncodeError>)
    ensures Lookup(t, [ch]).None? <==> r == Fail(UnknownCharacter(ch))
    ensures Lookup(t, [ch]).Some? ==>
      (r.Ok? <==> FromHexOfDecimal(Lookup(t, [ch]).value).Some?)
    ensures Lookup(t, [ch]).Some? && r.Fail? ==> r.error == InvalidCode(ch, Lookup(t, [ch]).value)
    ensures r.Ok? ==> Lookup(t, [ch]).Some? && FromHexOfDecimal(Lookup(t, [ch]).value) == Some(r.value)
    ensures r.Fail? ==> r.error.UnknownCharacter? || r.error.InvalidCode?
    ensures r.Ok? && 10 <= Lookup(t, [ch]).value < 100 ==>
      |r.value| == 1 && r.value[0] != Pad && DecimalOfHex(r.value[0]) == Lookup(t, [ch])
  {
    match Lookup(t, [ch])
    case None => Fail(UnknownCharacter(ch))
    case Some(code) =>
      match FromHexOfDecimal(code)
      case None => Fail(InvalidCode(ch, code))
      case Some(bs) =>
        if 10 <= code < 100 then TwoDigitCodeRoundTrip(code); Ok(bs) else Ok(bs)
  }

  /** Every character of `ext` has a key in the table. */
  ghost predicate Encodable(t: CodeTable, ext: string)
  {
    forall k :: 0 <= k < |ext| ==> Lookup(t, [ext[k]]).Some?
  }

  /** The code bytes of a whole extension, first character first; the first character that
      cannot be written decides the error. */
  function ExtensionBytes(t: CodeTable, ext: string): (r: Outcome<seq<byte>, EncodeError>)
    ensures r.Ok? <==> forall k :: 0 <= k < |ext| ==> CharBytes(t, ext[k]).Ok?
    ensures r.Fail? ==> r.error.UnknownCharacter? || r.error.InvalidCode?
    ensures r.Fail? ==>
      exists k :: (0 <= k < |ext| && CharBytes(t, ext[k]) == Fail(r.error)
                   && forall j :: 0 <= j < k ==> CharBytes(t, ext[j]).Ok?)
    ensures r.Ok? && TwoDigitCodes(t) ==>
      (|r.value| == |ext|
       && forall k :: 0 <= k < |ext| ==> r.value[k] != Pad && DecimalOfHex(r.value[k]) == Lookup(t, [ext[k]]))
  {
    if |ext| == 0 then Ok([])
    else
      assert forall k :: 1 <= k < |ext| ==> ext[k] == ext[1..][k - 1];
      match CharBytes(t, ext[0])
      case Fail(e) => Fail(e)
      case Ok(first) =>
        match ExtensionBytes(t, ext[1..])
        case Fail(e) =>
          LaterFailure(t, ext, e);
          Fail(e)
        case Ok(rest) =>
          ConsCodeBytes(t, ext, first, rest);
          Ok(first + rest)
  }

  /** When the first character can be written, the first failing character of the rest is
      the first failing character of the whole extension. */
  lemma LaterFailure(t: CodeTable, ext: string, e: EncodeError)
    requires 0 < |ext| && CharBytes(t, ext[0]).Ok?
    requires exists k :: (0 <= k < |ext[1..]| && CharBytes(t, ext[1..][k]) == Fail(e)
                          && forall j :: 0 <= j < k ==> CharBytes(t, ext[1..][j]).Ok?)
    ensures exists k :: (0 <= k < |ext| && CharBytes(t, ext[k]) == Fail(e)
                         && forall j :: 0 <= j < k ==> CharBytes(t, ext[j]).Ok?)
  {
    var k :| 0 <= k < |ext[1..]| && CharBytes(t, ext[1..][k]) == Fail(e)
             && forall j :: 0 <= j < k ==> CharBytes(t, ext[1..][j]).Ok?;
    assert ext[k + 1] == ext[1..][k];
    assert forall j :: 1 <= j < k + 1 ==> ext[j] == ext[1..][j - 1];
  }

  /** With two-digit codes, one byte for the first character in front of one byte for
      each later character gives one byte per character of the whole extension. */
  lemma ConsCodeBytes(t: CodeTable, ext: string, first: seq<byte>, rest: seq<byte>)
    requires 0 < |ext| && CharBytes(t, ext[0]) == Ok(first)
    requires TwoDigitCodes(t) ==>
      |rest| == |ext| - 1
      && forall k :: 0 <= k < |ext| - 1 ==> rest[k] != Pad && DecimalOfHex(rest[k]) == Lookup(t, [ext[1..][k]])
    ensures TwoDigitCodes(t) ==>
      |first + rest| == |ext|
      && forall k :: 0 <= k < |ext| ==> (first + rest)[k] != Pad && DecimalOfHex((first + rest)[k]) == Lookup(t, [ext[k]])
  {
    if TwoDigitCodes(t) {
      TwoDigitCodeByte(t, ext[0]);
      assert |first| == 1;
      forall k | 1 <= k < |ext|
        ensures (first + rest)[k] == rest[k - 1] && ext[k] == ext[1..][k - 1]
      {
      }
    }
  }

  /** With two-digit codes, a character that has a key is written as one byte. */
  lemma TwoDigitCodeByte(t: CodeTable, ch: char)
    ensures TwoDigitCodes(t) && Lookup(t, [ch]).Some? ==> 10 <= Lookup(t, [ch]).value < 100
  {
    if Lookup(t, [ch]).Some? {
      var i :| 0 <= i < |t| && t[i] == ([ch], Lookup(t, [ch]).value);
    }
  }

  /** The payload before padding: file bytes, extension code bytes, length byte and
      sample-width byte, or the first error the script would meet on the way. */
  function Unpadded(content: seq<byte>, path: string, t: CodeTable, width: int): (r: Outcome<seq<byte>, EncodeError>)
    ensures '.' !in path <==> r == Fail(NoExtension)
    ensures r.Ok? ==> 1 <= width < 256
    ensures r.Ok? ==> |r.value| >= |content| + 2 && r.value[..|content|] == content
    ensures r.Ok? ==> r.value[|r.value| - 1] == width
    ensures r.Ok? ==> r.value[|r.value| - 2] == LengthByte(|Extension(path).value|)
    ensures r.Ok? ==> ExtensionBytes(t, Extension(path).value) == Ok(r.value[|content|..|r.value| - 2])
    ensures '.' in path && ExtensionBytes(t, Extension(path).value).Fail? ==>
      r == ExtensionBytes(t, Extension(path).value)
    ensures '.' in path && ExtensionBytes(t, Extension(path).value).Ok? ==>
      && (r.Ok? <==> 1 <= width < 256)
      && (width == 0 ==> r == Fail(ZeroWidth))
      && (width < 0 || 256 <= width ==> r == Fail(WidthNotAByte(width)))
  {
    match Extension(path)
    case None => Fail(NoExtension)
    case Some(ext) =>
      match ExtensionBytes(t, ext)
      case Fail(e) => Fail(e)
      case Ok(codes) =>
        if width < 0 || 256 <= width then Fail(WidthNotAByte(width))
        else if width == 0 then Fail(ZeroWidth)
        else
          var u := content + codes + [LengthByte(|ext|), width];
          assert u[..|content|] == content;
          assert u[|content|..|u| - 2] == codes;
          assert u[|u| - 1] == width && u[|u| - 2] == LengthByte(|ext|);
          Ok(u)
  }

  /** `output += b'\xff' * (len(output) % sample_width)`: as many padding bytes as the
      remainder of the length, which is not in general what aligns the result. */
  function Padded(u: seq<byte>, width: nat): (r: seq<byte>)
    requires 0 < width
    ensures |r| == |u| + |u| % width
    ensures r[..|u|] == u
    ensures forall k :: |u| <= k < |r| ==> r[k] == Pad
  {
    u + seq(|u| % width, _ => Pad)
  }

  /** `encode_file`, with the file's bytes given as `content`. */
  function Encode(content: seq<byte>, path: string, t: CodeTable, width: int): (r: Outcome<seq<byte>, EncodeError>)
    ensures '.' !in path <==> r == Fail(NoExtension)
    ensures r.Ok? <==> Unpadded(content, path, t, width).Ok?
    ensures r.Ok? ==> 1 <= width < 256 && content <= r.value
    ensures r.Fail? ==> r == Unpadded(content, path, t, width)
  {
    match Unpadded(content, path, t, width)
    case Fail(e) => Fail(e)
    case Ok(u) =>
      var r := Padded(u, width);
      assert r[..|content|] == u[..|content|];
      Ok(r)
  }

  /** The padding appended is what makes the length a multiple of the width exactly when
      twice the remainder is a multiple of it. */
  lemma PaddedAlignment(u: seq<byte>, width: nat)
    requires 0 < width
    ensures |Padded(u, width)| % width == 0 <==> (2 * (|u| % width)) % width == 0
  {
    var q, m := |u| / width, |u| % width;
    var q2, m2 := (2 * m) / width, (2 * m) % width;
    assert |Padded(u, width)| == q * width + q2 * width + m2;
    assert q * width + q2 * width == (q + q2) * width;
    DivModUnique(|Padded(u, width)|, width, q + q2, m2);
  }

  /** Euclidean division: a quotient and a remainder below the divisor are the only ones. */
  lemma DivModUnique(n: int, width: int, q: int, m: int)
    requires 0 < width && 0 <= m < width && n == q * width + m
    ensures n / width == q && n % width == m
  {
    var q', m' := n / width, n % width;
    assert (q - q') * width == m' - m;
    if q' < q {
      assert (q - q') * width >= width by { MulAtLeast(q - q', width); }
    } else if q < q' {
      assert (q' - q) * width >= width by { MulAtLeast(q' - q, width); }
    }
  }

  /** A positive multiple of a positive width is at least the width. */
  lemma MulAtLeast(a: int, width: int)
    requires 1 <= a && 0 < width
    ensures a * width >= width
  {
    assert a * width == (a - 1) * width + width;
  }

  /** For sample widths 1 and 2 the padded payload is a whole number of frames. */
  lemma NarrowWidthsAlign(u: seq<byte>, width: nat)
    requires width == 1 || width == 2
    ensures |Padded(u, width)| % width == 0
  {
    PaddedAlignment(u, width);
  }

  /** For width 4 the payload is aligned only when the unpadded length is even. */
  lemma WidthFourAlignsOnEvenLengths(u: seq<byte>)
    ensures |Padded(u, 4)| % 4 == 0 <==> |u| % 2 == 0
  {
    PaddedAlignment(u, 4);
    var q, m := |u| / 4, |u| % 4;
    DivModUnique(|u|, 2, 2 * q + m / 2, m % 2);
  }

  /** The padding the script evidently intends: the fewest 0xFF bytes that make the length
      a multiple of the width. */
  function AlignedPadded(u: seq<byte>, width: nat): (r: seq<byte>)
    requires 0 < width
    ensures |r| % width == 0
    ensures |u| <= |r| < |u| + width
    ensures r[..|u|] == u
    ensures forall k :: |u| <= k < |r| ==> r[k] == Pad
  {
    var n := (width - |u| % width) % width;
    var r := u + seq(n, _ => Pad);
    AlignedLength(|u|, width);
    r
  }

  /** The corrected padding count brings any length to a multiple of the width. */
  lemma AlignedLength(n: nat, width: nat)
    requires 0 < width
    ensures (n + (width - n % width) % width) % width == 0
  {
    var q, m := n / width, n % width;
    if m == 0 {
      DivModUnique(width - m, width, 1, 0);
      DivModUnique(n, width, q, 0);
    } else {
      DivModUnique(width - m, width, 0, width - m);
      assert n + (width - m) == (q + 1) * width + 0;
      DivModUnique(n + (width - m), width, q + 1, 0);
    }
  }

  /** `encode_file` with the padding corrected to align the payload. */
  function EncodeAligned(content: seq<byte>, path: string, t: CodeTable, width: int): (r: Outcome<seq<byte>, EncodeError>)
    ensures r.Ok? <==> Encode(content, path, t, width).Ok?
    ensures r.Ok? ==> 1 <= width < 256 && content <= r.value && |r.value| % width == 0
  {
    match Unpadded(content, path, t, width)
    case Fail(e) => Fail(e)
    case Ok(u) =>
      var r := AlignedPadded(u, width);
      assert r[..|content|] == u[..|content|];
      Ok(r)
  }
}
