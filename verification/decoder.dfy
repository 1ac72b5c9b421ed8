/** The trailer decoder: the part of `decode_file` that takes the frame bytes and sample
    width read back from the WAV file and recovers the file's bytes and extension. Reading
    the WAV file and writing `output.<extension>` are replaced by parameters and the result. */
module Decoder {
  import opened Outcomes
  import opened Bytes
  import opened Codes

  /** Why nothing is recovered. */
  datatype DecodeError =
    | NoFrames                             // no frames: `last_byte` is never assigned
    | Mismatch(expected: int, actual: int) // 'wav sample width modified!': the script returns None
    | NoLengthByte                         // `frames[-2-i]` falls off the front: IndexError
    | NotDecimal(b: byte)                  // `int()` of a hex pair holding a..f: ValueError
    | UnknownCode(code: int)               // `get_key_from_value` gives None: '' + None is a TypeError

  /** What the script writes out: the recovered content, under `output.<extension>`. */
  datatype Decoded = Decoded(content: seq<byte>, extension: string)

  /** Where the backward scan over the frames stops: the last byte below 0xFF, or the first
      byte when every byte is 0xFF (the loop then runs out with `i == len(frames) - 1`). */
  function MarkerIndex(frames: seq<byte>): (p: nat)
    requires 0 < |frames|
    ensures p < |frames|
    ensures forall k :: p < k < |frames| ==> frames[k] == Pad
    ensures frames[p] != Pad || p == 0
    decreases |frames|
  {
    if |frames| == 1 || frames[|frames| - 1] != Pad then |frames| - 1
    else MarkerIndex(frames[..|frames| - 1])
  }

  /** `[int(ext[i:i+2]) for i in range(0, len(ext), 2)]` over `ext = code_bytes.hex()`: each
      byte's two hexadecimal digits read as a decimal number; the first byte holding a digit
      a..f decides the error. */
  function CodeValues(bs: seq<byte>): (r: Outcome<seq<int>, DecodeError>)
    ensures r.Ok? <==> forall k :: 0 <= k < |bs| ==> DecimalOfHex(bs[k]).Some?
    ensures r.Ok? ==> |r.value| == |bs| && forall k :: 0 <= k < |bs| ==> DecimalOfHex(bs[k]) == Some(r.value[k])
    ensures r.Fail? ==>
      exists k :: (0 <= k < |bs| && r.error == NotDecimal(bs[k])
                   && DecimalOfHex(bs[k]).None? && forall j :: 0 <= j < k ==> DecimalOfHex(bs[j]).Some?)
  {
    if |bs| == 0 then Ok([])
    else
      assert forall k :: 1 <= k < |bs| ==> bs[k] == bs[1..][k - 1];
      match DecimalOfHex(bs[0])
      case None => Fail(NotDecimal(bs[0]))
      case Some(v) =>
        match CodeValues(bs[1..])
        case Fail(e) =>
          assert exists k :: (0 <= k < |bs[1..]| && e == NotDecimal(bs[1..][k])
                              && DecimalOfHex(bs[1..][k]).None? && forall j :: 0 <= j < k ==> DecimalOfHex(bs[1..][j]).Some?);
          Fail(e)
        case Ok(vs) => Ok([v] + vs)
  }

  /** The loop `file_extension += get_key_from_value(code, char)`: the keys of the codes
      concatenated in order; the first code no key has decides the error. With one-character
      keys, character k of the result is the first key holding code k. */
  function KeysFor(t: CodeTable, codes: seq<int>): (r: Outcome<string, DecodeError>)
    ensures r.Ok? <==> forall k :: 0 <= k < |codes| ==> KeyFor(t, codes[k]).Some?
    ensures r.Fail? ==>
      exists k :: (0 <= k < |codes| && r.error == UnknownCode(codes[k])
                   && KeyFor(t, codes[k]).None? && forall j :: 0 <= j < k ==> KeyFor(t, codes[j]).Some?)
    ensures r.Ok? && SingleCharKeys(t) ==>
      |r.value| == |codes| && forall k :: 0 <= k < |codes| ==> [r.value[k]] == KeyFor(t, codes[k]).value
  {
    if |codes| == 0 then Ok("")
    else
      assert forall k :: 1 <= k < |codes| ==> codes[k] == codes[1..][k - 1];
      match KeyFor(t, codes[0])
      case None => Fail(UnknownCode(codes[0]))
      case Some(key) =>
        match KeysFor(t, codes[1..])
        case Fail(e) =>
          assert exists k :: (0 <= k < |codes[1..]| && e == UnknownCode(codes[1..][k])
                              && KeyFor(t, codes[1..][k]).None? && forall j :: 0 <= j < k ==> KeyFor(t, codes[1..][j]).Some?);
          Fail(e)
        case Ok(rest) =>
          FoundKeyLength(t, codes[0]);
          assert |key| == 1 ==> [(key + rest)[0]] == key
                                && forall k :: 1 <= k < |key + rest| ==> (key + rest)[k] == rest[k - 1];
          Ok(key + rest)
  }

  /** A key found by the reverse lookup is one of the table's keys, so it has one character
      when they all do. */
  lemma FoundKeyLength(t: CodeTable, code: int)
    requires KeyFor(t, code).Some?
    ensures SingleCharKeys(t) ==> |KeyFor(t, code).value| == 1
  {
    var i :| 0 <= i < |t| && t[i] == (KeyFor(t, code).value, code) && forall j :: 0 <= j < i ==> t[j].1 != code;
  }

  /** The extension spelled by the code bytes: all bytes are read as numbers first, then
      every number is looked up. With one-character keys, character k of the result is the
      first key holding the number byte k reads as. */
  function ExtensionOf(t: CodeTable, bs: seq<byte>): (r: Outcome<string, DecodeError>)
    ensures r.Ok? <==>
      forall k :: 0 <= k < |bs| ==> DecimalOfHex(bs[k]).Some? && KeyFor(t, DecimalOfHex(bs[k]).value).Some?
    ensures r.Fail? ==> r.error.NotDecimal? || r.error.UnknownCode?
    ensures (exists k :: 0 <= k < |bs| && DecimalOfHex(bs[k]).None?) ==>
      exists k :: (0 <= k < |bs| && r == Fail(NotDecimal(bs[k]))
                   && DecimalOfHex(bs[k]).None? && forall j :: 0 <= j < k ==> DecimalOfHex(bs[j]).Some?)
    ensures (forall k :: 0 <= k < |bs| ==> DecimalOfHex(bs[k]).Some?) && r.Fail? ==>
      exists k :: (0 <= k < |bs| && r.error == UnknownCode(DecimalOfHex(bs[k]).value)
                   && KeyFor(t, DecimalOfHex(bs[k]).value).None?
                   && forall j :: 0 <= j < k ==> KeyFor(t, DecimalOfHex(bs[j]).value).Some?)
    ensures r.Ok? && SingleCharKeys(t) ==>
      |r.value| == |bs| && forall k :: 0 <= k < |bs| ==> [r.value[k]] == KeyFor(t, DecimalOfHex(bs[k]).value).value
  {
    match CodeValues(bs)
    case Fail(e) => Fail(e)
    case Ok(codes) =>
      assert forall k :: 0 <= k < |bs| ==> DecimalOfHex(bs[k]).value == codes[k];
      KeysFor(t, codes)
  }

  /** Where the code bytes begin: `n` bytes before the length byte at `p - 1`, or the front
      of the frames when there are fewer; Python clamps the negative slice bound there. */
  function CodeStart(p: nat, n: nat): (s: nat)
    requires 1 <= p
    ensures s <= p - 1
    ensures s == p - 1 - n || (s == 0 && p - 1 < n)
  {
    if n <= p - 1 then p - 1 - n else 0
  }

  /** What follows the width check: the length byte before the marker, the code bytes
      before it, and everything in front of them as the content. */
  function ReadTrailer(frames: seq<byte>, p: nat, t: CodeTable): (r: Outcome<Decoded, DecodeError>)
    requires 1 <= p < |frames|
    ensures r.Ok? <==> ExtensionOf(t, frames[CodeStart(p, frames[p - 1])..p - 1]).Ok?
    ensures r.Fail? ==> r.error == ExtensionOf(t, frames[CodeStart(p, frames[p - 1])..p - 1]).error
    ensures r.Fail? ==> r.error.NotDecimal? || r.error.UnknownCode?
    ensures r.Ok? ==>
      && |r.value.content| <= p - 1
      && r.value.content == frames[..|r.value.content|]
      && p - 1 - |r.value.content| <= frames[p - 1]
      && (0 < |r.value.content| ==> p - 1 - |r.value.content| == frames[p - 1])
      && ExtensionOf(t, frames[|r.value.content|..p - 1]) == Ok(r.value.extension)
  {
    var start := CodeStart(p, frames[p - 1]);
    match ExtensionOf(t, frames[start..p - 1])
    case Fail(e) => Fail(e)
    case Ok(ext) => Ok(Decoded(frames[..start], ext))
  }

  /** The trailer-parsing part of `decode_file`, with the frames and the sample width the
      WAV file reports given as parameters. */
  function Decode(frames: seq<byte>, width: int, t: CodeTable): (r: Outcome<Decoded, DecodeError>)
    ensures r == Fail(NoFrames) <==> |frames| == 0
    ensures 0 < |frames| ==>
      ((r.Fail? && r.error.Mismatch?) <==> frames[MarkerIndex(frames)] != width)
    ensures r.Fail? && r.error.Mismatch? ==>
      0 < |frames| && r.error == Mismatch(frames[MarkerIndex(frames)], width)
    ensures r == Fail(NoLengthByte) <==>
      0 < |frames| && frames[MarkerIndex(frames)] == width && MarkerIndex(frames) == 0
    ensures 0 < |frames| && 1 <= MarkerIndex(frames) && frames[MarkerIndex(frames)] == width ==>
      (r.Ok? <==> ExtensionOf(t, frames[CodeStart(MarkerIndex(frames), frames[MarkerIndex(frames) - 1])..MarkerIndex(frames) - 1]).Ok?)
    ensures 0 < |frames| && 1 <= MarkerIndex(frames) && frames[MarkerIndex(frames)] == width && r.Fail? ==>
      r.error == ExtensionOf(t, frames[CodeStart(MarkerIndex(frames), frames[MarkerIndex(frames) - 1])..MarkerIndex(frames) - 1]).error
    ensures r.Ok? ==>
      && 0 < |frames|
      && 1 <= MarkerIndex(frames)
      && frames[MarkerIndex(frames)] == width
      && |r.value.content| <= MarkerIndex(frames) - 1
      && r.value.content == frames[..|r.value.content|]
      && MarkerIndex(frames) - 1 - |r.value.content| <= frames[MarkerIndex(frames) - 1]
      && (0 < |r.value.content| ==> MarkerIndex(frames) - 1 - |r.value.content| == frames[MarkerIndex(frames) - 1])
      && ExtensionOf(t, frames[|r.value.content|..MarkerIndex(frames) - 1]) == Ok(r.value.extension)
  {
    if |frames| == 0 then Fail(NoFrames)
    else
      var p := MarkerIndex(frames);
      if frames[p] != width then Fail(Mismatch(frames[p], width))
      else if p == 0 then Fail(NoLengthByte)
      else ReadTrailer(frames, p, t)
  }
}
