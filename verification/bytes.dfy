/** Bytes and the two conversions the trailer relies on: a decimal code written as the
    two hexadecimal nibbles of a byte (`bytes.fromhex(str(code))`), and a byte's two
    hexadecimal nibbles read back as a decimal number (`int(b.hex())`). */
module Bytes {
  import opened Outcomes

  /** One element of a Python `bytes` object. */
  type byte = x: int | 0 <= x < 256

  /** The padding byte; the decoder skips every trailing occurrence of it. */
  const Pad: byte := 0xFF

  /** The number a sequence of decimal digits denotes, most significant digit first. */
  function DecimalValue(ds: seq<nat>): nat
  {
    if |ds| == 0 then 0 else 10 * DecimalValue(ds[..|ds| - 1]) + ds[|ds| - 1]
  }

  /** The digits of Python's `str(n)` for a non-negative `n`: decimal digits denoting `n`,
      with no leading zero. */
  function Digits(n: nat): (ds: seq<nat>)
    ensures 1 <= |ds|
    ensures forall k :: 0 <= k < |ds| ==> ds[k] < 10
    ensures DecimalValue(ds) == n
    ensures |ds| == 1 || ds[0] != 0
    decreases n
  {
    if n < 10 then [n]
    else
      var ds := Digits(n / 10) + [n % 10];
      assert ds[..|ds| - 1] == Digits(n / 10);
      ds
  }

  /** `bytes.fromhex` of a string of decimal digits: every pair of digits becomes one byte
      whose high nibble is the first digit and whose low nibble is the second. */
  function PackPairs(ds: seq<nat>): (bs: seq<byte>)
    requires |ds| % 2 == 0
    requires forall k :: 0 <= k < |ds| ==> ds[k] < 10
    ensures |bs| == |ds| / 2
    ensures forall k :: 0 <= k < |bs| ==> bs[k] / 16 == ds[2 * k] && bs[k] % 16 == ds[2 * k + 1]
  {
    if |ds| == 0 then []
    else
      var rest := PackPairs(ds[2..]);
      var bs := [16 * ds[0] + ds[1]] + rest;
      assert forall k :: 1 <= k < |bs| ==> bs[k] == rest[k - 1] && ds[2 * k] == ds[2..][2 * (k - 1)];
      bs
  }

  /** `bytes.fromhex(str(code))`, or None where Python raises ValueError: a negative code
      (its '-' is not a hexadecimal digit) or a code with an odd number of decimal digits. */
  function FromHexOfDecimal(code: int): (r: Option<seq<byte>>)
    ensures r.Some? <==> 0 <= code && |Digits(code)| % 2 == 0
    ensures r.Some? ==> |r.value| == |Digits(code)| / 2
    ensures r.Some? ==> forall k :: 0 <= k < |r.value| ==> r.value[k] / 16 < 10 && r.value[k] % 16 < 10
    ensures r.Some? ==> forall k :: 0 <= k < |r.value| ==>
      r.value[k] / 16 == Digits(code)[2 * k] && r.value[k] % 16 == Digits(code)[2 * k + 1]
  {
    if code < 0 then None
    else
      var ds := Digits(code);
      if |ds| % 2 == 1 then None else Some(PackPairs(ds))
  }

  /** `int(b.hex())`: the two lower-case hexadecimal digits of `b` read as a decimal
      numeral, or None where Python raises ValueError (a digit among a..f). */
  function DecimalOfHex(b: byte): (r: Option<int>)
    ensures r.Some? <==> b / 16 < 10 && b % 16 < 10
    ensures r.Some? ==> 0 <= r.value < 100 && r.value / 10 == b / 16 && r.value % 10 == b % 16
  {
    if b / 16 < 10 && b % 16 < 10 then Some(10 * (b / 16) + b % 16) else None
  }

  /** A two-digit code is written as exactly one byte whose nibbles are the code's tens and
      ones digits; that byte is never the padding byte, and reading it back gives the code. */
  lemma TwoDigitCodeRoundTrip(code: int)
    requires 10 <= code < 100
    ensures FromHexOfDecimal(code).Some?
    ensures |FromHexOfDecimal(code).value| == 1
    ensures FromHexOfDecimal(code).value[0] / 16 == code / 10
    ensures FromHexOfDecimal(code).value[0] % 16 == code % 10
    ensures FromHexOfDecimal(code) == Some([16 * (code / 10) + code % 10])
    ensures FromHexOfDecimal(code).value[0] != Pad
    ensures DecimalOfHex(FromHexOfDecimal(code).value[0]) == Some(code)
  {
    var ds := Digits(code);
    assert Digits(code / 10) == [code / 10];
    assert ds == [code / 10, code % 10];
    var b := FromHexOfDecimal(code).value[0];
    assert b == 16 * (code / 10) + code % 10;
    assert FromHexOfDecimal(code).value == [b];
  }

  /** A four-digit code, such as a loaded code file may hold, is written as two bytes: the
      first two digits and the last two. */
  lemma FourDigitCodeTwoBytes()
    ensures FromHexOfDecimal(1234) == Some([0x12, 0x34])
  {
    assert Digits(1) == [1];
    assert Digits(12) == [1, 2];
    assert Digits(123) == [1, 2, 3];
    assert Digits(1234) == [1, 2, 3, 4];
    var bs := FromHexOfDecimal(1234).value;
    assert bs[0] == 16 * (bs[0] / 16) + bs[0] % 16;
    assert bs[1] == 16 * (bs[1] / 16) + bs[1] % 16;
    assert bs == [0x12, 0x34];
  }

  /** Codes with one or three decimal digits, and negative codes, cannot be written. */
  lemma OddLengthCodesRejected(code: int)
    requires code < 10 || 100 <= code < 1000
    ensures FromHexOfDecimal(code) == None
  {
    if 100 <= code {
      assert Digits(code / 10) == Digits(code / 100) + [code / 10 % 10];
      assert Digits(code / 100) == [code / 100];
      assert |Digits(code)| == 3;
    }
  }

  /** Conversely, every byte that reads back as a decimal number of two digits is the byte
      that number is written as. */
  lemma DecimalByteIsWrittenCode(b: byte)
    requires DecimalOfHex(b).Some?
    requires 16 <= b
    ensures 10 <= DecimalOfHex(b).value < 100
    ensures FromHexOfDecimal(DecimalOfHex(b).value) == Some([b])
  {
    var code := DecimalOfHex(b).value;
    TwoDigitCodeRoundTrip(code);
    var w := FromHexOfDecimal(code).value[0];
    assert w / 16 == b / 16 && w % 16 == b % 16;
    assert w == 16 * (w / 16) + w % 16;
    assert b == 16 * (b / 16) + b % 16;
    assert FromHexOfDecimal(code).value == [w] == [b];
  }
}
