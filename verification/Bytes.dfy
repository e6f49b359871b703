// Bytes, byte-per-character text and hexadecimal digits.
module Bytes {
  newtype Byte = x: int | 0 <= x < 256

  type Bytes = seq<Byte>

  const SPACE: Byte := 32

  // A text whose characters all fit a byte.
  predicate Latin1(s: string) {
    forall i | 0 <= i < |s| :: s[i] as int < 256
  }

  predicate Ascii(s: string) {
    forall i | 0 <= i < |s| :: s[i] as int < 128
  }

  function Encode(s: string): (b: Bytes)
    requires Latin1(s)
    ensures |b| == |s|
  {
    seq(|s|, i requires 0 <= i < |s| => s[i] as int as Byte)
  }

  // One character per byte.
  function Decode(b: Bytes): (s: string)
    ensures |s| == |b| && Latin1(s)
  {
    seq(|b|, i requires 0 <= i < |b| => b[i] as int as char)
  }

  lemma DecodeEncode(s: string)
    requires Latin1(s)
    ensures Decode(Encode(s)) == s
  {}

  // ---- hex --------------------------------------------------------------------------

  function HexDigit(d: int): (c: Byte)
    requires 0 <= d < 16
    ensures IsHex(c) && HexValue(c) == d
  {
    if d < 10 then (48 + d) as Byte else (87 + d) as Byte
  }

  predicate IsHex(c: Byte) { 48 <= c <= 57 || 65 <= c <= 70 || 97 <= c <= 102 }

  function HexValue(c: Byte): (d: int)
    requires IsHex(c)
    ensures 0 <= d < 16
  {
    if c <= 57 then c as int - 48 else if c <= 70 then c as int - 55 else c as int - 87
  }

  // Equal, or the upper and lower case of one hex letter.
  predicate SameUpToHexCase(a: Byte, b: Byte) {
    a == b || (65 <= a <= 70 && b as int == a as int + 32)
  }

  lemma HexDigitOfValue(c: Byte)
    requires IsHex(c)
    ensures SameUpToHexCase(c, HexDigit(HexValue(c)))
  {}
}
