// Text as the code units that the code compares and slices, and as the bytes that TextEncoder
// writes (the Unicode Standard, section 3.9, "Unicode Encoding Forms").
module Unicode {
  import opened Bytes

  newtype Unit = x: int | 0 <= x < 0x10000

  type Units = seq<Unit>

  // ---- UTF-16 -----------------------------------------------------------------------

  function UnitsOf(c: char): (u: Units)
    ensures 1 <= |u| <= 2
  {
    var n := c as int;
    if n < 0x10000 then [n as Unit] else [(0xd800 + (n - 0x10000) / 0x400) as Unit, (0xdc00 + n % 0x400) as Unit]
  }

  // UTF-16, section 2.1 of RFC 2781: a character is one unit, its number, or a high and a low surrogate
  // that carry ten bits each of what its number is past 0x10000.
  lemma UnitsCarry(c: char)
    ensures c as int < 0x10000 ==> UnitsOf(c) == [c as int as Unit]
    ensures c as int >= 0x10000 ==>
      var u := UnitsOf(c);
      && |u| == 2 && 0xd800 <= u[0] < 0xdc00 <= u[1] < 0xe000
      && 0x10000 + 0x400 * (u[0] as int - 0xd800) + (u[1] as int - 0xdc00) == c as int
  {}

  function Utf16(s: string): Units { if s == "" then [] else UnitsOf(s[0]) + Utf16(s[1..]) }

  lemma {:induction false} Utf16Concat(s: string, t: string)
    ensures Utf16(s + t) == Utf16(s) + Utf16(t)
  {
    hide UnitsOf;
    if s == "" {
      assert s + t == t;
    } else {
      assert (s + t)[1..] == s[1..] + t;
      Utf16Concat(s[1..], t);
    }
  }

  // Where a character stands among all characters when code units are compared: the ones that
  // take two units come before the last ones that take one.
  function Rank(c: char): int { if LateUnit(c) then c as int + 0x110000 else c as int }

  predicate LateUnit(c: char) { 0xe000 <= c as int < 0x10000 }

  predicate TwoUnits(c: char) { 0x10000 <= c as int }

  predicate UnitsLess(a: Units, b: Units) {
    b != [] && (a == [] || a[0] < b[0] || (a[0] == b[0] && UnitsLess(a[1..], b[1..])))
  }

  lemma UnitsByRank(c: char, d: char, x: Units, y: Units)
    requires c != d
    ensures UnitsLess(UnitsOf(c) + x, UnitsOf(d) + y) <==> Rank(c) < Rank(d)
  {
    var a, b := UnitsOf(c) + x, UnitsOf(d) + y;
    if TwoUnits(c) && TwoUnits(d) {
      assert a[0] == UnitsOf(c)[0] && a[1..][0] == UnitsOf(c)[1];
      assert b[0] == UnitsOf(d)[0] && b[1..][0] == UnitsOf(d)[1];
    } else {
      assert a[0] == UnitsOf(c)[0] && b[0] == UnitsOf(d)[0];
    }
  }

  lemma UnitsAfter(c: char, x: Units, y: Units)
    ensures UnitsLess(UnitsOf(c) + x, UnitsOf(c) + y) <==> UnitsLess(x, y)
  {
    var a, b, u := UnitsOf(c) + x, UnitsOf(c) + y, UnitsOf(c);
    if TwoUnits(c) {
      assert a[1..][1..] == x && b[1..][1..] == y;
      assert a[1..][0] == u[1] && b[1..][0] == u[1];
    } else {
      assert a[1..] == x && b[1..] == y;
    }
  }

  // Whatever precedes the first difference does not matter, and then the ranks decide.
  lemma Utf16Step(a: string, b: string)
    requires a != "" && b != ""
    ensures UnitsLess(Utf16(a), Utf16(b)) <==> if a[0] == b[0] then UnitsLess(Utf16(a[1..]), Utf16(b[1..])) else Rank(a[0]) < Rank(b[0])
  {
    hide UnitsLess, UnitsOf, Rank;
    if a[0] == b[0] {
      UnitsAfter(a[0], Utf16(a[1..]), Utf16(b[1..]));
    } else {
      UnitsByRank(a[0], b[0], Utf16(a[1..]), Utf16(b[1..]));
    }
  }

  lemma Utf16Ends(a: string)
    ensures !UnitsLess(Utf16(a), Utf16("")) && (UnitsLess(Utf16(""), Utf16(a)) <==> a != "")
  {}

  // ---- UTF-8 ------------------------------------------------------------------------

  function BytesOf(c: char): (b: Bytes)
    ensures 1 <= |b| <= 4
  {
    var n := c as int;
    if n < 0x80 then [n as Byte]
    else if n < 0x800 then [(0xc0 + n / 64) as Byte, (0x80 + n % 64) as Byte]
    else if n < 0x10000 then [(0xe0 + n / 64 / 64) as Byte, (0x80 + n / 64 % 64) as Byte, (0x80 + n % 64) as Byte]
    else [(0xf0 + n / 64 / 64 / 64) as Byte, (0x80 + n / 64 / 64 % 64) as Byte, (0x80 + n / 64 % 64) as Byte, (0x80 + n % 64) as Byte]
  }

  // UTF-8, section 3 of RFC 3629: the bytes are as few as can hold the character's number, each says
  // where it stands, and put together their payloads are that number.
  lemma EncodedShortest(c: char)
    ensures var b, n := BytesOf(c), c as int;
      && (|b| == 1 <==> n < 0x80) && (|b| == 2 <==> 0x80 <= n < 0x800)
      && (|b| == 3 <==> 0x800 <= n < 0x10000) && (|b| == 4 <==> 0x10000 <= n)
    ensures forall k | 1 <= k < |BytesOf(c)| :: 0x80 <= BytesOf(c)[k] < 0xc0
    ensures var lead := BytesOf(c)[0];
      match |BytesOf(c)|
      case 1 => lead < 0x80 && Payload(c, 0) == c as int
      case 2 => 0xc0 <= lead < 0xe0 && Payload(c, 0xc0) == c as int
      case 3 => 0xe0 <= lead < 0xf0 && Payload(c, 0xe0) == c as int
      case _ => 0xf0 <= lead && Payload(c, 0xf0) == c as int
  {
    var n := c as int;
    assert n / 4096 == n / 64 / 64 && n / 262144 == n / 4096 / 64;
  }

  // The bits that a character's bytes carry, its first byte being marked by a tag.
  function Payload(c: char, tag: int): int {
    var b := BytesOf(c);
    var first := b[0] as int - tag;
    if |b| == 1 then first
    else if |b| == 2 then 64 * first + (b[1] as int - 0x80)
    else if |b| == 3 then 64 * (64 * first + (b[1] as int - 0x80)) + (b[2] as int - 0x80)
    else 64 * (64 * (64 * first + (b[1] as int - 0x80)) + (b[2] as int - 0x80)) + (b[3] as int - 0x80)
  }

  function Utf8(s: string): Bytes { if s == "" then [] else BytesOf(s[0]) + Utf8(s[1..]) }

  lemma {:induction false} Utf8Concat(s: string, t: string)
    ensures Utf8(s + t) == Utf8(s) + Utf8(t)
  {
    hide BytesOf;
    if s == "" {
      assert s + t == t;
    } else {
      assert (s + t)[1..] == s[1..] + t;
      Utf8Concat(s[1..], t);
    }
  }

  // ASCII text is its own bytes.
  lemma {:induction false} Utf8Ascii(s: string)
    requires Ascii(s)
    ensures Utf8(s) == Encode(s)
  {
    if s != "" { Utf8Ascii(s[1..]); }
  }

  lemma Digits(m: nat, n: nat)
    ensures m < n <==> m / 64 < n / 64 || (m / 64 == n / 64 && m % 64 < n % 64)
  {}

  // Where the bytes of two characters first differ, and that the order there is the characters'.
  lemma BytesDiffer(c: char, d: char) returns (k: nat)
    requires c < d
    ensures k < |BytesOf(c)| && k < |BytesOf(d)| && BytesOf(c)[..k] == BytesOf(d)[..k] && BytesOf(c)[k] < BytesOf(d)[k]
  {
    if |BytesOf(c)| == |BytesOf(d)| {
      k := SameLengthDiffer(c, d);
    } else {
      Leads(c, d);
      k := 0;
    }
  }

  lemma SameLengthDiffer(c: char, d: char) returns (k: nat)
    requires c < d && |BytesOf(c)| == |BytesOf(d)|
    ensures k < |BytesOf(c)| && BytesOf(c)[..k] == BytesOf(d)[..k] && BytesOf(c)[k] < BytesOf(d)[k]
  {
    var m, n, last := c as int, d as int, |BytesOf(c)| - 1;
    Digits(m, n);
    Digits(m / 64, n / 64);
    Digits(m / 64 / 64, n / 64 / 64);
    k := if last >= 1 && m / 64 < n / 64 then
           if last >= 2 && m / 64 / 64 < n / 64 / 64 then
             if last >= 3 && m / 64 / 64 / 64 < n / 64 / 64 / 64 then last - 3 else last - 2
           else last - 1
         else last;
  }

  lemma Leads(c: char, d: char)
    requires c < d && |BytesOf(c)| != |BytesOf(d)|
    ensures BytesOf(c)[0] < BytesOf(d)[0]
  {}

  // Only NUL and the other ASCII characters give bytes below 128.
  lemma AsciiByte(c: char, b: Byte)
    requires b < 128 && b in BytesOf(c)
    ensures c as int == b as int && BytesOf(c) == [b]
  {}

  lemma {:induction false} Utf8Holds(s: string, b: Byte)
    requires b < 128
    ensures b in Utf8(s) <==> b as int as char in s
  {
    if s != "" {
      Utf8Holds(s[1..], b);
      if b in BytesOf(s[0]) { AsciiByte(s[0], b); }
    }
  }

  // Different texts have different bytes.
  lemma {:induction false} Utf8Injective(a: string, b: string)
    requires a != b
    ensures Utf8(a) != Utf8(b)
  {
    if a != "" && b != "" {
      if a[0] == b[0] {
        hide BytesOf;
        assert a == [a[0]] + a[1..] && b == [b[0]] + b[1..];
        Utf8Injective(a[1..], b[1..]);
        assert Utf8(a)[|BytesOf(a[0])|..] == Utf8(a[1..]) && Utf8(b)[|BytesOf(b[0])|..] == Utf8(b[1..]);
      } else {
        var k;
        if a[0] < b[0] { k := BytesDiffer(a[0], b[0]); } else { k := BytesDiffer(b[0], a[0]); }
        hide BytesOf;
        assert Utf8(a)[k] == BytesOf(a[0])[k] && Utf8(b)[k] == BytesOf(b[0])[k];
      }
    }
  }
}
