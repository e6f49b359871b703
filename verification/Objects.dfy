// src/server/git/objects.ts: object headers, packfiles and trees (gitformat-pack).
module Objects {
  import opened Wrappers
  import opened Bytes
  import opened Unicode

  // ---- object headers ---------------------------------------------------------------

  // JavaScript's bitwise operators work on the value modulo 2^32, as a signed number.
  function ToInt32(n: int): int {
    var m := n % 0x1_0000_0000;
    if m < 0x8000_0000 then m else m - 0x1_0000_0000
  }

  // Base 128, low digits first, with 128 added to every byte but the last.
  function SizeBytes(byte: nat, remaining: nat): Bytes
    requires byte < 128
    decreases remaining
  {
    if remaining > 0 then [(byte + 128) as Byte] + SizeBytes(remaining % 128, remaining / 128) else [byte as Byte]
  }

  // encodeObjectHeader. The type goes into bits 4 to 6 of the first byte.
  method EncodeObjectHeader(kind: nat, size: nat) returns (bytes: Bytes)
    requires kind < 8
    ensures bytes == HeaderOf(kind, size)
  {
    bytes := [];
    var byte := kind * 16 + size % 16;
    var remaining := ToInt32(size) / 16;
    ghost var all := HeaderOf(kind, size);
    while remaining > 0
      invariant 0 <= byte < 128
      invariant all == bytes + SizeBytes(byte, if remaining > 0 then remaining else 0)
      decreases remaining
    {
      bytes := bytes + [(byte + 128) as Byte];
      byte := remaining % 128;
      remaining := remaining / 128;
    }
    bytes := bytes + [byte as Byte];
  }

  function HeaderOf(kind: nat, size: nat): Bytes
    requires kind < 8
  {
    var remaining := ToInt32(size) / 16;
    SizeBytes(kind * 16 + size % 16, if remaining > 0 then remaining else 0)
  }

  // A little-endian group of sevens, and what follows it.
  function ReadGroups(b: Bytes): Option<(nat, Bytes)> {
    if b == [] then None
    else if b[0] < 128 then Some((b[0] as nat, b[1..]))
    else
      match ReadGroups(b[1..])
      case None => None
      case Some((rest, after)) => Some((b[0] as nat - 128 + 128 * rest, after))
  }

  // Type, size and what follows the header.
  function ReadHeader(b: Bytes): Option<(nat, nat, Bytes)> {
    if b == [] then None
    else
      var kind, low := b[0] as nat / 16 % 8, b[0] as nat % 16;
      if b[0] < 128 then Some((kind, low, b[1..]))
      else
        match ReadGroups(b[1..])
        case None => None
        case Some((high, after)) => Some((kind, low + 16 * high, after))
  }

  lemma {:induction false} GroupsReadBack(n: nat, rest: Bytes)
    ensures ReadGroups(SizeBytes(n % 128, n / 128) + rest) == Some((n, rest))
    decreases n
  {
    var b := SizeBytes(n % 128, n / 128) + rest;
    if n / 128 > 0 {
      var tail := SizeBytes(n / 128 % 128, n / 128 / 128);
      assert b == [(n % 128 + 128) as Byte] + (tail + rest);
      assert b[1..] == tail + rest;
      GroupsReadBack(n / 128, rest);
    } else {
      assert b[1..] == rest;
    }
  }

  // The size as a signed 32-bit number, or just its low four bits where that is negative.
  function SizeSaid(size: nat): nat { if ToInt32(size) >= 0 then ToInt32(size) else size % 16 }

  lemma FirstByte(kind: nat, low: nat)
    requires kind < 8 && low < 16
    ensures var byte := kind * 16 + low;
      byte < 128 && byte / 16 % 8 == kind == (byte + 128) / 16 % 8 && byte % 16 == low == (byte + 128) % 16
  {
    assert (kind * 16 + low) / 16 == kind && (kind * 16 + low + 128) / 16 == kind + 8;
  }

  lemma ReadsShort(kind: nat, low: nat, rest: Bytes)
    requires kind < 8 && low < 16
    ensures ReadHeader([(kind * 16 + low) as Byte] + rest) == Some((kind, low, rest))
  {
    FirstByte(kind, low);
    assert ([(kind * 16 + low) as Byte] + rest)[1..] == rest;
  }

  lemma ReadsLong(kind: nat, low: nat, groups: Bytes, high: nat, rest: Bytes)
    requires kind < 8 && low < 16 && ReadGroups(groups) == Some((high, rest))
    ensures ReadHeader([(kind * 16 + low + 128) as Byte] + groups) == Some((kind, low + 16 * high, rest))
  {
    FirstByte(kind, low);
    assert ([(kind * 16 + low + 128) as Byte] + groups)[1..] == groups;
    hide ReadGroups;
  }

  lemma SizeParts(size: nat)
    ensures var n := ToInt32(size); size % 16 + 16 * (n / 16) == n && (n < 0 ==> n / 16 < 0)
  {
    var k := size / 0x1_0000_0000;
    assert size == k * 0x1_0000_0000 + size % 0x1_0000_0000 && size % 0x1_0000_0000 % 16 == size % 16;
  }

  lemma Bytewise(byte: nat, remaining: nat, rest: Bytes)
    requires byte < 128
    ensures SizeBytes(byte, remaining) + rest ==
      if remaining > 0 then [(byte + 128) as Byte] + (SizeBytes(remaining % 128, remaining / 128) + rest) else [byte as Byte] + rest
  {}

  // What the header says of every size.
  lemma {:induction false} HeaderSays(kind: nat, size: nat, rest: Bytes)
    requires kind < 8
    ensures ReadHeader(HeaderOf(kind, size) + rest) == Some((kind, SizeSaid(size), rest))
  {
    var n, low := ToInt32(size), size % 16;
    SizeParts(size);
    FirstByte(kind, low);
    Bytewise(kind * 16 + low, if n / 16 > 0 then n / 16 else 0, rest);
    hide ReadHeader, ReadGroups, SizeBytes, ToInt32;
    if n / 16 > 0 {
      GroupsReadBack(n / 16, rest);
      ReadsLong(kind, low, SizeBytes(n / 16 % 128, n / 16 / 128) + rest, n / 16, rest);
    } else {
      ReadsShort(kind, low, rest);
    }
  }

  // A header is self-delimiting and reads back exactly for sizes below 2 GiB, and for no others.
  lemma {:induction false} HeaderRoundTripIff(kind: nat, size: nat, rest: Bytes)
    requires kind < 8
    ensures ReadHeader(HeaderOf(kind, size) + rest) == Some((kind, size, rest)) <==> size < 0x8000_0000
  {
    HeaderSays(kind, size, rest);
    SizeSaidIff(size);
    hide HeaderOf, ReadHeader, SizeSaid;
  }

  lemma SizeSaidIff(size: nat)
    ensures SizeSaid(size) == size <==> size < 0x8000_0000
  {}

  // ---- packfiles --------------------------------------------------------------------

  // kind is the packfile type number: 1 commit, 2 tree, 3 blob, 4 tag.
  datatype GitObject = GitObject(kind: nat, content: Bytes)

  // SHA-1 and zlib deflate are external; Inflate reads one deflated stream off the front.
  datatype Codec = Codec(sha1: Bytes -> Bytes, deflate: Bytes -> Bytes, inflate: Bytes -> Option<(Bytes, Bytes)>)

  ghost predicate SelfDelimiting(c: Codec) {
    && (forall b :: |c.sha1(b)| == 20)
    && forall content, rest :: c.inflate(c.deflate(content) + rest) == Some((content, rest))
  }

  // DataView.setUint32, big-endian.
  function Uint32(n: nat): (b: Bytes)
    ensures |b| == 4
  {
    [(n / 256 / 256 / 256 % 256) as Byte, (n / 256 / 256 % 256) as Byte, (n / 256 % 256) as Byte, (n % 256) as Byte]
  }

  function ReadUint32(b: Bytes): nat
    requires |b| == 4
  {
    256 * (256 * (256 * b[0] as nat + b[1] as nat) + b[2] as nat) + b[3] as nat
  }

  const PACK: Bytes := [80, 65, 67, 75]

  ghost predicate Packable(objects: seq<GitObject>) {
    |objects| < 0x1_0000_0000 && forall i | 0 <= i < |objects| :: objects[i].kind < 8 && |objects[i].content| < 0x8000_0000
  }

  function Entries(objects: seq<GitObject>, c: Codec): Bytes
    requires forall i | 0 <= i < |objects| :: objects[i].kind < 8
  {
    if objects == [] then []
    else HeaderOf(objects[0].kind, |objects[0].content|) + c.deflate(objects[0].content) + Entries(objects[1..], c)
  }

  function PackBody(objects: seq<GitObject>, c: Codec): Bytes
    requires forall i | 0 <= i < |objects| :: objects[i].kind < 8
  {
    PACK + Uint32(2) + Uint32(|objects|) + Entries(objects, c)
  }

  function Concat(parts: seq<Bytes>): Bytes {
    if parts == [] then [] else Concat(parts[..|parts| - 1]) + parts[|parts| - 1]
  }

  lemma {:induction false} ConcatPrefix(parts: seq<Bytes>, i: nat)
    requires i < |parts|
    ensures Concat(parts[..i + 1]) == Concat(parts[..i]) + parts[i]
    ensures |Concat(parts[..i + 1])| <= |Concat(parts)|
    decreases |parts| - i
  {
    assert parts[..i + 1][..i] == parts[..i];
    if i + 1 < |parts| { ConcatPrefix(parts, i + 1); } else { assert parts[..i + 1] == parts; }
  }

  // concat: one buffer of the total length, filled part by part.
  method ConcatParts(parts: seq<Bytes>) returns (joined: Bytes)
    ensures joined == Concat(parts)
  {
    hide Concat;
    var total := 0;
    ConcatNone(parts);
    for i := 0 to |parts|
      invariant total == |Concat(parts[..i])|
    {
      ConcatPrefix(parts, i);
      total := total + |parts[i]|;
    }
    assert parts[..|parts|] == parts;
    var out := new Byte[total](_ => 0);
    var offset := 0;
    for i := 0 to |parts|
      invariant 0 <= offset <= total && out[..offset] == Concat(parts[..i])
    {
      ConcatPrefix(parts, i);
      assert offset == |Concat(parts[..i])| && offset + |parts[i]| <= total;
      for k := 0 to |parts[i]|
        invariant out[..offset] == Concat(parts[..i]) && out[offset..offset + k] == parts[i][..k]
      {
        out[offset + k] := parts[i][k];
      }
      assert out[..offset + |parts[i]|] == out[..offset] + out[offset..offset + |parts[i]|];
      offset := offset + |parts[i]|;
    }
    return out[..];
  }

  lemma ConcatNone(parts: seq<Bytes>)
    ensures Concat(parts[..0]) == []
  {}

  lemma {:induction false} EntriesSnoc(objects: seq<GitObject>, o: GitObject, c: Codec)
    requires o.kind < 8 && forall i | 0 <= i < |objects| :: objects[i].kind < 8
    ensures Entries(objects + [o], c) == Entries(objects, c) + (HeaderOf(o.kind, |o.content|) + c.deflate(o.content))
  {
    if objects == [] {
      assert ([] + [o])[1..] == [];
    } else {
      assert (objects + [o])[1..] == objects[1..] + [o];
      EntriesSnoc(objects[1..], o, c);
    }
  }

  method BuildPackfile(objects: seq<GitObject>, c: Codec) returns (pack: Bytes)
    requires forall i | 0 <= i < |objects| :: objects[i].kind < 8
    ensures pack == PackBody(objects, c) + c.sha1(PackBody(objects, c))
  {
    hide HeaderOf, Entries, Concat, Uint32;
    var header := PACK + Uint32(2) + Uint32(|objects|);
    var parts := [header];
    ConcatOne(header, c);
    for i := 0 to |objects|
      invariant Concat(parts) == header + Entries(objects[..i], c)
    {
      var obj := objects[i];
      var head := EncodeObjectHeader(obj.kind, |obj.content|);
      var deflated := c.deflate(obj.content);
      ConcatTwo(parts, head, deflated);
      parts := parts + [head];
      parts := parts + [deflated];
      assert objects[..i + 1] == objects[..i] + [obj];
      EntriesSnoc(objects[..i], obj, c);
    }
    assert objects[..|objects|] == objects;
    var body := ConcatParts(parts);
    var digest := c.sha1(body);
    ConcatTwo([], body, digest);
    pack := ConcatParts([body, digest]);
  }

  lemma ConcatOne(a: Bytes, c: Codec)
    ensures Concat([a]) == a + Entries([], c)
  {
    assert [a][..0] == [];
  }

  lemma ConcatTwo(parts: seq<Bytes>, a: Bytes, b: Bytes)
    ensures Concat(parts + [a] + [b]) == Concat(parts) + (a + b)
    ensures parts == [] ==> Concat([a, b]) == a + b
  {
    assert parts == [] ==> parts + [a] + [b] == [a, b];
    var all := parts + [a] + [b];
    assert all[..|all| - 1] == parts + [a] && (parts + [a])[..|parts|] == parts;
  }

  // A reader of packfiles: count objects off the front.
  function ReadEntries(b: Bytes, count: nat, c: Codec): Option<(seq<GitObject>, Bytes)>
    decreases count
  {
    if count == 0 then Some(([], b))
    else
      match ReadHeader(b)
      case None => None
      case Some((kind, size, after)) =>
        match c.inflate(after)
        case None => None
        case Some((content, after)) =>
          if |content| != size then None
          else
            match ReadEntries(after, count - 1, c)
            case None => None
            case Some((objects, after)) => Some(([GitObject(kind, content)] + objects, after))
  }

  function ReadPack(b: Bytes, c: Codec): Option<seq<GitObject>> {
    if |b| < 32 || b[..4] != PACK || ReadUint32(b[4..8]) != 2 then None
    else
      var body := b[..|b| - 20];
      if b[|b| - 20..] != c.sha1(body) then None
      else
        match ReadEntries(body[12..], ReadUint32(b[8..12]), c)
        case Some((objects, rest)) => if rest == [] then Some(objects) else None
        case None => None
  }

  lemma Uint32ReadsBack(n: nat)
    requires n < 0x1_0000_0000
    ensures ReadUint32(Uint32(n)) == n
  {}

  lemma {:induction false} EntriesReadBack(objects: seq<GitObject>, c: Codec)
    requires SelfDelimiting(c) && Packable(objects)
    ensures ReadEntries(Entries(objects, c), |objects|, c) == Some((objects, []))
  {
    if objects != [] {
      EntriesReadBack(objects[1..], c);
      EntryReadsBack(objects[0], Entries(objects[1..], c), objects[1..], c);
      hide ReadEntries, HeaderOf, SelfDelimiting;
      assert objects == [objects[0]] + objects[1..];
    }
  }

  lemma {:induction false} EntryReadsBack(o: GitObject, rest: Bytes, objects: seq<GitObject>, c: Codec)
    requires SelfDelimiting(c) && o.kind < 8 && |o.content| < 0x8000_0000
    requires ReadEntries(rest, |objects|, c) == Some((objects, []))
    ensures ReadEntries(HeaderOf(o.kind, |o.content|) + c.deflate(o.content) + rest, |objects| + 1, c) == Some(([o] + objects, []))
  {
    hide HeaderOf, ReadHeader;
    HeaderRoundTripIff(o.kind, |o.content|, c.deflate(o.content) + rest);
    assert HeaderOf(o.kind, |o.content|) + c.deflate(o.content) + rest == HeaderOf(o.kind, |o.content|) + (c.deflate(o.content) + rest);
    assert c.inflate(c.deflate(o.content) + rest) == Some((o.content, rest));
  }

  // Unpacking a built packfile gives the objects back.
  lemma {:induction false} PackReadsBack(objects: seq<GitObject>, c: Codec)
    requires SelfDelimiting(c) && Packable(objects)
    ensures ReadPack(PackBody(objects, c) + c.sha1(PackBody(objects, c)), c) == Some(objects)
  {
    var body := PackBody(objects, c);
    var b := body + c.sha1(body);
    assert |c.sha1(body)| == 20;
    assert b[..|b| - 20] == body && b[|b| - 20..] == c.sha1(body);
    assert b[..4] == PACK && b[4..8] == Uint32(2) && b[8..12] == Uint32(|objects|);
    assert body[12..] == Entries(objects, c);
    Uint32ReadsBack(2);
    Uint32ReadsBack(|objects|);
    EntriesReadBack(objects, c);
  }

  // ---- hex object ids ---------------------------------------------------------------

  function HexOf(u: Unit): Option<int> {
    if u < 128 && IsHex(u as int as Byte) then Some(HexValue(u as int as Byte)) else None
  }

  // White space and line ends, in the sense of ECMA-262, section 12.2 and 12.3.
  predicate IsSpace(u: Unit) {
    || 9 <= u <= 13 || u == 32 || u == 0xa0 || u == 0x1680 || 0x2000 <= u <= 0x200a || u == 0x2028 || u == 0x2029
    || u == 0x202f || u == 0x205f || u == 0x3000 || u == 0xfeff
  }

  const PLUS: Unit := 43
  const MINUS: Unit := 45

  // What parsing two characters in base 16 stores in a byte: digits are read up to the first
  // character that is none, after a space or a sign; a text without digits is stored as 0, and a
  // negative number modulo 256.
  function ByteOfPair(high: Unit, low: Unit): Byte {
    match (HexOf(high), HexOf(low))
    case (Some(h), Some(l)) => (16 * h + l) as Byte
    case (Some(h), None) => h as Byte
    case (None, Some(l)) =>
      if IsSpace(high) || high == PLUS then l as Byte else if high == MINUS then ((256 - l) % 256) as Byte else 0
    case (None, None) => 0
  }

  // Number.parseInt in base 16, of any text: space, a sign and "0x" may stand before the digits, and
  // what follows them is not read.
  function Trimmed(s: Units): Units { if s != [] && IsSpace(s[0]) then Trimmed(s[1..]) else s }

  function HexDigits(s: Units): seq<int> {
    if s == [] || HexOf(s[0]).None? then [] else [HexOf(s[0]).value] + HexDigits(s[1..])
  }

  function ValueOf(digits: seq<int>): int {
    if digits == [] then 0 else 16 * ValueOf(digits[..|digits| - 1]) + digits[|digits| - 1]
  }

  function ParseHex(s: Units): Option<int> {
    var t := Trimmed(s);
    var unsigned := if t != [] && (t[0] == PLUS || t[0] == MINUS) then t[1..] else t;
    var marked := |unsigned| >= 2 && unsigned[0] == 48 && (unsigned[1] == 88 || unsigned[1] == 120);
    var digits := HexDigits(if marked then unsigned[2..] else unsigned);
    if digits == [] then None else Some(if t[0] == MINUS then -ValueOf(digits) else ValueOf(digits))
  }

  // A byte keeps a number modulo 256, and 0 where there is none.
  lemma PairParses(high: Unit, low: Unit)
    ensures ByteOfPair(high, low) as int == match ParseHex([high, low]) case Some(n) => n % 256 case None => 0
  {
    var s := [high, low];
    TrimmedPair(high, low);
    DigitsRead(high, low);
    HexIsPlain(high);
    HexIsPlain(low);
    hide IsSpace, HexOf, Trimmed, HexDigits, ValueOf;
    assert s[1..] == [low] && [low][1..] == [] && s[2..] == [];
    if HexOf(low).Some? { ValueOfOne(HexOf(low).value); }
    if HexOf(high).Some? {
      ValueOfOne(HexOf(high).value);
      if HexOf(low).Some? { ValueOfTwo(HexOf(high).value, HexOf(low).value); }
    }
  }

  lemma TrimmedPair(high: Unit, low: Unit)
    ensures Trimmed([low]) == if IsSpace(low) then [] else [low]
    ensures Trimmed([high, low]) == if IsSpace(high) then Trimmed([low]) else [high, low]
  {
    assert [high, low][1..] == [low] && [low][1..] == [];
  }

  lemma DigitsRead(high: Unit, low: Unit)
    ensures HexDigits([]) == []
    ensures HexDigits([low]) == if HexOf(low).Some? then [HexOf(low).value] else []
    ensures HexDigits([high, low]) == if HexOf(high).None? then [] else [HexOf(high).value] + HexDigits([low])
  {
    assert [high, low][1..] == [low] && [low][1..] == [];
  }

  lemma ValueOfOne(x: int)
    ensures ValueOf([x]) == x && [x] + [] == [x]
  {
    assert [x][..0] == [];
  }

  lemma ValueOfTwo(x: int, y: int)
    ensures ValueOf([x] + [y]) == 16 * x + y
  {
    ValueOfOne(x);
    assert ([x] + [y])[..1] == [x];
  }

  // A hex digit is no space, sign or x, and only '0' counts 0 among those of one character.
  lemma HexIsPlain(u: Unit)
    ensures HexOf(u).Some? ==> !IsSpace(u) && u != PLUS && u != MINUS && u != 88 && u != 120 && 0 <= HexOf(u).value < 16
    ensures HexOf(48) == Some(0) && !IsSpace(PLUS) && !IsSpace(MINUS) && !IsSpace(48)
  {}

  // Two characters at a time; a last one without a partner is dropped.
  function FromHex(hex: Units): Bytes {
    if |hex| < 2 then [] else [ByteOfPair(hex[0], hex[1])] + FromHex(hex[2..])
  }

  function HexUnit(d: int): Unit
    requires 0 <= d < 16
  {
    HexDigit(d) as int as Unit
  }

  function ToHex(b: Bytes): Units {
    if b == [] then [] else [HexUnit(b[0] as int / 16), HexUnit(b[0] as int % 16)] + ToHex(b[1..])
  }

  lemma {:induction false} HexSnoc(b: Bytes, last: Byte)
    ensures ToHex(b + [last]) == ToHex(b) + [HexUnit(last as int / 16), HexUnit(last as int % 16)]
  {
    if b == [] {
      assert ([] + [last])[1..] == [];
    } else {
      assert (b + [last])[1..] == b[1..] + [last];
      HexSnoc(b[1..], last);
    }
  }

  // toHex
  method BytesToHex(b: Bytes) returns (hex: Units)
    ensures hex == ToHex(b)
  {
    hex := [];
    assert ToHex([]) == [];
    hide ToHex;
    for i := 0 to |b|
      invariant hex == ToHex(b[..i])
    {
      assert b[..i + 1] == b[..i] + [b[i]];
      HexSnoc(b[..i], b[i]);
      hex := hex + [HexUnit(b[i] as int / 16), HexUnit(b[i] as int % 16)];
    }
    assert b[..|b|] == b;
  }

  lemma {:induction false} BytesOfHex(hex: Units)
    ensures |FromHex(hex)| == |hex| / 2
    ensures forall i | 0 <= i < |hex| / 2 :: FromHex(hex)[i] == ByteOfPair(hex[2 * i], hex[2 * i + 1])
  {
    hide ByteOfPair;
    if |hex| >= 2 {
      BytesOfHex(hex[2..]);
      forall i | 0 <= i < |hex| / 2 ensures FromHex(hex)[i] == ByteOfPair(hex[2 * i], hex[2 * i + 1]) {
        if i > 0 { assert FromHex(hex)[i] == FromHex(hex[2..])[i - 1]; }
      }
    }
  }

  // fromHex, of any text.
  method HexToBytes(hex: Units) returns (b: Bytes)
    ensures b == FromHex(hex)
  {
    hide FromHex, ByteOfPair;
    BytesOfHex(hex);
    var out := new Byte[|hex| / 2](_ => 0);
    for i := 0 to out.Length
      invariant out[..i] == FromHex(hex)[..i]
    {
      out[i] := ByteOfPair(hex[2 * i], hex[2 * i + 1]);
    }
    return out[..];
  }

  predicate IsLowerHex(u: Unit) { 48 <= u <= 57 || 97 <= u <= 102 }

  predicate LowerHexDigits(hex: Units) {
    forall i | 0 <= i < |hex| :: IsLowerHex(hex[i])
  }

  lemma {:induction false} FromToHex(b: Bytes)
    ensures |ToHex(b)| == 2 * |b| && LowerHexDigits(ToHex(b))
    ensures FromHex(ToHex(b)) == b
  {
    if b != [] {
      FromToHex(b[1..]);
      assert ToHex(b)[2..] == ToHex(b[1..]);
      PairOfDigits(b[0] as int);
      hide ByteOfPair, HexUnit;
    }
  }

  lemma PairOfDigits(n: int)
    requires 0 <= n < 256
    ensures ByteOfPair(HexUnit(n / 16), HexUnit(n % 16)) as int == n
    ensures IsLowerHex(HexUnit(n / 16)) && IsLowerHex(HexUnit(n % 16))
  {}

  // Text survives the way to bytes and back exactly if it is lower-case hex of even length.
  lemma {:induction false} ToFromHexIff(hex: Units)
    ensures ToHex(FromHex(hex)) == hex <==> |hex| % 2 == 0 && LowerHexDigits(hex)
  {
    FromToHex(FromHex(hex));
    if |hex| % 2 == 0 && LowerHexDigits(hex) { LowerHexReadsBack(hex); }
  }

  lemma {:induction false} LowerHexReadsBack(hex: Units)
    requires |hex| % 2 == 0 && LowerHexDigits(hex)
    ensures ToHex(FromHex(hex)) == hex
  {
    if hex != [] {
      LowerHexReadsBack(hex[2..]);
      DigitsOfPair(hex[0], hex[1]);
      hide ByteOfPair, HexUnit;
      assert hex == [hex[0], hex[1]] + hex[2..];
      assert FromHex(hex)[1..] == FromHex(hex[2..]);
    }
  }

  lemma DigitsOfPair(high: Unit, low: Unit)
    requires IsLowerHex(high) && IsLowerHex(low)
    ensures var n := ByteOfPair(high, low) as int; HexUnit(n / 16) == high && HexUnit(n % 16) == low
  {}
}
