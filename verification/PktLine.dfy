// src/server/git/pktline.ts: pkt-line framing (gitprotocol-common, "pkt-line Format").
module PktLine {
  import opened Wrappers
  import opened Bytes

  // A packet: a payload, or one of the special packets 0000 (flush), 0001 and 0002.
  datatype Packet = Data(payload: Bytes) | Special(code: nat)

  datatype PktError = Truncated(at: nat) | InvalidPrefix(at: nat) | BadLength(length: nat, at: nat) | Overrun(payload: nat)
                    | TooLong(payload: nat)

  // What the four-digit prefix can hold.
  const MAX_PAYLOAD: nat := 65531

  predicate Encodable(p: Packet) {
    match p case Data(payload) => |payload| <= MAX_PAYLOAD case Special(code) => code < 3
  }

  function Prefix(length: nat): (b: Bytes)
    requires length < 65536
    ensures |b| == 4
  {
    [HexDigit(length / 4096), HexDigit(length / 256 % 16), HexDigit(length / 16 % 16), HexDigit(length % 16)]
  }

  function Frame(p: Packet): Bytes
    requires Encodable(p)
  {
    match p case Data(payload) => Prefix(|payload| + 4) + payload case Special(code) => Prefix(code)
  }

  function FrameAll(packets: seq<Packet>): Bytes
    requires forall i | 0 <= i < |packets| :: Encodable(packets[i])
  {
    if packets == [] then [] else Frame(packets[0]) + FrameAll(packets[1..])
  }

  // encodePktLine: refuses exactly the payloads that do not fit.
  method EncodePktLine(payload: Bytes) returns (r: Result<Bytes, PktError>)
    ensures r.Ok? <==> Encodable(Data(payload))
    ensures r.Ok? ==> r.value == Frame(Data(payload))
  {
    var length := |payload| + 4;
    if length > 0xffff { return Err(TooLong(|payload|)); }
    var out := new Byte[length](_ => 0);
    var prefix := Prefix(length);
    for i := 0 to 4
      invariant out[..i] == prefix[..i]
    {
      out[i] := prefix[i];
    }
    for i := 0 to |payload|
      invariant out[..4] == prefix && out[4..4 + i] == payload[..i]
    {
      out[4 + i] := payload[i];
    }
    assert out[..] == out[..4] + out[4..4 + |payload|];
    return Ok(out[..]);
  }

  // ---- decoding ---------------------------------------------------------------------

  predicate HexPrefix(b: Bytes)
    requires |b| == 4
  {
    IsHex(b[0]) && IsHex(b[1]) && IsHex(b[2]) && IsHex(b[3])
  }

  function LengthOf(b: Bytes): (n: nat)
    requires |b| == 4 && HexPrefix(b)
    ensures n < 65536
  {
    4096 * HexValue(b[0]) + 256 * HexValue(b[1]) + 16 * HexValue(b[2]) + HexValue(b[3])
  }

  // The first packet and how many bytes it takes; None where the buffer does not start with one.
  function First(b: Bytes): Option<(Packet, nat)> {
    if |b| < 4 || !HexPrefix(b[..4]) then None
    else
      var length := LengthOf(b[..4]);
      if length < 3 then Some((Special(length), 4))
      else if length < 4 || length > |b| then None
      else Some((Data(b[4..length]), length))
  }

  // The packets that make up the buffer, if any packets do.
  function Packets(b: Bytes): Option<seq<Packet>> {
    if b == [] then Some([])
    else
      match First(b)
      case None => None
      case Some((p, n)) =>
        FirstFits(b);
        match Packets(b[n..]) case None => None case Some(rest) => Some([p] + rest)
  }

  lemma FirstFits(b: Bytes)
    ensures First(b).Some? ==> var (p, n) := First(b).value; 4 <= n <= |b| && Encodable(p) && |Frame(p)| == n
  {}

  function After(lines: seq<Packet>, rest: Option<seq<Packet>>): Option<seq<Packet>> {
    match rest case None => None case Some(packets) => Some(lines + packets)
  }

  lemma AfterNothing(rest: Option<seq<Packet>>)
    ensures After([], rest) == rest
  {
    if rest.Some? { assert [] + rest.value == rest.value; }
  }

  lemma TakeFirst(lines: seq<Packet>, tail: Bytes)
    requires tail != []
    ensures First(tail).None? ==> After(lines, Packets(tail)).None?
    ensures First(tail).Some? ==>
      var (p, n) := First(tail).value;
      n <= |tail| && After(lines, Packets(tail)) == After(lines + [p], Packets(tail[n..]))
  {
    FirstFits(tail);
    if First(tail).Some? {
      var (p, n) := First(tail).value;
      var rest := Packets(tail[n..]);
      if rest.Some? { assert lines + ([p] + rest.value) == lines + [p] + rest.value; }
    }
  }

  // The error says what is wrong with the packet that starts at a position, and where.
  predicate Explains(e: PktError, buffer: Bytes, start: nat)
    requires start < |buffer|
  {
    match e
    case Truncated(at) => at == start && |buffer| - start < 4
    case InvalidPrefix(at) => at == start && |buffer| - start >= 4 && exists i | start <= i < start + 4 :: !IsHex(buffer[i])
    case BadLength(length, at) =>
      at == start && |buffer| - start >= 4 && HexPrefix(buffer[start..start + 4]) && LengthOf(buffer[start..start + 4]) == length == 3
    case Overrun(payload) =>
      |buffer| - start >= 4 && HexPrefix(buffer[start..start + 4]) && LengthOf(buffer[start..start + 4]) == payload + 4 > |buffer| - start
    case TooLong(_) => false
  }

  // One turn of the decoding loop: the packet at offset and where it ends.
  method ReadPacket(buffer: Bytes, start: nat) returns (r: Result<Packet, PktError>, end: nat)
    requires start < |buffer|
    ensures r.Err? ==> First(buffer[start..]).None?
    ensures r.Err? ==> Explains(r.error, buffer, start)
    ensures r.Ok? ==> start < end <= |buffer| && First(buffer[start..]) == Some((r.value, end - start))
  {
    var offset := start;
    ghost var tail := buffer[start..];
    if offset + 4 > |buffer| { return Err(Truncated(offset)), offset; }
    var header := buffer[offset..offset + 4];
    assert tail[..4] == header;
    assert header == [buffer[offset], buffer[offset + 1], buffer[offset + 2], buffer[offset + 3]];
    if !HexPrefix(header) { return Err(InvalidPrefix(offset)), offset; }
    var length := LengthOf(header);
    hide HexPrefix, LengthOf;
    offset := offset + 4;
    if length == 0 || length == 1 || length == 2 { return Ok(Special(length)), offset; }
    if length < 4 { return Err(BadLength(length, offset - 4)), offset; }
    var payloadLength := length - 4;
    if offset + payloadLength > |buffer| { return Err(Overrun(payloadLength)), offset; }
    assert buffer[offset..offset + payloadLength] == tail[4..length];
    return Ok(Data(buffer[offset..offset + payloadLength])), offset + payloadLength;
  }

  // decodePktLines: the packets of a well-framed buffer, and an error for any other.
  // at is where the first packet starts that cannot be read.
  method DecodePktLines(buffer: Bytes) returns (r: Result<seq<Packet>, PktError>, ghost at: nat)
    ensures r.Ok? <==> Packets(buffer).Some?
    ensures r.Ok? ==> r.value == Packets(buffer).value
    ensures r.Err? ==> at < |buffer| && Packets(buffer[..at]).Some? && Explains(r.error, buffer, at)
  {
    var lines: seq<Packet> := [];
    var offset := 0;
    NothingRead(buffer);
    hide ReadSoFar, Packets, First, Explains;
    while offset < |buffer|
      invariant offset <= |buffer| && ReadSoFar(buffer, lines, offset)
    {
      var packet, end := ReadPacket(buffer, offset);
      if packet.Err? {
        ReadNoMore(buffer, lines, offset);
        return Err(packet.error), offset;
      }
      ReadMore(buffer, lines, offset, packet.value, end);
      lines := lines + [packet.value];
      offset := end;
    }
    ReadNoMore(buffer, lines, offset);
    return Ok(lines), offset;
  }

  // The first packet does not depend on what follows it.
  lemma FirstStays(b: Bytes, more: Bytes)
    ensures First(b).Some? ==> First(b + more) == First(b)
  {
    if First(b).Some? {
      assert (b + more)[..4] == b[..4];
      var length := LengthOf(b[..4]);
      if length >= 4 { assert (b + more)[4..length] == b[4..length]; }
    }
  }

  lemma FirstCut(b: Bytes)
    requires First(b).Some?
    ensures var (p, n) := First(b).value; n <= |b| && First(b[..n]) == Some((p, n))
  {
    FirstFits(b);
    var n := First(b).value.1;
    assert b[..n][..4] == b[..4];
    if LengthOf(b[..4]) >= 4 { assert b[..n][4..n] == b[4..n]; }
  }

  lemma {:induction false} PacketsSnoc(b: Bytes, packets: seq<Packet>, frame: Bytes, p: Packet)
    requires Packets(b) == Some(packets) && First(frame) == Some((p, |frame|))
    ensures Packets(b + frame) == Some(packets + [p])
    decreases |b|
  {
    hide First, Packets;
    if b == [] {
      OnePacket(packets, frame, p);
    } else {
      var q, n, rest := TakePacket(b, packets);
      FirstStays(b, frame);
      PacketsSnoc(b[n..], rest, frame, p);
      CutJoined(b, frame, n);
      PacketsOf(q, b[..n], b[n..] + frame, rest + [p]);
      assert [q] + rest + [p] == [q] + (rest + [p]);
    }
  }

  lemma OnePacket(packets: seq<Packet>, frame: Bytes, p: Packet)
    requires Packets([]) == Some(packets) && First(frame) == Some((p, |frame|))
    ensures Packets([] + frame) == Some(packets + [p])
  {
    hide First;
    assert [] + frame == frame == frame + [] && packets + [p] == [p] + [];
    PacketsOf(p, frame, [], []);
  }

  lemma TakePacket(b: Bytes, packets: seq<Packet>) returns (q: Packet, n: nat, rest: seq<Packet>)
    requires b != [] && Packets(b) == Some(packets)
    ensures First(b) == Some((q, n)) && 4 <= n <= |b| && Packets(b[n..]) == Some(rest) && packets == [q] + rest
  {
    FirstFits(b);
    hide First;
    q, n := First(b).value.0, First(b).value.1;
    rest := Packets(b[n..]).value;
  }

  lemma CutJoined(b: Bytes, more: Bytes, n: nat)
    requires n <= |b|
    ensures |b[..n]| == n && b[..n] + (b[n..] + more) == b + more
  {}

  // What the loop has read before an offset.
  ghost predicate ReadSoFar(buffer: Bytes, lines: seq<Packet>, offset: nat) {
    && offset <= |buffer| && Packets(buffer) == After(lines, Packets(buffer[offset..]))
    && Packets(buffer[..offset]) == Some(lines)
  }

  lemma NothingRead(buffer: Bytes)
    ensures ReadSoFar(buffer, [], 0)
  {
    assert buffer[0..] == buffer && buffer[..0] == [];
    AfterNothing(Packets(buffer));
  }

  lemma ReadMore(buffer: Bytes, lines: seq<Packet>, offset: nat, p: Packet, end: nat)
    requires ReadSoFar(buffer, lines, offset) && offset < end <= |buffer| && First(buffer[offset..]) == Some((p, end - offset))
    ensures ReadSoFar(buffer, lines + [p], end)
  {
    var tail := buffer[offset..];
    TakeFirst(lines, tail);
    FirstCut(tail);
    hide First, Packets, After;
    assert tail[end - offset..] == buffer[end..];
    assert buffer[..end] == buffer[..offset] + tail[..end - offset];
    PacketsSnoc(buffer[..offset], lines, tail[..end - offset], p);
  }

  lemma ReadNoMore(buffer: Bytes, lines: seq<Packet>, offset: nat)
    requires ReadSoFar(buffer, lines, offset)
    ensures offset == |buffer| ==> Packets(buffer) == Some(lines)
    ensures offset < |buffer| && First(buffer[offset..]).None? ==> Packets(buffer).None?
    ensures Packets(buffer[..offset]).Some?
  {
    var tail := buffer[offset..];
    if offset == |buffer| { NoMorePackets(lines, tail); } else { TakeFirst(lines, tail); }
    hide First, Packets, After;
  }

  lemma NoMorePackets(lines: seq<Packet>, tail: Bytes)
    requires tail == []
    ensures After(lines, Packets(tail)) == Some(lines)
  {
    assert lines + [] == lines;
  }

  // ---- round trips ------------------------------------------------------------------

  lemma PrefixReads(n: nat, rest: Bytes)
    requires n < 65536
    ensures var b := Prefix(n) + rest; HexPrefix(b[..4]) && LengthOf(b[..4]) == n
  {
    var b := Prefix(n) + rest;
    assert b[..4] == Prefix(n);
    assert n == 4096 * (n / 4096) + 256 * (n / 256 % 16) + 16 * (n / 16 % 16) + n % 16 by {
      assert n / 256 == 16 * (n / 4096) + n / 256 % 16;
      assert n / 16 == 16 * (n / 256) + n / 16 % 16;
    }
  }

  lemma {:induction false} FirstOfFrame(p: Packet, rest: Bytes)
    requires Encodable(p)
    ensures First(Frame(p) + rest) == Some((p, |Frame(p)|))
  {
    match p
    case Data(payload) =>
      var b := Prefix(|payload| + 4) + payload + rest;
      PrefixReads(|payload| + 4, payload + rest);
      assert b == Prefix(|payload| + 4) + (payload + rest);
      assert b[4..|payload| + 4] == payload;
    case Special(code) => PrefixReads(code, rest);
  }

  // Whatever was framed is read back, in order.
  lemma {:induction false} FramesReadBack(packets: seq<Packet>)
    requires forall i | 0 <= i < |packets| :: Encodable(packets[i])
    ensures Packets(FrameAll(packets)) == Some(packets)
  {
    if packets != [] {
      FirstOfFrame(packets[0], FrameAll(packets[1..]));
      FramesReadBack(packets[1..]);
      PacketsOf(packets[0], Frame(packets[0]), FrameAll(packets[1..]), packets[1..]);
      assert packets == [packets[0]] + packets[1..];
    }
  }

  lemma PacketsOf(p: Packet, frame: Bytes, rest: Bytes, packets: seq<Packet>)
    requires First(frame + rest) == Some((p, |frame|)) && Packets(rest) == Some(packets)
    ensures Packets(frame + rest) == Some([p] + packets)
  {
    FirstFits(frame + rest);
    hide First;
    var b := frame + rest;
    assert b != [] && b[|frame|..] == rest;
  }

  lemma {:induction false} FirstReframes(b: Bytes)
    requires First(b).Some?
    ensures var (p, n) := First(b).value;
      Encodable(p) && |Frame(p)| == n <= |b| && forall i | 0 <= i < n :: SameUpToHexCase(b[i], Frame(p)[i])
  {
    FirstFits(b);
    var (p, n) := First(b).value;
    var length := LengthOf(b[..4]);
    PrefixOfLength(b[..4]);
    forall i | 0 <= i < n ensures SameUpToHexCase(b[i], Frame(p)[i]) {
      if i < 4 { assert b[..4][i] == b[i] && Frame(p)[i] == Prefix(length)[i]; }
    }
  }

  lemma Digits(a: int, b: int, c: int, d: int)
    requires 0 <= a < 16 && 0 <= b < 16 && 0 <= c < 16 && 0 <= d < 16
    ensures var n := 4096 * a + 256 * b + 16 * c + d;
      n / 4096 == a && n / 256 % 16 == b && n / 16 % 16 == c && n % 16 == d
  {
    var n := 4096 * a + 256 * b + 16 * c + d;
    assert n / 16 == 256 * a + 16 * b + c;
    assert n / 256 == 16 * a + b;
  }

  lemma {:induction false} PrefixOfLength(h: Bytes)
    requires |h| == 4 && HexPrefix(h)
    ensures forall i | 0 <= i < 4 :: SameUpToHexCase(h[i], Prefix(LengthOf(h))[i])
  {
    Digits(HexValue(h[0]), HexValue(h[1]), HexValue(h[2]), HexValue(h[3]));
    HexDigitOfValue(h[0]);
    HexDigitOfValue(h[1]);
    HexDigitOfValue(h[2]);
    HexDigitOfValue(h[3]);
  }

  // An accepted buffer is tiled exactly by its packets: framing them again gives the same bytes,
  // but for the case of hex digits.
  lemma {:induction false} AcceptedIsTiled(b: Bytes)
    requires Packets(b).Some?
    ensures var packets := Packets(b).value;
      && (forall i | 0 <= i < |packets| :: Encodable(packets[i]))
      && |FrameAll(packets)| == |b|
      && forall i | 0 <= i < |b| :: SameUpToHexCase(b[i], FrameAll(packets)[i])
    decreases |b|
  {
    if b != [] {
      FirstReframes(b);
      var (p, n) := First(b).value;
      AcceptedIsTiled(b[n..]);
      var packets := Packets(b).value;
      assert packets[0] == p && packets[1..] == Packets(b[n..]).value;
      forall i | 0 <= i < |b| ensures SameUpToHexCase(b[i], FrameAll(packets)[i]) {
        if i >= n { assert b[n..][i - n] == b[i]; }
      }
    }
  }
}
