// src/server/git/receive-pack.ts: the push request and the server's report-status answer
// (gitprotocol-pack, "Reference Update Request and Packfile Transfer" and "Report Status").
module ReceivePack {
  import opened Wrappers
  import opened Bytes
  import opened Text
  import opened PktLine
  import opened Objects
  import opened Unicode
  import Refs

  // ---- the request ------------------------------------------------------------------

  datatype RefUpdate = RefUpdate(ref: string, oldSha: string, newSha: string)

  // What the first command asks for.
  function ReportStatus(): (s: string)
    ensures |s| == 14 && Ascii(s)
  {
    "report-status\n"
  }

  function Command(u: RefUpdate): string {
    u.oldSha + [' '] + u.newSha + [' '] + u.ref + ['\0'] + ReportStatus()
  }

  function CommandBytes(u: RefUpdate): Bytes { Utf8(Command(u)) }

  // emptyPackfile, filled in place.
  method EmptyPackfile(c: Codec) returns (pack: Bytes)
    requires forall b :: |c.sha1(b)| == 20
    ensures pack == PackBody([], c) + c.sha1(PackBody([], c))
  {
    EmptyBody(c);
    hide PackBody, Uint32;
    var header := new Byte[12](_ => 0);
    var start := PACK + Uint32(2) + Uint32(0);
    for i := 0 to 12
      invariant header[..i] == start[..i]
    {
      header[i] := start[i];
    }
    assert header[..] == start;
    var digest := c.sha1(header[..]);
    var packfile := new Byte[32](_ => 0);
    for i := 0 to 12
      invariant packfile[..i] == start[..i] && header[..] == start
    {
      packfile[i] := header[i];
    }
    for i := 0 to 20
      invariant packfile[..12] == start && packfile[12..12 + i] == digest[..i]
    {
      packfile[12 + i] := digest[i];
    }
    assert packfile[..] == packfile[..12] + packfile[12..32];
    pack := packfile[..];
  }

  lemma EmptyBody(c: Codec)
    ensures PackBody([], c) == PACK + Uint32(2) + Uint32(0)
  {}

  function RequestOf(u: RefUpdate, objects: seq<GitObject>, c: Codec): Bytes
    requires Encodable(Data(CommandBytes(u))) && forall i | 0 <= i < |objects| :: objects[i].kind < 8
  {
    Frame(Data(CommandBytes(u))) + Frame(Special(0)) + (PackBody(objects, c) + c.sha1(PackBody(objects, c)))
  }

  // buildReceivePackRequest: refused exactly where the command does not fit a packet.
  method BuildReceivePackRequest(u: RefUpdate, objects: seq<GitObject>, c: Codec) returns (r: Result<Bytes, PktError>)
    requires (forall b :: |c.sha1(b)| == 20) && forall i | 0 <= i < |objects| :: objects[i].kind < 8
    ensures r.Ok? <==> |Utf8(u.oldSha)| + |Utf8(u.newSha)| + |Utf8(u.ref)| <= MAX_PAYLOAD - 17
    ensures r.Ok? ==> Encodable(Data(CommandBytes(u))) && r.value == RequestOf(u, objects, c)
  {
    hide Frame, PackBody, CommandBytes, Concat, Utf8;
    CommandLength(u);
    var pack;
    if |objects| > 0 {
      pack := BuildPackfile(objects, c);
    } else {
      pack := EmptyPackfile(c);
    }
    var command := EncodePktLine(CommandBytes(u));
    if command.Err? { return Err(command.error); }
    var flush := Frame(Special(0));
    var parts := [command.value, flush, pack];
    var body := ConcatParts(parts);
    ConcatThree(command.value, flush, pack);
    return Ok(body);
  }

  // The ids and the ref's name, each followed by a space or the NUL, and the capability.
  lemma CommandLayout(u: RefUpdate)
    ensures CommandBytes(u) == Utf8(u.oldSha) + [SPACE] + Utf8(u.newSha) + [SPACE] + Utf8(u.ref) + [0] + Utf8(ReportStatus())
  {
    hide Utf8, ReportStatus;
    FieldBytes(u.oldSha, SPACE, u.newSha);
    FieldBytes(u.oldSha + [' '] + u.newSha, SPACE, u.ref);
    FieldBytes(u.oldSha + [' '] + u.newSha + [' '] + u.ref, 0, ReportStatus());
  }

  lemma CommandLength(u: RefUpdate)
    ensures |CommandBytes(u)| == |Utf8(u.oldSha)| + |Utf8(u.newSha)| + |Utf8(u.ref)| + 17
  {
    hide Utf8, Encode, CommandBytes, ReportStatus;
    CommandLayout(u);
    Utf8Ascii(ReportStatus());
  }

  lemma FieldBytes(s: string, separator: Byte, t: string)
    requires separator < 128
    ensures Utf8(s + [separator as int as char] + t) == Utf8(s) + [separator] + Utf8(t)
  {
    var c := [separator as int as char];
    Utf8Concat(s + c, t);
    Utf8Concat(s, c);
    assert Utf8(c) == [separator] by { assert c[1..] == ""; }
    hide Utf8;
  }

  lemma ConcatThree(a: Bytes, b: Bytes, c: Bytes)
    ensures Concat([a, b, c]) == a + b + c
  {
    assert [a][..0] == [] && [a, b][..1] == [a] && [a, b, c][..2] == [a, b];
    assert Concat([a]) == a;
    assert Concat([a, b]) == a + b;
  }

  // What a server reads: two ids and the bytes of a ref's name.
  datatype Received = Received(oldSha: Bytes, newSha: Bytes, ref: Bytes)

  // The server's side: a command packet, then a flush packet, then a pack.
  function ReadRequest(b: Bytes, c: Codec): Option<(Received, seq<GitObject>)> {
    match First(b)
    case None => None
    case Some((Special(_), _)) => None
    case Some((Data(payload), n)) =>
      FirstFits(b);
      match (ReadCommand(payload), First(b[n..]))
      case (Some(u), Some((Special(0), _))) =>
        FirstFits(b[n..]);
        (match ReadPack(b[n..][4..], c) case None => None case Some(objects) => Some((u, objects)))
      case _ => None
  }

  predicate HexId(b: Bytes) { |b| == 40 && forall i | 0 <= i < 40 :: IsHex(b[i]) }

  // Two ids of 40 hex digits, a space behind each, and a name up to the NUL or the end.
  function ReadCommand(b: Bytes): Option<Received> {
    if |b| < 82 || !HexId(b[..40]) || b[40] != SPACE || !HexId(b[41..81]) || b[81] != SPACE then None
    else Some(Received(b[..40], b[41..81], UpTo(b[82..], 0)))
  }

  function UpTo(b: Bytes, stop: Byte): Bytes {
    if b == [] || b[0] == stop then [] else [b[0]] + UpTo(b[1..], stop)
  }

  lemma {:induction false} UpToStops(b: Bytes, stop: Byte)
    ensures stop !in UpTo(b, stop)
  {
    if b != [] && b[0] != stop { UpToStops(b[1..], stop); }
  }

  lemma {:induction false} UpToFinds(head: Bytes, stop: Byte, rest: Bytes)
    requires stop !in head
    ensures UpTo(head + ([stop] + rest), stop) == head
  {
    var b := head + ([stop] + rest);
    if head != [] {
      assert b[1..] == head[1..] + ([stop] + rest);
      UpToFinds(head[1..], stop, rest);
      assert head == [head[0]] + head[1..];
    }
  }

  function ReceivedAs(u: RefUpdate): Received { Received(Utf8(u.oldSha), Utf8(u.newSha), Utf8(u.ref)) }

  // Ids of 40 hex digits and a name that the NUL does not end early.
  predicate Sendable(u: RefUpdate) { HexId(Utf8(u.oldSha)) && HexId(Utf8(u.newSha)) && '\0' !in u.ref }

  lemma {:induction false} CommandReadsBackIff(u: RefUpdate)
    ensures ReadCommand(CommandBytes(u)) == Some(ReceivedAs(u)) <==> Sendable(u)
  {
    Utf8Holds(u.ref, 0);
    CommandLayout(u);
    hide Utf8, CommandBytes, ReportStatus, HexId, ReadCommand;
    CommandShape(CommandBytes(u));
    if Sendable(u) { FieldsReadBack(Utf8(u.oldSha), Utf8(u.newSha), Utf8(u.ref), Utf8(ReportStatus())); }
  }

  lemma CommandShape(b: Bytes)
    ensures ReadCommand(b).Some? ==>
      HexId(ReadCommand(b).value.oldSha) && HexId(ReadCommand(b).value.newSha) && 0 !in ReadCommand(b).value.ref
  {
    hide HexId, UpTo;
    if ReadCommand(b).Some? { UpToStops(b[82..], 0); }
  }

  lemma FieldsReadBack(from: Bytes, to: Bytes, name: Bytes, rest: Bytes)
    requires HexId(from) && HexId(to) && 0 !in name
    ensures ReadCommand(from + [SPACE] + to + [SPACE] + name + [0] + rest) == Some(Received(from, to, name))
  {
    HexIdLength(from);
    HexIdLength(to);
    UpToFinds(name, 0, rest);
    hide HexId, UpTo;
    CommandFields(from, to, name, rest);
  }

  lemma HexIdLength(b: Bytes)
    requires HexId(b)
    ensures |b| == 40
  {}

  lemma CommandFields(from: Bytes, to: Bytes, name: Bytes, rest: Bytes)
    requires |from| == |to| == 40
    ensures var b := from + [SPACE] + to + [SPACE] + name + [0] + rest;
      |b| >= 82 && b[..40] == from && b[40] == SPACE && b[41..81] == to && b[81] == SPACE && b[82..] == name + ([0] + rest)
  {}

  // A server reads the update and the objects that were sent exactly if the ids are 40 hex digits
  // and the name holds no NUL.
  lemma {:induction false} RequestReadsBackIff(u: RefUpdate, objects: seq<GitObject>, c: Codec)
    requires Encodable(Data(CommandBytes(u))) && SelfDelimiting(c) && Packable(objects)
    ensures ReadRequest(RequestOf(u, objects, c), c) == Some((ReceivedAs(u), objects)) <==> Sendable(u)
  {
    CommandReadsBackIff(u);
    PackReadsBack(objects, c);
    hide *;
    ReadsParts(u, objects, c, PackBody(objects, c) + c.sha1(PackBody(objects, c)));
    RequestIs(u, objects, c);
  }

  lemma RequestIs(u: RefUpdate, objects: seq<GitObject>, c: Codec)
    requires Encodable(Data(CommandBytes(u))) && forall i | 0 <= i < |objects| :: objects[i].kind < 8
    ensures RequestOf(u, objects, c) ==
      Frame(Data(CommandBytes(u))) + Frame(Special(0)) + (PackBody(objects, c) + c.sha1(PackBody(objects, c)))
  {}

  // Different updates are received as different ones.
  lemma ReceivedApart(u: RefUpdate, v: RefUpdate)
    requires u != v
    ensures ReceivedAs(u) != ReceivedAs(v)
  {
    if u.oldSha != v.oldSha { Utf8Injective(u.oldSha, v.oldSha); }
    if u.newSha != v.newSha { Utf8Injective(u.newSha, v.newSha); }
    if u.ref != v.ref { Utf8Injective(u.ref, v.ref); }
    hide Utf8;
  }

  lemma FlushLength()
    ensures |Frame(Special(0))| == 4
  {}

  // The command decides: flush and pack are read whatever it says.
  lemma {:induction false} ReadsParts(u: RefUpdate, objects: seq<GitObject>, c: Codec, pack: Bytes)
    requires Encodable(Data(CommandBytes(u))) && ReadPack(pack, c) == Some(objects)
    ensures ReadRequest(Frame(Data(CommandBytes(u))) + Frame(Special(0)) + pack, c) ==
      match ReadCommand(CommandBytes(u)) case Some(r) => Some((r, objects)) case None => None
  {
    FlushLength();
    hide Frame, ReadPack, ReadCommand, CommandBytes, First;
    var command, flush := Frame(Data(CommandBytes(u))), Frame(Special(0));
    var b := command + flush + pack;
    assert b == command + (flush + pack);
    FirstOfFrame(Data(CommandBytes(u)), flush + pack);
    FirstOfFrame(Special(0), pack);
    assert b[|command|..] == flush + pack;
    assert (flush + pack)[4..] == pack;
  }

  // ---- report-status ----------------------------------------------------------------

  const UNPACK := "unpack "
  const UNPACK_OK := "unpack ok"
  const NOT_CONFIRMED := "Server did not confirm the ref update"

  // The lines of the report that carry text.
  function Texts(packets: seq<Packet>): seq<string> {
    if packets == [] then []
    else
      var last := packets[|packets| - 1];
      Texts(packets[..|packets| - 1]) + if last.Data? then [Refs.StripNewline(Decode(last.payload))] else []
  }

  predicate FailedUnpack(text: string) { StartsWith(text, UNPACK) && text != UNPACK_OK }

  predicate Accepts(text: string) { StartsWith(text, "ok ") }

  predicate Refuses(text: string) { StartsWith(text, "ng ") }

  // "ng <ref> <reason>"
  function Reason(text: string): string
    requires Refuses(text)
  {
    var rest := text[3..];
    match IndexOf(rest, ' ') case None => rest case Some(space) => rest[space + 1..]
  }

  // The reason given by the last refusal.
  function LastReason(texts: seq<string>): Option<string> {
    if texts == [] then None
    else if Refuses(texts[|texts| - 1]) then Some(Reason(texts[|texts| - 1]))
    else LastReason(texts[..|texts| - 1])
  }

  // Where reading stops: at the first report of a failed unpack.
  function FirstFailedUnpack(texts: seq<string>): Option<string> {
    if texts == [] then None else if FailedUnpack(texts[0]) then Some(texts[0][7..]) else FirstFailedUnpack(texts[1..])
  }

  predicate SomeStatus(texts: seq<string>) {
    exists i | 0 <= i < |texts| :: Accepts(texts[i]) || Refuses(texts[i])
  }

  datatype ReceivePackResult = Accepted | Rejected(error: string)

  // The verdict on a report.
  function Verdict(texts: seq<string>): ReceivePackResult {
    var failed, reason := FirstFailedUnpack(texts), LastReason(texts);
    if failed.Some? then Rejected(failed.value)
    else if reason.Some? && reason.value != "" then Rejected(reason.value)
    else if UNPACK_OK in texts && SomeStatus(texts) then Accepted
    else Rejected(NOT_CONFIRMED)
  }

  // The four kinds of line are told apart by how they start.
  lemma {:induction false} Kinds(text: string)
    ensures text == UNPACK_OK ==> !Accepts(text) && !Refuses(text)
    ensures StartsWith(text, UNPACK) ==> !Accepts(text) && !Refuses(text)
    ensures !(Accepts(text) && Refuses(text))
  {
    assert StartsWith(text, UNPACK) ==> text[..7][0] == 'u';
    assert Accepts(text) ==> text[..3][0] == 'o';
    assert Refuses(text) ==> text[..3][0] == 'n';
    assert UNPACK_OK[0] == 'u';
  }

  // What the loop knows after some lines, none of them a failed unpack.
  ghost predicate Reading(texts: seq<string>, unpackOk: bool, refError: Option<string>, sawRefStatus: bool) {
    && FirstFailedUnpack(texts).None?
    && (unpackOk <==> UNPACK_OK in texts) && refError == LastReason(texts) && (sawRefStatus <==> SomeStatus(texts))
  }

  lemma {:induction false} NoFailureSnoc(texts: seq<string>, text: string)
    requires FirstFailedUnpack(texts).None?
    ensures FirstFailedUnpack(texts + [text]) == if FailedUnpack(text) then Some(text[7..]) else None
  {
    if texts != [] {
      assert (texts + [text])[1..] == texts[1..] + [text];
      NoFailureSnoc(texts[1..], text);
    }
  }

  lemma {:induction false} FailureStays(texts: seq<string>, more: seq<string>)
    requires FirstFailedUnpack(texts).Some?
    ensures FirstFailedUnpack(texts + more) == FirstFailedUnpack(texts)
  {
    if !FailedUnpack(texts[0]) {
      assert (texts + more)[1..] == texts[1..] + more;
      FailureStays(texts[1..], more);
    }
  }

  lemma {:induction false} ReadingSnoc(texts: seq<string>, text: string, unpackOk: bool, refError: Option<string>, sawRefStatus: bool)
    requires Reading(texts, unpackOk, refError, sawRefStatus) && !FailedUnpack(text)
    ensures Reading(texts + [text], unpackOk || text == UNPACK_OK, if Refuses(text) then Some(Reason(text)) else refError,
                    sawRefStatus || Accepts(text) || Refuses(text))
  {
    hide Reason;
    var next := texts + [text];
    NoFailureSnoc(texts, text);
    assert next[..|texts|] == texts && next[|texts|] == text;
    assert forall i | 0 <= i < |texts| :: next[i] == texts[i];
  }

  lemma {:induction false} TextsConcat(a: seq<Packet>, b: seq<Packet>)
    ensures Texts(a + b) == Texts(a) + Texts(b)
  {
    if b == [] {
      assert a + b == a;
    } else {
      assert (a + b)[..|a + b| - 1] == a + b[..|b| - 1];
      TextsConcat(a, b[..|b| - 1]);
    }
  }

  // parseReceivePackResponse. Fails exactly where the framing does.
  method ParseReceivePackResponse(body: Bytes) returns (r: Result<ReceivePackResult, PktError>)
    ensures r.Ok? <==> Packets(body).Some?
    ensures r.Ok? ==> r.value == Verdict(Texts(Packets(body).value))
  {
    var lines, at := DecodePktLines(body);
    if lines.Err? { return Err(lines.error); }
    var result := ParseReport(lines.value);
    return Ok(result);
  }

  method ParseReport(packets: seq<Packet>) returns (r: ReceivePackResult)
    ensures r == Verdict(Texts(packets))
  {
    var unpackOk, sawRefStatus := false, false;
    var refError: Option<string> := None;
    hide Reading, Texts, Refs.StripNewline, IndexOf;
    NothingRead(packets);
    for i := 0 to |packets|
      invariant Reading(Texts(packets[..i]), unpackOk, refError, sawRefStatus)
    {
      NextText(packets, i);
      if packets[i].Special? { continue; }
      var text := Refs.StripNewline(Decode(packets[i].payload));
      Kinds(text);
      if StartsWith(text, UNPACK) && text != UNPACK_OK {
        StopsAt(packets, i, text, unpackOk, refError, sawRefStatus);
        return Rejected(text[7..]);
      }
      ReadingSnoc(Texts(packets[..i]), text, unpackOk, refError, sawRefStatus);
      if text == UNPACK_OK {
        unpackOk := true;
      } else if Accepts(text) {
        sawRefStatus := true;
      } else if Refuses(text) {
        sawRefStatus := true;
        var rest := text[3..];
        var space := IndexOf(rest, ' ');
        refError := Some(if space.None? then rest else rest[space.value + 1..]);
      }
    }
    assert packets[..|packets|] == packets;
    ReadingEnds(Texts(packets), unpackOk, refError, sawRefStatus);
    if refError.Some? && refError.value != "" { return Rejected(refError.value); }
    if !unpackOk || !sawRefStatus { return Rejected(NOT_CONFIRMED); }
    return Accepted;
  }

  lemma NothingRead(packets: seq<Packet>)
    ensures Reading(Texts(packets[..0]), false, None, false)
  {}

  lemma NextText(packets: seq<Packet>, i: nat)
    requires i < |packets|
    ensures packets[i].Special? ==> Texts(packets[..i + 1]) == Texts(packets[..i])
    ensures packets[i].Data? ==>
      Texts(packets[..i + 1]) == Texts(packets[..i]) + [Refs.StripNewline(Decode(packets[i].payload))]
  {
    assert packets[..i + 1][..i] == packets[..i];
  }

  lemma {:induction false} StopsAt(packets: seq<Packet>, i: nat, text: string, unpackOk: bool, refError: Option<string>, sawRefStatus: bool)
    requires i < |packets| && Reading(Texts(packets[..i]), unpackOk, refError, sawRefStatus) && FailedUnpack(text)
    requires Texts(packets[..i + 1]) == Texts(packets[..i]) + [text]
    ensures Verdict(Texts(packets)) == Rejected(text[7..])
  {
    assert packets == packets[..i + 1] + packets[i + 1..];
    hide Texts, FailedUnpack;
    TextsConcat(packets[..i + 1], packets[i + 1..]);
    NoFailureSnoc(Texts(packets[..i]), text);
    FailureStays(Texts(packets[..i + 1]), Texts(packets[i + 1..]));
  }

  lemma ReadingEnds(texts: seq<string>, unpackOk: bool, refError: Option<string>, sawRefStatus: bool)
    requires Reading(texts, unpackOk, refError, sawRefStatus)
    ensures Verdict(texts) ==
            if refError.Some? && refError.value != "" then Rejected(refError.value)
            else if !unpackOk || !sawRefStatus then Rejected(NOT_CONFIRMED)
            else Accepted
  {}

  // ---- when a push is reported as done ----------------------------------------------

  lemma {:induction false} FailureSomewhere(texts: seq<string>)
    ensures FirstFailedUnpack(texts).Some? <==> exists i | 0 <= i < |texts| :: FailedUnpack(texts[i])
  {
    if texts != [] {
      FailureSomewhere(texts[1..]);
      assert forall i | 1 <= i < |texts| :: texts[1..][i - 1] == texts[i];
    }
  }

  lemma {:induction false} ReasonOfLast(texts: seq<string>)
    ensures LastReason(texts).None? <==> forall i | 0 <= i < |texts| :: !Refuses(texts[i])
    ensures LastReason(texts).Some? ==> exists i | 0 <= i < |texts| ::
      Refuses(texts[i]) && LastReason(texts) == Some(Reason(texts[i])) && forall j | i < j < |texts| :: !Refuses(texts[j])
  {
    hide Reason, Refuses;
    if texts != [] {
      var front := texts[..|texts| - 1];
      ReasonOfLast(front);
      assert forall i | 0 <= i < |front| :: front[i] == texts[i];
      if Refuses(texts[|texts| - 1]) {
        assert LastReason(texts) == Some(Reason(texts[|texts| - 1]));
      }
    }
  }

  // Where every refusal gives a reason, a push is done exactly if the pack was unpacked, no
  // unpacking failed, some ref was accepted and none was refused.
  lemma {:induction false} AcceptedIff(texts: seq<string>)
    requires forall i | 0 <= i < |texts| && Refuses(texts[i]) :: Reason(texts[i]) != ""
    ensures Verdict(texts).Accepted? <==>
      && UNPACK_OK in texts && (forall i | 0 <= i < |texts| :: !FailedUnpack(texts[i]))
      && (exists i | 0 <= i < |texts| :: Accepts(texts[i])) && forall i | 0 <= i < |texts| :: !Refuses(texts[i])
  {
    hide FailedUnpack, Accepts, Refuses, Reason;
    FailureSomewhere(texts);
    ReasonOfLast(texts);
  }

  // A refusal without a reason is taken for success: exactly the last one decides.
  lemma {:induction false} RefusedYetAcceptedIff(texts: seq<string>)
    requires exists i | 0 <= i < |texts| :: Refuses(texts[i])
    ensures Verdict(texts).Accepted? <==>
      && UNPACK_OK in texts && (forall i | 0 <= i < |texts| :: !FailedUnpack(texts[i]))
      && exists i | 0 <= i < |texts| ::
        Refuses(texts[i]) && Reason(texts[i]) == "" && forall j | i < j < |texts| :: !Refuses(texts[j])
  {
    hide FailedUnpack, Accepts, Refuses, Reason;
    FailureSomewhere(texts);
    ReasonOfLast(texts);
  }

  // What a refusal gives as its reason: all that follows the ref's name, or the name if nothing does.
  lemma ReasonIs(ref: string, reason: string)
    requires ' ' !in ref
    ensures Refuses("ng " + ref + " " + reason) && Reason("ng " + ref + " " + reason) == reason
    ensures Refuses("ng " + ref) && Reason("ng " + ref) == ref
  {
    var refusal := "ng " + ref + " " + reason;
    assert refusal[..3] == "ng " && refusal[3..] == ref + [' '] + reason;
    IndexAfter(ref, reason, ' ');
    assert ("ng " + ref)[..3] == "ng " && ("ng " + ref)[3..] == ref;
    NoIndex(ref, ' ');
  }

  // A failed unpack, the first there is, is the reason for the verdict.
  lemma {:induction false} UnpackFailureSays(texts: seq<string>, i: nat, reason: string)
    requires i < |texts| && texts[i] == "unpack " + reason && reason != "ok"
    requires forall j | 0 <= j < i :: !FailedUnpack(texts[j])
    ensures Verdict(texts) == Rejected(reason)
  {
    FirstFailureAt(texts, i, reason);
  }

  lemma {:induction false} FirstFailureAt(texts: seq<string>, i: nat, reason: string)
    requires i < |texts| && texts[i] == "unpack " + reason && reason != "ok"
    requires forall j | 0 <= j < i :: !FailedUnpack(texts[j])
    ensures FirstFailedUnpack(texts) == Some(reason)
  {
    if i == 0 {
      var text := texts[0];
      assert text[..7] == UNPACK && text[7..] == reason && UNPACK_OK[7..] == "ok";
    } else {
      assert forall j | 0 <= j < i - 1 :: texts[1..][j] == texts[j + 1];
      FirstFailureAt(texts[1..], i - 1, reason);
    }
  }

  // Otherwise it is the last refusal, if that gives a reason; and if there is none, an unpack or a
  // status that is missing.
  lemma {:induction false} RefusalSays(texts: seq<string>, i: nat, ref: string, reason: string)
    requires forall j | 0 <= j < |texts| :: !FailedUnpack(texts[j])
    requires i < |texts| && texts[i] == "ng " + ref + " " + reason && ' ' !in ref && reason != ""
    requires forall j | i < j < |texts| :: !Refuses(texts[j])
    ensures Verdict(texts) == Rejected(reason)
  {
    ReasonIs(ref, reason);
    ReasonOfLast(texts);
    FailureSomewhere(texts);
    hide Refuses, Reason, Accepts, FailedUnpack, FirstFailedUnpack, LastReason;
  }

  lemma {:induction false} UnconfirmedSays(texts: seq<string>)
    requires forall j | 0 <= j < |texts| :: !FailedUnpack(texts[j]) && !Refuses(texts[j])
    ensures Verdict(texts) == if UNPACK_OK in texts && (exists j | 0 <= j < |texts| :: Accepts(texts[j])) then Accepted else Rejected(NOT_CONFIRMED)
  {
    ReasonOfLast(texts);
    FailureSomewhere(texts);
    hide Refuses, Reason, Accepts, FailedUnpack, FirstFailedUnpack, LastReason;
  }

  lemma EmptyReasonAccepted(ref: string)
    requires ' ' !in ref
    ensures Refuses("ng " + ref + " ") && Verdict([UNPACK_OK, "ng " + ref + " "]).Accepted?
  {
    var texts := [UNPACK_OK, "ng " + ref + " "];
    assert texts[1] == "ng " + ref + " " + "";
    ReasonIs(ref, "");
    Kinds(texts[1]);
    hide Refuses, Reason, Accepts, Verdict;
    assert texts[0] == UNPACK_OK && texts[1] == "ng " + ref + " ";
    assert !FailedUnpack(texts[0]) && !FailedUnpack(texts[1]);
    RefusedYetAcceptedIff(texts);
  }
}
