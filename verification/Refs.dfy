// src/server/git/refs.ts: reading a ref advertisement (gitprotocol-http, "Smart Server
// Response") and sorting its refs into branches and tags.
module Refs {
  import opened Wrappers
  import opened Bytes
  import opened GitTypes
  import opened Text
  import opened PktLine
  import opened Sorting

  datatype GitRef = GitRef(name: string, sha: string)

  datatype Advertisement = Advertisement(refs: seq<GitRef>, capabilities: seq<string>, headRef: Option<string>)

  const BANNER := "# service="
  const SERVICE := "git-upload-pack"
  const PLACEHOLDER := "capabilities^{}"
  const SYMREF := "symref=HEAD:"

  // Without one final newline.
  function StripNewline(text: string): string {
    if text != "" && text[|text| - 1] == '\n' then text[..|text| - 1] else text
  }

  // What stands between spaces.
  function Words(s: string): seq<string> { NonEmpty(Split(s, ' ')) }

  function NonEmpty(parts: seq<string>): seq<string> {
    if parts == [] then [] else (if parts[0] == "" then [] else [parts[0]]) + NonEmpty(parts[1..])
  }

  // ---- parseRefAdvertisement --------------------------------------------------------

  datatype Progress = Progress(refs: seq<GitRef>, capabilities: seq<string>, sawBanner: bool)

  function AddRef(p: Progress, refPart: string): Progress {
    match IndexOf(refPart, ' ')
    case None => p
    case Some(space) =>
      var sha, name := refPart[..space], refPart[space + 1..];
      if !IsSha(sha) || name == PLACEHOLDER || sha == ZERO_SHA then p
      else p.(refs := p.refs + [GitRef(name, sha)])
  }

  function ReadText(p: Progress, text: string): Progress {
    if !p.sawBanner && StartsWith(text, BANNER) then p.(sawBanner := true)
    else if text == "" then p
    else
      match IndexOf(text, '\0')
      case None => AddRef(p, text)
      case Some(nul) =>
        AddRef(if p.capabilities == [] then p.(capabilities := Words(text[nul + 1..])) else p, text[..nul])
  }

  function ReadLine(p: Progress, packet: Packet): Progress {
    match packet case Special(_) => p case Data(payload) => ReadText(p, StripNewline(Decode(payload)))
  }

  function ReadAll(p: Progress, packets: seq<Packet>): Progress
    decreases |packets|
  {
    if packets == [] then p else ReadAll(ReadLine(p, packets[0]), packets[1..])
  }

  // The first capability that names HEAD's branch decides.
  function HeadRef(capabilities: seq<string>): Option<string> {
    if capabilities == [] then None
    else if StartsWith(capabilities[0], SYMREF) then Some(capabilities[0][|SYMREF|..])
    else HeadRef(capabilities[1..])
  }

  // Which branch HEAD is on: the one the first capability of that kind names, if there is one.
  ghost predicate NamesHead(capabilities: seq<string>, headRef: Option<string>) {
    match headRef
    case Some(r) => exists i | 0 <= i < |capabilities| ::
      capabilities[i] == SYMREF + r && forall j | 0 <= j < i :: !StartsWith(capabilities[j], SYMREF)
    case None => forall i | 0 <= i < |capabilities| :: !StartsWith(capabilities[i], SYMREF)
  }

  lemma {:induction false} HeadRefIff(capabilities: seq<string>, headRef: Option<string>)
    ensures headRef == HeadRef(capabilities) <==> NamesHead(capabilities, headRef)
  {
    HeadRefNames(capabilities);
    if headRef.Some? && NamesHead(capabilities, headRef) {
      var i :| 0 <= i < |capabilities| && capabilities[i] == SYMREF + headRef.value
               && forall j | 0 <= j < i :: !StartsWith(capabilities[j], SYMREF);
      HeadRefAt(capabilities, i, headRef.value);
    }
  }

  lemma {:induction false} HeadRefNames(capabilities: seq<string>)
    ensures NamesHead(capabilities, HeadRef(capabilities))
  {
    if capabilities != [] {
      var first, rest := capabilities[0], capabilities[1..];
      HeadRefNames(rest);
      if StartsWith(first, SYMREF) {
        assert first == SYMREF + first[|SYMREF|..];
      } else if HeadRef(rest).Some? {
        var r := HeadRef(rest).value;
        var i :| 0 <= i < |rest| && rest[i] == SYMREF + r && forall j | 0 <= j < i :: !StartsWith(rest[j], SYMREF);
        assert capabilities[i + 1] == SYMREF + r;
        forall j | 0 <= j < i + 1 ensures !StartsWith(capabilities[j], SYMREF) {
          if j > 0 { assert capabilities[j] == rest[j - 1]; }
        }
      }
    }
  }

  lemma {:induction false} HeadRefAt(capabilities: seq<string>, i: int, r: string)
    requires 0 <= i < |capabilities| && capabilities[i] == SYMREF + r
    requires forall j | 0 <= j < i :: !StartsWith(capabilities[j], SYMREF)
    ensures HeadRef(capabilities) == Some(r)
  {
    if i == 0 {
      assert StartsWith(SYMREF + r, SYMREF) && (SYMREF + r)[|SYMREF|..] == r;
    } else {
      var rest := capabilities[1..];
      assert forall j | 0 <= j < i - 1 :: rest[j] == capabilities[j + 1];
      HeadRefAt(rest, i - 1, r);
    }
  }

  function Parsed(packets: seq<Packet>): Advertisement {
    var p := ReadAll(Progress([], [], false), packets);
    Advertisement(p.refs, p.capabilities, HeadRef(p.capabilities))
  }

  // One packet of the advertisement.
  method ParseLine(packet: Packet, refs: seq<GitRef>, capabilities: seq<string>, sawBanner: bool)
    returns (refs': seq<GitRef>, capabilities': seq<string>, sawBanner': bool)
    ensures Progress(refs', capabilities', sawBanner') == ReadLine(Progress(refs, capabilities, sawBanner), packet)
  {
    hide IsSha, IndexOf, StartsWith, Words, StripNewline, Decode;
    refs', capabilities', sawBanner' := refs, capabilities, sawBanner;
    if packet.Special? { return; }
    var text := StripNewline(Decode(packet.payload));
    if !sawBanner && StartsWith(text, BANNER) {
      sawBanner' := true;
      return;
    }
    if text == "" { return; }
    var nul := IndexOf(text, '\0');
    var refPart := if nul.None? then text else text[..nul.value];
    if nul.Some? && |capabilities| == 0 { capabilities' := Words(text[nul.value + 1..]); }
    var space := IndexOf(refPart, ' ');
    if space.None? { return; }
    var sha, name := refPart[..space.value], refPart[space.value + 1..];
    if !IsSha(sha) { return; }
    if name == PLACEHOLDER || sha == ZERO_SHA { return; }
    refs' := refs + [GitRef(name, sha)];
  }

  // Fails exactly where the framing does.
  method ParseRefAdvertisement(body: Bytes) returns (r: Result<Advertisement, PktError>)
    ensures r.Ok? <==> Packets(body).Some?
    ensures r.Ok? ==> r.value == Parsed(Packets(body).value)
  {
    var lines, at := DecodePktLines(body);
    if lines.Err? { return Err(lines.error); }
    var packets := lines.value;
    hide ReadLine;
    var refs: seq<GitRef>, capabilities: seq<string>, sawBanner := [], [], false;
    for i := 0 to |packets|
      invariant ReadAll(Progress(refs, capabilities, sawBanner), packets[i..]) == ReadAll(Progress([], [], false), packets)
    {
      assert packets[i..][1..] == packets[i + 1..];
      refs, capabilities, sawBanner := ParseLine(packets[i], refs, capabilities, sawBanner);
    }
    return Ok(Advertisement(refs, capabilities, HeadRef(capabilities)));
  }

  // ---- an advertisement as a server prints it ---------------------------------------

  predicate ProperRef(ref: GitRef) {
    IsSha(ref.sha) && ref.sha != ZERO_SHA && ref.name != PLACEHOLDER && '\0' !in ref.name && Latin1(ref.name)
  }

  predicate ProperCapability(c: string) { c != "" && Piece(c, ' ') && Latin1(c) }

  ghost predicate WellFormed(a: Advertisement) {
    && (forall i | 0 <= i < |a.refs| :: ProperRef(a.refs[i]))
    && (forall i | 0 <= i < |a.capabilities| :: ProperCapability(a.capabilities[i]))
    && NamesHead(a.capabilities, a.headRef)
  }

  // The placeholder an empty repository's capabilities ride on.
  function FirstRef(a: Advertisement): GitRef {
    if a.refs == [] then GitRef(PLACEHOLDER, ZERO_SHA) else a.refs[0]
  }

  function FirstText(a: Advertisement): string {
    FirstRef(a).sha + " " + FirstRef(a).name + ['\0'] + Join(a.capabilities, ' ')
  }

  function RefText(ref: GitRef): string { ref.sha + " " + ref.name }

  // Latin-1 text as a line; characters a byte cannot hold never get here.
  function Line(text: string): Packet {
    if Latin1(text + "\n") then Data(Encode(text + "\n")) else Special(0)
  }

  function RefLines(refs: seq<GitRef>): seq<Packet> {
    if refs == [] then [] else [Line(RefText(refs[0]))] + RefLines(refs[1..])
  }

  function Printed(a: Advertisement): seq<Packet> {
    [Line(BANNER + SERVICE), Special(0), Line(FirstText(a))]
    + RefLines(if a.refs == [] then [] else a.refs[1..]) + [Special(0)]
  }

  lemma LineReads(p: Progress, text: string)
    requires Latin1(text)
    ensures ReadLine(p, Line(text)) == ReadText(p, text)
  {
    DecodeEncode(text + "\n");
    assert (text + "\n")[..|text|] == text;
  }

  lemma {:induction false} RefReads(p: Progress, ref: GitRef)
    requires IsSha(ref.sha)
    ensures AddRef(p, RefText(ref)) == if ref.name == PLACEHOLDER || ref.sha == ZERO_SHA then p else p.(refs := p.refs + [ref])
  {
    IndexAfter(ref.sha, ref.name, ' ');
    assert RefText(ref) == ref.sha + [' '] + ref.name;
    assert RefText(ref)[..40] == ref.sha && RefText(ref)[41..] == ref.name;
  }

  // A line that starts with an id is no banner.
  lemma NoBanner(ref: GitRef, more: string)
    requires IsSha(ref.sha)
    ensures !StartsWith(RefText(ref) + more, BANNER)
  {
    assert (RefText(ref) + more)[0] == ref.sha[0] && BANNER[0] == '#' && ref.sha[0] != '#';
  }

  lemma {:induction false} RefLineReads(p: Progress, ref: GitRef)
    requires ProperRef(ref)
    ensures ReadLine(p, Line(RefText(ref))) == p.(refs := p.refs + [ref])
  {
    RefTextIsPlain(ref);
    RefReads(p, ref);
    hide IndexOf, AddRef, Line, ReadLine, StartsWith, IsSha, RefText, Latin1;
    LineReads(p, RefText(ref));
    NoIndex(RefText(ref), '\0');
  }

  lemma RefTextIsPlain(ref: GitRef)
    requires ProperRef(ref)
    ensures '\0' !in RefText(ref) && Latin1(RefText(ref)) && RefText(ref) != "" && !StartsWith(RefText(ref), BANNER)
  {
    NoBanner(ref, "");
    assert RefText(ref) + "" == RefText(ref);
    hide StartsWith;
  }

  lemma {:induction false} RefLinesRead(p: Progress, refs: seq<GitRef>)
    requires forall i | 0 <= i < |refs| :: ProperRef(refs[i])
    ensures ReadAll(p, RefLines(refs) + [Special(0)]) == p.(refs := p.refs + refs)
    decreases |refs|
  {
    if refs == [] {
      assert RefLines(refs) + [Special(0)] == [Special(0)];
      assert p.refs + [] == p.refs;
    } else {
      RefLinesRead(p.(refs := p.refs + [refs[0]]), refs[1..]);
      OneRefMore(p, refs);
    }
  }

  lemma OneRefMore(p: Progress, refs: seq<GitRef>)
    requires refs != [] && ProperRef(refs[0])
    requires var next := p.(refs := p.refs + [refs[0]]);
      ReadAll(next, RefLines(refs[1..]) + [Special(0)]) == next.(refs := next.refs + refs[1..])
    ensures ReadAll(p, RefLines(refs) + [Special(0)]) == p.(refs := p.refs + refs)
  {
    hide *;
    RefLinesFirst(refs);
    var line, tail := Line(RefText(refs[0])), RefLines(refs[1..]) + [Special(0)];
    assert RefLines(refs) + [Special(0)] == [line] + tail;
    RefLineReads(p, refs[0]);
    ReadNext(p, line, tail);
    assert p.refs + refs == (p.refs + [refs[0]]) + refs[1..];
  }

  lemma RefLinesFirst(refs: seq<GitRef>)
    requires refs != []
    ensures RefLines(refs) == [Line(RefText(refs[0]))] + RefLines(refs[1..])
  {}

  lemma {:induction false} WordsOfJoin(parts: seq<string>)
    requires forall i | 0 <= i < |parts| :: ProperCapability(parts[i])
    ensures Words(Join(parts, ' ')) == parts
  {
    if parts == [] {
      assert Split("", ' ') == [""];
    } else {
      SplitJoin(parts, ' ');
      AllNonEmpty(parts);
    }
  }

  lemma {:induction false} AllNonEmpty(parts: seq<string>)
    requires forall i | 0 <= i < |parts| :: parts[i] != ""
    ensures NonEmpty(parts) == parts
  {
    if parts != [] {
      AllNonEmpty(parts[1..]);
      assert parts == [parts[0]] + parts[1..];
    }
  }

  lemma {:induction false} JoinLatin1(parts: seq<string>)
    requires forall i | 0 <= i < |parts| :: ProperCapability(parts[i])
    ensures Latin1(Join(parts, ' '))
  {
    if |parts| > 1 { JoinLatin1(parts[1..]); }
  }

  lemma FirstIsSound(a: Advertisement)
    requires WellFormed(a)
    ensures IsSha(FirstRef(a).sha) && '\0' !in RefText(FirstRef(a)) && Latin1(RefText(FirstRef(a)))
  {
    if a.refs == [] { PlaceholderIsSound(); }
  }

  lemma PlaceholderIsSound()
    ensures var ref := GitRef(PLACEHOLDER, ZERO_SHA);
      IsSha(ref.sha) && '\0' !in RefText(ref) && Latin1(RefText(ref))
  {
    ZeroText();
    hide Latin1;
    LatinParts(ZERO_SHA, PLACEHOLDER);
  }

  lemma LatinParts(sha: string, name: string)
    requires Latin1(sha) && Latin1(name)
    ensures Latin1(sha + " " + name)
  {}

  lemma ZeroText()
    ensures IsSha(ZERO_SHA) && Latin1(ZERO_SHA) && '\0' !in ZERO_SHA
  {
    assert forall i | 0 <= i < |ZERO_SHA| :: ZERO_SHA[i] == '0';
  }

  lemma {:induction false} FirstReads(a: Advertisement)
    requires WellFormed(a)
    ensures ReadText(Progress([], [], true), FirstText(a))
         == Progress(if a.refs == [] then [] else [a.refs[0]], a.capabilities, true)
    ensures Latin1(FirstText(a))
  {
    hide IndexOf, AddRef, Words, Join, ProperRef, ProperCapability, IsSha, FirstRef, RefText, Latin1, ReadText;
    FirstIsSound(a);
    JoinLatin1(a.capabilities);
    WordsOfJoin(a.capabilities);
    FirstAdds(a);
    FirstSplits(RefText(FirstRef(a)), Join(a.capabilities, ' '), a.capabilities);
    FirstTextIs(a);
  }

  lemma FirstTextIs(a: Advertisement)
    ensures FirstText(a) == RefText(FirstRef(a)) + ['\0'] + Join(a.capabilities, ' ')
  {
    hide FirstRef, Join;
  }

  lemma FirstAdds(a: Advertisement)
    requires WellFormed(a)
    ensures AddRef(Progress([], a.capabilities, true), RefText(FirstRef(a)))
         == Progress(if a.refs == [] then [] else [a.refs[0]], a.capabilities, true)
  {
    FirstIsSound(a);
    hide AddRef, RefText, IsSha;
    RefReads(Progress([], a.capabilities, true), FirstRef(a));
  }

  // What stands before the NUL names a ref, what stands behind it the capabilities.
  lemma FirstSplits(head: string, words: string, capabilities: seq<string>)
    requires '\0' !in head && Latin1(head) && Latin1(words) && Words(words) == capabilities
    ensures Latin1(head + ['\0'] + words)
    ensures ReadText(Progress([], [], true), head + ['\0'] + words) == AddRef(Progress([], capabilities, true), head)
  {
    hide IndexOf, AddRef, Words;
    var text := head + ['\0'] + words;
    IndexAfter(head, words, '\0');
    assert text[..|head|] == head && text[|head| + 1..] == words;
  }

  // A printed advertisement is read back: the same refs in the same order, the same capabilities
  // and the same HEAD.
  lemma {:induction false} AdvertisementReadsBack(a: Advertisement)
    requires WellFormed(a)
    ensures Parsed(Printed(a)) == a
  {
    HeadRefIff(a.capabilities, a.headRef);
    hide NamesHead, ReadText, ReadLine, ReadAll, RefLines, FirstText, Line, HeadRef;
    var p1 := Progress([], [], true);
    var rest := if a.refs == [] then [] else a.refs[1..];
    FirstReads(a);
    LineReads(p1, FirstText(a));
    HeadReads(Line(FirstText(a)), RefLines(rest));
    RefLinesRead(ReadText(p1, FirstText(a)), rest);
    assert a.refs != [] ==> [a.refs[0]] + a.refs[1..] == a.refs;
  }

  // The banner makes no difference: without it and its flush the same is read.
  lemma {:induction false} BannerIsOptional(a: Advertisement)
    requires WellFormed(a)
    ensures Parsed(Printed(a)[2..]) == a
  {
    HeadRefIff(a.capabilities, a.headRef);
    FirstIsNoBanner(a);
    FirstReads(a);
    BannerAside(FirstText(a));
    hide NamesHead, ReadText, ReadLine, ReadAll, RefLines, FirstText, Line, HeadRef, StartsWith;
    LinesRead(a, FirstText(a));
  }

  lemma FirstIsNoBanner(a: Advertisement)
    requires WellFormed(a)
    ensures !StartsWith(FirstText(a), BANNER)
  {
    FirstIsSound(a);
    FirstTextIs(a);
    hide *;
    NoBanner(FirstRef(a), ['\0'] + Join(a.capabilities, ' '));
    assert RefText(FirstRef(a)) + (['\0'] + Join(a.capabilities, ' ')) == RefText(FirstRef(a)) + ['\0'] + Join(a.capabilities, ' ');
  }

  lemma LinesRead(a: Advertisement, first: string)
    requires WellFormed(a) && first == FirstText(a) && Latin1(first)
    requires ReadText(Progress([], [], false), first) == Progress(if a.refs == [] then [] else [a.refs[0]], a.capabilities, false)
    ensures ReadAll(Progress([], [], false), Printed(a)[2..]) == Progress(a.refs, a.capabilities, false)
  {
    PrintedLines(a);
    RefsWhole(a);
    hide *;
    var none, rest := Progress([], [], false), if a.refs == [] then [] else a.refs[1..];
    LineReads(none, first);
    ReadNext(none, Line(first), RefLines(rest) + [Special(0)]);
    RefLinesRead(ReadText(none, first), rest);
  }

  lemma PrintedLines(a: Advertisement)
    ensures Printed(a)[2..] ==
      [Line(FirstText(a))] + (RefLines(if a.refs == [] then [] else a.refs[1..]) + [Special(0)])
  {
    hide RefLines, Line, FirstText;
  }

  lemma RefsWhole(a: Advertisement)
    requires WellFormed(a)
    ensures var rest := if a.refs == [] then [] else a.refs[1..];
      (if a.refs == [] then [] else [a.refs[0]]) + rest == a.refs && forall i | 0 <= i < |rest| :: ProperRef(rest[i])
  {
    hide ProperRef, ProperCapability, NamesHead;
  }

  lemma BannerAside(text: string)
    requires !StartsWith(text, BANNER)
    ensures ReadText(Progress([], [], false), text) == ReadText(Progress([], [], true), text).(sawBanner := false)
  {
    hide IndexOf, Words, IsSha, StartsWith;
  }

  // Banner and flush are read past.
  lemma HeadReads(first: Packet, lines: seq<Packet>)
    ensures var p1 := Progress([], [], true);
      ReadAll(Progress([], [], false), [Line(BANNER + SERVICE), Special(0), first] + lines + [Special(0)]) ==
      ReadAll(ReadLine(p1, first), lines + [Special(0)])
  {
    BannerReads();
    SpecialReads(Progress([], [], true));
    hide *;
    var p1, tail := Progress([], [], true), lines + [Special(0)];
    var banner := Line(BANNER + SERVICE);
    assert [banner, Special(0), first] + lines + [Special(0)] == [banner] + ([Special(0)] + ([first] + tail));
    ReadNext(Progress([], [], false), banner, [Special(0)] + ([first] + tail));
    ReadNext(p1, Special(0), [first] + tail);
    ReadNext(p1, first, tail);
  }

  lemma ReadNext(p: Progress, packet: Packet, rest: seq<Packet>)
    ensures ReadAll(p, [packet] + rest) == ReadAll(ReadLine(p, packet), rest)
  {
    assert ([packet] + rest)[1..] == rest;
  }

  lemma SpecialReads(p: Progress)
    ensures ReadLine(p, Special(0)) == p
  {}

  lemma BannerReads()
    ensures ReadLine(Progress([], [], false), Line(BANNER + SERVICE)) == Progress([], [], true)
  {
    BannerText();
    hide Latin1, Line, ReadLine;
    StartsReads(BANNER + SERVICE);
  }

  lemma BannerText()
    ensures Latin1(BANNER + SERVICE)
  {
    assert forall i | 0 <= i < |BANNER| :: BANNER[i] <= '~';
    assert forall i | 0 <= i < |SERVICE| :: SERVICE[i] <= '~';
  }

  lemma StartsReads(text: string)
    requires StartsWith(text, BANNER) && Latin1(text)
    ensures ReadLine(Progress([], [], false), Line(text)) == Progress([], [], true)
  {
    LineReads(Progress([], [], false), text);
    hide IndexOf, AddRef, Line, ReadLine;
  }

  // The same over the wire, as long as each line fits a packet.
  lemma {:induction false} WireReadsBack(a: Advertisement)
    requires WellFormed(a) && forall i | 0 <= i < |Printed(a)| :: Encodable(Printed(a)[i])
    ensures Packets(FrameAll(Printed(a))).Some? && Parsed(Packets(FrameAll(Printed(a))).value) == a
  {
    FramesReadBack(Printed(a));
    AdvertisementReadsBack(a);
  }

  // An id of an object, not under the placeholder's name.
  predicate Real(ref: GitRef) { IsSha(ref.sha) && ref.sha != ZERO_SHA && ref.name != PLACEHOLDER }

  lemma LineAddsReal(p: Progress, packet: Packet)
    ensures var after := ReadLine(p, packet).refs;
      after == p.refs || (|after| == |p.refs| + 1 && after[..|p.refs|] == p.refs && Real(after[|p.refs|]))
    ensures p.capabilities != [] ==> ReadLine(p, packet).capabilities == p.capabilities
  {
    hide IsSha, IndexOf, Words, Decode, StripNewline;
  }

  // The first capabilities stand.
  lemma {:induction false} CapabilitiesStay(p: Progress, packets: seq<Packet>)
    requires p.capabilities != []
    ensures ReadAll(p, packets).capabilities == p.capabilities
    decreases |packets|
  {
    if packets != [] {
      hide ReadLine;
      LineAddsReal(p, packets[0]);
      CapabilitiesStay(ReadLine(p, packets[0]), packets[1..]);
    }
  }

  // Whatever the packets say, only real ids get through.
  lemma {:induction false} RefsAreProper(p: Progress, packets: seq<Packet>)
    requires forall ref | ref in p.refs :: Real(ref)
    ensures forall ref | ref in ReadAll(p, packets).refs :: Real(ref)
    ensures p.refs <= ReadAll(p, packets).refs
    decreases |packets|
  {
    if packets != [] {
      hide ReadLine, Real;
      LineAddsReal(p, packets[0]);
      RefsAreProper(ReadLine(p, packets[0]), packets[1..]);
    }
  }

  // ---- resolveRefs ------------------------------------------------------------------

  datatype ResolvedRefs = ResolvedRefs(branches: seq<GitRef>, tags: seq<GitRef>, headBranch: Option<string>)

  const HEADS := "refs/heads/"
  const TAGS := "refs/tags/"
  const PEEL := "^{}"

  // Refs by name and by name backwards, names compared as localeCompare does: by some order in
  // which different names may be equal.
  function ByName(before: (string, string) -> bool): (GitRef, GitRef) -> bool {
    (a: GitRef, b: GitRef) => before(a.name, b.name)
  }

  function Backwards(before: (string, string) -> bool): (GitRef, GitRef) -> bool {
    (a: GitRef, b: GitRef) => before(b.name, a.name)
  }

  ghost predicate UniqueNames(refs: seq<GitRef>) {
    forall i, j | 0 <= i < j < |refs| :: refs[i].name != refs[j].name
  }

  ghost predicate IsBranch(refs: seq<GitRef>, name: string, sha: string) { GitRef(HEADS + name, sha) in refs }

  // A tag is the commit its peeled line names or, without such a line, the object its own line names.
  ghost predicate IsTag(refs: seq<GitRef>, name: string, sha: string) {
    || GitRef(TAGS + name + PEEL, sha) in refs
    || (!EndsWith(name, PEEL) && GitRef(TAGS + name, sha) in refs && forall s :: GitRef(TAGS + name + PEEL, s) !in refs)
  }

  // No name stands after one that it comes before; and the other way round.
  ghost predicate Ascending(refs: seq<GitRef>, before: (string, string) -> bool) {
    forall i, j | 0 <= i < j < |refs| :: !before(refs[j].name, refs[i].name)
  }

  ghost predicate Descending(refs: seq<GitRef>, before: (string, string) -> bool) {
    forall i, j | 0 <= i < j < |refs| :: !before(refs[i].name, refs[j].name)
  }

  lemma OrdersAre(refs: seq<GitRef>, before: (string, string) -> bool)
    ensures Sorted(refs, ByName(before)) <==> Ascending(refs, before)
    ensures Sorted(refs, Backwards(before)) <==> Descending(refs, before)
  {
    var less, more := ByName(before), Backwards(before);
    assert forall i, j | 0 <= i < j < |refs| :: less(refs[j], refs[i]) == before(refs[j].name, refs[i].name);
    assert forall i, j | 0 <= i < j < |refs| :: more(refs[j], refs[i]) == before(refs[i].name, refs[j].name);
  }

  ghost predicate Resolves(r: ResolvedRefs, a: Advertisement, before: (string, string) -> bool) {
    && Ascending(r.branches, before) && Descending(r.tags, before)
    && UniqueNames(r.branches) && UniqueNames(r.tags)
    && (forall name, sha :: GitRef(name, sha) in r.branches <==> IsBranch(a.refs, name, sha))
    && (forall name, sha :: GitRef(name, sha) in r.tags <==> IsTag(a.refs, name, sha))
    && HeadOf(r.headBranch, a.headRef)
  }

  ghost predicate HeadOf(headBranch: Option<string>, headRef: Option<string>) {
    && (headBranch.Some? <==> headRef.Some? && StartsWith(headRef.value, HEADS))
    && (headBranch.Some? ==> headRef == Some(HEADS + headBranch.value))
  }

  // The branches with their prefix dropped, in the order advertised.
  function BranchesOf(refs: seq<GitRef>): seq<GitRef> {
    if refs == [] then []
    else
      var last := refs[|refs| - 1];
      BranchesOf(refs[..|refs| - 1]) + if StartsWith(last.name, HEADS) then [GitRef(last.name[|HEADS|..], last.sha)] else []
  }

  // What the Map of tags holds after some refs.
  function TagMap(refs: seq<GitRef>): map<string, string> {
    if refs == [] then map[]
    else
      var before, last := TagMap(refs[..|refs| - 1]), refs[|refs| - 1];
      if StartsWith(last.name, HEADS) || !StartsWith(last.name, TAGS) then before
      else
        var raw := last.name[|TAGS|..];
        if EndsWith(raw, PEEL) then before[raw[..|raw| - 3] := last.sha]
        else if raw in before then before
        else before[raw := last.sha]
  }

  lemma NotBoth(name: string)
    ensures !(StartsWith(name, HEADS) && StartsWith(name, TAGS))
  {
    assert HEADS[5] == 'h' && TAGS[5] == 't';
    assert StartsWith(name, HEADS) ==> name[..|HEADS|][5] == name[5];
    assert StartsWith(name, TAGS) ==> name[..|TAGS|][5] == name[5];
  }

  lemma {:induction false} BranchesAre(refs: seq<GitRef>)
    ensures forall name, sha :: GitRef(name, sha) in BranchesOf(refs) <==> IsBranch(refs, name, sha)
  {
    if refs != [] {
      var front, last := refs[..|refs| - 1], refs[|refs| - 1];
      BranchesAre(front);
      assert refs == front + [last];
      forall name, sha ensures GitRef(name, sha) in BranchesOf(refs) <==> IsBranch(refs, name, sha) {
        assert GitRef(name, sha) in BranchesOf(front) <==> IsBranch(front, name, sha);
        assert (HEADS + name)[..|HEADS|] == HEADS && (HEADS + name)[|HEADS|..] == name;
        assert StartsWith(last.name, HEADS) ==> last.name == HEADS + last.name[|HEADS|..];
      }
    }
  }

  // How a new line changes what a name's tag is.
  lemma {:induction false} TagStep(front: seq<GitRef>, last: GitRef, name: string, sha: string)
    requires UniqueNames(front + [last])
    ensures var refs := front + [last];
      if last.name == TAGS + name + PEEL then IsTag(refs, name, sha) <==> sha == last.sha
      else if last.name == TAGS + name && !EndsWith(name, PEEL) then
        IsTag(refs, name, sha) <==> IsTag(front, name, sha) || (sha == last.sha && forall s :: !IsTag(front, name, s))
      else IsTag(refs, name, sha) <==> IsTag(front, name, sha)
  {
    var refs := front + [last];
    assert forall ref :: ref in refs <==> ref in front || ref == last;
    forall ref | ref in front ensures ref.name != last.name {
      var i :| 0 <= i < |front| && front[i] == ref;
      assert refs[i] == ref && refs[|front|] == last;
    }
    assert |TAGS + name + PEEL| != |TAGS + name|;
    if last.name == TAGS + name + PEEL {
      assert last == GitRef(TAGS + name + PEEL, last.sha);
      assert forall s :: GitRef(TAGS + name + PEEL, s) in refs <==> s == last.sha;
    } else {
      assert forall s :: GitRef(TAGS + name + PEEL, s) in refs <==> GitRef(TAGS + name + PEEL, s) in front;
      if last.name == TAGS + name && !EndsWith(name, PEEL) {
        assert forall s :: GitRef(TAGS + name, s) !in front;
        assert last == GitRef(TAGS + name, last.sha);
        assert IsTag(front, name, sha) <==> GitRef(TAGS + name + PEEL, sha) in front;
        assert forall s :: IsTag(front, name, s) <==> GitRef(TAGS + name + PEEL, s) in front;
      }
    }
  }

  // With names that do not repeat, the peeled line wins wherever it stands.
  lemma {:induction false} TagsAre(refs: seq<GitRef>)
    requires UniqueNames(refs)
    ensures forall name, sha :: (name in TagMap(refs) && TagMap(refs)[name] == sha) <==> IsTag(refs, name, sha)
  {
    if refs != [] {
      var front, last := refs[..|refs| - 1], refs[|refs| - 1];
      assert refs == front + [last];
      TagsAre(front);
      forall name, sha ensures (name in TagMap(refs) && TagMap(refs)[name] == sha) <==> IsTag(refs, name, sha) {
        TagAfter(front, last, name, sha);
      }
    }
  }

  lemma {:induction false} TagAfter(front: seq<GitRef>, last: GitRef, name: string, sha: string)
    requires UniqueNames(front + [last])
    requires forall n, s :: (n in TagMap(front) && TagMap(front)[n] == s) <==> IsTag(front, n, s)
    ensures var after := TagMap(front + [last]);
      (name in after && after[name] == sha) <==> IsTag(front + [last], name, sha)
  {
    hide TagMap, IsTag, UniqueNames;
    TagStep(front, last, name, sha);
    TagMapStep(front, last, name);
    var before := TagMap(front);
    assert name in before ==> IsTag(front, name, before[name]);
    assert forall s | IsTag(front, name, s) :: name in before && before[name] == s;
  }

  lemma {:induction false} TagMapStep(front: seq<GitRef>, last: GitRef, name: string)
    ensures var before, after := TagMap(front), TagMap(front + [last]);
      if last.name == TAGS + name + PEEL then name in after && after[name] == last.sha
      else if last.name == TAGS + name && !EndsWith(name, PEEL) then
        name in after && after[name] == if name in before then before[name] else last.sha
      else (name in after <==> name in before) && (name in before ==> after[name] == before[name])
  {
    var refs := front + [last];
    assert refs[..|front|] == front;
    NotBoth(last.name);
    TagNames(name, last.name);
    hide StartsWith, EndsWith;
  }

  // Which names a line's name stands for.
  lemma TagNames(name: string, full: string)
    ensures StartsWith(TAGS + name, TAGS) && (TAGS + name)[|TAGS|..] == name
    ensures StartsWith(TAGS + name + PEEL, TAGS) && (TAGS + name + PEEL)[|TAGS|..] == name + PEEL
    ensures EndsWith(name + PEEL, PEEL) && (name + PEEL)[..|name|] == name
    ensures StartsWith(full, TAGS) ==>
      var raw := full[|TAGS|..];
      full == TAGS + raw && (EndsWith(raw, PEEL) ==> |raw| >= 3 && raw == raw[..|raw| - 3] + PEEL && full == TAGS + raw[..|raw| - 3] + PEEL)
  {
    assert (TAGS + name + PEEL) == TAGS + (name + PEEL);
    if StartsWith(full, TAGS) && EndsWith(full[|TAGS|..], PEEL) {
      var raw := full[|TAGS|..];
      assert raw == raw[..|raw| - 3] + PEEL;
      assert full == TAGS + (raw[..|raw| - 3] + PEEL);
    }
  }

  // What a Map of tags holds, in whatever order it gives it.
  method TagsOf(tags: map<string, string>) returns (xs: seq<GitRef>)
    ensures UniqueNames(xs) && forall name, sha :: GitRef(name, sha) in xs <==> name in tags && tags[name] == sha
  {
    hide NoRepeats;
    var names := Members(tags.Keys);
    xs := [];
    for i := 0 to |names|
      invariant |xs| == i && forall k | 0 <= k < i :: names[k] in tags && xs[k] == GitRef(names[k], tags[names[k]])
    {
      assert names[i] in tags.Keys;
      xs := xs + [GitRef(names[i], tags[names[i]])];
    }
    UniqueTags(names, xs, tags);
  }

  lemma UniqueTags(names: seq<string>, xs: seq<GitRef>, tags: map<string, string>)
    requires NoRepeats(names) && (forall name :: name in names <==> name in tags.Keys) && |xs| == |names|
    requires forall k | 0 <= k < |xs| :: names[k] in tags && xs[k] == GitRef(names[k], tags[names[k]])
    ensures UniqueNames(xs) && forall name, sha :: GitRef(name, sha) in xs <==> name in tags && tags[name] == sha
  {
    forall name, sha | name in tags && tags[name] == sha ensures GitRef(name, sha) in xs {
      assert name in tags.Keys;
      var k :| 0 <= k < |names| && names[k] == name;
      assert xs[k] == GitRef(name, sha);
    }
  }

  lemma NameOrders(before: (string, string) -> bool)
    requires StrictOrder(before)
    ensures StrictOrder(ByName(before)) && StrictOrder(Backwards(before))
  {
    var less, more := ByName(before), Backwards(before);
    forall a: GitRef ensures !less(a, a) && !more(a, a) { assert !before(a.name, a.name); }
    forall a: GitRef, b: GitRef, c: GitRef
      ensures (less(a, b) && less(b, c) ==> less(a, c)) && (more(a, b) && more(b, c) ==> more(a, c))
      ensures (less(a, b) ==> less(a, c) || less(c, b)) && (more(a, b) ==> more(a, c) || more(c, b))
    {
      assert before(a.name, b.name) && before(b.name, c.name) ==> before(a.name, c.name);
      assert before(c.name, b.name) && before(b.name, a.name) ==> before(c.name, a.name);
      assert before(a.name, b.name) ==> before(a.name, c.name) || before(c.name, b.name);
      assert before(b.name, a.name) ==> before(b.name, c.name) || before(c.name, a.name);
    }
  }

  lemma {:induction false} BranchesUnique(refs: seq<GitRef>)
    requires UniqueNames(refs)
    ensures UniqueNames(BranchesOf(refs))
  {
    if refs != [] {
      var front, last := refs[..|refs| - 1], refs[|refs| - 1];
      assert refs == front + [last];
      BranchesUnique(front);
      BranchesAre(front);
      var before, after := BranchesOf(front), BranchesOf(refs);
      forall i, j | 0 <= i < j < |after| ensures after[i].name != after[j].name {
        assert after[i] == before[i];
        if j == |before| {
          assert after[i] == GitRef(after[i].name, after[i].sha) && after[i] in before;
          assert IsBranch(front, after[i].name, after[i].sha);
          var k :| 0 <= k < |front| && front[k] == GitRef(HEADS + after[i].name, after[i].sha);
          assert refs[k].name != refs[|front|].name;
          assert last.name == HEADS + last.name[|HEADS|..];
        }
      }
    }
  }

  // Sorting keeps refs with different names, each once.
  lemma {:induction false} SortedRefs(refs: seq<GitRef>, less: (GitRef, GitRef) -> bool)
    requires UniqueNames(refs) && StrictOrder(less)
    ensures Sorted(Sort(refs, less), less) && UniqueNames(Sort(refs, less)) && forall ref :: ref in Sort(refs, less) <==> ref in refs
  {
    hide StrictOrder, Sorted, Sort;
    SortSorts(refs, less);
    var sorted := Sort(refs, less);
    assert forall ref :: ref in sorted <==> ref in multiset(sorted);
    assert forall ref :: ref in refs <==> ref in multiset(refs);
    assert NoRepeats(refs);
    forall i, j | 0 <= i < j < |sorted| ensures sorted[i].name != sorted[j].name {
      if sorted[i] == sorted[j] { TwiceInMultiset(sorted, i, j); }
      OnceInMultiset(refs, sorted[i]);
      SameName(refs, sorted[i], sorted[j]);
    }
  }

  lemma SameName(refs: seq<GitRef>, a: GitRef, b: GitRef)
    requires UniqueNames(refs) && a in refs && b in refs
    ensures a == b || a.name != b.name
  {
    var i :| 0 <= i < |refs| && refs[i] == a;
    var j :| 0 <= j < |refs| && refs[j] == b;
    assert i < j ==> refs[i].name != refs[j].name;
    assert j < i ==> refs[j].name != refs[i].name;
  }

  // The refs taken one by one.
  method CollectRefs(refs: seq<GitRef>) returns (branches: seq<GitRef>, tags: map<string, string>)
    ensures branches == BranchesOf(refs) && tags == TagMap(refs)
  {
    branches, tags := [], map[];
    for i := 0 to |refs|
      invariant branches == BranchesOf(refs[..i]) && tags == TagMap(refs[..i])
    {
      var ref := refs[i];
      assert refs[..i + 1][..i] == refs[..i];
      if StartsWith(ref.name, HEADS) {
        branches := branches + [GitRef(ref.name[|HEADS|..], ref.sha)];
        continue;
      }
      if !StartsWith(ref.name, TAGS) { continue; }
      var raw := ref.name[|TAGS|..];
      var peeled := EndsWith(raw, PEEL);
      var name := if peeled then raw[..|raw| - 3] else raw;
      if peeled || name !in tags { tags := tags[name := ref.sha]; }
    }
    assert refs[..|refs|] == refs;
  }

  // Branches in order, tags in reverse order and peeled.
  method ResolveRefs(a: Advertisement, before: (string, string) -> bool) returns (r: ResolvedRefs)
    requires StrictOrder(before)
    ensures r.branches == Sort(BranchesOf(a.refs), ByName(before))
    ensures UniqueNames(a.refs) ==> Resolves(r, a, before)
  {
    hide Sort, StrictOrder;
    var branches, tags := CollectRefs(a.refs);
    var list := TagsOf(tags);
    var head := a.headRef;
    var headBranch := if head.Some? && StartsWith(head.value, HEADS) then Some(head.value[|HEADS|..]) else None;
    r := ResolvedRefs(Sort(branches, ByName(before)), Sort(list, Backwards(before)), headBranch);
    if UniqueNames(a.refs) {
      hide UniqueNames, IsTag, IsBranch, BranchesOf, TagMap, ByName, Backwards, Ascending, Descending;
      BranchesUnique(a.refs);
      BranchesAre(a.refs);
      SortAscends(branches, before);
      TagsAre(a.refs);
      SortDescends(list, before);
      HeadIs(head);
    }
  }

  lemma SortAscends(refs: seq<GitRef>, before: (string, string) -> bool)
    requires UniqueNames(refs) && StrictOrder(before)
    ensures var sorted := Sort(refs, ByName(before));
      Ascending(sorted, before) && UniqueNames(sorted) && forall ref :: ref in sorted <==> ref in refs
  {
    NameOrders(before);
    OrdersAre(Sort(refs, ByName(before)), before);
    hide *;
    SortedRefs(refs, ByName(before));
  }

  lemma SortDescends(refs: seq<GitRef>, before: (string, string) -> bool)
    requires UniqueNames(refs) && StrictOrder(before)
    ensures var sorted := Sort(refs, Backwards(before));
      Descending(sorted, before) && UniqueNames(sorted) && forall ref :: ref in sorted <==> ref in refs
  {
    NameOrders(before);
    OrdersAre(Sort(refs, Backwards(before)), before);
    hide *;
    SortedRefs(refs, Backwards(before));
  }

  lemma HeadIs(head: Option<string>)
    ensures head.Some? && StartsWith(head.value, HEADS) ==> head.value == HEADS + head.value[|HEADS|..]
  {}

  lemma {:induction false} SameSorted(a: seq<GitRef>, b: seq<GitRef>, less: (GitRef, GitRef) -> bool)
    requires StrictOrder(less) && Sorted(a, less) && Sorted(b, less) && UniqueNames(a) && UniqueNames(b) && Distinguished(a, less)
    requires forall ref :: ref in a <==> ref in b
    ensures a == b
  {
    hide StrictOrder, Sorted, Distinguished;
    assert NoRepeats(a) && NoRepeats(b);
    forall ref ensures multiset(a)[ref] == multiset(b)[ref] {
      OnceInMultiset(a, ref);
      OnceInMultiset(b, ref);
      assert ref in multiset(a) <==> ref in a;
      assert ref in multiset(b) <==> ref in b;
    }
    assert multiset(a) == multiset(b);
    SortedUnique(a, b, less);
  }

  // The order in which a server lists its refs makes no difference, as long as the comparison
  // tells their names apart.
  lemma {:induction false} OrderForgotten(a: Advertisement, r: ResolvedRefs, b: Advertisement, s: ResolvedRefs, before: (string, string) -> bool)
    requires StrictOrder(before) && Resolves(r, a, before) && Resolves(s, b, before)
    requires a.headRef == b.headRef && forall ref :: ref in a.refs <==> ref in b.refs
    requires Distinguished(r.branches, ByName(before)) && Distinguished(r.tags, Backwards(before))
    ensures r == s
  {
    hide StrictOrder, Distinguished, UniqueNames, ByName, Backwards, Ascending, Descending, IsBranch, IsTag, HeadOf;
    SameRefs(r, a, s, b, before);
    SameAscending(r.branches, s.branches, before);
    SameDescending(r.tags, s.tags, before);
    SameHead(a.headRef, r.headBranch, s.headBranch);
  }

  lemma SameRefs(r: ResolvedRefs, a: Advertisement, s: ResolvedRefs, b: Advertisement, before: (string, string) -> bool)
    requires Resolves(r, a, before) && Resolves(s, b, before) && forall ref :: ref in a.refs <==> ref in b.refs
    ensures (forall ref :: ref in r.branches <==> ref in s.branches) && forall ref :: ref in r.tags <==> ref in s.tags
  {
    hide Ascending, Descending, UniqueNames, HeadOf;
    forall ref ensures ref in r.branches <==> ref in s.branches {
      assert ref == GitRef(ref.name, ref.sha);
      assert IsBranch(a.refs, ref.name, ref.sha) <==> IsBranch(b.refs, ref.name, ref.sha);
    }
    forall ref ensures ref in r.tags <==> ref in s.tags {
      assert ref == GitRef(ref.name, ref.sha);
      assert IsTag(a.refs, ref.name, ref.sha) <==> IsTag(b.refs, ref.name, ref.sha);
    }
  }

  lemma SameAscending(a: seq<GitRef>, b: seq<GitRef>, before: (string, string) -> bool)
    requires StrictOrder(before) && Ascending(a, before) && Ascending(b, before) && UniqueNames(a) && UniqueNames(b)
    requires Distinguished(a, ByName(before)) && forall ref :: ref in a <==> ref in b
    ensures a == b
  {
    NameOrders(before);
    OrdersAre(a, before);
    OrdersAre(b, before);
    hide *;
    SameSorted(a, b, ByName(before));
  }

  lemma SameDescending(a: seq<GitRef>, b: seq<GitRef>, before: (string, string) -> bool)
    requires StrictOrder(before) && Descending(a, before) && Descending(b, before) && UniqueNames(a) && UniqueNames(b)
    requires Distinguished(a, Backwards(before)) && forall ref :: ref in a <==> ref in b
    ensures a == b
  {
    NameOrders(before);
    OrdersAre(a, before);
    OrdersAre(b, before);
    hide *;
    SameSorted(a, b, Backwards(before));
  }

  lemma SameHead(head: Option<string>, a: Option<string>, b: Option<string>)
    requires HeadOf(a, head) && HeadOf(b, head)
    ensures a == b
  {
    if a.Some? && b.Some? {
      assert (HEADS + a.value)[|HEADS|..] == a.value;
      assert (HEADS + b.value)[|HEADS|..] == b.value;
    }
  }

  // Two refs keep the order in which they were listed exactly if the comparison takes their names
  // to be equal.
  lemma TiesKeepOrder(a: GitRef, b: GitRef, before: (string, string) -> bool)
    requires StrictOrder(before) && a != b
    ensures Sort([a, b], ByName(before)) == Sort([b, a], ByName(before)) <==> before(a.name, b.name) || before(b.name, a.name)
  {
    SortTwo(a, b, ByName(before));
    SortTwo(b, a, ByName(before));
    assert [a, b][0] == a && [b, a][0] == b;
    assert !(before(a.name, b.name) && before(b.name, a.name)) by { assert !before(a.name, a.name); }
  }

  lemma SortTwo<T>(a: T, b: T, less: (T, T) -> bool)
    ensures Sort([a, b], less) == if less(b, a) then [b, a] else [a, b]
  {
    assert [a, b][..1] == [a] && [a][..0] == [];
    assert Sort([a], less) == [a];
    assert Insert(b, [a], less) == if less(b, a) then [b, a] else [a, b];
  }
}
