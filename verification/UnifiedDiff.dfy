// Text in and out of the diff engine: splitLines (src/server/diff/myers.ts) and diffText and
// toUnifiedDiff (src/server/diff/hunks.ts), with a reader for the unified format.
module UnifiedDiff {
  import opened Wrappers
  import opened EditGraph
  import opened EditScript
  import opened Decimal
  import opened Hunks
  import Myers
  import Text

  // ---- lines ------------------------------------------------------------------------

  const NEWLINE: string := "\n"

  predicate OneLine(s: string) { Text.Piece(s, '\n') }

  // The lines of a text, whether or not its last line ends in a newline.
  function SplitLines(text: string): (lines: seq<Line>)
    ensures forall i | 0 <= i < |lines| :: OneLine(lines[i].text)
  {
    if text == [] then []
    else
      var lines := Text.Split(text, '\n');
      ToLines(if lines[|lines| - 1] == [] then lines[..|lines| - 1] else lines)
  }

  function ToLines(lines: seq<string>): seq<Line> {
    seq(|lines|, i requires 0 <= i < |lines| => Line(lines[i]))
  }

  // Every line with its newline.
  function Unlines(lines: seq<string>): string {
    if lines == [] then [] else lines[0] + NEWLINE + Unlines(lines[1..])
  }

  lemma {:induction false} JoinIsUnlines(lines: seq<string>)
    requires lines != []
    ensures Text.Join(lines, '\n') + NEWLINE == Unlines(lines)
  {
    if |lines| > 1 { JoinIsUnlines(lines[1..]); }
  }

  lemma {:induction false} SplitUnlines(lines: seq<string>)
    requires forall i | 0 <= i < |lines| :: OneLine(lines[i])
    ensures Text.Split(Unlines(lines), '\n') == lines + [[]]
  {
    if lines != [] {
      Text.SplitPiece(lines[0], Unlines(lines[1..]), '\n');
      SplitUnlines(lines[1..]);
    }
  }

  // The text with its last line ended.
  function Ended(text: string): string {
    if text == "" || text[|text| - 1] == '\n' then text else text + NEWLINE
  }

  function Texts(lines: seq<Line>): (texts: seq<string>)
    ensures ToLines(texts) == lines
  {
    seq(|lines|, i requires 0 <= i < |lines| => lines[i].text)
  }

  // The lines that come out are the only ones that, each ended by a newline, make up the text.
  lemma {:induction false} SplitLinesIff(text: string, lines: seq<string>)
    requires forall i | 0 <= i < |lines| :: OneLine(lines[i])
    ensures SplitLines(text) == ToLines(lines) <==> Unlines(lines) == Ended(text)
  {
    var split := Texts(SplitLines(text));
    LinesMakeText(text);
    SplitUnlines(split);
    SplitUnlines(lines);
    hide SplitLines, Unlines, Ended;
    if Unlines(lines) == Ended(text) {
      assert (lines + [[]])[..|lines|] == lines && (split + [[]])[..|split|] == split;
    }
    if SplitLines(text) == ToLines(lines) {
      assert forall i | 0 <= i < |lines| :: split[i] == ToLines(lines)[i].text;
      assert split == lines;
    }
  }

  lemma {:induction false} LinesMakeText(text: string)
    ensures Unlines(Texts(SplitLines(text))) == Ended(text)
    ensures forall i | 0 <= i < |Texts(SplitLines(text))| :: OneLine(Texts(SplitLines(text))[i])
  {
    hide Unlines, Text.Join, Text.Split, Text.Piece;
    NoLines();
    if text != "" {
      var lines := Text.Split(text, '\n');
      var front, last := lines[..|lines| - 1], lines[|lines| - 1];
      SplitFront(text);
      Text.JoinSplit(text, '\n');
      JoinIsUnlines(lines);
      assert lines == front + [last];
      UnlinesSnoc(front, last);
      hide SplitLines, Ended, OneLine;
      LastLine(text, front, last);
    }
  }

  lemma SplitFront(text: string)
    requires text != ""
    ensures var lines := Text.Split(text, '\n');
      Texts(SplitLines(text)) == if lines[|lines| - 1] == "" then lines[..|lines| - 1] else lines
  {}

  // Whether a text's last line is empty tells whether the one before it was ended.
  lemma {:induction false} LastLine(text: string, front: seq<string>, last: string)
    requires text != "" && text + NEWLINE == Unlines(front) + last + NEWLINE && OneLine(last)
    ensures Unlines(if last == "" then front else front + [last]) == Ended(text)
  {
    hide Unlines;
    assert text == (text + NEWLINE)[..|text|] == Unlines(front) + last;
    UnlinesSnoc(front, last);
    if last == "" {
      if front != [] { UnlinesEnd(front); } else { NoLines(); }
    } else {
      assert text[|text| - 1] == last[|last| - 1];
    }
  }

  lemma NoLines()
    ensures Unlines([]) == ""
  {}

  lemma {:induction false} UnlinesSnoc(lines: seq<string>, line: string)
    ensures Unlines(lines + [line]) == Unlines(lines) + line + NEWLINE
  {
    if lines == [] {
      assert Unlines([line]) == line + NEWLINE + Unlines([line][1..]);
    } else {
      assert (lines + [line])[1..] == lines[1..] + [line];
      UnlinesSnoc(lines[1..], line);
    }
  }

  lemma {:induction false} UnlinesEnd(lines: seq<string>)
    requires lines != []
    ensures var text := Unlines(lines); text != "" && text[|text| - 1] == '\n'
  {
    UnlinesSnoc(lines[..|lines| - 1], lines[|lines| - 1]);
    assert lines == lines[..|lines| - 1] + [lines[|lines| - 1]];
  }

  // ---- rendering --------------------------------------------------------------------

  function Prefix(kind: LineKind): char {
    match kind case Add => '+' case Remove => '-' case Context => ' '
  }

  function BodyLine(line: DiffLine): string { [Prefix(line.kind)] + line.content.text }

  function Body(lines: seq<DiffLine>): seq<string> {
    if lines == [] then [] else [BodyLine(lines[0])] + Body(lines[1..])
  }

  function HunkLines(hunks: seq<Hunk>): seq<string> {
    if hunks == [] then [] else [hunks[0].header] + Body(hunks[0].lines) + HunkLines(hunks[1..])
  }

  function PatchLines(from: string, to: string, hunks: seq<Hunk>): seq<string> {
    ["--- a/" + from, "+++ b/" + to] + HunkLines(hunks)
  }

  lemma {:induction false} BodySnoc(lines: seq<DiffLine>, line: DiffLine)
    ensures Body(lines + [line]) == Body(lines) + [BodyLine(line)]
  {
    if lines != [] {
      assert (lines + [line])[1..] == lines[1..] + [line];
      BodySnoc(lines[1..], line);
    }
  }

  lemma {:induction false} HunkLinesSnoc(hunks: seq<Hunk>, hunk: Hunk)
    ensures HunkLines(hunks + [hunk]) == HunkLines(hunks) + [hunk.header] + Body(hunk.lines)
  {
    if hunks != [] {
      assert (hunks + [hunk])[1..] == hunks[1..] + [hunk];
      HunkLinesSnoc(hunks[1..], hunk);
    } else {
      assert HunkLines([]) == [];
    }
  }

  // A hunk's header and lines after what is there already.
  method AddHunk(before: seq<string>, hunk: Hunk) returns (out: seq<string>)
    ensures out == before + [hunk.header] + Body(hunk.lines)
  {
    hide Body;
    out := before + [hunk.header];
    NoBody();
    for i := 0 to |hunk.lines|
      invariant out == before + [hunk.header] + Body(hunk.lines[..i])
    {
      var line := hunk.lines[i];
      var prefix := if line.kind == Add then '+' else if line.kind == Remove then '-' else ' ';
      assert hunk.lines[..i + 1] == hunk.lines[..i] + [line];
      BodySnoc(hunk.lines[..i], line);
      out := out + [[prefix] + line.content.text];
    }
    assert hunk.lines[..|hunk.lines|] == hunk.lines;
  }

  lemma NoBody()
    ensures Body([]) == []
  {}

  // A patch that reads back as what it shows, and nothing for no hunks.
  method ToUnifiedDiff(path: string, previousPath: Option<string>, result: FileDiff) returns (text: string)
    ensures result.hunks == [] <==> text == []
    ensures var from := if previousPath.Some? then previousPath.value else path;
      result.hunks != [] && OneLine(from) && OneLine(path) && WellFormed(result.hunks) ==>
        ReadPatch(text) == Some(Patch(from, path, result.hunks))
  {
    if |result.hunks| == 0 { return ""; }
    var from := if previousPath.Some? then previousPath.value else path;
    var out: seq<string> := ["--- a/" + from, "+++ b/" + path];
    NoHunks(from, path);
    hide WellFormed, ReadPatch, PatchLines, Unlines, OneLine;
    for r := 0 to |result.hunks|
      invariant out == PatchLines(from, path, result.hunks[..r])
    {
      assert result.hunks[..r + 1] == result.hunks[..r] + [result.hunks[r]];
      OneHunkMore(from, path, result.hunks[..r], result.hunks[r]);
      out := AddHunk(out, result.hunks[r]);
    }
    assert result.hunks[..|result.hunks|] == result.hunks;
    PatchHasLines(from, path, result.hunks);
    text := Text.Join(out, '\n') + NEWLINE;
    JoinIsUnlines(out);
    if OneLine(from) && OneLine(path) && WellFormed(result.hunks) { PatchReadsBack(from, path, result.hunks); }
  }

  lemma NoHunks(from: string, to: string)
    ensures PatchLines(from, to, []) == ["--- a/" + from, "+++ b/" + to]
  {}

  lemma OneHunkMore(from: string, to: string, hunks: seq<Hunk>, hunk: Hunk)
    ensures PatchLines(from, to, hunks + [hunk]) == PatchLines(from, to, hunks) + [hunk.header] + Body(hunk.lines)
  {
    hide HunkLines, Body;
    HunkLinesSnoc(hunks, hunk);
  }

  lemma PatchHasLines(from: string, to: string, hunks: seq<Hunk>)
    ensures PatchLines(from, to, hunks) != []
  {}

  // ---- reading ----------------------------------------------------------------------

  datatype Patch = Patch(from: string, to: string, hunks: seq<Hunk>)

  function Expect(prefix: string, s: string): Option<string> {
    if prefix <= s then Some(s[|prefix|..]) else None
  }

  // "start,count" and what follows it.
  function ReadSpan(s: string): Option<(nat, nat, string)> {
    match Read(s)
    case None => None
    case Some((start, rest)) =>
      match Expect(",", rest)
      case None => None
      case Some(rest) =>
        match Read(rest)
        case None => None
        case Some((count, rest)) => Some((start, count, rest))
  }

  function ReadHeader(s: string): Option<(nat, nat, nat, nat)> {
    match Expect("@@ -", s)
    case None => None
    case Some(s) =>
      match ReadSpan(s)
      case None => None
      case Some((oldStart, oldLines, s)) =>
        match Expect(" +", s)
        case None => None
        case Some(s) =>
          match ReadSpan(s)
          case None => None
          case Some((newStart, newLines, s)) =>
            if s == " @@" then Some((oldStart, oldLines, newStart, newLines)) else None
  }

  // Reads body lines until the header's counts are used up, numbering them from o and n.
  function ReadBody(lines: seq<string>, o: nat, n: nat, oldLeft: nat, newLeft: nat): Option<(seq<DiffLine>, seq<string>)>
    decreases oldLeft + newLeft
  {
    if oldLeft == 0 && newLeft == 0 then Some(([], lines))
    else if lines == [] || lines[0] == [] then None
    else
      var content, rest := Line(lines[0][1..]), lines[1..];
      if lines[0][0] == ' ' && oldLeft > 0 && newLeft > 0 then
        Prepend(DiffLine(Context, content, o, n), ReadBody(rest, o + 1, n + 1, oldLeft - 1, newLeft - 1))
      else if lines[0][0] == '-' && oldLeft > 0 then
        Prepend(DiffLine(Remove, content, o, 0), ReadBody(rest, o + 1, n, oldLeft - 1, newLeft))
      else if lines[0][0] == '+' && newLeft > 0 then
        Prepend(DiffLine(Add, content, 0, n), ReadBody(rest, o, n + 1, oldLeft, newLeft - 1))
      else None
  }

  function Prepend(line: DiffLine, r: Option<(seq<DiffLine>, seq<string>)>): Option<(seq<DiffLine>, seq<string>)> {
    match r case None => None case Some((lines, rest)) => Some(([line] + lines, rest))
  }

  function ReadHunks(lines: seq<string>): Option<seq<Hunk>>
    decreases |lines|
  {
    if lines == [] then Some([])
    else
      match ReadHeader(lines[0])
      case None => None
      case Some((oldStart, oldLines, newStart, newLines)) =>
        match ReadBody(lines[1..], oldStart, newStart, oldLines, newLines)
        case None => None
        case Some((body, rest)) =>
          if |rest| >= |lines| then None
          else
            match ReadHunks(rest)
            case None => None
            case Some(hunks) => Some([Hunk(oldStart, oldLines, newStart, newLines, lines[0], body)] + hunks)
  }

  function ReadPatch(text: string): Option<Patch> {
    var lines := Text.Split(text, '\n');
    if |lines| < 3 || lines[|lines| - 1] != [] then None
    else
      match (Expect("--- a/", lines[0]), Expect("+++ b/", lines[1]), ReadHunks(lines[2..|lines| - 1]))
      case (Some(from), Some(to), Some(hunks)) => Some(Patch(from, to, hunks))
      case _ => None
  }

  // ---- the round trip ---------------------------------------------------------------

  // A hunk whose counts, numbers and header agree with its lines.
  ghost predicate WellFormedHunk(h: Hunk) {
    && h.header == Header(h.oldStart, h.oldLines, h.newStart, h.newLines)
    && h.oldLines == |OldText(h.lines)| && h.newLines == |NewText(h.lines)|
    && (forall i | 0 <= i < |h.lines| :: OneLine(h.lines[i].content.text))
    && (exists o: nat, n: nat :: Numbered(h.lines, o, n)
          && (h.oldLines > 0 ==> o == h.oldStart) && (h.newLines > 0 ==> n == h.newStart))
  }

  ghost predicate WellFormed(hunks: seq<Hunk>) {
    forall r | 0 <= r < |hunks| :: WellFormedHunk(hunks[r])
  }

  lemma {:induction false} ReadSpanBack(start: nat, count: nat, rest: string)
    requires rest == [] || !IsDigit(rest[0])
    ensures ReadSpan(Show(start) + "," + Show(count) + rest) == Some((start, count, rest))
  {
    var tail := "," + Show(count) + rest;
    assert Show(start) + "," + Show(count) + rest == Show(start) + tail;
    ReadShow(start, tail);
    assert tail[1..] == Show(count) + rest;
    ReadShow(count, rest);
  }

  lemma {:induction false} HeaderReadsBack(a: nat, b: nat, c: nat, d: nat)
    ensures ReadHeader(Header(a, b, c, d)) == Some((a, b, c, d))
  {
    hide Read, Show;
    var end := Show(c) + "," + Show(d) + " @@";
    var mid := " +" + end;
    var all := Show(a) + "," + Show(b) + mid;
    assert Header(a, b, c, d) == "@@ -" + all;
    assert ("@@ -" + all)[4..] == all;
    ReadSpanBack(a, b, mid);
    assert mid[2..] == end;
    ReadSpanBack(c, d, " @@");
  }

  lemma {:induction false} BodyReadsBack(lines: seq<DiffLine>, o: nat, n: nat, o': nat, n': nat, rest: seq<string>)
    requires Numbered(lines, o', n')
    requires |OldText(lines)| > 0 ==> o == o'
    requires |NewText(lines)| > 0 ==> n == n'
    ensures ReadBody(Body(lines) + rest, o, n, |OldText(lines)|, |NewText(lines)|) == Some((lines, rest))
    decreases |lines|
  {
    if lines == [] {
      assert Body(lines) + rest == rest;
    } else {
      match lines[0].kind {
        case Context => BodyReadsBack(lines[1..], o + 1, n + 1, o' + 1, n' + 1, rest);
        case Remove => BodyReadsBack(lines[1..], o + 1, n, o' + 1, n', rest);
        case Add => BodyReadsBack(lines[1..], o, n + 1, o', n' + 1, rest);
      }
      LineReadsBack(lines, o, n, rest);
    }
  }

  lemma {:induction false} LineReadsBack(lines: seq<DiffLine>, o: nat, n: nat, rest: seq<string>)
    requires lines != []
    requires var l := lines[0];
      && (l.kind == Add || l.oldLine == o) && (l.kind == Remove || l.newLine == n)
      && (l.kind == Add ==> l.oldLine == 0) && (l.kind == Remove ==> l.newLine == 0)
      && var o', n' := if l.kind == Add then o else o + 1, if l.kind == Remove then n else n + 1;
        ReadBody(Body(lines[1..]) + rest, o', n', |OldText(lines[1..])|, |NewText(lines[1..])|) == Some((lines[1..], rest))
    ensures ReadBody(Body(lines) + rest, o, n, |OldText(lines)|, |NewText(lines)|) == Some((lines, rest))
  {
    hide ReadBody, BodyLine;
    var text := Body(lines) + rest;
    assert text[0] == BodyLine(lines[0]) && text[1..] == Body(lines[1..]) + rest;
    ReadStep(text, lines[0], lines[1..], rest, o, n, |OldText(lines[1..])|, |NewText(lines[1..])|);
    assert lines == [lines[0]] + lines[1..];
  }

  lemma {:induction false} ReadStep(text: seq<string>, l: DiffLine, tail: seq<DiffLine>, rest: seq<string>,
                                    o: nat, n: nat, oldLeft: nat, newLeft: nat)
    requires text != [] && text[0] == BodyLine(l)
    requires (l.kind == Add || l.oldLine == o) && (l.kind == Remove || l.newLine == n)
    requires (l.kind == Add ==> l.oldLine == 0) && (l.kind == Remove ==> l.newLine == 0)
    requires var o', n' := if l.kind == Add then o else o + 1, if l.kind == Remove then n else n + 1;
      ReadBody(text[1..], o', n', oldLeft, newLeft) == Some((tail, rest))
    ensures var oldAll, newAll := if l.kind == Add then oldLeft else oldLeft + 1, if l.kind == Remove then newLeft else newLeft + 1;
      ReadBody(text, o, n, oldAll, newAll) == Some(([l] + tail, rest))
  {
    assert BodyLine(l)[1..] == l.content.text;
  }

  lemma {:induction false} HunkReadsBack(h: Hunk, rest: seq<string>)
    requires WellFormedHunk(h)
    ensures ReadHeader(h.header) == Some((h.oldStart, h.oldLines, h.newStart, h.newLines))
    ensures ReadBody(Body(h.lines) + rest, h.oldStart, h.newStart, h.oldLines, h.newLines) == Some((h.lines, rest))
  {
    hide ReadHeader, ReadBody, Numbered, Header, OldText, NewText;
    var o: nat, n: nat :| Numbered(h.lines, o, n)
      && (h.oldLines > 0 ==> o == h.oldStart) && (h.newLines > 0 ==> n == h.newStart);
    HeaderReadsBack(h.oldStart, h.oldLines, h.newStart, h.newLines);
    BodyReadsBack(h.lines, h.oldStart, h.newStart, o, n, rest);
  }

  lemma {:induction false} ReadHunksStep(h: Hunk, body: seq<string>, rest: seq<string>, hunks: seq<Hunk>)
    requires ReadHeader(h.header) == Some((h.oldStart, h.oldLines, h.newStart, h.newLines))
    requires ReadBody(body + rest, h.oldStart, h.newStart, h.oldLines, h.newLines) == Some((h.lines, rest))
    requires ReadHunks(rest) == Some(hunks)
    ensures ReadHunks([h.header] + body + rest) == Some([h] + hunks)
  {
    hide ReadHeader, ReadBody;
    var lines := [h.header] + body + rest;
    assert lines[0] == h.header && lines[1..] == body + rest;
  }

  lemma {:induction false} HunksReadBack(hunks: seq<Hunk>)
    requires WellFormed(hunks)
    ensures ReadHunks(HunkLines(hunks)) == Some(hunks)
  {
    hide WellFormedHunk, ReadHeader, ReadBody, Body;
    if hunks != [] {
      HunksReadBack(hunks[1..]);
      HunkReadsBack(hunks[0], HunkLines(hunks[1..]));
      ReadHunksStep(hunks[0], Body(hunks[0].lines), HunkLines(hunks[1..]), hunks[1..]);
      assert hunks == [hunks[0]] + hunks[1..];
    }
  }

  lemma {:induction false} PatchLinesAreLines(hunks: seq<Hunk>)
    requires WellFormed(hunks)
    ensures forall i | 0 <= i < |HunkLines(hunks)| :: OneLine(HunkLines(hunks)[i])
  {
    if hunks != [] {
      PatchLinesAreLines(hunks[1..]);
      HeaderIsLine(hunks[0].oldStart, hunks[0].oldLines, hunks[0].newStart, hunks[0].newLines);
      BodyIsLines(hunks[0].lines);
    }
  }

  lemma {:induction false} HeaderIsLine(a: nat, b: nat, c: nat, d: nat)
    ensures OneLine(Header(a, b, c, d))
  {
    ShowDigits(a);
    ShowDigits(b);
    ShowDigits(c);
    ShowDigits(d);
  }

  lemma {:induction false} BodyIsLines(lines: seq<DiffLine>)
    requires forall i | 0 <= i < |lines| :: OneLine(lines[i].content.text)
    ensures forall i | 0 <= i < |Body(lines)| :: OneLine(Body(lines)[i])
  {
    if lines != [] { BodyIsLines(lines[1..]); }
  }

  // Reading the text by its header counts recovers the paths and the hunks exactly.
  lemma {:induction false} PatchReadsBack(from: string, to: string, hunks: seq<Hunk>)
    requires WellFormed(hunks) && OneLine(from) && OneLine(to)
    ensures ReadPatch(Unlines(PatchLines(from, to, hunks))) == Some(Patch(from, to, hunks))
  {
    hide ReadHunks, WellFormed, WellFormedHunk;
    var lines := PatchLines(from, to, hunks);
    PatchLinesAreLines(hunks);
    SplitUnlines(lines);
    HunksReadBack(hunks);
    assert (lines + [[]])[2..|lines|] == HunkLines(hunks);
    assert ("--- a/" + from)[6..] == from && ("+++ b/" + to)[6..] == to;
  }

  // ---- from file to file ------------------------------------------------------------

  lemma {:induction false} LinesAreClean(lines: seq<DiffLine>, a: seq<Line>, b: seq<Line>)
    requires forall line | line in OldText(lines) :: OneLine(line.text)
    requires forall line | line in NewText(lines) :: OneLine(line.text)
    ensures forall i | 0 <= i < |lines| :: OneLine(lines[i].content.text)
  {
    if lines != [] {
      assert lines[0].kind != Add ==> OldText(lines)[0] == lines[0].content;
      assert lines[0].kind == Add ==> NewText(lines)[0] == lines[0].content;
      LinesAreClean(lines[1..], a, b);
    }
  }

  lemma {:induction false} HunksAreWellFormed(hunks: seq<Hunk>, ranges: seq<Range>, edits: seq<Edit>,
                                              a: seq<Line>, b: seq<Line>)
    requires AreHunks(hunks, ranges, edits, a, b)
    requires (forall i | 0 <= i < |a| :: OneLine(a[i].text)) && forall i | 0 <= i < |b| :: OneLine(b[i].text)
    ensures WellFormed(hunks)
  {
    forall r | 0 <= r < |hunks| ensures WellFormedHunk(hunks[r]) {
      HunkIsWellFormed(hunks[r], edits, a, b, ranges[r]);
    }
  }

  lemma {:induction false} HunkIsWellFormed(h: Hunk, edits: seq<Edit>, a: seq<Line>, b: seq<Line>, range: Range)
    requires IsHunk(h, edits, a, b, range)
    requires (forall i | 0 <= i < |a| :: OneLine(a[i].text)) && forall i | 0 <= i < |b| :: OneLine(b[i].text)
    ensures WellFormedHunk(h)
  {
    hide OldText, NewText, OldAt, NewAt, Numbered, Header;
    LinesAreClean(h.lines, a, b);
    assert Numbered(h.lines, OldAt(edits, range.start) + 1, NewAt(edits, range.start) + 1);
  }

  lemma EmptyHunksAreWellFormed(hunks: seq<Hunk>)
    requires forall r | 0 <= r < |hunks| :: hunks[r] == EMPTY_HUNK
    ensures WellFormed(hunks)
  {
    HeaderOfNothing();
    assert Numbered([], 0, 0);
  }

  // What a diff of two line lists rests on: a script with as few changes as can be and its
  // deletions before its insertions, grouped into hunks with c lines around each change.
  ghost predicate IsDiff(d: FileDiff, edits: seq<Edit>, ranges: seq<Range>, a: seq<Line>, b: seq<Line>, c: int) {
    && IsScript(edits, a, b) && DeletionsFirst(edits)
    && Changes(edits) == |a| + |b| - 2 * Lcs(a, b, |a|, |b|)
    && Grouped(d.hunks, ranges, edits, a, b, c)
    && d.additions == Count(edits, Insert) && d.deletions == Count(edits, Delete)
  }

  // What it amounts to. The hunks show each addition and each deletion once, read back from their
  // text, and are a patch from one side to the other exactly if they are in place, as they are with
  // context; with a negative width they show and change nothing.
  ghost predicate IsSound(d: FileDiff, a: seq<Line>, b: seq<Line>, c: int) {
    && d.additions + d.deletions == |a| + |b| - 2 * Lcs(a, b, |a|, |b|)
    && d.additions - d.deletions == |b| - |a|
    && Shown(d.hunks, Add) == (if c >= 0 then d.additions else 0)
    && Shown(d.hunks, Remove) == (if c >= 0 then d.deletions else 0)
    && WellFormed(d.hunks) && Patches(d.hunks, a, b, c)
  }

  // Diffs two texts, refused exactly above the line limit. edits is the script behind the diff, and
  // ranges is where each hunk lies in it.
  method DiffText(oldText: string, newText: string, contextLines: int)
    returns (r: Result<FileDiff, Myers.DiffError>, ghost edits: seq<Edit>, ghost ranges: seq<Range>)
    ensures r.Err? <==> |SplitLines(oldText)| + |SplitLines(newText)| > Myers.MAX_TOTAL_LINES
    ensures r.Ok? ==> IsSound(r.value, SplitLines(oldText), SplitLines(newText), contextLines)
    ensures r.Ok? ==> IsDiff(r.value, edits, ranges, SplitLines(oldText), SplitLines(newText), contextLines)
  {
    hide Text.Split, Apply, Path, Lcs, WellFormed, AreHunks, Exact, AllInPlace, Patches, Shown, Count, Changes, DeletionsFirst;
    edits, ranges := [], [];
    var a, b := SplitLines(oldText), SplitLines(newText);
    var script := Myers.DiffLines(a, b);
    match script {
      case Err(e) => r := Err(e);
      case Ok(found) =>
        edits := found;
        var result;
        result, ranges := BuildHunks(found, a, b, contextLines);
        if contextLines >= 0 { HunksAreWellFormed(result.hunks, ranges, edits, a, b); }
        else { EmptyHunksAreWellFormed(result.hunks); }
        r := Ok(result);
    }
  }
}
