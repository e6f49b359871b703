// src/server/diff/hunks.ts: how a script becomes hunks, and what a hunk list means as a patch.
module Hunks {
  import opened Wrappers
  import opened EditGraph
  import opened EditScript
  import opened Decimal

  datatype LineKind = Context | Add | Remove

  // oldLine and newLine count from 1; an added line has oldLine 0 and a removed one newLine 0.
  datatype DiffLine = DiffLine(kind: LineKind, content: Line, oldLine: nat, newLine: nat)

  datatype Hunk = Hunk(oldStart: nat, oldLines: nat, newStart: nat, newLines: nat, header: string, lines: seq<DiffLine>)

  datatype FileDiff = FileDiff(hunks: seq<Hunk>, additions: nat, deletions: nat)

  // Positions start..end of the edit script, both included.
  datatype Range = Range(start: int, end: int)

  // ---- ranges -----------------------------------------------------------------------

  ghost predicate Changed(edits: seq<Edit>, i: int) {
    0 <= i < |edits| && edits[i].op != Equal
  }

  predicate Within(c: int, e: int, i: int) { -c <= e - i <= c }

  // Edit e is within c positions of a change.
  ghost predicate Near(edits: seq<Edit>, c: int, e: int) {
    0 <= e < |edits| && exists i :: Changed(edits, i) && Within(c, e, i)
  }

  ghost predicate Covered(ranges: seq<Range>, e: int) {
    exists r | 0 <= r < |ranges| :: ranges[r].start <= e <= ranges[r].end
  }

  // In bounds, in order, and with an uncovered edit between neighbours.
  ghost predicate Separated(ranges: seq<Range>, n: nat) {
    && (forall r | 0 <= r < |ranges| :: 0 <= ranges[r].start <= ranges[r].end < n)
    && (forall r, r' | 0 <= r < r' < |ranges| :: ranges[r].end + 1 < ranges[r'].start)
  }

  ghost predicate Exact(ranges: seq<Range>, edits: seq<Edit>, c: int) {
    && Separated(ranges, |edits|)
    && forall e :: Covered(ranges, e) <==> Near(edits, c, e)
  }

  // The indices of the changed edits.
  method ChangedIndices(edits: seq<Edit>) returns (changed: seq<int>)
    ensures Ascending(changed, |edits|) && forall i :: i in changed <==> Changed(edits, i)
  {
    changed := [];
    for index := 0 to |edits|
      invariant forall i, j | 0 <= i < j < |changed| :: changed[i] < changed[j]
      invariant forall i | 0 <= i < |changed| :: 0 <= changed[i] < index
      invariant forall i :: i in changed <==> Changed(edits, i) && i < index
    {
      if edits[index].op != Equal { changed := changed + [index]; }
    }
  }

  // e is within c of one of the given indices.
  ghost predicate NearAny(changed: seq<int>, n: nat, c: int, e: int) {
    0 <= e < n && exists i :: i in changed && Within(c, e, i)
  }

  lemma NearAnyIsNear(edits: seq<Edit>, changed: seq<int>, c: int)
    requires forall i :: i in changed <==> Changed(edits, i)
    ensures forall e :: NearAny(changed, |edits|, c, e) <==> Near(edits, c, e)
  {}

  lemma NearAnyStep(changed: seq<int>, p: int, n: nat, c: int)
    requires 0 <= p < |changed|
    ensures forall e :: NearAny(changed[..p + 1], n, c, e) <==>
      NearAny(changed[..p], n, c, e) || Max(0, changed[p] - c) <= e <= Min(n - 1, changed[p] + c)
  {
    forall e
      ensures NearAny(changed[..p + 1], n, c, e) <==>
        NearAny(changed[..p], n, c, e) || Max(0, changed[p] - c) <= e <= Min(n - 1, changed[p] + c)
    {
      NearAnyAt(changed, p, n, c, e);
    }
  }

  lemma NearAnyAt(changed: seq<int>, p: int, n: nat, c: int, e: int)
    requires 0 <= p < |changed|
    ensures NearAny(changed[..p + 1], n, c, e) <==>
      NearAny(changed[..p], n, c, e) || Max(0, changed[p] - c) <= e <= Min(n - 1, changed[p] + c)
  {
    assert changed[..p + 1] == changed[..p] + [changed[p]];
    assert changed[p] in changed[..p + 1];
    if NearAny(changed[..p + 1], n, c, e) {
      var i :| i in changed[..p + 1] && Within(c, e, i);
      assert i in changed[..p] || i == changed[p];
    }
    if NearAny(changed[..p], n, c, e) {
      var i :| i in changed[..p] && Within(c, e, i);
      assert i in changed[..p + 1];
    }
    assert 0 <= e < n && Within(c, e, changed[p]) <==> Max(0, changed[p] - c) <= e <= Min(n - 1, changed[p] + c);
  }

  lemma NothingCovered(changed: seq<int>, n: nat, c: int)
    ensures Progress([], changed, 0, n, c)
  {}

  lemma CoverAppended(ranges: seq<Range>, added: Range)
    ensures forall e :: Covered(ranges + [added], e) <==> Covered(ranges, e) || added.start <= e <= added.end
  {
    var all := ranges + [added];
    forall e | Covered(ranges, e) ensures Covered(all, e) {
      var r :| 0 <= r < |ranges| && ranges[r].start <= e <= ranges[r].end;
      assert all[r] == ranges[r];
    }
    forall e | added.start <= e <= added.end ensures Covered(all, e) {
      assert all[|ranges|] == added;
    }
  }

  lemma CoverWidened(ranges: seq<Range>, last: Range, start: int, end: int)
    requires last.start <= start <= last.end + 1
    ensures forall e :: Covered(ranges + [Range(last.start, Max(last.end, end))], e) <==>
      Covered(ranges + [last], e) || start <= e <= end
  {
    CoverAppended(ranges, last);
    CoverAppended(ranges, Range(last.start, Max(last.end, end)));
  }

  // The ranges are right for the first p changes.
  ghost predicate Progress(ranges: seq<Range>, changed: seq<int>, p: nat, n: nat, c: int)
    requires p <= |changed|
  {
    && Separated(ranges, n)
    && (ranges == [] <==> p == 0)
    && (p > 0 ==>
        && ranges[|ranges| - 1].start <= Max(0, changed[p - 1] - c)
        && ranges[|ranges| - 1].end == Min(n - 1, changed[p - 1] + c))
    && forall e :: Covered(ranges, e) <==> NearAny(changed[..p], n, c, e)
  }

  lemma ProgressPush(ranges: seq<Range>, changed: seq<int>, p: nat, n: nat, c: int, added: Range)
    requires p < |changed| && c >= 0 && 0 <= changed[p] < n
    requires Progress(ranges, changed, p, n, c)
    requires added == Range(Max(0, changed[p] - c), Min(n - 1, changed[p] + c))
    requires ranges == [] || ranges[|ranges| - 1].end + 1 < added.start
    ensures Progress(ranges + [added], changed, p + 1, n, c)
  {
    hide Covered, NearAny;
    NearAnyStep(changed, p, n, c);
    CoverAppended(ranges, added);
    var all := ranges + [added];
    assert all[|all| - 1] == added && forall r | 0 <= r < |ranges| :: all[r] == ranges[r];
    assert Separated(all, n);
    forall e ensures Covered(all, e) <==> NearAny(changed[..p + 1], n, c, e) {
      assert Covered(all, e) <==> Covered(ranges, e) || added.start <= e <= added.end;
      assert Covered(ranges, e) <==> NearAny(changed[..p], n, c, e);
    }
  }

  lemma ProgressWiden(others: seq<Range>, last: Range, changed: seq<int>, p: nat, n: nat, c: int)
    requires 0 < p < |changed| && c >= 0 && 0 <= changed[p] < n && changed[p - 1] < changed[p]
    requires Progress(others + [last], changed, p, n, c)
    requires Max(0, changed[p] - c) <= last.end + 1
    ensures Progress(others + [Range(last.start, Max(last.end, Min(n - 1, changed[p] + c)))], changed, p + 1, n, c)
  {
    hide Covered, NearAny;
    var ranges := others + [last];
    assert ranges[|ranges| - 1] == last;
    assert forall r | 0 <= r < |others| :: others[r] == ranges[r] && ranges[r].end + 1 < ranges[|others|].start;
    var widened := others + [Range(last.start, Max(last.end, Min(n - 1, changed[p] + c)))];
    assert widened[|widened| - 1].end == Min(n - 1, changed[p] + c);
    assert Separated(widened, n);
    NearAnyStep(changed, p, n, c);
    CoverWidened(others, last, Max(0, changed[p] - c), Min(n - 1, changed[p] + c));
    assert widened[|widened| - 1].start <= Max(0, changed[p] - c);
    forall e ensures Covered(widened, e) <==> NearAny(changed[..p + 1], n, c, e) {
      assert Covered(widened, e) <==> Covered(ranges, e) || Max(0, changed[p] - c) <= e <= Min(n - 1, changed[p] + c);
      assert Covered(ranges, e) <==> NearAny(changed[..p], n, c, e);
    }
  }

  // With a negative width nothing is near a change, and each change gets a range of its own that
  // covers nothing.
  ghost predicate Inverted(ranges: seq<Range>, changed: seq<int>, n: nat, c: int) {
    && |ranges| == |changed|
    && forall r | 0 <= r < |ranges| :: ranges[r] == Range(Max(0, changed[r] - c), Min(n - 1, changed[r] + c))
  }

  ghost predicate EmptyRanges(ranges: seq<Range>, count: nat) {
    |ranges| == count && forall r | 0 <= r < |ranges| :: ranges[r].start > ranges[r].end
  }

  // One range per group of changes that are at most 2c + 1 positions apart.
  method MergeRanges(edits: seq<Edit>, c: int) returns (ranges: seq<Range>)
    ensures c >= 0 ==> Exact(ranges, edits, c)
    ensures c < 0 ==> EmptyRanges(ranges, Changes(edits))
  {
    hide Changed, Near, Exact, EmptyRanges, Merging, Ascending, Max, Min;
    var changed := ChangedIndices(edits);
    var n := |edits|;
    ranges := [];
    NothingMerged(changed, n, c);
    for p := 0 to |changed|
      invariant Merging(ranges, changed, p, n, c)
    {
      var index := changed[p];
      var start := Max(0, index - c);
      var end := Min(n - 1, index + c);
      MergeStep(ranges, changed, p, n, c);
      if ranges != [] && start <= ranges[|ranges| - 1].end + 1 {
        var last := ranges[|ranges| - 1];
        ranges := ranges[..|ranges| - 1] + [Range(last.start, Max(last.end, end))];
      } else {
        ranges := ranges + [Range(start, end)];
      }
    }
    MergeDone(ranges, edits, changed, c);
  }

  // What the ranges are after some changes.
  ghost predicate Merging(ranges: seq<Range>, changed: seq<int>, p: nat, n: nat, c: int)
    requires p <= |changed|
  {
    if c >= 0 then Progress(ranges, changed, p, n, c) else Inverted(ranges, changed[..p], n, c)
  }

  lemma NothingMerged(changed: seq<int>, n: nat, c: int)
    ensures Merging([], changed, 0, n, c)
  {
    NothingCovered(changed, n, c);
  }

  // The next change widens the last range or starts another.
  lemma MergeStep(ranges: seq<Range>, changed: seq<int>, p: nat, n: nat, c: int)
    requires p < |changed| && Ascending(changed, n) && Merging(ranges, changed, p, n, c)
    ensures var start, end := Max(0, changed[p] - c), Min(n - 1, changed[p] + c);
      Merging(if ranges != [] && start <= ranges[|ranges| - 1].end + 1
              then ranges[..|ranges| - 1] + [Range(ranges[|ranges| - 1].start, Max(ranges[|ranges| - 1].end, end))]
              else ranges + [Range(start, end)], changed, p + 1, n, c)
  {
    var start, end := Max(0, changed[p] - c), Min(n - 1, changed[p] + c);
    if c < 0 {
      NeverWidens(ranges, changed, p, n, c);
    } else if ranges != [] && start <= ranges[|ranges| - 1].end + 1 {
      var others, last := ranges[..|ranges| - 1], ranges[|ranges| - 1];
      assert ranges == others + [last];
      assert p > 0;
      hide Separated, Covered, NearAny;
      ProgressWiden(others, last, changed, p, n, c);
    } else {
      hide Separated, Covered, NearAny;
      ProgressPush(ranges, changed, p, n, c, Range(start, end));
    }
  }

  lemma MergeDone(ranges: seq<Range>, edits: seq<Edit>, changed: seq<int>, c: int)
    requires Merging(ranges, changed, |changed|, |edits|, c)
    requires Ascending(changed, |edits|) && forall i :: i in changed <==> Changed(edits, i)
    ensures c >= 0 ==> Exact(ranges, edits, c)
    ensures c < 0 ==> EmptyRanges(ranges, Changes(edits))
  {
    hide Changed;
    assert changed[..|changed|] == changed;
    if c >= 0 { ProgressDone(ranges, edits, changed, c); }
    ChangedCount(edits, changed);
  }

  ghost predicate Ascending(changed: seq<int>, n: nat) {
    && (forall i, j | 0 <= i < j < |changed| :: changed[i] < changed[j])
    && forall i | 0 <= i < |changed| :: 0 <= changed[i] < n
  }

  lemma NeverWidens(ranges: seq<Range>, changed: seq<int>, p: nat, n: nat, c: int)
    requires c < 0 && p < |changed| && Ascending(changed, n) && Inverted(ranges, changed[..p], n, c)
    ensures ranges != [] ==> Max(0, changed[p] - c) > ranges[|ranges| - 1].end + 1
  {
    if p > 0 { assert changed[..p][p - 1] == changed[p - 1] < changed[p]; }
  }

  lemma ProgressDone(ranges: seq<Range>, edits: seq<Edit>, changed: seq<int>, c: int)
    requires Progress(ranges, changed, |changed|, |edits|, c) && forall i :: i in changed <==> Changed(edits, i)
    ensures Exact(ranges, edits, c)
  {
    assert changed[..|changed|] == changed;
    NearAnyIsNear(edits, changed, c);
  }

  function Max(x: int, y: int): int { if x > y then x else y }

  function Min(x: int, y: int): int { if x < y then x else y }

  // ---- one hunk ---------------------------------------------------------------------

  function LineNumber(index: int): nat { if index >= 0 then index + 1 else 0 }

  function LineOf(e: Edit, oldLines: seq<Line>, newLines: seq<Line>): DiffLine
    requires Addresses([e], oldLines, newLines)
  {
    assert [e][0] == e;
    match e.op
    case Equal => DiffLine(Context, oldLines[e.oldIndex], LineNumber(e.oldIndex), LineNumber(e.newIndex))
    case Delete => DiffLine(Remove, oldLines[e.oldIndex], LineNumber(e.oldIndex), 0)
    case Insert => DiffLine(Add, newLines[e.newIndex], 0, LineNumber(e.newIndex))
  }

  function LinesOf(piece: seq<Edit>, oldLines: seq<Line>, newLines: seq<Line>): seq<DiffLine>
    requires Addresses(piece, oldLines, newLines)
  {
    seq(|piece|, i requires 0 <= i < |piece| => LineOf(piece[i], oldLines, newLines))
  }

  // The first line number a piece has on a side; 0 if it has none there.
  function FirstOld(piece: seq<Edit>): nat {
    if piece == [] then 0
    else if piece[0].oldIndex >= 0 then piece[0].oldIndex + 1 else FirstOld(piece[1..])
  }

  function FirstNew(piece: seq<Edit>): nat {
    if piece == [] then 0
    else if piece[0].newIndex >= 0 then piece[0].newIndex + 1 else FirstNew(piece[1..])
  }

  lemma {:induction false} FirstSnoc(piece: seq<Edit>, e: Edit)
    ensures FirstOld(piece + [e]) == if FirstOld(piece) == 0 then LineNumber(e.oldIndex) else FirstOld(piece)
    ensures FirstNew(piece + [e]) == if FirstNew(piece) == 0 then LineNumber(e.newIndex) else FirstNew(piece)
  {
    if piece != [] {
      assert (piece + [e])[1..] == piece[1..] + [e];
      FirstSnoc(piece[1..], e);
    }
  }

  function Header(oldStart: nat, oldLines: nat, newStart: nat, newLines: nat): string {
    "@@ -" + Show(oldStart) + "," + Show(oldLines) + " +" + Show(newStart) + "," + Show(newLines) + " @@"
  }

  // The stretch of the script that a range covers.
  function PieceOf(edits: seq<Edit>, range: Range): seq<Edit>
    requires range.start > range.end || 0 <= range.start <= range.end < |edits|
  {
    if range.start > range.end then [] else edits[range.start..range.end + 1]
  }

  // A hunk as the script's stretch gives it, line by line. A side that has lines starts at 1 or later.
  ghost predicate Shows(h: Hunk, piece: seq<Edit>, oldLines: seq<Line>, newLines: seq<Line>) {
    && Addresses(piece, oldLines, newLines)
    && h.lines == LinesOf(piece, oldLines, newLines)
    && h.oldLines == OldCount(piece) && h.newLines == NewCount(piece)
    && h.oldStart == (if FirstOld(piece) == 0 && OldCount(piece) > 0 then 1 else FirstOld(piece))
    && h.newStart == (if FirstNew(piece) == 0 && NewCount(piece) > 0 then 1 else FirstNew(piece))
    && h.header == Header(h.oldStart, h.oldLines, h.newStart, h.newLines)
  }

  method RenderHunk(edits: seq<Edit>, oldLines: seq<Line>, newLines: seq<Line>, range: Range) returns (h: Hunk)
    requires range.start > range.end || 0 <= range.start <= range.end < |edits|
    requires Addresses(edits, oldLines, newLines)
    ensures Shows(h, PieceOf(edits, range), oldLines, newLines)
  {
    var lines: seq<DiffLine> := [];
    var oldStart, newStart, oldCount, newCount := 0, 0, 0, 0;
    var i := range.start;
    ghost var piece: seq<Edit> := [];
    NothingRendered(oldLines, newLines);
    hide LinesOf, LineOf, OldCount, NewCount, FirstOld, FirstNew, Header;
    while i <= range.end
      invariant range.start <= i && (range.start <= range.end ==> i <= range.end + 1)
      invariant piece == if range.start > range.end then [] else edits[range.start..i]
      invariant Rendered(piece, oldLines, newLines, lines, oldCount, newCount, oldStart, newStart)
    {
      var edit := edits[i];
      RenderMore(edits, range.start, i, oldLines, newLines, lines, oldCount, newCount, oldStart, newStart);
      var oldLine := if edit.oldIndex >= 0 then edit.oldIndex + 1 else 0;
      var newLine := if edit.newIndex >= 0 then edit.newIndex + 1 else 0;
      if oldStart == 0 && oldLine > 0 { oldStart := oldLine; }
      if newStart == 0 && newLine > 0 { newStart := newLine; }

      match edit.op {
        case Equal =>
          lines := lines + [DiffLine(Context, oldLines[edit.oldIndex], oldLine, newLine)];
          oldCount, newCount := oldCount + 1, newCount + 1;
        case Delete =>
          lines := lines + [DiffLine(Remove, oldLines[edit.oldIndex], oldLine, 0)];
          oldCount := oldCount + 1;
        case Insert =>
          lines := lines + [DiffLine(Add, newLines[edit.newIndex], 0, newLine)];
          newCount := newCount + 1;
      }
      piece := piece + [edit];
      i := i + 1;
    }
    // A side without lines starts at 0.
    if oldStart == 0 { oldStart := if oldCount == 0 then 0 else 1; }
    if newStart == 0 { newStart := if newCount == 0 then 0 else 1; }
    h := Hunk(oldStart, oldCount, newStart, newCount, Header(oldStart, oldCount, newStart, newCount), lines);
  }

  // What the loop has made of a stretch.
  ghost predicate Rendered(piece: seq<Edit>, a: seq<Line>, b: seq<Line>, lines: seq<DiffLine>,
                           oldCount: nat, newCount: nat, oldStart: nat, newStart: nat) {
    && Addresses(piece, a, b) && lines == LinesOf(piece, a, b)
    && oldCount == OldCount(piece) && newCount == NewCount(piece)
    && oldStart == FirstOld(piece) && newStart == FirstNew(piece)
  }

  lemma NothingRendered(a: seq<Line>, b: seq<Line>)
    ensures Rendered([], a, b, [], 0, 0, 0, 0)
  {}

  lemma RenderMore(edits: seq<Edit>, start: int, i: int, a: seq<Line>, b: seq<Line>, lines: seq<DiffLine>,
                   oldCount: nat, newCount: nat, oldStart: nat, newStart: nat)
    requires Addresses(edits, a, b) && 0 <= start <= i < |edits|
    requires Rendered(edits[start..i], a, b, lines, oldCount, newCount, oldStart, newStart)
    ensures edits[start..i + 1] == edits[start..i] + [edits[i]] && Addresses([edits[i]], a, b)
    ensures var e := edits[i];
      Rendered(edits[start..i + 1], a, b, lines + [LineOf(e, a, b)],
               if e.op == Insert then oldCount else oldCount + 1, if e.op == Delete then newCount else newCount + 1,
               if oldStart == 0 then LineNumber(e.oldIndex) else oldStart,
               if newStart == 0 then LineNumber(e.newIndex) else newStart)
    ensures var e := edits[i];
      LineOf(e, a, b) == match e.op
        case Equal => DiffLine(Context, a[e.oldIndex], LineNumber(e.oldIndex), LineNumber(e.newIndex))
        case Delete => DiffLine(Remove, a[e.oldIndex], LineNumber(e.oldIndex), 0)
        case Insert => DiffLine(Add, b[e.newIndex], 0, LineNumber(e.newIndex))
  {
    var piece, e := edits[start..i], edits[i];
    assert edits[start..i + 1] == piece + [e];
    FirstSnoc(piece, e);
    CountsAdd(piece, [e]);
    assert LinesOf(piece + [e], a, b) == LinesOf(piece, a, b) + [LineOf(e, a, b)];
  }

  // ---- what a hunk says -------------------------------------------------------------

  // The old lines a hunk matches, and the new lines it writes.
  function OldText(lines: seq<DiffLine>): seq<Line> {
    if lines == [] then []
    else (if lines[0].kind == Add then [] else [lines[0].content]) + OldText(lines[1..])
  }

  function NewText(lines: seq<DiffLine>): seq<Line> {
    if lines == [] then []
    else (if lines[0].kind == Remove then [] else [lines[0].content]) + NewText(lines[1..])
  }

  // The lines are numbered consecutively on both sides, from o and n (1-based).
  predicate Numbered(lines: seq<DiffLine>, o: nat, n: nat) {
    lines == [] ||
    match lines[0].kind
    case Context => lines[0].oldLine == o && lines[0].newLine == n && Numbered(lines[1..], o + 1, n + 1)
    case Remove => lines[0].oldLine == o && lines[0].newLine == 0 && Numbered(lines[1..], o + 1, n)
    case Add => lines[0].oldLine == 0 && lines[0].newLine == n && Numbered(lines[1..], o, n + 1)
  }

  function OldAt(edits: seq<Edit>, i: int): nat requires 0 <= i <= |edits| { OldCount(edits[..i]) }

  function NewAt(edits: seq<Edit>, i: int): nat requires 0 <= i <= |edits| { NewCount(edits[..i]) }

  // A hunk for a range shows that stretch of the script and so contiguous stretches of both files,
  // of the stated lengths, from the stated starts (0 where the stretch is empty), numbered
  // accordingly.
  ghost predicate IsHunk(h: Hunk, edits: seq<Edit>, oldLines: seq<Line>, newLines: seq<Line>, range: Range) {
    && 0 <= range.start <= range.end < |edits|
    && Addresses(PieceOf(edits, range), oldLines, newLines) && h.lines == LinesOf(PieceOf(edits, range), oldLines, newLines)
    && var o, n := OldAt(edits, range.start), NewAt(edits, range.start);
    && h.oldLines == OldAt(edits, range.end + 1) - o && h.newLines == NewAt(edits, range.end + 1) - n
    && h.oldStart == (if h.oldLines == 0 then 0 else o + 1)
    && h.newStart == (if h.newLines == 0 then 0 else n + 1)
    && h.header == Header(h.oldStart, h.oldLines, h.newStart, h.newLines)
    && o + h.oldLines <= |oldLines| && OldText(h.lines) == oldLines[o..o + h.oldLines]
    && n + h.newLines <= |newLines| && NewText(h.lines) == newLines[n..n + h.newLines]
    && |h.lines| == range.end + 1 - range.start && Numbered(h.lines, o + 1, n + 1)
  }

  ghost predicate IsScript(edits: seq<Edit>, oldLines: seq<Line>, newLines: seq<Line>) {
    Path(edits, oldLines, newLines, 0, 0, 0, |oldLines|, |newLines|)
  }

  lemma {:induction false} PieceText(piece: seq<Edit>, a: seq<Line>, b: seq<Line>, o: nat, n: nat, o': nat, n': nat)
    requires Path(piece, a, b, 0, o, n, o', n') && o <= |a| && n <= |b| && Addresses(piece, a, b)
    ensures o <= o' <= |a| && n <= n' <= |b|
    ensures OldText(LinesOf(piece, a, b)) == a[o..o'] && NewText(LinesOf(piece, a, b)) == b[n..n']
    decreases |piece|
  {
    if piece != [] {
      var rest := piece[1..];
      assert LinesOf(piece, a, b)[1..] == LinesOf(rest, a, b);
      var o1, n1 := if piece[0].op == Insert then o else o + 1, if piece[0].op == Delete then n else n + 1;
      PieceText(rest, a, b, o1, n1, o', n');
      if o1 > o { FirstOfSlice(a, o, o'); }
      if n1 > n { FirstOfSlice(b, n, n'); }
    }
  }

  lemma FirstOfSlice(a: seq<Line>, o: nat, o': nat)
    requires o < o' <= |a|
    ensures a[o..o'] == [a[o]] + a[o + 1..o']
  {}

  lemma {:induction false} PieceNumbers(piece: seq<Edit>, a: seq<Line>, b: seq<Line>, o: nat, n: nat, o': nat, n': nat)
    requires Path(piece, a, b, 0, o, n, o', n') && Addresses(piece, a, b)
    ensures o <= o' && n <= n' && Numbered(LinesOf(piece, a, b), o + 1, n + 1)
    ensures FirstOld(piece) == (if o == o' then 0 else o + 1) && FirstNew(piece) == (if n == n' then 0 else n + 1)
    decreases |piece|
  {
    if piece != [] {
      var rest := piece[1..];
      assert LinesOf(piece, a, b)[1..] == LinesOf(rest, a, b);
      match piece[0].op
      case Equal => PieceNumbers(rest, a, b, o + 1, n + 1, o', n');
      case Insert => PieceNumbers(rest, a, b, o, n + 1, o', n');
      case Delete => PieceNumbers(rest, a, b, o + 1, n, o', n');
    }
  }

  // The stretch of a script between two of its positions.
  lemma Cut(edits: seq<Edit>, a: seq<Line>, b: seq<Line>, s: int, t: int)
    requires IsScript(edits, a, b) && 0 <= s <= t <= |edits|
    ensures Path(edits[s..t], a, b, 0, OldAt(edits, s), NewAt(edits, s), OldAt(edits, t), NewAt(edits, t))
    ensures OldAt(edits, t) == OldAt(edits, s) + OldCount(edits[s..t]) <= |a|
    ensures NewAt(edits, t) == NewAt(edits, s) + NewCount(edits[s..t]) <= |b|
  {
    var head, piece := edits[..s], edits[s..t];
    assert edits[..t] == head + piece && edits == edits[..t] + edits[t..];
    PathSplit(edits[..t], edits[t..], a, b, 0, 0, |a|, |b|);
    PathSplit(head, piece, a, b, 0, 0, OldAt(edits, t), NewAt(edits, t));
    CountsAdd(head, piece);
    PathEnds(edits[..t], a, b, 0, 0, OldAt(edits, t), NewAt(edits, t));
  }

  lemma WholeScript(edits: seq<Edit>, a: seq<Line>, b: seq<Line>)
    requires IsScript(edits, a, b)
    ensures OldAt(edits, 0) == 0 == NewAt(edits, 0)
    ensures OldAt(edits, |edits|) == |a| && NewAt(edits, |edits|) == |b|
  {
    assert edits[..|edits|] == edits;
    PathEnds(edits, a, b, 0, 0, |a|, |b|);
  }

  lemma ScriptAddresses(edits: seq<Edit>, a: seq<Line>, b: seq<Line>)
    requires IsScript(edits, a, b)
    ensures Addresses(edits, a, b)
  {
    ReplayTurnsOldIntoNew(edits, a, b, 0, 0);
  }

  lemma RenderedIsHunk(h: Hunk, edits: seq<Edit>, a: seq<Line>, b: seq<Line>, range: Range)
    requires IsScript(edits, a, b) && 0 <= range.start <= range.end < |edits|
    requires Shows(h, PieceOf(edits, range), a, b)
    ensures IsHunk(h, edits, a, b, range)
  {
    hide Path, LinesOf, OldText, NewText, Numbered, FirstOld, FirstNew, OldCount, NewCount, Header, OldAt, NewAt, IsScript;
    var s, t := range.start, range.end + 1;
    var piece := edits[s..t];
    Cut(edits, a, b, 0, s);
    Cut(edits, a, b, s, t);
    assert piece == PieceOf(edits, range);
    hide Addresses, PieceOf;
    PieceText(piece, a, b, OldAt(edits, s), NewAt(edits, s), OldAt(edits, t), NewAt(edits, t));
    PieceNumbers(piece, a, b, OldAt(edits, s), NewAt(edits, s), OldAt(edits, t), NewAt(edits, t));
    LinesCount(piece, a, b);
  }

  lemma LinesCount(piece: seq<Edit>, a: seq<Line>, b: seq<Line>)
    requires Addresses(piece, a, b)
    ensures |LinesOf(piece, a, b)| == |piece|
  {}

  // ---- a hunk list as a patch -------------------------------------------------------

  // Applies hunks to the old lines at their header positions. cursor old lines are consumed and
  // produced new lines written so far; a hunk that is out of place on either side, or whose
  // context or deletions do not match, is rejected.
  function Apply(hunks: seq<Hunk>, oldLines: seq<Line>, cursor: nat, produced: nat): Option<seq<Line>>
    requires cursor <= |oldLines|
  {
    if hunks == [] then Some(oldLines[cursor..])
    else
      var h := hunks[0];
      var at := if h.oldLines == 0 then h.oldStart else h.oldStart - 1;
      if at < cursor || at + h.oldLines > |oldLines| || OldText(h.lines) != oldLines[at..at + h.oldLines] then None
      else
        var here := produced + (at - cursor);
        if (if h.newLines == 0 then h.newStart != here else h.newStart != here + 1) then None
        else if |NewText(h.lines)| != h.newLines then None
        else
          match Apply(hunks[1..], oldLines, at + h.oldLines, here + h.newLines)
          case None => None
          case Some(rest) => Some(oldLines[cursor..at] + NewText(h.lines) + rest)
  }

  ghost predicate AreHunks(hunks: seq<Hunk>, ranges: seq<Range>, edits: seq<Edit>, a: seq<Line>, b: seq<Line>) {
    && |hunks| == |ranges|
    && forall r | 0 <= r < |hunks| :: IsHunk(hunks[r], edits, a, b, ranges[r])
  }

  // A range that does not start the script follows an unchanged line and, with at least one line
  // of context, starts with one.
  lemma RangeEdges(ranges: seq<Range>, edits: seq<Edit>, c: int, r: int)
    requires Exact(ranges, edits, c) && c >= 0 && 0 <= r < |ranges|
    ensures ranges[r].start > 0 ==> edits[ranges[r].start - 1].op == Equal
    ensures ranges[r].start > 0 && c >= 1 ==> edits[ranges[r].start].op == Equal
  {
    var s := ranges[r].start;
    if s > 0 {
      assert Within(c, s - 1, s - 1) && (c >= 1 ==> Within(c, s - 1, s));
      assert Changed(edits, s - 1) ==> Near(edits, c, s - 1);
      assert c >= 1 && Changed(edits, s) ==> Near(edits, c, s - 1);
      assert forall r' | 0 <= r' < |ranges| :: ranges[r'].end < s - 1 || s <= ranges[r'].start;
    }
  }

  // Between ranges nothing changed, so both files agree there.
  lemma GapIsEqual(ranges: seq<Range>, edits: seq<Edit>, c: int, s: int, t: int, a: seq<Line>, b: seq<Line>)
    requires Exact(ranges, edits, c) && c >= 0 && 0 <= s <= t <= |edits| && IsScript(edits, a, b)
    requires forall e | s <= e < t :: !Covered(ranges, e)
    ensures OldAt(edits, s) <= OldAt(edits, t) <= |a| && NewAt(edits, s) <= NewAt(edits, t) <= |b|
    ensures a[OldAt(edits, s)..OldAt(edits, t)] == b[NewAt(edits, s)..NewAt(edits, t)]
  {
    Cut(edits, a, b, s, t);
    forall e | s <= e < t ensures edits[e].op == Equal {
      assert !Covered(ranges, e);
      assert Within(c, e, e);
      assert Changed(edits, e) ==> Near(edits, c, e);
    }
    EqualRun(edits[s..t], a, b, OldAt(edits, s), NewAt(edits, s), OldAt(edits, t), NewAt(edits, t));
  }

  lemma {:induction false} EqualRun(s: seq<Edit>, a: seq<Line>, b: seq<Line>, i: nat, j: nat, i': nat, j': nat)
    requires Path(s, a, b, 0, i, j, i', j') && forall k | 0 <= k < |s| :: s[k].op == Equal
    requires i' <= |a| && j' <= |b|
    ensures i <= i' && j <= j' && a[i..i'] == b[j..j']
    decreases |s|
  {
    if s != [] {
      EqualRun(s[1..], a, b, i + 1, j + 1, i', j');
      assert a[i..i'] == [a[i]] + a[i + 1..i'] && b[j..j'] == [b[j]] + b[j + 1..j'];
    }
  }

  // h rewrites old lines o'..o'' into new lines n'..n'', and the stretch before it is unchanged.
  ghost predicate Fits(h: Hunk, a: seq<Line>, b: seq<Line>, o: nat, o': nat, o'': nat, n: nat, n': nat, n'': nat) {
    && o <= o' <= o'' <= |a| && n <= n' <= n'' <= |b| && a[o..o'] == b[n..n']
    && h.oldLines == o'' - o' && h.newLines == n'' - n' && h.oldLines + h.newLines > 0
    && h.oldStart == (if h.oldLines == 0 then 0 else o' + 1)
    && h.newStart == (if h.newLines == 0 then 0 else n' + 1)
    && OldText(h.lines) == a[o'..o''] && NewText(h.lines) == b[n'..n'']
  }

  // A hunk with lines on one side only is in place at the start of the file and nowhere else: its
  // start on the other side is 0 wherever it belongs.
  predicate InPlace(h: Hunk) {
    (h.oldLines == 0 ==> h.newStart <= 1) && (h.newLines == 0 ==> h.oldStart <= 1)
  }

  ghost predicate AllInPlace(hunks: seq<Hunk>) {
    forall r | 0 <= r < |hunks| :: InPlace(hunks[r])
  }

  lemma {:induction false} ApplyOne(hunks: seq<Hunk>, a: seq<Line>, b: seq<Line>,
                                    o: nat, o': nat, o'': nat, n: nat, n': nat, n'': nat)
    requires hunks != [] && Fits(hunks[0], a, b, o, o', o'', n, n', n'') && (o' == 0 <==> n' == 0) && InPlace(hunks[0])
    ensures Apply(hunks[1..], a, o'', n'') == Some(b[n''..]) ==> Apply(hunks, a, o, n) == Some(b[n..])
    ensures Apply(hunks[1..], a, o'', n'').None? ==> Apply(hunks, a, o, n).None?
  {
    hide OldText, NewText, Apply;
    GapLength(a, b, o, o', n, n');
    StartsAt(hunks[0], a, b, o, o', o'', n, n', n'');
    ApplyAt(hunks, a, o', n', o, n);
    ThreeParts(b, n, n', n'');
    hide Fits, InPlace;
  }

  lemma StartsAt(h: Hunk, a: seq<Line>, b: seq<Line>, o: nat, o': nat, o'': nat, n: nat, n': nat, n'': nat)
    requires Fits(h, a, b, o, o', o'', n, n', n'') && (o' == 0 <==> n' == 0) && InPlace(h)
    ensures o' == (if h.oldLines == 0 then h.oldStart else h.oldStart - 1)
    ensures if h.newLines == 0 then h.newStart == n' else h.newStart == n' + 1
    ensures |NewText(h.lines)| == h.newLines
  {
    hide OldText, NewText;
  }

  lemma ThreeParts(b: seq<Line>, n: nat, n': nat, n'': nat)
    requires n <= n' <= n'' <= |b|
    ensures b[n..n'] + b[n'..n''] + b[n''..] == b[n..]
  {}

  // One hunk that is accepted, at at on the old side and here on the new one.
  lemma ApplyAt(hunks: seq<Hunk>, a: seq<Line>, at: nat, here: nat, o: nat, n: nat)
    requires hunks != [] && o <= at && here == n + at - o && at + hunks[0].oldLines <= |a|
    requires var h := hunks[0];
      && at == (if h.oldLines == 0 then h.oldStart else h.oldStart - 1)
      && (if h.newLines == 0 then h.newStart == here else h.newStart == here + 1)
      && OldText(h.lines) == a[at..at + h.oldLines] && |NewText(h.lines)| == h.newLines
    ensures var rest := Apply(hunks[1..], a, at + hunks[0].oldLines, here + hunks[0].newLines);
      Apply(hunks, a, o, n) == if rest.None? then None else Some(a[o..at] + NewText(hunks[0].lines) + rest.value)
  {}

  lemma GapLength(a: seq<Line>, b: seq<Line>, o: nat, o': nat, n: nat, n': nat)
    requires o <= o' <= |a| && n <= n' <= |b| && a[o..o'] == b[n..n']
    ensures o' - o == n' - n
  {
    assert |a[o..o']| == |b[n..n']|;
  }

  lemma {:induction false} OutOfPlace(hunks: seq<Hunk>, a: seq<Line>, b: seq<Line>,
                                      o: nat, o': nat, o'': nat, n: nat, n': nat, n'': nat)
    requires hunks != [] && Fits(hunks[0], a, b, o, o', o'', n, n', n'') && (o' == 0 <==> n' == 0) && !InPlace(hunks[0])
    ensures Apply(hunks, a, o, n).None?
  {
    hide OldText, NewText;
    GapLength(a, b, o, o', n, n');
  }

  // A range that starts with an unchanged line has lines of both files.
  lemma {:induction false} RangeHasLines(edits: seq<Edit>, s: int, t: int)
    requires 0 <= s < t <= |edits|
    ensures OldAt(edits, t) - OldAt(edits, s) + NewAt(edits, t) - NewAt(edits, s) > 0
    ensures edits[s].op == Equal ==> OldAt(edits, s) < OldAt(edits, t) && NewAt(edits, s) < NewAt(edits, t)
  {
    assert edits[..t] == edits[..s] + edits[s..t];
    CountsAdd(edits[..s], edits[s..t]);
  }

  lemma {:induction false} BetweenRanges(ranges: seq<Range>, n: nat, r: nat)
    requires Separated(ranges, n) && r <= |ranges|
    ensures var e := if r == 0 then 0 else ranges[r - 1].end + 1;
      var s := if r == |ranges| then n else ranges[r].start;
      e <= s && forall i | e <= i < s :: !Covered(ranges, i)
  {}

  function End(ranges: seq<Range>, r: nat): int
    requires r <= |ranges|
  {
    if r == 0 then 0 else ranges[r - 1].end + 1
  }

  lemma {:induction false} HunkFits(hunks: seq<Hunk>, ranges: seq<Range>, edits: seq<Edit>, c: int,
                                    a: seq<Line>, b: seq<Line>, r: nat)
    requires Exact(ranges, edits, c) && c >= 0 && IsScript(edits, a, b)
    requires r < |ranges| && AreHunks(hunks, ranges, edits, a, b)
    ensures var e, s, t := End(ranges, r), ranges[r].start, End(ranges, r + 1);
      && 0 <= e <= s < t <= |edits|
      && Fits(hunks[r], a, b, OldAt(edits, e), OldAt(edits, s), OldAt(edits, t),
              NewAt(edits, e), NewAt(edits, s), NewAt(edits, t))
      && (OldAt(edits, s) == 0 <==> NewAt(edits, s) == 0)
      && (c >= 1 ==> InPlace(hunks[r]))
  {
    hide Path, OldText, NewText, Numbered, Near, OldAt, NewAt, IsHunk, IsScript;
    var e, s, t := End(ranges, r), ranges[r].start, End(ranges, r + 1);
    BetweenRanges(ranges, |edits|, r);
    GapIsEqual(ranges, edits, c, e, s, a, b);
    RangeEdges(ranges, edits, c, r);
    hide Covered, Exact, Separated;
    RangeSides(edits, a, b, s, t);
    HunkFitsAt(hunks[r], edits, a, b, ranges[r], e);
    if c >= 1 { HunkInPlace(hunks[r], edits, a, b, ranges[r]); }
    hide Fits, InPlace;
  }

  // What a range at the start of the script, or behind an unchanged line, has of both files.
  lemma RangeSides(edits: seq<Edit>, a: seq<Line>, b: seq<Line>, s: int, t: int)
    requires IsScript(edits, a, b) && 0 <= s < t <= |edits| && (s > 0 ==> edits[s - 1].op == Equal)
    ensures OldAt(edits, s) <= OldAt(edits, t) <= |a| && NewAt(edits, s) <= NewAt(edits, t) <= |b|
    ensures OldAt(edits, t) - OldAt(edits, s) + NewAt(edits, t) - NewAt(edits, s) > 0
    ensures if s == 0 then OldAt(edits, s) == 0 == NewAt(edits, s) else OldAt(edits, s) > 0 && NewAt(edits, s) > 0
    ensures edits[s].op == Equal ==> OldAt(edits, s) < OldAt(edits, t) && NewAt(edits, s) < NewAt(edits, t)
  {
    hide IsScript, OldAt, NewAt, Path;
    WholeScript(edits, a, b);
    Cut(edits, a, b, s, t);
    RangeHasLines(edits, s, t);
    if s > 0 { RangeHasLines(edits, s - 1, s); }
  }

  // A hunk that follows a stretch where the files agree.
  lemma HunkFitsAt(h: Hunk, edits: seq<Edit>, a: seq<Line>, b: seq<Line>, range: Range, e: int)
    requires IsHunk(h, edits, a, b, range) && 0 <= e <= range.start
    requires var s, t := range.start, range.end + 1;
      && OldAt(edits, e) <= OldAt(edits, s) <= OldAt(edits, t) <= |a| && NewAt(edits, e) <= NewAt(edits, s) <= NewAt(edits, t) <= |b|
      && a[OldAt(edits, e)..OldAt(edits, s)] == b[NewAt(edits, e)..NewAt(edits, s)]
      && OldAt(edits, t) - OldAt(edits, s) + NewAt(edits, t) - NewAt(edits, s) > 0
    ensures var s, t := range.start, range.end + 1;
      Fits(h, a, b, OldAt(edits, e), OldAt(edits, s), OldAt(edits, t), NewAt(edits, e), NewAt(edits, s), NewAt(edits, t))
  {
    hide OldAt, NewAt, OldText, NewText, Numbered, Header;
  }

  // One that starts the file, or starts with an unchanged line.
  lemma HunkInPlace(h: Hunk, edits: seq<Edit>, a: seq<Line>, b: seq<Line>, range: Range)
    requires IsHunk(h, edits, a, b, range)
    requires var s, t := range.start, range.end + 1;
      if s == 0 then OldAt(edits, s) == 0 == NewAt(edits, s)
      else OldAt(edits, s) < OldAt(edits, t) && NewAt(edits, s) < NewAt(edits, t)
    ensures InPlace(h)
  {
    hide OldAt, NewAt, OldText, NewText, Numbered, Header;
  }

  lemma {:induction false} LastGap(ranges: seq<Range>, edits: seq<Edit>, c: int, a: seq<Line>, b: seq<Line>)
    requires Exact(ranges, edits, c) && c >= 0 && IsScript(edits, a, b)
    ensures var e := End(ranges, |ranges|);
      && 0 <= e <= |edits| && OldAt(edits, e) <= |a| && NewAt(edits, e) <= |b|
      && Apply([], a, OldAt(edits, e), NewAt(edits, e)) == Some(b[NewAt(edits, e)..])
  {
    var e := End(ranges, |ranges|);
    BetweenRanges(ranges, |edits|, |ranges|);
    GapIsEqual(ranges, edits, c, e, |edits|, a, b);
    WholeScript(edits, a, b);
    assert a[OldAt(edits, e)..|a|] == a[OldAt(edits, e)..] && b[NewAt(edits, e)..|b|] == b[NewAt(edits, e)..];
  }

  // Applying the hunks from the r-th on, where the one before it ended: they write what is left
  // of the new file if all of them are in place, and are rejected otherwise.
  lemma {:induction false} ApplyFrom(hunks: seq<Hunk>, ranges: seq<Range>, edits: seq<Edit>, c: int,
                                     a: seq<Line>, b: seq<Line>, r: nat)
    requires Exact(ranges, edits, c) && c >= 0 && IsScript(edits, a, b)
    requires r <= |ranges| && AreHunks(hunks, ranges, edits, a, b)
    ensures var e := End(ranges, r);
      && 0 <= e <= |edits| && OldAt(edits, e) <= |a| && NewAt(edits, e) <= |b|
      && Apply(hunks[r..], a, OldAt(edits, e), NewAt(edits, e))
         == if AllInPlace(hunks[r..]) then Some(b[NewAt(edits, e)..]) else None
    decreases |ranges| - r
  {
    hide OldText, NewText, OldAt, NewAt, Exact, IsHunk, IsScript, Apply, Path, Numbered, InPlace;
    var e := End(ranges, r);
    if r == |ranges| {
      LastGap(ranges, edits, c, a, b);
      assert hunks[r..] == [];
    } else {
      hide AllInPlace;
      ApplyFrom(hunks, ranges, edits, c, a, b, r + 1);
      HunkFits(hunks, ranges, edits, c, a, b, r);
      var s, t := ranges[r].start, End(ranges, r + 1);
      var rest := hunks[r..];
      assert rest[1..] == hunks[r + 1..] && rest[0] == hunks[r];
      InPlaceFirst(rest);
      if InPlace(hunks[r]) {
        ApplyOne(rest, a, b, OldAt(edits, e), OldAt(edits, s), OldAt(edits, t), NewAt(edits, e), NewAt(edits, s), NewAt(edits, t));
      } else {
        OutOfPlace(rest, a, b, OldAt(edits, e), OldAt(edits, s), OldAt(edits, t), NewAt(edits, e), NewAt(edits, s), NewAt(edits, t));
      }
    }
  }

  lemma InPlaceFirst(hunks: seq<Hunk>)
    requires hunks != []
    ensures AllInPlace(hunks) <==> InPlace(hunks[0]) && AllInPlace(hunks[1..])
  {
    assert forall r | 1 <= r < |hunks| :: hunks[r] == hunks[1..][r - 1];
  }

  // A hunk list applied to the old file gives the new one exactly if all hunks are in place, which
  // they are with at least one line of context; any other list is rejected.
  lemma HunksArePatchIff(hunks: seq<Hunk>, ranges: seq<Range>, edits: seq<Edit>, c: int, a: seq<Line>, b: seq<Line>)
    requires Exact(ranges, edits, c) && c >= 0 && IsScript(edits, a, b) && AreHunks(hunks, ranges, edits, a, b)
    ensures Apply(hunks, a, 0, 0) == if AllInPlace(hunks) then Some(b) else None
    ensures c >= 1 ==> AllInPlace(hunks)
  {
    ApplyFrom(hunks, ranges, edits, c, a, b, 0);
    WholeScript(edits, a, b);
    assert hunks[0..] == hunks && b[0..] == b;
    forall r | 0 <= r < |hunks| ensures c >= 1 ==> InPlace(hunks[r]) {
      HunkFits(hunks, ranges, edits, c, a, b, r);
    }
  }

  // Without context an insertion after the first line is rejected: its hunk says it belongs
  // before the first.
  lemma InsertionOutOfPlace(x: Line, y: Line)
    ensures var h := Hunk(0, 0, 2, 1, Header(0, 0, 2, 1), [DiffLine(Add, y, 0, 2)]);
      IsHunk(h, [Edit(Equal, 0, 0), Edit(Insert, -1, 1)], [x], [x, y], Range(1, 1)) && Apply([h], [x], 0, 0).None?
  {
    var edits := [Edit(Equal, 0, 0), Edit(Insert, -1, 1)];
    assert edits[..1] == [edits[0]] && edits[..2] == edits && edits[1..] == [edits[1]];
    assert OldAt(edits, 1) == 1 == NewAt(edits, 1) && OldAt(edits, 2) == 1 && NewAt(edits, 2) == 2;
    assert [x, y][1..2] == [y];
  }

  const EMPTY_HUNK := Hunk(0, 0, 0, 0, "@@ -0,0 +0,0 @@", [])

  // Hunks without lines say nothing.
  lemma {:induction false} EmptyHunksKeep(hunks: seq<Hunk>, a: seq<Line>)
    requires forall r | 0 <= r < |hunks| :: hunks[r] == EMPTY_HUNK
    ensures Apply(hunks, a, 0, 0) == Some(a)
  {
    if hunks != [] {
      EmptyHunksKeep(hunks[1..], a);
      ApplyAt(hunks, a, 0, 0, 0, 0);
      assert a[0..0] + NewText(hunks[0].lines) + a == a;
    }
  }

  // The start lines of the two sides drift apart by what the earlier hunks added and removed.
  function Delta(hunks: seq<Hunk>): int {
    if hunks == [] then 0 else Delta(hunks[..|hunks| - 1]) + hunks[|hunks| - 1].newLines - hunks[|hunks| - 1].oldLines
  }

  lemma {:induction false} PositionsDrift(hunks: seq<Hunk>, ranges: seq<Range>, edits: seq<Edit>, c: int,
                                          a: seq<Line>, b: seq<Line>, r: nat)
    requires Exact(ranges, edits, c) && c >= 0 && IsScript(edits, a, b)
    requires r <= |ranges| && AreHunks(hunks, ranges, edits, a, b)
    ensures 0 <= End(ranges, r) <= |edits|
    ensures NewAt(edits, End(ranges, r)) - OldAt(edits, End(ranges, r)) == Delta(hunks[..r])
  {
    hide IsScript, Exact, OldText, NewText, IsHunk, Numbered;
    if r == 0 {
      WholeScript(edits, a, b);
    } else {
      PositionsDrift(hunks, ranges, edits, c, a, b, r - 1);
      HunkFits(hunks, ranges, edits, c, a, b, r - 1);
      var e, s := End(ranges, r - 1), ranges[r - 1].start;
      assert |a[OldAt(edits, e)..OldAt(edits, s)]| == |b[NewAt(edits, e)..NewAt(edits, s)]|;
      assert hunks[..r][..r - 1] == hunks[..r - 1];
    }
  }

  lemma StartsDrift(hunks: seq<Hunk>, ranges: seq<Range>, edits: seq<Edit>, c: int, a: seq<Line>, b: seq<Line>, r: nat)
    requires Exact(ranges, edits, c) && c >= 0 && IsScript(edits, a, b)
    requires r < |ranges| && AreHunks(hunks, ranges, edits, a, b)
    ensures hunks[r].oldStart != 0 && hunks[r].newStart != 0 ==>
      hunks[r].newStart - hunks[r].oldStart == Delta(hunks[..r])
  {
    hide IsScript, Exact, OldText, NewText, Numbered, Delta;
    PositionsDrift(hunks, ranges, edits, c, a, b, r);
    HunkFits(hunks, ranges, edits, c, a, b, r);
    var e, s := End(ranges, r), ranges[r].start;
    assert |a[OldAt(edits, e)..OldAt(edits, s)]| == |b[NewAt(edits, e)..NewAt(edits, s)]|;
  }

  // ---- the whole file ---------------------------------------------------------------

  function Count(s: seq<Edit>, op: Op): nat {
    if s == [] then 0 else Count(s[..|s| - 1], op) + (if s[|s| - 1].op == op then 1 else 0)
  }

  lemma {:induction false} CountBalance(s: seq<Edit>)
    ensures Count(s, Insert) - Count(s, Delete) == NewCount(s) - OldCount(s)
    ensures Count(s, Insert) + Count(s, Delete) == Changes(s)
    ensures Changes(s) == 0 <==> forall i :: !Changed(s, i)
  {
    if s != [] {
      var front, last := s[..|s| - 1], [s[|s| - 1]];
      assert s == front + last;
      CountBalance(front);
      CountsAdd(front, last);
      ChangesSnoc(front, s[|s| - 1]);
      assert forall i :: Changed(s, i) <==> Changed(front, i) || (i == |front| && s[i].op != Equal);
    }
  }

  lemma {:induction false} ChangesSnoc(s: seq<Edit>, e: Edit)
    ensures Changes(s + [e]) == Changes(s) + (if e.op == Equal then 0 else 1)
  {
    if s != [] {
      assert (s + [e])[1..] == s[1..] + [e];
      ChangesSnoc(s[1..], e);
    }
  }

  // ---- every change is shown once ---------------------------------------------------

  // How many lines of a kind some lines have, and some hunks.
  function KindCount(lines: seq<DiffLine>, kind: LineKind): nat {
    if lines == [] then 0 else KindCount(lines[..|lines| - 1], kind) + if lines[|lines| - 1].kind == kind then 1 else 0
  }

  function Shown(hunks: seq<Hunk>, kind: LineKind): nat {
    if hunks == [] then 0 else Shown(hunks[..|hunks| - 1], kind) + KindCount(hunks[|hunks| - 1].lines, kind)
  }

  lemma {:induction false} KindsOfPiece(piece: seq<Edit>, a: seq<Line>, b: seq<Line>)
    requires Addresses(piece, a, b)
    ensures KindCount(LinesOf(piece, a, b), Add) == Count(piece, Insert)
    ensures KindCount(LinesOf(piece, a, b), Remove) == Count(piece, Delete)
  {
    if piece != [] {
      var front := piece[..|piece| - 1];
      var lines := LinesOf(piece, a, b);
      assert lines[..|lines| - 1] == LinesOf(front, a, b);
      KindsOfPiece(front, a, b);
    }
  }

  lemma {:induction false} CountConcat(s: seq<Edit>, t: seq<Edit>, op: Op)
    ensures Count(s + t, op) == Count(s, op) + Count(t, op)
  {
    if t == [] {
      assert s + t == s;
    } else {
      assert (s + t)[..|s + t| - 1] == s + t[..|t| - 1];
      CountConcat(s, t[..|t| - 1], op);
    }
  }

  // No line between two positions of the script changed.
  ghost predicate Same(edits: seq<Edit>, e: int, s: int) {
    0 <= e <= s <= |edits| && forall i | e <= i < s :: edits[i].op == Equal
  }

  lemma {:induction false} NoChanges(edits: seq<Edit>, e: int, s: int, op: Op)
    requires Same(edits, e, s) && op != Equal
    ensures Count(edits[..s], op) == Count(edits[..e], op)
    decreases s
  {
    if e < s {
      NoChanges(edits, e, s - 1, op);
      assert edits[..s][..s - 1] == edits[..s - 1];
    }
  }

  // What lies between two ranges did not change.
  lemma GapIsSame(ranges: seq<Range>, edits: seq<Edit>, c: int, r: nat)
    requires Exact(ranges, edits, c) && c >= 0 && r <= |ranges|
    ensures Same(edits, End(ranges, r), if r == |ranges| then |edits| else ranges[r].start)
    ensures r < |ranges| ==> ranges[r].start <= ranges[r].end < |edits| && End(ranges, r + 1) == ranges[r].end + 1
  {
    BetweenRanges(ranges, |edits|, r);
    var e, s := End(ranges, r), if r == |ranges| then |edits| else ranges[r].start;
    forall i | e <= i < s ensures edits[i].op == Equal {
      assert !Covered(ranges, i) && Within(c, i, i);
      assert Changed(edits, i) ==> Near(edits, c, i);
    }
  }

  lemma {:induction false} ShownUpTo(hunks: seq<Hunk>, ranges: seq<Range>, edits: seq<Edit>, c: int, a: seq<Line>, b: seq<Line>, r: nat)
    requires Exact(ranges, edits, c) && c >= 0 && AreHunks(hunks, ranges, edits, a, b) && r <= |ranges|
    ensures 0 <= End(ranges, r) <= |edits|
    ensures Shown(hunks[..r], Add) == Count(edits[..End(ranges, r)], Insert)
    ensures Shown(hunks[..r], Remove) == Count(edits[..End(ranges, r)], Delete)
  {
    hide Exact, IsHunk, Count, KindCount, Same, Shown;
    if r == 0 {
      NothingShown(hunks, edits);
    } else {
      ShownUpTo(hunks, ranges, edits, c, a, b, r - 1);
      GapIsSame(ranges, edits, c, r - 1);
      ShownMore(hunks, edits, a, b, ranges[r - 1], End(ranges, r - 1), r);
    }
  }

  lemma NothingShown(hunks: seq<Hunk>, edits: seq<Edit>)
    ensures Shown(hunks[..0], Add) == Shown(hunks[..0], Remove) == 0
    ensures Count(edits[..0], Insert) == Count(edits[..0], Delete) == 0
  {}

  lemma ShownMore(hunks: seq<Hunk>, edits: seq<Edit>, a: seq<Line>, b: seq<Line>, range: Range, e: int, r: int)
    requires 0 < r <= |hunks| && IsHunk(hunks[r - 1], edits, a, b, range) && Same(edits, e, range.start)
    requires Shown(hunks[..r - 1], Add) == Count(edits[..e], Insert) && Shown(hunks[..r - 1], Remove) == Count(edits[..e], Delete)
    ensures 0 <= range.start <= range.end < |edits|
    ensures Shown(hunks[..r], Add) == Count(edits[..range.end + 1], Insert)
    ensures Shown(hunks[..r], Remove) == Count(edits[..range.end + 1], Delete)
  {
    hide Count, KindCount, IsHunk, Shown;
    PieceShown(hunks[r - 1], edits, a, b, range);
    ShownSnoc(hunks, r, Add);
    ShownSnoc(hunks, r, Remove);
    NoChanges(edits, e, range.start, Insert);
    NoChanges(edits, e, range.start, Delete);
    CountStretch(edits, range.start, range.end + 1, Insert);
    CountStretch(edits, range.start, range.end + 1, Delete);
  }

  lemma ShownSnoc(hunks: seq<Hunk>, r: int, kind: LineKind)
    requires 0 < r <= |hunks|
    ensures Shown(hunks[..r], kind) == Shown(hunks[..r - 1], kind) + KindCount(hunks[r - 1].lines, kind)
  {
    assert hunks[..r][..r - 1] == hunks[..r - 1];
  }

  lemma PieceShown(h: Hunk, edits: seq<Edit>, a: seq<Line>, b: seq<Line>, range: Range)
    requires IsHunk(h, edits, a, b, range)
    ensures 0 <= range.start <= range.end < |edits|
    ensures var piece := edits[range.start..range.end + 1];
      KindCount(h.lines, Add) == Count(piece, Insert) && KindCount(h.lines, Remove) == Count(piece, Delete)
  {
    hide KindCount, Count, LinesOf, Addresses, OldAt, NewAt, OldText, NewText, Numbered, Header;
    KindsOfPiece(PieceOf(edits, range), a, b);
  }

  lemma CountStretch(edits: seq<Edit>, s: int, t: int, op: Op)
    requires 0 <= s <= t <= |edits|
    ensures Count(edits[..t], op) == Count(edits[..s], op) + Count(edits[s..t], op)
  {
    hide Count;
    assert edits[..t] == edits[..s] + edits[s..t];
    CountConcat(edits[..s], edits[s..t], op);
  }

  // The added lines of the hunks are as many as the insertions of the script, and the removed ones
  // as many as its deletions.
  lemma {:induction false} HunksShowChanges(hunks: seq<Hunk>, ranges: seq<Range>, edits: seq<Edit>, c: int, a: seq<Line>, b: seq<Line>)
    requires Exact(ranges, edits, c) && c >= 0 && AreHunks(hunks, ranges, edits, a, b)
    ensures Shown(hunks, Add) == Count(edits, Insert) && Shown(hunks, Remove) == Count(edits, Delete)
  {
    hide Count, Shown, IsHunk, Exact;
    var n := |ranges|;
    ShownUpTo(hunks, ranges, edits, c, a, b, n);
    GapIsSame(ranges, edits, c, n);
    assert hunks[..n] == hunks && edits[..|edits|] == edits;
    NoChanges(edits, End(ranges, n), |edits|, Insert);
    NoChanges(edits, End(ranges, n), |edits|, Delete);
  }

  lemma {:induction false} EmptyHunksShowNothing(hunks: seq<Hunk>, kind: LineKind)
    requires forall r | 0 <= r < |hunks| :: hunks[r] == EMPTY_HUNK
    ensures Shown(hunks, kind) == 0
  {
    if hunks != [] { EmptyHunksShowNothing(hunks[..|hunks| - 1], kind); }
  }

  // What the hunks are for any width of context. A negative width gives one empty hunk per change.
  ghost predicate Grouped(hunks: seq<Hunk>, ranges: seq<Range>, edits: seq<Edit>, a: seq<Line>, b: seq<Line>, c: int) {
    if c >= 0 then Exact(ranges, edits, c) && AreHunks(hunks, ranges, edits, a, b)
    else |hunks| == Changes(edits) && forall r | 0 <= r < |hunks| :: hunks[r] == EMPTY_HUNK
  }

  // What applying the hunks to the old lines gives.
  ghost predicate Patches(hunks: seq<Hunk>, a: seq<Line>, b: seq<Line>, c: int) {
    && Apply(hunks, a, 0, 0) == (if c < 0 then Some(a) else if AllInPlace(hunks) then Some(b) else None)
    && (c >= 1 ==> AllInPlace(hunks))
  }

  // The hunks of a script. ranges is where each hunk lies in the script.
  method BuildHunks(edits: seq<Edit>, oldLines: seq<Line>, newLines: seq<Line>, contextLines: int)
    returns (result: FileDiff, ghost ranges: seq<Range>)
    requires IsScript(edits, oldLines, newLines)
    ensures result.additions == Count(edits, Insert) && result.deletions == Count(edits, Delete)
    ensures result.additions + result.deletions == Changes(edits)
    ensures result.additions - result.deletions == |newLines| - |oldLines|
    ensures Shown(result.hunks, Add) == (if contextLines >= 0 then result.additions else 0)
    ensures Shown(result.hunks, Remove) == (if contextLines >= 0 then result.deletions else 0)
    ensures Grouped(result.hunks, ranges, edits, oldLines, newLines, contextLines)
    ensures Patches(result.hunks, oldLines, newLines, contextLines)
  {
    hide IsScript, Apply, IsHunk, Separated, Near, Covered, OldText, NewText, LinesOf;
    var additions, deletions := 0, 0;
    for i := 0 to |edits|
      invariant additions == Count(edits[..i], Insert) && deletions == Count(edits[..i], Delete)
    {
      assert edits[..i + 1][..i] == edits[..i];
      if edits[i].op == Insert { additions := additions + 1; }
      else if edits[i].op == Delete { deletions := deletions + 1; }
    }
    assert edits[..|edits|] == edits;
    CountBalance(edits);
    WholeScript(edits, oldLines, newLines);
    if additions == 0 && deletions == 0 {
      NoRanges(edits, contextLines);
      ranges := [];
      result := FileDiff([], 0, 0);
    } else {
      var merged := MergeRanges(edits, contextLines);
      ranges := merged;
      var hunks := RenderHunks(edits, oldLines, newLines, merged, contextLines);
      result := FileDiff(hunks, additions, deletions);
    }
    HunksSay(result.hunks, ranges, edits, contextLines, oldLines, newLines);
  }

  lemma HunksSay(hunks: seq<Hunk>, ranges: seq<Range>, edits: seq<Edit>, c: int, a: seq<Line>, b: seq<Line>)
    requires IsScript(edits, a, b) && Grouped(hunks, ranges, edits, a, b, c)
    ensures Patches(hunks, a, b, c)
    ensures Shown(hunks, Add) == (if c >= 0 then Count(edits, Insert) else 0)
    ensures Shown(hunks, Remove) == (if c >= 0 then Count(edits, Delete) else 0)
  {
    hide Apply, AllInPlace, Shown, Count, IsScript, Exact, AreHunks;
    if c >= 0 {
      HunksArePatchIff(hunks, ranges, edits, c, a, b);
      HunksShowChanges(hunks, ranges, edits, c, a, b);
    } else {
      EmptyHunksKeep(hunks, a);
      EmptyHunksShowNothing(hunks, Add);
      EmptyHunksShowNothing(hunks, Remove);
    }
  }

  lemma NoRanges(edits: seq<Edit>, c: int)
    requires forall i :: !Changed(edits, i)
    ensures Exact([], edits, c)
  {}

  lemma AtMostLast(changed: seq<int>, n: nat)
    requires Ascending(changed, n)
    ensures n == 0 ==> changed == []
    ensures forall k | 0 <= k < |changed| :: changed[k] <= changed[|changed| - 1]
  {
    if changed != [] { assert changed[0] < n; }
  }

  lemma ChangedFront(edits: seq<Edit>, changed: seq<int>)
    requires edits != [] && Ascending(changed, |edits|) && forall i :: i in changed <==> Changed(edits, i)
    ensures edits[|edits| - 1].op != Equal ==> changed != []
    ensures var front, kept := edits[..|edits| - 1], if edits[|edits| - 1].op == Equal then changed else changed[..|changed| - 1];
      Ascending(kept, |front|) && (forall i :: i in kept <==> Changed(front, i))
  {
    var front, n := edits[..|edits| - 1], |edits| - 1;
    AtMostLast(changed, |edits|);
    assert forall i | 0 <= i < |front| :: front[i] == edits[i];
    if edits[n].op == Equal {
      forall k | 0 <= k < |changed| ensures changed[k] < n { assert Changed(edits, changed[k]); }
    } else {
      assert Changed(edits, n);
      var last := |changed| - 1;
      assert changed[last] == n;
      var kept := changed[..last];
      forall i ensures i in kept <==> Changed(front, i) {
        KeptIff(changed, i);
        assert i in changed <==> Changed(edits, i);
      }
    }
  }

  lemma KeptIff(changed: seq<int>, i: int)
    requires changed != [] && forall j, k | 0 <= j < k < |changed| :: changed[j] < changed[k]
    ensures i in changed[..|changed| - 1] <==> i in changed && i != changed[|changed| - 1]
  {}

  // There are as many changed positions as changes.
  lemma {:induction false} ChangedCount(edits: seq<Edit>, changed: seq<int>)
    requires Ascending(changed, |edits|) && forall i :: i in changed <==> Changed(edits, i)
    ensures |changed| == Changes(edits)
  {
    if edits == [] {
      AtMostLast(changed, 0);
    } else {
      var front, last := edits[..|edits| - 1], edits[|edits| - 1];
      ChangedFront(edits, changed);
      assert edits == front + [last];
      ChangesSnoc(front, last);
      hide Ascending, Changed;
      ChangedCount(front, if last.op == Equal then changed else changed[..|changed| - 1]);
    }
  }

  method RenderHunks(edits: seq<Edit>, oldLines: seq<Line>, newLines: seq<Line>, ranges: seq<Range>, ghost c: int)
    returns (hunks: seq<Hunk>)
    requires IsScript(edits, oldLines, newLines)
    requires c >= 0 ==> Exact(ranges, edits, c)
    requires c < 0 ==> EmptyRanges(ranges, Changes(edits))
    ensures Grouped(hunks, ranges, edits, oldLines, newLines, c)
  {
    ScriptAddresses(edits, oldLines, newLines);
    hide IsScript, IsHunk, Near, Covered, Addresses, Shows, PieceOf;
    hunks := [];
    for r := 0 to |ranges|
      invariant |hunks| == r
      invariant c >= 0 ==> forall k | 0 <= k < r :: IsHunk(hunks[k], edits, oldLines, newLines, ranges[k])
      invariant c < 0 ==> forall k | 0 <= k < r :: hunks[k] == EMPTY_HUNK
    {
      var hunk := RenderHunk(edits, oldLines, newLines, ranges[r]);
      if c >= 0 { RenderedIsHunk(hunk, edits, oldLines, newLines, ranges[r]); }
      else { NothingShows(hunk, edits, oldLines, newLines, ranges[r]); }
      hunks := hunks + [hunk];
    }
  }

  lemma HeaderOfNothing()
    ensures Header(0, 0, 0, 0) == EMPTY_HUNK.header
  {}

  lemma NothingShows(h: Hunk, edits: seq<Edit>, a: seq<Line>, b: seq<Line>, range: Range)
    requires range.start > range.end && Shows(h, PieceOf(edits, range), a, b)
    ensures h == EMPTY_HUNK
  {}
}
