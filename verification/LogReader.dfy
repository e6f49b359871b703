// The stored log of a run (src/server/ci/log-stream.ts) and the polling reader of streamRunLogs
// (src/server/connect/services/ci.ts), interleaved.
module LogReader {
  // Beyond this many rows the oldest are dropped.
  const MAX_BUFFERED_CHUNKS: nat := 5000

  datatype Row = Row(sequence: nat, stepName: string, text: string, isStderr: bool)

  // ---- the stream -------------------------------------------------------------------

  // Appending numbers the row after the newest stored one. Once there are more than the limit,
  // everything down to and including the limit-th newest goes, leaving one fewer than the limit.
  function Stored(rows: seq<Row>, stepName: string, text: string, isStderr: bool): seq<Row> {
    Trimmed(rows + [Row(NextSequence(rows), stepName, text, isStderr)])
  }

  function NextSequence(rows: seq<Row>): nat {
    if rows == [] then 1 else rows[|rows| - 1].sequence + 1
  }

  function Trimmed(rows: seq<Row>): seq<Row> {
    if |rows| <= MAX_BUFFERED_CHUNKS then rows else rows[|rows| - (MAX_BUFFERED_CHUNKS - 1)..]
  }

  // stepName "" asks for every step.
  predicate Wanted(row: Row, after: nat, stepName: string) {
    row.sequence > after && (stepName == "" || row.stepName == stepName)
  }

  function History(rows: seq<Row>, after: nat, stepName: string): seq<Row> {
    if rows == [] then []
    else
      History(rows[..|rows| - 1], after, stepName) +
      if Wanted(rows[|rows| - 1], after, stepName) then [rows[|rows| - 1]] else []
  }

  // ---- the reader -------------------------------------------------------------------

  datatype Reader = Reader(cursor: nat, emitted: seq<Row>)

  function Advance(cursor: nat, chunks: seq<Row>): nat {
    if chunks == [] then cursor
    else
      var before := Advance(cursor, chunks[..|chunks| - 1]);
      if chunks[|chunks| - 1].sequence > before then chunks[|chunks| - 1].sequence else before
  }

  function Polled(r: Reader, rows: seq<Row>, stepName: string): Reader {
    var chunks := History(rows, r.cursor, stepName);
    Reader(Advance(r.cursor, chunks), r.emitted + chunks)
  }

  // One poll: read what came after the cursor, then emit it row by row.
  method Poll(r: Reader, rows: seq<Row>, stepName: string) returns (r': Reader)
    ensures r' == Polled(r, rows, stepName)
  {
    var chunks := History(rows, r.cursor, stepName);
    var cursor, emitted := r.cursor, r.emitted;
    for i := 0 to |chunks|
      invariant cursor == Advance(r.cursor, chunks[..i]) && emitted == r.emitted + chunks[..i]
    {
      assert chunks[..i + 1][..i] == chunks[..i];
      if chunks[i].sequence > cursor { cursor := chunks[i].sequence; }
      emitted := emitted + [chunks[i]];
    }
    assert chunks[..|chunks|] == chunks;
    return Reader(cursor, emitted);
  }

  // ---- interleaving -----------------------------------------------------------------

  datatype Event = AppendRow(stepName: string, text: string, isStderr: bool) | PollNow

  // all is every row ever appended, rows what is still stored.
  datatype State = State(all: seq<Row>, rows: seq<Row>, reader: Reader)

  function Step(s: State, e: Event, stepName: string): State {
    match e
    case AppendRow(name, text, isStderr) =>
      var row := Row(NextSequence(s.rows), name, text, isStderr);
      s.(all := s.all + [row], rows := Stored(s.rows, name, text, isStderr))
    case PollNow => s.(reader := Polled(s.reader, s.rows, stepName))
  }

  // A stream from its beginning, with one reader that asked for what comes after a sequence number.
  function Run(after: nat, stepName: string, events: seq<Event>): State {
    if events == [] then State([], [], Reader(after, []))
    else Step(Run(after, stepName, events[..|events| - 1]), events[|events| - 1], stepName)
  }

  // Rows are numbered from 1 without a gap and what is stored is the newest of them.
  ghost predicate Numbered(all: seq<Row>, rows: seq<Row>) {
    && (forall i | 0 <= i < |all| :: all[i].sequence == i + 1)
    && |rows| <= |all| && rows == all[|all| - |rows|..]
    && (all != [] ==> rows != [])
    && |rows| <= MAX_BUFFERED_CHUNKS
    && (|all| <= MAX_BUFFERED_CHUNKS ==> rows == all)
  }

  lemma StoredLength(rows: seq<Row>, stepName: string, text: string, isStderr: bool)
    requires |rows| <= MAX_BUFFERED_CHUNKS
    ensures |Stored(rows, stepName, text, isStderr)| == if |rows| < MAX_BUFFERED_CHUNKS then |rows| + 1 else MAX_BUFFERED_CHUNKS - 1
  {}

  // Appending keeps the numbers without a gap and the newest rows, one more of them or, past the
  // limit, one less than the limit.
  lemma {:induction false} StoreKeepsNumbers(all: seq<Row>, rows: seq<Row>, stepName: string, text: string, isStderr: bool)
    requires Numbered(all, rows)
    ensures Numbered(all + [Row(NextSequence(rows), stepName, text, isStderr)], Stored(rows, stepName, text, isStderr))
    ensures |Stored(rows, stepName, text, isStderr)| == if |rows| < MAX_BUFFERED_CHUNKS then |rows| + 1 else MAX_BUFFERED_CHUNKS - 1
  {
    StoredLength(rows, stepName, text, isStderr);
    var all' := all + [Row(NextSequence(rows), stepName, text, isStderr)];
    var rows' := rows + [Row(NextSequence(rows), stepName, text, isStderr)];
    assert rows' == all'[|all'| - |rows'|..];
    if |rows'| > MAX_BUFFERED_CHUNKS {
      assert Trimmed(rows') == all'[|all'| - (MAX_BUFFERED_CHUNKS - 1)..];
    }
  }

  // How many rows are stored once so many were ever appended.
  function StoredCount(appended: nat): nat {
    if appended <= MAX_BUFFERED_CHUNKS then appended
    else MAX_BUFFERED_CHUNKS - 1 + (appended - (MAX_BUFFERED_CHUNKS + 1)) % 2
  }

  // The store never holds the newest 5000 rows for long: past the limit, each second row that is
  // appended takes it down to 4999. It holds 5000 exactly after an even number of rows.
  lemma {:induction false} RowsStored(after: nat, stepName: string, events: seq<Event>)
    ensures var s := Run(after, stepName, events);
      && |s.rows| == StoredCount(|s.all|)
      && (|s.rows| == MAX_BUFFERED_CHUNKS <==> |s.all| >= MAX_BUFFERED_CHUNKS && |s.all| % 2 == 0)
  {
    if events != [] {
      var front, e := events[..|events| - 1], events[|events| - 1];
      RowsStored(after, stepName, front);
      var s := Run(after, stepName, front);
      if e.AppendRow? { OneMoreStored(s.rows, |s.all|, e.stepName, e.text, e.isStderr); }
    }
    FullIffEven(|Run(after, stepName, events).all|);
    hide StoredCount;
  }

  lemma OneMoreStored(rows: seq<Row>, appended: nat, stepName: string, text: string, isStderr: bool)
    requires |rows| == StoredCount(appended)
    ensures |Stored(rows, stepName, text, isStderr)| == StoredCount(appended + 1)
  {}

  lemma FullIffEven(appended: nat)
    ensures StoredCount(appended) == MAX_BUFFERED_CHUNKS <==> appended >= MAX_BUFFERED_CHUNKS && appended % 2 == 0
  {}

  // ---- what the reader may rely on --------------------------------------------------

  // A poll misses nothing: no wanted row was dropped before the reader got to it.
  ghost predicate NothingDropped(s: State, stepName: string) {
    forall i | 0 <= i < |s.all| - |s.rows| :: !Wanted(s.all[i], s.reader.cursor, stepName)
  }

  lemma {:induction false} HistoryConcat(a: seq<Row>, b: seq<Row>, after: nat, stepName: string)
    ensures History(a + b, after, stepName) == History(a, after, stepName) + History(b, after, stepName)
  {
    if b == [] {
      assert a + b == a;
    } else {
      assert (a + b)[..|a + b| - 1] == a + b[..|b| - 1];
      HistoryConcat(a, b[..|b| - 1], after, stepName);
    }
  }

  // Every wanted row is in the history and nothing else is.
  lemma {:induction false} HistoryHas(rows: seq<Row>, after: nat, stepName: string, row: Row)
    ensures row in History(rows, after, stepName) <==> row in rows && Wanted(row, after, stepName)
  {
    if rows != [] {
      HistoryHas(rows[..|rows| - 1], after, stepName, row);
      assert rows == rows[..|rows| - 1] + [rows[|rows| - 1]];
    }
  }

  lemma {:induction false} HistoryEmpty(rows: seq<Row>, after: nat, stepName: string)
    ensures History(rows, after, stepName) == [] <==> forall i | 0 <= i < |rows| :: !Wanted(rows[i], after, stepName)
  {
    if rows != [] { HistoryEmpty(rows[..|rows| - 1], after, stepName); }
  }

  // Strictly increasing from above a bound.
  ghost predicate Increasing(rows: seq<Row>, above: nat) {
    && (forall i | 0 <= i < |rows| :: rows[i].sequence > above)
    && forall i, j | 0 <= i < j < |rows| :: rows[i].sequence < rows[j].sequence
  }

  lemma {:induction false} HistoryIncreasing(rows: seq<Row>, after: nat, stepName: string)
    requires forall i, j | 0 <= i < j < |rows| :: rows[i].sequence < rows[j].sequence
    ensures Increasing(History(rows, after, stepName), after)
    ensures rows != [] ==> forall i | 0 <= i < |History(rows, after, stepName)| ::
      History(rows, after, stepName)[i].sequence <= rows[|rows| - 1].sequence
  {
    if rows != [] {
      HistoryIncreasing(rows[..|rows| - 1], after, stepName);
    }
  }

  lemma {:induction false} AdvanceToLast(rows: seq<Row>, after: nat)
    requires Increasing(rows, after)
    ensures Advance(after, rows) == if rows == [] then after else rows[|rows| - 1].sequence
  {
    if rows != [] { AdvanceToLast(rows[..|rows| - 1], after); }
  }

  // The reader is in order: what it emitted increases strictly, and the cursor is at its last row.
  ghost predicate InOrder(r: Reader, after: nat) {
    && Increasing(r.emitted, after)
    && r.cursor == if r.emitted == [] then after else r.emitted[|r.emitted| - 1].sequence
  }

  lemma {:induction false} PollInOrder(r: Reader, after: nat, rows: seq<Row>, stepName: string)
    requires InOrder(r, after) && forall i, j | 0 <= i < j < |rows| :: rows[i].sequence < rows[j].sequence
    ensures InOrder(Polled(r, rows, stepName), after)
  {
    hide History, Advance;
    HistoryIncreasing(rows, r.cursor, stepName);
    AdvanceToLast(History(rows, r.cursor, stepName), r.cursor);
  }

  // Whatever is dropped, the reader never repeats a row, never goes back and never invents one.
  lemma {:induction false} RunInOrder(after: nat, stepName: string, events: seq<Event>)
    ensures var s := Run(after, stepName, events); Numbered(s.all, s.rows) && InOrder(s.reader, after)
    ensures var s := Run(after, stepName, events);
      forall row | row in s.reader.emitted :: row in s.all && Wanted(row, after, stepName)
  {
    if events != [] {
      var front, e := events[..|events| - 1], events[|events| - 1];
      RunInOrder(after, stepName, front);
      var s := Run(after, stepName, front);
      match e
      case AppendRow(name, text, isStderr) =>
        StoreKeepsNumbers(s.all, s.rows, name, text, isStderr);
      case PollNow =>
        PollInOrder(s.reader, after, s.rows, stepName);
        forall row ensures row in History(s.rows, s.reader.cursor, stepName) ==> row in s.all && Wanted(row, after, stepName) {
          HistoryHas(s.rows, s.reader.cursor, stepName, row);
        }
    }
  }

  // Up to row k, the reader has emitted every wanted row.
  ghost predicate CaughtUp(s: State, after: nat, stepName: string, k: nat) {
    k <= |s.all| && s.reader.emitted == History(s.all[..k], after, stepName)
  }

  lemma AtMostCursor(r: Reader, after: nat, row: Row)
    requires InOrder(r, after) && row in r.emitted
    ensures row.sequence <= r.cursor
  {
    var e := r.emitted;
    var j :| 0 <= j < |e| && e[j] == row;
    assert j < |e| - 1 ==> e[j].sequence < e[|e| - 1].sequence;
  }

  // Above the cursor of a caught-up reader are exactly the wanted rows after row k.
  lemma {:induction false} AboveCursor(s: State, after: nat, stepName: string, k: nat)
    requires Numbered(s.all, s.rows) && InOrder(s.reader, after) && CaughtUp(s, after, stepName, k)
    ensures forall i | 0 <= i < k :: !Wanted(s.all[i], s.reader.cursor, stepName)
    ensures forall i | k <= i < |s.all| :: Wanted(s.all[i], s.reader.cursor, stepName) <==> Wanted(s.all[i], after, stepName)
  {
    var e := s.reader.emitted;
    assert forall i | 0 <= i < |s.all| :: s.all[i].sequence == i + 1;
    hide Numbered, History;
    forall i | 0 <= i < k ensures !Wanted(s.all[i], s.reader.cursor, stepName) {
      HistoryHas(s.all[..k], after, stepName, s.all[i]);
      assert s.all[..k][i] == s.all[i];
      if s.all[i] in e { AtMostCursor(s.reader, after, s.all[i]); }
    }
    if e != [] {
      HistoryHas(s.all[..k], after, stepName, e[|e| - 1]);
      var i :| 0 <= i < k && s.all[..k][i] == e[|e| - 1];
      assert s.all[i].sequence == i + 1;
    }
  }

  lemma {:induction false} HistoryFrame(rows: seq<Row>, after: nat, after': nat, stepName: string)
    requires forall i | 0 <= i < |rows| :: Wanted(rows[i], after, stepName) <==> Wanted(rows[i], after', stepName)
    ensures History(rows, after, stepName) == History(rows, after', stepName)
  {
    if rows != [] { HistoryFrame(rows[..|rows| - 1], after, after', stepName); }
  }

  // The whole wanted log: what was emitted, what was dropped above the cursor, what is stored.
  lemma {:induction false} WantedLog(s: State, after: nat, stepName: string, k: nat)
    requires Numbered(s.all, s.rows) && InOrder(s.reader, after) && CaughtUp(s, after, stepName, k)
    ensures var cursor := s.reader.cursor;
      History(s.all, after, stepName) ==
        s.reader.emitted + (History(s.all[..|s.all| - |s.rows|], cursor, stepName) + History(s.rows, cursor, stepName))
  {
    hide History, Advance, Increasing;
    var all, rows, cursor := s.all, s.rows, s.reader.cursor;
    var dropped := all[..|all| - |rows|];
    AboveCursor(s, after, stepName, k);
    assert all == dropped + rows;
    HistoryConcat(dropped, rows, cursor, stepName);
    assert all == all[..k] + all[k..];
    HistoryConcat(all[..k], all[k..], cursor, stepName);
    HistoryConcat(all[..k], all[k..], after, stepName);
    HistoryEmpty(all[..k], cursor, stepName);
    HistoryFrame(all[k..], after, cursor, stepName);
  }

  // A poll catches the reader up with the whole log exactly when nothing it wanted was dropped.
  lemma {:induction false} PollCatchesUpIff(s: State, after: nat, stepName: string, k: nat)
    requires Numbered(s.all, s.rows) && InOrder(s.reader, after) && CaughtUp(s, after, stepName, k)
    ensures CaughtUp(Step(s, PollNow, stepName), after, stepName, |s.all|) <==> NothingDropped(s, stepName)
  {
    WantedLog(s, after, stepName, k);
    var dropped := s.all[..|s.all| - |s.rows|];
    HistoryEmpty(dropped, s.reader.cursor, stepName);
    assert s.all[..|s.all|] == s.all;
    Middle(s.reader.emitted, History(dropped, s.reader.cursor, stepName), History(s.rows, s.reader.cursor, stepName));
  }

  lemma Middle(a: seq<Row>, b: seq<Row>, c: seq<Row>)
    ensures a + c == a + (b + c) <==> b == []
  {
    if b != [] { assert |a + c| != |a + (b + c)|; }
  }

  // With nothing wanted ever dropped before a poll, the reader has emitted a gap-free prefix of
  // the filtered log: all of it, up to its last poll.
  lemma {:induction false} GapFree(after: nat, stepName: string, events: seq<Event>) returns (k: nat)
    requires forall i | 0 <= i < |events| && events[i] == PollNow :: NothingDropped(Run(after, stepName, events[..i]), stepName)
    ensures CaughtUp(Run(after, stepName, events), after, stepName, k)
    ensures events != [] && events[|events| - 1] == PollNow ==> k == |Run(after, stepName, events).all|
  {
    if events == [] {
      k := 0;
    } else {
      var n := |events| - 1;
      var front := events[..n];
      forall i | 0 <= i < |front| && front[i] == PollNow ensures NothingDropped(Run(after, stepName, front[..i]), stepName) {
        assert front[..i] == events[..i] && events[i] == PollNow;
      }
      var j := GapFree(after, stepName, front);
      var s := Run(after, stepName, front);
      if events[n] == PollNow {
        RunInOrder(after, stepName, front);
        PollCatchesUpIff(s, after, stepName, j);
        k := |s.all|;
      } else {
        k := j;
        assert Run(after, stepName, events).all[..k] == s.all[..k];
      }
    }
  }

  // In particular while the log has never outgrown its limit.
  lemma ShortLogsDropNothing(after: nat, stepName: string, events: seq<Event>)
    requires |Run(after, stepName, events).all| <= MAX_BUFFERED_CHUNKS
    ensures NothingDropped(Run(after, stepName, events), stepName)
  {
    RunInOrder(after, stepName, events);
  }
}
