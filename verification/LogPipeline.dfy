// The whole way of a build's output: the sink (ci/log-sink.ts), the stored log
// (src/server/ci/log-stream.ts) and a polling reader (src/server/connect/services/ci.ts),
// interleaved.
module LogPipeline {
  import opened Wrappers
  import Sink = LogSink
  import Log = LogReader

  datatype State = State(sink: Sink.Sink, stream: Log.State)

  datatype Event = SinkStep(e: Sink.Event) | PollNow

  const FINISHED := "\0finished:"

  // What a call to the stream appends: the marker is a row of no step.
  function RowOf(entry: Sink.Entry): Log.Event {
    match entry
    case Out(chunk) => Log.AppendRow(chunk.stepName, chunk.text, chunk.isStderr)
    case Finished(status) => Log.AppendRow("", FINISHED + status, false)
  }

  // The stream stores a row when it records a call; nothing else joins the two.
  function Step(s: State, e: Event, stepName: string): State {
    match e
    case PollNow => s.(stream := Log.Step(s.stream, Log.PollNow, stepName))
    case SinkStep(e) =>
      var sink := Sink.Step(s.sink, e);
      State(sink, if e.Record? && s.sink.calls != [] then Log.Step(s.stream, RowOf(s.sink.calls[0]), stepName) else s.stream)
  }

  // A run from nothing, with one reader that asked for what comes after a sequence number.
  function Run(after: nat, stepName: string, events: seq<Event>): State {
    if events == [] then State(Sink.EMPTY, Log.State([], [], Log.Reader(after, [])))
    else Step(Run(after, stepName, events[..|events| - 1]), events[|events| - 1], stepName)
  }

  function SinkEvents(events: seq<Event>): seq<Sink.Event> {
    if events == [] then []
    else SinkEvents(events[..|events| - 1]) + if events[|events| - 1].SinkStep? then [events[|events| - 1].e] else []
  }

  // ---- text -------------------------------------------------------------------------

  // The text of some rows, markers left out.
  function Output(rows: seq<Log.Row>): seq<Sink.Unit> {
    if rows == [] then [] else Output(rows[..|rows| - 1]) + OutputOf(rows[|rows| - 1])
  }

  function OutputOf(row: Log.Row): seq<Sink.Unit> {
    if row.stepName == "" then [] else Sink.Units(Sink.Chunk(row.stepName, row.text, row.isStderr))
  }

  // The part of some text that a reader asks for.
  function Selected(units: seq<Sink.Unit>, stepName: string): seq<Sink.Unit> {
    if units == [] then []
    else
      var last := units[|units| - 1];
      Selected(units[..|units| - 1], stepName) + if stepName == "" || last.stepName == stepName then [last] else []
  }

  lemma {:induction false} SelectedConcat(a: seq<Sink.Unit>, b: seq<Sink.Unit>, stepName: string)
    ensures Selected(a + b, stepName) == Selected(a, stepName) + Selected(b, stepName)
  {
    if b == [] {
      assert a + b == a;
    } else {
      assert (a + b)[..|a + b| - 1] == a + b[..|b| - 1];
      SelectedConcat(a, b[..|b| - 1], stepName);
    }
  }

  lemma {:induction false} SelectedOne(units: seq<Sink.Unit>, name: string, stepName: string)
    requires forall i | 0 <= i < |units| :: units[i].stepName == name
    ensures Selected(units, stepName) == if stepName == "" || name == stepName then units else []
  {
    if units != [] {
      SelectedOne(units[..|units| - 1], name, stepName);
      assert units == units[..|units| - 1] + [units[|units| - 1]];
    }
  }

  lemma {:induction false} OutputConcat(a: seq<Log.Row>, b: seq<Log.Row>)
    ensures Output(a + b) == Output(a) + Output(b)
  {
    hide OutputOf;
    if b == [] {
      assert a + b == a;
    } else {
      var n := |b| - 1;
      OutputConcat(a, b[..n]);
      OutputMore(a + b[..n], b[n]);
      OutputMore(b[..n], b[n]);
      hide Output;
      assert a + b == a + b[..n] + [b[n]] && b == b[..n] + [b[n]];
      Associates(Output(a), Output(b[..n]), OutputOf(b[n]));
    }
  }

  lemma OutputMore(rows: seq<Log.Row>, row: Log.Row)
    ensures Output(rows + [row]) == Output(rows) + OutputOf(row)
  {
    assert (rows + [row])[..|rows|] == rows;
  }

  lemma Associates<T>(a: seq<T>, b: seq<T>, c: seq<T>)
    ensures a + b + c == a + (b + c)
  {}

  // ---- steps have names -------------------------------------------------------------

  // No step is called "", the name that the marker's row has.
  predicate NamedStep(e: Event) { e.SinkStep? && e.e.Append? ==> e.e.stepName != "" }

  predicate NamedSteps(events: seq<Event>) {
    forall i | 0 <= i < |events| :: NamedStep(events[i])
  }

  predicate NamedChunks(chunks: seq<Sink.Chunk>) {
    forall i | 0 <= i < |chunks| :: chunks[i].stepName != ""
  }

  predicate NamedEntries(log: seq<Sink.Entry>) {
    forall i | 0 <= i < |log| :: log[i].Out? ==> log[i].chunk.stepName != ""
  }

  predicate NamedSink(s: Sink.Sink) {
    NamedChunks(s.buffer) && NamedChunks(s.unsent) && NamedEntries(s.calls) && NamedEntries(s.log)
  }

  lemma SentNamed(s: Sink.Sink)
    requires NamedSink(s)
    ensures NamedSink(Sink.Sent(s))
  {
    hide Sink.Outstanding;
  }

  lemma FlushedNamed(s: Sink.Sink)
    requires NamedSink(s)
    ensures NamedSink(Sink.Flushed(s))
  {
    hide Sink.Outstanding, Sink.Sent;
    SentNamed(s.(buffer := [], bufferedBytes := 0, timer := false, unsent := s.unsent + s.buffer));
  }

  lemma StepNamed(s: Sink.Sink, e: Sink.Event)
    requires NamedSink(s) && NamedStep(SinkStep(e))
    ensures NamedSink(Sink.Step(s, e))
  {
    hide Sink.Flushed, Sink.Sent, Sink.Outstanding;
    FlushedNamed(s);
    SentNamed(s);
    if e.Append? {
      var s' := Sink.Buffered(s, e.stepName, e.text, e.isStderr);
      assert NamedSink(s');
      FlushedNamed(s');
    }
  }

  // ---- the stored rows are the recorded calls ---------------------------------------

  ghost predicate Logged(log: seq<Sink.Entry>, all: seq<Log.Row>) {
    && |all| == |log|
    && forall i | 0 <= i < |log| ::
         var e := RowOf(log[i]);
         all[i] == Log.Row(i + 1, e.stepName, e.text, e.isStderr)
  }

  // The filtered rows of a log hold the filtered text that was recorded.
  lemma {:induction false} OutputOfLog(log: seq<Sink.Entry>, all: seq<Log.Row>, stepName: string)
    requires Logged(log, all) && NamedEntries(log)
    ensures Output(Log.History(all, 0, stepName)) == Selected(Sink.Recorded(log), stepName)
  {
    if log != [] {
      var n := |log| - 1;
      assert all[..n] == all[..|all| - 1];
      OutputOfLog(log[..n], all[..n], stepName);
      OutputOfEntry(log[n], all[n], stepName);
      hide Output, Selected, Sink.EntryUnits, Log.Wanted;
      SelectedConcat(Sink.Recorded(log[..n]), Sink.EntryUnits(log[n]), stepName);
      if Log.Wanted(all[n], 0, stepName) {
        OutputConcat(Log.History(all[..n], 0, stepName), [all[n]]);
      } else {
        assert Selected(Sink.Recorded(log[..n]), stepName) + [] == Selected(Sink.Recorded(log[..n]), stepName);
        assert Log.History(all[..n], 0, stepName) + [] == Log.History(all[..n], 0, stepName);
      }
    }
  }

  lemma {:induction false} OutputOfEntry(entry: Sink.Entry, row: Log.Row, stepName: string)
    requires row.sequence > 0 && (entry.Out? ==> entry.chunk.stepName != "")
    requires var e := RowOf(entry); row.stepName == e.stepName && row.text == e.text && row.isStderr == e.isStderr
    ensures Selected(Sink.EntryUnits(entry), stepName) == if Log.Wanted(row, 0, stepName) then Output([row]) else []
  {
    assert [row][..0] == [];
    if entry.Out? {
      SelectedOne(Sink.Units(entry.chunk), entry.chunk.stepName, stepName);
      assert [] + Sink.Units(entry.chunk) == Sink.Units(entry.chunk);
    }
  }

  // ---- runs -------------------------------------------------------------------------

  // What the reader's polls may rely on: no wanted row was dropped before it got there.
  ghost predicate NeverLate(after: nat, stepName: string, events: seq<Event>) {
    forall i | 0 <= i < |events| && events[i] == PollNow :: Log.NothingDropped(Run(after, stepName, events[..i]).stream, stepName)
  }

  ghost predicate Reading(s: State, after: nat, stepName: string, k: nat) {
    && Logged(s.sink.log, s.stream.all) && NamedSink(s.sink)
    && Log.Numbered(s.stream.all, s.stream.rows) && Log.InOrder(s.stream.reader, after)
    && Log.CaughtUp(s.stream, after, stepName, k)
  }

  lemma {:induction false} PollReads(s: State, after: nat, stepName: string, k: nat)
    requires Reading(s, after, stepName, k) && Log.NothingDropped(s.stream, stepName)
    ensures Reading(Step(s, PollNow, stepName), after, stepName, |s.stream.all|)
  {
    hide Logged, NamedSink, Log.CaughtUp, Log.NothingDropped, Log.Polled, Log.InOrder;
    Log.PollInOrder(s.stream.reader, after, s.stream.rows, stepName);
    Log.PollCatchesUpIff(s.stream, after, stepName, k);
  }

  lemma {:induction false} RecordReads(s: State, after: nat, stepName: string, k: nat)
    requires Reading(s, after, stepName, k) && s.sink.calls != []
    ensures Reading(Step(s, SinkStep(Sink.Record), stepName), after, stepName, k)
  {
    hide Log.Numbered, Log.InOrder;
    var e := RowOf(s.sink.calls[0]);
    var t := Step(s, SinkStep(Sink.Record), stepName);
    StepNamed(s.sink, Sink.Record);
    Log.StoreKeepsNumbers(s.stream.all, s.stream.rows, e.stepName, e.text, e.isStderr);
    NextNumber(s.stream.all, s.stream.rows);
    assert t.stream.all[..k] == s.stream.all[..k];
    hide NamedSink;
  }

  lemma NextNumber(all: seq<Log.Row>, rows: seq<Log.Row>)
    requires Log.Numbered(all, rows)
    ensures Log.NextSequence(rows) == |all| + 1
  {}

  lemma {:induction false} RunReads(after: nat, stepName: string, events: seq<Event>) returns (k: nat)
    requires NeverLate(after, stepName, events) && NamedSteps(events)
    ensures Reading(Run(after, stepName, events), after, stepName, k)
    ensures events != [] && events[|events| - 1] == PollNow ==> k == |Run(after, stepName, events).stream.all|
    ensures Run(after, stepName, events).sink == Sink.Run(Sink.EMPTY, SinkEvents(events))
  {
    k := 0;
    if events != [] {
      var n := |events| - 1;
      var front, e := events[..n], events[n];
      forall i | 0 <= i < n && front[i] == PollNow
        ensures Log.NothingDropped(Run(after, stepName, front[..i]).stream, stepName)
      {
        assert front[..i] == events[..i] && events[i] == PollNow;
      }
      k := RunReads(after, stepName, front);
      var s := Run(after, stepName, front);
      SinkEventsMore(events);
      assert NamedStep(e);
      hide Reading, Sink.Step, Log.NothingDropped;
      if e == PollNow {
        PollReads(s, after, stepName, k);
        k := |s.stream.all|;
      } else {
        SinkReads(s, e.e, after, stepName, k);
      }
    }
  }

  lemma {:induction false} SinkReads(s: State, e: Sink.Event, after: nat, stepName: string, k: nat)
    requires Reading(s, after, stepName, k) && NamedStep(SinkStep(e))
    ensures Reading(Step(s, SinkStep(e), stepName), after, stepName, k)
    ensures Step(s, SinkStep(e), stepName).sink == Sink.Step(s.sink, e)
  {
    if e.Record? && s.sink.calls != [] {
      RecordReads(s, after, stepName, k);
    } else {
      StepNamed(s.sink, e);
      OnlyRecordLogs(s.sink, e);
      hide NamedSink, Sink.Step;
    }
  }

  // The log grows only by recording.
  lemma OnlyRecordLogs(s: Sink.Sink, e: Sink.Event)
    requires e.Record? ==> s.calls == []
    ensures Sink.Step(s, e).log == s.log
  {
    hide Sink.Outstanding;
  }

  lemma SinkEventsMore(events: seq<Event>)
    requires events != []
    ensures var front, e := events[..|events| - 1], events[|events| - 1];
      && (e.PollNow? ==> SinkEvents(events) == SinkEvents(front))
      && (e.SinkStep? ==> forall s :: Sink.Run(s, SinkEvents(events)) == Sink.Step(Sink.Run(s, SinkEvents(front)), e.e))
  {
    var front, e := events[..|events| - 1], events[|events| - 1];
    if e.SinkStep? {
      var all := SinkEvents(events);
      assert all == SinkEvents(front) + [e.e];
      assert all[..|all| - 1] == SinkEvents(front);
    }
  }

  // ---- what a reader gets -----------------------------------------------------------

  // What the reader had before it asked, if it asked for what comes after row after.
  function Earlier(all: seq<Log.Row>, after: nat, stepName: string): seq<Log.Row> {
    Log.History(if after < |all| then all[..after] else all, 0, stepName)
  }

  // With what it had before, a caught-up reader has the filtered log from its beginning.
  lemma {:induction false} EarlierAndEmitted(s: State, after: nat, stepName: string, k: nat) returns (n: nat)
    requires Reading(s, after, stepName, k)
    ensures n <= |s.stream.all| && k <= n
    ensures Earlier(s.stream.all, after, stepName) + s.stream.reader.emitted == Log.History(s.stream.all[..n], 0, stepName)
  {
    hide Log.History, Log.InOrder;
    var all := s.stream.all;
    var m := if after < |all| then after else |all|;
    assert all[..|all|] == all;
    n := if k <= m then m else k;
    var both := if k <= m then k else m;
    assert all[..k] == all[..both] + all[both..k];
    Log.HistoryConcat(all[..both], all[both..k], after, stepName);
    Log.HistoryEmpty(all[..both], after, stepName);
    if k <= m {
      assert all[both..k] == [];
      Log.HistoryEmpty(all[both..k], after, stepName);
      assert Earlier(all, after, stepName) + [] == Earlier(all, after, stepName);
    } else {
      Log.HistoryFrame(all[m..k], after, 0, stepName);
      Log.HistoryConcat(all[..m], all[m..k], 0, stepName);
      assert all[..k] == all[..m] + all[m..k];
    }
  }

  // Over all interleavings of appends, timers, flushes, calls, recordings and polls: what a reader
  // has is a prefix of the text that append was given, as far as the reader asks for it, and all
  // of it once the sink is empty and the reader has polled.
  lemma {:induction false} ReadersGetAPrefix(after: nat, stepName: string, events: seq<Event>)
    requires NeverLate(after, stepName, events) && NamedSteps(events)
    ensures var s := Run(after, stepName, events);
      var got := Output(Earlier(s.stream.all, after, stepName) + s.stream.reader.emitted);
      var given := Selected(Sink.Given(SinkEvents(events)), stepName);
      && got <= given
      && (events != [] && events[|events| - 1] == PollNow && s.sink.buffer == [] && s.sink.unsent == [] && s.sink.calls == [] ==>
            got == given)
  {
    var s := Run(after, stepName, events);
    var k := RunReads(after, stepName, events);
    var n := EarlierAndEmitted(s, after, stepName, k);
    var log := s.sink.log;
    assert log[..|log|] == log;
    LoggedPrefix(log, s.stream.all, n);
    OutputOfLog(log[..n], s.stream.all[..n], stepName);
    Sink.Conservation(SinkEvents(events));
    hide Reading, Output, Earlier, Log.History, Selected, Sink.Recorded, Sink.Flat, Sink.Given, Logged, NamedEntries;
    var rest := RecordedPrefix(s.sink, n);
    SelectedConcat(Sink.Recorded(log[..n]), rest, stepName);
    if n == |log| && s.sink.buffer == [] && s.sink.unsent == [] && s.sink.calls == [] {
      NothingSelected(stepName);
      assert Selected(Sink.Recorded(log), stepName) + [] == Selected(Sink.Recorded(log), stepName);
    }
  }

  // ---- nothing stays behind ---------------------------------------------------------

  // Callbacks of the sink, and then a poll.
  predicate Finishing(events: seq<Event>) {
    && events != [] && events[|events| - 1] == PollNow
    && forall i | 0 <= i < |events| - 1 :: events[i].SinkStep? && Sink.Callback(events[i].e)
  }

  function Lifted(events: seq<Sink.Event>): seq<Event> {
    seq(|events|, i requires 0 <= i < |events| => SinkStep(events[i]))
  }

  lemma {:induction false} SinkEventsOf(events: seq<Event>, callbacks: seq<Sink.Event>)
    ensures SinkEvents(events + Lifted(callbacks)) == SinkEvents(events) + callbacks
    ensures SinkEvents(events + Lifted(callbacks) + [PollNow]) == SinkEvents(events) + callbacks
  {
    var all := events + Lifted(callbacks);
    assert (all + [PollNow])[..|all|] == all;
    if callbacks == [] {
      assert all == events && SinkEvents(events) + [] == SinkEvents(events);
    } else {
      var front, last := callbacks[..|callbacks| - 1], callbacks[|callbacks| - 1];
      SinkEventsOf(events, front);
      assert all[..|all| - 1] == events + Lifted(front);
      assert SinkEvents(events) + front + [last] == SinkEvents(events) + callbacks;
    }
    assert SinkEvents(all) + [] == SinkEvents(all);
  }

  // Callbacks give the sink nothing.
  lemma {:induction false} NothingGiven(events: seq<Sink.Event>, callbacks: seq<Sink.Event>)
    requires Sink.Settling(callbacks)
    ensures Sink.Given(events + callbacks) == Sink.Given(events)
  {
    if callbacks == [] {
      assert events + callbacks == events;
    } else {
      var front := callbacks[..|callbacks| - 1];
      assert (events + callbacks)[..|events + callbacks| - 1] == events + front;
      NothingGiven(events, front);
      assert Sink.Given(events) + [] == Sink.Given(events);
    }
  }

  // Whatever has happened, callbacks of the sink and one poll can bring the reader to have all that
  // append was given and that it asks for, unless a row it wants is dropped first.
  lemma {:induction false} ReadersGetEverything(after: nat, stepName: string, events: seq<Event>) returns (more: seq<Event>)
    requires NeverLate(after, stepName, events) && NamedSteps(events)
    ensures Finishing(more)
    ensures NeverLate(after, stepName, events + more) ==>
      var s := Run(after, stepName, events + more);
      Output(Earlier(s.stream.all, after, stepName) + s.stream.reader.emitted) == Selected(Sink.Given(SinkEvents(events)), stepName)
  {
    hide Run, NeverLate, SinkEvents, Sink.Given, Sink.Run, Sink.Contents, Sink.Recorded, Output, Earlier, Selected, Sink.Valid;
    Sink.Conservation(SinkEvents(events));
    var callbacks := Sink.Drains(Sink.Run(Sink.EMPTY, SinkEvents(events)));
    more := Lifted(callbacks) + [PollNow];
    var all := events + more;
    assert all == events + Lifted(callbacks) + [PollNow];
    SinkEventsOf(events, callbacks);
    Sink.RunConcat(Sink.EMPTY, SinkEvents(events), callbacks);
    NothingGiven(SinkEvents(events), callbacks);
    if NeverLate(after, stepName, all) {
      assert NamedSteps(all);
      var k := RunReads(after, stepName, all);
      ReadersGetAPrefix(after, stepName, all);
    }
  }

  // The rows of a log tell what was recorded, each under the next number: output by its step, text
  // and stream, and the end of a run by a row of no step that says how it ended. The reader can tell
  // the two apart.
  lemma {:induction false} RowsTellEntries(after: nat, stepName: string, events: seq<Event>, i: nat)
    requires NeverLate(after, stepName, events) && NamedSteps(events)
    ensures var s := Run(after, stepName, events);
      && |s.stream.all| == |s.sink.log|
      && (i < |s.sink.log| ==>
            var row := s.stream.all[i];
            && row.sequence == i + 1 && (row.stepName == "" <==> s.sink.log[i].Finished?)
            && match s.sink.log[i]
               case Out(chunk) => row.stepName == chunk.stepName && row.text == chunk.text && row.isStderr == chunk.isStderr
               case Finished(status) => row.text == "\0finished:" + status && !row.isStderr)
  {
    var k := RunReads(after, stepName, events);
    hide Run, NeverLate, Log.CaughtUp, Log.Numbered, Log.InOrder;
  }

  lemma NothingSelected(stepName: string)
    ensures Selected([], stepName) == []
  {}

  lemma LoggedPrefix(log: seq<Sink.Entry>, all: seq<Log.Row>, n: nat)
    requires Logged(log, all) && NamedEntries(log) && n <= |log|
    ensures Logged(log[..n], all[..n]) && NamedEntries(log[..n])
  {}

  lemma {:induction false} RecordedConcat(a: seq<Sink.Entry>, b: seq<Sink.Entry>)
    ensures Sink.Recorded(a + b) == Sink.Recorded(a) + Sink.Recorded(b)
  {
    hide Sink.EntryUnits;
    if b == [] {
      assert a + b == a;
    } else {
      var n := |b| - 1;
      RecordedConcat(a, b[..n]);
      RecordedMore(a + b[..n], b[n]);
      hide Sink.Recorded;
      assert a + b == a + b[..n] + [b[n]];
      RecordedLast(b);
    }
  }

  lemma RecordedMore(log: seq<Sink.Entry>, entry: Sink.Entry)
    ensures Sink.Recorded(log + [entry]) == Sink.Recorded(log) + Sink.EntryUnits(entry)
  {
    assert (log + [entry])[..|log|] == log;
  }

  lemma RecordedLast(log: seq<Sink.Entry>)
    requires log != []
    ensures Sink.Recorded(log) == Sink.Recorded(log[..|log| - 1]) + Sink.EntryUnits(log[|log| - 1])
  {}

  lemma Nothing()
    ensures Sink.Recorded([]) == [] && Sink.Flat([]) == []
  {}

  lemma {:induction false} RecordedPrefix(s: Sink.Sink, n: nat) returns (rest: seq<Sink.Unit>)
    requires n <= |s.log|
    ensures Sink.Contents(s) == Sink.Recorded(s.log[..n]) + rest
    ensures n == |s.log| && s.buffer == [] && s.unsent == [] && s.calls == [] ==> rest == []
  {
    hide Sink.Recorded, Sink.Flat;
    var later := s.log[n..] + s.calls;
    assert Sink.Order(s) == s.log[..n] + later;
    RecordedConcat(s.log[..n], later);
    rest := Sink.Recorded(later) + Sink.Flat(s.unsent) + Sink.Flat(s.buffer);
    if n == |s.log| && s.calls == [] {
      assert later == [];
      Nothing();
    }
  }
}
