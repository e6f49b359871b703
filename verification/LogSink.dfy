// ci/log-sink.ts: coalescing a build's output into ordered writes. Every call and callback of the
// sink is one step; the steps may come in any order.
module LogSink {
  import opened Wrappers
  import Unicode

  const FLUSH_BYTES: nat := 8192

  datatype Chunk = Chunk(stepName: string, text: string, isStderr: bool)

  // A call to the stream: a chunk, or the end-of-run marker.
  datatype Entry = Out(chunk: Chunk) | Finished(status: string)

  // A call to finish whose marker has not left: how many writes it still waits for.
  datatype Finish = Finish(status: string, waitsFor: nat)

  // buffer, bufferedBytes and timer are the sink's fields. unsent are the chunks chained on inFlight
  // whose call to the stream has not left; calls are the calls that have left, in order, and that
  // the stream has not recorded; log is what it has recorded.
  datatype Sink = Sink(buffer: seq<Chunk>, bufferedBytes: nat, timer: bool, unsent: seq<Chunk>, calls: seq<Entry>,
                       log: seq<Entry>, finish: Option<Finish>)

  const EMPTY := Sink([], 0, false, [], [], [], None)

  datatype Event =
    | Append(stepName: string, text: string, isStderr: bool)
    | Flush                  // an explicit flush, or the one append makes
    | TimerFires
    | SendNext               // the chain goes on to its next write, its last one being recorded
    | Record                 // the stream records the oldest call and answers it
    | CallFinish(status: string)
    | SendMarker             // a finish whose flush has settled calls the stream

  // ---- what the code does -----------------------------------------------------------

  // Length is counted in UTF-16 code units.
  function Length(text: string): nat { |Unicode.Utf16(text)| }

  function SameStream(a: Chunk, stepName: string, isStderr: bool): bool {
    a.stepName == stepName && a.isStderr == isStderr
  }

  // Text of one step and stream goes into one chunk as long as nothing else comes between.
  function Coalesce(buffer: seq<Chunk>, stepName: string, text: string, isStderr: bool): seq<Chunk> {
    if buffer != [] && SameStream(buffer[|buffer| - 1], stepName, isStderr)
    then buffer[..|buffer| - 1] + [buffer[|buffer| - 1].(text := buffer[|buffer| - 1].text + text)]
    else buffer + [Chunk(stepName, text, isStderr)]
  }

  // How many writes have left and are not recorded.
  function Outstanding(calls: seq<Entry>): nat {
    if calls == [] then 0 else Outstanding(calls[..|calls| - 1]) + if calls[|calls| - 1].Out? then 1 else 0
  }

  // The next write leaves once no write is outstanding.
  function Sent(s: Sink): Sink {
    if s.unsent == [] || Outstanding(s.calls) > 0 then s
    else s.(calls := s.calls + [Out(s.unsent[0])], unsent := s.unsent[1..])
  }

  // A chain at rest sends the first of what it is given before anything else can call the stream.
  function Chained(s: Sink, pending: seq<Chunk>): Sink {
    var s' := s.(unsent := s.unsent + pending);
    if s.unsent == [] then Sent(s') else s'
  }

  function Flushed(s: Sink): Sink {
    if s.buffer == [] then s.(timer := false)
    else Chained(s.(buffer := [], bufferedBytes := 0, timer := false), s.buffer)
  }

  // The append before its size check.
  function Buffered(s: Sink, stepName: string, text: string, isStderr: bool): Sink {
    s.(buffer := Coalesce(s.buffer, stepName, text, isStderr), bufferedBytes := s.bufferedBytes + Length(text))
  }

  function Appended(s: Sink, stepName: string, text: string, isStderr: bool): Sink {
    var s' := Buffered(s, stepName, text, isStderr);
    if s'.bufferedBytes >= FLUSH_BYTES then Flushed(s') else s'.(timer := true)
  }

  function Waited(f: Option<Finish>): Option<Finish> {
    if f.Some? && f.value.waitsFor > 0 then Some(Finish(f.value.status, f.value.waitsFor - 1)) else f
  }

  function Recording(s: Sink): Sink {
    if s.calls == [] then s
    else
      s.(calls := s.calls[1..], log := s.log + [s.calls[0]], finish := if s.calls[0].Out? then Waited(s.finish) else s.finish)
  }

  // With an empty buffer the flush settles at once, without waiting for the writes before it.
  function Finishing(s: Sink, status: string): Sink {
    var s' := Flushed(s);
    s'.(finish := Some(Finish(status, if s.buffer == [] then 0 else |s'.unsent| + Outstanding(s'.calls))))
  }

  function Marked(s: Sink): Sink {
    if s.finish.Some? && s.finish.value.waitsFor == 0
    then s.(calls := s.calls + [Finished(s.finish.value.status)], finish := None) else s
  }

  function Step(s: Sink, e: Event): Sink {
    match e
    case Append(stepName, text, isStderr) => Appended(s, stepName, text, isStderr)
    case Flush => Flushed(s)
    case TimerFires => if s.timer then Flushed(s) else s
    case SendNext => Sent(s)
    case Record => Recording(s)
    case CallFinish(status) => if s.finish.Some? then s else Finishing(s, status)
    case SendMarker => Marked(s)
  }

  function Run(s: Sink, events: seq<Event>): Sink {
    if events == [] then s else Step(Run(s, events[..|events| - 1]), events[|events| - 1])
  }

  // ---- conservation -----------------------------------------------------------------

  // One unit of output: which step wrote it, to which stream, and the character.
  datatype Unit = Unit(stepName: string, isStderr: bool, c: char)

  function Units(chunk: Chunk): seq<Unit> {
    seq(|chunk.text|, i requires 0 <= i < |chunk.text| => Unit(chunk.stepName, chunk.isStderr, chunk.text[i]))
  }

  function Flat(chunks: seq<Chunk>): seq<Unit> {
    if chunks == [] then [] else Flat(chunks[..|chunks| - 1]) + Units(chunks[|chunks| - 1])
  }

  function EntryUnits(entry: Entry): seq<Unit> {
    match entry case Out(chunk) => Units(chunk) case Finished(_) => []
  }

  function Recorded(log: seq<Entry>): seq<Unit> {
    if log == [] then [] else Recorded(log[..|log| - 1]) + EntryUnits(log[|log| - 1])
  }

  // Everything the run's append calls were given, in order.
  function Given(events: seq<Event>): seq<Unit> {
    if events == [] then []
    else
      Given(events[..|events| - 1]) +
      match events[|events| - 1]
      case Append(stepName, text, isStderr) => Units(Chunk(stepName, text, isStderr))
      case _ => []
  }

  // The stream records calls in the order they left.
  function Order(s: Sink): seq<Entry> { s.log + s.calls }

  // Recorded or on its way, then chained, then buffered.
  function Contents(s: Sink): seq<Unit> { Recorded(Order(s)) + Flat(s.unsent) + Flat(s.buffer) }

  function Size(chunks: seq<Chunk>): nat {
    if chunks == [] then 0 else Size(chunks[..|chunks| - 1]) + Length(chunks[|chunks| - 1].text)
  }

  // No two neighbours are of the same step and stream.
  ghost predicate Separate(buffer: seq<Chunk>) {
    forall i | 0 < i < |buffer| :: !SameStream(buffer[i - 1], buffer[i].stepName, buffer[i].isStderr)
  }

  // Between steps: a buffer that holds anything is below the limit and has its timer armed, no
  // two neighbours in it could still be merged, one write is outstanding at most, and a finish
  // waits for no more than is to come.
  ghost predicate Valid(s: Sink) {
    && (s.timer <==> s.buffer != [])
    && s.bufferedBytes == Size(s.buffer) && s.bufferedBytes < FLUSH_BYTES
    && Separate(s.buffer)
    && Outstanding(s.calls) <= 1
    && (s.finish.Some? ==> s.finish.value.waitsFor <= |s.unsent| + Outstanding(s.calls))
  }

  lemma {:induction false} FlatConcat(a: seq<Chunk>, b: seq<Chunk>)
    ensures Flat(a + b) == Flat(a) + Flat(b)
  {
    if b == [] {
      assert a + b == a;
    } else {
      assert (a + b)[..|a + b| - 1] == a + b[..|b| - 1];
      FlatConcat(a, b[..|b| - 1]);
    }
  }

  lemma {:induction false} OutstandingConcat(a: seq<Entry>, b: seq<Entry>)
    ensures Outstanding(a + b) == Outstanding(a) + Outstanding(b)
  {
    if b == [] {
      assert a + b == a;
    } else {
      assert (a + b)[..|a + b| - 1] == a + b[..|b| - 1];
      OutstandingConcat(a, b[..|b| - 1]);
    }
  }

  lemma OutstandingOne(entry: Entry)
    ensures Outstanding([entry]) == if entry.Out? then 1 else 0
  {
    assert [entry][..0] == [];
  }

  lemma {:induction false} CoalesceKeeps(buffer: seq<Chunk>, stepName: string, text: string, isStderr: bool)
    ensures var b := Coalesce(buffer, stepName, text, isStderr);
      && Flat(b) == Flat(buffer) + Units(Chunk(stepName, text, isStderr))
      && Size(b) == Size(buffer) + Length(text) && b != []
  {
    var b := Coalesce(buffer, stepName, text, isStderr);
    if buffer != [] && SameStream(buffer[|buffer| - 1], stepName, isStderr) {
      var last := buffer[|buffer| - 1];
      assert b[..|b| - 1] == buffer[..|buffer| - 1];
      assert Units(last.(text := last.text + text)) == Units(last) + Units(Chunk(stepName, text, isStderr));
      Unicode.Utf16Concat(last.text, text);
    } else {
      assert b[..|b| - 1] == buffer;
    }
  }

  lemma {:induction false} CoalesceSeparates(buffer: seq<Chunk>, stepName: string, text: string, isStderr: bool)
    requires Separate(buffer)
    ensures Separate(Coalesce(buffer, stepName, text, isStderr))
  {}

  // Sending moves a chunk from the chain to the calls and loses nothing.
  lemma {:induction false} SentKeeps(s: Sink)
    ensures var t := Sent(s);
      && Contents(t) == Contents(s)
      && |t.unsent| + Outstanding(t.calls) == |s.unsent| + Outstanding(s.calls)
      && (Outstanding(s.calls) <= 1 ==> Outstanding(t.calls) <= 1)
      && (t == s || (s.unsent != [] && t.unsent == s.unsent[1..] && Order(t) == Order(s) + [Out(s.unsent[0])]))
      && t == s.(unsent := t.unsent, calls := t.calls)
  {
    var t := Sent(s);
    if t != s {
      OutstandingConcat(s.calls, [Out(s.unsent[0])]);
      OutstandingOne(Out(s.unsent[0]));
      assert Order(t) == Order(s) + [Out(s.unsent[0])];
      MovedKeeps(Order(s), s.unsent, s.buffer);
    }
  }

  lemma {:induction false} MovedKeeps(order: seq<Entry>, unsent: seq<Chunk>, buffer: seq<Chunk>)
    requires unsent != []
    ensures Recorded(order + [Out(unsent[0])]) + Flat(unsent[1..]) + Flat(buffer) == Recorded(order) + Flat(unsent) + Flat(buffer)
  {
    var first, all := unsent[0], order + [Out(unsent[0])];
    assert all[..|all| - 1] == order && all[|all| - 1] == Out(first);
    assert unsent == [first] + unsent[1..];
    FlatConcat([first], unsent[1..]);
    FlatOne(first);
    hide Flat, Units;
    assert Recorded(order) + (Units(first) + Flat(unsent[1..])) == Recorded(order) + Units(first) + Flat(unsent[1..]);
  }

  lemma FlatOne(chunk: Chunk)
    ensures Flat([chunk]) == Units(chunk)
  {
    assert [chunk][..0] == [];
  }

  lemma {:induction false} FlushKeeps(s: Sink)
    ensures var t := Flushed(s);
      && Contents(t) == Contents(s) && t.buffer == [] && !t.timer && t.finish == s.finish
      && (s.bufferedBytes == Size(s.buffer) ==> t.bufferedBytes == 0)
      && |t.unsent| + Outstanding(t.calls) == |s.unsent| + Outstanding(s.calls) + |s.buffer|
      && (Outstanding(s.calls) <= 1 ==> Outstanding(t.calls) <= 1)
  {
    EmptySize();
    if s.buffer != [] {
      var r := s.(buffer := [], bufferedBytes := 0, timer := false, unsent := s.unsent + s.buffer);
      ChainedKeeps(s);
      hide Contents, Outstanding, Sent, Size;
      SentKeeps(r);
    }
  }

  lemma {:induction false} ChainedKeeps(s: Sink)
    ensures Contents(s.(buffer := [], bufferedBytes := 0, timer := false, unsent := s.unsent + s.buffer)) == Contents(s)
  {
    FlatConcat(s.unsent, s.buffer);
    assert Flat([]) == [];
    hide Flat;
    assert Recorded(Order(s)) + (Flat(s.unsent) + Flat(s.buffer)) == Recorded(Order(s)) + Flat(s.unsent) + Flat(s.buffer);
  }

  lemma {:induction false} AppendKeeps(s: Sink, stepName: string, text: string, isStderr: bool)
    requires Valid(s)
    ensures Valid(Appended(s, stepName, text, isStderr))
    ensures Contents(Appended(s, stepName, text, isStderr)) == Contents(s) + Units(Chunk(stepName, text, isStderr))
  {
    hide Length, Coalesce, Flat, Size, Recorded, Units, Contents, SameStream, Flushed, Outstanding, Separate;
    CoalesceKeeps(s.buffer, stepName, text, isStderr);
    CoalesceSeparates(s.buffer, stepName, text, isStderr);
    BufferedContents(s, stepName, text, isStderr);
    EmptySize();
    var s' := Buffered(s, stepName, text, isStderr);
    FlushKeeps(s');
    OnlyContents(s', s'.(timer := true));
  }

  lemma EmptySize()
    ensures Size([]) == 0 && Separate([])
  {}

  // The contents do not depend on the timer, the byte count or a waiting finish.
  lemma OnlyContents(s: Sink, t: Sink)
    requires t == s.(timer := t.timer, bufferedBytes := t.bufferedBytes, finish := t.finish)
    ensures Contents(t) == Contents(s)
  {}

  lemma {:induction false} BufferedContents(s: Sink, stepName: string, text: string, isStderr: bool)
    ensures Contents(Buffered(s, stepName, text, isStderr)) == Contents(s) + Units(Chunk(stepName, text, isStderr))
  {
    CoalesceKeeps(s.buffer, stepName, text, isStderr);
    hide Coalesce, Flat, Recorded, Units;
    var front, u := Recorded(Order(s)) + Flat(s.unsent), Units(Chunk(stepName, text, isStderr));
    assert front + (Flat(s.buffer) + u) == front + Flat(s.buffer) + u;
  }

  lemma {:induction false} RecordKeeps(s: Sink)
    requires Valid(s)
    ensures Valid(Recording(s)) && Contents(Recording(s)) == Contents(s) && Order(Recording(s)) == Order(s)
  {
    if s.calls != [] {
      assert s.calls == [s.calls[0]] + s.calls[1..];
      hide Outstanding, Separate, Size;
      OutstandingConcat([s.calls[0]], s.calls[1..]);
      OutstandingOne(s.calls[0]);
      assert Order(Recording(s)) == Order(s);
    }
  }

  lemma {:induction false} MarkKeeps(s: Sink)
    requires Valid(s)
    ensures Valid(Marked(s)) && Contents(Marked(s)) == Contents(s)
  {
    var t := Marked(s);
    if t != s {
      var marker := Finished(s.finish.value.status);
      OutstandingConcat(s.calls, [marker]);
      OutstandingOne(marker);
      assert Order(t)[..|Order(t)| - 1] == Order(s) && Order(t)[|Order(t)| - 1] == marker;
    }
  }

  lemma {:induction false} StepKeeps(s: Sink, e: Event)
    requires Valid(s)
    ensures Valid(Step(s, e))
    ensures Contents(Step(s, e)) == Contents(s) + (if e.Append? then Units(Chunk(e.stepName, e.text, e.isStderr)) else [])
  {
    EmptySize();
    FlushKeeps(s);
    hide Contents, Coalesce, Flushed, Sent, Outstanding, Size;
    match e {
      case Append(stepName, text, isStderr) => AppendKeeps(s, stepName, text, isStderr);
      case SendNext => SentKeeps(s);
      case Record => RecordKeeps(s);
      case SendMarker => MarkKeeps(s);
      case CallFinish(status) => OnlyContents(Flushed(s), Flushed(s).(finish := Step(s, e).finish));
      case _ =>
    }
  }

  // Whatever the interleaving: nothing is lost, repeated, reordered or moved to another stream.
  lemma {:induction false} Conservation(events: seq<Event>)
    ensures Valid(Run(EMPTY, events))
    ensures Contents(Run(EMPTY, events)) == Given(events)
  {
    if events == [] {
      EmptyKeeps();
    } else {
      hide Step, Contents, Valid;
      var front := events[..|events| - 1];
      Conservation(front);
      StepKeeps(Run(EMPTY, front), events[|events| - 1]);
    }
  }

  lemma EmptyKeeps()
    ensures Valid(EMPTY) && Contents(EMPTY) == []
  {}

  // ---- finishing --------------------------------------------------------------------

  function Outs(chunks: seq<Chunk>): seq<Entry> {
    seq(|chunks|, i requires 0 <= i < |chunks| => Out(chunks[i]))
  }

  // Nothing more is appended, flushed or finished: only callbacks are left.
  predicate Settling(events: seq<Event>) {
    forall i | 0 <= i < |events| :: Callback(events[i])
  }

  predicate Callback(e: Event) { e.TimerFires? || e.SendNext? || e.Record? || e.SendMarker? }

  // k of the chunks that were to come when finish was called have left.
  ghost predicate Draining(s: Sink, order: seq<Entry>, all: seq<Chunk>, status: string, k: nat) {
    && k <= |all| && s.buffer == [] && !s.timer && s.unsent == all[k..]
    && (if s.finish.Some? then
          && s.finish.value.status == status && Order(s) == order + Outs(all[..k])
          && (k == |all| || s.finish.value.waitsFor == |s.unsent| + Outstanding(s.calls))
        else k == |all| && Order(s) == order + Outs(all) + [Finished(status)])
  }

  lemma {:induction false} DrainingStep(s: Sink, order: seq<Entry>, all: seq<Chunk>, status: string, k: nat, e: Event) returns (k': nat)
    requires Draining(s, order, all, status, k) && Callback(e)
    ensures Draining(Step(s, e), order, all, status, k')
  {
    k' := if e.SendNext? && Sent(s) != s then k + 1 else k;
    match e {
      case TimerFires => assert !s.timer by { hide *; }
      case SendNext => if Sent(s) != s { DrainingSend(s, order, all, status, k); }
      case Record => if s.calls != [] { DrainingRecord(s, order, all, status, k); }
      case SendMarker => if Marked(s) != s { DrainingMark(s, order, all, status, k); }
    }
  }

  lemma {:induction false} DrainingSend(s: Sink, order: seq<Entry>, all: seq<Chunk>, status: string, k: nat)
    requires Draining(s, order, all, status, k) && Sent(s) != s
    ensures k < |all| && Draining(Sent(s), order, all, status, k + 1)
  {
    SentKeeps(s);
    hide Outstanding, Contents, Sent, Order, Outs;
    OutsMore(all, k);
    var t := Sent(s);
    assert s.unsent[0] == all[k] && t.unsent == all[k + 1..];
    assert order + Outs(all[..k]) + [Out(all[k])] == order + Outs(all[..k + 1]);
    assert k + 1 == |all| ==> all[..k + 1] == all;
  }

  lemma OutsMore(all: seq<Chunk>, k: nat)
    requires k < |all|
    ensures Outs(all[..k + 1]) == Outs(all[..k]) + [Out(all[k])]
  {}

  lemma {:induction false} DrainingRecord(s: Sink, order: seq<Entry>, all: seq<Chunk>, status: string, k: nat)
    requires Draining(s, order, all, status, k) && s.calls != []
    ensures Draining(Recording(s), order, all, status, k)
  {
    assert s.calls == [s.calls[0]] + s.calls[1..];
    OutstandingConcat([s.calls[0]], s.calls[1..]);
    OutstandingOne(s.calls[0]);
    assert Order(Recording(s)) == Order(s);
    hide Outstanding, Order, Outs;
  }

  lemma {:induction false} DrainingMark(s: Sink, order: seq<Entry>, all: seq<Chunk>, status: string, k: nat)
    requires Draining(s, order, all, status, k) && Marked(s) != s
    ensures Draining(Marked(s), order, all, status, k)
  {
    assert Order(Marked(s)) == Order(s) + [Finished(status)];
    assert all[..|all|] == all;
    hide Outs, Order;
  }

  lemma {:induction false} DrainingRun(s: Sink, order: seq<Entry>, all: seq<Chunk>, status: string, k: nat, events: seq<Event>) returns (k': nat)
    requires Draining(s, order, all, status, k) && Settling(events)
    ensures Draining(Run(s, events), order, all, status, k')
  {
    if events == [] {
      k' := k;
    } else {
      hide Draining, Step;
      var front := events[..|events| - 1];
      var j := DrainingRun(s, order, all, status, k, front);
      k' := DrainingStep(Run(s, front), order, all, status, j, events[|events| - 1]);
    }
  }

  // In the order the stream records them, the marker follows everything written before it, whatever
  // order the callbacks run in.
  ghost predicate MarkerIsLast(s: Sink, status: string) {
    forall events | Settling(events) :: MarkedLast(Run(Step(s, CallFinish(status)), events), s, status)
  }

  ghost predicate MarkedLast(t: Sink, s: Sink, status: string) {
    t.finish.None? ==> t.unsent == [] && Order(t) == Order(s) + Outs(s.unsent + s.buffer) + [Finished(status)]
  }

  // A flush chains the buffer and sends one chunk at most.
  lemma {:induction false} FlushSends(s: Sink) returns (k: nat)
    ensures var all, t := s.unsent + s.buffer, Flushed(s);
      && k <= |all| && t.unsent == all[k..] && Order(t) == Order(s) + Outs(all[..k])
      && t.buffer == [] && !t.timer && t.finish == s.finish
  {
    var all := s.unsent + s.buffer;
    var r := s.(buffer := [], bufferedBytes := 0, timer := false, unsent := all);
    NoOuts(all, Order(s));
    SentKeeps(r);
    hide Outs, Outstanding, Sent;
    k := if s.buffer != [] && s.unsent == [] && Sent(r) != r then 1 else 0;
    if k == 1 { OneOut(all, Order(s)); }
  }

  lemma OneOut(all: seq<Chunk>, order: seq<Entry>)
    requires all != []
    ensures order + Outs(all[..1]) == order + [Out(all[0])]
  {
    assert Outs(all[..1]) == [Out(all[0])];
  }

  lemma {:induction false} FinishDrains(s: Sink, status: string) returns (k: nat)
    requires Valid(s) && s.finish.None? && (s.buffer != [] || s.unsent == [])
    ensures Draining(Step(s, CallFinish(status)), Order(s), s.unsent + s.buffer, status, k)
  {
    hide Valid, Flushed, Outs, Outstanding;
    k := FlushSends(s);
  }

  lemma NoOuts(all: seq<Chunk>, order: seq<Entry>)
    ensures all[..0] == [] && Outs(all[..0]) == [] && order + Outs(all[..0]) == order
  {}

  // The marker is last exactly if finish found something buffered, or no write whose call had yet
  // to leave. Otherwise it overtakes the writes that wait for the one before them.
  lemma {:induction false} MarkerIsLastIff(s: Sink, status: string)
    requires Valid(s) && s.finish.None?
    ensures MarkerIsLast(s, status) <==> s.buffer != [] || s.unsent == []
  {
    var s' := Step(s, CallFinish(status));
    if s.buffer != [] || s.unsent == [] {
      var j := FinishDrains(s, status);
      forall events | Settling(events) ensures MarkedLast(Run(s', events), s, status) {
        var k := DrainingRun(s', Order(s), s.unsent + s.buffer, status, j, events);
      }
    } else {
      var events := [SendMarker];
      assert events[..0] == [] && Settling(events);
      assert Run(s', events) == Step(s', SendMarker);
      assert !MarkedLast(Run(s', events), s, status);
    }
  }

  // A run in which the marker overtakes output: a full buffer of two chunks is flushed, and the
  // run finishes before the first of them is recorded.
  lemma {:induction false} MarkerOvertakes(text: string, status: string)
    requires Length(text) >= FLUSH_BYTES
    ensures var t := Run(EMPTY, [Append("a", "x", true), Append("a", text, false), CallFinish(status), SendMarker]);
      Order(t) == [Out(Chunk("a", "x", true)), Finished(status)] && t.unsent == [Chunk("a", text, false)]
  {
    var events := [Append("a", "x", true), Append("a", text, false), CallFinish(status), SendMarker];
    var s1 := Step(EMPTY, events[0]);
    assert s1 == Sink([Chunk("a", "x", true)], 1, true, [], [], [], None);
    var s2 := Step(s1, events[1]);
    assert s2.calls == [Out(Chunk("a", "x", true))] && s2.unsent == [Chunk("a", text, false)] && s2.buffer == [];
    var s3 := Step(s2, events[2]);
    assert events[..4] == events && events[..3][..2] == events[..2] && events[..2][..1] == events[..1] && events[..1][..0] == [];
    assert Run(EMPTY, events[..0]) == EMPTY;
    assert Run(EMPTY, events[..1]) == s1;
    assert Run(EMPTY, events[..2]) == s2;
    assert Run(EMPTY, events[..3]) == s3;
    assert Run(EMPTY, events) == Step(s3, events[3]);
  }

  // ---- progress ---------------------------------------------------------------------

  // A flush chains all that is buffered behind what was chained, and calls the stream if it can.
  lemma {:induction false} FlushChains(s: Sink)
    ensures var t := Flushed(s);
      && t.buffer == [] && !t.timer && t.log == s.log && t.finish == s.finish
      && Order(t) + Outs(t.unsent) == Order(s) + Outs(s.unsent + s.buffer)
      && (s.buffer != [] && s.unsent == [] && Outstanding(s.calls) == 0 ==> t.calls == s.calls + [Out(s.buffer[0])])
  {
    hide Outstanding, Outs;
    var all := s.unsent + s.buffer;
    var k := FlushSends(s);
    OutsSplit(all, k);
    assert Order(s) + Outs(all[..k]) + Outs(all[k..]) == Order(s) + (Outs(all[..k]) + Outs(all[k..]));
  }

  lemma OutsSplit(all: seq<Chunk>, k: nat)
    requires k <= |all|
    ensures Outs(all) == Outs(all[..k]) + Outs(all[k..])
  {}

  // A timer that fires leaves nothing buffered.
  lemma {:induction false} TimerSends(s: Sink)
    requires Valid(s)
    ensures var t := Step(s, TimerFires);
      && t.buffer == [] && !t.timer && t.log == s.log && t.finish == s.finish
      && Order(t) + Outs(t.unsent) == Order(s) + Outs(s.unsent + s.buffer)
      && (s.buffer != [] && s.unsent == [] && Outstanding(s.calls) == 0 ==> t.calls == s.calls + [Out(s.buffer[0])])
  {
    FlushChains(s);
    hide Flushed, Outs, Order, Outstanding;
    assert s.unsent + [] == s.unsent;
  }

  // An append sends nothing until the buffer is full, and then all of it.
  lemma {:induction false} AppendSendsIff(s: Sink, stepName: string, text: string, isStderr: bool)
    requires Valid(s)
    ensures var t, all := Step(s, Append(stepName, text, isStderr)), Coalesce(s.buffer, stepName, text, isStderr);
      && (Size(s.buffer) + Length(text) < FLUSH_BYTES ==>
          t == s.(buffer := all, bufferedBytes := Size(all), timer := true))
      && (Size(s.buffer) + Length(text) >= FLUSH_BYTES ==>
          && t.buffer == [] && !t.timer && t.log == s.log && t.finish == s.finish
          && Order(t) + Outs(t.unsent) == Order(s) + Outs(s.unsent + all))
  {
    CoalesceKeeps(s.buffer, stepName, text, isStderr);
    FlushChains(Buffered(s, stepName, text, isStderr));
    hide Flushed, Outs, Coalesce, Size, Length, Outstanding, Separate;
  }

  // Nothing is buffered, chained or called that is not recorded, and no finish waits.
  ghost predicate Drained(s: Sink) {
    s.buffer == [] && s.unsent == [] && s.calls == [] && s.finish.None?
  }

  // How many callbacks there can be before the sink is drained.
  function Left(s: Sink): nat {
    3 * |s.buffer| + 2 * |s.unsent| + |s.calls| + if s.finish.Some? then 2 else 0
  }

  // Every callback that does anything brings the sink closer to being drained.
  lemma {:induction false} CallbackProgress(s: Sink, e: Event)
    requires Valid(s) && Callback(e)
    ensures Step(s, e) == s || Left(Step(s, e)) < Left(s)
  {
    match e
    case TimerFires => if s.timer { FlushIsCloser(s); }
    case SendNext => SentIsCloser(s);
    case Record =>
    case SendMarker =>
  }

  lemma {:induction false} SentIsCloser(s: Sink)
    ensures Sent(s) == s || Left(Sent(s)) < Left(s)
  {
    hide Outstanding;
  }

  lemma {:induction false} FlushIsCloser(s: Sink)
    requires s.buffer != []
    ensures Left(Flushed(s)) < Left(s)
  {
    SentIsCloser(s.(buffer := [], bufferedBytes := 0, timer := false, unsent := s.unsent + s.buffer));
    hide Sent;
  }

  // A sink that no callback can move is drained, and the other way round.
  lemma {:induction false} DrainedIff(s: Sink)
    requires Valid(s)
    ensures Drained(s) <==> forall e | Callback(e) :: Step(s, e) == s
    ensures !Drained(s) ==> Step(s, NextCallback(s)) != s
  {
    var e := NextCallback(s);
    if !Drained(s) {
      match e
      case TimerFires => FlushIsCloser(s);
      case SendNext => assert |Sent(s).unsent| < |s.unsent|;
      case _ =>
    }
  }

  // A callback that moves a sink that is not drained.
  function NextCallback(s: Sink): (e: Event)
    ensures Callback(e)
  {
    if s.buffer != [] then TimerFires else if s.calls != [] then Record else if s.unsent != [] then SendNext else SendMarker
  }

  // A marker is called, or still to be called.
  ghost predicate Promised(s: Sink, status: string) {
    Finished(status) in Order(s) || (s.finish.Some? && s.finish.value.status == status)
  }

  lemma {:induction false} CallbackKeepsPromise(s: Sink, e: Event, status: string)
    requires Valid(s) && Callback(e) && Promised(s, status)
    ensures Promised(Step(s, e), status)
  {
    hide Outstanding, Separate, Size;
    match e {
      case TimerFires => if s.timer { OrderGrows(s); }
      case SendNext => OrderGrows(s);
      case Record => if s.calls != [] { RecordKeeps(s); }
      case SendMarker => MarkedOrder(s);
    }
  }

  lemma MarkedOrder(s: Sink)
    ensures Marked(s) == s || (s.finish.Some? && Order(Marked(s)) == Order(s) + [Finished(s.finish.value.status)])
  {}

  lemma {:induction false} OrderGrows(s: Sink)
    ensures Order(s) <= Order(Sent(s)) && Sent(s).finish == s.finish
    ensures Order(s) <= Order(Flushed(s)) && Flushed(s).finish == s.finish
  {
    SentKeeps(s);
    var k := FlushSends(s);
  }

  // From wherever a sink is, callbacks alone can drain it, and when they have, everything it stood
  // for is recorded, and with it the marker of a finish that was under way.
  lemma {:induction false} Drains(s: Sink) returns (events: seq<Event>)
    requires Valid(s)
    ensures Settling(events) && |events| <= Left(s) && Drained(Run(s, events))
    ensures Recorded(Run(s, events).log) == Contents(s)
    ensures forall status | Promised(s, status) :: Finished(status) in Run(s, events).log
    decreases Left(s)
  {
    hide Valid, Step, Contents, Left, Run, Recorded, Promised;
    DrainedIff(s);
    if Drained(s) {
      events := [];
      RunNothing(s);
      DrainedRecords(s);
    } else {
      var e := NextCallback(s);
      CallbackProgress(s, e);
      StepKeeps(s, e);
      assert Contents(Step(s, e)) == Contents(s) by { assert Contents(s) + [] == Contents(s); }
      var rest := Drains(Step(s, e));
      events := [e] + rest;
      RunFirst(s, e, rest);
      forall status | Promised(s, status) ensures Promised(Step(s, e), status) { CallbackKeepsPromise(s, e, status); }
    }
  }

  lemma RunNothing(s: Sink)
    ensures Run(s, []) == s
  {}

  lemma {:induction false} DrainedRecords(s: Sink)
    requires Drained(s)
    ensures Contents(s) == Recorded(s.log)
    ensures forall status | Promised(s, status) :: Finished(status) in s.log
  {
    assert Order(s) == s.log;
  }

  lemma {:induction false} RunFirst(s: Sink, e: Event, rest: seq<Event>)
    ensures Run(s, [e] + rest) == Run(Step(s, e), rest)
  {
    var all := [e] + rest;
    if rest == [] {
      assert all[..|all| - 1] == [] && all[|all| - 1] == e;
    } else {
      assert all[..|all| - 1] == [e] + rest[..|rest| - 1];
      hide Step;
      RunFirst(s, e, rest[..|rest| - 1]);
    }
  }

  lemma RunLast(s: Sink, front: seq<Event>, last: Event)
    ensures Run(s, front + [last]) == Step(Run(s, front), last)
  {
    hide Step;
    assert (front + [last])[..|front|] == front;
  }

  lemma {:induction false} RunConcat(s: Sink, events: seq<Event>, more: seq<Event>)
    ensures Run(s, events + more) == Run(Run(s, events), more)
  {
    hide Step;
    if more == [] {
      assert events + more == events;
    } else {
      var front, last := more[..|more| - 1], more[|more| - 1];
      RunConcat(s, events, front);
      RunLast(s, events + front, last);
      RunLast(Run(s, events), front, last);
      assert events + more == events + front + [last] && more == front + [last];
    }
  }

  // Whatever has happened, callbacks alone can bring the stream to hold exactly what append was
  // given.
  lemma {:induction false} EverythingGetsRecorded(events: seq<Event>) returns (more: seq<Event>)
    ensures Settling(more) && Drained(Run(EMPTY, events + more))
    ensures Recorded(Run(EMPTY, events + more).log) == Given(events)
  {
    hide Drained, Settling, Contents, Run, Valid;
    Conservation(events);
    more := Drains(Run(EMPTY, events));
    RunConcat(EMPTY, events, more);
  }

  // ---- the class --------------------------------------------------------------------

  // One sink. unsent and calls stand for the promise chain inFlight and the stream's mailbox.
  class DurableObjectLogSink {
    var buffer: seq<Chunk>
    var bufferedBytes: nat
    var timer: bool
    var unsent: seq<Chunk>
    var calls: seq<Entry>
    var log: seq<Entry>
    var finishing: Option<Finish>

    function State(): Sink
      reads this
    {
      Sink(buffer, bufferedBytes, timer, unsent, calls, log, finishing)
    }

    constructor ()
      ensures State() == EMPTY
    {
      buffer, bufferedBytes, timer, unsent, calls, log, finishing := [], 0, false, [], [], [], None;
    }

    method Append(stepName: string, text: string, isStderr: bool)
      requires Valid(State())
      modifies this
      ensures State() == Step(old(State()), Event.Append(stepName, text, isStderr)) && Valid(State())
    {
      hide Valid, Contents, Units, Coalesce, Flushed;
      ghost var s := State();
      Merge(stepName, text, isStderr);
      bufferedBytes := bufferedBytes + Length(text);
      assert State() == Buffered(s, stepName, text, isStderr);
      if bufferedBytes >= FLUSH_BYTES {
        Flush();
      } else {
        timer := true;
      }
      assert State() == Appended(s, stepName, text, isStderr);
      StepKeeps(s, Event.Append(stepName, text, isStderr));
    }

    method Merge(stepName: string, text: string, isStderr: bool)
      modifies this`buffer
      ensures buffer == Coalesce(old(buffer), stepName, text, isStderr)
    {
      if |buffer| > 0 && buffer[|buffer| - 1].stepName == stepName && buffer[|buffer| - 1].isStderr == isStderr {
        var last := buffer[|buffer| - 1];
        buffer := buffer[..|buffer| - 1] + [last.(text := last.text + text)];
      } else {
        buffer := buffer + [Chunk(stepName, text, isStderr)];
      }
    }

    // Chains what is buffered behind what is chained already.
    method Flush()
      modifies this
      ensures State() == Flushed(old(State()))
      ensures buffer == [] && !timer && Order(State()) + Outs(unsent) == old(Order(State()) + Outs(unsent + buffer))
    {
      FlushChains(State());
      hide Outs, Outstanding;
      timer := false;
      if |buffer| == 0 { return; }
      var pending := buffer;
      buffer := [];
      bufferedBytes := 0;
      var atRest := |unsent| == 0;
      unsent := unsent + pending;
      if atRest { Send(); }
    }

    // The chain's loop: one write is on its way at a time.
    method Send()
      modifies this`unsent, this`calls
      ensures State() == Sent(old(State()))
    {
      hide Outstanding;
      if |unsent| > 0 && Outstanding(calls) == 0 {
        calls := calls + [Out(unsent[0])];
        unsent := unsent[1..];
      }
    }

    method TimerFired()
      requires Valid(State())
      modifies this
      ensures State() == Step(old(State()), TimerFires) && Valid(State())
      ensures buffer == [] && !timer && Order(State()) + Outs(unsent) == old(Order(State()) + Outs(unsent + buffer))
    {
      ghost var s := State();
      TimerSends(s);
      hide Valid, Contents, Flushed, Outs, Order;
      if timer { Flush(); }
      StepKeeps(s, TimerFires);
    }

    // The stream has recorded the oldest call.
    method CallRecorded()
      requires Valid(State())
      modifies this
      ensures State() == Step(old(State()), Record) && Valid(State())
    {
      hide Valid, Contents;
      ghost var s := State();
      if |calls| > 0 {
        var entry := calls[0];
        log := log + [entry];
        calls := calls[1..];
        if entry.Out? && finishing.Some? && finishing.value.waitsFor > 0 {
          finishing := Some(Finish(finishing.value.status, finishing.value.waitsFor - 1));
        }
      }
      assert State() == Recording(s);
      StepKeeps(s, Record);
    }

    // Up to the point where finish awaits its flush.
    method CallFinish(status: string)
      requires Valid(State()) && finishing.None?
      modifies this
      ensures State() == Step(old(State()), Event.CallFinish(status)) && Valid(State())
    {
      hide Valid, Contents, Flushed, Outstanding;
      ghost var s := State();
      var nothingBuffered := |buffer| == 0;
      Flush();
      finishing := Some(Finish(status, if nothingBuffered then 0 else |unsent| + Outstanding(calls)));
      assert State() == Finishing(s, status);
      StepKeeps(s, Event.CallFinish(status));
    }

    // From there on, once the flush has settled.
    method FlushSettled()
      requires Valid(State()) && finishing.Some? && finishing.value.waitsFor == 0
      modifies this
      ensures State() == Step(old(State()), SendMarker) && Valid(State())
    {
      hide Valid, Contents;
      ghost var s := State();
      calls := calls + [Finished(finishing.value.status)];
      finishing := None;
      assert State() == Marked(s);
      StepKeeps(s, SendMarker);
    }
  }
}
