// ci/sandbox-runner.ts: running a plan wave by wave, skipping steps below a failure, against a
// one-step-at-a-time reference.
module Runner {
  import opened Wrappers
  import opened Planner
  import opened Waves

  // One event of a command's output stream. The exit code of a completion may be missing.
  datatype Event =
    | Stdout(text: string)
    | Stderr(text: string)
    | Complete(exitCode: Option<int>)
    | StreamError(message: string)

  // What a command does when it is run: its output events, as a function of the step.
  type Commands = Step -> seq<Event>

  datatype StepResult = StepResult(name: string, exitCode: int, stdout: string, stderr: string, skipped: bool)

  datatype RunResult = RunResult(ok: bool, steps: seq<StepResult>, failure: Option<StepResult>)

  // ---- one command ------------------------------------------------------------------

  function ExitCode(events: seq<Event>): int {
    if events == [] then 0
    else
      var before := ExitCode(events[..|events| - 1]);
      match events[|events| - 1]
      case Complete(code) => if code.Some? then code.value else 0
      case StreamError(_) => if before == 0 then 1 else before
      case _ => before
  }

  function Output(events: seq<Event>, isStderr: bool): string {
    if events == [] then ""
    else
      Output(events[..|events| - 1], isStderr) +
      match events[|events| - 1]
      case Stdout(text) => if isStderr then "" else text
      case Stderr(text) => if isStderr then text else ""
      case StreamError(message) => if isStderr then message else ""
      case Complete(_) => ""
  }

  // Event last is a successful completion (or there is none, at -1) and only output follows it.
  ghost predicate CleanFrom(events: seq<Event>, last: int)
    requires -1 <= last < |events|
  {
    && (last >= 0 ==> events[last] == Complete(None) || events[last] == Complete(Some(0)))
    && forall i | last < i < |events| :: !events[i].Complete? && !events[i].StreamError?
  }

  // The last completion, if any, reported success, and no transport error came after it.
  ghost predicate EndsCleanly(events: seq<Event>) {
    exists last | -1 <= last < |events| :: CleanFrom(events, last)
  }

  // A step is reported green exactly when its stream ends cleanly.
  lemma {:induction false} GreenIffEndsCleanly(events: seq<Event>)
    ensures ExitCode(events) == 0 <==> EndsCleanly(events)
  {
    if events == [] {
      assert CleanFrom(events, -1);
    } else {
      var front, n := events[..|events| - 1], |events| - 1;
      GreenIffEndsCleanly(front);
      assert CleanFrom(events, n) <==> events[n] == Complete(None) || events[n] == Complete(Some(0));
      forall last | -1 <= last < n
        ensures CleanFrom(events, last) <==> CleanFrom(front, last) && !events[n].Complete? && !events[n].StreamError?
      {
        assert forall i | last < i < n :: front[i] == events[i];
      }
    }
  }

  // A transport error alone does not keep a run from being reported green: a later successful
  // completion hides it.
  lemma ErrorThenCompletionIsGreen(message: string)
    ensures ExitCode([StreamError(message), Complete(Some(0))]) == 0
  {
    assert [StreamError(message), Complete(Some(0))][..1] == [StreamError(message)];
  }

  // ---- what a command printed -------------------------------------------------------

  // What one event puts on standard output, and on standard error, where the messages of
  // transport errors go too.
  function StdoutOf(e: Event): seq<string> { if e.Stdout? then [e.text] else [] }

  function StderrOf(e: Event): seq<string> { if e.Stderr? then [e.text] else if e.StreamError? then [e.message] else [] }

  function StdoutTexts(events: seq<Event>): seq<string> {
    if events == [] then [] else StdoutOf(events[0]) + StdoutTexts(events[1..])
  }

  function StderrTexts(events: seq<Event>): seq<string> {
    if events == [] then [] else StderrOf(events[0]) + StderrTexts(events[1..])
  }

  function Joined(texts: seq<string>): string {
    if texts == [] then "" else texts[0] + Joined(texts[1..])
  }

  // The exit code is that of the last completion (0 if there is none, or it has none), except
  // that it is 1 where that is 0 and a transport error follows.
  ghost predicate ExitsWith(events: seq<Event>, code: int) {
    exists last | -1 <= last < |events| :: LastCompletion(events, last) && code == CodeAfter(events, last)
  }

  predicate LastCompletion(events: seq<Event>, last: int)
    requires -1 <= last < |events|
  {
    (last >= 0 ==> events[last].Complete?) && forall i | last < i < |events| :: !events[i].Complete?
  }

  function CodeAfter(events: seq<Event>, last: int): int
    requires -1 <= last < |events| && (last >= 0 ==> events[last].Complete?)
  {
    var said := if last >= 0 then events[last].exitCode.UnwrapOr(0) else 0;
    if said == 0 && exists i | last < i < |events| :: events[i].StreamError? then 1 else said
  }

  // A result tells what its events were.
  ghost predicate Reports(r: StepResult, name: string, events: seq<Event>) {
    && r.name == name && !r.skipped
    && r.stdout == Joined(StdoutTexts(events)) && r.stderr == Joined(StderrTexts(events)) && ExitsWith(events, r.exitCode)
  }

  lemma {:induction false} JoinedConcat(a: seq<string>, b: seq<string>)
    ensures Joined(a + b) == Joined(a) + Joined(b)
  {
    if a == [] {
      assert a + b == b;
    } else {
      assert (a + b)[1..] == a[1..] + b;
      JoinedConcat(a[1..], b);
    }
  }

  lemma {:induction false} TextsSnoc(events: seq<Event>, e: Event)
    ensures StdoutTexts(events + [e]) == StdoutTexts(events) + StdoutOf(e)
    ensures StderrTexts(events + [e]) == StderrTexts(events) + StderrOf(e)
  {
    hide StdoutOf, StderrOf;
    var all := events + [e];
    if events == [] {
      assert all[1..] == [];
      OnlyThat(StdoutOf(e));
      OnlyThat(StderrOf(e));
    } else {
      assert all[1..] == events[1..] + [e];
      TextsSnoc(events[1..], e);
      Associates(StdoutOf(events[0]), StdoutTexts(events[1..]), StdoutOf(e));
      Associates(StderrOf(events[0]), StderrTexts(events[1..]), StderrOf(e));
    }
  }

  lemma OnlyThat(a: seq<string>)
    ensures a + [] == a == [] + a
  {}

  lemma Associates(a: seq<string>, b: seq<string>, c: seq<string>)
    ensures a + (b + c) == a + b + c
  {}

  lemma JoinedOf(e: Event)
    ensures Joined(StdoutOf(e)) == if e.Stdout? then e.text else ""
    ensures Joined(StderrOf(e)) == if e.Stderr? then e.text else if e.StreamError? then e.message else ""
  {}

  lemma {:induction false} OutputJoins(events: seq<Event>)
    ensures Output(events, false) == Joined(StdoutTexts(events)) && Output(events, true) == Joined(StderrTexts(events))
  {
    if events != [] {
      var front, e := events[..|events| - 1], events[|events| - 1];
      OutputJoins(front);
      assert events == front + [e];
      TextsSnoc(front, e);
      JoinedOf(e);
      hide StdoutTexts, StderrTexts, Joined, StdoutOf, StderrOf;
      JoinedConcat(StdoutTexts(front), StdoutOf(e));
      JoinedConcat(StderrTexts(front), StderrOf(e));
    }
  }

  // There is one such code, and it is the one that the loop ends with.
  lemma {:induction false} ExitIs(events: seq<Event>, code: int)
    ensures ExitsWith(events, code) <==> code == ExitCode(events)
  {
    var last := LastOf(events);
    CodeIs(events, last);
    forall other | -1 <= other < |events| && LastCompletion(events, other) ensures other == last {
      NoneLater(events, last, other);
      NoneLater(events, other, last);
    }
    hide LastCompletion, CodeAfter;
  }

  lemma NoneLater(events: seq<Event>, a: int, b: int)
    requires -1 <= a < |events| && -1 <= b < |events|
    ensures LastCompletion(events, a) && LastCompletion(events, b) ==> a <= b
  {}

  lemma {:induction false} LastOf(events: seq<Event>) returns (last: int)
    ensures -1 <= last < |events| && LastCompletion(events, last)
  {
    last := |events| - 1;
    while last >= 0 && !events[last].Complete?
      invariant -1 <= last < |events| && forall i | last < i < |events| :: !events[i].Complete?
    {
      last := last - 1;
    }
  }

  lemma {:induction false} CodeIs(events: seq<Event>, last: int)
    requires -1 <= last < |events| && LastCompletion(events, last)
    ensures ExitCode(events) == CodeAfter(events, last)
  {
    if events != [] {
      var front, n := events[..|events| - 1], |events| - 1;
      if last < n {
        assert forall i | last < i < n :: front[i] == events[i];
        CodeIs(front, last);
        assert !events[n].Complete?;
        assert (exists i | last < i < |events| :: events[i].StreamError?) <==>
               (exists i | last < i < |front| :: front[i].StreamError?) || events[n].StreamError?;
      }
    }
  }

  // Without events that print there, a stream is empty.
  lemma {:induction false} Silent(events: seq<Event>)
    ensures (forall e | e in events :: !e.Stdout?) ==> StdoutTexts(events) == [] && Joined(StdoutTexts(events)) == ""
    ensures (forall e | e in events :: !e.Stderr? && !e.StreamError?) ==> StderrTexts(events) == [] && Joined(StderrTexts(events)) == ""
  {
    if events != [] {
      assert events[0] in events && forall e | e in events[1..] :: e in events;
      Silent(events[1..]);
    }
  }

  method RunCommand(name: string, events: seq<Event>) returns (r: StepResult)
    ensures r == StepResult(name, ExitCode(events), Output(events, false), Output(events, true), false)
    ensures Reports(r, name, events)
  {
    var stdout, stderr, exitCode := "", "", 0;
    for i := 0 to |events|
      invariant stdout == Output(events[..i], false) && stderr == Output(events[..i], true)
      invariant exitCode == ExitCode(events[..i])
    {
      assert events[..i + 1][..i] == events[..i];
      match events[i] {
        case Stdout(text) => stdout := stdout + text;
        case Stderr(text) => stderr := stderr + text;
        case Complete(code) => exitCode := if code.Some? then code.value else 0;
        case StreamError(message) =>
          exitCode := if exitCode != 0 then exitCode else 1;
          stderr := stderr + message;
      }
    }
    assert events[..|events|] == events;
    r := StepResult(name, exitCode, stdout, stderr, false);
    OutputJoins(events);
    ExitIs(events, exitCode);
    hide ExitCode, Output, ExitsWith, Joined, StdoutTexts, StderrTexts;
  }

  // ---- one step ---------------------------------------------------------------------

  predicate Blocked(step: Step, failed: set<string>) {
    exists need :: need in step.needs && need in failed
  }

  function Decide(step: Step, commands: Commands, failed: set<string>): StepResult {
    if Blocked(step, failed) && !step.always then StepResult(step.name, -1, "", "", true)
    else
      var events := commands(step);
      StepResult(step.name, ExitCode(events), Output(events, false), Output(events, true), false)
  }

  method RunStep(step: Step, commands: Commands, failed: set<string>) returns (r: StepResult)
    ensures r == Decide(step, commands, failed)
  {
    var blocked := exists need :: need in step.needs && need in failed;
    if blocked && !step.always {
      return StepResult(step.name, -1, "", "", true);
    }
    r := RunCommand(step.name, commands(step));
  }

  // ---- whole runs -------------------------------------------------------------------

  function Failures(results: seq<StepResult>): set<string> {
    set r | r in results && r.exitCode != 0 :: r.name
  }

  // The reference: one step at a time, in the given order.
  function Sequential(order: seq<Step>, commands: Commands): seq<StepResult> {
    if order == [] then []
    else
      var before := Sequential(order[..|order| - 1], commands);
      before + [Decide(order[|order| - 1], commands, Failures(before))]
  }

  // Every step has the result that the final results of its needs call for.
  ghost predicate Settled(order: seq<Step>, results: seq<StepResult>, commands: Commands) {
    && |results| == |order|
    && forall i | 0 <= i < |order| :: results[i] == Decide(order[i], commands, Failures(results))
  }

  lemma FailuresOf(order: seq<Step>, results: seq<StepResult>, i: nat)
    requires UniqueNames(order) && |results| == |order| && i < |order|
    requires forall k | 0 <= k < |order| :: results[k].name == order[k].name
    ensures order[i].name in Failures(results) <==> results[i].exitCode != 0
  {
    if order[i].name in Failures(results) {
      var r :| r in results && r.exitCode != 0 && r.name == order[i].name;
      var k :| 0 <= k < |results| && results[k] == r;
      assert order[k].name == order[i].name;
    }
    assert results[i] in results;
  }

  // For the needs of an earlier step, the results so far already tell all.
  lemma FailuresGrow(order: seq<Step>, results: seq<StepResult>, more: seq<StepResult>, needs: seq<string>)
    requires UniqueNames(order) && |results + more| == |order|
    requires forall k | 0 <= k < |order| :: (results + more)[k].name == order[k].name
    requires forall need | need in needs :: need in Names(order[..|results|])
    ensures forall need | need in needs :: need in Failures(results) <==> need in Failures(results + more)
  {
    var all := results + more;
    forall need | need in needs ensures need in Failures(results) <==> need in Failures(all) {
      var j :| 0 <= j < |results| && order[..|results|][j].name == need;
      assert all[j] == results[j];
      FailuresOf(order, all, j);
      if need in Failures(results) {
        var r :| r in results && r.exitCode != 0 && r.name == need;
        var k :| 0 <= k < |results| && results[k] == r;
        assert all[k] == r;
      }
      assert results[j] in results;
    }
  }

  lemma DecideFrame(step: Step, commands: Commands, failed: set<string>, failed': set<string>)
    requires forall need | need in step.needs :: need in failed <==> need in failed'
    ensures Decide(step, commands, failed) == Decide(step, commands, failed')
  {}

  // ---- the two ways of running agree ------------------------------------------------

  lemma {:induction false} SequentialNames(order: seq<Step>, commands: Commands)
    ensures |Sequential(order, commands)| == |order|
    ensures forall k | 0 <= k < |order| :: Sequential(order, commands)[k].name == order[k].name
  {
    if order != [] { SequentialNames(order[..|order| - 1], commands); }
  }

  lemma {:induction false} SequentialPrefix(order: seq<Step>, commands: Commands, i: nat)
    requires i <= |order|
    ensures |Sequential(order[..i], commands)| == i
    ensures |Sequential(order, commands)| == |order|
    ensures Sequential(order, commands)[..i] == Sequential(order[..i], commands)
    decreases |order| - i
  {
    SequentialNames(order, commands);
    SequentialNames(order[..i], commands);
    if i < |order| {
      SequentialPrefix(order, commands, i + 1);
      assert order[..i + 1][..i] == order[..i];
      assert Sequential(order, commands)[..i] == Sequential(order, commands)[..i + 1][..i];
    } else {
      assert order[..i] == order;
    }
  }

  // Each step decides on the failures before it.
  lemma {:induction false} SequentialAt(order: seq<Step>, commands: Commands, i: nat)
    requires i < |order|
    ensures var all := Sequential(order, commands);
      |all| == |order| && all[i] == Decide(order[i], commands, Failures(all[..i]))
  {
    hide Decide, Failures;
    var all := Sequential(order, commands);
    SequentialPrefix(order, commands, i);
    SequentialPrefix(order, commands, i + 1);
    assert order[..i + 1][..i] == order[..i];
    assert all[..i + 1][i] == all[i];
  }

  lemma {:induction false} SequentialSettles(order: seq<Step>, commands: Commands)
    requires UniqueNames(order) && InNeedOrder(order)
    ensures Settled(order, Sequential(order, commands), commands)
  {
    hide Decide, Failures, Sequential, UniqueNames;
    var all := Sequential(order, commands);
    SequentialNames(order, commands);
    forall i | 0 <= i < |order| ensures all[i] == Decide(order[i], commands, Failures(all)) {
      SequentialAt(order, commands, i);
      assert all == all[..i] + all[i..];
      FailuresGrow(order, all[..i], all[i..], order[i].needs);
      DecideFrame(order[i], commands, Failures(all[..i]), Failures(all));
    }
  }

  // There is only one way to settle a plan, whatever order its steps are listed in.
  lemma {:induction false} SettledOnce(order: seq<Step>, results: seq<StepResult>, order': seq<Step>, results': seq<StepResult>,
                                       commands: Commands, i: nat)
    requires UniqueNames(order) && InNeedOrder(order) && UniqueNames(order') && i <= |order|
    requires forall step :: step in order <==> step in order'
    requires Settled(order, results, commands) && Settled(order', results', commands)
    ensures forall k | 0 <= k < i :: order[k].name in Failures(results) <==> order[k].name in Failures(results')
  {
    if i > 0 {
      SettledOnce(order, results, order', results', commands, i - 1);
      SettledNext(order, results, order', results', commands, i - 1);
    }
  }

  lemma {:induction false} SettledNext(order: seq<Step>, results: seq<StepResult>, order': seq<Step>, results': seq<StepResult>,
                                       commands: Commands, i: nat)
    requires UniqueNames(order) && InNeedOrder(order) && UniqueNames(order') && i < |order|
    requires forall step :: step in order <==> step in order'
    requires Settled(order, results, commands) && Settled(order', results', commands)
    requires forall k | 0 <= k < i :: order[k].name in Failures(results) <==> order[k].name in Failures(results')
    ensures order[i].name in Failures(results) <==> order[i].name in Failures(results')
  {
    SettledNames(order, results, commands);
    SettledNames(order', results', commands);
    hide Failures, Decide, UniqueNames;
    var step := order[i];
    assert step in order';
    var j :| 0 <= j < |order'| && order'[j] == step;
    NeedsFailAlike(order, i, Failures(results), Failures(results'));
    DecideFrame(step, commands, Failures(results), Failures(results'));
    FailuresOf(order, results, i);
    FailuresOf(order', results', j);
  }

  lemma SettledNames(order: seq<Step>, results: seq<StepResult>, commands: Commands)
    requires Settled(order, results, commands)
    ensures forall k | 0 <= k < |order| :: results[k].name == order[k].name
  {}

  lemma NeedsFailAlike(order: seq<Step>, i: nat, failed: set<string>, failed': set<string>)
    requires InNeedOrder(order) && i < |order|
    requires forall k | 0 <= k < i :: order[k].name in failed <==> order[k].name in failed'
    ensures forall need | need in order[i].needs :: need in failed <==> need in failed'
  {
    forall need | need in order[i].needs ensures need in failed <==> need in failed' {
      var k :| 0 <= k < i && order[..i][k].name == need;
      assert order[k].name == need;
    }
  }

  lemma SettledSame(plan: seq<Step>, order: seq<Step>, results: seq<StepResult>, order': seq<Step>, results': seq<StepResult>,
                    commands: Commands)
    requires UniqueNames(plan) && IsTopologicalOrder(order, plan) && IsTopologicalOrder(order', plan)
    requires Settled(order, results, commands) && Settled(order', results', commands)
    ensures multiset(results) == multiset(results')
  {
    StillUnique(order, plan);
    StillUnique(order', plan);
    SameElements(order, plan);
    SameElements(order', plan);
    SettledOnce(order, results, order', results', commands, |order|);
    var failed, failed' := Failures(results), Failures(results');
    forall i | 0 <= i < |order| ensures results[i] == Decide(order[i], commands, failed') {
      NeedsFailAlike(order, i, failed, failed');
      DecideFrame(order[i], commands, failed, failed');
    }
    forall r ensures multiset(results)[r] == multiset(results')[r] {
      ResultCount(order, results, r);
      ResultCount(order', results', r);
      if r in results {
        var i :| 0 <= i < |results| && results[i] == r;
        assert order[i] in order';
        var j :| 0 <= j < |order'| && order'[j] == order[i];
        assert results'[j] == r;
      }
      if r in results' {
        var j :| 0 <= j < |results'| && results'[j] == r;
        assert order'[j] in order;
        var i :| 0 <= i < |order| && order[i] == order'[j];
        assert results[i] == r;
      }
    }
  }

  // No two results are the same, since no two steps share a name.
  lemma {:induction false} ResultCount(order: seq<Step>, results: seq<StepResult>, r: StepResult)
    requires UniqueNames(order) && |results| == |order| && forall k | 0 <= k < |order| :: results[k].name == order[k].name
    ensures multiset(results)[r] == if r in results then 1 else 0
  {
    if results != [] {
      var front, last := results[..|results| - 1], results[|results| - 1];
      assert results == front + [last];
      ResultCount(order[..|order| - 1], front, r);
      forall k | 0 <= k < |front| ensures front[k] != last {
        assert order[k].name != order[|order| - 1].name;
      }
    }
  }

  // Each step that ran reports its own command's events.
  ghost predicate AllReport(order: seq<Step>, results: seq<StepResult>, commands: Commands) {
    && |results| == |order|
    && forall i | 0 <= i < |order| ::
         if results[i].skipped then results[i] == StepResult(order[i].name, -1, "", "", true)
         else Reports(results[i], order[i].name, commands(order[i]))
  }

  lemma SettledReports(order: seq<Step>, results: seq<StepResult>, commands: Commands)
    requires Settled(order, results, commands)
    ensures AllReport(order, results, commands)
  {
    hide ExitCode, Output, ExitsWith, Failures;
    forall i | 0 <= i < |order| && !results[i].skipped ensures Reports(results[i], order[i].name, commands(order[i])) {
      OutputJoins(commands(order[i]));
      ExitIs(commands(order[i]), results[i].exitCode);
    }
  }

  // ---- what a settled plan looks like -----------------------------------------------

  // A step is skipped exactly when it did not ask to run always and some need of it exited
  // nonzero or was skipped itself.
  lemma SkippedIff(order: seq<Step>, results: seq<StepResult>, commands: Commands, i: nat)
    requires UniqueNames(order) && InNeedOrder(order) && Settled(order, results, commands) && i < |order|
    ensures results[i].skipped <==>
      !order[i].always && exists j | 0 <= j < i :: order[j].name in order[i].needs && (results[j].skipped || results[j].exitCode != 0)
  {
    forall j | 0 <= j < i ensures order[j].name in Failures(results) <==> results[j].skipped || results[j].exitCode != 0 {
      FailuresOf(order, results, j);
    }
    if Blocked(order[i], Failures(results)) {
      var need :| need in order[i].needs && need in Failures(results);
      var j :| 0 <= j < i && order[..i][j].name == need;
      assert order[j].name in order[i].needs && order[j].name in Failures(results);
    }
  }

  // The first step with a nonzero exit really ran: a skip always traces back to a failure.
  lemma {:induction false} SomeFailureIsReal(order: seq<Step>, results: seq<StepResult>, commands: Commands, i: nat) returns (j: nat)
    requires UniqueNames(order) && InNeedOrder(order) && Settled(order, results, commands)
    requires i < |order| && results[i].exitCode != 0
    ensures j <= i && results[j].exitCode != 0 && !results[j].skipped
    decreases i
  {
    j := i;
    if results[i].skipped {
      SkippedIff(order, results, commands, i);
      var k :| 0 <= k < i && order[k].name in order[i].needs && (results[k].skipped || results[k].exitCode != 0);
      j := SomeFailureIsReal(order, results, commands, k);
    }
  }

  // ---- the wave runner --------------------------------------------------------------

  // Each wave's needs are met by the waves before it.
  ghost predicate NeedsBelow(waves: seq<seq<Step>>) {
    forall w | 0 <= w < |waves| :: forall step, need | step in waves[w] && need in step.needs ::
      need in Names(Flatten(waves[..w]))
  }

  lemma LayersNeedBelow(plan: seq<Step>, waves: seq<seq<Step>>, level: map<string, nat>)
    requires NeedsKnown(plan) && IsLevelling(plan, level) && IsLayering(plan, waves, level)
    ensures NeedsBelow(waves)
  {
    forall w, step, need | 0 <= w < |waves| && step in waves[w] && need in step.needs
      ensures need in Names(Flatten(waves[..w]))
    {
      NeedBelow(plan, waves, level, w, step, need);
    }
  }

  lemma {:induction false} NeedBelow(plan: seq<Step>, waves: seq<seq<Step>>, level: map<string, nat>, w: nat, step: Step, need: string)
    requires NeedsKnown(plan) && IsLevelling(plan, level) && IsLayering(plan, waves, level)
    requires w < |waves| && step in waves[w] && need in step.needs
    ensures need in Names(Flatten(waves[..w]))
  {
    hide IsLevelling, Edge, NeedsKnown;
    InFlatten(waves, w, step);
    SameElements(plan, Flatten(waves));
    var other := NeedOf(plan, level, step, need);
    assert waves[..|waves|] == waves;
    LevelledEarlier(waves, level, |waves|, w, other);
    NamesOf(Flatten(waves[..w]));
  }

  lemma {:induction false} NeedOf(plan: seq<Step>, level: map<string, nat>, step: Step, need: string) returns (other: Step)
    requires NeedsKnown(plan) && IsLevelling(plan, level) && step in plan && need in step.needs
    ensures other in plan && other.name == need
    ensures need in level && step.name in level && level[need] < level[step.name]
  {
    EdgeOf(plan, step.name, need);
    NeedIsBelow(plan, level, step.name, need);
    NamesOf(plan);
    other :| other in plan && other.name == need;
  }

  // A step of a level below w is found among the first w waves.
  lemma {:induction false} LevelledEarlier(waves: seq<seq<Step>>, level: map<string, nat>, n: nat, w: nat, step: Step)
    requires w <= n <= |waves| && step in Flatten(waves[..n]) && step.name in level && level[step.name] < w
    requires forall w' | 0 <= w' < |waves| :: forall s | s in waves[w'] :: s.name in level && level[s.name] == w'
    ensures step in Flatten(waves[..w])
    decreases n
  {
    if w < n {
      assert waves[..n][..n - 1] == waves[..n - 1];
      assert step !in waves[n - 1];
      LevelledEarlier(waves, level, n - 1, w, step);
    }
  }

  // A wave's results settle it together with what came before.
  lemma {:induction false} SettleMore(order: seq<Step>, wave: seq<Step>, results: seq<StepResult>, more: seq<StepResult>, commands: Commands)
    requires UniqueNames(order + wave) && InNeedOrder(order) && Settled(order, results, commands)
    requires |more| == |wave| && forall i | 0 <= i < |wave| :: more[i] == Decide(wave[i], commands, Failures(results))
    requires forall step, need | step in wave && need in step.needs :: need in Names(order)
    ensures Settled(order + wave, results + more, commands)
  {
    var all, done := order + wave, results + more;
    assert all[..|results|] == order;
    forall i | 0 <= i < |all| ensures done[i] == Decide(all[i], commands, Failures(done)) {
      forall need | need in all[i].needs ensures need in Names(order) {
        if i < |order| {
          var j :| 0 <= j < i && order[..i][j].name == need;
          assert order[j].name == need;
        } else {
          assert all[i] in wave;
        }
      }
      DecideFrame(all[i], commands, Failures(results), Failures(done));
      assert i < |order| ==> all[i] == order[i] && done[i] == results[i];
    }
  }

  // No step of a wave sees a failure of that wave, only those of earlier ones.
  method RunWave(wave: seq<Step>, commands: Commands, failed: set<string>) returns (results: seq<StepResult>)
    ensures |results| == |wave| && forall i | 0 <= i < |wave| :: results[i] == Decide(wave[i], commands, failed)
  {
    results := [];
    for i := 0 to |wave|
      invariant |results| == i && forall k | 0 <= k < i :: results[k] == Decide(wave[k], commands, failed)
    {
      var result := RunStep(wave[i], commands, failed);
      results := results + [result];
    }
  }

  lemma FailuresPush(results: seq<StepResult>, r: StepResult)
    ensures Failures(results + [r]) == if r.exitCode != 0 then Failures(results) + {r.name} else Failures(results)
  {
    assert forall x :: x in results + [r] <==> x in results || x == r;
  }

  method RunWaves(waves: seq<seq<Step>>, commands: Commands) returns (steps: seq<StepResult>)
    requires UniqueNames(Flatten(waves)) && NeedsBelow(waves)
    ensures Settled(Flatten(waves), steps, commands) && InNeedOrder(Flatten(waves))
  {
    hide Settled, UniqueNames, InNeedOrder;
    steps := [];
    var failed: set<string> := {};
    NothingSettled(commands);
    for w := 0 to |waves|
      invariant Settled(Flatten(waves[..w]), steps, commands) && InNeedOrder(Flatten(waves[..w]))
      invariant failed == Failures(steps)
    {
      var results := RunWave(waves[w], commands, failed);
      FlattenTake(waves, w);
      UniquePrefix(waves, w);
      SettleMore(Flatten(waves[..w]), waves[w], steps, results, commands);
      ghost var before := steps;
      for j := 0 to |results|
        invariant steps == before + results[..j] && failed == Failures(steps)
      {
        assert before + results[..j + 1] == steps + [results[j]];
        FailuresPush(steps, results[j]);
        steps := steps + [results[j]];
        if results[j].exitCode != 0 { failed := failed + {results[j].name}; }
      }
      assert results[..|results|] == results;
    }
    assert waves[..|waves|] == waves;
  }

  lemma NothingSettled(commands: Commands)
    ensures Settled([], [], commands) && InNeedOrder([])
  {}

  lemma FlattenTake(waves: seq<seq<Step>>, w: nat)
    requires w < |waves| && NeedsBelow(waves) && InNeedOrder(Flatten(waves[..w]))
    ensures Flatten(waves[..w + 1]) == Flatten(waves[..w]) + waves[w]
    ensures InNeedOrder(Flatten(waves[..w + 1]))
    ensures forall step, need | step in waves[w] && need in step.needs :: need in Names(Flatten(waves[..w]))
  {
    assert waves[..w + 1][..w] == waves[..w];
    var order, all := Flatten(waves[..w]), Flatten(waves[..w]) + waves[w];
    forall i | 0 <= i < |all| ensures forall need | need in all[i].needs :: need in Names(all[..i]) {
      if i < |order| {
        assert all[..i] == order[..i] && all[i] == order[i];
      } else {
        assert all[i] in waves[w];
        forall need | need in all[i].needs ensures need in Names(all[..i]) {
          assert need in Names(order);
          var j :| 0 <= j < |order| && order[j].name == need;
          assert all[..i][j] == order[j];
        }
      }
    }
  }

  lemma {:induction false} UniquePrefix(waves: seq<seq<Step>>, w: nat)
    requires w < |waves| && UniqueNames(Flatten(waves))
    ensures UniqueNames(Flatten(waves[..w + 1]))
    decreases |waves| - w
  {
    if w + 1 == |waves| {
      assert waves[..w + 1] == waves;
    } else {
      UniquePrefix(waves, w + 1);
      assert waves[..w + 2][..w + 1] == waves[..w + 1];
      var order, more := Flatten(waves[..w + 1]), waves[w + 1];
      assert Flatten(waves[..w + 2]) == order + more;
      forall i, j | 0 <= i < j < |order| ensures order[i].name != order[j].name {
        assert (order + more)[i] == order[i] && (order + more)[j] == order[j];
      }
    }
  }

  // steps.find(...): the first step that ran and failed.
  method FirstFailure(steps: seq<StepResult>) returns (failure: Option<StepResult>)
    ensures IsFirstFailure(failure, steps)
  {
    for i := 0 to |steps|
      invariant forall k | 0 <= k < i :: steps[k].exitCode == 0 || steps[k].skipped
    {
      if steps[i].exitCode != 0 && !steps[i].skipped { return Some(steps[i]); }
    }
    return None;
  }

  lemma OkIffAllGreen(order: seq<Step>, results: seq<StepResult>, commands: Commands)
    requires UniqueNames(order) && InNeedOrder(order) && Settled(order, results, commands)
    ensures (forall result | result in results :: result.exitCode == 0 || result.skipped) <==>
            (forall result | result in results :: result.exitCode == 0 && !result.skipped)
  {
    assert forall k | 0 <= k < |results| :: results[k] in results;
    if forall result | result in results :: result.exitCode == 0 || result.skipped {
      forall i | 0 <= i < |order| ensures results[i].exitCode == 0 {
        if results[i].exitCode != 0 {
          var j := SomeFailureIsReal(order, results, commands, i);
          assert false;
        }
      }
    }
  }

  // The steps wave by wave, each wave in the sorted order.
  ghost predicate InWaves(sorted: seq<Step>, waves: seq<seq<Step>>) {
    exists level :: IsLevelling(sorted, level) && IsLayering(sorted, waves, level) && KeepsOrder(sorted, waves, level)
  }

  ghost predicate IsFirstFailure(failure: Option<StepResult>, steps: seq<StepResult>) {
    match failure
    case None => forall result | result in steps :: result.exitCode == 0 || result.skipped
    case Some(first) => exists i | 0 <= i < |steps| ::
      && steps[i] == first && steps[i].exitCode != 0 && !steps[i].skipped
      && forall k | 0 <= k < i :: steps[k].exitCode == 0 || steps[k].skipped
  }

  // Runs a plan wave by wave. The sort picks one step of every name; each has one result, in the
  // order of the waves, the one that running any topological order of them one step at a time
  // gives, and it tells what the step's own command printed; the run is ok exactly if every step
  // ran and exited 0, and fails with the first that did not.
  method RunPlan(plan: seq<Step>, commands: Commands)
    returns (r: Result<RunResult, PlanError>, ghost sorted: Result<seq<Step>, PlanError>, ghost waves: seq<seq<Step>>)
    ensures Sorts(plan, sorted) && (r.Ok? <==> sorted.Ok?) && (r.Err? ==> r.error == sorted.error)
    ensures r.Ok? ==>
      && InWaves(sorted.value, waves) && IsTopologicalOrder(Flatten(waves), sorted.value)
      && Settled(Flatten(waves), r.value.steps, commands) && AllReport(Flatten(waves), r.value.steps, commands)
      && (r.value.ok <==> forall result | result in r.value.steps :: !result.skipped && result.exitCode == 0)
      && (r.value.ok <==> r.value.failure.None?) && IsFirstFailure(r.value.failure, r.value.steps)
      && RunsLike(sorted.value, r.value.steps, commands)
    ensures r.Ok? && UniqueNames(plan) ==> RunsLike(plan, r.value.steps, commands)
  {
    // An empty plan cannot fail.
    if |plan| == 0 {
      NothingToRun(commands);
      assert plan == [];
      return Ok(RunResult(true, [], None)), Ok([]), [];
    }
    var layered, sort, level := PlanWaves(plan);
    sorted := sort;
    if layered.Err? { return Err(layered.error), sorted, []; }
    waves := layered.value;
    WavesAreRunnable(plan, sorted.value, waves, level);
    assert InWaves(sorted.value, waves);
    hide *;
    var steps := RunWaves(layered.value, commands);
    var failure := FirstFailure(steps);
    SettledReports(Flatten(waves), steps, commands);
    GreenIffNoFailure(Flatten(waves), steps, commands, failure);
    SettledRunsLike(plan, sorted.value, Flatten(waves), steps, commands);
    return Ok(RunResult(failure.None?, steps, failure)), sorted, waves;
  }

  // The results of running any topological order of the steps one at a time, in some order.
  ghost predicate RunsLike(steps: seq<Step>, results: seq<StepResult>, commands: Commands) {
    forall other | IsTopologicalOrder(other, steps) :: multiset(results) == multiset(Sequential(other, commands))
  }

  lemma WavesAreRunnable(plan: seq<Step>, sorted: seq<Step>, waves: seq<seq<Step>>, level: map<string, nat>)
    requires Sorts(plan, Ok(sorted)) && IsLevelling(sorted, level) && IsLayering(sorted, waves, level)
    ensures IsTopologicalOrder(Flatten(waves), sorted) && UniqueNames(Flatten(waves)) && NeedsBelow(waves)
    ensures InNeedOrder(Flatten(waves))
  {
    InOrderIsKnown(sorted);
    WavesInNeedOrder(sorted, waves, level);
    StillUnique(Flatten(waves), sorted);
    LayersNeedBelow(sorted, waves, level);
  }

  lemma SettledRunsLike(plan: seq<Step>, sorted: seq<Step>, order: seq<Step>, results: seq<StepResult>, commands: Commands)
    requires Sorts(plan, Ok(sorted)) && IsTopologicalOrder(order, sorted) && Settled(order, results, commands)
    ensures RunsLike(sorted, results, commands)
    ensures UniqueNames(plan) ==> RunsLike(plan, results, commands)
  {
    assert UniqueNames(sorted);
    forall other | IsTopologicalOrder(other, sorted)
      ensures multiset(results) == multiset(Sequential(other, commands))
    {
      StillUnique(other, sorted);
      SequentialSettles(other, commands);
      SettledSame(sorted, order, results, other, Sequential(other, commands), commands);
    }
    assert UniqueNames(plan) ==> multiset(sorted) == multiset(plan);
  }

  lemma GreenIffNoFailure(order: seq<Step>, results: seq<StepResult>, commands: Commands, failure: Option<StepResult>)
    requires UniqueNames(order) && InNeedOrder(order) && Settled(order, results, commands) && IsFirstFailure(failure, results)
    ensures failure.None? <==> forall result | result in results :: !result.skipped && result.exitCode == 0
  {
    OkIffAllGreen(order, results, commands);
  }

  lemma NothingLayered()
    ensures InWaves([], []) && Flatten<Step>([]) == []
  {
    var level: map<string, nat> := map[];
    assert IsLevelling([], level) && IsLayering([], [], level) && KeepsOrder([], [], level);
  }

  lemma NothingToRun(commands: Commands)
    ensures Sorts([], Ok([])) && IsTopologicalOrder([], []) && Settled([], [], commands) && RunsLike([], [], commands)
    ensures InWaves([], []) && Flatten<Step>([]) == [] && AllReport([], [], commands) && IsFirstFailure(None, [])
  {
    NothingLayered();
    OrderIsAcyclic([]);
    forall other: seq<Step> | IsTopologicalOrder(other, []) ensures other == [] {
      assert |multiset(other)| == |other|;
    }
  }
}
