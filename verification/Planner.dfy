// packages/ci-config/src/index.ts: building a CI plan, ordering it and layering it into waves.
module Planner {
  import opened Wrappers

  // The fields of PlanStep that decide order and execution; the other options are carried along
  // unread by the code modelled here.
  datatype Step = Step(name: string, command: string, needs: seq<string>, always: bool)

  datatype PlanError =
    | BlankName
    | DuplicateName(name: string)
    | UnknownNeed(step: string, need: string)
    | Cycle(path: seq<string>)

  // ---- the need graph ---------------------------------------------------------------

  function Names(steps: seq<Step>): set<string> {
    set i | 0 <= i < |steps| :: steps[i].name
  }

  ghost predicate UniqueNames(steps: seq<Step>) {
    forall i, j | 0 <= i < j < |steps| :: steps[i].name != steps[j].name
  }

  ghost predicate NeedsKnown(steps: seq<Step>) {
    forall step, need | step in steps && need in step.needs :: need in Names(steps)
  }

  // Every need is the name of an earlier step.
  ghost predicate InNeedOrder(steps: seq<Step>) {
    forall i | 0 <= i < |steps| :: forall need | need in steps[i].needs :: need in Names(steps[..i])
  }

  // from needs to, directly.
  ghost predicate Edge(steps: seq<Step>, from: string, to: string) {
    exists i | 0 <= i < |steps| :: steps[i].name == from && to in steps[i].needs
  }

  // Each name needs the next one.
  ghost predicate Chain(steps: seq<Step>, path: seq<string>) {
    forall i | 0 <= i < |path| - 1 :: Edge(steps, path[i], path[i + 1])
  }

  ghost predicate IsCycle(steps: seq<Step>, path: seq<string>) {
    |path| >= 2 && path[0] == path[|path| - 1] && Chain(steps, path)
  }

  ghost predicate Acyclic(steps: seq<Step>) {
    forall path :: !IsCycle(steps, path)
  }

  // A rearrangement of the plan with every need before its dependents.
  ghost predicate IsTopologicalOrder(order: seq<Step>, plan: seq<Step>) {
    multiset(order) == multiset(plan) && InNeedOrder(order)
  }

  // ---- building ---------------------------------------------------------------------

  // What String.prototype.trim strips.
  predicate IsSpace(c: char) {
    c in "\t\n\r \U{0B}\U{0C}\U{A0}\U{FEFF}\U{1680}\U{2028}\U{2029}\U{202F}\U{205F}\U{3000}"
    || '\U{2000}' <= c <= '\U{200A}'
  }

  predicate Blank(name: string) {
    forall i | 0 <= i < |name| :: IsSpace(name[i])
  }

  // A name with a visible ASCII character is not blank; one
  // of spaces, tabs and line ends is.
  lemma BlankNames(name: string, i: nat)
    requires i < |name|
    ensures '!' <= name[i] <= '~' ==> !Blank(name)
    ensures (forall k | 0 <= k < |name| :: name[k] in " \t\r\n") ==> Blank(name)
  {
    assert ' ' in "\t\n\r \U{0B}\U{0C}\U{A0}\U{FEFF}\U{1680}\U{2028}\U{2029}\U{202F}\U{205F}\U{3000}";
  }

  class PlanBuilder {
    var steps: seq<Step>
    var used: set<string>

    ghost predicate Valid()
      reads this
    {
      used == Names(steps) && UniqueNames(steps) && InNeedOrder(steps)
    }

    constructor ()
      ensures Valid() && steps == []
    {
      steps := [];
      used := {};
    }

    // Records a step and hands out its name as a handle. needs is empty for a root step and the
    // handle's own name for a chained one, so it names steps recorded earlier.
    method Add(name: string, command: string, needs: seq<string>, always: bool) returns (r: Result<string, PlanError>)
      requires Valid() && forall need | need in needs :: need in used
      modifies this
      ensures Valid()
      ensures r.Ok? <==> !Blank(name) && name !in old(used)
      ensures r.Ok? ==> r.value == name && steps == old(steps) + [Step(name, command, needs, always)]
      ensures r.Err? ==> steps == old(steps) && r.error == if Blank(name) then BlankName else DuplicateName(name)
    {
      if Blank(name) { return Err(BlankName); }
      if name in used { return Err(DuplicateName(name)); }
      used := used + {name};
      steps := steps + [Step(name, command, needs, always)];
      AddKeepsOrder(old(steps), steps[|steps| - 1]);
      return Ok(name);
    }
  }

  lemma AddKeepsOrder(steps: seq<Step>, step: Step)
    requires UniqueNames(steps) && InNeedOrder(steps)
    requires step.name !in Names(steps) && forall need | need in step.needs :: need in Names(steps)
    ensures UniqueNames(steps + [step]) && InNeedOrder(steps + [step])
    ensures Names(steps + [step]) == Names(steps) + {step.name}
  {
    var all := steps + [step];
    forall i | 0 <= i < |steps| ensures all[i].name in Names(steps) { assert all[i] == steps[i]; }
    forall i | 0 <= i < |steps| ensures steps[i].name in Names(all) { assert all[i] == steps[i]; }
    assert all[|steps|] == step;
    forall i | 0 <= i < |all| ensures all[..i] == if i <= |steps| then steps[..i] else all {}
    assert steps[..|steps|] == steps;
  }

  // ---- topological sort -------------------------------------------------------------

  datatype Mark = Visiting | Done

  // The steps by name; a later duplicate would replace an earlier one.
  function ByName(steps: seq<Step>): map<string, Step> {
    if steps == [] then map[] else ByName(steps[..|steps| - 1])[steps[|steps| - 1].name := steps[|steps| - 1]]
  }

  lemma {:induction false} ByNameOf(steps: seq<Step>)
    ensures ByName(steps).Keys == Names(steps)
    ensures forall n | n in ByName(steps) :: ByName(steps)[n] in steps && ByName(steps)[n].name == n
    ensures UniqueNames(steps) ==> forall step | step in steps :: step.name in ByName(steps) && ByName(steps)[step.name] == step
  {
    if steps != [] {
      var front, last := steps[..|steps| - 1], steps[|steps| - 1];
      assert steps == front + [last];
      ByNameOf(front);
      NamesSnoc(front, last);
      if UniqueNames(steps) {
        forall step | step in front ensures step.name != last.name {
          var i :| 0 <= i < |front| && front[i] == step;
          assert steps[i].name != steps[|front|].name;
        }
      }
    }
  }

  lemma NamesSnoc(steps: seq<Step>, step: Step)
    ensures Names(steps + [step]) == Names(steps) + {step.name}
  {
    var all := steps + [step];
    forall i | 0 <= i < |steps| ensures all[i].name in Names(steps) && steps[i].name in Names(all) {
      assert all[i] == steps[i];
    }
    assert all[|steps|] == step;
  }

  // The last name repeats an earlier one, and from there to the last the path runs in a circle.
  ghost predicate ClosesCycle(plan: seq<Step>, path: seq<string>) {
    Chain(plan, path) && exists i | 0 <= i < |path| - 1 :: path[i] == path[|path| - 1]
  }

  ghost predicate IsDone(state: map<string, Mark>, n: string) {
    n in state && state[n] == Done
  }

  // The first step with the name, where there is one.
  function FirstNamed(plan: seq<Step>, name: string): Option<Step> {
    if plan == [] then None else if plan[0].name == name then Some(plan[0]) else FirstNamed(plan[1..], name)
  }

  // Of several steps with one name only the first and the last are ever looked at.
  ghost predicate Chosen(plan: seq<Step>, step: Step) {
    step in plan && (Some(step) == FirstNamed(plan, step.name) || (step.name in ByName(plan) && step == ByName(plan)[step.name]))
  }

  // ordered holds the finished steps with needs first; the steps in progress are the trail.
  ghost predicate SearchState(plan: seq<Step>, state: map<string, Mark>, ordered: seq<Step>, trail: seq<string>) {
    && NeedsKnown(plan) && state.Keys <= Names(plan) && Chain(plan, trail)
    && (forall n :: n in trail <==> n in state && state[n] == Visiting)
    && (forall n :: IsDone(state, n) <==> n in Names(ordered))
    && UniqueNames(ordered) && InNeedOrder(ordered)
    && (forall step | step in ordered :: Chosen(plan, step))
  }

  // How many names have no mark yet.
  ghost function Left(plan: seq<Step>, state: map<string, Mark>): nat { |Names(plan) - state.Keys| }

  // Marks are only ever added, and what is ordered stays where it is.
  ghost predicate Grown(state: map<string, Mark>, ordered: seq<Step>, state': map<string, Mark>, ordered': seq<Step>) {
    && state.Keys <= state'.Keys && (forall n | n in state :: state'[n] == state[n])
    && ordered <= ordered'
  }

  lemma EnterStep(plan: seq<Step>, state: map<string, Mark>, ordered: seq<Step>, trail: seq<string>, name: string)
    requires SearchState(plan, state, ordered, trail) && name in Names(plan) && name !in state && Chain(plan, trail + [name])
    ensures SearchState(plan, state[name := Visiting], ordered, trail + [name])
    ensures Left(plan, state[name := Visiting]) < Left(plan, state) && name !in trail
  {
    hide InNeedOrder, UniqueNames, NeedsKnown, Chosen, Chain, Names;
    MarkVisiting(state, name);
    Unvisited(plan, state, name);
    hide IsDone;
    assert forall n :: n in trail + [name] <==> n in trail || n == name;
  }

  lemma MarkVisiting(state: map<string, Mark>, name: string)
    requires name !in state
    ensures forall n :: IsDone(state[name := Visiting], n) <==> IsDone(state, n)
  {}

  lemma Unvisited(plan: seq<Step>, state: map<string, Mark>, name: string)
    requires name in Names(plan) && name !in state
    ensures Left(plan, state[name := Visiting]) < Left(plan, state)
  {
    hide Names;
    var state' := state[name := Visiting];
    assert name in Names(plan) - state.Keys && name !in Names(plan) - state'.Keys;
    SubsetSize(Names(plan) - state'.Keys, Names(plan) - state.Keys);
  }

  lemma LeaveStep(plan: seq<Step>, state: map<string, Mark>, ordered: seq<Step>, trail: seq<string>, step: Step)
    requires SearchState(plan, state, ordered, trail + [step.name]) && step.name !in trail
    requires Chosen(plan, step) && step.name in state
    requires AllDone(state, step.needs)
    ensures SearchState(plan, state[step.name := Done], ordered + [step], trail)
    ensures IsDone(state[step.name := Done], step.name)
  {
    hide NeedsKnown, Chosen;
    var state', all := state[step.name := Done], trail + [step.name];
    assert step.name in all;
    assert !IsDone(state, step.name);
    AddKeepsOrder(ordered, step);
    hide Names, InNeedOrder, UniqueNames;
    assert forall n :: IsDone(state', n) <==> IsDone(state, n) || n == step.name;
    ChainFront(plan, trail, step.name);
  }

  lemma ChainFront(plan: seq<Step>, trail: seq<string>, name: string)
    requires Chain(plan, trail + [name])
    ensures Chain(plan, trail)
  {
    var all := trail + [name];
    forall i | 0 <= i < |trail| - 1 ensures Edge(plan, trail[i], trail[i + 1]) {
      assert trail[i] == all[i] && trail[i + 1] == all[i + 1];
    }
  }

  lemma {:induction false} NextNeed(plan: seq<Step>, trail: seq<string>, step: Step, need: string)
    requires NeedsKnown(plan) && Chain(plan, trail + [step.name]) && step in plan && need in step.needs
    ensures need in ByName(plan) && ByName(plan)[need].name == need && Chosen(plan, ByName(plan)[need])
    ensures Chain(plan, trail + [step.name] + [need])
  {
    ByNameOf(plan);
    var path, next := trail + [step.name], trail + [step.name] + [need];
    var k :| 0 <= k < |plan| && plan[k] == step;
    assert Edge(plan, step.name, need);
    forall i | 0 <= i < |next| - 1 ensures Edge(plan, next[i], next[i + 1]) {
      if i < |trail| { assert next[i] == path[i] && next[i + 1] == path[i + 1]; }
    }
  }

  lemma {:induction false} BackEdge(plan: seq<Step>, state: map<string, Mark>, ordered: seq<Step>, trail: seq<string>, name: string)
    requires SearchState(plan, state, ordered, trail) && Chain(plan, trail + [name]) && name in state && state[name] == Visiting
    ensures ClosesCycle(plan, trail + [name])
  {
    var path := trail + [name];
    var i :| 0 <= i < |trail| && trail[i] == name;
    assert path[i] == path[|path| - 1];
  }

  ghost predicate AllDone(state: map<string, Mark>, names: seq<string>) {
    forall n | n in names :: IsDone(state, n)
  }

  // One more need visited.
  lemma {:induction false} NeedVisited(plan: seq<Step>, state: map<string, Mark>, ordered: seq<Step>, state1: map<string, Mark>, ordered1: seq<Step>,
                                       state2: map<string, Mark>, ordered2: seq<Step>, needs: seq<string>, i: nat)
    requires Grown(state, ordered, state1, ordered1) && Grown(state1, ordered1, state2, ordered2)
    requires i < |needs| && AllDone(state1, needs[..i]) && IsDone(state2, needs[i])
    ensures Grown(state, ordered, state2, ordered2) && AllDone(state2, needs[..i + 1])
    ensures Left(plan, state2) <= Left(plan, state)
  {
    assert needs[..i + 1] == needs[..i] + [needs[i]];
    forall n | n in state ensures state2[n] == state[n] { assert state1[n] == state[n]; }
    SubsetSize(Names(plan) - state2.Keys, Names(plan) - state.Keys);
  }

  // A step entered on state, whose needs are done by state1, is left.
  lemma {:induction false} StepVisited(plan: seq<Step>, state: map<string, Mark>, ordered: seq<Step>, trail: seq<string>,
                                       state1: map<string, Mark>, ordered1: seq<Step>, step: Step)
    requires step.name !in state && step.name !in trail && Chosen(plan, step)
    requires Grown(state[step.name := Visiting], ordered, state1, ordered1)
    requires SearchState(plan, state1, ordered1, trail + [step.name]) && AllDone(state1, step.needs)
    ensures SearchState(plan, state1[step.name := Done], ordered1 + [step], trail)
    ensures Grown(state, ordered, state1[step.name := Done], ordered1 + [step])
    ensures IsDone(state1[step.name := Done], step.name)
  {
    LeaveStep(plan, state1, ordered1, trail, step);
    hide SearchState, Chosen;
    forall n | n in state ensures state1[n] == state[n] { assert n in state[step.name := Visiting]; }
  }

  class Sorter {
    ghost const plan: seq<Step>
    const byName: map<string, Step>
    var state: map<string, Mark>
    var ordered: seq<Step>

    constructor (plan: seq<Step>)
      requires NeedsKnown(plan)
      ensures this.plan == plan && byName == ByName(plan) && state == map[] && ordered == []
      ensures SearchState(plan, state, ordered, [])
    {
      this.plan := plan;
      byName := ByName(plan);
      state := map[];
      ordered := [];
    }

    method Visit(step: Step, trail: seq<string>) returns (error: Option<PlanError>)
      requires byName == ByName(plan) && SearchState(plan, state, ordered, trail)
      requires step in plan && (IsDone(state, step.name) || Chosen(plan, step))
      requires Chain(plan, trail + [step.name])
      modifies this`state, this`ordered
      ensures error.None? ==>
        && SearchState(plan, state, ordered, trail)
        && Grown(old(state), old(ordered), state, ordered) && IsDone(state, step.name)
      ensures error.Some? ==> error.value.Cycle? && ClosesCycle(plan, error.value.path)
      ensures IsDone(old(state), step.name) ==> error.None? && ordered == old(ordered) && state == old(state)
      ensures step.name !in old(state) && AllDone(old(state), step.needs) ==>
        error.None? && ordered == old(ordered) + [step] && state == old(state)[step.name := Done]
      decreases Left(plan, state), 1
    {
      hide SearchState, Chain, ClosesCycle, Grown, AllDone, Chosen, Names, ByName, Left;
      NothingGrown(state, ordered);
      if step.name in state {
        if state[step.name] == Done { return None; }
        BackEdge(plan, state, ordered, trail, step.name);
        return Some(Cycle(trail + [step.name]));
      }
      error := VisitNew(step, trail);
    }

    // A step met for the first time: marked, its needs visited, marked again and put at the end.
    method VisitNew(step: Step, trail: seq<string>) returns (error: Option<PlanError>)
      requires byName == ByName(plan) && SearchState(plan, state, ordered, trail)
      requires step in plan && step.name !in state && Chosen(plan, step) && Chain(plan, trail + [step.name])
      modifies this`state, this`ordered
      ensures error.None? ==>
        && SearchState(plan, state, ordered, trail)
        && Grown(old(state), old(ordered), state, ordered) && IsDone(state, step.name)
      ensures error.Some? ==> error.value.Cycle? && ClosesCycle(plan, error.value.path)
      ensures AllDone(old(state), step.needs) ==>
        error.None? && ordered == old(ordered) + [step] && state == old(state)[step.name := Done]
      decreases Left(plan, state), 0
    {
      NamedInPlan(plan, step);
      hide SearchState, Chain, ClosesCycle, Grown, AllDone, IsDone, Chosen, Names, ByName, Left;
      ghost var state0, ordered0 := state, ordered;
      EnterStep(plan, state, ordered, trail, step.name);
      NeedsReady(state, step.name, step.needs);
      state := state[step.name := Visiting];
      error := VisitNeeds(step, trail);
      if error.Some? { return; }
      StepVisited(plan, state0, ordered0, trail, state, ordered, step);
      MarkedTwice(state0, step.name);
      state := state[step.name := Done];
      ordered := ordered + [step];
    }

    // The loop of a visit: each need in turn, below the step itself.
    method VisitNeeds(step: Step, trail: seq<string>) returns (error: Option<PlanError>)
      requires byName == ByName(plan) && SearchState(plan, state, ordered, trail + [step.name]) && step in plan
      modifies this`state, this`ordered
      ensures error.None? ==>
        && SearchState(plan, state, ordered, trail + [step.name])
        && Grown(old(state), old(ordered), state, ordered) && AllDone(state, step.needs)
      ensures error.Some? ==> error.value.Cycle? && ClosesCycle(plan, error.value.path)
      ensures AllDone(old(state), step.needs) ==> error.None? && ordered == old(ordered) && state == old(state)
      decreases Left(plan, state), 3
    {
      hide SearchState, Chain, ClosesCycle, Grown, AllDone, NeedsKnown, Chosen, Names, ByName, Left, IsDone;
      NothingGrown(state, ordered);
      ghost var state0, ordered0 := state, ordered;
      ghost var ready := AllDone(state, step.needs);
      for i := 0 to |step.needs|
        invariant SearchState(plan, state, ordered, trail + [step.name])
        invariant Grown(state0, ordered0, state, ordered)
        invariant Left(plan, state) <= Left(plan, state0)
        invariant AllDone(state, step.needs[..i])
        invariant ready ==> ordered == ordered0 && state == state0
      {
        ghost var state1, ordered1 := state, ordered;
        NeedReady(state, step.needs, i);
        error := VisitNeed(step, i, trail);
        if error.Some? { return; }
        NeedVisited(plan, state0, ordered0, state1, ordered1, state, ordered, step.needs, i);
      }
      assert step.needs[..|step.needs|] == step.needs;
      error := None;
    }

    method VisitNeed(step: Step, i: nat, trail: seq<string>) returns (error: Option<PlanError>)
      requires byName == ByName(plan) && SearchState(plan, state, ordered, trail + [step.name])
      requires step in plan && i < |step.needs|
      modifies this`state, this`ordered
      ensures error.None? ==>
        && SearchState(plan, state, ordered, trail + [step.name])
        && Grown(old(state), old(ordered), state, ordered) && IsDone(state, step.needs[i])
      ensures error.Some? ==> error.value.Cycle? && ClosesCycle(plan, error.value.path)
      ensures IsDone(old(state), step.needs[i]) ==> error.None? && ordered == old(ordered) && state == old(state)
      decreases Left(plan, state), 2
    {
      assert NeedsKnown(plan) && Chain(plan, trail + [step.name]);
      hide SearchState, Chain, ClosesCycle, Grown, NeedsKnown, Chosen, Names, ByName, Left, IsDone;
      NextNeed(plan, trail, step, step.needs[i]);
      error := Visit(byName[step.needs[i]], trail + [step.name]);
    }
  }

  lemma NamedInPlan(plan: seq<Step>, step: Step)
    requires step in plan
    ensures step.name in Names(plan)
  {}

  lemma NeedReady(state: map<string, Mark>, needs: seq<string>, i: nat)
    requires i < |needs|
    ensures AllDone(state, needs) ==> IsDone(state, needs[i])
  {
    assert needs[i] in needs;
  }

  lemma NeedsReady(state: map<string, Mark>, name: string, needs: seq<string>)
    requires name !in state
    ensures AllDone(state, needs) ==> AllDone(state[name := Visiting], needs)
  {}

  lemma MarkedTwice(state: map<string, Mark>, name: string)
    ensures state[name := Visiting][name := Done] == state[name := Done]
  {}

  lemma NothingGrown(state: map<string, Mark>, ordered: seq<Step>)
    ensures Grown(state, ordered, state, ordered) && AllDone(state, [])
  {}

  lemma SubsetSize<T>(a: set<T>, b: set<T>)
    requires a <= b
    ensures |a| <= |b| && (a != b ==> |a| < |b|)
  {
    assert b == a + (b - a);
  }

  lemma {:induction false} UniqueCount(steps: seq<Step>, step: Step)
    requires UniqueNames(steps)
    ensures multiset(steps)[step] == if step in steps then 1 else 0
  {
    if steps != [] {
      var front, last := steps[..|steps| - 1], steps[|steps| - 1];
      assert steps == front + [last];
      UniqueCount(front, step);
      forall i | 0 <= i < |front| ensures front[i] != last {
        assert steps[i].name != steps[|front|].name;
      }
    }
  }

  lemma SameSteps(a: seq<Step>, b: seq<Step>)
    requires UniqueNames(a) && UniqueNames(b) && forall step :: step in a <==> step in b
    ensures multiset(a) == multiset(b)
  {
    forall step ensures multiset(a)[step] == multiset(b)[step] {
      UniqueCount(a, step);
      UniqueCount(b, step);
    }
  }

  lemma SameElements(a: seq<Step>, b: seq<Step>)
    requires multiset(a) == multiset(b)
    ensures forall step :: step in a <==> step in b
    ensures Names(a) == Names(b)
    ensures forall path :: IsCycle(a, path) <==> IsCycle(b, path)
  {
    forall step ensures step in a <==> step in b {
      assert step in a <==> step in multiset(a);
      assert step in b <==> step in multiset(b);
    }
    NamesOf(a);
    NamesOf(b);
    forall from, to ensures Edge(a, from, to) <==> Edge(b, from, to) {
      EdgeOf(a, from, to);
      EdgeOf(b, from, to);
    }
  }

  lemma NamesOf(steps: seq<Step>)
    ensures forall n :: n in Names(steps) <==> exists step :: step in steps && step.name == n
  {
    forall step | step in steps ensures step.name in Names(steps) {
      var i :| 0 <= i < |steps| && steps[i] == step;
    }
  }

  lemma EdgeOf(steps: seq<Step>, from: string, to: string)
    ensures Edge(steps, from, to) <==> exists step :: step in steps && step.name == from && to in step.needs
  {
    if Edge(steps, from, to) {
      var i :| 0 <= i < |steps| && steps[i].name == from && to in steps[i].needs;
      assert steps[i] in steps;
    }
  }

  // Following needs only ever leads backwards in a topological order.
  lemma {:induction false} ChainGoesBack(order: seq<Step>, path: seq<string>, i: nat)
    requires UniqueNames(order) && InNeedOrder(order) && Chain(order, path) && |path| >= 2
    requires i < |order| && order[i].name == path[0]
    ensures path[|path| - 1] in Names(order[..i])
    decreases |path|
  {
    assert Edge(order, path[0], path[1]);
    var i' :| 0 <= i' < |order| && order[i'].name == path[0] && path[1] in order[i'].needs;
    var j :| 0 <= j < i && order[..i][j].name == path[1];
    if |path| > 2 {
      var rest := path[1..];
      forall k | 0 <= k < |rest| - 1 ensures Edge(order, rest[k], rest[k + 1]) {
        assert Edge(order, path[k + 1], path[k + 1 + 1]);
      }
      ChainGoesBack(order, rest, j);
      var k :| 0 <= k < j && order[..j][k].name == path[|path| - 1];
      assert order[..i][k] == order[k];
    }
  }

  lemma {:induction false} OrderIsAcyclic(order: seq<Step>)
    requires UniqueNames(order) && InNeedOrder(order)
    ensures Acyclic(order)
  {
    forall path ensures !IsCycle(order, path) {
      if IsCycle(order, path) {
        assert Edge(order, path[0], path[1]);
        var i :| 0 <= i < |order| && order[i].name == path[0] && path[1] in order[i].needs;
        ChainGoesBack(order, path, i);
      }
    }
  }

  // The end of a reported path, from the name it repeats, is a cycle of the plan.
  lemma {:induction false} ReportedCycle(plan: seq<Step>, path: seq<string>)
    requires ClosesCycle(plan, path)
    ensures !Acyclic(plan) && exists i | 0 <= i < |path| :: IsCycle(plan, path[i..])
  {
    var i :| 0 <= i < |path| - 1 && path[i] == path[|path| - 1];
    var cycle := path[i..];
    forall k | 0 <= k < |cycle| - 1 ensures Edge(plan, cycle[k], cycle[k + 1]) {
      assert Edge(plan, path[i + k], path[i + k + 1]);
    }
    assert IsCycle(plan, cycle);
  }

  // One step of every name, needs first. Where names repeat it is the first or the last of them.
  ghost predicate IsSelection(order: seq<Step>, plan: seq<Step>) {
    && UniqueNames(order) && InNeedOrder(order) && Names(order) == Names(plan)
    && forall step | step in order :: Chosen(plan, step)
  }

  // All the steps are done.
  lemma {:induction false} SearchComplete(plan: seq<Step>, state: map<string, Mark>, ordered: seq<Step>)
    requires SearchState(plan, state, ordered, []) && forall step | step in plan :: IsDone(state, step.name)
    ensures IsSelection(ordered, plan) && Acyclic(ordered)
    ensures UniqueNames(plan) <==> IsTopologicalOrder(ordered, plan)
    ensures UniqueNames(plan) ==> Acyclic(plan)
  {
    NamesOf(ordered);
    NamesOf(plan);
    forall n ensures n in Names(ordered) <==> n in Names(plan) {
      assert IsDone(state, n) <==> n in Names(ordered);
    }
    OrderIsAcyclic(ordered);
    if UniqueNames(plan) {
      SameNamesSameSteps(ordered, plan);
      SameElements(ordered, plan);
    }
    if multiset(ordered) == multiset(plan) { StillUnique(plan, ordered); }
  }

  lemma {:induction false} SameNamesSameSteps(ordered: seq<Step>, plan: seq<Step>)
    requires UniqueNames(plan) && UniqueNames(ordered) && Names(ordered) == Names(plan)
    requires forall step | step in ordered :: step in plan
    ensures multiset(ordered) == multiset(plan)
  {
    NamesOf(ordered);
    NamesOf(plan);
    forall step ensures step in ordered <==> step in plan {
      if step in plan {
        assert step.name in Names(plan) && step.name in Names(ordered);
        var other :| other in ordered && other.name == step.name;
        NamesTell(plan, step, other);
      }
    }
    SameSteps(ordered, plan);
  }

  // Names that do not repeat do not repeat in any arrangement.
  lemma {:induction false} StillUnique(ordered: seq<Step>, plan: seq<Step>)
    requires UniqueNames(plan) && multiset(ordered) == multiset(plan)
    ensures UniqueNames(ordered)
  {
    SameElements(ordered, plan);
    forall i, j | 0 <= i < j < |ordered| ensures ordered[i].name != ordered[j].name {
      assert ordered[i] in plan && ordered[j] in plan;
      Twice(ordered, i, j);
      UniqueCount(plan, ordered[i]);
      NamesTell(plan, ordered[i], ordered[j]);
    }
  }

  lemma NamesTell(plan: seq<Step>, a: Step, b: Step)
    requires UniqueNames(plan) && a in plan && b in plan
    ensures a.name == b.name ==> a == b
  {
    var i :| 0 <= i < |plan| && plan[i] == a;
    var j :| 0 <= j < |plan| && plan[j] == b;
    assert i < j ==> plan[i].name != plan[j].name;
    assert j < i ==> plan[j].name != plan[i].name;
  }

  lemma {:induction false} Twice(steps: seq<Step>, i: nat, j: nat)
    requires i < j < |steps|
    ensures steps[i] == steps[j] ==> multiset(steps)[steps[i]] >= 2
  {
    assert steps == steps[..i] + [steps[i]] + steps[i + 1..j] + [steps[j]] + steps[j + 1..];
  }

  // The next step of the list is done already or is the first of its name.
  lemma {:induction false} NextIsChosen(plan: seq<Step>, i: nat, state: map<string, Mark>)
    requires i < |plan| && forall j | 0 <= j < i :: IsDone(state, plan[j].name)
    ensures IsDone(state, plan[i].name) || Chosen(plan, plan[i])
  {
    if !IsDone(state, plan[i].name) { FirstNamedAt(plan, i); }
  }

  lemma {:induction false} FirstNamedAt(plan: seq<Step>, i: nat)
    requires i < |plan| && forall j | 0 <= j < i :: plan[j].name != plan[i].name
    ensures FirstNamed(plan, plan[i].name) == Some(plan[i])
  {
    if i > 0 { FirstNamedAt(plan[1..], i - 1); }
  }

  // A plan already in need order is visited in that order.
  lemma {:induction false} DeclaredOrder(plan: seq<Step>, i: nat, state: map<string, Mark>)
    requires UniqueNames(plan) && i < |plan| && SearchState(plan, state, plan[..i], [])
    requires InNeedOrder(plan)
    ensures plan[i].name !in state && AllDone(state, plan[i].needs)
  {
    forall j | 0 <= j < i ensures plan[..i][j].name != plan[i].name {
      assert plan[j].name != plan[i].name;
    }
    assert !IsDone(state, plan[i].name);
  }

  // What sorting a plan comes to: an unknown need or a cycle where there is one, and otherwise one
  // step of every name with needs first, which is all of the plan exactly if no name repeats.
  ghost predicate Sorts(plan: seq<Step>, r: Result<seq<Step>, PlanError>) {
    match r
    case Ok(order) =>
      && NeedsKnown(plan) && IsSelection(order, plan) && Acyclic(order)
      && (UniqueNames(plan) <==> IsTopologicalOrder(order, plan))
      && (UniqueNames(plan) ==> Acyclic(plan))
      && (UniqueNames(plan) && InNeedOrder(plan) ==> order == plan)
    case Err(error) =>
      if NeedsKnown(plan) then
        && error.Cycle? && !Acyclic(plan) && exists i | 0 <= i < |error.path| :: IsCycle(plan, error.path[i..])
      else
        && error.UnknownNeed? && error.need !in Names(plan)
        && exists step | step in plan :: step.name == error.step && error.need in step.needs
  }

  // With names that do not repeat, sorting succeeds exactly if needs are known and no step needs
  // itself, however indirectly; a plan in need order comes out as it is.
  lemma SortsIff(plan: seq<Step>, r: Result<seq<Step>, PlanError>)
    requires Sorts(plan, r) && UniqueNames(plan)
    ensures r.Ok? <==> NeedsKnown(plan) && Acyclic(plan)
    ensures r.Ok? ==> IsTopologicalOrder(r.value, plan)
    ensures InNeedOrder(plan) ==> r == Ok(plan)
  {
    if InNeedOrder(plan) {
      OrderIsAcyclic(plan);
      InOrderIsKnown(plan);
    }
  }

  lemma InOrderIsKnown(plan: seq<Step>)
    requires InNeedOrder(plan)
    ensures NeedsKnown(plan)
  {
    forall step, need | step in plan && need in step.needs ensures need in Names(plan) {
      var i :| 0 <= i < |plan| && plan[i] == step;
      assert need in Names(plan[..i]);
      var j :| 0 <= j < i && plan[..i][j].name == need;
      assert plan[j].name == need;
    }
  }

  // Checks that needs are known, then searches from each step in turn.
  method TopoSort(plan: seq<Step>) returns (r: Result<seq<Step>, PlanError>)
    ensures Sorts(plan, r)
  {
    hide Acyclic, IsCycle, SearchState, IsSelection, IsTopologicalOrder, InNeedOrder, UniqueNames, Names;
    var byName := ByName(plan);
    ByNameOf(plan);
    for i := 0 to |plan|
      invariant forall step, need | step in plan[..i] && need in step.needs :: need in Names(plan)
    {
      var step := plan[i];
      assert plan[..i + 1] == plan[..i] + [step];
      for j := 0 to |step.needs|
        invariant forall need | need in step.needs[..j] :: need in Names(plan)
      {
        if step.needs[j] !in byName {
          assert step in plan && step.needs[j] in step.needs;
          return Err(UnknownNeed(step.name, step.needs[j]));
        }
        assert step.needs[..j + 1] == step.needs[..j] + [step.needs[j]];
      }
      assert step.needs[..|step.needs|] == step.needs;
    }
    assert plan[..|plan|] == plan;
    r := SortKnown(plan);
  }

  method SortKnown(plan: seq<Step>) returns (r: Result<seq<Step>, PlanError>)
    requires NeedsKnown(plan)
    ensures Sorts(plan, r)
  {
    hide Acyclic, IsCycle, SearchState, IsTopologicalOrder, IsSelection, Grown, ClosesCycle, InNeedOrder, NeedsKnown, UniqueNames, Chosen, Names;
    var sorter := new Sorter(plan);
    ghost var declared := UniqueNames(plan) && InNeedOrder(plan);
    for i := 0 to |plan|
      invariant SearchState(plan, sorter.state, sorter.ordered, []) && sorter.plan == plan && sorter.byName == ByName(plan)
      invariant forall j | 0 <= j < i :: IsDone(sorter.state, plan[j].name)
      invariant declared ==> sorter.ordered == plan[..i]
    {
      var step := plan[i];
      assert plan[..i + 1] == plan[..i] + [step];
      if declared { DeclaredOrder(plan, i, sorter.state); }
      NextIsChosen(plan, i, sorter.state);
      SingleChain(plan, step.name);
      ghost var before, beforeOrdered := sorter.state, sorter.ordered;
      var error := sorter.Visit(step, []);
      if error.Some? {
        ReportedCycle(plan, error.value.path);
        return Err(error.value);
      }
      GrownKeepsDone(before, beforeOrdered, sorter.state, sorter.ordered);
    }
    assert plan[..|plan|] == plan;
    SearchComplete(plan, sorter.state, sorter.ordered);
    return Ok(sorter.ordered);
  }

  lemma SingleChain(plan: seq<Step>, n: string)
    ensures Chain(plan, [] + [n])
  {}

  lemma GrownKeepsDone(state: map<string, Mark>, ordered: seq<Step>, state': map<string, Mark>, ordered': seq<Step>)
    requires Grown(state, ordered, state', ordered')
    ensures forall n | IsDone(state, n) :: IsDone(state', n)
  {}
}
