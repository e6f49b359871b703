// planWaves (packages/ci-config/src/index.ts): layering a plan by its longest need chains.
module Waves {
  import opened Wrappers
  import opened Planner

  // One more than the deepest need, or 0.
  function LevelOf(needs: seq<string>, depth: map<string, nat>): nat {
    if needs == [] then 0
    else
      var max, need := LevelOf(needs[..|needs| - 1], depth), needs[|needs| - 1];
      var next := (if need in depth then depth[need] else 0) + 1;
      if next > max then next else max
  }

  // Every step has the level that its needs give it.
  ghost predicate IsLevelling(plan: seq<Step>, level: map<string, nat>) {
    level.Keys == Names(plan) && forall step | step in plan :: level[step.name] == LevelOf(step.needs, level)
  }

  function Flatten<T>(waves: seq<seq<T>>): seq<T> {
    if waves == [] then [] else Flatten(waves[..|waves| - 1]) + waves[|waves| - 1]
  }

  // The waves partition the plan by level and none is empty.
  ghost predicate IsLayering(plan: seq<Step>, waves: seq<seq<Step>>, level: map<string, nat>) {
    && multiset(Flatten(waves)) == multiset(plan)
    && forall w | 0 <= w < |waves| ::
        waves[w] != [] && forall step | step in waves[w] :: step.name in level && level[step.name] == w
  }

  // The steps of one level, in the order given.
  function AtLevel(steps: seq<Step>, level: map<string, nat>, w: nat): seq<Step> {
    if steps == [] then []
    else
      var last := steps[|steps| - 1];
      AtLevel(steps[..|steps| - 1], level, w) + if last.name in level && level[last.name] == w then [last] else []
  }

  // A step added to the wave of its level, which is at most one past the last.
  function Placed(waves: seq<seq<Step>>, level: nat, step: Step): seq<seq<Step>> {
    if level < |waves| then waves[level := waves[level] + [step]] else waves + [[step]]
  }

  // Each wave lists its level's steps in that order.
  ghost predicate KeepsOrder(order: seq<Step>, waves: seq<seq<Step>>, level: map<string, nat>) {
    forall w | 0 <= w < |waves| :: waves[w] == AtLevel(order, level, w)
  }

  lemma {:induction false} LevelAbove(needs: seq<string>, depth: map<string, nat>)
    requires forall need | need in needs :: need in depth
    ensures forall need | need in needs :: depth[need] < LevelOf(needs, depth)
    ensures LevelOf(needs, depth) > 0 ==> exists need :: need in needs && depth[need] + 1 == LevelOf(needs, depth)
  {
    if needs != [] {
      var front, last := needs[..|needs| - 1], needs[|needs| - 1];
      assert needs == front + [last];
      LevelAbove(front, depth);
      assert last in needs;
    }
  }

  // Deepening steps that are not needed changes no level.
  lemma {:induction false} LevelFrame(needs: seq<string>, depth: map<string, nat>, depth': map<string, nat>)
    requires forall need | need in needs :: need in depth && need in depth' && depth'[need] == depth[need]
    ensures LevelOf(needs, depth') == LevelOf(needs, depth)
  {
    if needs != [] {
      assert needs == needs[..|needs| - 1] + [needs[|needs| - 1]];
      LevelFrame(needs[..|needs| - 1], depth, depth');
    }
  }

  lemma {:induction false} FlattenPush<T>(waves: seq<seq<T>>, w: nat, x: T)
    requires w < |waves|
    ensures multiset(Flatten(waves[w := waves[w] + [x]])) == multiset(Flatten(waves)) + multiset{x}
  {
    var waves' := waves[w := waves[w] + [x]];
    var front := waves[..|waves| - 1];
    if w == |waves| - 1 {
      assert waves'[..|waves| - 1] == front;
    } else {
      assert waves'[..|waves| - 1] == front[w := front[w] + [x]];
      FlattenPush(front, w, x);
    }
  }

  lemma FlattenNew<T>(waves: seq<seq<T>>, x: T)
    ensures multiset(Flatten(waves + [[x]])) == multiset(Flatten(waves)) + multiset{x}
  {
    assert (waves + [[x]])[..|waves|] == waves;
  }

  // ---- the method -------------------------------------------------------------------

  ghost predicate Bounded(depth: map<string, nat>, count: nat) {
    forall n | n in depth :: depth[n] < count
  }

  // What the layering loop has established for the first steps of the order.
  ghost predicate Layered(done: seq<Step>, waves: seq<seq<Step>>, depth: map<string, nat>) {
    && IsLevelling(done, depth) && IsLayering(done, waves, depth) && KeepsOrder(done, waves, depth)
    && Bounded(depth, |waves|)
  }

  // The layering loop, over steps in need order.
  method LayerSorted(ordered: seq<Step>) returns (waves: seq<seq<Step>>, depth: map<string, nat>)
    requires UniqueNames(ordered) && InNeedOrder(ordered)
    ensures Layered(ordered, waves, depth)
  {
    depth, waves := map[], [];
    NothingLayered();
    hide Layered, InNeedOrder, UniqueNames, LevelOf;
    for i := 0 to |ordered|
      invariant Layered(ordered[..i], waves, depth)
    {
      var step := ordered[i];
      var next := LevelOf(step.needs, depth);
      assert ordered[..i + 1] == ordered[..i] + [step];
      LayerStep(ordered, i, waves, depth);
      depth := depth[step.name := next];
      if next < |waves| {
        waves := waves[next := waves[next] + [step]];
      } else {
        waves := waves + [[step]];
      }
    }
    assert ordered[..|ordered|] == ordered;
  }

  // Sorts the plan, then layers what the sort gives.
  method PlanWaves(plan: seq<Step>)
    returns (r: Result<seq<seq<Step>>, PlanError>, ghost sorted: Result<seq<Step>, PlanError>, ghost level: map<string, nat>)
    ensures Sorts(plan, sorted) && (r.Ok? <==> sorted.Ok?) && (r.Err? ==> r.error == sorted.error)
    ensures r.Ok? ==>
      var order := sorted.value;
      IsLevelling(order, level) && IsLayering(order, r.value, level) && KeepsOrder(order, r.value, level)
    ensures r.Ok? ==> forall i | 0 <= i < |r.value| :: r.value[i] != []
  {
    level := map[];
    var ordered := TopoSort(plan);
    sorted := ordered;
    if ordered.Err? { return Err(ordered.error), ordered, level; }
    SelectionInOrder(plan, ordered.value);
    hide Sorts, IsLevelling, KeepsOrder, InNeedOrder, UniqueNames;
    var waves, depth := LayerSorted(ordered.value);
    return Ok(waves), ordered, depth;
  }

  lemma SelectionInOrder(plan: seq<Step>, order: seq<Step>)
    requires Sorts(plan, Ok(order))
    ensures UniqueNames(order) && InNeedOrder(order)
  {}

  lemma NothingLayered()
    ensures Layered([], [], map[])
  {}

  // Adding the next step of the order keeps the loop's invariant, and never leaves a gap.
  lemma LayerStep(ordered: seq<Step>, i: nat, waves: seq<seq<Step>>, depth: map<string, nat>)
    requires UniqueNames(ordered) && InNeedOrder(ordered) && i < |ordered| && Layered(ordered[..i], waves, depth)
    ensures var step := ordered[i]; var next := LevelOf(step.needs, depth);
      && next <= |waves|
      && Layered(ordered[..i] + [step], Placed(waves, next, step), depth[step.name := next])
  {
    var done, step := ordered[..i], ordered[i];
    hide IsLevelling, IsLayering, KeepsOrder, InNeedOrder, UniqueNames, LevelOf, Placed;
    LevelStep(ordered, i, depth);
    NoGap(step.needs, depth, |waves|);
    OrderStep(done, step, waves, depth, LevelOf(step.needs, depth));
    PlaceStep(done, step, waves, depth, LevelOf(step.needs, depth));
  }

  lemma NoGap(needs: seq<string>, depth: map<string, nat>, count: nat)
    requires (forall need | need in needs :: need in depth) && Bounded(depth, count)
    ensures LevelOf(needs, depth) <= count
  {
    LevelAbove(needs, depth);
  }

  lemma PlaceStep(done: seq<Step>, step: Step, waves: seq<seq<Step>>, depth: map<string, nat>, w: nat)
    requires IsLayering(done, waves, depth) && step.name !in depth && w <= |waves| && Bounded(depth, |waves|)
    ensures IsLayering(done + [step], Placed(waves, w, step), depth[step.name := w])
    ensures Bounded(depth[step.name := w], |Placed(waves, w, step)|)
  {
    hide IsLayering;
    if w < |waves| {
      PushStep(done, step, waves, depth, w);
    } else {
      NewWave(done, step, waves, depth);
    }
  }

  lemma {:induction false} AtLevelFrame(steps: seq<Step>, level: map<string, nat>, name: string, next: nat, w: nat)
    requires forall i | 0 <= i < |steps| :: steps[i].name != name
    ensures AtLevel(steps, level[name := next], w) == AtLevel(steps, level, w)
  {
    if steps != [] { AtLevelFrame(steps[..|steps| - 1], level, name, next, w); }
  }

  lemma {:induction false} NothingAtLevel(steps: seq<Step>, level: map<string, nat>, w: nat)
    requires forall i | 0 <= i < |steps| :: steps[i].name in level && level[steps[i].name] < w
    ensures AtLevel(steps, level, w) == []
  {
    if steps != [] { NothingAtLevel(steps[..|steps| - 1], level, w); }
  }

  lemma OrderStep(done: seq<Step>, step: Step, waves: seq<seq<Step>>, depth: map<string, nat>, next: nat)
    requires KeepsOrder(done, waves, depth) && next <= |waves| && step.name !in depth && IsLevelling(done, depth)
    requires Bounded(depth, |waves|)
    ensures KeepsOrder(done + [step], Placed(waves, next, step), depth[step.name := next])
  {
    var all, depth' := done + [step], depth[step.name := next];
    var waves' := Placed(waves, next, step);
    assert forall i | 0 <= i < |done| :: done[i].name in Names(done);
    assert all[..|done|] == done;
    if next == |waves| { NothingAtLevel(done, depth, next); }
    forall w | 0 <= w < |waves'| ensures waves'[w] == AtLevel(all, depth', w) {
      AtLevelFrame(done, depth, step.name, next, w);
    }
  }

  lemma LevelStep(ordered: seq<Step>, i: nat, depth: map<string, nat>)
    requires UniqueNames(ordered) && InNeedOrder(ordered) && i < |ordered| && IsLevelling(ordered[..i], depth)
    ensures var step := ordered[i];
      && step.name !in depth && (forall need | need in step.needs :: need in depth)
      && IsLevelling(ordered[..i] + [step], depth[step.name := LevelOf(step.needs, depth)])
  {
    var done, step := ordered[..i], ordered[i];
    var depth' := depth[step.name := LevelOf(step.needs, depth)];
    NamesSnoc(done, step);
    forall j | 0 <= j < i ensures done[j].name != step.name { assert ordered[j].name != ordered[i].name; }
    assert step.name !in Names(done);
    NeedsBefore(ordered, i, i);
    LevelFrame(step.needs, depth, depth');
    forall earlier | earlier in done
      ensures earlier.name in depth && depth'[earlier.name] == LevelOf(earlier.needs, depth')
    {
      EarlierLevel(ordered, i, depth, earlier);
    }
  }

  lemma EarlierLevel(ordered: seq<Step>, i: nat, depth: map<string, nat>, earlier: Step)
    requires UniqueNames(ordered) && InNeedOrder(ordered) && i < |ordered| && IsLevelling(ordered[..i], depth)
    requires earlier in ordered[..i]
    ensures var step := ordered[i];
      var depth' := depth[step.name := LevelOf(step.needs, depth)];
      earlier.name in depth && depth'[earlier.name] == LevelOf(earlier.needs, depth')
  {
    var step := ordered[i];
    var j :| 0 <= j < i && ordered[..i][j] == earlier;
    assert ordered[j].name != ordered[i].name;
    assert earlier.name in Names(ordered[..i]);
    NeedsBefore(ordered, j, i);
    LevelFrame(earlier.needs, depth, depth[step.name := LevelOf(step.needs, depth)]);
  }

  lemma PushStep(done: seq<Step>, step: Step, waves: seq<seq<Step>>, depth: map<string, nat>, w: nat)
    requires IsLayering(done, waves, depth) && step.name !in depth && w < |waves|
    ensures IsLayering(done + [step], waves[w := waves[w] + [step]], depth[step.name := w])
  {
    FlattenPush(waves, w, step);
  }

  lemma NewWave(done: seq<Step>, step: Step, waves: seq<seq<Step>>, depth: map<string, nat>)
    requires IsLayering(done, waves, depth) && step.name !in depth
    ensures IsLayering(done + [step], waves + [[step]], depth[step.name := |waves|])
  {
    FlattenNew(waves, step);
  }

  // The needs of step j are among the first i steps, and none of them is step i.
  lemma NeedsBefore(ordered: seq<Step>, j: nat, i: nat)
    requires UniqueNames(ordered) && InNeedOrder(ordered) && j <= i < |ordered|
    ensures forall need | need in ordered[j].needs :: need in Names(ordered[..i]) && need != ordered[i].name
  {
    forall need | need in ordered[j].needs ensures need in Names(ordered[..i]) && need != ordered[i].name {
      var k :| 0 <= k < j && ordered[..j][k].name == need;
      assert ordered[..i][k] == ordered[k];
    }
  }

  // ---- what a layering is worth -----------------------------------------------------

  lemma NeedIsBelow(plan: seq<Step>, level: map<string, nat>, from: string, to: string)
    requires NeedsKnown(plan) && IsLevelling(plan, level) && Edge(plan, from, to)
    ensures from in level && to in level && level[to] < level[from]
  {
    EdgeOf(plan, from, to);
    NamesOf(plan);
    var step :| step in plan && step.name == from && to in step.needs;
    LevelAbove(step.needs, level);
  }

  // Needs lie in strictly earlier waves.
  lemma NeedsInEarlierWaves(plan: seq<Step>, waves: seq<seq<Step>>, level: map<string, nat>, w: nat, w': nat, step: Step, need: Step)
    requires NeedsKnown(plan) && IsLevelling(plan, level) && IsLayering(plan, waves, level)
    requires w < |waves| && step in waves[w] && w' < |waves| && need in waves[w'] && need.name in step.needs
    ensures w' < w
  {
    InFlatten(waves, w, step);
    assert step in multiset(plan);
    EdgeOf(plan, step.name, need.name);
    NeedIsBelow(plan, level, step.name, need.name);
  }

  lemma {:induction false} InFlatten<T>(waves: seq<seq<T>>, w: nat, x: T)
    requires w < |waves| && x in waves[w]
    ensures x in Flatten(waves) && x in multiset(Flatten(waves))
  {
    if w < |waves| - 1 { InFlatten(waves[..|waves| - 1], w, x); }
  }

  // The level of a step is the length of its longest need chain: no chain is longer ...
  lemma {:induction false} ChainsAreShort(plan: seq<Step>, level: map<string, nat>, path: seq<string>)
    requires NeedsKnown(plan) && IsLevelling(plan, level) && path != [] && path[0] in level && Chain(plan, path)
    ensures |path| - 1 <= level[path[0]]
    decreases |path|
  {
    if |path| > 1 {
      assert Edge(plan, path[0], path[1]);
      NeedIsBelow(plan, level, path[0], path[1]);
      var rest := path[1..];
      forall k | 0 <= k < |rest| - 1 ensures Edge(plan, rest[k], rest[k + 1]) {
        assert Edge(plan, path[k + 1], path[k + 1 + 1]);
      }
      ChainsAreShort(plan, level, rest);
    }
  }

  // A step above the lowest level has a need one level below it.
  lemma DeepestNeed(plan: seq<Step>, level: map<string, nat>, name: string) returns (need: string)
    requires NeedsKnown(plan) && IsLevelling(plan, level) && name in level && level[name] > 0
    ensures Edge(plan, name, need) && need in level && level[need] + 1 == level[name]
  {
    NamesOf(plan);
    var step :| step in plan && step.name == name;
    LevelAbove(step.needs, level);
    need :| need in step.needs && level[need] + 1 == level[name];
    EdgeOf(plan, name, need);
  }

  // ... and one is that long. It also shows that nothing can be placed earlier: levels fall by
  // one along it, and any valid placement must fall by at least one.
  lemma {:induction false} LongestChain(plan: seq<Step>, level: map<string, nat>, name: string) returns (path: seq<string>)
    requires NeedsKnown(plan) && IsLevelling(plan, level) && name in level
    ensures |path| == level[name] + 1 && path[0] == name && Chain(plan, path)
    decreases level[name]
  {
    path := [name];
    if level[name] > 0 {
      var need := DeepestNeed(plan, level, name);
      var rest := LongestChain(plan, level, need);
      path := [name] + rest;
      forall k | 0 <= k < |path| - 1 ensures Edge(plan, path[k], path[k + 1]) {
        assert k > 0 ==> Edge(plan, rest[k - 1], rest[k - 1 + 1]);
      }
    }
  }

  // A placement of the steps in which every need comes strictly before its dependents.
  ghost predicate IsPlacement(plan: seq<Step>, place: map<string, nat>) {
    place.Keys == Names(plan) && forall from, to | Edge(plan, from, to) :: from in place && to in place && place[to] < place[from]
  }

  // No placement has any step earlier than its level.
  lemma {:induction false} NoEarlierPlacement(plan: seq<Step>, level: map<string, nat>, place: map<string, nat>, name: string)
    requires NeedsKnown(plan) && IsLevelling(plan, level) && IsPlacement(plan, place) && name in level
    ensures level[name] <= place[name]
    decreases level[name]
  {
    if level[name] > 0 {
      var need := DeepestNeed(plan, level, name);
      hide Edge, IsLevelling, NeedsKnown;
      NoEarlierPlacement(plan, level, place, need);
    }
  }

  lemma LevelsArePlacement(plan: seq<Step>, level: map<string, nat>)
    requires NeedsKnown(plan) && IsLevelling(plan, level)
    ensures IsPlacement(plan, level)
  {
    forall from, to | Edge(plan, from, to) ensures from in level && to in level && level[to] < level[from] {
      NeedIsBelow(plan, level, from, to);
    }
  }

  // Running the waves one after the other is a topological order.
  lemma {:induction false} WavesInNeedOrder(plan: seq<Step>, waves: seq<seq<Step>>, level: map<string, nat>)
    requires NeedsKnown(plan) && IsLevelling(plan, level) && IsLayering(plan, waves, level)
    ensures IsTopologicalOrder(Flatten(waves), plan)
  {
    var order := Flatten(waves);
    SameElements(order, plan);
    NamesOf(order);
    forall i | 0 <= i < |order| ensures forall need | need in order[i].needs :: need in Names(order[..i]) {
      forall need | need in order[i].needs ensures need in Names(order[..i]) {
        assert order[i] in plan && need in Names(order);
        var j :| 0 <= j < |order| && order[j].name == need;
        EdgeOf(plan, order[i].name, need);
        NeedIsBelow(plan, level, order[i].name, need);
        if j >= i { FlattenSorted(waves, level, i, j); }
        assert order[..i][j] == order[j];
      }
    }
  }

  // Levels never fall along the flattened waves.
  lemma {:induction false} FlattenSorted(waves: seq<seq<Step>>, level: map<string, nat>, i: nat, j: nat)
    requires forall w | 0 <= w < |waves| :: forall step | step in waves[w] :: step.name in level && level[step.name] == w
    requires i <= j < |Flatten(waves)|
    ensures var order := Flatten(waves);
      && order[i].name in level && order[j].name in level
      && level[order[i].name] <= level[order[j].name] < |waves|
  {
    var front := waves[..|waves| - 1];
    var n := |Flatten(front)|;
    if j < n {
      FlattenSorted(front, level, i, j);
    } else {
      assert Flatten(waves)[j] in waves[|waves| - 1];
      if i < n { FlattenSorted(front, level, i, i); } else { assert Flatten(waves)[i] in waves[|waves| - 1]; }
    }
  }
}
