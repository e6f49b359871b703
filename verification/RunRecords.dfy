// ci/record.ts: recording a CI run under replays. The workflow may call startRun for the same
// instance again and again, also while earlier calls are still under way; each database statement
// is one step, and the steps of all calls interleave freely.
module RunRecords {
  import opened Wrappers

  datatype Repo = Repo(ciEnabled: bool, nextRunNumber: nat)

  // A row of ci_runs.
  datatype Row = Row(id: string, repoId: string, number: nat, instance: string)

  datatype StartedRun = StartedRun(runId: string, repoId: string, number: nat)

  // Where one call of startRun is.
  datatype Phase =
    | Called
    | RepoFound(repoId: string)
    | Unrecorded(repoId: string)               // no row for the instance yet
    | Numbered(repoId: string, number: nat)    // the counter gave it a number
    | Inserted(repoId: string)
    | Returned(result: Option<StartedRun>)
    | Crashed                                  // a constraint was violated

  datatype Call = Call(artifactsName: string, instance: string, phase: Phase)

  // repoIds is the artifacts_name column; calls are the calls of startRun so far, by id.
  datatype Database = Database(repoIds: map<string, string>, repos: map<string, Repo>, rows: seq<Row>, calls: map<nat, Call>)

  datatype Action =
    | Start(call: nat, artifactsName: string, instance: string)
    | Next(call: nat, uuid: string)            // the call's next statement; uuid is the run id it would use
    | OtherClaim(repoId: string)               // someone else takes a number
    | SetEnabled(repoId: string, ciEnabled: bool)

  // ---- statements -------------------------------------------------------------------

  // The row of an instance.
  function Find(rows: seq<Row>, instance: string): Option<Row> {
    if rows == [] then None
    else if rows[0].instance == instance then Some(rows[0]) else Find(rows[1..], instance)
  }

  // An insert that yields to a row of the same instance; None if another unique index fails.
  function Insert(rows: seq<Row>, row: Row): Option<seq<Row>> {
    if Find(rows, row.instance).Some? then Some(rows)
    else if exists r | r in rows :: r.id == row.id || (r.repoId == row.repoId && r.number == row.number) then None
    else Some(rows + [row])
  }

  function At(db: Database, call: nat, phase: Phase): Database
    requires call in db.calls
  {
    db.(calls := db.calls[call := db.calls[call].(phase := phase)])
  }

  function Claim(db: Database, repoId: string): Database {
    if repoId in db.repos
    then db.(repos := db.repos[repoId := db.repos[repoId].(nextRunNumber := db.repos[repoId].nextRunNumber + 1)])
    else db
  }

  function Step(db: Database, a: Action): Database {
    match a
    case Start(call, name, instance) =>
      if call in db.calls then db else db.(calls := db.calls[call := Call(name, instance, Called)])
    case Next(call, uuid) => if call in db.calls then Advance(db, call, uuid) else db
    case OtherClaim(repoId) => Claim(db, repoId)
    case SetEnabled(repoId, ciEnabled) =>
      if repoId in db.repos then db.(repos := db.repos[repoId := db.repos[repoId].(ciEnabled := ciEnabled)]) else db
  }

  function Advance(db: Database, call: nat, uuid: string): Database
    requires call in db.calls
  {
    var c := db.calls[call];
    match c.phase
    case Called =>
      if c.artifactsName in db.repoIds && db.repoIds[c.artifactsName] in db.repos && db.repos[db.repoIds[c.artifactsName]].ciEnabled
      then At(db, call, RepoFound(db.repoIds[c.artifactsName]))
      else At(db, call, Returned(None))
    case RepoFound(repoId) =>
      (match Find(db.rows, c.instance)
       case Some(row) => At(db, call, Returned(Some(StartedRun(row.id, repoId, row.number))))
       case None => At(db, call, Unrecorded(repoId)))
    case Unrecorded(repoId) =>
      At(Claim(db, repoId), call, Numbered(repoId, if repoId in db.repos then db.repos[repoId].nextRunNumber else 1))
    case Numbered(repoId, number) =>
      (match Insert(db.rows, Row(uuid, repoId, number, c.instance))
       case Some(rows) => At(db.(rows := rows), call, Inserted(repoId))
       case None => At(db, call, Crashed))
    case Inserted(repoId) =>
      // The row found may be another call's: then this insert added none.
      (match Find(db.rows, c.instance)
       case Some(row) => At(db, call, Returned(Some(StartedRun(row.id, repoId, row.number))))
       case None => At(db, call, Returned(None)))
    case _ => db
  }

  function Run(db: Database, actions: seq<Action>): Database {
    if actions == [] then db else Step(Run(db, actions[..|actions| - 1]), actions[|actions| - 1])
  }

  // ---- invariant --------------------------------------------------------------------

  ghost predicate Below(db: Database, repoId: string, number: nat) {
    repoId in db.repos && number < db.repos[repoId].nextRunNumber
  }

  // Rows differ in id, in instance and in number within a repo, and numbers are below the counter.
  ghost predicate RowsValid(db: Database) {
    && (forall i, j | 0 <= i < j < |db.rows| ::
          && db.rows[i].id != db.rows[j].id && db.rows[i].instance != db.rows[j].instance
          && (db.rows[i].repoId == db.rows[j].repoId ==> db.rows[i].number != db.rows[j].number))
    && forall row | row in db.rows :: Below(db, row.repoId, row.number)
  }

  // A number that a call holds is nobody else's: not in a row, not in another call's hands.
  ghost predicate HoldsNumber(db: Database, call: nat) {
    call in db.calls && db.calls[call].phase.Numbered? ==>
      var p := db.calls[call].phase;
      && Below(db, p.repoId, p.number)
      && (forall row | row in db.rows :: row.repoId == p.repoId ==> row.number != p.number)
      && (forall other | other in db.calls && other != call && db.calls[other].phase.Numbered? ::
            db.calls[other].phase.repoId == p.repoId ==> db.calls[other].phase.number != p.number)
  }

  // A call past its insert has a row; one that returned a run returned that row's.
  ghost predicate Consistent(db: Database, call: nat) {
    call in db.calls ==>
      var c := db.calls[call];
      && !c.phase.Crashed?
      && (c.phase.RepoFound? ==> c.phase.repoId in db.repos)
      && (c.phase.Unrecorded? ==> c.phase.repoId in db.repos)
      && (c.phase.Inserted? ==> Find(db.rows, c.instance).Some?)
      && (c.phase.Returned? && c.phase.result.Some? ==>
            var row := Find(db.rows, c.instance);
            row.Some? && row.value.id == c.phase.result.value.runId && row.value.number == c.phase.result.value.number)
  }

  ghost predicate Valid(db: Database) {
    && RowsValid(db)
    && (forall call | call in db.calls :: HoldsNumber(db, call))
    && (forall call | call in db.calls :: Consistent(db, call))
  }

  // The run ids drawn are fresh: crypto.randomUUID does not repeat.
  ghost predicate FreshId(db: Database, a: Action) {
    a.Next? ==> forall row | row in db.rows :: row.id != a.uuid
  }

  lemma {:induction false} FindIn(rows: seq<Row>, instance: string)
    ensures Find(rows, instance).Some? ==> Find(rows, instance).value in rows && Find(rows, instance).value.instance == instance
    ensures Find(rows, instance).None? <==> forall row | row in rows :: row.instance != instance
  {
    if rows != [] { FindIn(rows[1..], instance); }
  }

  lemma {:induction false} FindGrows(rows: seq<Row>, row: Row, instance: string)
    ensures Find(rows, instance).Some? ==> Find(rows + [row], instance) == Find(rows, instance)
    ensures Find(rows, instance).None? && row.instance == instance ==> Find(rows + [row], instance) == Some(row)
  {
    if rows != [] {
      assert (rows + [row])[1..] == rows[1..] + [row];
      FindGrows(rows[1..], row, instance);
    }
  }

  // ---- every step keeps it ----------------------------------------------------------

  // A call moves on without taking a number.
  lemma {:induction false} MoveOn(db: Database, call: nat, phase: Phase)
    requires Valid(db) && call in db.calls && !phase.Numbered? && Consistent(At(db, call, phase), call)
    ensures Valid(At(db, call, phase))
  {
    hide RowsValid;
    var db' := At(db, call, phase);
    assert RowsValid(db') by { SameRows(db, db'); }
    forall other | other in db'.calls ensures HoldsNumber(db', other) && Consistent(db', other) {
      assert HoldsNumber(db, other) && Consistent(db, other);
    }
  }

  lemma SameRows(db: Database, db': Database)
    requires RowsValid(db) && db'.rows == db.rows
    requires forall r | r in db.repos :: r in db'.repos && db.repos[r].nextRunNumber <= db'.repos[r].nextRunNumber
    ensures RowsValid(db')
  {
    forall row | row in db'.rows ensures Below(db', row.repoId, row.number) {
      assert Below(db, row.repoId, row.number);
    }
  }

  lemma {:induction false} ClaimKeeps(db: Database, repoId: string)
    requires Valid(db)
    ensures Valid(Claim(db, repoId))
  {
    hide RowsValid;
    var db' := Claim(db, repoId);
    SameRows(db, db');
    forall call | call in db'.calls ensures HoldsNumber(db', call) && Consistent(db', call) {
      assert HoldsNumber(db, call) && Consistent(db, call);
    }
  }

  // Taking a number: the counter's old value is above every number in use.
  lemma {:induction false} TakeNumber(db: Database, call: nat, repoId: string)
    requires Valid(db) && call in db.calls && repoId in db.repos
    ensures Valid(At(Claim(db, repoId), call, Numbered(repoId, db.repos[repoId].nextRunNumber)))
  {
    ClaimKeeps(db, repoId);
    var number := db.repos[repoId].nextRunNumber;
    forall row | row in db.rows ensures row.repoId == repoId ==> row.number != number {
      assert Below(db, row.repoId, row.number);
    }
    var db1 := Claim(db, repoId);
    var db' := At(db1, call, Numbered(repoId, number));
    SameRows(db1, db');
    hide RowsValid;
    forall other | other in db'.calls ensures HoldsNumber(db', other) && Consistent(db', other) {
      assert HoldsNumber(db, other) && Consistent(db1, other) && HoldsNumber(db1, other);
    }
  }

  // The insert with a held number cannot violate an index.
  lemma {:induction false} InsertSucceeds(db: Database, call: nat, uuid: string)
    requires Valid(db) && FreshId(db, Next(call, uuid)) && call in db.calls && db.calls[call].phase.Numbered?
    ensures var c := db.calls[call];
      Insert(db.rows, Row(uuid, c.phase.repoId, c.phase.number, c.instance)) ==
        Some(if Find(db.rows, c.instance).Some? then db.rows else db.rows + [Row(uuid, c.phase.repoId, c.phase.number, c.instance)])
  {
    assert HoldsNumber(db, call);
  }

  // The unique indexes: no two rows with an id, or with an instance, or with a number of one repo.
  ghost predicate Indexed(rows: seq<Row>) {
    forall i, j | 0 <= i < j < |rows| ::
      && rows[i].id != rows[j].id && rows[i].instance != rows[j].instance
      && !(rows[i].repoId == rows[j].repoId && rows[i].number == rows[j].number)
  }

  // An insert adds its row exactly if the indexes allow it, and fails exactly if an index other than
  // the instance's does not.
  lemma {:induction false} InsertIff(rows: seq<Row>, row: Row)
    requires Indexed(rows)
    ensures match Insert(rows, row)
      case Some(rows') => Indexed(rows') && rows' == if Indexed(rows + [row]) then rows + [row] else rows
      case None => !Indexed(rows + [row]) && forall r | r in rows :: r.instance != row.instance
    ensures (exists r | r in rows :: r.instance == row.instance) ==> Insert(rows, row) == Some(rows)
  {
    FindIn(rows, row.instance);
    var all := rows + [row];
    assert all[|rows|] == row && forall i | 0 <= i < |rows| :: all[i] == rows[i];
    if Insert(rows, row).None? || Find(rows, row.instance).Some? {
      var r :| r in rows && (r.instance == row.instance || r.id == row.id || (r.repoId == row.repoId && r.number == row.number));
      var i :| 0 <= i < |rows| && rows[i] == r;
      assert all[i] == r && !Indexed(all);
    }
  }

  lemma {:induction false} AddRow(db: Database, call: nat, uuid: string)
    requires Valid(db) && FreshId(db, Next(call, uuid)) && call in db.calls && db.calls[call].phase.Numbered?
    requires Find(db.rows, db.calls[call].instance).None?
    ensures var c := db.calls[call]; var p := c.phase;
      Valid(At(db.(rows := db.rows + [Row(uuid, p.repoId, p.number, c.instance)]), call, Inserted(p.repoId)))
  {
    var c := db.calls[call];
    var p := c.phase;
    var row := Row(uuid, p.repoId, p.number, c.instance);
    var db' := At(db.(rows := db.rows + [row]), call, Inserted(p.repoId));
    assert HoldsNumber(db, call);
    FindIn(db.rows, c.instance);
    NewRowValid(db, db', row);
    hide RowsValid, Find;
    forall other | other in db'.calls ensures HoldsNumber(db', other) { OthersHold(db, call, row, other); }
    forall other | other in db'.calls ensures Consistent(db', other) {
      assert Consistent(db, other);
      FindGrows(db.rows, row, db.calls[other].instance);
    }
  }

  // The numbers that other calls hold are not the new row's.
  lemma OthersHold(db: Database, call: nat, row: Row, other: nat)
    requires call in db.calls && HoldsNumber(db, call) && HoldsNumber(db, other) && db.calls[call].phase.Numbered?
    requires row.repoId == db.calls[call].phase.repoId && row.number == db.calls[call].phase.number
    ensures HoldsNumber(At(db.(rows := db.rows + [row]), call, Inserted(row.repoId)), other)
  {}

  lemma {:induction false} NewRowValid(db: Database, db': Database, row: Row)
    requires RowsValid(db) && Below(db, row.repoId, row.number) && db'.rows == db.rows + [row] && db'.repos == db.repos
    requires forall r | r in db.rows :: r.id != row.id && r.instance != row.instance
    requires forall r | r in db.rows :: r.repoId == row.repoId ==> r.number != row.number
    ensures RowsValid(db')
  {
    forall r | r in db'.rows ensures Below(db', r.repoId, r.number) {
      if r != row { assert Below(db, r.repoId, r.number); }
    }
  }

  lemma {:induction false} AdvanceKeeps(db: Database, call: nat, uuid: string)
    requires Valid(db) && FreshId(db, Next(call, uuid)) && call in db.calls
    ensures Valid(Advance(db, call, uuid))
  {
    var c := db.calls[call];
    assert Consistent(db, call);
    FindIn(db.rows, c.instance);
    match c.phase {
      case Unrecorded(repoId) => TakeNumber(db, call, repoId);
      case Numbered(repoId, number) =>
        InsertSucceeds(db, call, uuid);
        if Find(db.rows, c.instance).Some? {
          MoveOn(db, call, Inserted(repoId));
          assert db.(rows := db.rows) == db;
        } else {
          AddRow(db, call, uuid);
        }
      case Called => MoveOn(db, call, Advance(db, call, uuid).calls[call].phase);
      case RepoFound(_) => MoveOn(db, call, Advance(db, call, uuid).calls[call].phase);
      case Inserted(_) => MoveOn(db, call, Advance(db, call, uuid).calls[call].phase);
      case Returned(_) =>
      case Crashed =>
    }
  }

  lemma {:induction false} StepKeeps(db: Database, a: Action)
    requires Valid(db) && FreshId(db, a)
    ensures Valid(Step(db, a))
  {
    hide Advance, Claim;
    match a
    case Start(call, name, instance) =>
      if call !in db.calls {
        var db' := Step(db, a);
        SameRows(db, db');
        forall other | other in db'.calls ensures HoldsNumber(db', other) && Consistent(db', other) {
          assert HoldsNumber(db, other) && Consistent(db, other);
        }
      }
    case Next(call, uuid) => if call in db.calls { AdvanceKeeps(db, call, uuid); }
    case OtherClaim(repoId) => ClaimKeeps(db, repoId);
    case SetEnabled(repoId, ciEnabled) =>
      var db' := Step(db, a);
      SameRows(db, db');
      forall other | other in db'.calls ensures HoldsNumber(db', other) && Consistent(db', other) {
        assert HoldsNumber(db, other) && Consistent(db, other);
      }
  }

  ghost predicate FreshIds(db: Database, actions: seq<Action>) {
    forall i | 0 <= i < |actions| :: FreshId(Run(db, actions[..i]), actions[i])
  }

  lemma FreshPrefix(db: Database, actions: seq<Action>)
    requires actions != [] && FreshIds(db, actions)
    ensures FreshIds(db, actions[..|actions| - 1]) && FreshId(Run(db, actions[..|actions| - 1]), actions[|actions| - 1])
  {
    var front := actions[..|actions| - 1];
    forall i | 0 <= i < |front| ensures FreshId(Run(db, front[..i]), front[i]) {
      assert front[..i] == actions[..i] && FreshId(Run(db, actions[..i]), actions[i]);
    }
  }

  lemma {:induction false} RunKeeps(db: Database, actions: seq<Action>)
    requires Valid(db) && FreshIds(db, actions)
    ensures Valid(Run(db, actions))
  {
    if actions != [] {
      FreshPrefix(db, actions);
      RunKeeps(db, actions[..|actions| - 1]);
      StepKeeps(Run(db, actions[..|actions| - 1]), actions[|actions| - 1]);
    }
  }

  // ---- what that means for callers --------------------------------------------------

  // However calls interleave and replay: one row per instance, no number twice in a repo, no call
  // fails on an index, and every call that returns a run for an instance returns the same one,
  // the one recorded.
  lemma {:induction false} ReplaySafe(db: Database, actions: seq<Action>, a: nat, b: nat)
    requires Valid(db) && FreshIds(db, actions)
    ensures var t := Run(db, actions);
      && (forall i, j | 0 <= i < j < |t.rows| :: t.rows[i].instance != t.rows[j].instance
            && (t.rows[i].repoId == t.rows[j].repoId ==> t.rows[i].number != t.rows[j].number))
      && (forall row | row in t.rows :: row.repoId in t.repos && row.number < t.repos[row.repoId].nextRunNumber)
      && (a in t.calls ==> !t.calls[a].phase.Crashed?)
      && (a in t.calls && b in t.calls && t.calls[a].instance == t.calls[b].instance
          && t.calls[a].phase.Returned? && t.calls[a].phase.result.Some?
          && t.calls[b].phase.Returned? && t.calls[b].phase.result.Some? ==>
            t.calls[a].phase.result.value.runId == t.calls[b].phase.result.value.runId
            && t.calls[a].phase.result.value.number == t.calls[b].phase.result.value.number
            && exists row | row in t.rows :: row.instance == t.calls[a].instance
                 && row.id == t.calls[a].phase.result.value.runId && row.number == t.calls[a].phase.result.value.number)
  {
    RunKeeps(db, actions);
    var t := Run(db, actions);
    forall row | row in t.rows ensures row.repoId in t.repos && row.number < t.repos[row.repoId].nextRunNumber {
      assert Below(t, row.repoId, row.number);
    }
    if a in t.calls {
      assert Consistent(t, a);
      FindIn(t.rows, t.calls[a].instance);
    }
    if b in t.calls { assert Consistent(t, b); }
  }

  // A call that has not looked for its row yet, and whose row is there to be found.
  ghost predicate WillFind(db: Database, call: nat) {
    call in db.calls
    && (db.calls[call].phase.Called? || db.calls[call].phase.RepoFound? || db.calls[call].phase.Returned?)
    && Find(db.rows, db.calls[call].instance).Some?
  }

  lemma {:induction false} StillFinds(db: Database, a: Action, call: nat)
    requires WillFind(db, call)
    ensures WillFind(Step(db, a), call)
    ensures a.Next? && a.call == call ==> Step(db, a).repos == db.repos && Step(db, a).rows == db.rows
  {
    if a.Next? && a.call in db.calls {
      AdvanceFinds(db, a.call, a.uuid, call);
    } else {
      hide Find, Advance;
    }
  }

  lemma {:induction false} AdvanceFinds(db: Database, moving: nat, uuid: string, call: nat)
    requires WillFind(db, call) && moving in db.calls
    ensures WillFind(Advance(db, moving, uuid), call)
    ensures moving == call ==> Advance(db, moving, uuid).repos == db.repos && Advance(db, moving, uuid).rows == db.rows
  {
    hide Find;
    if moving == call {
      hide Insert, Claim;
    } else {
      RowsStay(db, moving, uuid, db.calls[call].instance);
      OthersStay(db, moving, uuid, call);
      hide Advance;
    }
  }

  lemma RowsStay(db: Database, moving: nat, uuid: string, instance: string)
    requires moving in db.calls && Find(db.rows, instance).Some?
    ensures Find(Advance(db, moving, uuid).rows, instance).Some?
  {
    hide Find;
    var c := db.calls[moving];
    if c.phase.Numbered? { FindGrows(db.rows, Row(uuid, c.phase.repoId, c.phase.number, c.instance), instance); }
  }

  lemma OthersStay(db: Database, moving: nat, uuid: string, call: nat)
    requires moving in db.calls && call in db.calls && moving != call
    ensures call in Advance(db, moving, uuid).calls && Advance(db, moving, uuid).calls[call] == db.calls[call]
  {
    hide Find, Insert;
  }

  // A replay that starts after the run was recorded never takes a number: through the rest of any
  // run its statements change neither a counter nor a row.
  lemma {:induction false} ReplayTakesNoNumber(db: Database, actions: seq<Action>, call: nat)
    requires WillFind(db, call)
    ensures WillFind(Run(db, actions), call)
    ensures forall uuid :: Step(Run(db, actions), Next(call, uuid)).repos == Run(db, actions).repos
                        && Step(Run(db, actions), Next(call, uuid)).rows == Run(db, actions).rows
  {
    if actions != [] {
      ReplayTakesNoNumber(db, actions[..|actions| - 1], call);
      StillFinds(Run(db, actions[..|actions| - 1]), actions[|actions| - 1], call);
    }
    forall uuid
      ensures Step(Run(db, actions), Next(call, uuid)).repos == Run(db, actions).repos
           && Step(Run(db, actions), Next(call, uuid)).rows == Run(db, actions).rows
    {
      StillFinds(Run(db, actions), Next(call, uuid), call);
    }
  }

  // ---- every call gets its answer ---------------------------------------------------

  // The name has a repo with CI turned on.
  predicate Enabled(db: Database, name: string) {
    name in db.repoIds && db.repoIds[name] in db.repos && db.repos[db.repoIds[name]].ciEnabled
  }

  // Action i is the call's lookup of its repo.
  ghost predicate LooksUp(db: Database, actions: seq<Action>, i: int, call: nat) {
    && 0 <= i < |actions| && actions[i].Next? && actions[i].call == call
    && var at := Run(db, actions[..i]);
    call in at.calls && at.calls[call].phase.Called?
  }

  // How often a call moves on.
  function Turns(actions: seq<Action>, call: nat): nat {
    if actions == [] then 0
    else Turns(actions[..|actions| - 1], call) + if actions[|actions| - 1].Next? && actions[|actions| - 1].call == call then 1 else 0
  }

  // Where a call that found its repo can be after so many turns.
  predicate GoesOn(phase: Phase, repoId: string, turns: nat) {
    match phase
    case Called => false
    case RepoFound(r) => r == repoId && turns <= 1
    case Unrecorded(r) => r == repoId && turns <= 2
    case Numbered(r, _) => r == repoId && turns <= 3
    case Inserted(r) => r == repoId && turns <= 4
    case Returned(result) => result.Some? && result.value.repoId == repoId
    case Crashed => false
  }

  // Where a call is that looked its repo up in the database at.
  ghost predicate OnCourse(at: Database, t: Database, call: nat, turns: nat) {
    && call in at.calls && call in t.calls
    && t.calls[call].artifactsName == at.calls[call].artifactsName && t.calls[call].instance == at.calls[call].instance
    && var name := at.calls[call].artifactsName;
    if Enabled(at, name) then GoesOn(t.calls[call].phase, at.repoIds[name], turns)
    else t.calls[call].phase == Returned(None)
  }

  lemma {:induction false} OnCourseStep(at: Database, t: Database, call: nat, turns: nat, a: Action)
    requires Valid(t) && FreshId(t, a) && OnCourse(at, t, call, turns)
    ensures OnCourse(at, Step(t, a), call, turns + if a.Next? && a.call == call then 1 else 0)
  {
    if a.Next? && a.call in t.calls {
      if a.call == call {
        OnCourseAdvance(at, t, call, turns, a.uuid);
      } else {
        OthersStay(t, a.call, a.uuid, call);
        hide Advance, Valid, Enabled;
      }
    } else {
      hide Advance, Valid, Enabled;
    }
  }

  lemma {:induction false} OnCourseAdvance(at: Database, t: Database, call: nat, turns: nat, uuid: string)
    requires Valid(t) && FreshId(t, Next(call, uuid)) && OnCourse(at, t, call, turns)
    ensures OnCourse(at, Advance(t, call, uuid), call, turns + 1)
  {
    SameNames(t, call, uuid);
    PhaseGoesOn(t, call, uuid);
    hide Advance, Valid, Enabled, FreshId;
  }

  lemma SameNames(db: Database, call: nat, uuid: string)
    requires call in db.calls
    ensures var db' := Advance(db, call, uuid);
      && call in db'.calls && db'.calls[call].artifactsName == db.calls[call].artifactsName
      && db'.calls[call].instance == db.calls[call].instance
  {
    hide Find, Insert;
  }

  // Past its lookup a call goes on to the next phase, for the same repo, until it returns a run.
  lemma PhaseGoesOn(db: Database, call: nat, uuid: string)
    requires Valid(db) && FreshId(db, Next(call, uuid)) && call in db.calls
    ensures call in Advance(db, call, uuid).calls
    ensures var phase, next := db.calls[call].phase, Advance(db, call, uuid).calls[call].phase;
      match phase
      case Called => true
      case RepoFound(r) => next == Unrecorded(r) || (next.Returned? && next.result.Some? && next.result.value.repoId == r)
      case Unrecorded(r) => next.Numbered? && next.repoId == r
      case Numbered(r, _) => next == Inserted(r)
      case Inserted(r) => next.Returned? && next.result.Some? && next.result.value.repoId == r
      case _ => next == phase
  {
    assert Consistent(db, call);
    if db.calls[call].phase.Numbered? { InsertSucceeds(db, call, uuid); }
    hide Find, Insert, RowsValid, HoldsNumber, Consistent, Claim;
  }

  lemma {:induction false} TakesItsCourse(db: Database, actions: seq<Action>, i: int, call: nat)
    requires Valid(db) && FreshIds(db, actions) && LooksUp(db, actions, i, call)
    ensures OnCourse(Run(db, actions[..i]), Run(db, actions), call, Turns(actions[i..], call))
  {
    hide Valid, FreshIds, FreshId, OnCourse, Step;
    var front, at := actions[..|actions| - 1], Run(db, actions[..i]);
    FreshPrefix(db, actions);
    RunKeeps(db, front);
    TurnsMore(actions, i, call);
    if i == |actions| - 1 {
      LookupStep(at, actions[i], call);
    } else {
      assert front[..i] == actions[..i];
      TakesItsCourse(db, front, i, call);
      OnCourseStep(at, Run(db, front), call, Turns(front[i..], call), actions[|actions| - 1]);
    }
  }

  lemma TurnsMore(actions: seq<Action>, i: int, call: nat)
    requires 0 <= i < |actions|
    ensures var last := actions[|actions| - 1];
      Turns(actions[i..], call) == Turns(actions[..|actions| - 1][i..], call) + if last.Next? && last.call == call then 1 else 0
    ensures i == |actions| - 1 ==> Turns(actions[..|actions| - 1][i..], call) == 0
  {
    var rest := actions[i..];
    assert rest[..|rest| - 1] == actions[..|actions| - 1][i..] && rest[|rest| - 1] == actions[|actions| - 1];
  }

  lemma LookupStep(at: Database, a: Action, call: nat)
    requires a.Next? && a.call == call && call in at.calls && at.calls[call].phase.Called?
    ensures OnCourse(at, Step(at, a), call, 1)
  {}

  // A call whose lookup finds a repo with CI on returns a run of that repo within five statements,
  // however the calls interleave: the one recorded for its instance. Any other call returns none.
  lemma {:induction false} AnswersIff(db: Database, actions: seq<Action>, i: int, call: nat)
    requires Valid(db) && FreshIds(db, actions) && LooksUp(db, actions, i, call)
    ensures call in Run(db, actions).calls
    ensures var at, t := Run(db, actions[..i]), Run(db, actions);
      var c, name := t.calls[call], at.calls[call].artifactsName;
      && (c.phase == Returned(None) <==> !(name in at.repoIds && at.repoIds[name] in at.repos && at.repos[at.repoIds[name]].ciEnabled))
      && (Turns(actions[i..], call) >= 5 ==> c.phase.Returned?)
      && (c.phase.Returned? && c.phase.result.Some? ==>
          && c.phase.result.value.repoId == at.repoIds[name]
          && exists row | row in t.rows :: row.instance == at.calls[call].instance
               && row.id == c.phase.result.value.runId && row.number == c.phase.result.value.number)
  {
    TakesItsCourse(db, actions, i, call);
    RunKeeps(db, actions);
    var t := Run(db, actions);
    assert Consistent(t, call);
    FindIn(t.rows, t.calls[call].instance);
    hide Run, Turns, FreshIds, Find, RowsValid, HoldsNumber;
  }

  // A call runs under the name and for the instance it was started with, and has looked its repo up
  // unless it has just been started.
  lemma {:induction false} HasLookedUp(db: Database, actions: seq<Action>, call: nat) returns (j: int, i: int)
    requires call !in db.calls && call in Run(db, actions).calls
    ensures var c := Run(db, actions).calls[call];
      && 0 <= j < |actions| && actions[j] == Start(call, c.artifactsName, c.instance)
      && (forall k | 0 <= k < j :: !(actions[k].Start? && actions[k].call == call))
      && (!c.phase.Called? ==> j < i && LooksUp(db, actions, i, call))
  {
    var n := |actions| - 1;
    assert n >= 0;
    var front, a := actions[..n], actions[n];
    var before := Run(db, front);
    if call in before.calls {
      j, i := HasLookedUp(db, front, call);
      SameCall(before, a, call);
      hide Step, Run;
      if before.calls[call].phase.Called? { i := n; } else { assert front[..i] == actions[..i]; }
    } else {
      NotStarted(db, front, call);
      Begins(before, a, call);
      hide Step, Run;
      j, i := n, n;
    }
  }

  lemma Begins(db: Database, a: Action, call: nat)
    requires call !in db.calls && call in Step(db, a).calls
    ensures Step(db, a).calls[call].phase.Called?
    ensures a == Start(call, Step(db, a).calls[call].artifactsName, Step(db, a).calls[call].instance)
  {
    hide Find, Insert;
  }

  // A call keeps its name and instance, and only its own turns move it.
  lemma SameCall(db: Database, a: Action, call: nat)
    requires call in db.calls
    ensures var db' := Step(db, a);
      && call in db'.calls && db'.calls[call].artifactsName == db.calls[call].artifactsName
      && db'.calls[call].instance == db.calls[call].instance
      && ((a.Next? && a.call == call) || db'.calls[call] == db.calls[call])
  {
    if a.Next? && a.call in db.calls && a.call != call { OthersStay(db, a.call, a.uuid, call); }
    hide Find, Insert;
  }

  lemma {:induction false} NotStarted(db: Database, actions: seq<Action>, call: nat)
    requires call !in Run(db, actions).calls
    ensures forall k | 0 <= k < |actions| :: !(actions[k].Start? && actions[k].call == call)
  {
    if actions != [] {
      var front := actions[..|actions| - 1];
      if call in Run(db, front).calls { SameCall(Run(db, front), actions[|actions| - 1], call); }
      NotStarted(db, front, call);
      hide Advance;
    }
  }

  // ---- calls that nothing disturbs --------------------------------------------------

  // A call's statements, one after the other.
  function Whole(call: nat, name: string, instance: string, uuid: string): seq<Action> {
    var next := Next(call, uuid);
    [Start(call, name, instance)] + [next] + [next] + [next] + [next] + [next]
  }

  lemma RunWhole(db: Database, call: nat, name: string, instance: string, uuid: string)
    ensures var next := Next(call, uuid);
      Run(db, Whole(call, name, instance, uuid)) ==
        Step(Step(Step(Step(Step(Step(db, Start(call, name, instance)), next), next), next), next), next)
  {
    hide Step;
    var start, next := Start(call, name, instance), Next(call, uuid);
    assert [] + [start] == [start];
    RunSnoc(db, [], start);
    RunSnoc(db, [start], next);
    RunSnoc(db, [start] + [next], next);
    RunSnoc(db, [start] + [next] + [next], next);
    RunSnoc(db, [start] + [next] + [next] + [next], next);
    RunSnoc(db, [start] + [next] + [next] + [next] + [next], next);
  }

  lemma RunSnoc(db: Database, actions: seq<Action>, a: Action)
    ensures Run(db, actions + [a]) == Step(Run(db, actions), a)
  {
    hide Step;
    assert (actions + [a])[..|actions|] == actions;
  }

  // The first call for an instance, left alone, records a run under the counter's number and
  // returns it.
  lemma {:induction false} FirstRunAlone(db: Database, call: nat, name: string, instance: string, uuid: string)
    requires Valid(db) && call !in db.calls && Enabled(db, name)
    requires forall row | row in db.rows :: row.instance != instance && row.id != uuid
    ensures var t := Run(db, Whole(call, name, instance, uuid));
      var repoId := db.repoIds[name];
      var number := db.repos[repoId].nextRunNumber;
      && t.rows == db.rows + [Row(uuid, repoId, number, instance)] && repoId in t.repos && t.repos[repoId].nextRunNumber == number + 1
      && call in t.calls && t.calls[call].phase == Returned(Some(StartedRun(uuid, repoId, number)))
  {
    var repoId := db.repoIds[name];
    var number := db.repos[repoId].nextRunNumber;
    var next := Next(call, uuid);
    RunWhole(db, call, name, instance, uuid);
    Numbering(db, call, name, instance, uuid);
    forall r | r in db.rows ensures !(r.repoId == repoId && r.number == number) { assert Below(db, r.repoId, r.number); }
    var db4 := Step(Step(Step(Step(db, Start(call, name, instance)), next), next), next);
    hide Step, Valid, Enabled;
    Inserting(db4, call, name, instance, uuid, repoId, number);
  }

  lemma Numbering(db: Database, call: nat, name: string, instance: string, uuid: string)
    requires call !in db.calls && Enabled(db, name) && forall row | row in db.rows :: row.instance != instance
    ensures var next, repoId := Next(call, uuid), db.repoIds[name];
      Step(Step(Step(Step(db, Start(call, name, instance)), next), next), next) ==
        db.(calls := db.calls[call := Call(name, instance, Numbered(repoId, db.repos[repoId].nextRunNumber))], repos := Claim(db, repoId).repos)
  {
    var repoId, next := db.repoIds[name], Next(call, uuid);
    FindIn(db.rows, instance);
    hide Find, Insert;
    var db1 := Step(db, Start(call, name, instance));
    var db2 := Step(db1, next);
    assert db2 == db.(calls := db.calls[call := Call(name, instance, RepoFound(repoId))]);
    var db3 := Step(db2, next);
    assert db3 == db.(calls := db.calls[call := Call(name, instance, Unrecorded(repoId))]);
  }

  lemma Inserting(db: Database, call: nat, name: string, instance: string, uuid: string, repoId: string, number: nat)
    requires call in db.calls && db.calls[call] == Call(name, instance, Numbered(repoId, number))
    requires forall r | r in db.rows :: r.instance != instance && r.id != uuid && !(r.repoId == repoId && r.number == number)
    ensures var next := Next(call, uuid);
      var t := Step(Step(db, next), next);
      && t.rows == db.rows + [Row(uuid, repoId, number, instance)] && t.repos == db.repos
      && call in t.calls && t.calls[call].phase == Returned(Some(StartedRun(uuid, repoId, number)))
  {
    var row, next := Row(uuid, repoId, number, instance), Next(call, uuid);
    FindIn(db.rows, instance);
    FindGrows(db.rows, row, instance);
    hide Find;
    var db5 := Step(db, next);
    assert db5 == At(db.(rows := db.rows + [row]), call, Inserted(repoId));
  }

  // A later one finds that run and changes nothing.
  lemma {:induction false} ReplayAlone(db: Database, call: nat, name: string, instance: string, uuid: string, row: Row)
    requires Valid(db) && call !in db.calls && Enabled(db, name) && row in db.rows && row.instance == instance
    ensures var t := Run(db, Whole(call, name, instance, uuid));
      && t.rows == db.rows && t.repos == db.repos
      && call in t.calls && t.calls[call].phase == Returned(Some(StartedRun(row.id, db.repoIds[name], row.number)))
  {
    var repoId, next := db.repoIds[name], Next(call, uuid);
    RunWhole(db, call, name, instance, uuid);
    FindIn(db.rows, instance);
    assert Find(db.rows, instance) == Some(row);
    hide Find, Valid;
    var db1 := Step(db, Start(call, name, instance));
    var db2 := Step(db1, next);
    assert db2 == At(db1, call, RepoFound(repoId));
    var db3 := Step(db2, next);
    assert db3 == At(db2, call, Returned(Some(StartedRun(row.id, repoId, row.number))));
    assert Step(db3, next) == db3;
  }

  // ---- the counters -----------------------------------------------------------------

  // How many numbers of a repo an action takes.
  function Takes(db: Database, a: Action, repoId: string): nat {
    match a
    case OtherClaim(r) => if r == repoId then 1 else 0
    case Next(call, _) => if call in db.calls && db.calls[call].phase == Unrecorded(repoId) then 1 else 0
    case _ => 0
  }

  function Taken(db: Database, actions: seq<Action>, repoId: string): nat {
    if actions == [] then 0
    else
      var front := actions[..|actions| - 1];
      Taken(db, front, repoId) + Takes(Run(db, front), actions[|actions| - 1], repoId)
  }

  // What was last set for a repo, or what it was.
  function LastSet(actions: seq<Action>, repoId: string, was: bool): bool {
    if actions == [] then was
    else
      match actions[|actions| - 1]
      case SetEnabled(r, ciEnabled) => if r == repoId then ciEnabled else LastSet(actions[..|actions| - 1], repoId, was)
      case _ => LastSet(actions[..|actions| - 1], repoId, was)
  }

  lemma RepoStep(db: Database, a: Action, repoId: string)
    requires repoId in db.repos
    ensures repoId in Step(db, a).repos
    ensures Step(db, a).repos[repoId].nextRunNumber == db.repos[repoId].nextRunNumber + Takes(db, a, repoId)
    ensures Step(db, a).repos[repoId].ciEnabled == LastSet([a], repoId, db.repos[repoId].ciEnabled)
  {
    assert [a][..0] == [];
    if a.Next? && a.call in db.calls { ReposAdvance(db, a.call, a.uuid); }
    hide Advance;
  }

  // A statement leaves the repos as they are unless it takes a number.
  lemma ReposAdvance(db: Database, call: nat, uuid: string)
    requires call in db.calls
    ensures var phase := db.calls[call].phase;
      Advance(db, call, uuid).repos == if phase.Unrecorded? then Claim(db, phase.repoId).repos else db.repos
  {
    hide Find, Insert, Claim;
  }

  // Each number is taken once and none is passed over: the counter has moved by as many as the calls
  // without a row and the others took. CI is on where it was last turned on.
  lemma {:induction false} CountersCount(db: Database, actions: seq<Action>, repoId: string)
    requires repoId in db.repos
    ensures var t := Run(db, actions);
      && repoId in t.repos && t.repos[repoId].nextRunNumber == db.repos[repoId].nextRunNumber + Taken(db, actions, repoId)
      && t.repos[repoId].ciEnabled == LastSet(actions, repoId, db.repos[repoId].ciEnabled)
      && t.repoIds == db.repoIds
  {
    hide Step, Takes;
    if actions != [] {
      var front, a := actions[..|actions| - 1], actions[|actions| - 1];
      CountersCount(db, front, repoId);
      RepoStep(Run(db, front), a, repoId);
      NamesStay(Run(db, front), a);
      assert [a][..0] == [];
    }
  }

  lemma NamesStay(db: Database, a: Action)
    ensures Step(db, a).repoIds == db.repoIds
  {
    hide Find, Insert;
  }

  // ---- the steps of a run -----------------------------------------------------------

  datatype Status = Queued | Running | Success | Failure | Cached | Cancelled

  datatype PlannedStep = PlannedStep(name: string, command: string, needs: seq<string>)

  datatype StepRow = StepRow(command: string, needs: seq<string>, ordinal: nat, status: Status, exitCode: int)

  // The ci_steps rows by (run, name).
  type StepTable = map<(string, string), StepRow>

  // A row that is there already takes over what the plan says and nothing else.
  function Upsert(table: StepTable, runId: string, step: PlannedStep, ordinal: nat): StepTable {
    var key := (runId, step.name);
    table[key := if key in table then table[key].(command := step.command, needs := step.needs, ordinal := ordinal)
                 else StepRow(step.command, step.needs, ordinal, Queued, 0)]
  }

  // recordStep.declare: the plan's steps in one batch. A replay refreshes what the plan says and
  // touches neither progress nor the rows of other steps.
  method Declare(table: StepTable, runId: string, steps: seq<PlannedStep>) returns (table': StepTable)
    ensures table.Keys <= table'.Keys
    ensures forall key | key in table :: table'[key].status == table[key].status && table'[key].exitCode == table[key].exitCode
    ensures forall key | key in table' && key !in table :: table'[key].status == Queued && table'[key].exitCode == 0
    ensures forall i | 0 <= i < |steps| :: (runId, steps[i].name) in table'
    ensures forall key | key in table' && (forall i | 0 <= i < |steps| :: key != (runId, steps[i].name)) ::
      key in table && table'[key] == table[key]
    ensures forall i | 0 <= i < |steps| && (forall j | i < j < |steps| :: steps[j].name != steps[i].name) ::
      var row := table'[(runId, steps[i].name)];
      row.command == steps[i].command && row.needs == steps[i].needs && row.ordinal == i
  {
    hide Upsert, KeepsProgress, Declared, Others;
    table' := table;
    NothingDeclared(table, runId);
    for index := 0 to |steps|
      invariant KeepsProgress(table, table')
      invariant Declared(table', runId, steps[..index]) && Others(table, table', runId, steps[..index])
    {
      OneStepMore(table, table', runId, steps[..index], steps[index]);
      assert steps[..index + 1] == steps[..index] + [steps[index]];
      table' := Upsert(table', runId, steps[index], index);
    }
    assert steps[..|steps|] == steps;
    DeclaredSays(table, table', runId, steps);
  }

  // Rows that were there keep how far they are; new ones are queued.
  ghost predicate KeepsProgress(table: StepTable, table': StepTable) {
    && table.Keys <= table'.Keys
    && (forall key | key in table :: table'[key].status == table[key].status && table'[key].exitCode == table[key].exitCode)
    && forall key | key in table' && key !in table :: table'[key].status == Queued && table'[key].exitCode == 0
  }

  // Each name's row says what the last step of that name says.
  ghost predicate Declared(table: StepTable, runId: string, steps: seq<PlannedStep>) {
    && (forall i | 0 <= i < |steps| :: (runId, steps[i].name) in table)
    && forall i | 0 <= i < |steps| && (forall j | i < j < |steps| :: steps[j].name != steps[i].name) ::
         var row := table[(runId, steps[i].name)];
         row.command == steps[i].command && row.needs == steps[i].needs && row.ordinal == i
  }

  ghost predicate Others(table: StepTable, table': StepTable, runId: string, steps: seq<PlannedStep>) {
    forall key | key in table' && (forall i | 0 <= i < |steps| :: key != (runId, steps[i].name)) ::
      key in table && table'[key] == table[key]
  }

  lemma NothingDeclared(table: StepTable, runId: string)
    ensures KeepsProgress(table, table) && Declared(table, runId, []) && Others(table, table, runId, [])
  {}

  lemma OneStepMore(table: StepTable, table': StepTable, runId: string, steps: seq<PlannedStep>, step: PlannedStep)
    requires KeepsProgress(table, table') && Declared(table', runId, steps) && Others(table, table', runId, steps)
    ensures var table'' := Upsert(table', runId, step, |steps|);
      KeepsProgress(table, table'') && Declared(table'', runId, steps + [step]) && Others(table, table'', runId, steps + [step])
  {
    StepDeclared(table', runId, steps, step);
    StepOthers(table, table', runId, steps, step);
    hide Declared, Others;
  }

  lemma StepDeclared(table: StepTable, runId: string, steps: seq<PlannedStep>, step: PlannedStep)
    requires Declared(table, runId, steps)
    ensures Declared(Upsert(table, runId, step, |steps|), runId, steps + [step])
  {
    var all, table' := steps + [step], Upsert(table, runId, step, |steps|);
    forall i | 0 <= i < |all| && (forall j | i < j < |all| :: all[j].name != all[i].name)
      ensures var row := table'[(runId, all[i].name)];
        row.command == all[i].command && row.needs == all[i].needs && row.ordinal == i
    {
      if i < |steps| {
        assert all[|steps|].name != all[i].name;
        assert forall j | i < j < |steps| :: steps[j].name == all[j].name;
      }
    }
  }

  lemma StepOthers(table: StepTable, table': StepTable, runId: string, steps: seq<PlannedStep>, step: PlannedStep)
    requires Others(table, table', runId, steps)
    ensures Others(table, Upsert(table', runId, step, |steps|), runId, steps + [step])
  {
    var all := steps + [step];
    assert all[|steps|] == step && forall i | 0 <= i < |steps| :: all[i] == steps[i];
  }

  lemma DeclaredSays(table: StepTable, table': StepTable, runId: string, steps: seq<PlannedStep>)
    requires KeepsProgress(table, table') && Declared(table', runId, steps) && Others(table, table', runId, steps)
    ensures table.Keys <= table'.Keys
    ensures forall key | key in table :: table'[key].status == table[key].status && table'[key].exitCode == table[key].exitCode
    ensures forall key | key in table' && key !in table :: table'[key].status == Queued && table'[key].exitCode == 0
    ensures forall i | 0 <= i < |steps| :: (runId, steps[i].name) in table'
    ensures forall key | key in table' && (forall i | 0 <= i < |steps| :: key != (runId, steps[i].name)) ::
      key in table && table'[key] == table[key]
    ensures forall i | 0 <= i < |steps| && (forall j | i < j < |steps| :: steps[j].name != steps[i].name) ::
      var row := table'[(runId, steps[i].name)];
      row.command == steps[i].command && row.needs == steps[i].needs && row.ordinal == i
  {}
}
