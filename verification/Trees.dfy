// Reading trees breadth first: walk (src/server/connect/services/git.ts) and flattenTree
// (src/server/connect/services/pull.ts).
module Trees {
  import opened GitTypes
  import opened Wrappers
  import Text

  // The trees that can be read, by id. A tree that cannot be read has no entries to show.
  type Store = map<Sha, seq<Entry>>

  function EntriesOf(store: Store, sha: Sha): seq<Entry> { if sha in store then store[sha] else [] }

  // Hashing makes it impossible for a tree to contain itself: some rank falls on the way down.
  ghost predicate Acyclic(store: Store, rank: Sha -> nat) {
    forall sha | sha in store :: RanksBelow(store[sha], rank, rank(sha))
  }

  ghost predicate RanksBelow(entries: seq<Entry>, rank: Sha -> nat, bound: nat) {
    forall i | 0 <= i < |entries| :: entries[i].kind.Tree? ==> rank(entries[i].hash) < bound
  }

  // A bound for a listing's root, which is given by its entries and not by an id.
  function Above(entries: seq<Entry>, rank: Sha -> nat): (bound: nat)
    ensures forall i | 0 <= i < |entries| :: rank(entries[i].hash) < bound
  {
    if entries == [] then 0
    else
      var bound := Above(entries[..|entries| - 1], rank);
      var last := rank(entries[|entries| - 1].hash);
      if last < bound then bound else last + 1
  }

  // ---- the breadth-first listing ----------------------------------------------------

  datatype Level = Level(entries: seq<Entry>, prefix: string)

  datatype Row = Row(path: string, entry: Entry)

  // join
  function Join(prefix: string, name: string): string {
    if prefix != "" then prefix + "/" + name else name
  }

  function Rows(entries: seq<Entry>, prefix: string): (rows: seq<Row>)
    ensures |rows| == |entries|
    ensures forall i | 0 <= i < |rows| :: rows[i] == Row(Join(prefix, entries[i].name), entries[i])
  {
    if entries == [] then []
    else
      var last := entries[|entries| - 1];
      Rows(entries[..|entries| - 1], prefix) + [Row(Join(prefix, last.name), last)]
  }

  // The readable directories among some entries.
  function Below(store: Store, entries: seq<Entry>, prefix: string): seq<Level> {
    if entries == [] then []
    else
      var last := entries[|entries| - 1];
      Below(store, entries[..|entries| - 1], prefix) +
      if last.kind.Tree? && last.hash in store then [Level(store[last.hash], Join(prefix, last.name))] else []
  }

  // How many directories hang under some entries, each counted with one to spare.
  ghost function Weight(store: Store, rank: Sha -> nat, entries: seq<Entry>, bound: nat): nat
    requires Acyclic(store, rank) && RanksBelow(entries, rank, bound)
    decreases bound, |entries|
  {
    if entries == [] then 1
    else
      var last := entries[|entries| - 1];
      Weight(store, rank, entries[..|entries| - 1], bound) +
      if last.kind.Tree? && last.hash in store then Weight(store, rank, store[last.hash], rank(last.hash)) else 0
  }

  // The bound is only there for the recursion: it does not change the weight.
  lemma {:induction false} WeightAnyBound(store: Store, rank: Sha -> nat, entries: seq<Entry>, b: nat, c: nat)
    requires Acyclic(store, rank) && RanksBelow(entries, rank, b) && RanksBelow(entries, rank, c)
    ensures Weight(store, rank, entries, b) == Weight(store, rank, entries, c)
  {
    if entries != [] { WeightAnyBound(store, rank, entries[..|entries| - 1], b, c); }
  }

  ghost function LevelWeight(store: Store, rank: Sha -> nat, level: Level): nat
    requires Acyclic(store, rank)
  {
    Weight(store, rank, level.entries, Above(level.entries, rank))
  }

  ghost function QueueWeight(store: Store, rank: Sha -> nat, queue: seq<Level>): nat
    requires Acyclic(store, rank)
  {
    if queue == [] then 0
    else QueueWeight(store, rank, queue[..|queue| - 1]) + LevelWeight(store, rank, queue[|queue| - 1])
  }

  lemma {:induction false} QueueWeightConcat(store: Store, rank: Sha -> nat, a: seq<Level>, b: seq<Level>)
    requires Acyclic(store, rank)
    ensures QueueWeight(store, rank, a + b) == QueueWeight(store, rank, a) + QueueWeight(store, rank, b)
  {
    if b == [] {
      assert a + b == a;
    } else {
      assert (a + b)[..|a + b| - 1] == a + b[..|b| - 1];
      QueueWeightConcat(store, rank, a, b[..|b| - 1]);
    }
  }

  lemma {:induction false} BelowWeighs(store: Store, rank: Sha -> nat, entries: seq<Entry>, prefix: string, bound: nat)
    requires Acyclic(store, rank) && RanksBelow(entries, rank, bound)
    ensures QueueWeight(store, rank, Below(store, entries, prefix)) + 1 == Weight(store, rank, entries, bound)
  {
    if entries != [] {
      var front, last := entries[..|entries| - 1], entries[|entries| - 1];
      BelowWeighs(store, rank, front, prefix, bound);
      var levels := Below(store, front, prefix);
      if last.kind.Tree? && last.hash in store {
        var level := Level(store[last.hash], Join(prefix, last.name));
        WeightAnyBound(store, rank, store[last.hash], rank(last.hash), Above(store[last.hash], rank));
        assert (levels + [level])[..|levels|] == levels;
      } else {
        assert levels + [] == levels;
      }
    }
  }

  // Replacing a level by those below it makes the queue lighter.
  lemma {:induction false} QueueLightens(store: Store, rank: Sha -> nat, queue: seq<Level>)
    requires Acyclic(store, rank) && queue != []
    ensures QueueWeight(store, rank, queue[1..] + Below(store, queue[0].entries, queue[0].prefix))
         == QueueWeight(store, rank, queue) - 1
  {
    var level := queue[0];
    BelowWeighs(store, rank, level.entries, level.prefix, Above(level.entries, rank));
    QueueWeightConcat(store, rank, queue[1..], Below(store, level.entries, level.prefix));
    QueueWeightConcat(store, rank, [level], queue[1..]);
    assert [level] + queue[1..] == queue && [level][..0] == [];
  }

  // All entries under a queue of levels, breadth first.
  ghost function Listing(store: Store, rank: Sha -> nat, queue: seq<Level>): seq<Row>
    requires Acyclic(store, rank)
    decreases QueueWeight(store, rank, queue)
  {
    if queue == [] then []
    else
      var level := queue[0];
      QueueLightens(store, rank, queue);
      Rows(level.entries, level.prefix) + Listing(store, rank, queue[1..] + Below(store, level.entries, level.prefix))
  }

  // ---- walk -------------------------------------------------------------------------

  const MAX_TREE_ENTRIES := 10000

  predicate Unreadable(store: Store, e: Entry) { e.kind.Tree? && e.hash !in store }

  ghost predicate SomeUnreadable(store: Store, rows: seq<Row>) {
    exists i | 0 <= i < |rows| :: Unreadable(store, rows[i].entry)
  }

  lemma UnreadableSnoc(store: Store, rows: seq<Row>, row: Row)
    ensures SomeUnreadable(store, rows + [row]) <==> SomeUnreadable(store, rows) || Unreadable(store, row.entry)
  {
    var all := rows + [row];
    assert all[|rows|] == row;
    assert forall i | 0 <= i < |rows| :: all[i] == rows[i];
  }

  // One level: its rows, as far as the budget goes, and the levels below it.
  method WalkLevel(store: Store, level: Level, before: seq<Row>, waiting: seq<Level>, missing: bool)
    returns (out: seq<Row>, queue: seq<Level>, truncated: bool, full: bool)
    requires |before| <= MAX_TREE_ENTRIES && (missing <==> SomeUnreadable(store, before))
    ensures var rows := before + Rows(level.entries, level.prefix);
      if full then |rows| > MAX_TREE_ENTRIES && out == rows[..MAX_TREE_ENTRIES] && truncated
      else
        && |out| <= MAX_TREE_ENTRIES && out == rows && (truncated <==> SomeUnreadable(store, out))
        && queue == waiting + Below(store, level.entries, level.prefix)
  {
    hide SomeUnreadable, Rows, Below, Join;
    out, queue, truncated := before, waiting, missing;
    NothingYet(store, level);
    for i := 0 to |level.entries|
      invariant |out| <= MAX_TREE_ENTRIES
      invariant out == before + Rows(level.entries[..i], level.prefix)
      invariant queue == waiting + Below(store, level.entries[..i], level.prefix)
      invariant truncated <==> SomeUnreadable(store, out)
    {
      if |out| >= MAX_TREE_ENTRIES {
        return out, queue, true, true;
      }
      var entry := level.entries[i];
      NextEntry(store, level, i);
      UnreadableSnoc(store, out, Row(Join(level.prefix, entry.name), entry));
      out := out + [Row(Join(level.prefix, entry.name), entry)];
      if entry.kind.Tree? {
        if entry.hash in store {
          queue := queue + [Level(store[entry.hash], Join(level.prefix, entry.name))];
        } else {
          truncated := true;
        }
      }
    }
    assert level.entries[..|level.entries|] == level.entries;
    full := false;
  }

  // The first entries of the breadth-first listing; not truncated exactly if that is all of them
  // and every directory among them could be read.
  method Walk(store: Store, entries: seq<Entry>, prefix: string, ghost rank: Sha -> nat)
    returns (out: seq<Row>, truncated: bool)
    requires Acyclic(store, rank)
    ensures var all := Listing(store, rank, [Level(entries, prefix)]);
      && out == (if |all| > MAX_TREE_ENTRIES then all[..MAX_TREE_ENTRIES] else all)
      && (truncated <==> |all| > MAX_TREE_ENTRIES || SomeUnreadable(store, all))
  {
    out, truncated := [], false;
    var queue := [Level(entries, prefix)];
    ghost var all := Listing(store, rank, queue);
    assert !SomeUnreadable(store, []);
    hide Weight, QueueWeight, LevelWeight, Acyclic, SomeUnreadable, Rows, Below, Listing, Join;
    while queue != []
      invariant |out| <= MAX_TREE_ENTRIES && all == out + Listing(store, rank, queue)
      invariant truncated <==> SomeUnreadable(store, out)
      decreases QueueWeight(store, rank, queue)
    {
      QueueLightens(store, rank, queue);
      var level := queue[0];
      ghost var rows, rest := out + Rows(level.entries, level.prefix), queue[1..] + Below(store, level.entries, level.prefix);
      Regroup(out, Rows(level.entries, level.prefix), Listing(store, rank, rest));
      var full;
      out, queue, truncated, full := WalkLevel(store, level, out, queue[1..], truncated);
      if full {
        Cut(rows, Listing(store, rank, rest), MAX_TREE_ENTRIES);
        return;
      }
    }
  }

  lemma Regroup(a: seq<Row>, b: seq<Row>, c: seq<Row>)
    ensures a + (b + c) == (a + b) + c
  {}

  lemma Cut(a: seq<Row>, b: seq<Row>, n: nat)
    requires n <= |a|
    ensures (a + b)[..n] == a[..n]
  {}

  lemma NothingYet(store: Store, level: Level)
    ensures level.entries[..0] == [] && Rows([], level.prefix) == [] && Below(store, [], level.prefix) == []
  {}

  // One more entry of a level.
  lemma NextEntry(store: Store, level: Level, i: nat)
    requires i < |level.entries|
    ensures var next, prefix := level.entries[..i + 1], level.prefix;
      var entry := level.entries[i];
      && Rows(next, prefix) == Rows(level.entries[..i], prefix) + [Row(Join(prefix, entry.name), entry)]
      && Below(store, next, prefix) == Below(store, level.entries[..i], prefix) +
         if entry.kind.Tree? && entry.hash in store then [Level(store[entry.hash], Join(prefix, entry.name))] else []
  {
    assert level.entries[..i + 1][..i] == level.entries[..i];
  }

  // ---- what the listing means -------------------------------------------------------

  // Names as git allows them: not empty, without a slash, and different within a tree.
  ghost predicate ProperTree(entries: seq<Entry>) {
    && (forall i | 0 <= i < |entries| :: entries[i].name != "" && '/' !in entries[i].name)
    && forall i, j | 0 <= i < j < |entries| :: entries[i].name != entries[j].name
  }

  ghost predicate ProperTrees(store: Store) {
    forall sha | sha in store :: ProperTree(store[sha])
  }

  function Find(entries: seq<Entry>, name: string): Option<Entry> {
    if entries == [] then None else if entries[0].name == name then Some(entries[0]) else Find(entries[1..], name)
  }

  // What a path of names leads to, directory by directory.
  function EntryAt(store: Store, entries: seq<Entry>, names: seq<string>): Option<Entry>
    decreases |names|
  {
    if names == [] then None
    else
      match Find(entries, names[0])
      case None => None
      case Some(e) =>
        if |names| == 1 then Some(e)
        else if e.kind.Tree? then EntryAt(store, EntriesOf(store, e.hash), names[1..])
        else None
  }

  function Names(path: string): seq<string> { Text.Split(path, '/') }

  // The names that lead to a level.
  function PrefixNames(prefix: string): seq<string> { if prefix == "" then [] else Names(prefix) }

  // The path leads to the entry, by way of this level.
  ghost predicate Leads(store: Store, level: Level, path: string, e: Entry) {
    var names, above := Names(path), PrefixNames(level.prefix);
    |above| < |names| && names[..|above|] == above && EntryAt(store, level.entries, names[|above|..]) == Some(e)
  }

  ghost predicate LeadsFrom(store: Store, queue: seq<Level>, path: string, e: Entry) {
    exists i | 0 <= i < |queue| :: Leads(store, queue[i], path, e)
  }

  lemma JoinNames(prefix: string, name: string)
    requires '/' !in name
    ensures Names(Join(prefix, name)) == PrefixNames(prefix) + [name]
  {
    if prefix == "" {
      Text.SplitWhole(name, '/');
    } else {
      Text.SplitSnoc(prefix, name, '/');
      assert prefix + "/" + name == prefix + ['/'] + name;
    }
  }

  lemma {:induction false} FindFinds(entries: seq<Entry>, name: string)
    ensures Find(entries, name).Some? ==> exists i | 0 <= i < |entries| :: entries[i] == Find(entries, name).value
    ensures Find(entries, name).Some? ==> Find(entries, name).value.name == name
    ensures forall i | 0 <= i < |entries| && ProperTree(entries) && entries[i].name == name :: Find(entries, name) == Some(entries[i])
  {
    if entries != [] {
      FindFinds(entries[1..], name);
      if entries[0].name == name {
        assert entries[0] == Find(entries, name).value;
      } else {
        assert forall i | 1 <= i < |entries| :: entries[1..][i - 1] == entries[i];
        if Find(entries, name).Some? {
          var i :| 0 <= i < |entries[1..]| && entries[1..][i] == Find(entries, name).value;
          assert entries[i + 1] == Find(entries, name).value;
        }
      }
    }
  }

  lemma {:induction false} BelowHas(store: Store, entries: seq<Entry>, prefix: string, level: Level)
    ensures level in Below(store, entries, prefix) <==>
      exists i | 0 <= i < |entries| ::
        entries[i].kind.Tree? && entries[i].hash in store && level == Level(store[entries[i].hash], Join(prefix, entries[i].name))
  {
    if entries != [] { BelowHas(store, entries[..|entries| - 1], prefix, level); }
  }

  // A path under a level is one of its rows or lies under one of the levels below it.
  lemma {:induction false} LeadsOnward(store: Store, level: Level, path: string, e: Entry)
    requires ProperTree(level.entries)
    requires Leads(store, level, path, e)
    ensures Row(path, e) in Rows(level.entries, level.prefix) || LeadsFrom(store, Below(store, level.entries, level.prefix), path, e)
  {
    var names, above := Names(path), PrefixNames(level.prefix);
    var rest := names[|above|..];
    FindFinds(level.entries, rest[0]);
    var f := Find(level.entries, rest[0]).value;
    var i :| 0 <= i < |level.entries| && level.entries[i] == f;
    JoinNames(level.prefix, f.name);
    if |rest| == 1 {
      assert names == above + [f.name];
      Text.SplitInjective(path, Join(level.prefix, f.name), '/');
      assert Rows(level.entries, level.prefix)[i] == Row(path, e);
    } else {
      var below := Level(EntriesOf(store, f.hash), Join(level.prefix, f.name));
      BelowHas(store, level.entries, level.prefix, below);
      var levels := Below(store, level.entries, level.prefix);
      assert EntryAt(store, [], rest[1..]) == None;
      var j :| 0 <= j < |levels| && levels[j] == below;
      assert names[..|above| + 1] == above + [f.name] && names[|above| + 1..] == rest[1..];
      assert Leads(store, levels[j], path, e);
    }
  }

  lemma {:induction false} RowLeads(store: Store, level: Level, row: Row)
    requires ProperTree(level.entries) && row in Rows(level.entries, level.prefix)
    ensures Leads(store, level, row.path, row.entry)
  {
    var i :| 0 <= i < |level.entries| && Rows(level.entries, level.prefix)[i] == row;
    JoinNames(level.prefix, row.entry.name);
    FindFinds(level.entries, row.entry.name);
    var above := PrefixNames(level.prefix);
    assert (above + [row.entry.name])[|above|..] == [row.entry.name];
  }

  lemma {:induction false} LeadsBack(store: Store, level: Level, below: Level, path: string, e: Entry)
    requires ProperTree(level.entries) && below in Below(store, level.entries, level.prefix) && Leads(store, below, path, e)
    ensures Leads(store, level, path, e)
  {
    BelowHas(store, level.entries, level.prefix, below);
    var i :| 0 <= i < |level.entries| && level.entries[i].kind.Tree? && level.entries[i].hash in store &&
      below == Level(store[level.entries[i].hash], Join(level.prefix, level.entries[i].name));
    var f := level.entries[i];
    JoinNames(level.prefix, f.name);
    FindFinds(level.entries, f.name);
    var names, above := Names(path), PrefixNames(level.prefix);
    assert Join(level.prefix, f.name) != "";
    assert names[..|above| + 1] == above + [f.name];
    hide Names, PrefixNames, Find, Join, Below;
    OneName(names, above, f.name);
  }

  lemma OneName(names: seq<string>, above: seq<string>, name: string)
    requires |names| > |above| && names[..|above| + 1] == above + [name]
    ensures names[..|above|] == above && names[|above|..][0] == name && names[|above|..][1..] == names[|above| + 1..]
  {
    assert names[..|above|] == names[..|above| + 1][..|above|];
    assert names[|above|] == names[..|above| + 1][|above|];
  }

  ghost predicate ProperLevels(queue: seq<Level>) {
    forall i | 0 <= i < |queue| :: ProperTree(queue[i].entries)
  }

  lemma {:induction false} NextLevelsProper(store: Store, queue: seq<Level>)
    requires ProperTrees(store) && ProperLevels(queue) && queue != []
    ensures ProperLevels(queue[1..] + Below(store, queue[0].entries, queue[0].prefix))
  {
    var level := queue[0];
    var levels := Below(store, level.entries, level.prefix);
    forall i | 0 <= i < |levels| ensures ProperTree(levels[i].entries) {
      BelowHas(store, level.entries, level.prefix, levels[i]);
    }
  }

  // The listing has a row exactly for every path that leads somewhere.
  lemma {:induction false} ListingIsWhole(store: Store, rank: Sha -> nat, queue: seq<Level>, path: string, e: Entry)
    requires Acyclic(store, rank) && ProperTrees(store) && ProperLevels(queue)
    ensures Row(path, e) in Listing(store, rank, queue) <==> LeadsFrom(store, queue, path, e)
    decreases QueueWeight(store, rank, queue)
  {
    if queue != [] {
      var level := queue[0];
      var levels := Below(store, level.entries, level.prefix);
      QueueLightens(store, rank, queue);
      NextLevelsProper(store, queue);
      ListingIsWhole(store, rank, queue[1..] + levels, path, e);
      LeadsSplit(store, queue, path, e);
    }
  }

  lemma {:induction false} LeadsSplit(store: Store, queue: seq<Level>, path: string, e: Entry)
    requires queue != [] && ProperLevels(queue)
    ensures var level := queue[0];
      var next := queue[1..] + Below(store, level.entries, level.prefix);
      LeadsFrom(store, queue, path, e) <==> (Row(path, e) in Rows(level.entries, level.prefix) || LeadsFrom(store, next, path, e))
  {
    hide Leads, Names, Below, Rows, ProperTree;
    var level := queue[0];
    var levels := Below(store, level.entries, level.prefix);
    var next := queue[1..] + levels;
    if LeadsFrom(store, queue, path, e) {
      var i :| 0 <= i < |queue| && Leads(store, queue[i], path, e);
      if i == 0 {
        LeadsOnward(store, level, path, e);
        if LeadsFrom(store, levels, path, e) {
          var j :| 0 <= j < |levels| && Leads(store, levels[j], path, e);
          assert next[|queue| - 1 + j] == levels[j];
        }
      } else {
        assert next[i - 1] == queue[i];
      }
    }
    if Row(path, e) in Rows(level.entries, level.prefix) { RowLeads(store, level, Row(path, e)); }
    if LeadsFrom(store, next, path, e) {
      var j :| 0 <= j < |next| && Leads(store, next[j], path, e);
      if j < |queue| - 1 {
        assert next[j] == queue[j + 1];
      } else {
        assert next[j] == levels[j - (|queue| - 1)];
        LeadsBack(store, level, next[j], path, e);
      }
    }
  }

  // A whole tree is listed entry by entry: under each path, what the path leads to.
  lemma {:induction false} ListingOfTree(store: Store, rank: Sha -> nat, entries: seq<Entry>, path: string, e: Entry)
    requires Acyclic(store, rank) && ProperTrees(store) && ProperTree(entries)
    ensures Row(path, e) in Listing(store, rank, [Level(entries, "")]) <==> EntryAt(store, entries, Names(path)) == Some(e)
  {
    var queue := [Level(entries, "")];
    ListingIsWhole(store, rank, queue, path, e);
    assert Names(path)[0..] == Names(path);
    assert Leads(store, queue[0], path, e) <==> EntryAt(store, entries, Names(path)) == Some(e);
  }

  // ---- order ------------------------------------------------------------------------

  function Depth(row: Row): nat { |Names(row.path)| }

  function LevelDepth(level: Level): nat { |PrefixNames(level.prefix)| + 1 }

  // Levels wait in order of depth, never two depths apart.
  ghost predicate Layered(queue: seq<Level>, d: nat) {
    && (forall i | 0 <= i < |queue| :: d <= LevelDepth(queue[i]) <= d + 1)
    && forall i, j | 0 <= i < j < |queue| :: LevelDepth(queue[i]) <= LevelDepth(queue[j])
  }

  ghost predicate DepthsAscend(rows: seq<Row>, d: nat) {
    && (forall i | 0 <= i < |rows| :: d <= Depth(rows[i]))
    && forall i, j | 0 <= i < j < |rows| :: Depth(rows[i]) <= Depth(rows[j])
  }

  lemma {:induction false} RowDepths(level: Level)
    requires ProperTree(level.entries)
    ensures forall i | 0 <= i < |level.entries| :: Depth(Rows(level.entries, level.prefix)[i]) == LevelDepth(level)
  {
    forall i | 0 <= i < |level.entries| ensures Depth(Rows(level.entries, level.prefix)[i]) == LevelDepth(level) {
      JoinNames(level.prefix, level.entries[i].name);
    }
  }

  lemma {:induction false} BelowDepths(store: Store, level: Level)
    requires ProperTree(level.entries)
    ensures var levels := Below(store, level.entries, level.prefix);
      forall i | 0 <= i < |levels| :: LevelDepth(levels[i]) == LevelDepth(level) + 1
  {
    var levels := Below(store, level.entries, level.prefix);
    forall i | 0 <= i < |levels| ensures LevelDepth(levels[i]) == LevelDepth(level) + 1 {
      BelowHas(store, level.entries, level.prefix, levels[i]);
      var j :| 0 <= j < |level.entries| && level.entries[j].kind.Tree? && level.entries[j].hash in store &&
        levels[i] == Level(store[level.entries[j].hash], Join(level.prefix, level.entries[j].name));
      JoinNames(level.prefix, level.entries[j].name);
    }
  }

  // The listing is breadth first: no entry comes before one closer to the root.
  lemma {:induction false} ListingIsBreadthFirst(store: Store, rank: Sha -> nat, queue: seq<Level>, d: nat)
    requires Acyclic(store, rank) && ProperTrees(store) && ProperLevels(queue)
    requires Layered(queue, d) && (queue != [] ==> LevelDepth(queue[0]) == d)
    ensures DepthsAscend(Listing(store, rank, queue), d)
    decreases QueueWeight(store, rank, queue)
  {
    if queue != [] {
      var level := queue[0];
      var levels := Below(store, level.entries, level.prefix);
      var next := queue[1..] + levels;
      QueueLightens(store, rank, queue);
      NextLevelsProper(store, queue);
      hide LevelDepth, Depth, Below, ProperTrees, ProperLevels, QueueWeight, Acyclic;
      RowDepths(level);
      BelowDepths(store, level);
      var d' := if next == [] then d else LevelDepth(next[0]);
      NextLayers(queue, levels, d);
      ListingIsBreadthFirst(store, rank, next, d');
      AscendConcat(Rows(level.entries, level.prefix), Listing(store, rank, next), d, d');
    }
  }

  lemma {:induction false} NextLayers(queue: seq<Level>, levels: seq<Level>, d: nat)
    requires queue != [] && Layered(queue, d) && LevelDepth(queue[0]) == d
    requires forall i | 0 <= i < |levels| :: LevelDepth(levels[i]) == d + 1
    ensures var next := queue[1..] + levels;
      next != [] ==> d <= LevelDepth(next[0]) && Layered(next, LevelDepth(next[0]))
  {
    hide LevelDepth;
    var next := queue[1..] + levels;
    assert forall i | 0 <= i < |next| :: next[i] == if i < |queue| - 1 then queue[i + 1] else levels[i - (|queue| - 1)];
  }

  lemma {:induction false} AscendConcat(a: seq<Row>, b: seq<Row>, d: nat, d': nat)
    requires (forall i | 0 <= i < |a| :: Depth(a[i]) == d) && DepthsAscend(b, d') && d <= d'
    ensures DepthsAscend(a + b, d)
  {
    hide Depth;
    var all := a + b;
    assert forall i | 0 <= i < |all| :: all[i] == if i < |a| then a[i] else b[i - |a|];
  }

  // ---- not depth first --------------------------------------------------------------

  // The entries in the order of a depth-first walk: each directory followed by what is in it.
  ghost function DepthFirst(store: Store, rank: Sha -> nat, entries: seq<Entry>, prefix: string, bound: nat): seq<Row>
    requires Acyclic(store, rank) && RanksBelow(entries, rank, bound)
    decreases bound, |entries|
  {
    if entries == [] then []
    else
      var last := entries[|entries| - 1];
      var path := Join(prefix, last.name);
      DepthFirst(store, rank, entries[..|entries| - 1], prefix, bound) + [Row(path, last)] +
      if last.kind.Tree? && last.hash in store then DepthFirst(store, rank, store[last.hash], path, rank(last.hash)) else []
  }

  // A directory that something can be read from.
  predicate Branches(store: Store, e: Entry) { e.kind.Tree? && e.hash in store && store[e.hash] != [] }

  predicate Leaves(store: Store, entries: seq<Entry>) {
    forall i | 0 <= i < |entries| :: !Branches(store, entries[i])
  }

  // Only ever the last entry of a directory has something below it.
  ghost predicate OnlyLastBranches(store: Store, rank: Sha -> nat, entries: seq<Entry>, bound: nat)
    requires Acyclic(store, rank) && RanksBelow(entries, rank, bound)
    decreases bound
  {
    entries == [] ||
    var last := entries[|entries| - 1];
    && Leaves(store, entries[..|entries| - 1])
    && (last.kind.Tree? && last.hash in store ==> OnlyLastBranches(store, rank, store[last.hash], rank(last.hash)))
  }

  lemma {:induction false} LeavesOnly(store: Store, rank: Sha -> nat, entries: seq<Entry>, prefix: string, bound: nat)
    requires Acyclic(store, rank) && RanksBelow(entries, rank, bound) && Leaves(store, entries)
    ensures DepthFirst(store, rank, entries, prefix, bound) == Rows(entries, prefix)
    ensures forall i | 0 <= i < |Below(store, entries, prefix)| :: Below(store, entries, prefix)[i].entries == []
  {
    if entries != [] {
      var front, last := entries[..|entries| - 1], entries[|entries| - 1];
      LeavesOnly(store, rank, front, prefix, bound);
      assert !Branches(store, entries[|entries| - 1]);
    }
  }

  lemma {:induction false} SkipEmpty(store: Store, rank: Sha -> nat, empty: seq<Level>, queue: seq<Level>)
    requires Acyclic(store, rank) && forall i | 0 <= i < |empty| :: empty[i].entries == []
    ensures Listing(store, rank, empty + queue) == Listing(store, rank, queue)
    decreases |empty|
  {
    if empty == [] {
      assert empty + queue == queue;
    } else {
      var all := empty + queue;
      assert all[0].entries == [] && Below(store, [], all[0].prefix) == [];
      assert all[1..] + [] == empty[1..] + queue;
      assert Rows([], all[0].prefix) == [];
      SkipEmpty(store, rank, empty[1..], queue);
      hide Rows, Below, Acyclic;
    }
  }

  lemma {:induction false} DepthFirstStarts(store: Store, rank: Sha -> nat, entries: seq<Entry>, prefix: string, bound: nat, n: nat)
    requires Acyclic(store, rank) && RanksBelow(entries, rank, bound) && n <= |entries|
    ensures DepthFirst(store, rank, entries[..n], prefix, bound) <= DepthFirst(store, rank, entries, prefix, bound)
    decreases |entries|
  {
    if n < |entries| {
      DepthFirstStarts(store, rank, entries[..|entries| - 1], prefix, bound, n);
      assert entries[..|entries| - 1][..n] == entries[..n];
    } else {
      assert entries[..n] == entries;
    }
  }

  lemma {:induction false} DepthFirstHead(store: Store, rank: Sha -> nat, entries: seq<Entry>, prefix: string, bound: nat)
    requires Acyclic(store, rank) && RanksBelow(entries, rank, bound) && entries != []
    ensures var rows := DepthFirst(store, rank, entries, prefix, bound);
      rows != [] && rows[0] == Row(Join(prefix, entries[0].name), entries[0])
  {
    DepthFirstStarts(store, rank, entries, prefix, bound, 1);
    var first := entries[..1];
    assert first[..0] == [] && first[0] == entries[0];
  }

  lemma ChildDepth(prefix: string, name: string, child: Entry)
    requires '/' !in name && name != "" && '/' !in child.name
    ensures Depth(Row(Join(Join(prefix, name), child.name), child)) == |PrefixNames(prefix)| + 2
  {
    JoinNames(prefix, name);
    JoinNames(Join(prefix, name), child.name);
  }

  // Up to the first directory that branches, and on into it.
  lemma {:induction false} UpToBranch(store: Store, rank: Sha -> nat, entries: seq<Entry>, prefix: string, bound: nat, n: nat)
    requires Acyclic(store, rank) && RanksBelow(entries, rank, bound)
    requires n < |entries| && Leaves(store, entries[..n]) && Branches(store, entries[n])
    ensures var e := entries[n];
      var path := Join(prefix, e.name);
      DepthFirst(store, rank, entries[..n + 1], prefix, bound) ==
        Rows(entries[..n], prefix) + [Row(path, e)] + DepthFirst(store, rank, store[e.hash], path, rank(e.hash))
  {
    var upTo := entries[..n + 1];
    assert upTo[..n] == entries[..n] && upTo[n] == entries[n];
    LeavesOnly(store, rank, entries[..n], prefix, bound);
  }

  // A directory's first entry follows it, ahead of the next entry beside it.
  lemma {:induction false} Dives(store: Store, rank: Sha -> nat, entries: seq<Entry>, prefix: string, bound: nat, n: nat)
    requires Acyclic(store, rank) && ProperTrees(store) && ProperTree(entries) && RanksBelow(entries, rank, bound)
    requires n < |entries| && Leaves(store, entries[..n]) && Branches(store, entries[n])
    ensures var rows := DepthFirst(store, rank, entries, prefix, bound);
      |rows| > n + 1 && Depth(rows[n + 1]) == |PrefixNames(prefix)| + 2
  {
    var e := entries[n];
    var path, inside := Join(prefix, e.name), store[e.hash];
    UpToBranch(store, rank, entries, prefix, bound, n);
    DepthFirstStarts(store, rank, entries, prefix, bound, n + 1);
    DepthFirstHead(store, rank, inside, path, rank(e.hash));
    ChildDepth(prefix, e.name, inside[0]);
    hide DepthFirst, Leaves, Depth, PrefixNames, Join, Acyclic, ProperTrees, ProperTree, RanksBelow;
    var start, child := Rows(entries[..n], prefix) + [Row(path, e)], DepthFirst(store, rank, inside, path, rank(e.hash));
    assert (start + child)[n + 1] == child[0];
  }

  lemma {:induction false} FirstBranch(store: Store, entries: seq<Entry>) returns (n: nat)
    requires !Leaves(store, entries)
    ensures n < |entries| && Leaves(store, entries[..n]) && Branches(store, entries[n])
  {
    hide Branches;
    n := 0;
    while !Branches(store, entries[n])
      invariant n < |entries| && Leaves(store, entries[..n])
      decreases |entries| - n
    {
      n := n + 1;
    }
  }

  // Where something beside the last entry branches, the two orders part.
  lemma {:induction false} Parts(store: Store, rank: Sha -> nat, entries: seq<Entry>, prefix: string, bound: nat)
    requires Acyclic(store, rank) && ProperTrees(store) && ProperTree(entries) && RanksBelow(entries, rank, bound)
    requires entries != [] && !Leaves(store, entries[..|entries| - 1])
    ensures Listing(store, rank, [Level(entries, prefix)]) != DepthFirst(store, rank, entries, prefix, bound)
  {
    var level, front := Level(entries, prefix), entries[..|entries| - 1];
    var n := FirstBranch(store, front);
    assert front[..n] == entries[..n] && front[n] == entries[n];
    Dives(store, rank, entries, prefix, bound, n);
    RowDepths(level);
    ListingOfOne(store, rank, level);
    hide DepthFirst, Listing, Depth, Branches, Leaves, Rows, Below;
    assert Rows(entries, prefix)[n + 1] == Listing(store, rank, [level])[n + 1];
  }

  // Where nothing beside the last entry branches, the orders agree as far as they do inside it.
  lemma {:induction false} Follows(store: Store, rank: Sha -> nat, entries: seq<Entry>, prefix: string, bound: nat)
    requires Acyclic(store, rank) && RanksBelow(entries, rank, bound) && entries != [] && Leaves(store, entries[..|entries| - 1])
    ensures var last := entries[|entries| - 1];
      var path, inside := Join(prefix, last.name), last.kind.Tree? && last.hash in store;
      && Listing(store, rank, [Level(entries, prefix)]) ==
         Rows(entries, prefix) + (if inside then Listing(store, rank, [Level(store[last.hash], path)]) else [])
      && DepthFirst(store, rank, entries, prefix, bound) ==
         Rows(entries, prefix) + (if inside then DepthFirst(store, rank, store[last.hash], path, rank(last.hash)) else [])
  {
    var front, last := entries[..|entries| - 1], entries[|entries| - 1];
    LeavesOnly(store, rank, front, prefix, bound);
    ListingOfOne(store, rank, Level(entries, prefix));
    hide Leaves, Branches;
    SkipEmpty(store, rank, Below(store, front, prefix),
              if last.kind.Tree? && last.hash in store then [Level(store[last.hash], Join(prefix, last.name))] else []);
  }

  // The walk's order is a depth-first one exactly where depth and breadth make no difference: if
  // all the way down only the last entry of a directory has anything below it.
  lemma {:induction false} DepthFirstIff(store: Store, rank: Sha -> nat, entries: seq<Entry>, prefix: string, bound: nat)
    requires Acyclic(store, rank) && ProperTrees(store) && ProperTree(entries) && RanksBelow(entries, rank, bound)
    ensures Listing(store, rank, [Level(entries, prefix)]) == DepthFirst(store, rank, entries, prefix, bound) <==>
      OnlyLastBranches(store, rank, entries, bound)
    decreases bound
  {
    if entries == [] {
      ListingOfOne(store, rank, Level(entries, prefix));
    } else if Leaves(store, entries[..|entries| - 1]) {
      var last := entries[|entries| - 1];
      Follows(store, rank, entries, prefix, bound);
      if last.kind.Tree? && last.hash in store {
        var path := Join(prefix, last.name);
        DepthFirstIff(store, rank, store[last.hash], path, rank(last.hash));
        SameStart(Rows(entries, prefix), Listing(store, rank, [Level(store[last.hash], path)]),
                  DepthFirst(store, rank, store[last.hash], path, rank(last.hash)));
      }
      hide Listing, DepthFirst, Leaves, Join, Rows, ProperTree, ProperTrees;
    } else {
      Parts(store, rank, entries, prefix, bound);
      hide Listing, DepthFirst, Leaves;
    }
  }

  lemma SameStart(start: seq<Row>, a: seq<Row>, b: seq<Row>)
    ensures start + a == start + b <==> a == b
  {
    assert (start + a)[|start|..] == a && (start + b)[|start|..] == b;
  }

  lemma ListingOfOne(store: Store, rank: Sha -> nat, level: Level)
    requires Acyclic(store, rank)
    ensures Listing(store, rank, [level]) ==
      Rows(level.entries, level.prefix) + Listing(store, rank, Below(store, level.entries, level.prefix))
  {
    assert [level][1..] + Below(store, level.entries, level.prefix) == Below(store, level.entries, level.prefix);
  }

  // The least input: a directory with a file in it, and a file beside it.
  lemma NotDepthFirst(rank: Sha -> nat)
    requires rank("t") > rank("d")
    ensures var store: Store := map["t" := [Entry("d", Tree, "40000", "d"), Entry("f", Blob, "100644", "f")],
                                    "d" := [Entry("g", Blob, "100644", "g")]];
      && Acyclic(store, rank)
      && Listing(store, rank, [Level(store["t"], "")]) != DepthFirst(store, rank, store["t"], "", rank("t"))
  {
    var store: Store := map["t" := [Entry("d", Tree, "40000", "d"), Entry("f", Blob, "100644", "f")],
                            "d" := [Entry("g", Blob, "100644", "g")]];
    assert Branches(store, store["t"][..1][0]);
    DepthFirstIff(store, rank, store["t"], "", rank("t"));
  }

  // ---- no entry twice ---------------------------------------------------------------

  ghost predicate DistinctPaths(rows: seq<Row>) {
    forall i, j | 0 <= i < j < |rows| :: rows[i].path != rows[j].path
  }

  predicate Apart(a: seq<string>, b: seq<string>) { !(a <= b) && !(b <= a) }

  // No level lies under another.
  ghost predicate LevelsApart(queue: seq<Level>) {
    forall i, j | 0 <= i < j < |queue| :: Apart(PrefixNames(queue[i].prefix), PrefixNames(queue[j].prefix))
  }

  lemma {:induction false} RowsDistinct(level: Level)
    requires ProperTree(level.entries)
    ensures DistinctPaths(Rows(level.entries, level.prefix))
  {
    var rows, above := Rows(level.entries, level.prefix), PrefixNames(level.prefix);
    forall i, j | 0 <= i < j < |rows| ensures rows[i].path != rows[j].path {
      JoinNames(level.prefix, level.entries[i].name);
      JoinNames(level.prefix, level.entries[j].name);
      assert (above + [level.entries[i].name])[|above|] != (above + [level.entries[j].name])[|above|];
    }
  }

  // A directory below a level has the level's names and one more.
  lemma {:induction false} BelowNames(store: Store, entries: seq<Entry>, prefix: string)
    requires ProperTree(entries)
    ensures var levels, above := Below(store, entries, prefix), PrefixNames(prefix);
      && (forall i | 0 <= i < |levels| :: exists k | 0 <= k < |entries| :: PrefixNames(levels[i].prefix) == above + [entries[k].name])
      && LevelsApart(levels)
  {
    var levels, above := Below(store, entries, prefix), PrefixNames(prefix);
    if entries != [] {
      var front, last := entries[..|entries| - 1], entries[|entries| - 1];
      BelowNames(store, front, prefix);
      JoinNames(prefix, last.name);
      var before := Below(store, front, prefix);
      forall i | 0 <= i < |levels|
        ensures exists k | 0 <= k < |entries| :: PrefixNames(levels[i].prefix) == above + [entries[k].name]
      {
        if i < |before| {
          assert levels[i] == before[i];
          var k :| 0 <= k < |front| && PrefixNames(before[i].prefix) == above + [front[k].name];
          assert front[k] == entries[k];
        } else {
          assert PrefixNames(levels[i].prefix) == above + [entries[|entries| - 1].name];
        }
      }
      forall i, j | 0 <= i < j < |levels| ensures Apart(PrefixNames(levels[i].prefix), PrefixNames(levels[j].prefix)) {
        assert levels[i] == before[i];
        if j < |before| {
          assert levels[j] == before[j];
        } else {
          var k :| 0 <= k < |front| && PrefixNames(before[i].prefix) == above + [front[k].name];
          SiblingsApart(above, front[k].name, last.name);
        }
      }
    }
  }

  lemma SiblingsApart(above: seq<string>, a: string, b: string)
    requires a != b
    ensures Apart(above + [a], above + [b])
  {
    assert (above + [a])[|above|] != (above + [b])[|above|];
  }

  lemma ChildApart(above: seq<string>, name: string, other: seq<string>)
    requires Apart(above, other)
    ensures Apart(other, above + [name])
  {
    assert (above + [name])[..|above|] == above;
  }

  // A name below a level is not below another level, nor below a directory next to it.
  lemma NotUnder(above: seq<string>, name: string, other: seq<string>)
    requires Apart(above, other) || (|other| == |above| + 1 && other[..|above|] == above)
    ensures !(|other| < |above + [name]| && (above + [name])[..|other|] == other)
  {
    var names := above + [name];
    assert |other| <= |above| ==> names[..|other|] == above[..|other|];
  }

  lemma {:induction false} NewLevelApart(queue: seq<Level>, levels: seq<Level>, i: nat, j: nat)
    requires LevelsApart(queue) && 0 < i < |queue| && j < |levels|
    requires exists k | 0 <= k < |queue[0].entries| ::
      PrefixNames(levels[j].prefix) == PrefixNames(queue[0].prefix) + [queue[0].entries[k].name]
    ensures Apart(PrefixNames(queue[i].prefix), PrefixNames(levels[j].prefix))
  {
    hide Apart, PrefixNames;
    var k :| 0 <= k < |queue[0].entries| &&
      PrefixNames(levels[j].prefix) == PrefixNames(queue[0].prefix) + [queue[0].entries[k].name];
    ChildApart(PrefixNames(queue[0].prefix), queue[0].entries[k].name, PrefixNames(queue[i].prefix));
  }

  lemma ApartConcat(a: seq<Level>, b: seq<Level>)
    requires LevelsApart(a) && LevelsApart(b)
    requires forall i, j | 0 <= i < |a| && 0 <= j < |b| :: Apart(PrefixNames(a[i].prefix), PrefixNames(b[j].prefix))
    ensures LevelsApart(a + b)
  {
    hide Apart, PrefixNames;
  }

  lemma RestApart(queue: seq<Level>)
    requires queue != [] && LevelsApart(queue)
    ensures LevelsApart(queue[1..])
  {
    hide Apart, PrefixNames;
  }

  lemma {:induction false} NextLevelsApart(store: Store, queue: seq<Level>)
    requires queue != [] && ProperTree(queue[0].entries) && LevelsApart(queue)
    ensures LevelsApart(queue[1..] + Below(store, queue[0].entries, queue[0].prefix))
  {
    var levels := Below(store, queue[0].entries, queue[0].prefix);
    BelowNames(store, queue[0].entries, queue[0].prefix);
    RestApart(queue);
    hide Below, Apart, PrefixNames, ProperTree, LevelsApart;
    forall i, j | 0 <= i < |queue[1..]| && 0 <= j < |levels|
      ensures Apart(PrefixNames(queue[1..][i].prefix), PrefixNames(levels[j].prefix))
    {
      NewLevelApart(queue, levels, i + 1, j);
    }
    ApartConcat(queue[1..], levels);
  }

  // A row of the first level has another path than anything listed after it.
  lemma {:induction false} RowThenRest(store: Store, rank: Sha -> nat, queue: seq<Level>, row: Row, later: Row)
    requires Acyclic(store, rank) && ProperTrees(store) && ProperLevels(queue) && LevelsApart(queue) && queue != []
    requires row in Rows(queue[0].entries, queue[0].prefix)
    requires later in Listing(store, rank, queue[1..] + Below(store, queue[0].entries, queue[0].prefix))
    ensures row.path != later.path
  {
    hide Listing, EntryAt, Below, Names, PrefixNames, Apart;
    var level := queue[0];
    var levels := Below(store, level.entries, level.prefix);
    var next := queue[1..] + levels;
    NextLevelsProper(store, queue);
    ListingIsWhole(store, rank, next, later.path, later.entry);
    assert later == Row(later.path, later.entry);
    var j :| 0 <= j < |next| && Leads(store, next[j], later.path, later.entry);
    var i :| 0 <= i < |level.entries| && Rows(level.entries, level.prefix)[i] == row;
    hide Rows, Leads, Acyclic, ProperTrees;
    var above := PrefixNames(level.prefix);
    OtherLevel(store, queue, j);
    NotUnder(above, row.entry.name, PrefixNames(next[j].prefix));
    JoinNames(level.prefix, row.entry.name);
    LeadsUnder(store, next[j], later.path, later.entry);
  }

  lemma LeadsUnder(store: Store, level: Level, path: string, e: Entry)
    requires Leads(store, level, path, e)
    ensures var other := PrefixNames(level.prefix); |other| < |Names(path)| && Names(path)[..|other|] == other
  {}

  lemma {:induction false} OtherLevel(store: Store, queue: seq<Level>, j: nat)
    requires queue != [] && ProperTree(queue[0].entries) && LevelsApart(queue)
    requires j < |queue[1..] + Below(store, queue[0].entries, queue[0].prefix)|
    ensures var above, next := PrefixNames(queue[0].prefix), queue[1..] + Below(store, queue[0].entries, queue[0].prefix);
      var other := PrefixNames(next[j].prefix);
      Apart(above, other) || (|other| == |above| + 1 && other[..|above|] == above)
  {
    hide Below, Apart, PrefixNames, ProperTree;
    var level := queue[0];
    var levels := Below(store, level.entries, level.prefix);
    var next := queue[1..] + levels;
    BelowNames(store, level.entries, level.prefix);
    if j < |queue| - 1 {
      assert next[j] == queue[j + 1];
    } else {
      assert next[j] == levels[j - (|queue| - 1)];
    }
  }

  // No path is listed twice.
  lemma {:induction false} ListingIsDistinct(store: Store, rank: Sha -> nat, queue: seq<Level>)
    requires Acyclic(store, rank) && ProperTrees(store) && ProperLevels(queue) && LevelsApart(queue)
    ensures DistinctPaths(Listing(store, rank, queue))
    decreases QueueWeight(store, rank, queue)
  {
    if queue != [] {
      var level := queue[0];
      var next := queue[1..] + Below(store, level.entries, level.prefix);
      QueueLightens(store, rank, queue);
      hide LevelsApart, ProperTrees, ProperTree, QueueWeight, Acyclic, Below, Rows;
      NextLevelsProper(store, queue);
      NextLevelsApart(store, queue);
      ListingIsDistinct(store, rank, next);
      RowsDistinct(level);
      var rows, rest := Rows(level.entries, level.prefix), Listing(store, rank, next);
      forall i, j | 0 <= i < |rows| && 0 <= j < |rest| ensures rows[i].path != rest[j].path {
        RowThenRest(store, rank, queue, rows[i], rest[j]);
      }
      DistinctConcat(rows, rest);
    }
  }

  lemma DistinctConcat(a: seq<Row>, b: seq<Row>)
    requires DistinctPaths(a) && DistinctPaths(b)
    requires forall i, j | 0 <= i < |a| && 0 <= j < |b| :: a[i].path != b[j].path
    ensures DistinctPaths(a + b)
  {}

  // The listing of a whole tree goes level by level and never comes back to a path.
  lemma {:induction false} ListingShape(store: Store, rank: Sha -> nat, entries: seq<Entry>)
    requires Acyclic(store, rank) && ProperTrees(store) && ProperTree(entries)
    ensures var rows := Listing(store, rank, [Level(entries, "")]);
      DistinctPaths(rows) && DepthsAscend(rows, 1)
  {
    var queue := [Level(entries, "")];
    ListingIsDistinct(store, rank, queue);
    ListingIsBreadthFirst(store, rank, queue, 1);
  }

  // ---- flattenTree ------------------------------------------------------------------

  // The blob a path leads to.
  function BlobAt(store: Store, root: Sha, path: string): Option<Sha> {
    match EntryAt(store, EntriesOf(store, root), Names(path))
    case Some(e) => if e.kind.Blob? then Some(e.hash) else None
    case None => None
  }

  function Get(m: map<string, Sha>, path: string): Option<Sha> { if path in m then Some(m[path]) else None }

  // Each blob set under its path, in order.
  function BlobMap(rows: seq<Row>): map<string, Sha> {
    if rows == [] then map[]
    else
      var before, last := BlobMap(rows[..|rows| - 1]), rows[|rows| - 1];
      if last.entry.kind.Blob? then before[last.path := last.entry.hash] else before
  }

  lemma BlobMapSnoc(rows: seq<Row>, row: Row)
    ensures BlobMap(rows + [row]) == if row.entry.kind.Blob? then BlobMap(rows)[row.path := row.entry.hash] else BlobMap(rows)
  {
    assert (rows + [row])[..|rows|] == rows;
  }

  lemma {:induction false} BlobMapHas(rows: seq<Row>, path: string)
    ensures path in BlobMap(rows) <==> exists i | 0 <= i < |rows| :: rows[i].path == path && rows[i].entry.kind.Blob?
    ensures path in BlobMap(rows) ==>
      exists i | 0 <= i < |rows| :: rows[i].path == path && rows[i].entry.kind.Blob? && rows[i].entry.hash == BlobMap(rows)[path]
  {
    if rows != [] { BlobMapHas(rows[..|rows| - 1], path); }
  }

  datatype Pending = Pending(sha: Sha, prefix: string)

  // The level that a waiting tree will open, if it can be read.
  function LevelOf(store: Store, p: Pending): seq<Level> {
    if p.sha in store then [Level(store[p.sha], p.prefix)] else []
  }

  function LevelsOf(store: Store, queue: seq<Pending>): seq<Level> {
    if queue == [] then [] else LevelsOf(store, queue[..|queue| - 1]) + LevelOf(store, queue[|queue| - 1])
  }

  lemma {:induction false} LevelsOfFirst(store: Store, queue: seq<Pending>)
    requires queue != []
    ensures LevelsOf(store, queue) == LevelOf(store, queue[0]) + LevelsOf(store, queue[1..])
  {
    hide LevelOf;
    var front := queue[..|queue| - 1];
    if front == [] {
      NoLevels(store, front);
      NoLevels(store, queue[1..]);
    } else {
      LevelsOfFirst(store, front);
      MiddleOf(queue);
      LevelsAssociate(LevelOf(store, queue[0]), LevelsOf(store, front[1..]), LevelOf(store, queue[|queue| - 1]));
    }
  }

  lemma NoLevels(store: Store, queue: seq<Pending>)
    requires queue == []
    ensures LevelsOf(store, queue) == []
  {}

  lemma MiddleOf(queue: seq<Pending>)
    requires |queue| > 1
    ensures queue[1..][..|queue[1..]| - 1] == queue[..|queue| - 1][1..]
    ensures queue[1..][|queue[1..]| - 1] == queue[|queue| - 1]
  {}

  lemma LevelsAssociate(a: seq<Level>, b: seq<Level>, c: seq<Level>)
    ensures a + b + c == a + (b + c)
  {}

  lemma LevelsOfSnoc(store: Store, queue: seq<Pending>, p: Pending)
    ensures LevelsOf(store, queue + [p]) == LevelsOf(store, queue) + LevelOf(store, p)
  {
    assert (queue + [p])[..|queue|] == queue;
  }

  // One level: its blobs are set and its directories queued.
  method FlattenLevel(store: Store, level: Level, before: map<string, Sha>, waiting: seq<Pending>, ghost seen: seq<Row>)
    returns (out: map<string, Sha>, queue: seq<Pending>)
    requires before == BlobMap(seen)
    ensures out == BlobMap(seen + Rows(level.entries, level.prefix))
    ensures LevelsOf(store, queue) == LevelsOf(store, waiting) + Below(store, level.entries, level.prefix)
  {
    hide Rows, Below, BlobMap, LevelsOf, LevelOf;
    out, queue := before, waiting;
    NothingYet(store, level);
    assert seen + [] == seen;
    for i := 0 to |level.entries|
      invariant out == BlobMap(seen + Rows(level.entries[..i], level.prefix))
      invariant LevelsOf(store, queue) == LevelsOf(store, waiting) + Below(store, level.entries[..i], level.prefix)
    {
      var entry := level.entries[i];
      var path := if level.prefix != "" then level.prefix + "/" + entry.name else entry.name;
      FlattenStep(store, level, i, seen, path);
      LevelsOfSnoc(store, queue, Pending(entry.hash, path));
      if entry.kind.Tree? { queue := queue + [Pending(entry.hash, path)]; }
      else if entry.kind.Blob? { out := out[path := entry.hash]; }
    }
    assert level.entries[..|level.entries|] == level.entries;
  }

  // What one more entry of a level adds to the blobs and to the levels below.
  lemma FlattenStep(store: Store, level: Level, i: nat, seen: seq<Row>, path: string)
    requires i < |level.entries|
    requires path == if level.prefix != "" then level.prefix + "/" + level.entries[i].name else level.entries[i].name
    ensures var entry, blobs := level.entries[i], BlobMap(seen + Rows(level.entries[..i], level.prefix));
      && BlobMap(seen + Rows(level.entries[..i + 1], level.prefix)) == (if entry.kind.Blob? then blobs[path := entry.hash] else blobs)
      && Below(store, level.entries[..i + 1], level.prefix) ==
         Below(store, level.entries[..i], level.prefix) + if entry.kind.Tree? then LevelOf(store, Pending(entry.hash, path)) else []
  {
    hide Rows, Below, BlobMap;
    NextEntry(store, level, i);
    BlobMapSnoc(seen + Rows(level.entries[..i], level.prefix), Row(path, level.entries[i]));
    RegroupOne(seen, Rows(level.entries[..i], level.prefix), Row(path, level.entries[i]));
  }

  lemma RegroupOne(a: seq<Row>, b: seq<Row>, row: Row)
    ensures a + (b + [row]) == (a + b) + [row]
  {}

  // A commit's paths and blobs: exactly the paths that lead to a blob, each with that blob.
  method FlattenTree(store: Store, tree: Option<Sha>, ghost rank: Sha -> nat) returns (out: map<string, Sha>)
    requires Acyclic(store, rank)
    ensures tree.None? ==> out == map[]
    ensures tree.Some? ==> out == BlobMap(Listing(store, rank, [Level(EntriesOf(store, tree.value), "")]))
    ensures tree.Some? && ProperTrees(store) ==> forall path :: Get(out, path) == BlobAt(store, tree.value, path)
  {
    out := map[];
    if tree.None? { return; }
    var queue := [Pending(tree.value, "")];
    ghost var root := [Level(EntriesOf(store, tree.value), "")];
    ghost var all := Listing(store, rank, root);
    ghost var seen: seq<Row> := [];
    OnlyRoot(store, rank, tree.value);
    hide Weight, QueueWeight, LevelWeight, Acyclic, Rows, Below, Join, BlobMap, LevelsOf, Listing;
    while queue != []
      invariant out == BlobMap(seen) && all == seen + Listing(store, rank, LevelsOf(store, queue))
      decreases QueueWeight(store, rank, LevelsOf(store, queue)), |queue|
    {
      ghost var levels := LevelsOf(store, queue);
      LevelsOfFirst(store, queue);
      var next := queue[0];
      queue := queue[1..];
      if next.sha in store {
        ghost var level := Level(store[next.sha], next.prefix);
        assert levels[0] == level && levels[1..] == LevelsOf(store, queue);
        QueueLightens(store, rank, levels);
        out, queue := FlattenLevel(store, Level(store[next.sha], next.prefix), out, queue, seen);
        Regroup(seen, Rows(level.entries, level.prefix), Listing(store, rank, LevelsOf(store, queue)));
        seen := seen + Rows(level.entries, level.prefix);
      } else {
        assert [] + LevelsOf(store, queue) == LevelsOf(store, queue);
      }
    }
    assert seen + [] == seen;
    if ProperTrees(store) { FlatIsTree(store, rank, tree.value); }
  }

  lemma {:induction false} OnlyRoot(store: Store, rank: Sha -> nat, root: Sha)
    requires Acyclic(store, rank)
    ensures Listing(store, rank, LevelsOf(store, [Pending(root, "")])) == Listing(store, rank, [Level(EntriesOf(store, root), "")])
    ensures BlobMap([]) == map[]
  {
    var queue := [Pending(root, "")];
    assert queue[..0] == [];
    if root !in store {
      var levels := [Level([], "")];
      assert levels[1..] + Below(store, [], "") == [];
    }
  }

  lemma {:induction false} FlatIsTree(store: Store, rank: Sha -> nat, root: Sha)
    requires Acyclic(store, rank) && ProperTrees(store)
    ensures var out := BlobMap(Listing(store, rank, [Level(EntriesOf(store, root), "")]));
      forall path :: Get(out, path) == BlobAt(store, root, path)
  {
    var out := BlobMap(Listing(store, rank, [Level(EntriesOf(store, root), "")]));
    forall path ensures Get(out, path) == BlobAt(store, root, path) {
      hide Get, BlobAt, Acyclic, ProperTrees, BlobMap, Listing, EntriesOf;
      FlatAt(store, rank, root, path);
    }
  }

  lemma {:induction false} FlatAt(store: Store, rank: Sha -> nat, root: Sha, path: string)
    requires Acyclic(store, rank) && ProperTrees(store)
    ensures Get(BlobMap(Listing(store, rank, [Level(EntriesOf(store, root), "")])), path) == BlobAt(store, root, path)
  {
    var entries := EntriesOf(store, root);
    var rows := Listing(store, rank, [Level(entries, "")]);
    hide BlobMap, Listing, EntryAt, Names, Acyclic;
    BlobMapHas(rows, path);
    if path in BlobMap(rows) {
      var i :| 0 <= i < |rows| && rows[i].path == path && rows[i].entry.kind.Blob? && rows[i].entry.hash == BlobMap(rows)[path];
      assert rows[i] == Row(path, rows[i].entry);
      ListingOfTree(store, rank, entries, path, rows[i].entry);
    } else if BlobAt(store, root, path).Some? {
      var e := EntryAt(store, entries, Names(path)).value;
      ListingOfTree(store, rank, entries, path, e);
    }
  }
}
