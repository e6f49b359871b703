// src/server/diff/myers.ts: the greedy search over the edit graph, the backtracking pass
// over its recorded frontiers, and the trimming of the common ends around them.
module Myers {
  import opened Wrappers
  import opened EditGraph
  import opened EditScript

  // The largest |oldLines| + |newLines| that is diffed: twice MAX_DIFF_LINES.
  const MAX_TOTAL_LINES := 40_000

  // An element of the Int32Array holding the frontier.
  type Int32 = x: int | -0x8000_0000 <= x < 0x8000_0000

  datatype DiffError = DiffTooLarge(total: nat)

  // ---- the frontier -----------------------------------------------------------------

  function At(v: seq<Int32>, max: int, k: int): int
    requires -max <= k && k + max < |v|
  {
    v[k + max]
  }

  // Round d extends diagonal k downwards from k + 1 rather than rightwards from k - 1.
  predicate Down(v: seq<Int32>, max: int, d: int, k: int)
    requires |v| == 2 * max + 1 && 0 <= d <= max && -d <= k <= d
  {
    k == -d || (k != d && At(v, max, k - 1) < At(v, max, k + 1))
  }

  function Start(v: seq<Int32>, max: int, d: int, k: int): int
    requires 1 <= max && |v| == 2 * max + 1 && 0 <= d <= max && -d <= k <= d
  {
    if Down(v, max, d, k) then At(v, max, k + 1) else At(v, max, k - 1) + 1
  }

  // v holds the furthest point that d edits reach on the i-th diagonal of round d, 2i - d.
  ghost predicate Reached(a: seq<Line>, b: seq<Line>, max: int, v: seq<Int32>, d: int, i: int)
    requires |v| == 2 * max + 1 && 0 <= i <= d <= max
  {
    Furthest(a, b, d, 2 * i - d, At(v, max, 2 * i - d))
  }

  // ... and so for its first count diagonals.
  ghost predicate Covered(a: seq<Line>, b: seq<Line>, max: int, v: seq<Int32>, d: int, count: int)
    requires |v| == 2 * max + 1 && 0 <= d <= max && count <= d + 1
  {
    forall i | 0 <= i < count :: Reached(a, b, max, v, d, i)
  }

  // v is the frontier as round d finds it: what d - 1 edits reach on each of their diagonals.
  ghost predicate Frontier(a: seq<Line>, b: seq<Line>, max: int, v: seq<Int32>, d: int) {
    && 1 <= max && |v| == 2 * max + 1 && 0 <= d <= max + 1
    && (d == 0 ==> At(v, max, 1) == 0)
    && (d > 0 ==> Covered(a, b, max, v, d - 1, d))
  }

  lemma FirstRound(a: seq<Line>, b: seq<Line>, max: int, v: seq<Int32>)
    requires 1 <= max && |v| == 2 * max + 1 && v[1 + max] == 0
    ensures Frontier(a, b, max, v, 0)
  {}

  lemma StartRound(a: seq<Line>, b: seq<Line>, max: int, v: seq<Int32>, d: int)
    requires |v| == 2 * max + 1 && 0 <= d <= max
    ensures Covered(a, b, max, v, d, 0)
  {}

  lemma NextRound(a: seq<Line>, b: seq<Line>, max: int, v: seq<Int32>, d: int)
    requires 1 <= max && |v| == 2 * max + 1 && 0 <= d <= max && Covered(a, b, max, v, d, d + 1)
    ensures Frontier(a, b, max, v, d + 1)
  {}

  // Where round d starts on a diagonal is within d edits.
  lemma StartPoint(a: seq<Line>, b: seq<Line>, max: int, v: seq<Int32>, d: int, i: int)
    requires Frontier(a, b, max, v, d) && 0 <= i <= d <= max
    ensures -d <= 2 * i - d <= d
    ensures var k := 2 * i - d; var x := Start(v, max, d, k);
      0 <= x && k <= x && Dist(a, b, x, x - k) <= d
  {
    hide Dist;
    if d == 0 {
      DistBound(a, b, 0, 0);
    } else if Down(v, max, d, 2 * i - d) {
      StartDown(a, b, max, v, d, i);
    } else {
      StartRight(a, b, max, v, d, i);
    }
  }

  lemma StartDown(a: seq<Line>, b: seq<Line>, max: int, v: seq<Int32>, d: int, i: int)
    requires Frontier(a, b, max, v, d) && 0 <= i < d <= max
    ensures var k := 2 * i - d; -max <= k < max && var x := At(v, max, k + 1); 0 <= x && k <= x && Dist(a, b, x, x - k) <= d
  {
    hide Dist;
    assert Reached(a, b, max, v, d - 1, i);
    var k := 2 * i - d;
    var x := At(v, max, k + 1);
    DistDiagonal(a, b, x, x - k - 1);
  }

  lemma StartRight(a: seq<Line>, b: seq<Line>, max: int, v: seq<Int32>, d: int, i: int)
    requires Frontier(a, b, max, v, d) && 0 < i <= d <= max
    ensures var k := 2 * i - d; -max < k <= max && var x := At(v, max, k - 1) + 1; 0 <= x && k <= x && Dist(a, b, x, x - k) <= d
  {
    hide Dist;
    assert Reached(a, b, max, v, d - 1, i - 1);
    var k := 2 * i - d;
    var x := At(v, max, k - 1) + 1;
    DistDiagonal(a, b, x - 1, x - k);
  }

  // From there on only a match can lead on: both neighbouring diagonals already cost more than d.
  lemma PastStart(a: seq<Line>, b: seq<Line>, max: int, v: seq<Int32>, d: int, i: int, x: int)
    requires Frontier(a, b, max, v, d) && 0 <= i <= d <= max
    requires var k := 2 * i - d; Start(v, max, d, k) <= x && 0 <= x && k <= x
    ensures var k := 2 * i - d; Dist(a, b, x, x - k + 1) > d && Dist(a, b, x + 1, x - k) > d
  {
    StartAbove(v, max, d, i, x);
    hide *;
    PastLeft(a, b, max, v, d, i, x);
    PastRight(a, b, max, v, d, i, x + 1);
  }

  // A round starts past what the diagonal below it holds and no lower than the one above.
  lemma StartAbove(v: seq<Int32>, max: int, d: int, i: int, x: int)
    requires 1 <= max && |v| == 2 * max + 1 && 0 <= i <= d <= max && Start(v, max, d, 2 * i - d) <= x
    ensures (i > 0 ==> At(v, max, 2 * i - d - 1) < x) && (i < d ==> At(v, max, 2 * i - d + 1) <= x)
  {
  }

  lemma PastLeft(a: seq<Line>, b: seq<Line>, max: int, v: seq<Int32>, d: int, i: int, x: int)
    requires Frontier(a, b, max, v, d) && 0 <= i <= d <= max
    requires var k := 2 * i - d; 0 <= x && k <= x + 1 && (i > 0 ==> At(v, max, k - 1) < x)
    ensures Dist(a, b, x, x - (2 * i - d) + 1) > d
  {
    hide Dist;
    var k := 2 * i - d;
    if i == 0 {
      DistBound(a, b, x, x - k + 1);
    } else {
      assert Reached(a, b, max, v, d - 1, i - 1);
      FurthestIsMaximum(a, b, d - 1, k - 1, At(v, max, k - 1), x);
    }
  }

  lemma PastRight(a: seq<Line>, b: seq<Line>, max: int, v: seq<Int32>, d: int, i: int, x: int)
    requires Frontier(a, b, max, v, d) && 0 <= i <= d <= max
    requires var k := 2 * i - d; 0 <= x && k < x && (i < d ==> At(v, max, k + 1) < x)
    ensures Dist(a, b, x, x - (2 * i - d) - 1) > d
  {
    hide Dist;
    var k := 2 * i - d;
    if i == d {
      DistBound(a, b, x, x - k - 1);
    } else {
      assert Reached(a, b, max, v, d - 1, i);
      FurthestIsMaximum(a, b, d - 1, k + 1, At(v, max, k + 1), x);
    }
  }

  // The greedy step: sliding from the start until nothing matches reaches the furthest
  // point of the diagonal.
  lemma GreedyStep(a: seq<Line>, b: seq<Line>, max: int, v: seq<Int32>, d: int, i: int, x: int)
    requires Frontier(a, b, max, v, d) && 0 <= i <= d <= max
    requires var k := 2 * i - d;
      Start(v, max, d, k) <= x && 0 <= x && k <= x && Dist(a, b, x, x - k) <= d && !Match(a, b, x, x - k)
    ensures Furthest(a, b, d, 2 * i - d, x) && x <= |a| + d
  {
    var k := 2 * i - d;
    PastStart(a, b, max, v, d, i, x);
    DistDiagonal(a, b, x, x - k);
    DistBeyond(a, b, x, x - k);
  }

  // The same step read backwards: between its start and its furthest point, the diagonal matches.
  lemma RunMatches(a: seq<Line>, b: seq<Line>, max: int, v: seq<Int32>, d: int, i: int, x: int)
    requires Frontier(a, b, max, v, d) && 0 <= i <= d <= max
    requires var k := 2 * i - d;
      Start(v, max, d, k) < x && 0 < x && k < x && Dist(a, b, x, x - k) == d
    ensures var k := 2 * i - d; Match(a, b, x - 1, x - k - 1) && Dist(a, b, x - 1, x - k - 1) == d
  {
    var k := 2 * i - d;
    PastStart(a, b, max, v, d, i, x - 1);
    DistDiagonal(a, b, x - 1, x - k - 1);
    hide Dist, Frontier, Start;
  }

  // Round d writes only diagonals of its own parity, so the frontier it reads stays as it was.
  lemma WriteKeepsFrontier(a: seq<Line>, b: seq<Line>, max: int, v: seq<Int32>, d: int, i: int, x: Int32)
    requires Frontier(a, b, max, v, d) && 0 <= i <= d <= max
    requires Covered(a, b, max, v, d, i) && Furthest(a, b, d, 2 * i - d, x)
    ensures var w := v[2 * i - d + max := x];
      Frontier(a, b, max, w, d) && Covered(a, b, max, w, d, i + 1)
  {
    hide Furthest;
    var k, before := 2 * i - d, d - 1;
    var w := v[k + max := x];
    OtherDiagonals(a, b, max, v, w, d, i, k);
    if d > 0 {
      forall j ensures !On(before, j, k) { assert j < i ==> 2 * j <= 2 * i - 2; }
      OtherDiagonals(a, b, max, v, w, before, d, k);
    }
  }

  // The j-th diagonal of round d is k.
  predicate On(d: int, j: int, k: int) { k == 2 * j - d }

  lemma OtherDiagonals(a: seq<Line>, b: seq<Line>, max: int, v: seq<Int32>, w: seq<Int32>, d: int, count: int, k: int)
    requires |v| == 2 * max + 1 == |w| && 0 <= d <= max && count <= d + 1
    requires Covered(a, b, max, v, d, count)
    requires forall j | 0 <= j < |v| && j != k + max :: w[j] == v[j]
    requires forall j | 0 <= j < count :: !On(d, j, k)
    ensures Covered(a, b, max, w, d, count)
  {
    hide Furthest;
    forall j | 0 <= j < count ensures Reached(a, b, max, w, d, j) {
      assert Reached(a, b, max, v, d, j) && !On(d, j, k);
    }
  }

  // ---- the search -------------------------------------------------------------------

  // The first point at or past the far corner is the far corner itself, at its true distance.
  lemma FirstHit(a: seq<Line>, b: seq<Line>, d: int, k: int, x: int)
    requires Furthest(a, b, d, k, x) && x >= |a| && x - k >= |b| && d <= Dist(a, b, |a|, |b|)
    ensures x == |a| && k == |a| - |b| && d == Dist(a, b, |a|, |b|)
  {
    DistBeyond(a, b, x, x - k);
  }

  // A round that leaves the far corner's diagonal short of it needs more edits.
  lemma Miss(a: seq<Line>, b: seq<Line>, d: int, k: int, x: int)
    requires Furthest(a, b, d, k, x) && k == |a| - |b| && (x < |a| || x - k < |b|)
    ensures Dist(a, b, |a|, |b|) > d
  {
    FurthestIsMaximum(a, b, d, k, x, |a|);
  }

  // The far corner has a diagonal in the round of its own distance.
  lemma CornerDiagonal(a: seq<Line>, b: seq<Line>, d: int) returns (i: int)
    requires Dist(a, b, |a|, |b|) == d
    ensures 0 <= i <= d && 2 * i - d == |a| - |b|
  {
    LcsBound(a, b, |a|, |b|);
    i := |a| - Lcs(a, b, |a|, |b|);
  }

  // One diagonal of one round: step from the better neighbour, then follow the matching lines.
  method Extend(a: seq<Line>, b: seq<Line>, max: int, v: array<Int32>, d: int, k: int, ghost i: int)
    returns (reached: Int32)
    requires |a| + d <= 2 * MAX_TOTAL_LINES
    requires Frontier(a, b, max, v[..], d) && 0 <= i <= d <= max && k == 2 * i - d
    ensures Furthest(a, b, d, k, reached)
  {
    hide Lcs, Dist;
    var n, m := |a|, |b|;
    var index := k + max;
    var down := k == -d || (k != d && v[index - 1] < v[index + 1]);
    var x: int := if down then v[index + 1] else v[index - 1] as int + 1;
    assert x == Start(v[..], max, d, k);
    StartPoint(a, b, max, v[..], d, i);
    var y := x - k;
    while x < n && y < m && a[x] == b[y]
      invariant Start(v[..], max, d, k) <= x && 0 <= x && 0 <= y == x - k
      invariant Dist(a, b, x, y) <= d
    {
      DistDiagonal(a, b, x, y);
      x, y := x + 1, y + 1;
    }
    GreedyStep(a, b, max, v[..], d, i, x);
    reached := x;
  }

  method DiffCore(a: seq<Line>, b: seq<Line>, offset: nat) returns (edits: seq<Edit>)
    requires |a| + |b| <= MAX_TOTAL_LINES
    ensures Path(edits, a, b, offset, 0, 0, |a|, |b|)
    ensures Changes(edits) == Dist(a, b, |a|, |b|)
    ensures DeletionsFirst(edits)
  {
    hide Lcs, Dist, Furthest, Reached;
    DistBound(a, b, |a|, |b|);
    var n, m := |a|, |b|;
    if n == 0 && m == 0 { return []; }
    if n == 0 {
      edits := seq(m, i => Edit(Insert, -1, offset + i));
      InsertRun(edits, a, b, offset, 0);
      return;
    }
    if m == 0 {
      edits := seq(n, i => Edit(Delete, offset + i, -1));
      DeleteRun(edits, a, b, offset, 0);
      return;
    }

    hide Path, DeletionsFirst, Frontier, Covered;
    var max: int := n + m;
    var v := new Int32[2 * max + 1](_ => 0);
    var trace: seq<seq<Int32>> := [];
    FirstRound(a, b, max, v[..]);

    var d: int := 0;
    while d <= max
      invariant 0 <= d <= max + 1 && |trace| == d
      invariant forall e | 0 <= e < d :: Frontier(a, b, max, trace[e], e)
      invariant Frontier(a, b, max, v[..], d)
      invariant d <= Dist(a, b, n, m)
    {
      trace := trace + [v[..]];

      StartRound(a, b, max, v[..], d);
      var k: int := -d;
      ghost var i := 0;
      ghost var corner := 0;
      if Dist(a, b, n, m) == d { corner := CornerDiagonal(a, b, d); }
      while k <= d
        invariant 0 <= i <= d + 1 && k == 2 * i - d
        invariant Frontier(a, b, max, v[..], d)
        invariant Covered(a, b, max, v[..], d, i)
        invariant Dist(a, b, n, m) == d ==> i <= corner
        decreases d - k
      {
        ghost var was := v[..];
        var x := Extend(a, b, max, v, d, k, i);
        WriteKeepsFrontier(a, b, max, was, d, i, x);
        v[k + max] := x;
        assert v[..] == was[k + max := x as Int32];

        if x >= n && x - k >= m {
          FirstHit(a, b, d, k, x);
          edits := Backtrack(trace, a, b, n, m, max, offset);
          return;
        }
        if k == n - m { Miss(a, b, d, k, x); }
        k := k + 2;
        i := i + 1;
      }
      NextRound(a, b, max, v[..], d);
      d := d + 1;
    }
    // Round n + m cannot miss: no distance is larger.
    assert false;
  }

  // ---- backtracking -----------------------------------------------------------------

  // edits, read backwards, is a canonical script from (x, y) to the far corner with the given
  // number of changes. A deletion at its head leaves no room for an insertion before it.
  ghost predicate Tail(edits: seq<Edit>, a: seq<Line>, b: seq<Line>, offset: nat, x: nat, y: nat, changes: int, d: int) {
    var script := Reverse(edits);
    && Path(script, a, b, offset, x, y, |a|, |b|)
    && Changes(script) == changes
    && DeletionsFirst(script)
    && (script != [] && script[0].op == Delete && y > 0 ==> Dist(a, b, x + 1, y - 1) > d)
  }

  lemma TailEmpty(a: seq<Line>, b: seq<Line>, offset: nat, d: int)
    ensures Tail([], a, b, offset, |a|, |b|, 0, d)
  {}

  lemma PushEqual(edits: seq<Edit>, a: seq<Line>, b: seq<Line>, offset: nat, x: nat, y: nat, changes: int, d: int)
    requires Tail(edits, a, b, offset, x + 1, y + 1, changes, d) && Match(a, b, x, y)
    ensures Tail(edits + [Edit(Equal, offset + x, offset + y)], a, b, offset, x, y, changes, d)
  {
    ReversePush(edits, Edit(Equal, offset + x, offset + y));
  }

  lemma PushInsert(edits: seq<Edit>, a: seq<Line>, b: seq<Line>, offset: nat, x: nat, y: nat, changes: int, d: int)
    requires Tail(edits, a, b, offset, x, y + 1, changes, d) && y < |b|
    requires Dist(a, b, x, y) == d - 1
    ensures Tail(edits + [Edit(Insert, -1, offset + y)], a, b, offset, x, y, changes + 1, d - 1)
  {
    DistDiagonal(a, b, x, y);
    ReversePush(edits, Edit(Insert, -1, offset + y));
  }

  lemma PushDelete(edits: seq<Edit>, a: seq<Line>, b: seq<Line>, offset: nat, x: nat, y: nat, changes: int, d: int)
    requires Tail(edits, a, b, offset, x + 1, y, changes, d) && x < |a|
    requires y > 0 ==> Dist(a, b, x + 1, y - 1) > d - 1
    ensures Tail(edits + [Edit(Delete, offset + x, -1)], a, b, offset, x, y, changes + 1, d - 1)
  {
    ReversePush(edits, Edit(Delete, offset + x, -1));
  }

  lemma TailComplete(edits: seq<Edit>, a: seq<Line>, b: seq<Line>, offset: nat, changes: int, d: int)
    requires Tail(edits, a, b, offset, 0, 0, changes, d)
    ensures Path(Reverse(edits), a, b, offset, 0, 0, |a|, |b|)
    ensures Changes(Reverse(edits)) == changes && DeletionsFirst(Reverse(edits))
  {}

  // A rightward move was preferred because the diagonal above had not got as far.
  lemma RightwardMove(a: seq<Line>, b: seq<Line>, max: int, v: seq<Int32>, d: int, i: int, x: int)
    requires Frontier(a, b, max, v, d) && 0 <= i <= d <= max && 0 < d
    requires !Down(v, max, d, 2 * i - d) && x == At(v, max, 2 * i - d - 1)
    ensures Furthest(a, b, d - 1, 2 * i - d - 1, x) && x >= 0
    ensures x > 2 * i - d - 1 ==> Dist(a, b, x + 1, x - (2 * i - d)) > d - 1
  {
    hide Dist;
    assert Reached(a, b, max, v, d - 1, i - 1);
    if x > 2 * i - d - 1 { PastRight(a, b, max, v, d, i, x + 1); }
  }

  lemma DownwardMove(a: seq<Line>, b: seq<Line>, max: int, v: seq<Int32>, d: int, i: int, x: int)
    requires Frontier(a, b, max, v, d) && 0 <= i <= d <= max && 0 < d
    requires Down(v, max, d, 2 * i - d) && x == At(v, max, 2 * i - d + 1)
    ensures Furthest(a, b, d - 1, 2 * i - d + 1, x) && x > 2 * i - d && Dist(a, b, x, x - (2 * i - d) - 1) == d - 1
  {
    hide Dist;
    assert Reached(a, b, max, v, d - 1, i);
  }

  // Every furthest point lies on a diagonal of its round, at or past the start recorded for it.
  lemma WithinRun(a: seq<Line>, b: seq<Line>, max: int, v: seq<Int32>, d: int, k: int, x: int) returns (i: int)
    requires Frontier(a, b, max, v, d) && 0 <= d <= max && Furthest(a, b, d, k, x)
    ensures 0 <= i <= d && k == 2 * i - d && Dist(a, b, x, x - k) == d
    ensures 0 <= Start(v, max, d, k) <= x && k <= Start(v, max, d, k)
  {
    LcsBound(a, b, x, x - k);
    i := x - Lcs(a, b, x, x - k);
    StartPoint(a, b, max, v, d, i);
    FurthestIsMaximum(a, b, d, k, x, Start(v, max, d, k));
  }

  // Walks back down the round's matches to where the round started.
  method UnwindRun(v: seq<Int32>, a: seq<Line>, b: seq<Line>, x0: nat, y0: nat, previousX: int, previousY: int,
                   max: nat, offset: nat, edits0: seq<Edit>, ghost d: int, ghost i: int, ghost changes: int)
    returns (x: nat, y: nat, edits: seq<Edit>)
    requires Frontier(a, b, max, v, d) && 0 <= i <= d <= max
    requires x0 - y0 == 2 * i - d && Start(v, max, d, x0 - y0) <= x0 <= |a| && y0 <= |b|
    requires Dist(a, b, x0, y0) == d && Tail(edits0, a, b, offset, x0, y0, changes, d)
    requires previousY == previousX - (if Down(v, max, d, x0 - y0) then x0 - y0 + 1 else x0 - y0 - 1)
    requires Start(v, max, d, x0 - y0) == if Down(v, max, d, x0 - y0) then previousX else previousX + 1
    ensures x == Start(v, max, d, x0 - y0) && y == x - (x0 - y0) && x <= x0 && y <= y0
    ensures Dist(a, b, x, y) == d && Tail(edits, a, b, offset, x, y, changes, d)
  {
    ghost var k: int := x0 - y0;
    StartPoint(a, b, max, v, d, i);
    hide Dist, Frontier, Tail, Start, Down, Match;
    x, y, edits := x0, y0, edits0;
    while x > previousX && y > previousY
      invariant Start(v, max, d, k) <= x <= x0 && y <= y0 && y == x - k
      invariant Dist(a, b, x, y) == d
      invariant Tail(edits, a, b, offset, x, y, changes, d)
    {
      RunMatches(a, b, max, v, d, i, x);
      x, y := x - 1, y - 1;
      PushEqual(edits, a, b, offset, x, y, changes, d);
      edits := edits + [Edit(Equal, offset + x, offset + y)];
    }
  }

  lemma OriginIsFree(a: seq<Line>, b: seq<Line>, d: int)
    requires Furthest(a, b, d, 0, 0)
    ensures d == 0
  {
    DistBound(a, b, 0, 0);
  }

  // Replays the recorded frontiers from (n, m) back to the origin.
  method Backtrack(trace: seq<seq<Int32>>, a: seq<Line>, b: seq<Line>, n: nat, m: nat, max: nat, offset: nat)
    returns (result: seq<Edit>)
    requires n == |a| && m == |b| && max == n + m && 1 <= |trace| <= max + 1
    requires forall e | 0 <= e < |trace| :: Frontier(a, b, max, trace[e], e)
    requires Furthest(a, b, |trace| - 1, n - m, n)
    ensures Path(result, a, b, offset, 0, 0, n, m)
    ensures Changes(result) == |trace| - 1
    ensures DeletionsFirst(result)
  {
    hide Dist, Path, DeletionsFirst, Changes, Tail, Reached, Covered, Furthest;
    var edits: seq<Edit> := [];
    TailEmpty(a, b, offset, |trace| - 1);
    var x: nat, y: nat := n, m;
    var d: int := |trace| - 1;
    while d >= 0 && (x > 0 || y > 0)
      invariant 0 <= d < |trace| && x <= n && y <= m
      invariant Furthest(a, b, d, x - y, x)
      invariant Tail(edits, a, b, offset, x, y, |trace| - 1 - d, d)
      decreases d
    {
      var v := trace[d];
      var k: int := x - y;
      var index := k + max;
      ghost var i := WithinRun(a, b, max, v, d, k, x);

      var down := k == -d || (k != d && v[index - 1] < v[index + 1]);
      var previousK := if down then k + 1 else k - 1;
      var previousX: int := v[previousK + max];
      var previousY := previousX - previousK;
      x, y, edits := UnwindRun(v, a, b, x, y, previousX, previousY, max, offset, edits, d, i, |trace| - 1 - d);

      if d == 0 { break; }

      if down {
        DownwardMove(a, b, max, v, d, i, x);
        y := y - 1;
        PushInsert(edits, a, b, offset, x, y, |trace| - 1 - d, d);
        edits := edits + [Edit(Insert, -1, offset + y)];
      } else {
        RightwardMove(a, b, max, v, d, i, x - 1);
        x := x - 1;
        PushDelete(edits, a, b, offset, x, y, |trace| - 1 - d, d);
        edits := edits + [Edit(Delete, offset + x, -1)];
      }
      d := d - 1;
    }
    if d > 0 { OriginIsFree(a, b, d); }
    result := Reverse(edits);
    TailComplete(edits, a, b, offset, |trace| - 1 - d, d);
  }

  // ---- trimming ---------------------------------------------------------------------

  predicate AllEqual(s: seq<Edit>) {
    forall i | 0 <= i < |s| :: s[i].op == Equal
  }

  // Appending a kept line to a script.
  lemma AppendEqual(s: seq<Edit>, a: seq<Line>, b: seq<Line>, i: nat, j: nat)
    requires Path(s, a, b, 0, 0, 0, i, j) && DeletionsFirst(s) && Match(a, b, i, j)
    ensures var t := s + [Edit(Equal, i, j)];
      Path(t, a, b, 0, 0, 0, i + 1, j + 1) && DeletionsFirst(t) && Changes(t) == Changes(s)
  {
    var e := [Edit(Equal, i, j)];
    assert Path(e, a, b, 0, i, j, i + 1, j + 1);
    PathConcat(s, e, a, b, 0, 0, 0, i, j, i + 1, j + 1);
  }

  // The middle's optimal script, put after the common prefix, is optimal up to the common suffix.
  lemma JoinMiddle(s: seq<Edit>, core: seq<Edit>, a: seq<Line>, b: seq<Line>, p: nat, q: nat)
    requires p + q <= |a| && p + q <= |b| && a[..p] == b[..p]
    requires AllEqual(s) && Path(s, a, b, 0, 0, 0, p, p) && Changes(s) == 0
    requires var a', b' := a[p..|a| - q], b[p..|b| - q];
      && Path(core, a', b', p, 0, 0, |a'|, |b'|) && DeletionsFirst(core)
      && Changes(core) == Dist(a', b', |a'|, |b'|)
    ensures var n, m := |a| - q, |b| - q;
      && Path(s + core, a, b, 0, 0, 0, n, m) && DeletionsFirst(s + core)
      && Changes(s + core) == Dist(a, b, n, m)
  {
    hide Lcs;
    var a', b' := a[p..|a| - q], b[p..|b| - q];
    PathInContext(core, a, b, p, q, 0, 0, |a'|, |b'|);
    PathConcat(s, core, a, b, 0, 0, 0, p, p, |a| - q, |b| - q);
    LcsTrimmed(a, b, a', b', p, |a'|, |b'|);
  }

  // The last q lines are the same.
  predicate SameEnd(a: seq<Line>, b: seq<Line>, q: nat)
    requires q <= |a| && q <= |b|
  {
    forall x: nat, y: nat | |a| - q <= x < |a| && x - |a| == y - |b| :: Match(a, b, x, y)
  }

  // How many lines the two files have in common at the start, and then at the end.
  method CommonEnds(a: seq<Line>, b: seq<Line>) returns (prefix: nat, suffix: nat)
    ensures prefix + suffix <= |a| && prefix + suffix <= |b|
    ensures a[..prefix] == b[..prefix] && SameEnd(a, b, suffix)
    ensures Dist(a, b, |a|, |b|) == Dist(a, b, |a| - suffix, |b| - suffix)
  {
    hide Dist, Match;
    var n, m := |a|, |b|;
    assert SameEnd(a, b, 0);
    hide SameEnd;
    prefix := 0;
    while prefix < n && prefix < m && a[prefix] == b[prefix]
      invariant prefix <= n && prefix <= m && a[..prefix] == b[..prefix]
    {
      PrefixGrows(a, b, prefix);
      prefix := prefix + 1;
    }
    suffix := 0;
    while suffix < n - prefix && suffix < m - prefix && a[n - 1 - suffix] == b[m - 1 - suffix]
      invariant suffix <= n - prefix && suffix <= m - prefix
      invariant SameEnd(a, b, suffix)
      invariant Dist(a, b, n, m) == Dist(a, b, n - suffix, m - suffix)
    {
      DistDiagonal(a, b, n - 1 - suffix, m - 1 - suffix);
      SuffixGrows(a, b, suffix);
      suffix := suffix + 1;
    }
  }

  // A minimal canonical script, or a refusal exactly when the pair is above the limit.
  method DiffLines(oldLines: seq<Line>, newLines: seq<Line>) returns (r: Result<seq<Edit>, DiffError>)
    ensures r.Err? <==> |oldLines| + |newLines| > MAX_TOTAL_LINES
    ensures r.Ok? ==>
      && Path(r.value, oldLines, newLines, 0, 0, 0, |oldLines|, |newLines|)
      && Changes(r.value) == |oldLines| + |newLines| - 2 * Lcs(oldLines, newLines, |oldLines|, |newLines|)
      && DeletionsFirst(r.value)
  {
    hide *;
    DistIsLcs(oldLines, newLines);
    EmptyScript(oldLines, newLines);
    var n, m := |oldLines|, |newLines|;
    if n + m > MAX_TOTAL_LINES { return Err(DiffTooLarge(n + m)); }

    var prefix, suffix := CommonEnds(oldLines, newLines);
    var edits: seq<Edit> := [];
    for i := 0 to prefix
      invariant AllEqual(edits)
      invariant Path(edits, oldLines, newLines, 0, 0, 0, i, i) && DeletionsFirst(edits) && Changes(edits) == 0
    {
      PrefixMatches(oldLines, newLines, prefix, i);
      AppendEqual(edits, oldLines, newLines, i, i);
      StillEqual(edits, i);
      edits := edits + [Edit(Equal, i, i)];
    }

    var core := DiffCore(oldLines[prefix..n - suffix], newLines[prefix..m - suffix], prefix);
    JoinMiddle(edits, core, oldLines, newLines, prefix, suffix);
    edits := edits + core;

    for i := 0 to suffix
      invariant Path(edits, oldLines, newLines, 0, 0, 0, n - suffix + i, m - suffix + i)
      invariant DeletionsFirst(edits) && Changes(edits) == Dist(oldLines, newLines, n, m)
    {
      SuffixMatches(oldLines, newLines, suffix, i);
      AppendEqual(edits, oldLines, newLines, n - suffix + i, m - suffix + i);
      edits := edits + [Edit(Equal, n - suffix + i, m - suffix + i)];
    }
    return Ok(edits);
  }

  lemma DistIsLcs(a: seq<Line>, b: seq<Line>)
    ensures Dist(a, b, |a|, |b|) == |a| + |b| - 2 * Lcs(a, b, |a|, |b|)
  {}

  lemma PrefixGrows(a: seq<Line>, b: seq<Line>, p: nat)
    requires p < |a| && p < |b| && a[..p] == b[..p] && a[p] == b[p]
    ensures a[..p + 1] == b[..p + 1]
  {
    assert a[..p + 1] == a[..p] + [a[p]] && b[..p + 1] == b[..p] + [b[p]];
  }

  lemma SuffixGrows(a: seq<Line>, b: seq<Line>, q: nat)
    requires q < |a| && q < |b| && SameEnd(a, b, q) && a[|a| - 1 - q] == b[|b| - 1 - q]
    ensures SameEnd(a, b, q + 1) && Match(a, b, |a| - 1 - q, |b| - 1 - q)
  {
    forall x: nat, y: nat | |a| - (q + 1) <= x < |a| && x - |a| == y - |b| ensures Match(a, b, x, y) {
      assert x >= |a| - q || (x == |a| - 1 - q && y == |b| - 1 - q);
    }
  }

  lemma PrefixMatches(a: seq<Line>, b: seq<Line>, p: nat, i: nat)
    requires i < p <= |a| && p <= |b| && a[..p] == b[..p]
    ensures Match(a, b, i, i)
  {
    assert a[..p][i] == b[..p][i];
  }

  lemma SuffixMatches(a: seq<Line>, b: seq<Line>, q: nat, i: nat)
    requires i < q <= |a| && q <= |b| && SameEnd(a, b, q)
    ensures Match(a, b, |a| - q + i, |b| - q + i)
  {}

  lemma StillEqual(s: seq<Edit>, i: nat)
    requires AllEqual(s)
    ensures AllEqual(s + [Edit(Equal, i, i)])
  {}

  lemma EmptyScript(a: seq<Line>, b: seq<Line>)
    ensures Path([], a, b, 0, 0, 0, 0, 0) && DeletionsFirst([]) && Changes([]) == 0 && AllEqual([])
  {}
}
