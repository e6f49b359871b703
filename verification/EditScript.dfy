// Edit scripts: what they mean, and why none is shorter than the edit distance.
module EditScript {
  import opened EditGraph

  datatype Op = Equal | Insert | Delete

  // An insertion has no oldIndex and a deletion no newIndex: that one is -1.
  datatype Edit = Edit(op: Op, oldIndex: int, newIndex: int)

  // s leads from (i, j) to (i', j') in the edit graph of a and b, covering every line index in
  // between exactly once and in order; offset is added to the indices that s names.
  ghost predicate Path(s: seq<Edit>, a: seq<Line>, b: seq<Line>, offset: nat, i: nat, j: nat, i': nat, j': nat)
    decreases |s|
  {
    if s == [] then i == i' && j == j'
    else
      match s[0].op
      case Equal =>
        && Match(a, b, i, j) && s[0] == Edit(Equal, offset + i, offset + j)
        && Path(s[1..], a, b, offset, i + 1, j + 1, i', j')
      case Insert =>
        && j < |b| && s[0] == Edit(Insert, -1, offset + j)
        && Path(s[1..], a, b, offset, i, j + 1, i', j')
      case Delete =>
        && i < |a| && s[0] == Edit(Delete, offset + i, -1)
        && Path(s[1..], a, b, offset, i + 1, j, i', j')
  }

  function Changes(s: seq<Edit>): nat {
    if s == [] then 0 else (if s[0].op == Equal then 0 else 1) + Changes(s[1..])
  }

  // In every run of changes the deletions come before the insertions.
  ghost predicate DeletionsFirst(s: seq<Edit>) {
    forall i | 0 <= i < |s| - 1 :: s[i].op == Insert ==> s[i + 1].op != Delete
  }

  function Reverse(s: seq<Edit>): seq<Edit> {
    if s == [] then [] else [s[|s| - 1]] + Reverse(s[..|s| - 1])
  }

  lemma ReversePush(s: seq<Edit>, e: Edit)
    ensures Reverse(s + [e]) == [e] + Reverse(s)
  {
    assert (s + [e])[..|s|] == s;
  }

  // ---- scripts of one kind ----------------------------------------------------------

  lemma {:induction false} InsertRun(s: seq<Edit>, a: seq<Line>, b: seq<Line>, offset: nat, j: nat)
    requires |a| == 0 && |s| + j == |b|
    requires forall i | 0 <= i < |s| :: s[i] == Edit(Insert, -1, offset + j + i)
    ensures Path(s, a, b, offset, 0, j, 0, |b|) && Changes(s) == |s| && DeletionsFirst(s)
  {
    if s != [] { InsertRun(s[1..], a, b, offset, j + 1); }
  }

  lemma {:induction false} DeleteRun(s: seq<Edit>, a: seq<Line>, b: seq<Line>, offset: nat, i: nat)
    requires |b| == 0 && |s| + i == |a|
    requires forall k | 0 <= k < |s| :: s[k] == Edit(Delete, offset + i + k, -1)
    ensures Path(s, a, b, offset, i, 0, |a|, 0) && Changes(s) == |s| && DeletionsFirst(s)
  {
    if s != [] { DeleteRun(s[1..], a, b, offset, i + 1); }
  }

  // ---- joining scripts --------------------------------------------------------------

  lemma {:induction false} PathConcat(s: seq<Edit>, t: seq<Edit>, a: seq<Line>, b: seq<Line>, offset: nat,
                                      i: nat, j: nat, i': nat, j': nat, i'': nat, j'': nat)
    requires Path(s, a, b, offset, i, j, i', j') && Path(t, a, b, offset, i', j', i'', j'')
    ensures Path(s + t, a, b, offset, i, j, i'', j'') && Changes(s + t) == Changes(s) + Changes(t)
    decreases |s|
  {
    if s == [] {
      assert s + t == t;
    } else {
      assert (s + t)[1..] == s[1..] + t;
      match s[0].op
      case Equal => PathConcat(s[1..], t, a, b, offset, i + 1, j + 1, i', j', i'', j'');
      case Insert => PathConcat(s[1..], t, a, b, offset, i, j + 1, i', j', i'', j'');
      case Delete => PathConcat(s[1..], t, a, b, offset, i + 1, j, i', j', i'', j'');
    }
  }

  // A script over the untrimmed middle is, with its offset, a script over the whole files.
  lemma {:induction false} PathInContext(s: seq<Edit>, a: seq<Line>, b: seq<Line>, p: nat, q: nat,
                                         i: nat, j: nat, i': nat, j': nat)
    requires p + q <= |a| && p + q <= |b|
    requires Path(s, a[p..|a| - q], b[p..|b| - q], p, i, j, i', j')
    ensures Path(s, a, b, 0, p + i, p + j, p + i', p + j')
    decreases |s|
  {
    if s != [] {
      match s[0].op
      case Equal => PathInContext(s[1..], a, b, p, q, i + 1, j + 1, i', j');
      case Insert => PathInContext(s[1..], a, b, p, q, i, j + 1, i', j');
      case Delete => PathInContext(s[1..], a, b, p, q, i + 1, j, i', j');
    }
  }

  // a' is what follows the first p lines of a, up to some length.
  ghost predicate Window(a': seq<Line>, a: seq<Line>, p: nat) {
    p + |a'| <= |a| && forall i | 0 <= i < |a'| :: a'[i] == a[p + i]
  }

  ghost predicate SamePrefix(a: seq<Line>, b: seq<Line>, p: nat) {
    p <= |a| && p <= |b| && a[..p] == b[..p]
  }

  lemma WindowMatch(a: seq<Line>, b: seq<Line>, a': seq<Line>, b': seq<Line>, p: nat, x: nat, y: nat)
    requires Window(a', a, p) && Window(b', b, p) && x < |a'| && y < |b'|
    ensures Match(a, b, p + x, p + y) <==> Match(a', b', x, y)
  {
    assert a'[x] == a[p + x] && b'[y] == b[p + y];
  }

  // Trimming a common prefix of p lines takes p off every longest common subsequence.
  lemma {:induction false} LcsTrimmed(a: seq<Line>, b: seq<Line>, a': seq<Line>, b': seq<Line>,
                                      p: nat, x: nat, y: nat)
    requires SamePrefix(a, b, p) && Window(a', a, p) && Window(b', b, p)
    requires x <= |a'| && y <= |b'|
    ensures Lcs(a, b, p + x, p + y) == p + Lcs(a', b', x, y)
    decreases x + y
  {
    hide *;
    if x == 0 || y == 0 {
      LcsOfNothing(a', b', x, y);
      LcsBound(a, b, p + x, p + y);
      LcsOfPrefix(a, b, p, x, y);
    } else {
      LcsUnfold(a, b, p + x, p + y);
      LcsUnfold(a', b', x, y);
      WindowMatch(a, b, a', b', p, x - 1, y - 1);
      LcsTrimmed(a, b, a', b', p, x - 1, y - 1);
      LcsTrimmed(a, b, a', b', p, x - 1, y);
      LcsTrimmed(a, b, a', b', p, x, y - 1);
    }
  }

  lemma PrefixMatch(a: seq<Line>, b: seq<Line>, p: nat)
    requires SamePrefix(a, b, p + 1)
    ensures Match(a, b, p, p) && SamePrefix(a, b, p)
  {
    assert a[p] == a[..p + 1][p] == b[..p + 1][p] == b[p];
    assert a[..p] == a[..p + 1][..p] == b[..p];
  }

  lemma {:induction false} LcsOfPrefix(a: seq<Line>, b: seq<Line>, p: nat, x: nat, y: nat)
    requires SamePrefix(a, b, p)
    ensures Lcs(a, b, p + x, p + y) >= p
    decreases p + x + y
  {
    hide Lcs, SamePrefix;
    if x > 0 {
      LcsOfPrefix(a, b, p, x - 1, y);
      LcsStep(a, b, p + x - 1, p + y);
    } else if y > 0 {
      LcsOfPrefix(a, b, p, x, y - 1);
      LcsStep(a, b, p + x, p + y - 1);
    } else if p > 0 {
      PrefixMatch(a, b, p - 1);
      LcsUnfold(a, b, p, p);
      LcsOfPrefix(a, b, p - 1, 0, 0);
    }
  }

  // ---- cutting a script -------------------------------------------------------------

  // How many old lines, and how many new lines, a script covers.
  function OldCount(s: seq<Edit>): nat {
    if s == [] then 0 else (if s[0].op == Insert then 0 else 1) + OldCount(s[1..])
  }

  function NewCount(s: seq<Edit>): nat {
    if s == [] then 0 else (if s[0].op == Delete then 0 else 1) + NewCount(s[1..])
  }

  lemma {:induction false} CountsAdd(s: seq<Edit>, t: seq<Edit>)
    ensures OldCount(s + t) == OldCount(s) + OldCount(t)
    ensures NewCount(s + t) == NewCount(s) + NewCount(t)
  {
    if s == [] {
      assert s + t == t;
    } else {
      assert (s + t)[1..] == s[1..] + t;
      CountsAdd(s[1..], t);
    }
  }

  // A script's end points are fixed by where it starts and what it covers.
  lemma {:induction false} PathEnds(s: seq<Edit>, a: seq<Line>, b: seq<Line>, i: nat, j: nat, i': nat, j': nat)
    requires Path(s, a, b, 0, i, j, i', j')
    ensures i' == i + OldCount(s) && j' == j + NewCount(s)
    ensures i <= |a| && j <= |b| ==> i' <= |a| && j' <= |b|
    decreases |s|
  {
    if s != [] {
      match s[0].op
      case Equal => PathEnds(s[1..], a, b, i + 1, j + 1, i', j');
      case Insert => PathEnds(s[1..], a, b, i, j + 1, i', j');
      case Delete => PathEnds(s[1..], a, b, i + 1, j, i', j');
    }
  }

  // Both halves of a cut script are scripts.
  lemma {:induction false} PathSplit(s: seq<Edit>, t: seq<Edit>, a: seq<Line>, b: seq<Line>,
                                     i: nat, j: nat, i': nat, j': nat)
    requires Path(s + t, a, b, 0, i, j, i', j')
    ensures Path(s, a, b, 0, i, j, i + OldCount(s), j + NewCount(s))
    ensures Path(t, a, b, 0, i + OldCount(s), j + NewCount(s), i', j')
    decreases |s|
  {
    if s == [] {
      assert s + t == t;
    } else {
      assert (s + t)[1..] == s[1..] + t;
      match s[0].op
      case Equal => PathSplit(s[1..], t, a, b, i + 1, j + 1, i', j');
      case Insert => PathSplit(s[1..], t, a, b, i, j + 1, i', j');
      case Delete => PathSplit(s[1..], t, a, b, i + 1, j, i', j');
    }
  }

  // ---- what a script is worth -------------------------------------------------------

  // No script at all gets from one point to another with fewer changes than the distance grows.
  lemma {:induction false} Minimal(s: seq<Edit>, a: seq<Line>, b: seq<Line>, offset: nat,
                                   i: nat, j: nat, i': nat, j': nat)
    requires Path(s, a, b, offset, i, j, i', j')
    ensures Dist(a, b, i', j') <= Dist(a, b, i, j) + Changes(s)
    decreases |s|
  {
    if s != [] {
      DistDiagonal(a, b, i, j);
      match s[0].op
      case Equal => Minimal(s[1..], a, b, offset, i + 1, j + 1, i', j');
      case Insert => Minimal(s[1..], a, b, offset, i, j + 1, i', j');
      case Delete => Minimal(s[1..], a, b, offset, i + 1, j, i', j');
    }
  }

  // In particular no script for the whole files beats their longest common subsequence.
  lemma NoShorterScript(s: seq<Edit>, a: seq<Line>, b: seq<Line>)
    requires Path(s, a, b, 0, 0, 0, |a|, |b|)
    ensures Changes(s) >= |a| + |b| - 2 * Lcs(a, b, |a|, |b|)
  {
    Minimal(s, a, b, 0, 0, 0, |a|, |b|);
  }

  // Once an insertion has been seen, the rest of an unbroken run of changes inserts.
  lemma {:induction false} InsertionsLast(s: seq<Edit>, i: nat, j: nat)
    requires DeletionsFirst(s) && i <= j < |s| && s[i].op == Insert
    requires forall k | i <= k <= j :: s[k].op != Equal
    ensures s[j].op == Insert
    decreases j - i
  {
    if i < j { InsertionsLast(s, i + 1, j); }
  }

  // The lines of the old file that s walks over, and the lines it leaves behind when replayed:
  // kept lines come from the old file, only inserted ones from the new file.
  ghost predicate Addresses(s: seq<Edit>, a: seq<Line>, b: seq<Line>) {
    forall i | 0 <= i < |s| ::
      && (s[i].op != Insert ==> 0 <= s[i].oldIndex < |a|)
      && (s[i].op == Insert ==> 0 <= s[i].newIndex < |b|)
  }

  function OldSide(s: seq<Edit>, a: seq<Line>, b: seq<Line>): seq<Line>
    requires Addresses(s, a, b)
  {
    if s == [] then []
    else (if s[0].op == Insert then [] else [a[s[0].oldIndex]]) + OldSide(s[1..], a, b)
  }

  function Replayed(s: seq<Edit>, a: seq<Line>, b: seq<Line>): seq<Line>
    requires Addresses(s, a, b)
  {
    if s == [] then []
    else
      (match s[0].op
       case Equal => [a[s[0].oldIndex]]
       case Insert => [b[s[0].newIndex]]
       case Delete => [])
      + Replayed(s[1..], a, b)
  }

  // Replaying a script consumes the old lines exactly and produces the new ones exactly.
  lemma {:induction false} ReplayTurnsOldIntoNew(s: seq<Edit>, a: seq<Line>, b: seq<Line>, i: nat, j: nat)
    requires i <= |a| && j <= |b| && Path(s, a, b, 0, i, j, |a|, |b|)
    ensures Addresses(s, a, b)
    ensures OldSide(s, a, b) == a[i..] && Replayed(s, a, b) == b[j..]
    decreases |s|
  {
    if s != [] {
      var rest := s[1..];
      match s[0].op
      case Equal =>
        ReplayTurnsOldIntoNew(rest, a, b, i + 1, j + 1);
        FirstLine(a, i);
        FirstLine(b, j);
      case Insert =>
        ReplayTurnsOldIntoNew(rest, a, b, i, j + 1);
        FirstLine(b, j);
      case Delete =>
        ReplayTurnsOldIntoNew(rest, a, b, i + 1, j);
        FirstLine(a, i);
    }
  }

  lemma FirstLine(a: seq<Line>, i: nat)
    requires i < |a|
    ensures a[i..] == [a[i]] + a[i + 1..]
  {}
}
