// The edit graph of two line arrays, continued past its far edges: a point (x, y) means
// "x old lines and y new lines consumed", and x may exceed |a| and y may exceed |b|, because
// the frontier of src/server/diff/myers.ts does leave the grid.
module EditGraph {
  // One line of text, without its newline.
  datatype Line = Line(text: string)

  predicate Match(a: seq<Line>, b: seq<Line>, x: nat, y: nat) {
    x < |a| && y < |b| && a[x] == b[y]
  }

  // Length of a longest common subsequence of the first x lines of a and the first y lines of b.
  function Lcs(a: seq<Line>, b: seq<Line>, x: nat, y: nat): nat
    decreases x + y
  {
    if x == 0 || y == 0 then 0
    else if Match(a, b, x - 1, y - 1) then 1 + Lcs(a, b, x - 1, y - 1)
    else if Lcs(a, b, x - 1, y) >= Lcs(a, b, x, y - 1) then Lcs(a, b, x - 1, y)
    else Lcs(a, b, x, y - 1)
  }

  lemma LcsOfNothing(a: seq<Line>, b: seq<Line>, x: nat, y: nat)
    requires x == 0 || y == 0
    ensures Lcs(a, b, x, y) == 0
  {}

  lemma LcsUnfold(a: seq<Line>, b: seq<Line>, x: nat, y: nat)
    requires x > 0 && y > 0
    ensures Match(a, b, x - 1, y - 1) ==> Lcs(a, b, x, y) == 1 + Lcs(a, b, x - 1, y - 1)
    ensures !Match(a, b, x - 1, y - 1) ==>
      Lcs(a, b, x, y) == (if Lcs(a, b, x - 1, y) >= Lcs(a, b, x, y - 1) then Lcs(a, b, x - 1, y) else Lcs(a, b, x, y - 1))
  {}

  // Fewest insertions and deletions on any path from (0, 0) to (x, y); EditScript.Minimal and
  // Myers.DiffLines prove that this is what it is.
  function Dist(a: seq<Line>, b: seq<Line>, x: nat, y: nat): int {
    x + y - 2 * Lcs(a, b, x, y)
  }

  // The Lcs changes by 0 or 1 along a horizontal or vertical move.
  lemma {:induction false} LcsStep(a: seq<Line>, b: seq<Line>, x: nat, y: nat)
    ensures Lcs(a, b, x, y) <= Lcs(a, b, x + 1, y) <= Lcs(a, b, x, y) + 1
    ensures Lcs(a, b, x, y) <= Lcs(a, b, x, y + 1) <= Lcs(a, b, x, y) + 1
    decreases x + y
  {
    if y > 0 { LcsStep(a, b, x, y - 1); }
    if x > 0 { LcsStep(a, b, x - 1, y); }
  }

  // One diagonal further, the distance is the same or two more; it is two more exactly
  // when both neighbours of the far corner are worse than the near one.
  lemma DistDiagonal(a: seq<Line>, b: seq<Line>, x: nat, y: nat)
    ensures Match(a, b, x, y) ==> Dist(a, b, x + 1, y + 1) == Dist(a, b, x, y)
    ensures Dist(a, b, x, y) <= Dist(a, b, x + 1, y + 1) <= Dist(a, b, x, y) + 2
    ensures Dist(a, b, x + 1, y) <= Dist(a, b, x, y) + 1
    ensures Dist(a, b, x, y + 1) <= Dist(a, b, x, y) + 1
    ensures !Match(a, b, x, y) ==>
      Dist(a, b, x + 1, y + 1) > Dist(a, b, x, y + 1) || Dist(a, b, x + 1, y + 1) > Dist(a, b, x + 1, y)
  {
    LcsStep(a, b, x, y);
    LcsStep(a, b, x, y + 1);
    LcsStep(a, b, x + 1, y);
  }

  lemma {:induction false} DistAlongDiagonal(a: seq<Line>, b: seq<Line>, x: nat, y: nat, i: nat)
    ensures Dist(a, b, x, y) <= Dist(a, b, x + i, y + i)
  {
    if i > 0 {
      DistAlongDiagonal(a, b, x, y, i - 1);
      DistDiagonal(a, b, x + i - 1, y + i - 1);
    }
  }

  lemma {:induction false} LcsBound(a: seq<Line>, b: seq<Line>, x: nat, y: nat)
    ensures Lcs(a, b, x, y) <= x && Lcs(a, b, x, y) <= y
    decreases x + y
  {
    if x > 0 && y > 0 {
      LcsBound(a, b, x - 1, y - 1);
      LcsBound(a, b, x - 1, y);
      LcsBound(a, b, x, y - 1);
    }
  }

  // A point on diagonal k is at least |k| edits away, at most x + y.
  lemma DistBound(a: seq<Line>, b: seq<Line>, x: nat, y: nat)
    ensures x - y <= Dist(a, b, x, y) <= x + y && y - x <= Dist(a, b, x, y)
  {
    LcsBound(a, b, x, y);
  }

  lemma {:induction false} LcsPastEdge(a: seq<Line>, b: seq<Line>, x: nat, y: nat)
    ensures x >= |a| ==> Lcs(a, b, x, y) == Lcs(a, b, |a|, y)
    ensures y >= |b| ==> Lcs(a, b, x, y) == Lcs(a, b, x, |b|)
    decreases x + y
  {
    if x > |a| {
      LcsPastEdge(a, b, x - 1, y);
      if y > 0 { LcsPastEdge(a, b, x, y - 1); LcsStep(a, b, |a|, y - 1); }
    }
    if y > |b| {
      LcsPastEdge(a, b, x, y - 1);
      if x > 0 { LcsPastEdge(a, b, x - 1, y); LcsStep(a, b, x - 1, |b|); }
    }
  }

  // Past the far corner there is nothing left to match, and every move is an edit.
  lemma DistBeyond(a: seq<Line>, b: seq<Line>, x: nat, y: nat)
    ensures Dist(a, b, x, y) >= x - |a|
    ensures x >= |a| && y >= |b| ==> Dist(a, b, x, y) == Dist(a, b, |a|, |b|) + (x - |a|) + (y - |b|)
  {
    LcsPastEdge(a, b, x, y);
    LcsPastEdge(a, b, |a|, y);
    LcsBound(a, b, |a|, y);
    LcsBound(a, b, x, y);
  }

  // x is the furthest point of diagonal k (where y = x - k) that d edits reach.
  ghost predicate Furthest(a: seq<Line>, b: seq<Line>, d: int, k: int, x: int) {
    0 <= x && k <= x && Dist(a, b, x, x - k) == d && Dist(a, b, x + 1, x + 1 - k) == d + 2
  }

  // The name is deserved: d edits reach exactly the points of the diagonal up to x.
  lemma FurthestIsMaximum(a: seq<Line>, b: seq<Line>, d: int, k: int, x: int, u: int)
    requires Furthest(a, b, d, k, x) && 0 <= u && k <= u
    ensures u <= x ==> Dist(a, b, u, u - k) <= d
    ensures u > x ==> Dist(a, b, u, u - k) >= d + 2
  {
    if u <= x {
      DistAlongDiagonal(a, b, u, u - k, x - u);
    } else {
      DistAlongDiagonal(a, b, x + 1, x + 1 - k, u - x - 1);
    }
  }

  // ---- the Lcs against the definition of a common subsequence -----------------------

  ghost predicate Subsequence(c: seq<Line>, a: seq<Line>) {
    c == [] ||
    (a != [] &&
      ((Last(c) == Last(a) && Subsequence(Front(c), Front(a))) || Subsequence(c, Front(a))))
  }

  function Last(s: seq<Line>): Line requires s != [] { s[|s| - 1] }

  function Front(s: seq<Line>): seq<Line> requires s != [] { s[..|s| - 1] }

  lemma {:induction false} SubsequenceFront(c: seq<Line>, a: seq<Line>)
    requires c != [] && Subsequence(c, a)
    ensures a != [] && Subsequence(Front(c), Front(a))
  {
    if Subsequence(c, Front(a)) { SubsequenceFront(c, Front(a)); }
  }

  // No common subsequence is longer than the Lcs ...
  lemma {:induction false} LcsIsUpperBound(a: seq<Line>, b: seq<Line>, x: nat, y: nat, c: seq<Line>)
    requires x <= |a| && y <= |b| && Subsequence(c, a[..x]) && Subsequence(c, b[..y])
    ensures |c| <= Lcs(a, b, x, y)
    decreases x + y
  {
    if c != [] {
      assert Front(a[..x]) == a[..x - 1] && Front(b[..y]) == b[..y - 1];
      if Match(a, b, x - 1, y - 1) {
        SubsequenceFront(c, a[..x]);
        SubsequenceFront(c, b[..y]);
        LcsIsUpperBound(a, b, x - 1, y - 1, Front(c));
      } else if Last(c) != a[x - 1] {
        LcsIsUpperBound(a, b, x - 1, y, c);
      } else {
        LcsIsUpperBound(a, b, x, y - 1, c);
      }
    }
  }

  // ... and some common subsequence is as long.
  lemma {:induction false} LcsIsAttained(a: seq<Line>, b: seq<Line>, x: nat, y: nat) returns (c: seq<Line>)
    requires x <= |a| && y <= |b|
    ensures Subsequence(c, a[..x]) && Subsequence(c, b[..y]) && |c| == Lcs(a, b, x, y)
    decreases x + y
  {
    if x == 0 || y == 0 {
      c := [];
    } else {
      assert Front(a[..x]) == a[..x - 1] && Front(b[..y]) == b[..y - 1];
      if Match(a, b, x - 1, y - 1) {
        c := LcsIsAttained(a, b, x - 1, y - 1);
        c := c + [a[x - 1]];
        assert Front(c) == c[..|c| - 1];
      } else if Lcs(a, b, x - 1, y) >= Lcs(a, b, x, y - 1) {
        c := LcsIsAttained(a, b, x - 1, y);
      } else {
        c := LcsIsAttained(a, b, x, y - 1);
      }
    }
  }
}
