// Commits and their ancestry, and the bounded history listings the forge reads.
module CommitGraph {
  import opened GitTypes

  // The parents of every commit.
  type Graph = map<Sha, seq<Sha>>

  // Each commit on the path has the next as a parent.
  ghost predicate IsPath(g: Graph, path: seq<Sha>) {
    && path != []
    && forall i | 0 <= i < |path| - 1 :: path[i] in g && path[i + 1] in g[path[i]]
  }

  // to is from or an ancestor of it.
  ghost predicate Reaches(g: Graph, from: Sha, to: Sha) {
    exists path :: IsPath(g, path) && path[0] == from && path[|path| - 1] == to
  }

  lemma ReachesSelf(g: Graph, c: Sha)
    ensures Reaches(g, c, c)
  {
    assert IsPath(g, [c]);
  }

  lemma ReachesParent(g: Graph, c: Sha, parent: Sha)
    requires c in g && parent in g[c]
    ensures Reaches(g, c, parent)
  {
    assert IsPath(g, [c, parent]);
  }

  lemma ReachesTransitive(g: Graph, a: Sha, b: Sha, c: Sha)
    requires Reaches(g, a, b) && Reaches(g, b, c)
    ensures Reaches(g, a, c)
  {
    var p :| IsPath(g, p) && p[0] == a && p[|p| - 1] == b;
    var q :| IsPath(g, q) && q[0] == b && q[|q| - 1] == c;
    var path := p + q[1..];
    forall i | 0 <= i < |path| - 1 ensures path[i] in g && path[i + 1] in g[path[i]] {
      if i < |p| - 1 {
        assert path[i] == p[i] && path[i + 1] == p[i + 1];
      } else {
        assert path[i] == q[i - |p| + 1] && path[i + 1] == q[i - |p| + 1 + 1];
      }
    }
    assert IsPath(g, path);
  }

  // The same history and perhaps more.
  predicate Extends(g: Graph, g': Graph) { g.Keys <= g'.Keys && forall c | c in g :: g'[c] == g[c] }

  // Adding commits keeps what was reachable reachable.
  lemma ReachesGrows(g: Graph, g': Graph, from: Sha, to: Sha)
    requires Reaches(g, from, to) && Extends(g, g')
    ensures Reaches(g', from, to)
  {
    var path :| IsPath(g, path) && path[0] == from && path[|path| - 1] == to;
    assert IsPath(g', path);
  }

  // In a history that has all its commits' parents, what a commit reaches it reaches there.
  lemma {:induction false} ReachesInside(g: Graph, g': Graph, from: Sha, to: Sha)
    requires Extends(g, g') && (forall c, p | c in g && p in g[c] :: p in g)
    requires from in g && Reaches(g', from, to)
    ensures Reaches(g, from, to)
  {
    var path :| IsPath(g', path) && path[0] == from && path[|path| - 1] == to;
    for i := 0 to |path| - 1
      invariant forall j | 0 <= j <= i :: path[j] in g
    {
      assert path[i + 1] in g'[path[i]];
    }
    assert IsPath(g, path);
  }

  // ---- listings ---------------------------------------------------------------------

  // All of sha's history, sha first, each commit once and before its parents.
  ghost predicate IsListing(g: Graph, sha: Sha, full: seq<Sha>) {
    && full != [] && full[0] == sha
    && (forall i, j | 0 <= i < j < |full| :: full[i] != full[j])
    && (forall c :: c in full <==> Reaches(g, sha, c))
    && forall i, parent | 0 <= i < |full| && full[i] in g && parent in g[full[i]] :: parent in full[i + 1..]
  }

  // What log(sha, limit) returns: the first limit commits of such a listing.
  ghost predicate IsLog(g: Graph, sha: Sha, limit: nat, log: seq<Sha>) {
    exists full :: IsListing(g, sha, full) && log == full[..if |full| < limit then |full| else limit]
  }

  // The ancestors of a listed commit come after it.
  lemma {:induction false} AncestorsFollow(g: Graph, sha: Sha, full: seq<Sha>, i: nat, path: seq<Sha>)
    requires IsListing(g, sha, full) && i < |full| && IsPath(g, path) && path[0] == full[i]
    ensures path[|path| - 1] in full[i..]
    ensures |path| > 1 ==> path[|path| - 1] in full[i + 1..]
    decreases |path|
  {
    if |path| > 1 {
      assert path[1] in g[path[0]];
      assert path[1] in full[i + 1..];
      var j :| i < j < |full| && full[j] == path[1];
      var rest := path[1..];
      forall k | 0 <= k < |rest| - 1 ensures rest[k] in g && rest[k + 1] in g[rest[k]] {
        assert path[k + 1] in g && path[k + 1 + 1] in g[path[k + 1]];
      }
      AncestorsFollow(g, sha, full, j, rest);
      assert full[j..] == full[i + 1..][j - i - 1..];
    } else {
      assert full[i..][0] == path[0];
    }
  }

  // A log that holds a commit holds, before it, every commit of the history that descends from it.
  lemma {:induction false} LogHoldsDescendants(g: Graph, sha: Sha, limit: nat, log: seq<Sha>, i: nat, c: Sha)
    requires IsLog(g, sha, limit, log) && i < |log|
    requires Reaches(g, sha, c) && Reaches(g, c, log[i]) && c != log[i]
    ensures c in log[..i]
  {
    var full :| IsListing(g, sha, full) && log == full[..if |full| < limit then |full| else limit];
    var j :| 0 <= j < |full| && full[j] == c;
    var path :| IsPath(g, path) && path[0] == c && path[|path| - 1] == log[i];
    AncestorsFollow(g, sha, full, j, path);
    var k :| j < k < |full| && full[k] == log[i];
    assert full[i] == full[k];
    assert log[..i][j] == c;
  }

  lemma LogReaches(g: Graph, sha: Sha, limit: nat, log: seq<Sha>)
    requires IsLog(g, sha, limit, log)
    ensures forall c | c in log :: Reaches(g, sha, c)
    ensures limit > 0 ==> log != [] && log[0] == sha
  {}

  // No two commits of a listed history reach each other.
  lemma ListedAcyclic(g: Graph, sha: Sha, full: seq<Sha>, a: Sha, b: Sha)
    requires IsListing(g, sha, full) && a in full && Reaches(g, a, b) && Reaches(g, b, a)
    ensures a == b
  {
    if a != b {
      var i :| 0 <= i < |full| && full[i] == a;
      var p :| IsPath(g, p) && p[0] == a && p[|p| - 1] == b;
      AncestorsFollow(g, sha, full, i, p);
      var j :| i < j < |full| && full[j] == b;
      var q :| IsPath(g, q) && q[0] == b && q[|q| - 1] == a;
      AncestorsFollow(g, sha, full, j, q);
      assert false;
    }
  }
}
