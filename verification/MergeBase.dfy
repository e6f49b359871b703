// src/server/connect/services/pull.ts: finding a merge base and deciding how a pull request can
// merge; canFastForward from src/server/git/receive-pack.ts.
module MergeBase {
  import opened Wrappers
  import opened CommitGraph
  import opened GitTypes

  const ANCESTRY_LIMIT: nat := 500

  ghost predicate CommonAncestor(g: Graph, a: Sha, b: Sha, c: Sha) {
    Reaches(g, a, c) && Reaches(g, b, c)
  }

  // A common ancestor that no other common ancestor descends from.
  ghost predicate IsBestCommonAncestor(g: Graph, a: Sha, b: Sha, best: Sha) {
    && CommonAncestor(g, a, b, best)
    && forall c | CommonAncestor(g, a, b, c) && Reaches(g, c, best) :: c == best
  }

  // The first commit of log that other also holds, or "".
  function FirstShared(log: seq<Sha>, other: seq<Sha>): Sha {
    if log == [] then "" else if log[0] in other then log[0] else FirstShared(log[1..], other)
  }

  lemma {:induction false} FirstSharedAt(log: seq<Sha>, other: seq<Sha>, i: nat)
    requires i <= |log| && forall k | 0 <= k < i :: log[k] !in other
    ensures FirstShared(log, other) == FirstShared(log[i..], other)
  {
    if i > 0 {
      assert log[0] !in other;
      forall k | 0 <= k < i - 1 ensures log[1..][k] !in other { assert log[k + 1] !in other; }
      FirstSharedAt(log[1..], other, i - 1);
      assert log[1..][i - 1..] == log[i..];
    }
  }

  // A log read in a repository that may lack the commit: empty in that case.
  ghost predicate IsLogIfKnown(g: Graph, sha: Sha, log: seq<Sha>) { log == [] || IsLog(g, sha, ANCESTRY_LIMIT, log) }

  // The first commit of head's log that base's log also holds, or "" if there is none. Both logs
  // come from the base repository, which may not have head, but has all that base descends from.
  method FindMergeBase(ghost g: Graph, baseSha: Sha, headSha: Sha, baseAncestry: seq<Sha>, headAncestry: seq<Sha>)
    returns (r: Sha)
    requires IsLog(g, baseSha, ANCESTRY_LIMIT, baseAncestry) && IsLogIfKnown(g, headSha, headAncestry)
    requires headSha != "" && "" !in headAncestry && (Reaches(g, baseSha, headSha) ==> headAncestry != [])
    ensures r != "" ==> IsBestCommonAncestor(g, baseSha, headSha, r)
    ensures r == "" <==> forall c | c in headAncestry :: c !in baseAncestry
    ensures r == headSha <==> headSha in baseAncestry
    ensures r == FirstShared(headAncestry, baseAncestry)
  {
    LogReaches(g, baseSha, ANCESTRY_LIMIT, baseAncestry);
    ReachesSelf(g, baseSha);
    hide IsBestCommonAncestor, Reaches, IsLog;
    if baseSha == headSha {
      SameTip(g, baseSha, ANCESTRY_LIMIT, baseAncestry);
      assert headAncestry[0] == headSha && baseAncestry[0] == baseSha;
      assert headAncestry[0] in headAncestry;
      return baseSha;
    }
    var baseSet := set c | c in baseAncestry;
    for i := 0 to |headAncestry|
      invariant forall k | 0 <= k < i :: headAncestry[k] !in baseAncestry
    {
      if headAncestry[i] in baseSet {
        FirstSharedIsBest(g, baseSha, headSha, baseAncestry, headAncestry, i);
        FirstSharedAt(headAncestry, baseAncestry, i);
        return headAncestry[i];
      }
    }
    FirstSharedAt(headAncestry, baseAncestry, |headAncestry|);
    return "";
  }

  lemma SameTip(g: Graph, sha: Sha, limit: nat, log: seq<Sha>)
    requires IsLog(g, sha, limit, log)
    ensures IsBestCommonAncestor(g, sha, sha, sha)
  {
    ReachesSelf(g, sha);
    var full :| IsListing(g, sha, full) && log == full[..if |full| < limit then |full| else limit];
    forall c | CommonAncestor(g, sha, sha, c) && Reaches(g, c, sha) ensures c == sha {
      ListedAcyclic(g, sha, full, c, sha);
    }
  }

  // Whatever the limit cut off: a commit in a log has all of the history's commits above it there.
  lemma FirstSharedIsBest(g: Graph, baseSha: Sha, headSha: Sha, baseAncestry: seq<Sha>, headAncestry: seq<Sha>, i: nat)
    requires IsLog(g, baseSha, ANCESTRY_LIMIT, baseAncestry) && IsLog(g, headSha, ANCESTRY_LIMIT, headAncestry)
    requires i < |headAncestry| && headAncestry[i] in baseAncestry
    requires forall k | 0 <= k < i :: headAncestry[k] !in baseAncestry
    ensures IsBestCommonAncestor(g, baseSha, headSha, headAncestry[i])
  {
    var best := headAncestry[i];
    LogReaches(g, baseSha, ANCESTRY_LIMIT, baseAncestry);
    LogReaches(g, headSha, ANCESTRY_LIMIT, headAncestry);
    forall c | CommonAncestor(g, baseSha, headSha, c) && Reaches(g, c, best) ensures c == best {
      if c != best {
        var j :| 0 <= j < |baseAncestry| && baseAncestry[j] == best;
        assert forall x | x in headAncestry[..i] :: x !in baseAncestry;
        assert forall x | x in baseAncestry[..j] :: x in baseAncestry;
        LogHoldsDescendants(g, headSha, ANCESTRY_LIMIT, headAncestry, i, c);
        LogHoldsDescendants(g, baseSha, ANCESTRY_LIMIT, baseAncestry, j, c);
        assert false;
      }
    }
  }

  // ---- mergeability -----------------------------------------------------------------

  datatype Mergeable = Unknown | Empty | Clean | Behind | Conflicted

  datatype LiveBranches = LiveBranches(baseSha: Sha, headSha: Sha, mergeBaseSha: Sha, mergeable: Mergeable)

  function CanFastForward(baseSha: Sha, headSha: Sha, headAncestry: seq<Sha>): bool {
    if baseSha == headSha then false
    else if baseSha == ZERO_SHA then true
    else baseSha in headAncestry
  }

  // A pointer can move forward from one tip to another exactly along the history, as far as the log
  // shows it; a branch that is not there yet can start anywhere.
  lemma CanFastForwardIff(g: Graph, baseSha: Sha, headSha: Sha, headAncestry: seq<Sha>)
    requires headSha != ZERO_SHA && IsLog(g, headSha, ANCESTRY_LIMIT, headAncestry)
    ensures CanFastForward(ZERO_SHA, headSha, headAncestry) && !CanFastForward(headSha, headSha, headAncestry)
    ensures CanFastForward(baseSha, headSha, headAncestry) && baseSha != ZERO_SHA ==> Reaches(g, headSha, baseSha) && !Reaches(g, baseSha, headSha)
    ensures Fits(g, headSha, headAncestry) && baseSha != headSha && Reaches(g, headSha, baseSha) ==>
      CanFastForward(baseSha, headSha, headAncestry)
  {
    LogReaches(g, headSha, ANCESTRY_LIMIT, headAncestry);
    if baseSha != headSha && Reaches(g, baseSha, headSha) && Reaches(g, headSha, baseSha) {
      OneWay(g, baseSha, headSha, headAncestry);
    }
  }

  // How two existing branches can merge. The base repository's logs of both tips find the merge
  // base; whether the pointer can move is read off head's log in its own repository.
  function MergeableOf(baseSha: Sha, headSha: Sha, baseAncestry: seq<Sha>, headAncestry: seq<Sha>, headInBase: seq<Sha>): Mergeable {
    if baseSha == headSha then Empty
    else if CanFastForward(baseSha, headSha, headAncestry) then Clean
    else if FirstShared(headInBase, baseAncestry) == headSha then Behind
    else Conflicted
  }

  lemma {:induction false} FirstSharedIn(log: seq<Sha>, other: seq<Sha>)
    ensures FirstShared(log, other) == "" || FirstShared(log, other) in log
  {
    if log != [] && log[0] !in other { FirstSharedIn(log[1..], other); }
  }

  // The decision read off the logs.
  lemma {:induction false} MergeableByLogs(g: Graph, baseSha: Sha, headSha: Sha, baseLog: seq<Sha>, headLog: seq<Sha>, headInBase: seq<Sha>)
    requires baseSha != ZERO_SHA && headSha != "" && IsLogIfKnown(g, headSha, headInBase)
    requires headSha in baseLog ==> headInBase != []
    ensures MergeableOf(baseSha, headSha, baseLog, headLog, headInBase) ==
      if baseSha == headSha then Empty
      else if baseSha in headLog then Clean
      else if headSha in baseLog then Behind
      else Conflicted
  {
    if headInBase != [] {
      FirstSharedIn(headInBase[1..], baseLog);
      LogDistinct(g, headSha, headInBase);
    }
  }

  lemma LogDistinct(g: Graph, sha: Sha, log: seq<Sha>)
    requires IsLog(g, sha, ANCESTRY_LIMIT, log)
    ensures log != [] && log[0] == sha && sha !in log[1..]
  {
    var full :| IsListing(g, sha, full) && log == full[..if |full| < ANCESTRY_LIMIT then |full| else ANCESTRY_LIMIT];
    forall i | 1 <= i < |log| ensures log[i] != sha { assert full[0] != full[i]; }
  }

  // The log holds the whole history.
  ghost predicate Fits(g: Graph, sha: Sha, log: seq<Sha>) {
    forall c | Reaches(g, sha, c) :: c in log
  }

  // The state of a pull request, which may come from a fork. The branch tips (none for a missing
  // branch) and their logs come from the git server; g is the history across all repositories,
  // and no ref ever holds the zero id.
  method ResolveBranches(ghost g: Graph, base: Option<Sha>, head: Option<Sha>, baseAncestry: seq<Sha>, headAncestry: seq<Sha>,
                         headInBase: seq<Sha>)
    returns (live: LiveBranches)
    requires base.Some? ==> base.value != "" && base.value != ZERO_SHA && IsLog(g, base.value, ANCESTRY_LIMIT, baseAncestry)
    requires head.Some? ==> head.value != "" && head.value != ZERO_SHA && IsLog(g, head.value, ANCESTRY_LIMIT, headAncestry)
    requires head.Some? ==> IsLogIfKnown(g, head.value, headInBase) && "" !in headInBase
    requires base.Some? && head.Some? && Reaches(g, base.value, head.value) ==> headInBase != []
    ensures live.mergeable == Unknown <==> base.None? || head.None?
    ensures base.None? || head.None? ==>
      live.baseSha == base.UnwrapOr("") && live.headSha == head.UnwrapOr("") && live.mergeBaseSha == ""
    ensures base.Some? && head.Some? ==>
      var b, h := base.value, head.value;
      && live.baseSha == b && live.headSha == h
      && live.mergeable == MergeableOf(b, h, baseAncestry, headAncestry, headInBase)
      && (live.mergeable == Empty <==> b == h)
      && (live.mergeable == Clean ==> b != h && Reaches(g, h, b))
      && (live.mergeable == Behind ==> b != h && Reaches(g, b, h))
      && (Fits(g, h, headAncestry) && b != h && Reaches(g, h, b) ==> live.mergeable == Clean)
      && (Fits(g, b, baseAncestry) && b != h && Reaches(g, b, h) ==> live.mergeable == Behind)
      && (if b != h && (exists c :: c in headInBase && c in baseAncestry) then IsBestCommonAncestor(g, b, h, live.mergeBaseSha)
          else live.mergeBaseSha == b)
  {
    if base.None? || head.None? {
      return LiveBranches(base.UnwrapOr(""), head.UnwrapOr(""), "", Unknown);
    }
    var baseSha, headSha := base.value, head.value;
    if baseSha == headSha { return LiveBranches(baseSha, headSha, baseSha, Empty); }
    LogReaches(g, baseSha, ANCESTRY_LIMIT, baseAncestry);
    LogReaches(g, headSha, ANCESTRY_LIMIT, headAncestry);
    var mergeBase := FindMergeBase(g, baseSha, headSha, baseAncestry, headInBase);
    var mergeable := if CanFastForward(baseSha, headSha, headAncestry) then Clean
                     else if mergeBase == headSha then Behind
                     else Conflicted;
    return LiveBranches(baseSha, headSha, if mergeBase != "" then mergeBase else baseSha, mergeable);
  }

  lemma OneWay(g: Graph, a: Sha, b: Sha, log: seq<Sha>)
    requires IsLog(g, b, ANCESTRY_LIMIT, log) && Reaches(g, a, b) && Reaches(g, b, a)
    ensures a == b
  {
    var full :| IsListing(g, b, full) && log == full[..if |full| < ANCESTRY_LIMIT then |full| else ANCESTRY_LIMIT];
    ListedAcyclic(g, b, full, a, b);
  }
}
