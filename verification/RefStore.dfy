// Moving refs: fastForward and mergeCommit (src/server/connect/services/pull.ts) and
// writeWikiTree (src/server/connect/services/wiki.ts), as steps interleaved with other writers
// against a git server that compares the old id before it swaps a ref (gitprotocol-pack,
// "Reference Update Request and Packfile Transfer").
module RefStore {
  import opened Wrappers
  import opened GitTypes
  import opened CommitGraph
  import opened MergeBase
  import ReceivePack

  // The top level of a commit's tree, by name.
  type Entries = map<string, Entry>

  datatype CommitObject = CommitObject(parents: seq<Sha>, entries: Entries)

  datatype Read = NotYet | Missing | At(sha: Sha)

  // What an operation in progress has read so far.
  datatype Pending =
    | MergeRead(ref: string, headRef: string, base: Read, head: Read)
    | WikiRead(ref: string, tip: Option<Sha>)

  // What the forge writes down of a merge that the server reported done.
  datatype Record = Record(ref: string, sha: Sha)

  // The base repository's commits and refs, and the forge's operations, in progress and recorded
  // as merged, by id.
  datatype World = World(commits: map<Sha, CommitObject>, refs: map<string, Sha>, pending: map<nat, Pending>, recorded: map<nat, Record>)

  datatype Action =
    // A merge reads both branch tips, in either order, the head's perhaps in a fork, then pushes.
    // The server's report reaches the forge or is lost.
    | StartMerge(id: nat, ref: string, headRef: string)
    | ReadBase(id: nat)
    | ReadHead(id: nat)
    | ReadForkHead(id: nat, tip: Option<Sha>)
    | PushMerge(id: nat, request: MergeRequest, report: Option<seq<string>>)
    // A wiki write reads the tip, and its tree if that can be read, then pushes a commit.
    | ReadTip(id: nat, ref: string)
    | PushWiki(id: nat, sha: Sha, save: Save, expected: Sha)
    // Other writers add commits and move or create refs.
    | OtherCommit(sha: Sha, commit: CommitObject)
    | OtherPush(ref: string, oldSha: Sha, newSha: Sha)

  // wantsCommit: the merge method asked for is MERGE. expectedHead: the head that the client saw,
  // or "". history: all commits, forks included. baseLog and headLog are the tips' logs, each in
  // its own repository, and headInBase is head's in the base repository. sha is the id of the
  // merge commit, if one is built.
  datatype MergeRequest =
    MergeRequest(wantsCommit: bool, expectedHead: Sha, history: Graph, baseLog: seq<Sha>, headLog: seq<Sha>, headInBase: seq<Sha>, sha: Sha)

  // File name to the new blob id, or None to remove the file.
  type Changes = map<string, Option<Sha>>

  datatype Save = Save(changes: Changes, treeRead: bool)

  // ---- the server -------------------------------------------------------------------

  function GraphOf(commits: map<Sha, CommitObject>): Graph {
    map c | c in commits :: commits[c].parents
  }

  // The ref is where the pusher believes it is: at oldSha, or absent for the zero id.
  predicate Matches(refs: map<string, Sha>, ref: string, oldSha: Sha) {
    if ref in refs then refs[ref] == oldSha else oldSha == ZERO_SHA
  }

  // Only a pusher who knows where the ref is moves it; otherwise the world stays as it is.
  function Push(w: World, ref: string, oldSha: Sha, newSha: Sha): World {
    if Matches(w.refs, ref, oldSha) && newSha in w.commits then w.(refs := w.refs[ref := newSha]) else w
  }

  // Object ids are hashes: 40 digits, never the zero id; one id never names two commits, and no
  // commit holds its own id.
  predicate CanAdd(commits: map<Sha, CommitObject>, sha: Sha, commit: CommitObject) {
    && IsSha(sha) && sha != ZERO_SHA && sha !in commit.parents
    && (if sha in commits then commits[sha] == commit else forall p | p in commit.parents :: p in commits)
  }

  // Objects travel with the push, so a refused push leaves at most unreferenced ones behind.
  function PushCommit(w: World, ref: string, oldSha: Sha, sha: Sha, commit: CommitObject): World {
    if CanAdd(w.commits, sha, commit) then Push(w.(commits := w.commits[sha := commit]), ref, oldSha, sha) else w
  }

  // ---- merges -----------------------------------------------------------------------

  predicate BothRead(p: Pending) { p.MergeRead? && !p.base.NotYet? && !p.head.NotYet? }

  // A missing branch's tip is taken as "".
  function ShaOf(r: Read): Sha { if r.At? then r.sha else "" }

  // The logs that a merge request was decided on are the real ones.
  ghost predicate LogsRead(w: World, p: Pending, request: MergeRequest)
    requires BothRead(p)
  {
    p.base.At? && p.head.At? ==>
      var g := GraphOf(w.commits);
      && Extends(g, request.history)
      && IsLog(g, p.base.sha, ANCESTRY_LIMIT, request.baseLog)
      && IsLog(request.history, p.head.sha, ANCESTRY_LIMIT, request.headLog)
      && if p.head.sha in w.commits then IsLog(g, p.head.sha, ANCESTRY_LIMIT, request.headInBase) else request.headInBase == []
  }

  function MergeableIn(p: Pending, request: MergeRequest): Mergeable
    requires BothRead(p)
  {
    if p.base.Missing? || p.head.Missing? then Unknown
    else MergeableOf(p.base.sha, p.head.sha, request.baseLog, request.headLog, request.headInBase)
  }

  datatype Sent = Nothing | PointerMove(u: ReceivePack.RefUpdate) | NewCommit(u: ReceivePack.RefUpdate, commit: CommitObject)

  // What mergePull sends once both tips are read: nothing, an update of the pointer alone, or a
  // commit over both tips with head's tree.
  function Sends(w: World, p: Pending, request: MergeRequest): Sent
    requires BothRead(p)
  {
    var base, head, mergeable := ShaOf(p.base), ShaOf(p.head), MergeableIn(p, request);
    if request.expectedHead != "" && request.expectedHead != head then Nothing
    else if mergeable == Empty || mergeable == Behind then Nothing
    else if mergeable == Clean && !request.wantsCommit then PointerMove(ReceivePack.RefUpdate(p.ref, base, head))
    else if head !in w.commits then Nothing
    else NewCommit(ReceivePack.RefUpdate(p.ref, base, request.sha), CommitObject([base, head], w.commits[head].entries))
  }

  function Served(w: World, sent: Sent): World {
    match sent
    case Nothing => w
    case PointerMove(u) => Push(w, u.ref, u.oldSha, u.newSha)
    case NewCommit(u, commit) => PushCommit(w, u.ref, u.oldSha, u.newSha, commit)
  }

  // The server does what the push asks for.
  predicate Applies(w: World, sent: Sent) {
    match sent
    case Nothing => false
    case PointerMove(u) => Matches(w.refs, u.ref, u.oldSha) && u.newSha in w.commits
    case NewCommit(u, commit) => Matches(w.refs, u.ref, u.oldSha) && CanAdd(w.commits, u.newSha, commit)
  }

  ghost predicate Confirms(texts: seq<string>) {
    && ReceivePack.UNPACK_OK in texts && (forall i | 0 <= i < |texts| :: !ReceivePack.FailedUnpack(texts[i]))
    && (exists i | 0 <= i < |texts| :: ReceivePack.Accepts(texts[i])) && forall i | 0 <= i < |texts| :: !ReceivePack.Refuses(texts[i])
  }

  // The server confirms what it did, and does not say "ok" of what it refused.
  ghost predicate Answers(w: World, sent: Sent, report: Option<seq<string>>) {
    report.Some? ==>
      if Applies(w, sent) then Confirms(report.value)
      else forall i | 0 <= i < |report.value| :: !ReceivePack.Accepts(report.value[i])
  }

  // The forge records a merge if it sent a push and reads the report as a success.
  function Recorded(recorded: map<nat, Record>, id: nat, sent: Sent, report: Option<seq<string>>): map<nat, Record> {
    if !sent.Nothing? && report.Some? && ReceivePack.Verdict(report.value).Accepted?
    then recorded[id := Record(sent.u.ref, sent.u.newSha)] else recorded
  }

  // ---- wiki trees -------------------------------------------------------------------

  function BlobsOf(entries: Entries): Entries {
    map name | name in entries && entries[name].kind == Blob :: entries[name]
  }

  function Edited(entries: Entries, changes: Changes): Entries {
    map name | name in entries.Keys + changes.Keys && (name in changes ==> changes[name].Some?) ::
      if name in changes then Entry(name, Blob, "100644", changes[name].value) else entries[name]
  }

  // A save goes on without any files if the tip's tree cannot be read.
  function Saved(files: Entries, save: Save): Entries { Edited(if save.treeRead then files else map[], save.changes) }

  function FilesOf(w: World, tip: Option<Sha>): Entries {
    if tip.Some? && tip.value in w.commits then BlobsOf(w.commits[tip.value].entries) else map[]
  }

  // writeWikiTree once the tip is read: its blobs with the changes applied, on top of it.
  function WikiWritten(w: World, p: Pending, sha: Sha, save: Save, expected: Sha): World
    requires p.WikiRead?
  {
    var entries := Saved(FilesOf(w, p.tip), save);
    if expected != "" && p.tip.Some? && p.tip.value != expected then w
    else if entries == map[] then w
    else PushCommit(w, p.ref, p.tip.UnwrapOr(ZERO_SHA), sha, WikiCommit(p.tip, entries))
  }

  function WikiCommit(tip: Option<Sha>, entries: Entries): CommitObject {
    CommitObject(if tip.Some? then [tip.value] else [], entries)
  }

  // ---- the steps --------------------------------------------------------------------

  function Finish(w: World, id: nat): World { w.(pending := w.pending - {id}) }

  function Look(w: World, ref: string): Read { if ref in w.refs then At(w.refs[ref]) else Missing }

  function LookTip(w: World, ref: string): Option<Sha> { if ref in w.refs then Some(w.refs[ref]) else None }

  ghost function PushedMerge(w: World, id: nat, request: MergeRequest, report: Option<seq<string>>): World {
    if id in w.pending && BothRead(w.pending[id]) && LogsRead(w, w.pending[id], request)
       && Answers(w, Sends(w, w.pending[id], request), report)
    then
      var sent := Sends(w, w.pending[id], request);
      Finish(Served(w, sent), id).(recorded := Recorded(w.recorded, id, sent, report))
    else w
  }

  function PushedWiki(w: World, id: nat, sha: Sha, save: Save, expected: Sha): World {
    if id in w.pending && w.pending[id].WikiRead? then Finish(WikiWritten(w, w.pending[id], sha, save, expected), id) else w
  }

  predicate Reading(w: World, id: nat) { id in w.pending && w.pending[id].MergeRead? }

  predicate ForkTip(tip: Option<Sha>) { tip.Some? ==> IsSha(tip.value) && tip.value != ZERO_SHA }

  function SetPending(w: World, id: nat, p: Pending): World { w.(pending := w.pending[id := p]) }

  // One step. An operation ends with its push, accepted or not; a step that does not apply does
  // nothing.
  ghost function Step(w: World, a: Action): World {
    match a
    case StartMerge(id, ref, headRef) => if id !in w.pending then SetPending(w, id, MergeRead(ref, headRef, NotYet, NotYet)) else w
    case ReadBase(id) =>
      if Reading(w, id) && w.pending[id].base.NotYet? then SetPending(w, id, w.pending[id].(base := Look(w, w.pending[id].ref))) else w
    case ReadHead(id) =>
      if Reading(w, id) && w.pending[id].head.NotYet? then SetPending(w, id, w.pending[id].(head := Look(w, w.pending[id].headRef))) else w
    case ReadForkHead(id, tip) =>
      if Reading(w, id) && w.pending[id].head.NotYet? && ForkTip(tip)
      then SetPending(w, id, w.pending[id].(head := if tip.Some? then At(tip.value) else Missing)) else w
    case PushMerge(id, request, report) => PushedMerge(w, id, request, report)
    case ReadTip(id, ref) => if id !in w.pending then SetPending(w, id, WikiRead(ref, LookTip(w, ref))) else w
    case PushWiki(id, sha, save, expected) => PushedWiki(w, id, sha, save, expected)
    case OtherCommit(sha, commit) => if CanAdd(w.commits, sha, commit) then w.(commits := w.commits[sha := commit]) else w
    case OtherPush(ref, oldSha, newSha) => Push(w, ref, oldSha, newSha)
  }

  ghost function Run(w: World, actions: seq<Action>): World {
    if actions == [] then w else Step(Run(w, actions[..|actions| - 1]), actions[|actions| - 1])
  }

  // ---- what every step keeps --------------------------------------------------------

  // What an operation in progress may rely on. Only a fork's tip need not be in the repository.
  predicate ValidPending(commits: map<Sha, CommitObject>, p: Pending) {
    match p
    case MergeRead(_, _, base, head) =>
      (base.At? ==> base.sha in commits) && (head.At? ==> IsSha(head.sha) && head.sha != ZERO_SHA)
    case WikiRead(_, tip) => tip.Some? ==> tip.value in commits
  }

  ghost predicate ValidCommits(commits: map<Sha, CommitObject>) {
    && (forall c | c in commits :: IsSha(c) && c != ZERO_SHA && c !in commits[c].parents)
    && forall c, p | c in commits && p in commits[c].parents :: p in commits
  }

  // Refs and parents point at commits the server has, and so does what was read there.
  ghost predicate Valid(w: World) {
    && ValidCommits(w.commits)
    && (forall r | r in w.refs :: w.refs[r] in w.commits)
    && forall id | id in w.pending :: ValidPending(w.commits, w.pending[id])
  }

  // Commits are never changed or dropped.
  ghost predicate Grown(w: World, w': World) {
    w.commits.Keys <= w'.commits.Keys && forall c | c in w.commits :: w'.commits[c] == w.commits[c]
  }

  // The other writers do not force-push: they move a ref only to a descendant of where it is.
  ghost predicate FastForwardOnly(w: World, a: Action) {
    a.OtherPush? && a.ref in w.refs && a.newSha in w.commits && a.oldSha == w.refs[a.ref] ==>
      Reaches(GraphOf(w.commits), a.newSha, w.refs[a.ref])
  }

  // No ref is gone, and each still reaches the commit where it was.
  ghost predicate RefsAdvance(w: World, w': World) {
    forall r | r in w.refs :: r in w'.refs && Reaches(GraphOf(w'.commits), w'.refs[r], w.refs[r])
  }

  lemma {:induction false} CommitValid(w: World, sha: Sha, commit: CommitObject)
    requires Valid(w) && CanAdd(w.commits, sha, commit)
    ensures var w' := w.(commits := w.commits[sha := commit]); Valid(w') && Grown(w, w')
  {
    hide IsSha;
  }

  lemma PushValid(w: World, ref: string, oldSha: Sha, newSha: Sha)
    requires Valid(w)
    ensures var w' := Push(w, ref, oldSha, newSha);
      Valid(w') && w'.commits == w.commits && w'.pending == w.pending && w'.recorded == w.recorded
  {
    hide ValidCommits, ValidPending;
  }

  lemma {:induction false} PushCommitValid(w: World, ref: string, oldSha: Sha, sha: Sha, commit: CommitObject)
    requires Valid(w)
    ensures var w' := PushCommit(w, ref, oldSha, sha, commit);
      Valid(w') && Grown(w, w') && w'.pending == w.pending && w'.recorded == w.recorded
  {
    if CanAdd(w.commits, sha, commit) {
      CommitValid(w, sha, commit);
      hide CanAdd, Grown, Valid;
      PushValid(w.(commits := w.commits[sha := commit]), ref, oldSha, sha);
    }
  }

  lemma ServedValid(w: World, sent: Sent)
    requires Valid(w)
    ensures var w' := Served(w, sent); Valid(w') && Grown(w, w') && w'.pending == w.pending && w'.recorded == w.recorded
  {
    hide Valid, Push, PushCommit;
    match sent
    case Nothing =>
    case PointerMove(u) => PushValid(w, u.ref, u.oldSha, u.newSha);
    case NewCommit(u, commit) => PushCommitValid(w, u.ref, u.oldSha, u.newSha, commit);
  }

  lemma FinishValid(w: World, id: nat, recorded: map<nat, Record>)
    requires Valid(w)
    ensures Valid(Finish(w, id).(recorded := recorded))
  {
    hide ValidCommits, ValidPending;
  }

  lemma SetPendingValid(w: World, id: nat, p: Pending)
    requires Valid(w) && ValidPending(w.commits, p)
    ensures Valid(SetPending(w, id, p))
  {
    hide ValidCommits, ValidPending;
  }

  lemma PushedMergeValid(w: World, id: nat, request: MergeRequest, report: Option<seq<string>>)
    requires Valid(w)
    ensures Valid(PushedMerge(w, id, request, report)) && Grown(w, PushedMerge(w, id, request, report))
  {
    hide Valid, LogsRead, Answers, Sends, Served, Recorded;
    if id in w.pending && BothRead(w.pending[id]) {
      var sent := Sends(w, w.pending[id], request);
      ServedValid(w, sent);
      FinishValid(Served(w, sent), id, Recorded(w.recorded, id, sent, report));
    }
  }

  lemma PushedWikiValid(w: World, id: nat, sha: Sha, save: Save, expected: Sha)
    requires Valid(w)
    ensures Valid(PushedWiki(w, id, sha, save, expected)) && Grown(w, PushedWiki(w, id, sha, save, expected))
  {
    hide Valid, PushCommit, Saved, FilesOf;
    if id in w.pending && w.pending[id].WikiRead? {
      var p := w.pending[id];
      PushCommitValid(w, p.ref, p.tip.UnwrapOr(ZERO_SHA), sha, WikiCommit(p.tip, Saved(FilesOf(w, p.tip), save)));
      var w' := WikiWritten(w, p, sha, save, expected);
      FinishValid(w', id, w'.recorded);
    }
  }

  lemma {:induction false} StepValid(w: World, a: Action)
    requires Valid(w)
    ensures Valid(Step(w, a)) && Grown(w, Step(w, a))
  {
    hide CanAdd, IsSha, ValidCommits, PushedMerge, PushedWiki;
    match a
    case StartMerge(id, ref, headRef) => SetPendingValid(w, id, MergeRead(ref, headRef, NotYet, NotYet));
    case ReadBase(id) => ReadValid(w, id);
    case ReadHead(id) => ReadValid(w, id);
    case ReadForkHead(id, tip) =>
      if Reading(w, id) && ForkTip(tip) {
        SetPendingValid(w, id, w.pending[id].(head := if tip.Some? then At(tip.value) else Missing));
      }
    case PushMerge(id, request, report) => PushedMergeValid(w, id, request, report);
    case ReadTip(id, ref) => SetPendingValid(w, id, WikiRead(ref, LookTip(w, ref)));
    case PushWiki(id, sha, save, expected) => PushedWikiValid(w, id, sha, save, expected);
    case OtherCommit(sha, commit) => if CanAdd(w.commits, sha, commit) { CommitValid(w, sha, commit); }
    case OtherPush(ref, oldSha, newSha) => PushValid(w, ref, oldSha, newSha);
  }

  lemma ReadValid(w: World, id: nat)
    requires Valid(w)
    ensures Reading(w, id) ==>
      && Valid(SetPending(w, id, w.pending[id].(base := Look(w, w.pending[id].ref))))
      && Valid(SetPending(w, id, w.pending[id].(head := Look(w, w.pending[id].headRef))))
  {
    hide ValidPending;
    if Reading(w, id) {
      var p := w.pending[id];
      LookValid(w, p);
      hide Valid;
      SetPendingValid(w, id, p.(base := Look(w, p.ref)));
      SetPendingValid(w, id, p.(head := Look(w, p.headRef)));
    }
  }

  lemma LookValid(w: World, p: Pending)
    requires Valid(w) && p.MergeRead? && ValidPending(w.commits, p)
    ensures ValidPending(w.commits, p.(base := Look(w, p.ref))) && ValidPending(w.commits, p.(head := Look(w, p.headRef)))
  {
    hide IsSha;
  }

  lemma {:induction false} GrownReaches(w: World, w': World, from: Sha, to: Sha)
    requires Grown(w, w') && Reaches(GraphOf(w.commits), from, to)
    ensures Reaches(GraphOf(w'.commits), from, to)
  {
    ReachesGrows(GraphOf(w.commits), GraphOf(w'.commits), from, to);
  }

  lemma {:induction false} RefsStay(w: World, w': World)
    requires forall r | r in w.refs :: r in w'.refs && w'.refs[r] == w.refs[r]
    ensures RefsAdvance(w, w')
  {
    forall r | r in w.refs ensures Reaches(GraphOf(w'.commits), w'.refs[r], w.refs[r]) {
      ReachesSelf(GraphOf(w'.commits), w.refs[r]);
    }
  }

  lemma {:induction false} PushAdvances(w: World, ref: string, oldSha: Sha, newSha: Sha)
    requires ref in w.refs && newSha in w.commits && oldSha == w.refs[ref] ==> Reaches(GraphOf(w.commits), newSha, oldSha)
    ensures RefsAdvance(w, Push(w, ref, oldSha, newSha))
  {
    hide Reaches;
    RefsStay(w, w);
  }

  lemma {:induction false} PushCommitAdvances(w: World, ref: string, oldSha: Sha, sha: Sha, commit: CommitObject)
    requires Valid(w) && (oldSha in commit.parents || oldSha == ZERO_SHA)
    ensures RefsAdvance(w, PushCommit(w, ref, oldSha, sha, commit))
  {
    hide Reaches, IsSha;
    RefsStay(w, w);
    var w' := w.(commits := w.commits[sha := commit]);
    RefsStay(w', w');
    if oldSha in commit.parents { ReachesParent(GraphOf(w'.commits), sha, oldSha); }
  }

  lemma {:induction false} PushedWikiAdvances(w: World, id: nat, sha: Sha, save: Save, expected: Sha)
    requires Valid(w)
    ensures RefsAdvance(w, PushedWiki(w, id, sha, save, expected))
  {
    RefsStay(w, w);
    hide Valid, PushCommit, Saved, FilesOf, Reaches;
    if id in w.pending && w.pending[id].WikiRead? {
      var p := w.pending[id];
      PushCommitAdvances(w, p.ref, p.tip.UnwrapOr(ZERO_SHA), sha, WikiCommit(p.tip, Saved(FilesOf(w, p.tip), save)));
    }
  }

  // A merge decided on what was read earlier only ever advances its base branch.
  lemma {:induction false} MergeAdvances(w: World, p: Pending, request: MergeRequest)
    requires Valid(w) && BothRead(p) && ValidPending(w.commits, p) && LogsRead(w, p, request)
    ensures RefsAdvance(w, Served(w, Sends(w, p, request)))
  {
    RefsStay(w, w);
    var sent := Sends(w, p, request);
    if sent.NewCommit? {
      hide PushCommit, Reaches, LogsRead;
      PushCommitAdvances(w, p.ref, sent.u.oldSha, sent.u.newSha, sent.commit);
    } else if sent.PointerMove? && p.head.sha in w.commits {
      PointerDescends(w, p, request);
      hide Push, Reaches, LogsRead;
      PushAdvances(w, p.ref, p.base.sha, p.head.sha);
    }
  }

  lemma {:induction false} PointerDescends(w: World, p: Pending, request: MergeRequest)
    requires Valid(w) && BothRead(p) && ValidPending(w.commits, p) && LogsRead(w, p, request)
    requires Sends(w, p, request).PointerMove? && p.head.sha in w.commits
    ensures Reaches(GraphOf(w.commits), p.head.sha, p.base.sha)
  {
    hide IsLog, IsSha, Reaches;
    LogReaches(request.history, p.head.sha, ANCESTRY_LIMIT, request.headLog);
    ReachesInside(GraphOf(w.commits), request.history, p.head.sha, p.base.sha);
  }

  lemma PushedMergeAdvances(w: World, id: nat, request: MergeRequest, report: Option<seq<string>>)
    requires Valid(w)
    ensures RefsAdvance(w, PushedMerge(w, id, request, report))
  {
    RefsStay(w, w);
    hide LogsRead, Answers, Sends, Served, Recorded, Reaches, ValidCommits;
    if id in w.pending && BothRead(w.pending[id]) && LogsRead(w, w.pending[id], request) {
      MergeAdvances(w, w.pending[id], request);
    }
  }

  predicate Pushes(a: Action) { a.PushMerge? || a.PushWiki? || a.OtherPush? }

  lemma RefsKept(w: World, a: Action)
    requires !Pushes(a)
    ensures Step(w, a).refs == w.refs
  {
    hide CanAdd;
  }

  // Whatever step is taken, the tip it installs has the tip it replaces as an ancestor.
  lemma {:induction false} StepAdvances(w: World, a: Action)
    requires Valid(w) && FastForwardOnly(w, a)
    ensures RefsAdvance(w, Step(w, a))
  {
    hide PushedMerge, PushedWiki, Push, CanAdd, Valid, Reaches;
    if a.PushMerge? {
      PushedMergeAdvances(w, a.id, a.request, a.report);
    } else if a.PushWiki? {
      PushedWikiAdvances(w, a.id, a.sha, a.save, a.expected);
    } else if a.OtherPush? {
      PushAdvances(w, a.ref, a.oldSha, a.newSha);
    } else {
      RefsKept(w, a);
      hide Step;
      RefsStay(w, Step(w, a));
    }
  }

  // ---- whole runs -------------------------------------------------------------------

  // The other writers of a run never force-push.
  ghost predicate WellBehaved(w: World, actions: seq<Action>) {
    forall i | 0 <= i < |actions| :: FastForwardOnly(Run(w, actions[..i]), actions[i])
  }

  // However the steps interleave: nothing that a ref could reach at the start is lost by the end.
  lemma {:induction false} NothingIsLost(w: World, actions: seq<Action>, ref: string, c: Sha)
    requires Valid(w) && WellBehaved(w, actions)
    requires ref in w.refs && Reaches(GraphOf(w.commits), w.refs[ref], c)
    ensures Valid(Run(w, actions)) && Grown(w, Run(w, actions))
    ensures ref in Run(w, actions).refs && Reaches(GraphOf(Run(w, actions).commits), Run(w, actions).refs[ref], c)
  {
    hide Reaches, Step, FastForwardOnly, Valid;
    if actions != [] {
      var front, last := actions[..|actions| - 1], actions[|actions| - 1];
      forall i | 0 <= i < |front| ensures FastForwardOnly(Run(w, front[..i]), front[i]) {
        assert front[..i] == actions[..i];
        assert FastForwardOnly(Run(w, actions[..i]), actions[i]);
      }
      NothingIsLost(w, front, ref, c);
      var before, after := Run(w, front), Run(w, actions);
      assert FastForwardOnly(Run(w, actions[..|actions| - 1]), actions[|actions| - 1]);
      StepValid(before, last);
      StepAdvances(before, last);
      GrownReaches(before, after, before.refs[ref], c);
      ReachesTransitive(GraphOf(after.commits), after.refs[ref], before.refs[ref], c);
    }
  }

  // ---- what a successful push installs ----------------------------------------------

  ghost predicate OnlyRefMoved(w: World, w': World, ref: string) {
    w'.refs.Keys == w.refs.Keys + {ref} && forall r | r in w.refs && r != ref :: w'.refs[r] == w.refs[r]
  }

  lemma {:induction false} PushCommitInstalls(w: World, ref: string, oldSha: Sha, sha: Sha, commit: CommitObject)
    requires PushCommit(w, ref, oldSha, sha, commit).refs != w.refs
    ensures var w' := PushCommit(w, ref, oldSha, sha, commit);
      && Matches(w.refs, ref, oldSha) && OnlyRefMoved(w, w', ref) && w'.refs[ref] == sha
      && sha in w'.commits && w'.commits[sha] == commit && Grown(w, w')
  {}

  // Only the base branch moved, from the tip the merge was decided on: to the head, which descends
  // from that tip, or to a commit with the head's tree whose first parent is that tip and whose
  // second is the head.
  ghost predicate Merges(w: World, w': World, p: Pending, request: MergeRequest) {
    && p.MergeRead? && p.base.At? && p.head.At?
    && p.ref in w.refs && w.refs[p.ref] == p.base.sha && OnlyRefMoved(w, w', p.ref)
    && var tip := w'.refs[p.ref];
       (tip == p.head.sha && tip != p.base.sha && Reaches(GraphOf(w.commits), tip, p.base.sha))
       || (tip == request.sha && tip in w'.commits && p.head.sha in w'.commits
           && w'.commits[tip] == CommitObject([w.refs[p.ref], p.head.sha], w'.commits[p.head.sha].entries))
  }

  // A push that moves a ref for a merge is a merge.
  lemma {:induction false} MergeInstalls(w: World, id: nat, request: MergeRequest, report: Option<seq<string>>)
    requires Valid(w) && Step(w, PushMerge(id, request, report)).refs != w.refs
    ensures id in w.pending && Merges(w, Step(w, PushMerge(id, request, report)), w.pending[id], request)
  {
    hide Served, Sends, LogsRead, Answers, Recorded, ValidCommits;
    ServedMerges(w, w.pending[id], request);
  }

  lemma {:induction false} ServedMerges(w: World, p: Pending, request: MergeRequest)
    requires Valid(w) && BothRead(p) && ValidPending(w.commits, p) && LogsRead(w, p, request)
    requires Served(w, Sends(w, p, request)).refs != w.refs
    ensures Merges(w, Served(w, Sends(w, p, request)), p, request)
  {
    var sent := Sends(w, p, request);
    NoEmptyId(w.commits);
    assert (p.base.At? ==> p.base.sha in w.commits) && ZERO_SHA !in w.commits;
    assert forall r | r in w.refs :: w.refs[r] in w.commits;
    hide LogsRead, Valid, ValidPending, Reaches;
    if sent.PointerMove? {
      PointerDescends(w, p, request);
      PointerMerges(w, p, request);
    } else {
      CommitMerges(w, p, request);
    }
  }

  lemma PointerMerges(w: World, p: Pending, request: MergeRequest)
    requires BothRead(p) && Sends(w, p, request).PointerMove? && ZERO_SHA !in w.commits && p.base.sha in w.commits
    requires Reaches(GraphOf(w.commits), p.head.sha, p.base.sha)
    requires Served(w, Sends(w, p, request)).refs != w.refs
    ensures Merges(w, Served(w, Sends(w, p, request)), p, request)
  {
    hide Reaches, CanAdd;
  }

  lemma CommitMerges(w: World, p: Pending, request: MergeRequest)
    requires BothRead(p) && Sends(w, p, request).NewCommit? && "" !in w.commits
    requires (p.base.At? ==> p.base.sha != ZERO_SHA) && forall r | r in w.refs :: w.refs[r] in w.commits
    requires Served(w, Sends(w, p, request)).refs != w.refs
    ensures Merges(w, Served(w, Sends(w, p, request)), p, request)
  {
    hide PushCommit, MergeableOf, Reaches;
    var sent := Sends(w, p, request);
    PushCommitInstalls(w, p.ref, sent.u.oldSha, sent.u.newSha, sent.commit);
  }

  // The pointer just moves: base is in head's log and no commit was asked for.
  predicate MovesPointer(p: Pending, request: MergeRequest)
    requires p.MergeRead? && p.base.At?
  {
    p.base.sha in request.headLog && !request.wantsCommit
  }

  // Both branches are there, and base has not moved since; head is the one that the client saw and
  // the base repository has it; there is something to merge; and, unless the pointer just
  // moves, the merge commit can be added.
  ghost predicate CanMerge(w: World, p: Pending, request: MergeRequest)
    requires BothRead(p)
  {
    && p.base.At? && p.head.At?
    && var base, head := p.base.sha, p.head.sha;
       && p.ref in w.refs && w.refs[p.ref] == base && (request.expectedHead == "" || request.expectedHead == head)
       && base != head && (base in request.headLog || head !in request.baseLog) && head in w.commits
       && (MovesPointer(p, request) || CanAdd(w.commits, request.sha, CommitObject([base, head], w.commits[head].entries)))
  }

  // A merge goes through exactly if it can; either way it is over.
  lemma {:induction false} MergeGoesThroughIff(w: World, id: nat, request: MergeRequest, report: Option<seq<string>>)
    requires Valid(w) && id in w.pending && BothRead(w.pending[id]) && LogsRead(w, w.pending[id], request)
    requires Answers(w, Sends(w, w.pending[id], request), report)
    ensures var p, w' := w.pending[id], Step(w, PushMerge(id, request, report));
      && id !in w'.pending && (w'.refs != w.refs <==> CanMerge(w, p, request))
      && (w'.refs != w.refs ==>
            p.ref in w'.refs && w'.refs[p.ref] == if MovesPointer(p, request) then p.head.sha else request.sha)
  {
    var p := w.pending[id];
    MergeOutcome(w, p, request);
    ServedMoves(w, Sends(w, p, request));
    MergePushed(w, id, request, report);
    hide Step, Sends, Served, LogsRead, CanMerge, MovesPointer, Answers, Applies, Valid;
  }

  lemma MergePushed(w: World, id: nat, request: MergeRequest, report: Option<seq<string>>)
    requires id in w.pending && BothRead(w.pending[id]) && LogsRead(w, w.pending[id], request)
    requires Answers(w, Sends(w, w.pending[id], request), report)
    ensures var w' := Step(w, PushMerge(id, request, report));
      id !in w'.pending && w'.refs == Served(w, Sends(w, w.pending[id], request)).refs
  {
    hide LogsRead, Answers, Sends, Served, Recorded;
  }

  // What is sent, and that the server does it exactly if the merge can go through.
  lemma {:induction false} MergeOutcome(w: World, p: Pending, request: MergeRequest)
    requires Valid(w) && BothRead(p) && ValidPending(w.commits, p) && LogsRead(w, p, request)
    ensures var sent := Sends(w, p, request);
      && (Applies(w, sent) <==> CanMerge(w, p, request))
      && (Applies(w, sent) ==>
            && sent.u == ReceivePack.RefUpdate(p.ref, p.base.sha, if MovesPointer(p, request) then p.head.sha else request.sha)
            && sent.u.oldSha != sent.u.newSha && sent.u.oldSha != ZERO_SHA && w.refs[p.ref] == p.base.sha)
  {
    if p.base.At? && p.head.At? {
      DecidedByLogs(w, p, request);
      hide MergeableOf, LogsRead, CanAdd, IsSha;
      assert p.base.sha != ZERO_SHA;
    } else {
      NoEmptyId(w.commits);
      hide IsSha, LogsRead;
    }
  }

  lemma NoEmptyId(commits: map<Sha, CommitObject>)
    requires ValidCommits(commits)
    ensures "" !in commits
  {}

  lemma {:induction false} DecidedByLogs(w: World, p: Pending, request: MergeRequest)
    requires Valid(w) && BothRead(p) && ValidPending(w.commits, p) && LogsRead(w, p, request) && p.base.At? && p.head.At?
    ensures MergeableIn(p, request) ==
      if p.base.sha == p.head.sha then Empty
      else if p.base.sha in request.headLog then Clean
      else if p.head.sha in request.baseLog then Behind
      else Conflicted
  {
    var g := GraphOf(w.commits);
    LogReaches(g, p.base.sha, ANCESTRY_LIMIT, request.baseLog);
    if p.head.sha in request.baseLog { HasAncestors(w, p.base.sha, p.head.sha); }
    NoEmptyId(w.commits);
    assert p.head.sha != "";
    hide Reaches, IsLog, MergeableOf, IsSha;
    LogNotEmpty(g, p.head.sha, request.headInBase);
    MergeableByLogs(g, p.base.sha, p.head.sha, request.baseLog, request.headLog, request.headInBase);
  }

  lemma LogNotEmpty(g: Graph, sha: Sha, log: seq<Sha>)
    ensures IsLog(g, sha, ANCESTRY_LIMIT, log) ==> log != []
  {}

  // The repository has all that its commits descend from.
  lemma {:induction false} HasAncestors(w: World, from: Sha, to: Sha)
    requires ValidCommits(w.commits) && from in w.commits && Reaches(GraphOf(w.commits), from, to)
    ensures to in w.commits
  {
    hide IsSha;
    var g := GraphOf(w.commits);
    var path :| IsPath(g, path) && path[0] == from && path[|path| - 1] == to;
    for i := 0 to |path| - 1
      invariant path[i] in w.commits
    {
      assert path[i + 1] in g[path[i]];
    }
  }

  // A push that the server does moves the ref, unless it is there already.
  lemma {:induction false} ServedMoves(w: World, sent: Sent)
    requires Valid(w) && (Applies(w, sent) ==> sent.u.newSha != sent.u.oldSha && sent.u.oldSha != ZERO_SHA)
    ensures Served(w, sent).refs != w.refs <==> Applies(w, sent)
    ensures Applies(w, sent) ==> Served(w, sent).refs == w.refs[sent.u.ref := sent.u.newSha]
  {
    hide CanAdd, ValidCommits;
    if Applies(w, sent) { RefMoves(w.refs, sent.u.ref, sent.u.newSha); }
  }

  lemma RefMoves(refs: map<string, Sha>, ref: string, sha: Sha)
    ensures refs[ref := sha] != refs <==> ref !in refs || refs[ref] != sha
  {
    assert ref in refs && refs[ref] == sha ==> refs[ref := sha] == refs;
    assert refs[ref := sha][ref] == sha;
  }


  // ---- with a branch missing --------------------------------------------------------

  // The update is between two commits' ids, and the parents of a new commit exist.
  predicate Proper(w: World, sent: Sent) {
    match sent
    case Nothing => true
    case PointerMove(u) => IsSha(u.oldSha) && IsSha(u.newSha)
    case NewCommit(u, commit) => IsSha(u.oldSha) && IsSha(u.newSha) && forall p | p in commit.parents :: p in w.commits
  }

  // What is sent is a proper update exactly if neither branch was missing. Nothing is sent with
  // the head missing; with base missing a commit is sent whose first parent has an empty id, and
  // the server moves nothing for it.
  lemma {:induction false} ProperIff(w: World, p: Pending, request: MergeRequest)
    requires Valid(w) && BothRead(p) && ValidPending(w.commits, p) && IsSha(request.sha)
    ensures var sent := Sends(w, p, request);
      && (!sent.Nothing? ==> p.head.At? && (Proper(w, sent) <==> p.base.At?))
      && (p.base.Missing? || p.head.Missing? ==> Served(w, sent) == w)
      && (p.base.Missing? && !sent.Nothing? ==>
            sent.NewCommit? && sent.u.oldSha == "" && sent.commit.parents == ["", p.head.sha])
  {
    NoEmptyId(w.commits);
    var sent := Sends(w, p, request);
    if sent.NewCommit? {
      assert sent.commit.parents[0] == ShaOf(p.base);
      assert forall c | c in sent.commit.parents :: c == ShaOf(p.base) || c == ShaOf(p.head);
    }
    hide MergeableOf;
  }

  // Such a push is sent whenever base alone is missing and the head is the one the client saw.
  lemma MissingBaseIsSent(w: World, p: Pending, request: MergeRequest)
    requires p.MergeRead? && p.base.Missing? && p.head.At? && p.head.sha in w.commits
    requires request.expectedHead == "" || request.expectedHead == p.head.sha
    ensures Sends(w, p, request) ==
      NewCommit(ReceivePack.RefUpdate(p.ref, "", request.sha), CommitObject(["", p.head.sha], w.commits[p.head.sha].entries))
  {}

  // ---- what is recorded as merged ---------------------------------------------------

  // The report names a refusal without a reason, last, and is a success otherwise.
  ghost predicate RefusedWithoutReason(texts: seq<string>) {
    && ReceivePack.UNPACK_OK in texts && (forall i | 0 <= i < |texts| :: !ReceivePack.FailedUnpack(texts[i]))
    && exists i | 0 <= i < |texts| ::
      ReceivePack.Refuses(texts[i]) && ReceivePack.Reason(texts[i]) == "" && forall j | i < j < |texts| :: !ReceivePack.Refuses(texts[j])
  }

  lemma {:induction false} VerdictIff(w: World, sent: Sent, texts: seq<string>)
    requires Answers(w, sent, Some(texts))
    ensures ReceivePack.Verdict(texts).Accepted? <==> Applies(w, sent) || RefusedWithoutReason(texts)
  {
    hide Applies, ReceivePack.Accepts, ReceivePack.Refuses, ReceivePack.FailedUnpack, ReceivePack.Reason, ReceivePack.Verdict;
    if exists i | 0 <= i < |texts| :: ReceivePack.Refuses(texts[i]) {
      ReceivePack.RefusedYetAcceptedIff(texts);
    } else {
      ReceivePack.AcceptedIff(texts);
    }
  }

  // What is recorded of a merge whose push is taken for a success.
  function RecordOf(p: Pending, request: MergeRequest): Record
    requires BothRead(p)
  {
    Record(p.ref, if MergeableIn(p, request) == Clean && !request.wantsCommit then ShaOf(p.head) else request.sha)
  }

  // A merge is recorded exactly if something was sent, its report arrives, and either the base
  // branch moved or the server refused without giving a reason.
  lemma {:induction false} RecordedIff(w: World, id: nat, request: MergeRequest, report: Option<seq<string>>)
    requires Valid(w) && id in w.pending && BothRead(w.pending[id]) && LogsRead(w, w.pending[id], request) && id !in w.recorded
    requires Answers(w, Sends(w, w.pending[id], request), report)
    ensures var w', sent := Step(w, PushMerge(id, request, report)), Sends(w, w.pending[id], request);
      id in w'.recorded <==>
        !sent.Nothing? && report.Some? && (w'.refs != w.refs || RefusedWithoutReason(report.value))
    ensures var w' := Step(w, PushMerge(id, request, report));
      id in w'.recorded ==> w'.recorded[id] == RecordOf(w.pending[id], request)
  {
    var p := w.pending[id];
    var sent := Sends(w, p, request);
    MergeOutcome(w, p, request);
    SentFor(w, p, request);
    ServedMoves(w, sent);
    if report.Some? { VerdictIff(w, sent, report.value); }
    ServedValid(w, sent);
    hide Sends, Served, LogsRead, CanMerge, Answers, Applies, RefusedWithoutReason, ReceivePack.Verdict, Valid, RecordOf;
  }

  lemma SentFor(w: World, p: Pending, request: MergeRequest)
    requires BothRead(p)
    ensures var sent := Sends(w, p, request); !sent.Nothing? ==> Record(sent.u.ref, sent.u.newSha) == RecordOf(p, request)
  {}

  // Over whole runs, with servers that give reasons for what they refuse.
  ghost predicate Reasoned(actions: seq<Action>) {
    forall i | 0 <= i < |actions| :: actions[i].PushMerge? ==> GivesReasons(actions[i].report)
  }

  ghost predicate GivesReasons(report: Option<seq<string>>) { report.Some? ==> !RefusedWithoutReason(report.value) }

  // Everything recorded as merged is in the history of the branch it was merged into.
  ghost predicate MergesHeld(w: World) {
    forall id | id in w.recorded :: Held(w, w.recorded[id])
  }

  ghost predicate Held(w: World, record: Record) {
    record.ref in w.refs && Reaches(GraphOf(w.commits), w.refs[record.ref], record.sha)
  }

  lemma {:induction false} HeldStays(w: World, w': World, record: Record)
    requires Held(w, record) && Grown(w, w') && RefsAdvance(w, w')
    ensures Held(w', record)
  {
    hide Reaches, Grown;
    GrownReaches(w, w', w.refs[record.ref], record.sha);
    ReachesTransitive(GraphOf(w'.commits), w'.refs[record.ref], w.refs[record.ref], record.sha);
  }

  // A step records nothing, or one merge that its push made.
  lemma {:induction false} StepRecords(w: World, a: Action)
    requires Valid(w) && (a.PushMerge? ==> GivesReasons(a.report))
    ensures var w' := Step(w, a);
      forall id | id in w'.recorded :: (id in w.recorded && w'.recorded[id] == w.recorded[id]) || Held(w', w'.recorded[id])
  {
    var w' := Step(w, a);
    if a.PushMerge? && Step(w, a) != w {
      var p := w.pending[a.id];
      var sent := Sends(w, p, a.request);
      ServedValid(w, sent);
      if a.report.Some? { VerdictIff(w, sent, a.report.value); }
      hide Sends, LogsRead, Answers, RefusedWithoutReason, ReceivePack.Verdict, Valid;
      if Applies(w, sent) { ServedHolds(w, sent); }
      hide Served, Applies, Held;
    } else if !a.PushMerge? {
      OthersRecordNothing(w, a);
      hide Step, Held;
    }
  }

  lemma ServedHolds(w: World, sent: Sent)
    requires Applies(w, sent)
    ensures var w' := Served(w, sent); sent.u.ref in w'.refs && w'.refs[sent.u.ref] == sent.u.newSha
    ensures Held(Served(w, sent), Record(sent.u.ref, sent.u.newSha))
  {
    hide CanAdd, Reaches;
    ReachesSelf(GraphOf(Served(w, sent).commits), sent.u.newSha);
  }

  lemma OthersRecordNothing(w: World, a: Action)
    requires !a.PushMerge?
    ensures Step(w, a).recorded == w.recorded
  {
    hide CanAdd, Saved, FilesOf;
  }

  // However the steps interleave: a pull request recorded as merged has its commit in the history
  // of its base branch, then and ever after.
  lemma {:induction false} RecordedMergesStay(w: World, actions: seq<Action>)
    requires Valid(w) && MergesHeld(w) && WellBehaved(w, actions) && Reasoned(actions)
    ensures Valid(Run(w, actions)) && MergesHeld(Run(w, actions))
  {
    hide Reaches, Step, FastForwardOnly, Valid, Held, GivesReasons;
    if actions != [] {
      var front, last := actions[..|actions| - 1], actions[|actions| - 1];
      forall i | 0 <= i < |front| ensures FastForwardOnly(Run(w, front[..i]), front[i]) {
        assert front[..i] == actions[..i];
        assert FastForwardOnly(Run(w, actions[..i]), actions[i]);
      }
      RecordedMergesStay(w, front);
      var before, after := Run(w, front), Run(w, actions);
      assert FastForwardOnly(Run(w, actions[..|actions| - 1]), actions[|actions| - 1]);
      StepValid(before, last);
      StepAdvances(before, last);
      StepRecords(before, last);
      forall id | id in after.recorded ensures Held(after, after.recorded[id]) {
        if id in before.recorded { HeldStays(before, after, before.recorded[id]); }
      }
    }
  }

  // ---- what was read ----------------------------------------------------------------

  // Before action i the ref stood where the read says.
  ghost predicate StoodAt(w: World, actions: seq<Action>, i: int, ref: string, read: Read) {
    && 0 <= i < |actions|
    && var refs := Run(w, actions[..i]).refs;
    read == if ref in refs then At(refs[ref]) else Missing
  }

  // Action j started the operation, and what it has read since is where the branches stood, or what
  // the fork said.
  ghost predicate Traced(w: World, actions: seq<Action>, id: nat, p: Pending, j: int) {
    0 <= j < |actions| &&
    match p
    case MergeRead(ref, headRef, base, head) =>
      && actions[j] == StartMerge(id, ref, headRef)
      && (base.NotYet? || exists i | j < i < |actions| :: actions[i] == ReadBase(id) && StoodAt(w, actions, i, ref, base))
      && (head.NotYet? || exists i | j < i < |actions| :: ReadsHead(w, actions, i, id, headRef, head))
    case WikiRead(ref, tip) =>
      actions[j] == ReadTip(id, ref) && StoodAt(w, actions, j, ref, if tip.Some? then At(tip.value) else Missing)
  }

  ghost predicate ReadsHead(w: World, actions: seq<Action>, i: int, id: nat, headRef: string, head: Read) {
    0 <= i < |actions| &&
    ((actions[i] == ReadHead(id) && StoodAt(w, actions, i, headRef, head))
     || (actions[i].ReadForkHead? && actions[i].id == id && head == if actions[i].tip.Some? then At(actions[i].tip.value) else Missing))
  }

  // What a step makes of an operation in progress.
  lemma PendingStep(w: World, a: Action, id: nat)
    ensures var w' := Step(w, a);
      id in w'.pending ==>
        if id !in w.pending then
          || (a.StartMerge? && a.id == id && w'.pending[id] == MergeRead(a.ref, a.headRef, NotYet, NotYet))
          || (a.ReadTip? && a.id == id && w'.pending[id] == WikiRead(a.ref, LookTip(w, a.ref)))
        else
          var p := w.pending[id];
          || w'.pending[id] == p
          || (p.MergeRead? && a == ReadBase(id) && p.base.NotYet? && w'.pending[id] == p.(base := Look(w, p.ref)))
          || (p.MergeRead? && a == ReadHead(id) && p.head.NotYet? && w'.pending[id] == p.(head := Look(w, p.headRef)))
          || (p.MergeRead? && a.ReadForkHead? && a.id == id && p.head.NotYet?
              && w'.pending[id] == p.(head := if a.tip.Some? then At(a.tip.value) else Missing))
  {
    hide CanAdd, Look, LookTip, BothRead, LogsRead, Answers, Recorded;
    if a.PushMerge? && id in w.pending && a.id in w.pending && BothRead(w.pending[a.id]) {
      PendingServed(w, Sends(w, w.pending[a.id], a.request));
    }
    if a.PushWiki? && a.id in w.pending && w.pending[a.id].WikiRead? {
      PendingWritten(w, w.pending[a.id], a.sha, a.save, a.expected);
    }
    hide Served, WikiWritten, Sends;
  }

  lemma PendingServed(w: World, sent: Sent)
    ensures Served(w, sent).pending == w.pending
  {
    hide CanAdd;
  }

  lemma PendingWritten(w: World, p: Pending, sha: Sha, save: Save, expected: Sha)
    requires p.WikiRead?
    ensures WikiWritten(w, p, sha, save, expected).pending == w.pending
  {
    hide CanAdd, Saved, FilesOf;
  }

  // What a read found does not depend on what comes later.
  lemma ReadStays(w: World, actions: seq<Action>, i: int, id: nat, ref: string, read: Read)
    requires 0 <= i < |actions| - 1
    ensures var front := actions[..|actions| - 1];
      && front[i] == actions[i]
      && (StoodAt(w, front, i, ref, read) <==> StoodAt(w, actions, i, ref, read))
      && (ReadsHead(w, front, i, id, ref, read) <==> ReadsHead(w, actions, i, id, ref, read))
  {
    hide Run;
    assert actions[..|actions| - 1][..i] == actions[..i];
  }

  lemma {:induction false} TracedLonger(w: World, actions: seq<Action>, id: nat, p: Pending, j: int)
    requires actions != [] && Traced(w, actions[..|actions| - 1], id, p, j)
    ensures Traced(w, actions, id, p, j)
  {
    hide StoodAt, ReadsHead;
    var front := actions[..|actions| - 1];
    if p.MergeRead? {
      assert front[j] == actions[j];
      if !p.base.NotYet? {
        var i :| j < i < |front| && front[i] == ReadBase(id) && StoodAt(w, front, i, p.ref, p.base);
        ReadStays(w, actions, i, id, p.ref, p.base);
      }
      if !p.head.NotYet? {
        var i :| j < i < |front| && ReadsHead(w, front, i, id, p.headRef, p.head);
        ReadStays(w, actions, i, id, p.headRef, p.head);
      }
    } else {
      ReadStays(w, actions, j, id, p.ref, if p.tip.Some? then At(p.tip.value) else Missing);
    }
  }

  // The tips that an operation goes by are those at which its branches stood at some moment since it
  // started: a branch read once is not read again.
  lemma {:induction false} TipsWereThere(w: World, actions: seq<Action>, id: nat) returns (j: int)
    requires id !in w.pending && id in Run(w, actions).pending
    ensures Traced(w, actions, id, Run(w, actions).pending[id], j)
  {
    var n := |actions| - 1;
    assert n >= 0;
    var front, a := actions[..n], actions[n];
    var before, p := Run(w, front), Run(w, actions).pending[id];
    PendingStep(before, a, id);
    hide Step;
    if id !in before.pending {
      j := n;
    } else {
      j := TipsWereThere(w, front, id);
      TracedLonger(w, actions, id, before.pending[id], j);
      if p != before.pending[id] { ReadMore(w, actions, id, before.pending[id], j); }
    }
  }

  // The last action read a branch.
  lemma {:induction false} ReadMore(w: World, actions: seq<Action>, id: nat, p: Pending, j: int)
    requires actions != [] && p.MergeRead? && Traced(w, actions, id, p, j) && j < |actions| - 1
    ensures var a, before := actions[|actions| - 1], Run(w, actions[..|actions| - 1]);
      && (a == ReadBase(id) && p.base.NotYet? ==> Traced(w, actions, id, p.(base := Look(before, p.ref)), j))
      && (a == ReadHead(id) && p.head.NotYet? ==> Traced(w, actions, id, p.(head := Look(before, p.headRef)), j))
      && (a.ReadForkHead? && a.id == id && p.head.NotYet? ==>
            Traced(w, actions, id, p.(head := if a.tip.Some? then At(a.tip.value) else Missing), j))
  {
    hide Run;
    var n := |actions| - 1;
    var a, before := actions[n], Run(w, actions[..n]);
    assert a == ReadBase(id) ==> StoodAt(w, actions, n, p.ref, Look(before, p.ref));
    assert a == ReadHead(id) ==> ReadsHead(w, actions, n, id, p.headRef, Look(before, p.headRef));
    assert a.ReadForkHead? && a.id == id ==>
      ReadsHead(w, actions, n, id, p.headRef, if a.tip.Some? then At(a.tip.value) else Missing);
  }

  lemma {:induction false} RunValid(w: World, actions: seq<Action>)
    requires Valid(w)
    ensures Valid(Run(w, actions))
  {
    hide Step, Valid;
    if actions != [] {
      RunValid(w, actions[..|actions| - 1]);
      StepValid(Run(w, actions[..|actions| - 1]), actions[|actions| - 1]);
    }
  }

  // A merge that goes through joins tips at which both branches stood while it was under way.
  lemma {:induction false} MergesBranchTips(w: World, actions: seq<Action>, id: nat, request: MergeRequest, report: Option<seq<string>>)
    returns (j: int)
    requires Valid(w) && id !in w.pending
    requires Step(Run(w, actions), PushMerge(id, request, report)).refs != Run(w, actions).refs
    ensures var t := Run(w, actions);
      && id in t.pending && Merges(t, Step(t, PushMerge(id, request, report)), t.pending[id], request)
      && Traced(w, actions, id, t.pending[id], j)
  {
    hide Step, Run, Traced, Valid;
    RunValid(w, actions);
    MergeInstalls(Run(w, actions), id, request, report);
    j := TipsWereThere(w, actions, id);
  }

  // ---- wiki saves -------------------------------------------------------------------

  // A wiki save that goes through moves only its ref. The new tip's parent is the tip it replaced
  // (none for a first page), and its tree is that tip's files, if they were read, with the changes
  // applied.
  lemma {:induction false} WikiInstalls(w: World, id: nat, sha: Sha, save: Save, expected: Sha)
    requires Valid(w) && Step(w, PushWiki(id, sha, save, expected)).refs != w.refs
    ensures id in w.pending && w.pending[id].WikiRead?
    ensures var ref, w' := w.pending[id].ref, Step(w, PushWiki(id, sha, save, expected));
      && OnlyRefMoved(w, w', ref) && w'.refs[ref] == sha && sha in w'.commits
      && w'.commits[sha] == WikiCommit(LookTip(w, ref), Saved(FilesOf(w, LookTip(w, ref)), save))
  {
    var p := w.pending[id];
    var entries := Saved(FilesOf(w, p.tip), save);
    ValidTip(w, p);
    hide Saved, FilesOf, PushCommit, Valid, WikiCommit;
    PushCommitInstalls(w, p.ref, p.tip.UnwrapOr(ZERO_SHA), sha, WikiCommit(p.tip, entries));
  }

  lemma ValidTip(w: World, p: Pending)
    requires Valid(w) && p.WikiRead? && ValidPending(w.commits, p)
    ensures p.tip != Some(ZERO_SHA) && LookTip(w, p.ref) != Some(ZERO_SHA)
  {}

  // A wiki save goes through exactly if the ref still has the tip that was read, the editor expected
  // that one (or there was none yet), some file remains, and the commit can be added.
  lemma {:induction false} WikiGoesThroughIff(w: World, id: nat, sha: Sha, save: Save, expected: Sha)
    requires Valid(w) && id in w.pending && w.pending[id].WikiRead?
    ensures var p, w' := w.pending[id], Step(w, PushWiki(id, sha, save, expected));
      var files := Saved(FilesOf(w, p.tip), save);
      && id !in w'.pending
      && (w'.refs != w.refs <==>
            && LookTip(w, p.ref) == p.tip && (expected == "" || p.tip.None? || p.tip == Some(expected))
            && files != map[] && CanAdd(w.commits, sha, WikiCommit(p.tip, files)))
  {
    var p := w.pending[id];
    ValidTip(w, p);
    WikiPushMoves(w, p.ref, p.tip, sha, Saved(FilesOf(w, p.tip), save));
    hide Saved, FilesOf, Valid, CanAdd, PushCommit, LookTip, WikiCommit;
  }

  lemma WikiPushMoves(w: World, ref: string, tip: Option<Sha>, sha: Sha, entries: Entries)
    requires tip != Some(ZERO_SHA) && LookTip(w, ref) != Some(ZERO_SHA)
    ensures PushCommit(w, ref, tip.UnwrapOr(ZERO_SHA), sha, WikiCommit(tip, entries)).refs != w.refs <==>
      LookTip(w, ref) == tip && CanAdd(w.commits, sha, WikiCommit(tip, entries))
  {
    hide IsSha;
    RefMoves(w.refs, ref, sha);
  }

  // An edit touches only the files it names exactly when it names all entries but plain files:
  // sub-directories and links do not survive a save.
  lemma OnlyNamedFilesChange(entries: Entries, changes: Changes)
    ensures (forall name | name !in changes :: name in Edited(BlobsOf(entries), changes) <==> name in entries) <==>
            (forall name | name in entries && name !in changes :: entries[name].kind == Blob)
    ensures forall name | name !in changes && name in Edited(BlobsOf(entries), changes) ::
      name in entries && Edited(BlobsOf(entries), changes)[name] == entries[name]
    ensures forall name | name in changes ::
      if changes[name].Some?
      then name in Edited(BlobsOf(entries), changes) && Edited(BlobsOf(entries), changes)[name] == Entry(name, Blob, "100644", changes[name].value)
      else name !in Edited(BlobsOf(entries), changes)
  {
    var edited := Edited(BlobsOf(entries), changes);
    assert forall name | name in entries && name !in changes :: name in edited <==> entries[name].kind == Blob;
  }

  // Without the tip's tree a save keeps exactly the files it writes: every other file is lost.
  lemma UnreadTreeIsDropped(files: Entries, changes: Changes)
    ensures Saved(files, Save(changes, false)) == Saved(files, Save(changes, true)) <==> files.Keys <= changes.Keys
  {
    var kept, lost := Saved(files, Save(changes, true)), Saved(files, Save(changes, false));
    if name :| name in files && name !in changes {
      assert name in kept && name !in lost;
    } else {
      assert files.Keys + changes.Keys == changes.Keys;
    }
  }

  // ---- a wiki over a whole run ------------------------------------------------------

  // Nobody but wiki saves pushes to the ref.
  ghost predicate OnlySaves(w: World, a: Action, ref: string) {
    && (a.OtherPush? ==> a.ref != ref)
    && (a.PushMerge? && Reading(w, a.id) ==> w.pending[a.id].ref != ref)
  }

  ghost predicate SavesOnly(w: World, actions: seq<Action>, ref: string) {
    forall i | 0 <= i < |actions| :: OnlySaves(Run(w, actions[..i]), actions[i], ref)
  }

  // The save that a step makes, if it makes one.
  ghost function AcceptedBy(w: World, a: Action, ref: string): seq<Save> {
    if a.PushWiki? && a.id in w.pending && w.pending[a.id].ref == ref && Step(w, a).refs != w.refs then [a.save] else []
  }

  ghost function Accepted(w: World, actions: seq<Action>, ref: string): seq<Save> {
    if actions == [] then []
    else
      var front := actions[..|actions| - 1];
      Accepted(w, front, ref) + AcceptedBy(Run(w, front), actions[|actions| - 1], ref)
  }

  function SaveAll(files: Entries, saves: seq<Save>): Entries {
    if saves == [] then files else Saved(SaveAll(files, saves[..|saves| - 1]), saves[|saves| - 1])
  }

  function Files(w: World, ref: string): Entries { FilesOf(w, LookTip(w, ref)) }

  // However the steps interleave: the files of a wiki are those it began with, with the accepted
  // saves applied one after the other in the order in which they were accepted.
  lemma {:induction false} SavesCompose(w: World, actions: seq<Action>, ref: string)
    requires Valid(w) && SavesOnly(w, actions, ref)
    ensures Valid(Run(w, actions)) && Files(Run(w, actions), ref) == SaveAll(Files(w, ref), Accepted(w, actions, ref))
  {
    hide Step, OnlySaves, Valid, Files, Saved, AcceptedBy;
    if actions != [] {
      var front, last := actions[..|actions| - 1], actions[|actions| - 1];
      forall i | 0 <= i < |front| ensures OnlySaves(Run(w, front[..i]), front[i], ref) {
        assert front[..i] == actions[..i];
        assert OnlySaves(Run(w, actions[..i]), actions[i], ref);
      }
      SavesCompose(w, front, ref);
      assert OnlySaves(Run(w, actions[..|actions| - 1]), actions[|actions| - 1], ref);
      StepValid(Run(w, front), last);
      StepSaves(Run(w, front), last, ref);
      SaveAllMore(Files(w, ref), Accepted(w, front, ref), AcceptedBy(Run(w, front), last, ref));
    }
  }

  lemma SaveAllMore(files: Entries, saves: seq<Save>, more: seq<Save>)
    requires |more| <= 1
    ensures SaveAll(files, saves + more) == if more == [] then SaveAll(files, saves) else Saved(SaveAll(files, saves), more[0])
  {
    if more == [] {
      assert saves + more == saves;
    } else {
      assert (saves + more)[..|saves|] == saves;
    }
  }

  lemma {:induction false} StepSaves(w: World, a: Action, ref: string)
    requires Valid(w) && OnlySaves(w, a, ref)
    ensures |AcceptedBy(w, a, ref)| <= 1
    ensures Files(Step(w, a), ref) ==
      if AcceptedBy(w, a, ref) == [] then Files(w, ref) else Saved(Files(w, ref), AcceptedBy(w, a, ref)[0])
  {
    hide Step, Saved, Valid, OnlySaves, FilesOf;
    if AcceptedBy(w, a, ref) == [] {
      StepValid(w, a);
      RefUntouched(w, a, ref);
      FilesKept(w, Step(w, a), ref);
    } else {
      WikiInstalls(w, a.id, a.sha, a.save, a.expected);
      FilesSaved(w, Step(w, a), ref, a.save);
    }
  }

  lemma FilesKept(w: World, w': World, ref: string)
    requires Valid(w) && Grown(w, w') && LookTip(w', ref) == LookTip(w, ref)
    ensures Files(w', ref) == Files(w, ref)
  {
    hide BlobsOf, ValidCommits, ValidPending;
  }

  lemma FilesSaved(w: World, w': World, ref: string, save: Save)
    requires ref in w'.refs && w'.refs[ref] in w'.commits
    requires w'.commits[w'.refs[ref]].entries == Saved(Files(w, ref), save)
    ensures Files(w', ref) == Saved(Files(w, ref), save)
  {
    var files := Files(w, ref);
    assert forall name | name in files :: files[name].kind == Blob;
    var saved := Saved(files, save);
    hide FilesOf, LookTip;
    assert forall name | name in saved :: saved[name].kind == Blob;
    assert BlobsOf(saved) == saved;
    assert Files(w', ref) == BlobsOf(saved) by { FilesAtTip(w', ref); }
  }

  lemma FilesAtTip(w: World, ref: string)
    requires ref in w.refs && w.refs[ref] in w.commits
    ensures Files(w, ref) == BlobsOf(w.commits[w.refs[ref]].entries)
  {}

  lemma {:induction false} RefUntouched(w: World, a: Action, ref: string)
    requires Valid(w) && OnlySaves(w, a, ref) && AcceptedBy(w, a, ref) == []
    ensures LookTip(Step(w, a), ref) == LookTip(w, ref)
  {
    hide Valid;
    if a.PushMerge? {
      MergeElsewhere(w, a, ref);
    } else if a.PushWiki? {
      hide Step;
      if Step(w, a).refs != w.refs { WikiInstalls(w, a.id, a.sha, a.save, a.expected); }
    } else if a.OtherPush? {
    } else {
      RefsKept(w, a);
      hide Step;
    }
  }

  lemma MergeElsewhere(w: World, a: Action, ref: string)
    requires a.PushMerge? && OnlySaves(w, a, ref)
    ensures LookTip(Step(w, a), ref) == LookTip(w, ref)
  {
    hide LogsRead, Answers, Recorded, CanAdd, MergeableIn;
  }

  // ---- operations that nothing disturbs ---------------------------------------------

  // The head's branch is read in the repository or in a fork.
  ghost predicate ReadsHeadOf(a: Action, id: nat) {
    a == ReadHead(id) || (a.ReadForkHead? && a.id == id && ForkTip(a.tip))
  }

  ghost function BothTips(w: World, ref: string, headRef: string, look: Action): Pending
    requires look.ReadHead? || look.ReadForkHead?
  {
    MergeRead(ref, headRef, if ref in w.refs then At(w.refs[ref]) else Missing,
              if look.ReadForkHead? then (if look.tip.Some? then At(look.tip.value) else Missing)
              else if headRef in w.refs then At(w.refs[headRef]) else Missing)
  }

  lemma StartsAndReads(w: World, id: nat, ref: string, headRef: string, look: Action)
    requires id !in w.pending && ReadsHeadOf(look, id)
    ensures Step(Step(Step(w, StartMerge(id, ref, headRef)), ReadBase(id)), look) == SetPending(w, id, BothTips(w, ref, headRef, look))
  {
    var none, base := MergeRead(ref, headRef, NotYet, NotYet), MergeRead(ref, headRef, Look(w, ref), NotYet);
    assert Step(w, StartMerge(id, ref, headRef)) == SetPending(w, id, none);
    SetTwice(w, id, none, base);
    assert Step(SetPending(w, id, none), ReadBase(id)) == SetPending(w, id, base);
    SetTwice(w, id, base, BothTips(w, ref, headRef, look));
    hide IsSha;
  }

  lemma SetTwice(w: World, id: nat, p: Pending, q: Pending)
    ensures SetPending(SetPending(w, id, p), id, q) == SetPending(w, id, q)
  {
    assert w.pending[id := p][id := q] == w.pending[id := q];
  }

  // Left alone, a merge goes from its start to its push, and through exactly if it can.
  lemma {:induction false} MergeAlone(w: World, id: nat, ref: string, headRef: string, look: Action, request: MergeRequest,
                                      report: Option<seq<string>>)
    requires Valid(w) && id !in w.pending && ReadsHeadOf(look, id)
    requires var p := BothTips(w, ref, headRef, look); LogsRead(w, p, request) && Answers(w, Sends(w, p, request), report)
    ensures var t := Run(w, [StartMerge(id, ref, headRef), ReadBase(id), look, PushMerge(id, request, report)]);
      var p := BothTips(w, ref, headRef, look);
      && id !in t.pending && (t.refs != w.refs <==> CanMerge(w, p, request))
      && (t.refs != w.refs ==> ref in t.refs && t.refs[ref] == if MovesPointer(p, request) then p.head.sha else request.sha)
  {
    var p := BothTips(w, ref, headRef, look);
    var w3 := SetPending(w, id, p);
    RunFour(w, StartMerge(id, ref, headRef), ReadBase(id), look, PushMerge(id, request, report));
    StartsAndReads(w, id, ref, headRef, look);
    SetPendingValid(w, id, p) by { TipsValid(w, ref, headRef, look); }
    SameDecision(w, id, p, request, report);
    hide Step, Valid, LogsRead, Answers, Sends, CanMerge, MovesPointer, BothTips;
    MergeGoesThroughIff(w3, id, request, report);
  }

  lemma TipsValid(w: World, ref: string, headRef: string, look: Action)
    requires Valid(w) && (look.ReadHead? || (look.ReadForkHead? && ForkTip(look.tip)))
    ensures ValidPending(w.commits, BothTips(w, ref, headRef, look))
  {
    hide IsSha;
  }

  // What is decided, sent and done does not depend on what is in progress.
  lemma SameDecision(w: World, id: nat, p: Pending, request: MergeRequest, report: Option<seq<string>>)
    requires BothRead(p)
    ensures var w' := SetPending(w, id, p);
      && (LogsRead(w', p, request) <==> LogsRead(w, p, request)) && Sends(w', p, request) == Sends(w, p, request)
      && (Answers(w', Sends(w, p, request), report) <==> Answers(w, Sends(w, p, request), report))
      && (CanMerge(w', p, request) <==> CanMerge(w, p, request))
  {
    hide IsLog, CanAdd, MergeableIn, Confirms, Extends;
  }

  lemma RunFour(w: World, a: Action, b: Action, c: Action, d: Action)
    ensures Run(w, [a, b, c, d]) == Step(Step(Step(Step(w, a), b), c), d)
  {
    hide Step;
    RunTwo(w, a, b);
    var four, three := [a, b, c, d], [a, b, c];
    assert four[..|four| - 1] == three && three[..|three| - 1] == [a, b];
    assert Run(w, three) == Step(Run(w, [a, b]), c);
  }

  lemma RunTwo(w: World, a: Action, b: Action)
    ensures Run(w, [a, b]) == Step(Step(w, a), b)
  {
    hide Step;
    var two, one := [a, b], [a];
    assert two[..|two| - 1] == one && one[..|one| - 1] == [];
    assert Run(w, one) == Step(Run(w, []), a);
  }

  // Left alone, a save goes through exactly if the editor expected the tip that is there, or there
  // is none, some file remains and the commit can be added.
  lemma {:induction false} SaveAlone(w: World, id: nat, ref: string, sha: Sha, save: Save, expected: Sha)
    requires Valid(w) && id !in w.pending
    ensures var t := Run(w, [ReadTip(id, ref), PushWiki(id, sha, save, expected)]);
      var files := Saved(Files(w, ref), save);
      && id !in t.pending
      && (t.refs != w.refs <==>
            && (expected == "" || ref !in w.refs || w.refs[ref] == expected)
            && files != map[] && CanAdd(w.commits, sha, WikiCommit(LookTip(w, ref), files)))
  {
    RunTwo(w, ReadTip(id, ref), PushWiki(id, sha, save, expected));
    var p := WikiRead(ref, LookTip(w, ref));
    var w1 := SetPending(w, id, p);
    assert Step(w, ReadTip(id, ref)) == w1;
    assert ValidPending(w.commits, p);
    SetPendingValid(w, id, p);
    assert Files(w1, ref) == Files(w, ref) && LookTip(w1, ref) == LookTip(w, ref);
    hide Step, Valid, Saved, FilesOf, CanAdd, WikiCommit;
    WikiGoesThroughIff(w1, id, sha, save, expected);
  }

  // Other writers add the commits that can be added, and move the refs whose place they know.
  lemma OthersWrite(w: World, sha: Sha, commit: CommitObject, ref: string, oldSha: Sha)
    ensures CanAdd(w.commits, sha, commit) ==> Step(w, OtherCommit(sha, commit)).commits == w.commits[sha := commit]
    ensures sha in w.commits && (ref in w.refs ==> w.refs[ref] == oldSha) && (ref !in w.refs ==> oldSha == ZERO_SHA) ==>
      Step(w, OtherPush(ref, oldSha, sha)).refs == w.refs[ref := sha]
  {
    hide CanAdd;
  }

  // ---- the edit itself --------------------------------------------------------------

  function MapOf<T>(pairs: seq<(string, T)>): map<string, T> {
    if pairs == [] then map[] else MapOf(pairs[..|pairs| - 1])[pairs[|pairs| - 1].0 := pairs[|pairs| - 1].1]
  }

  // A tree's entries by name, and its blobs alone.
  function ByName(level: seq<Entry>): Entries {
    if level == [] then map[] else ByName(level[..|level| - 1])[level[|level| - 1].name := level[|level| - 1]]
  }

  function BlobsIn(level: seq<Entry>): Entries {
    if level == [] then map[]
    else
      var before, last := BlobsIn(level[..|level| - 1]), level[|level| - 1];
      if last.kind == Blob then before[last.name := last] else before
  }

  ghost predicate DistinctNames(level: seq<Entry>) {
    forall i, j | 0 <= i < j < |level| :: level[i].name != level[j].name
  }

  lemma {:induction false} NamedIn(level: seq<Entry>)
    ensures forall name | name in ByName(level) :: exists i | 0 <= i < |level| :: level[i].name == name
  {
    if level != [] { NamedIn(level[..|level| - 1]); }
  }

  lemma {:induction false} BlobsByName(level: seq<Entry>)
    requires DistinctNames(level)
    ensures BlobsIn(level) == BlobsOf(ByName(level))
  {
    if level != [] {
      var front, last := level[..|level| - 1], level[|level| - 1];
      BlobsByName(front);
      NamedIn(front);
      assert last.name !in ByName(front);
    }
  }

  lemma NothingChanged(entries: Entries)
    ensures Edited(entries, MapOf([])) == entries
  {}

  lemma {:induction false} EditStep(blobs: Entries, changes: seq<(string, Option<Sha>)>, i: nat)
    requires i < |changes|
    ensures var before, (name, content) := Edited(blobs, MapOf(changes[..i])), changes[i];
      Edited(blobs, MapOf(changes[..i + 1])) ==
        if content.None? then before - {name} else before[name := Entry(name, Blob, "100644", content.value)]
  {
    assert changes[..i + 1][..i] == changes[..i];
  }

  // The file map of a wiki save: the blobs of the tip's tree, if it was read, then each change in
  // turn.
  method EditEntries(level: Option<seq<Entry>>, changes: seq<(string, Option<Sha>)>) returns (entries: Entries)
    ensures entries == Edited(BlobsIn(level.UnwrapOr([])), MapOf(changes))
    ensures DistinctNames(level.UnwrapOr([])) ==>
      entries == Saved(BlobsOf(ByName(level.UnwrapOr([]))), Save(MapOf(changes), level.Some?))
  {
    var read := level.UnwrapOr([]);
    if DistinctNames(read) { BlobsByName(read); }
    hide Edited, BlobsOf, MapOf, DistinctNames;
    entries := map[];
    for i := 0 to |read|
      invariant entries == BlobsIn(read[..i])
    {
      assert read[..i + 1][..i] == read[..i];
      if read[i].kind == Blob { entries := entries[read[i].name := read[i]]; }
    }
    assert read[..|read|] == read;
    ghost var blobs := entries;
    NothingChanged(blobs);
    for i := 0 to |changes|
      invariant entries == Edited(blobs, MapOf(changes[..i]))
    {
      var (filename, content) := changes[i];
      EditStep(blobs, changes, i);
      if content.None? {
        entries := entries - {filename};
      } else {
        entries := entries[filename := Entry(filename, Blob, "100644", content.value)];
      }
    }
    assert changes[..|changes|] == changes;
  }
}
