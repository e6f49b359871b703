// buildDiff (src/server/connect/services/pull.ts): which files a comparison of two commits shows, and
// isProbablyBinary (src/server/git/content.ts).
module TreeDiff {
  import opened Bytes
  import opened GitTypes
  import opened Wrappers
  import opened Sorting
  import opened Trees
  import Hunks
  import Myers
  import UnifiedDiff

  const MAX_DIFF_FILES := 300

  const SNIFFED_BYTES := 8000

  // A blob's bytes and the text they decode to.
  datatype Content = Content(bytes: Bytes, text: string)

  // What stands for a file that is not there, or cannot be read.
  const NOTHING := Content([], "")

  // What a repository's blobs hold; one that cannot be read is missing.
  type Blobs = map<Sha, Content>

  datatype Status = Added | Deleted | Modified

  datatype Shown = BinaryFile | TooLarge | Lines(diff: Hunks.FileDiff)

  datatype ChangedFile = ChangedFile(path: string, status: Status, oldSha: Option<Sha>, newSha: Option<Sha>, shown: Shown)

  // ---- what is to be shown ----------------------------------------------------------

  predicate Wanted(filter: string, path: string) { filter == "" || path == filter }

  predicate Changed(base: map<string, Sha>, head: map<string, Sha>, path: string) { Get(base, path) != Get(head, path) }

  predicate Shows(base: map<string, Sha>, head: map<string, Sha>, filter: string, path: string) {
    Wanted(filter, path) && Changed(base, head, path)
  }

  predicate Listed(files: seq<ChangedFile>, path: string) {
    exists i | 0 <= i < |files| :: files[i].path == path
  }

  // The file entry is right about what happened to its path.
  predicate Describes(f: ChangedFile, base: map<string, Sha>, head: map<string, Sha>) {
    && f.oldSha == Get(base, f.path) && f.newSha == Get(head, f.path)
    && (f.status.Added? <==> f.path !in base)
    && (f.status.Deleted? <==> f.path !in head)
  }

  // The first changed paths in order, all of them unless there are more than fit.
  ghost predicate ListsChanges(files: seq<ChangedFile>, truncated: bool, base: map<string, Sha>, head: map<string, Sha>, filter: string) {
    && |files| <= MAX_DIFF_FILES
    && (forall i | 0 <= i < |files| :: Shows(base, head, filter, files[i].path) && Describes(files[i], base, head))
    && (forall i, j | 0 <= i < j < |files| :: StringLess(files[i].path, files[j].path))
    && (forall path, i | Shows(base, head, filter, path) && !Listed(files, path) && 0 <= i < |files| :: StringLess(files[i].path, path))
    && (truncated ==> |files| == MAX_DIFF_FILES)
    && (truncated <==> exists path :: Shows(base, head, filter, path) && !Listed(files, path))
  }

  ghost predicate LooksBinary(bytes: Bytes) {
    exists i | 0 <= i < |bytes| :: i < SNIFFED_BYTES && bytes[i] == 0
  }

  // A text file shows the fewest changes from its old lines to its new ones, each with as many lines
  // around it as asked for; a binary file and one with too many lines show none.
  ghost predicate ShowsPatch(shown: Shown, before: Content, after: Content, contextLines: int) {
    var a, b := UnifiedDiff.SplitLines(before.text), UnifiedDiff.SplitLines(after.text);
    var binary := LooksBinary(before.bytes) || LooksBinary(after.bytes);
    match shown
    case BinaryFile => binary
    case TooLarge => !binary && |a| + |b| > Myers.MAX_TOTAL_LINES
    case Lines(d) =>
      && !binary && |a| + |b| <= Myers.MAX_TOTAL_LINES
      && UnifiedDiff.IsSound(d, a, b, contextLines)
      && exists edits, ranges :: UnifiedDiff.IsDiff(d, edits, ranges, a, b, contextLines)
  }

  // Every file shows its change from what its path leads to on one side to what it leads to on the
  // other.
  ghost predicate AllShowPatches(files: seq<ChangedFile>, base: map<string, Sha>, head: map<string, Sha>,
                                 baseBlobs: Blobs, headBlobs: Blobs, contextLines: int) {
    forall i | 0 <= i < |files| ::
      var path := files[i].path;
      ShowsPatch(files[i].shown,
                 if path in base && base[path] in baseBlobs then baseBlobs[base[path]] else NOTHING,
                 if path in head && head[path] in headBlobs then headBlobs[head[path]] else NOTHING,
                 contextLines)
  }

  function Additions(files: seq<ChangedFile>): nat {
    if files == [] then 0
    else
      var last := files[|files| - 1].shown;
      Additions(files[..|files| - 1]) + if last.Lines? then last.diff.additions else 0
  }

  function Deletions(files: seq<ChangedFile>): nat {
    if files == [] then 0
    else
      var last := files[|files| - 1].shown;
      Deletions(files[..|files| - 1]) + if last.Lines? then last.diff.deletions else 0
  }

  // ---- the paths in order -----------------------------------------------------------

  ghost predicate Ascending(xs: seq<string>) {
    forall i, j | 0 <= i < j < |xs| :: StringLess(xs[i], xs[j])
  }

  // The paths of both maps, each once and in order.
  ghost predicate PathsInOrder(xs: seq<string>, base: map<string, Sha>, head: map<string, Sha>) {
    Ascending(xs) && forall path :: path in xs <==> path in base.Keys + head.Keys
  }

  method SortedPaths(base: map<string, Sha>, head: map<string, Sha>) returns (xs: seq<string>)
    ensures PathsInOrder(xs, base, head)
  {
    hide StringLess, Sort, StrictOrder;
    var members := Members(base.Keys + head.Keys);
    StringOrder();
    forall a, b | a in members && b in members && a != b ensures StringLess(a, b) || StringLess(b, a) {
      StringTrichotomy(a, b);
    }
    SortDistinct(members, StringLess);
    xs := Sort(members, StringLess);
  }

  // ---- buildDiff --------------------------------------------------------------------

  method IsProbablyBinary(bytes: Bytes) returns (binary: bool)
    ensures binary <==> LooksBinary(bytes)
  {
    var window := if |bytes| < SNIFFED_BYTES then |bytes| else SNIFFED_BYTES;
    for i := 0 to window
      invariant forall k | 0 <= k < i :: bytes[k] != 0
    {
      if bytes[i] == 0 { return true; }
    }
    return false;
  }

  // The diff of one file's two contents, where it has them.
  method ShowFile(before: Option<Content>, after: Option<Content>, contextLines: int) returns (shown: Shown)
    ensures ShowsPatch(shown, before.UnwrapOr(NOTHING), after.UnwrapOr(NOTHING), contextLines)
  {
    hide LooksBinary, UnifiedDiff.IsSound, UnifiedDiff.IsDiff, UnifiedDiff.SplitLines;
    NothingIsText();
    var oldBinary, newBinary := false, false;
    if before.Some? { oldBinary := IsProbablyBinary(before.value.bytes); }
    if after.Some? { newBinary := IsProbablyBinary(after.value.bytes); }
    if oldBinary || newBinary { return BinaryFile; }
    var result, edits, ranges :=
      UnifiedDiff.DiffText(if before.Some? then before.value.text else "", if after.Some? then after.value.text else "", contextLines);
    match result
    case Err(_) => shown := TooLarge;
    case Ok(diff) => shown := Lines(diff);
  }

  lemma NothingIsText()
    ensures !LooksBinary(NOTHING.bytes)
  {}

  // Where the selection stands after the paths before i.
  ghost predicate Selected(files: seq<ChangedFile>, xs: seq<string>, i: int, base: map<string, Sha>, head: map<string, Sha>, filter: string) {
    && 0 <= i <= |xs| && |files| <= MAX_DIFF_FILES
    && (forall k | 0 <= k < |files| :: Shows(base, head, filter, files[k].path) && Describes(files[k], base, head))
    && (forall k | 0 <= k < |files| :: files[k].path in xs[..i])
    && (forall j, k | 0 <= j < k < |files| :: StringLess(files[j].path, files[k].path))
    && forall k | 0 <= k < i && Shows(base, head, filter, xs[k]) :: Listed(files, xs[k])
  }

  lemma {:induction false} Skip(files: seq<ChangedFile>, xs: seq<string>, i: int, base: map<string, Sha>, head: map<string, Sha>, filter: string)
    requires Selected(files, xs, i, base, head, filter) && i < |xs| && !Shows(base, head, filter, xs[i])
    ensures Selected(files, xs, i + 1, base, head, filter)
  {
    assert xs[..i + 1] == xs[..i] + [xs[i]];
  }

  lemma {:induction false} Take(files: seq<ChangedFile>, f: ChangedFile, xs: seq<string>, i: int,
                                base: map<string, Sha>, head: map<string, Sha>, filter: string)
    requires Selected(files, xs, i, base, head, filter) && PathsInOrder(xs, base, head) && i < |xs| && |files| < MAX_DIFF_FILES
    requires f.path == xs[i] && Shows(base, head, filter, xs[i]) && Describes(f, base, head)
    ensures Selected(files + [f], xs, i + 1, base, head, filter)
  {
    hide StringLess, Shows, Describes;
    var next := files + [f];
    assert xs[..i + 1] == xs[..i] + [xs[i]];
    forall k | 0 <= k < |files| ensures StringLess(next[k].path, xs[i]) {
      var m :| 0 <= m < i && xs[m] == files[k].path;
    }
    assert next[|files|].path == xs[i];
    forall k | 0 <= k < i + 1 && Shows(base, head, filter, xs[k]) ensures Listed(next, xs[k]) {
      if k < i {
        var m :| 0 <= m < |files| && files[m].path == xs[k];
        assert next[m].path == xs[k];
      }
    }
  }

  // Stopping at i, with everything listed or with no room left.
  lemma {:induction false} Stop(files: seq<ChangedFile>, truncated: bool, xs: seq<string>, i: int,
                                base: map<string, Sha>, head: map<string, Sha>, filter: string)
    requires Selected(files, xs, i, base, head, filter) && PathsInOrder(xs, base, head)
    requires if truncated then i < |xs| && Shows(base, head, filter, xs[i]) && |files| == MAX_DIFF_FILES else i == |xs|
    ensures ListsChanges(files, truncated, base, head, filter)
  {
    hide StringLess, Describes;
    forall path, k | Shows(base, head, filter, path) && !Listed(files, path) && 0 <= k < |files|
      ensures StringLess(files[k].path, path)
    {
      assert path in base.Keys + head.Keys;
      var m :| 0 <= m < |xs| && xs[m] == path;
      var n :| 0 <= n < i && xs[n] == files[k].path;
      assert m >= i;
    }
    if truncated {
      forall k | 0 <= k < |files| ensures files[k].path != xs[i] {
        var n :| 0 <= n < i && xs[n] == files[k].path;
        StringTrichotomy(xs[n], xs[i]);
      }
      assert !Listed(files, xs[i]);
    } else {
      forall path | Shows(base, head, filter, path) ensures Listed(files, path) {
        assert path in base.Keys + head.Keys;
        var m :| 0 <= m < |xs| && xs[m] == path;
      }
    }
  }

  // The content a path leads to, if there is one that can be read.
  function Read(paths: map<string, Sha>, blobs: Blobs, path: string): Option<Content> {
    var sha := Get(paths, path);
    if sha.Some? && sha.value in blobs then Some(blobs[sha.value]) else None
  }

  // The entry of one changed path.
  method ShowPath(base: map<string, Sha>, head: map<string, Sha>, baseBlobs: Blobs, headBlobs: Blobs, path: string,
                  contextLines: int)
    returns (file: ChangedFile)
    requires Changed(base, head, path)
    ensures file.path == path && Describes(file, base, head)
    ensures AllShowPatches([file], base, head, baseBlobs, headBlobs, contextLines)
  {
    hide ShowsPatch;
    var oldSha, newSha := Get(base, path), Get(head, path);
    var status := if oldSha.None? then Added else if newSha.None? then Deleted else Modified;
    var shown := ShowFile(Read(base, baseBlobs, path), Read(head, headBlobs, path), contextLines);
    file := ChangedFile(path, status, oldSha, newSha, shown);
  }

  // The changed files between two path maps.
  method SelectFiles(base: map<string, Sha>, head: map<string, Sha>, baseBlobs: Blobs, headBlobs: Blobs, filter: string,
                     contextLines: int)
    returns (files: seq<ChangedFile>, totalAdditions: nat, totalDeletions: nat, truncated: bool)
    ensures ListsChanges(files, truncated, base, head, filter) && AllShowPatches(files, base, head, baseBlobs, headBlobs, contextLines)
    ensures totalAdditions == Additions(files) && totalDeletions == Deletions(files)
  {
    NothingSelected(base, head, baseBlobs, headBlobs, filter, contextLines);
    hide *;
    var xs := SortedPaths(base, head);
    files, totalAdditions, totalDeletions, truncated := [], 0, 0, false;
    for i := 0 to |xs|
      invariant Selected(files, xs, i, base, head, filter) && AllShowPatches(files, base, head, baseBlobs, headBlobs, contextLines)
      invariant totalAdditions == Additions(files) && totalDeletions == Deletions(files)
    {
      var path := xs[i];
      ShowsIff(base, head, filter, path);
      if filter != "" && path != filter { Skip(files, xs, i, base, head, filter); continue; }
      var oldSha, newSha := Get(base, path), Get(head, path);
      if oldSha == newSha { Skip(files, xs, i, base, head, filter); continue; }
      SelectedFits(files, xs, i, base, head, filter);
      if |files| >= MAX_DIFF_FILES {
        Stop(files, true, xs, i, base, head, filter);
        return files, totalAdditions, totalDeletions, true;
      }
      var file := ShowPath(base, head, baseBlobs, headBlobs, path, contextLines);
      Take(files, file, xs, i, base, head, filter);
      OneMore(files, file, base, head, baseBlobs, headBlobs, contextLines);
      if file.shown.Lines? {
        totalAdditions := totalAdditions + file.shown.diff.additions;
        totalDeletions := totalDeletions + file.shown.diff.deletions;
      }
      files := files + [file];
    }
    Stop(files, false, xs, |xs|, base, head, filter);
  }

  lemma NothingSelected(base: map<string, Sha>, head: map<string, Sha>, baseBlobs: Blobs, headBlobs: Blobs, filter: string,
                        contextLines: int)
    ensures forall xs :: Selected([], xs, 0, base, head, filter)
    ensures AllShowPatches([], base, head, baseBlobs, headBlobs, contextLines) && Additions([]) == 0 == Deletions([])
  {}

  lemma ShowsIff(base: map<string, Sha>, head: map<string, Sha>, filter: string, path: string)
    ensures Shows(base, head, filter, path) <==> !(filter != "" && path != filter) && Get(base, path) != Get(head, path)
    ensures Shows(base, head, filter, path) ==> Changed(base, head, path)
  {}

  lemma SelectedFits(files: seq<ChangedFile>, xs: seq<string>, i: int, base: map<string, Sha>, head: map<string, Sha>, filter: string)
    requires Selected(files, xs, i, base, head, filter)
    ensures |files| <= MAX_DIFF_FILES
  {}

  lemma OneMore(files: seq<ChangedFile>, f: ChangedFile, base: map<string, Sha>, head: map<string, Sha>,
                baseBlobs: Blobs, headBlobs: Blobs, contextLines: int)
    requires AllShowPatches(files, base, head, baseBlobs, headBlobs, contextLines)
    requires AllShowPatches([f], base, head, baseBlobs, headBlobs, contextLines)
    ensures AllShowPatches(files + [f], base, head, baseBlobs, headBlobs, contextLines)
    ensures Additions(files + [f]) == Additions(files) + if f.shown.Lines? then f.shown.diff.additions else 0
    ensures Deletions(files + [f]) == Deletions(files) + if f.shown.Lines? then f.shown.diff.deletions else 0
  {
    hide ShowsPatch;
    var next := files + [f];
    assert next[..|files|] == files && [f][0] == f;
    assert forall i | 0 <= i < |files| :: next[i] == files[i];
  }

  // The blob a path has in a commit; a missing commit has none.
  function BlobIn(store: Store, tree: Option<Sha>, path: string): Option<Sha> {
    if tree.None? then None else BlobAt(store, tree.value, path)
  }

  // Two commits compared: the changed files are those whose blobs the two trees really differ in.
  method BuildDiff(baseStore: Store, headStore: Store, baseTree: Option<Sha>, headTree: Option<Sha>,
                   baseBlobs: Blobs, headBlobs: Blobs, filter: string, contextLines: int, ghost rank: Sha -> nat)
    returns (files: seq<ChangedFile>, totalAdditions: nat, totalDeletions: nat, truncated: bool,
             ghost base: map<string, Sha>, ghost head: map<string, Sha>)
    requires Acyclic(baseStore, rank) && Acyclic(headStore, rank)
    ensures ProperTrees(baseStore) ==> forall path :: Get(base, path) == BlobIn(baseStore, baseTree, path)
    ensures ProperTrees(headStore) ==> forall path :: Get(head, path) == BlobIn(headStore, headTree, path)
    ensures ListsChanges(files, truncated, base, head, filter) && AllShowPatches(files, base, head, baseBlobs, headBlobs, contextLines)
    ensures totalAdditions == Additions(files) && totalDeletions == Deletions(files)
  {
    hide *;
    var before := FlattenTree(baseStore, baseTree, rank);
    var after := FlattenTree(headStore, headTree, rank);
    MapsAreTrees(baseStore, baseTree, before);
    MapsAreTrees(headStore, headTree, after);
    base, head := before, after;
    files, totalAdditions, totalDeletions, truncated := SelectFiles(before, after, baseBlobs, headBlobs, filter, contextLines);
  }

  lemma MapsAreTrees(store: Store, tree: Option<Sha>, out: map<string, Sha>)
    requires tree.None? ==> out == map[]
    requires tree.Some? && ProperTrees(store) ==> forall path :: Get(out, path) == BlobAt(store, tree.value, path)
    ensures ProperTrees(store) ==> forall path :: Get(out, path) == BlobIn(store, tree, path)
  {}
}
