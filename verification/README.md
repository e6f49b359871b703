# Verified models of the forge's core

Dafny models of the algorithms and protocols that the forge rests on, and proofs about them. Run
`dafny verify dfyconfig.toml` here to check everything.

The forge keeps git repositories on an external git server, shows diffs and pull requests, keeps a
wiki per repository and runs CI pipelines. The parts modelled:

* **Diff engine** (`EditGraph`, `EditScript`, `Myers`, `Hunks`, `UnifiedDiff`, `Decimal`). The greedy
  search over an Int32 frontier array, the backtracking over its recorded snapshots, trimming, hunk
  grouping and unified rendering. Main result: `Myers.DiffLines` and `UnifiedDiff.DiffText` produce a
  script with exactly n + m - 2·LCS changes, whose hunks hold exactly the lines within the context
  asked for, are a patch from the old lines to the new ones exactly if all of them are in place (with
  one line of context they are), and read back from their text. The LCS recurrence itself is proved
  to be the length of a longest common subsequence, and no script of any kind is shorter. The
  frontier may leave the grid; the model lets it, and proves that the first point past the far corner
  is the corner.
* **CI planner and runner** (`Planner`, `Waves`, `Runner`). The depth-first sort with its marks and
  trail, the layering into waves, and the wave executor, for any plan, also one that repeats names.
  Main result: `Runner.RunPlan` gives every step the result that running any topological order one
  step at a time gives it.
* **Merging and ref updates** (`CommitGraph`, `MergeBase`, `RefStore`). Merge base and mergeability
  over a commit graph read through bounded logs, across forks too; merges, wiki saves and other
  writers as interleaved steps against a git server that compares before it swaps. Main results:
  `RefStore.NothingIsLost`, `RefStore.RecordedMergesStay` and `RefStore.SavesCompose`.
* **CI logs and run records** (`LogSink`, `LogReader`, `LogPipeline`, `RunRecords`). Each call,
  callback or database statement is one step and steps interleave freely. Main results:
  `LogPipeline.ReadersGetAPrefix` and `LogPipeline.ReadersGetEverything`, from the build to the reader,
  over `LogSink.Conservation`, `LogSink.Drains` and `LogReader.GapFree`; and `RunRecords.ReplaySafe` and
  `RunRecords.AnswersIff`.
* **Git formats** (`GitTypes`, `Bytes`, `Unicode`, `Text`, `Sorting`, `PktLine`, `Objects`, `GitTree`,
  `Refs`, `ReceivePack`). Every writer has a reader beside it and a round trip through both: packet lines,
  object headers, packfiles, trees, ref advertisements and push requests.
* **Trees and change lists** (`Trees`, `TreeDiff`). The budgeted listing and the path map of a commit,
  both against the meaning of a path followed directory by directory, and the selection of changed
  files.
* **Storage names** (`Names`).

Methods keep the loops, arrays and fields of the code they model and are proved against functions and
predicates; protocols are functions from state and event to state, with invariants over whole runs.

## Assumptions

* Object ids are hashes: 40 hex digits; an id names one object; no tree contains itself
  (`Trees.Acyclic`) and no commit is its own parent (`RefStore.CanAdd`).
* A commit log is a prefix of some listing of the history that puts children before parents
  (`CommitGraph.IsLog`), and empty for a commit that the repository does not have
  (`MergeBase.IsLogIfKnown`).
* The git server confirms the updates it makes and never says "ok" of one it refused
  (`RefStore.Answers`); the report may be lost on the way.
* The log stream numbers and records calls in the order in which they leave. Of chained writes one is
  on its way at a time, the next leaves some time after that one is recorded, and a chain at rest
  sends its first write before anything else can call the stream (`LogSink.Chained`).
* The git server updates a ref only if it is where the push says it is (`RefStore.Push`); other
  writers may do as they like, except that results about losing nothing suppose they do not
  force-push.
* Deflate is a codec whose streams delimit themselves and SHA-1 gives 20 bytes
  (`Objects.SelfDelimiting`).
* Strings are well-formed Unicode, without lone surrogates; where the code compares, counts or slices
  UTF-16 code units, the models do (`Unicode`, `Sorting.StringLess`, `LogSink.Length`).
* A CI command's output is a function of the step (`Runner.Commands`), and random run ids are fresh
  (`RunRecords.FreshIds`).

## Where the code and its comments disagree

* A transport error in a command's stream does not always make the step fail: a later `complete`
  event overwrites its exit code (`Runner.GreenIffEndsCleanly`, `Runner.ErrorThenCompletionIsGreen`).
* The end-of-run marker follows all earlier output exactly when `finish` finds something buffered or
  no chained write whose call has yet to leave; with an empty buffer it does not wait, and overtakes
  those (`LogSink.MarkerIsLastIff`, `LogSink.MarkerOvertakes`).
* A refusal that names no reason counts as success (`ReceivePack.RefusedYetAcceptedIff`).
* An object header says the right size exactly below 2 GiB, since the shifts are on 32-bit numbers
  (`Objects.HeaderRoundTripIff`).
* The packet-line error speaks of 65516 bytes; the code admits 65531 (`PktLine.EncodePktLine`).
* The log stream means to keep the newest 5000 rows. Past that number it holds them exactly after an
  even number of rows; each odd one trims it to 4999 (`LogReader.RowsStored`).
* The walk that calls itself depth-first is breadth-first. The two orders agree exactly where only the
  last entry of a directory ever has something below it (`Trees.DepthFirstIff`, `Trees.NotDepthFirst`).
* A wiki save drops sub-directories and links of the tree it edits (`RefStore.OnlyNamedFilesChange`),
  and every file it does not write if that tree cannot be read (`RefStore.UnreadTreeIsDropped`).
* A merge whose base branch is missing is not refused but sent, with an empty old id and an empty
  parent; the server moves nothing for it (`RefStore.ProperIff`, `RefStore.MissingBaseIsSent`).
* A tree is in git's order exactly if no two of its names first differ in a character of two UTF-16
  units and one from U+E000 to U+FFFF (`GitTree.TreeInGitsOrderIff`, `GitTree.OrderParts`).
* With no context lines a hunk that only inserts, or only deletes, is in place at the start of a file
  alone (`Hunks.HunksArePatchIff`, `Hunks.InsertionOutOfPlace`); a negative number gives one empty hunk
  for each change.

## Model

| member | source | states |
|---|---|---|
| EditGraph.LcsIsUpperBound | src/server/diff/myers.ts:43-143 | no common subsequence of the two line arrays is longer than the Lcs that minimality is stated with |
| EditGraph.LcsIsAttained | src/server/diff/myers.ts:43-143 | some common subsequence is as long as the Lcs |
| EditGraph.DistDiagonal | src/server/diff/myers.ts:122-132 | along a diagonal the edit distance stays or grows by two, and grows past a mismatch only beyond a worse neighbour: the fact the greedy choice rests on |
| EditGraph.DistBeyond | src/server/diff/myers.ts:110-143 | frontier points outside the grid are further away than the far corner by exactly how far they are out |
| EditGraph.FurthestIsMaximum | src/server/diff/myers.ts:120-133 | the furthest-reaching point of a diagonal separates the points d edits reach from those that need two more |
| EditScript.NoShorterScript | src/server/diff/myers.ts:43-92 | no edit script from the old lines to the new ones has fewer changes than n + m - 2·LCS |
| EditScript.Minimal | src/server/diff/myers.ts:43-92 | between any two points no script has fewer changes than the distance grows |
| EditScript.LcsTrimmed | src/server/diff/myers.ts:49-68 | taking off a common prefix takes its length off every longest common subsequence, so trimming keeps scripts minimal |
| EditScript.InsertionsLast | src/server/diff/myers.ts:162-188 | in an unbroken run of changes nothing but insertions follows an insertion |
| EditScript.ReplayTurnsOldIntoNew | src/server/diff/myers.ts:149-191 | a script's kept and deleted lines are the old file and its kept and inserted lines the new one, each line once and in order |
| Myers.StartPoint | src/server/diff/myers.ts:121-126 | every diagonal of round d starts within d edits, in bounds of the array |
| Myers.GreedyStep | src/server/diff/myers.ts:120-133 | following matches from the chosen start ends at the furthest point that d edits reach on the diagonal |
| Myers.WriteKeepsFrontier | src/server/diff/myers.ts:133 | writing a diagonal of round d leaves round d - 1's frontier, the other parity, readable |
| Myers.FirstHit | src/server/diff/myers.ts:135-137 | the first frontier point with x >= n and y >= m is the corner itself, reached at the true edit distance |
| Myers.Extend | src/server/diff/myers.ts:121-133 | one diagonal of a round ends at its furthest-reaching point, every array index in bounds |
| Myers.DiffCore | src/server/diff/myers.ts:98-143 | always converges, with a script from corner to corner that has exactly the edit distance's number of changes, deletions first |
| Myers.RightwardMove | src/server/diff/myers.ts:167-170 | a rightward step is taken back to the previous round's furthest point, and only where an insertion before it would not have been as good |
| Myers.DownwardMove | src/server/diff/myers.ts:167-170 | a downward step is taken back to the previous round's furthest point on the diagonal above |
| Myers.UnwindRun | src/server/diff/myers.ts:172-177 | the backward diagonal run re-makes the forward one, matching lines only, back to where the round started |
| Myers.Backtrack | src/server/diff/myers.ts:149-191 | the snapshots lead back to the origin by a script with one change per round, deletions before insertions |
| Myers.JoinMiddle | src/server/diff/myers.ts:70-81 | the middle's minimal canonical script behind the common prefix is minimal and canonical up to the common suffix |
| Myers.DiffLines | src/server/diff/myers.ts:43-92 | refused exactly above 40000 lines together; otherwise a script from old to new with n + m - 2·LCS changes and deletions first |
| Hunks.ChangedIndices | src/server/diff/hunks.ts:65-69 | lists exactly the positions of changes, in order |
| Hunks.MergeRanges | src/server/diff/hunks.ts:71-84 | the merged ranges cover exactly the positions within the context of a change, ordered with an uncovered position between neighbours; with negative context, one empty range for each change |
| Hunks.RenderHunk | src/server/diff/hunks.ts:86-127 | a hunk's lines, counts, first line numbers and header as the script's slice gives them |
| Hunks.RenderedIsHunk | src/server/diff/hunks.ts:86-127 | a rendered hunk's old and new sides are contiguous pieces of the files of the stated start and length, numbered consecutively |
| Hunks.GapIsEqual | src/server/diff/hunks.ts:71-84 | between hunks the two files agree line by line |
| Hunks.HunksArePatchIff | src/server/diff/hunks.ts:48-130 | applying the hunks where their headers say gives the new lines exactly if every hunk is in place and is rejected otherwise; with at least one context line all are |
| Hunks.InsertionOutOfPlace | src/server/diff/hunks.ts:114-124 | without context, a line inserted behind the first gives a hunk that is rejected |
| Hunks.StartsDrift | src/server/diff/hunks.ts:114-124 | the two starts of a hunk differ by what the hunks before it added less what they removed |
| Hunks.CountBalance | src/server/diff/hunks.ts:54-59 | additions and deletions add up to the script's changes and differ by the difference in length |
| Hunks.HunksShowChanges | src/server/diff/hunks.ts:54-112 | the hunks show as many added lines as the script has insertions and as many removed ones as it has deletions |
| Hunks.BuildHunks | src/server/diff/hunks.ts:48-130 | for any context: exact ranges, faithful hunks that show every addition and deletion once, and a patch as far as the hunks are in place; with negative context hunks that say nothing |
| Decimal.ReadShow | src/server/diff/hunks.ts:124 | numbers in headers read back |
| UnifiedDiff.SplitLinesIff | src/server/diff/myers.ts:194-199 | the lines are the only ones without newlines that, each ended by one, make up the text with its last line ended |
| UnifiedDiff.SplitUnlines | src/server/diff/myers.ts:194-199 | splitting newline-terminated lines gives them back, with the empty last element that the split drops |
| UnifiedDiff.HeaderReadsBack | src/server/diff/hunks.ts:124 | a hunk header reads back as the four numbers it was made of |
| UnifiedDiff.BodyReadsBack | src/server/diff/hunks.ts:139-145 | reading as many lines as the counts ask for recovers the lines, their kinds and both numberings |
| UnifiedDiff.PatchReadsBack | src/server/diff/hunks.ts:133-148 | parsing the text by its headers' counts recovers both paths and every hunk |
| UnifiedDiff.ToUnifiedDiff | src/server/diff/hunks.ts:133-148 | empty exactly without hunks; otherwise text that parses back to the paths and hunks |
| UnifiedDiff.HunksAreWellFormed | src/server/diff/hunks.ts:86-130 | the hunks that are built agree with their headers and can be read back |
| UnifiedDiff.DiffText | src/server/diff/hunks.ts:40-46 | end to end on two texts, for any context: refused exactly above the line limit; otherwise the hunks of a minimal script with its deletions first, with exactly that many lines around each change, counted and shown once each, readable and a patch |
| Text.SplitSnoc | src/server/connect/services/git.ts:274-276 | joining a name to a path with a slash adds one name at the end of the path's names |
| Text.JoinSplit | src/server/git/refs.ts:60-63 | splitting loses nothing: joining the pieces gives the text back |
| Text.SplitJoin | src/server/git/refs.ts:60-63 | pieces without the separator are split apart again exactly |
| Planner.BlankNames | packages/ci-config/src/index.ts:107 | a name with a visible ASCII character is not blank, one of spaces, tabs and line ends is |
| Planner.PlanBuilder.Add | packages/ci-config/src/index.ts:106-115 | refused exactly for blank and repeated names; otherwise the step is appended, and the plan stays in need order |
| Planner.PlanBuilder.constructor | packages/ci-config/src/index.ts:102-104 | an empty plan, in need order |
| Planner.Sorter.Visit | packages/ci-config/src/index.ts:174-186 | a visit ends with the step done and every need before it, or with a trail that closes a cycle; each visit marks a step, so it ends |
| Planner.Sorter.VisitNew | packages/ci-config/src/index.ts:180-185 | a step met for the first time is put at the end once its needs are done, and at once if they are |
| Planner.Sorter.VisitNeeds | packages/ci-config/src/index.ts:181-183 | visiting the needs finishes all of them and disturbs nothing done before |
| Planner.TopoSort | packages/ci-config/src/index.ts:160-190 | for any plan: names an unknown need or a cycle where there is one; otherwise one step of every name, needs first, each the first or the last of its name, and the whole plan exactly if no name repeats |
| Planner.SortsIff | packages/ci-config/src/index.ts:160-190 | with names that do not repeat, sorting succeeds exactly for known needs and no cycle, rearranges the plan, and leaves one in need order unchanged |
| Planner.OrderIsAcyclic | packages/ci-config/src/index.ts:160-190 | a plan in need order has no cycle of needs |
| Planner.ReportedCycle | packages/ci-config/src/index.ts:177-179 | the path in a cycle error ends in a real cycle of the plan, from the name it repeats |
| Planner.SearchComplete | packages/ci-config/src/index.ts:188-189 | once all steps are done the order has one step of every name, needs first, and is a topological order of the plan exactly if no name repeats |
| Waves.LayerSorted | packages/ci-config/src/index.ts:199-206 | the loop levels and layers steps given in need order, without a gap and in that order within each wave |
| Waves.PlanWaves | packages/ci-config/src/index.ts:197-209 | for any plan that sorts, the waves partition the sorted steps by level, none is empty, each level is one more than the deepest need's, and each wave keeps the sorted order; any other plan fails with the sort's error |
| Waves.NeedsInEarlierWaves | packages/ci-config/src/index.ts:192-196 | a step's needs lie in strictly earlier waves |
| Waves.ChainsAreShort | packages/ci-config/src/index.ts:202-206 | no chain of needs from a step is longer than its level |
| Waves.LongestChain | packages/ci-config/src/index.ts:202-206 | and one chain is exactly that long |
| Waves.NoEarlierPlacement | packages/ci-config/src/index.ts:202-206 | no placement that puts needs strictly before dependents has any step earlier than its wave |
| Waves.LevelsArePlacement | packages/ci-config/src/index.ts:202-206 | the levels are such a placement themselves |
| Waves.WavesInNeedOrder | packages/ci-config/src/index.ts:192-209 | the waves one after the other are a topological order of the plan |
| Runner.RunCommand | ci/sandbox-runner.ts:304-346 | standard output is the texts of the stdout events joined in order, standard error those of the stderr events and transport errors, and the exit code the last completion's, or 1 where that is 0 and a transport error follows |
| Runner.OutputJoins | ci/sandbox-runner.ts:312-333 | what the loop collects is, for each stream, the texts of its own events joined in order |
| Runner.ExitIs | ci/sandbox-runner.ts:325-331 | the loop ends with exactly one code: the last completion's, or 1 where that is 0 and a transport error follows |
| Runner.Silent | ci/sandbox-runner.ts:312-333 | without stdout events standard output is empty, and without stderr events and transport errors standard error is |
| Runner.GreenIffEndsCleanly | ci/sandbox-runner.ts:325-335 | a step exits 0 exactly if its last completion said 0 (or there was none) and no transport error came after it |
| Runner.ErrorThenCompletionIsGreen | ci/sandbox-runner.ts:325-335 | a transport error followed by a successful completion is reported green |
| Runner.RunStep | ci/sandbox-runner.ts:269-347 | skipped with -1 if blocked and not always; otherwise run |
| Runner.SequentialSettles | ci/sandbox-runner.ts:174-183 | one step at a time, each step gets the result its needs' final results call for |
| Runner.SettledSame | ci/sandbox-runner.ts:174-183 | there is only one such set of results, whatever topological order the steps come in |
| Runner.SettledReports | ci/sandbox-runner.ts:277-346 | in settled results every step that ran tells what its own command printed and how it ended; every skipped one says -1 and nothing |
| Runner.SkippedIff | ci/sandbox-runner.ts:277-291 | a step is skipped exactly if it is not always and some need exited nonzero or was skipped |
| Runner.SomeFailureIsReal | ci/sandbox-runner.ts:277-291 | every nonzero or skipped step traces back to a step that ran and failed |
| Runner.OkIffAllGreen | ci/sandbox-runner.ts:185-190 | having no step that ran and failed is the same as every step having run and exited 0 |
| Runner.RunWave | ci/sandbox-runner.ts:174-178 | the steps of a wave decide on the failures of earlier waves only |
| Runner.RunWaves | ci/sandbox-runner.ts:174-183 | all waves together settle every step |
| Runner.FirstFailure | ci/sandbox-runner.ts:185 | the first step that ran and failed, or none |
| Runner.RunPlan | ci/sandbox-runner.ts:168-191 | for any plan, one result per sorted step, in the order of the waves, the same as any sequential topological run gives and true to the step's own command; ok exactly if every step ran and exited 0, and otherwise the failure is the first step that ran and did not |
| CommitGraph.AncestorsFollow | src/server/connect/services/pull.ts:818-826 | in a children-first listing a commit's ancestors come after it |
| CommitGraph.LogHoldsDescendants | src/server/connect/services/pull.ts:818-826 | a bounded log that holds a commit holds, before it, every commit of the history that descends from it |
| CommitGraph.ReachesInside | src/server/connect/services/pull.ts:761-778 | what a commit of a repository reaches in the history across all forks, it reaches in that repository |
| MergeBase.FindMergeBase | src/server/connect/services/pull.ts:836-854 | a commit found is a common ancestor below which no other common ancestor lies; none is found exactly if the base repository's logs share none, and head is found exactly if base's log holds it |
| MergeBase.FirstSharedIsBest | src/server/connect/services/pull.ts:849-852 | the first commit of head's log that base's log holds is a best common ancestor, whatever the limit cut off |
| MergeBase.MergeableByLogs | src/server/connect/services/pull.ts:777-791 | the decision read off the logs: empty for equal tips, clean if head's log in its own repository holds base, behind if base's log holds head, else conflicted |
| MergeBase.CanFastForwardIff | src/server/git/receive-pack.ts:133-143 | a pointer moves forward only from a proper ancestor, and from every one that the log shows; a branch that is not there yet can start anywhere |
| MergeBase.ResolveBranches | src/server/connect/services/pull.ts:755-794 | within a repository and across forks: unknown exactly if a branch is missing, empty exactly for equal tips; clean means base is an ancestor of head and behind that head is one of base, and the converses hold when the history fits the limit; the merge base is a best common ancestor wherever the logs share a commit, and the base tip only where they do not or the tips are equal |
| RefStore.StepValid | src/server/connect/services/pull.ts:560-590 | every step leaves refs and parents pointing at commits the server has, under 40-digit ids, and changes no commit |
| RefStore.StepAdvances | src/server/connect/services/pull.ts:638-738 | whatever step is taken, each ref stays or moves to a descendant of where it was |
| RefStore.MergeAdvances | src/server/connect/services/pull.ts:560-590 | a merge, decided on tips read at any earlier time, only advances refs |
| RefStore.NothingIsLost | src/server/connect/services/pull.ts:638-738 | over any interleaving with writers that do not force-push, what a ref could reach it can still reach |
| RefStore.MergeInstalls | src/server/connect/services/pull.ts:581-590 | a merge that goes through moves only its base branch, from the tip it was decided on, to head or to a commit with that tip as first parent, head as second, and head's tree |
| RefStore.TipsWereThere | src/server/connect/services/pull.ts:755-767 | over any run, the tips that a merge or a save goes by are where its branches stood at some moment since it started, or what the fork said |
| RefStore.MergesBranchTips | src/server/connect/services/pull.ts:560-590 | a merge that goes through joins such tips of its own two branches |
| RefStore.MergeGoesThroughIff | src/server/connect/services/pull.ts:560-590 | a merge moves its branch exactly if both branches are there, base has not moved since it was read, the client saw that head and the base repository has it, there is something to merge and, if a commit is needed, it can be added; the pointer just moves exactly if head's log holds base and no commit was asked for; in every case the operation is over |
| RefStore.ProperIff | src/server/connect/services/pull.ts:581-590 | what is sent has two 40-digit ids and parents that exist exactly if neither branch was missing; with one missing nothing moves |
| RefStore.MissingBaseIsSent | src/server/connect/services/pull.ts:654-676 | with base alone missing, a commit with an empty first parent is sent under an empty old id |
| RefStore.MergeAlone | src/server/connect/services/pull.ts:560-590 | left alone, a merge goes from its start, over reading both tips, to its push, and moves its branch exactly if it can |
| RefStore.SaveAlone | src/server/connect/services/wiki.ts:204-299 | left alone, a save goes through exactly if the editor expected the tip that is there or there is none, some file remains and the commit can be added |
| RefStore.RecordedIff | src/server/connect/services/pull.ts:581-602 | a merge is recorded exactly if something was sent, its report arrives, and the base branch moved or the server refused without giving a reason |
| RefStore.RecordedMergesStay | src/server/connect/services/pull.ts:581-602 | over any interleaving, with refusals that give reasons and no force-pushes, every recorded merge is in its base branch's history for good |
| RefStore.WikiInstalls | src/server/connect/services/wiki.ts:223-299 | a save that goes through puts the replaced tip under the new one, with that tip's files, if they could be read, and only the named changes |
| RefStore.WikiGoesThroughIff | src/server/connect/services/wiki.ts:223-299 | a save moves its ref exactly if the ref still has the tip that was read, the editor expected that tip or none, some file remains and the commit can be added |
| RefStore.UnreadTreeIsDropped | src/server/connect/services/wiki.ts:236-244 | a tip's tree that cannot be read makes no difference exactly if the save names every file |
| RefStore.SavesCompose | src/server/connect/services/wiki.ts:223-299 | over any interleaving in which only saves push to a wiki, its files are those it began with, with the accepted saves applied in the order of their acceptance |
| RefStore.OnlyNamedFilesChange | src/server/connect/services/wiki.ts:236-255 | files that are not named keep their entries; all other entries survive exactly if they are all plain files |
| RefStore.EditEntries | src/server/connect/services/wiki.ts:236-255 | the entry map after taking the files of the tip's tree, if it was read, and applying each change in turn |
| RefStore.PushCommitInstalls | src/server/git/receive-pack.ts:56-64 | a push that moves a ref found it at the old id, moved nothing else and installed the commit that was sent |
| LogSink.StepKeeps | ci/log-sink.ts:28-73 | every step keeps the sink's invariant and the text it stands for, which only append extends |
| LogSink.Conservation | ci/log-sink.ts:28-73 | over any interleaving, recorded and called, then chained, then buffered text is exactly what was appended, in order and in its stream; a non-empty buffer has its timer armed and is below 8192 |
| LogSink.TimerSends | ci/log-sink.ts:43-67 | a timer that fires leaves nothing buffered: all of it is called or chained, behind what was there, and the first chunk is called at once if the chain was at rest |
| LogSink.AppendSendsIff | ci/log-sink.ts:28-44 | an append below 8192 buffered units sends nothing and arms the timer; one that reaches them leaves nothing buffered |
| LogSink.FlushChains | ci/log-sink.ts:47-67 | a flush puts what was buffered at the end of what is called or chained, in order |
| LogSink.CallbackProgress | ci/log-sink.ts:43-73 | every callback that does anything brings the sink closer to being drained |
| LogSink.DrainedIff | ci/log-sink.ts:43-73 | the callbacks come to rest exactly when nothing is buffered, chained, called or waiting to finish |
| LogSink.Drains | ci/log-sink.ts:43-73 | from any valid sink callbacks alone drain it, and then all it stood for is recorded, with the marker of a finish under way |
| LogSink.EverythingGetsRecorded | ci/log-sink.ts:28-73 | whatever has happened, callbacks alone can bring the stream to hold exactly what append was given |
| LogSink.MarkerIsLastIff | ci/log-sink.ts:47-73 | the end marker follows all output in every continuation exactly if finish found something buffered or no chained write whose call had yet to leave |
| LogSink.MarkerOvertakes | ci/log-sink.ts:47-73 | a buffer of two chunks that fills up, and a finish before the first of them is recorded: the marker is called ahead of the second |
| LogSink.DurableObjectLogSink.constructor | ci/log-sink.ts:20-26 | a new sink has nothing buffered, chained, called or recorded |
| LogSink.DurableObjectLogSink.Merge | ci/log-sink.ts:29-36 | text joins the last chunk exactly if that is of the same step and stream |
| LogSink.DurableObjectLogSink.Append | ci/log-sink.ts:28-44 | the fields after an append, merged or pushed, flushed or timed |
| LogSink.DurableObjectLogSink.Flush | ci/log-sink.ts:47-67 | the fields after a flush: buffer chained behind the writes that are there, timer cleared, and the first write called if the chain was at rest |
| LogSink.DurableObjectLogSink.Send | ci/log-sink.ts:61-65 | the next chained write is called exactly if none is on its way |
| LogSink.DurableObjectLogSink.TimerFired | ci/log-sink.ts:43-51 | nothing is left buffered, and what was is at the end of what is called or chained |
| LogSink.DurableObjectLogSink.CallRecorded | ci/log-sink.ts:58-66 | the oldest call is recorded, and a waiting finish waits for one write less |
| LogSink.DurableObjectLogSink.CallFinish | ci/log-sink.ts:70-73 | finish flushes and then waits for what is chained or on its way only if it had something to flush |
| LogSink.DurableObjectLogSink.FlushSettled | ci/log-sink.ts:71-72 | the marker is called behind what has been called by then |
| LogReader.StoreKeepsNumbers | src/server/ci/log-stream.ts:48-73 | rows are numbered without a gap and the newest are kept, one more of them with each append, or 4999 where there were 5000 |
| LogReader.RowsStored | src/server/ci/log-stream.ts:48-73 | how many rows are stored after any run: all of them up to 5000, then 4999 or 5000 in turn, the latter exactly after an even number |
| LogReader.Poll | src/server/connect/services/ci.ts:145-149 | one poll emits the history after the cursor and moves the cursor to its last row |
| LogReader.RunInOrder | src/server/connect/services/ci.ts:120-149 | whatever is dropped, the reader never repeats, reorders or invents a row |
| LogReader.PollCatchesUpIff | src/server/connect/services/ci.ts:145-149 | a poll catches up with the whole filtered log exactly if nothing wanted was dropped before it |
| LogReader.GapFree | src/server/connect/services/ci.ts:120-149 | with nothing wanted dropped before a poll, what was emitted is a gap-free prefix of the filtered log, complete up to the last poll |
| LogReader.ShortLogsDropNothing | src/server/ci/log-stream.ts:120-133 | nothing is dropped while the log has at most 5000 rows |
| LogPipeline.ReadersGetAPrefix | ci/log-sink.ts:28-73 | over any interleaving of sink, store and reader in which no wanted row was dropped before a poll, what the reader has is a prefix of what append was given, markers left out, and all of it once the sink is empty and the reader has polled |
| LogPipeline.RowsTellEntries | src/server/ci/log-stream.ts:48-111 | over any run the rows are numbered by the order of recording and carry the chunk, or the end marker with its status as a row of no step |
| LogPipeline.ReadersGetEverything | ci/log-sink.ts:28-73 | whatever has happened, callbacks of the sink and one poll can bring the reader to have all that append was given and that it asks for, unless a row it wants is dropped first |
| RunRecords.StepKeeps | ci/record.ts:20-91 | every statement keeps rows distinct, numbers below the counter and held numbers unshared |
| RunRecords.TakeNumber | ci/record.ts:48-55 | a number taken from the counter is nobody else's |
| RunRecords.InsertSucceeds | ci/record.ts:59-80 | an insert with a held number fails no index and adds a row exactly if the instance has none |
| RunRecords.InsertIff | ci/record.ts:59-80 | an insert adds its row exactly if the unique indexes allow it, yields to a row of its instance, and fails exactly if another index does not |
| RunRecords.RunKeeps | ci/record.ts:20-91 | the invariant holds after any interleaving |
| RunRecords.ReplaySafe | ci/record.ts:36-91 | one row per instance, no number twice in a repo, no call fails, and calls for one instance return the recorded run |
| RunRecords.AnswersIff | ci/record.ts:29-91 | over any interleaving, a call returns null exactly if its lookup found no repo or CI off; any other has returned after five statements at most, with its repo's id and the id and number of the row recorded for its instance |
| RunRecords.HasLookedUp | ci/record.ts:20-34 | a call runs under the name and instance it was started with, and has looked its repo up unless it was only just started |
| RunRecords.FirstRunAlone | ci/record.ts:20-91 | left alone, the first call for an instance records a run under the counter's number and returns it |
| RunRecords.ReplayAlone | ci/record.ts:36-46 | a later one returns the recorded run and changes neither rows nor counters |
| RunRecords.CountersCount | ci/record.ts:48-55 | over any interleaving a repo's counter moves by one for each number taken and by nothing else |
| RunRecords.ReplayTakesNoNumber | ci/record.ts:36-46 | a replay after the run was recorded never moves the counter or adds a row |
| RunRecords.Declare | ci/record.ts:95-116 | declared steps exist with the plan's command, needs and position, new ones queued; steps already there keep status and exit code, other rows stay |
| Bytes.DecodeEncode | src/server/git/pktline.ts:81-90 | one character a byte: encoded text decodes to itself |
| PktLine.EncodePktLine | src/server/git/pktline.ts:65-75 | frames every payload of at most 65531 bytes and refuses all others |
| PktLine.ReadPacket | src/server/git/pktline.ts:36-58 | one turn of the loop reads the next packet or says which of its bytes are wrong or missing |
| PktLine.DecodePktLines | src/server/git/pktline.ts:31-62 | succeeds exactly on a buffer made of packets, and returns them; otherwise packets make up the buffer as far as one that cannot be read, and the error says where that is and why |
| PktLine.FramesReadBack | src/server/git/pktline.ts:31-75 | any payloads and special packets framed one after the other are read back in order |
| PktLine.AcceptedIsTiled | src/server/git/pktline.ts:31-62 | an accepted buffer is tiled exactly: framing what was read gives the buffer, up to the case of hex digits |
| Sorting.SortSorts | src/server/git/objects.ts:63-67 | sorting orders the elements and loses none |
| Sorting.SortForgetsOrder | src/server/git/objects.ts:63-67 | elements that compare different come out the same from every order |
| Sorting.SortDistinct | src/server/connect/services/pull.ts:900-906 | distinct elements come out strictly ordered, none lost or invented |
| Sorting.StringOrder | src/server/git/objects.ts:66 | comparison by UTF-16 code units is a strict total order |
| Unicode.UnitsCarry | src/server/artifacts/names.ts:47 | a character's UTF-16 units are its number, or two surrogates that carry it (section 2.1 of RFC 2781) |
| Unicode.EncodedShortest | src/server/git/pktline.ts:65-66 | a character's bytes are as few as can hold its number, marked by their place, and carry that number (section 3 of RFC 3629) |
| Unicode.Utf8Injective | src/server/git/pktline.ts:65-66 | different texts are encoded to different bytes |
| Objects.EncodeObjectHeader | src/server/git/objects.ts:151-163 | the header bytes of a type and a size, the size taken as a 32-bit number |
| Objects.HeaderSays | src/server/git/objects.ts:151-163 | what a header decodes to for every size, also past 32 bits |
| Objects.HeaderRoundTripIff | src/server/git/objects.ts:144-163 | a header is self-delimiting and decodes to its type and size exactly for sizes below 2^31 |
| Objects.ConcatParts | src/server/git/objects.ts:174-183 | one buffer holding the parts in order |
| Objects.BuildPackfile | src/server/git/objects.ts:124-142 | header, version, count, entries and a digest over all of it |
| Objects.PackReadsBack | src/server/git/objects.ts:117-142 | unpacking a built packfile gives the objects back |
| Objects.BytesToHex | src/server/git/objects.ts:185-189 | two lower-case digits a byte |
| Objects.HexToBytes | src/server/git/objects.ts:191-197 | of any text, one byte for two characters: hex digits of either case, also behind a space or a sign, up to the first other character; 0 where there is none; an odd last character is dropped |
| Objects.PairParses | src/server/git/objects.ts:191-197 | for any two characters, the byte is the number that parsing them in base 16 gives, modulo 256, and 0 where that is none |
| Objects.FromToHex | src/server/git/objects.ts:185-197 | bytes to hex and back |
| Objects.ToFromHexIff | src/server/git/objects.ts:185-197 | text comes back from bytes exactly if it is lower-case hex of even length |
| GitTree.BuildTree | src/server/git/objects.ts:62-76 | for any entries, the tree's bytes are a sorted rearrangement of them, each as mode, name and raw id |
| GitTree.TreeForgetsOrder | src/server/git/objects.ts:54-67 | entries with distinct names make the same tree in whatever order they were collected |
| GitTree.KeysDiffer | src/server/git/objects.ts:64-65 | the slash that directories sort with never makes two different names compare equal |
| GitTree.OrderIsGitsIff | src/server/git/objects.ts:54-67 | sorting directories as though their names ended in a slash is git's own comparison of the names' bytes, exactly where the names do not part the order of UTF-16 units from that of UTF-8 bytes |
| GitTree.TreeInGitsOrderIff | src/server/git/objects.ts:54-67 | a whole tree comes out in git's order exactly if no two of its names part the two orders |
| GitTree.OrderParts | src/server/git/objects.ts:54-67 | two file names that git orders the other way round |
| GitTree.TreeReadsBackIff | src/server/git/objects.ts:69-75 | a serialized tree parses back to its entries exactly if no mode holds a space, no name a NUL, and every id makes 20 bytes |
| GitTree.StoredApart | src/server/git/objects.ts:69-75 | entries with lower-case ids of 40 digits that are stored alike are the same |
| Refs.ParseRefAdvertisement | src/server/git/refs.ts:41-84 | fails exactly where the framing does; otherwise the refs, capabilities and HEAD its lines give |
| Refs.HeadRefIff | src/server/git/refs.ts:78-83 | HEAD is what follows symref=HEAD: in the first capability that starts so, and unknown exactly without one |
| Refs.AdvertisementReadsBack | src/server/git/refs.ts:33-84 | a printed well-formed advertisement, empty repositories included, reads back to the same refs, capabilities and HEAD |
| Refs.BannerIsOptional | src/server/git/refs.ts:46-53 | the same without the banner and its flush |
| Refs.WireReadsBack | src/server/git/refs.ts:41-84 | the same through packet framing |
| Refs.RefsAreProper | src/server/git/refs.ts:66-75 | whatever the packets say, only 40-digit non-zero ids get through and refs already read stay |
| Refs.CapabilitiesStay | src/server/git/refs.ts:57-63 | the capabilities of the first line that has any stand, whatever later packets say |
| Refs.TagsAre | src/server/git/refs.ts:104-116 | with unique names the tag map holds the peeled id wherever its line stands, and the plain one without a peeled line |
| Refs.BranchesAre | src/server/git/refs.ts:104-108 | the branches are exactly the refs under refs/heads/ |
| Refs.ResolveRefs | src/server/git/refs.ts:100-125 | for any collation of names: branches in order, tags in reverse order, each tag at the commit it peels to, and HEAD's branch |
| Refs.OrderForgotten | src/server/git/refs.ts:93-125 | the order of the advertised refs makes no difference where the collation tells their names apart |
| Refs.TiesKeepOrder | src/server/git/refs.ts:119-123 | two refs come out in the order they were listed in exactly if the collation takes their names to be equal |
| ReceivePack.EmptyPackfile | src/server/git/receive-pack.ts:35-47 | the 32 bytes are what packing no objects gives |
| ReceivePack.BuildReceivePackRequest | src/server/git/receive-pack.ts:65-87 | for any ids and name: command packet, flush and pack; refused exactly if the command's UTF-8 bytes do not fit a packet |
| ReceivePack.RequestReadsBackIff | src/server/git/receive-pack.ts:49-87 | a server reading the request finds the old id, new id, ref and objects that were sent exactly if both ids are 40 hex digits and the name holds no NUL |
| ReceivePack.ReceivedApart | src/server/git/receive-pack.ts:76-80 | different updates are received as different ones |
| ReceivePack.ParseReceivePackResponse | src/server/git/receive-pack.ts:102-131 | fails exactly where the framing does; otherwise the verdict on the report's lines |
| ReceivePack.AcceptedIff | src/server/git/receive-pack.ts:95-131 | where every refusal gives a reason, success is reported exactly if the pack unpacked, some ref was accepted and none refused |
| ReceivePack.RefusedYetAcceptedIff | src/server/git/receive-pack.ts:117-129 | a report with a refusal counts as success exactly if its last refusal has an empty reason and nothing else is wrong |
| ReceivePack.ReasonIs | src/server/git/receive-pack.ts:117-122 | a refusal's reason is all that follows the ref's name and a space, or the name itself where nothing does |
| ReceivePack.UnpackFailureSays | src/server/git/receive-pack.ts:111-114 | the first failed unpack is the reason given |
| ReceivePack.RefusalSays | src/server/git/receive-pack.ts:117-126 | otherwise the last refusal's reason is, if it has one |
| ReceivePack.UnconfirmedSays | src/server/git/receive-pack.ts:126-130 | with neither, a report without an unpack or without an accepted ref is unconfirmed |
| ReceivePack.EmptyReasonAccepted | src/server/git/receive-pack.ts:117-129 | such a report: a refusal that ends after the ref's name and a space |
| Trees.Walk | src/server/connect/services/git.ts:204-232 | the first 10000 entries of the breadth-first listing; not truncated exactly if that is all and every directory could be read |
| Trees.ListingIsWhole | src/server/connect/services/git.ts:204-232 | the listing has a row exactly for every path that leads to an entry, directory by directory |
| Trees.ListingOfTree | src/server/connect/services/git.ts:204-232 | a whole tree is listed entry by entry, each under its path |
| Trees.ListingShape | src/server/connect/services/git.ts:197-203 | the listing goes level by level and no path comes twice |
| Trees.ListingIsBreadthFirst | src/server/connect/services/git.ts:197-215 | no entry is listed before one closer to the root |
| Trees.DepthFirstIff | src/server/connect/services/git.ts:197-232 | the listing is in depth-first order exactly if, all the way down, only the last entry of a directory has something below it |
| Trees.NotDepthFirst | src/server/connect/services/git.ts:197-232 | a directory with a file in it, and a file beside it, is listed in another order |
| Trees.ListingIsDistinct | src/server/connect/services/git.ts:204-232 | no path is listed twice |
| Trees.FlattenTree | src/server/connect/services/pull.ts:1012-1035 | the map has exactly the paths that lead to a blob, each with that blob's id |
| TreeDiff.SelectFiles | src/server/connect/services/pull.ts:900-1009 | the changed files in path order, at most 300, truncated exactly if another changed path is left out, each with its status and the diff, with the context asked for, of the contents its path leads to on the two sides |
| TreeDiff.BuildDiff | src/server/connect/services/pull.ts:882-1009 | the same for two commits: changed means that the two trees lead a path to different blobs |
| TreeDiff.ShowFile | src/server/connect/services/pull.ts:926-961 | a file with binary content on a side, or too many lines, shows no patch; any other the hunks of a minimal script from its old lines to its new ones with the context asked for |
| TreeDiff.IsProbablyBinary | src/server/git/content.ts:13-19 | binary exactly if one of the first 8000 bytes is zero |
| Names.NameReadsBack | src/server/artifacts/names.ts:78-82 | splitting a storage name at its last separator gives owner and repository back, in lower case |
| Names.SegmentIff | src/server/artifacts/names.ts:46-64 | a name is accepted exactly if it has one to 64 letters, digits, dots, underscores and hyphens, a letter or digit first, no two hyphens together and no .git at its end; each error names a rule that is broken |
| Names.LoginIff | src/server/artifacts/names.ts:66-71 | an owner is accepted exactly if its name is and is no reserved word in any letter case |
| Names.NamedIff | src/server/artifacts/names.ts:73-91 | a repository, and its wiki, has a storage name exactly if its owner and its name are accepted |
| Names.NameIsPlain | src/server/artifacts/names.ts:20-82 | a storage name has at most 130 lower-case characters of the kind the store accepts, and no owner is a reserved word in any letter case |
| Names.SameNameIff | src/server/artifacts/names.ts:3-16 | two repositories share storage exactly if their names differ in letter case only |
| Names.WikiIsNoRepo | src/server/artifacts/names.ts:84-91 | no repository is stored where a wiki is |
| Names.SameWikiIff | src/server/artifacts/names.ts:84-91 | two wikis share storage exactly if their repositories do |
| Names.FirstSeparatorMisleads | src/server/artifacts/names.ts:18-21 | an owner may end in a hyphen, so the first separator does not divide the halves |

## Left out

- Planner.TopoSort: the options of a step other than `needs` and `always` (cwd, env, timeout, retries) do not affect order or skipping.
- Refs.ResolveRefs: with repeated ref names only the branches are described. The collation behind `localeCompare` is a parameter.
- Refs.AdvertisementReadsBack: names and capabilities of characters that fit a byte, as the decoder reads bytes.
- LogReader.RunInOrder: a reader that polls without end; the terminal status that closes it is written before the last flush, so no claim is made that a stream sees every row before closing.
- LogSink.Conservation: writes that are rejected by the stream, and a second `finish` before the first has called it.
- Runner.RunCommand: the sink calls that mirror a command's output while it runs; `LogSink` takes up from them.
- LogPipeline.ReadersGetAPrefix: steps called "", the name that the marker's row has; the builder refuses them.
- RefStore.NothingIsLost: writers that force-push, and deleting refs or repositories.
- RefStore.RecordedMergesStay: the checks of a pull request's row before a merge (already merged, closed, a draft).
- Trees.Walk: the entry types shown to clients (symlink, submodule) are a plain mapping of mode and kind.
- SHA-1, deflate, JSON, HTTP, access tokens, SQL text, containers and shell commands: external; only the contracts named above are used.
- The single updates that finish a step or a run.
- Building commit texts and signatures, and the other columns written after a merge: plain formatting and storage.
- Whether a file's last line ends in a newline: splitting drops it, so diffs are between line arrays.
- Access control, routes, events, pages and generated protocol code: they would only add easy members.
