# Task-graph execution and patch integration, in Dafny

This project models the part of c4harness that runs a graph of delegated tasks and
integrates the patches the workers hand back, and proves what that part is meant to
guarantee. `dafny verify dfyconfig.toml` checks it.

The model follows the program file by file. Code that changes state in place is a
class or a method with loops (`TaskContractGraph`, `GraphScheduler`,
`WriteReservationManager`, `PatchApplier`, `GraphIntegrationSession`, the parser, the
run loop, the node run, the check loop, the root verifier, the profile builder,
`AsyncTaskStore`); code that only computes is a function. Each method is tied by its
`ensures` to a function or predicate of the old state, and the theorems are lemmas
about those.

1. **Graph and run loop** (`Walks`, `Graph`, `Scheduler`, `RunGraph`). Edges are
   accepted exactly when they keep the graph acyclic. For every graph, runner and
   `max_parallel`, and every order in which a batch completes, the run ends, no
   transition raises, and the final state of every node is a fixed function of the
   graph and the runner (`FinalStates`): blocked when a transitive `requires`
   ancestor failed, or when the node is on or downstream of a `requires` cycle, and
   the runner's verdict otherwise. Confluence of sequential and parallel runs follows.
2. **Paths and reservations** (`Paths`, `Reservations`). Active reservations of
   different nodes never overlap; reserving is all or nothing; no interleaving of the
   nodes of a batch, and no whole run, is ever refused a reservation if and only if the
   write paths resolve and the resolved write sets of a batch's members do not overlap.
3. **Unified diffs** (`Text`, `UnifiedDiff`, `DiffProofs`, `RoundTrip`, `Grouping`,
   `Joining`, `Grammar`, `Parser`). The printer and the parser as functions over lines,
   the parser also as the program's loops; the accepted texts exactly, as a grammar, with
   the operations they spell; the round trip of one file, of several files, and of a
   worker's patch, which joins the files' diffs with blank lines, each with its exact
   condition. The line format is that of "Diff -u or -U Output Format" in POSIX.1-2017,
   XCU chapter 4, `diff`.
4. **Transactions** (`Workspace`, `Integrator`, `Transaction`, `Session`, `Proposal`,
   `Interleaving`, `Simulation`). Which patches a workspace admits, stated on its tree;
   applying, committing and rolling back with every filesystem step allowed to fail; from
   the text a worker hands over to what the workspace then shows; then all interleavings
   of threads as a state machine, in which the workspace is serializable. Each method of
   `Session` is a step of that machine, whether it succeeds or fails.
5. **Verdicts and retries** (`Verdict`, `Replan`, `RunNode`). The halting check loop,
   the split into two phases and their merge, each retry action exactly when it is
   decided, exactly when an attempt succeeds, and the whole node run: which worker takes
   each attempt, what is released on every exit, exactly when a transaction stays
   pending, and why each retry was justified.
6. **Acceptance and history** (`Root`, `GraphExecution`, `History`, `Inbox`). The root
   verdict and, composed with 1 and 5, what an accepted report means end to end;
   failure attribution, capability profiles and worker assignment; the event and
   inbox tables of asynchronous tasks.

Types shared by these are in `Contracts`.

## What is not as the documentation or a first reading suggests

Each of these has a lemma or method with a concrete witness, or an exact condition.

- The diff round trip holds if and only if the file changed, the printed text
  contains none of the binary markers, and no deleted line starts with `-- `: such a
  line is printed as `--- ...` and read as the next file header
  (`Grouping.DiffRoundTrip`, `Grouping.DeletedDashDashFails`,
  `Grouping.BinaryTextFails`). A context-free insertion after the first line would be
  applied one line early (`Grouping.UnanchoredLandsEarly`); three lines of context
  never produce one (`Grouping.ScriptGivesValidHunks`).
- A worker's patch joins the diffs of its files with a blank line. The parser skips such
  a line after the headers of an empty file and refuses it after a hunk, so beside the
  above the patch is read back if and only if no changed file but the last has hunks
  (`Joining.JoinedRoundTrip`). A worker that edits two files is always refused
  (`Joining.TwoEditedFilesAreRefused`).
- Splitting verification into phases preserves the class of the verdict (accepted,
  inconclusive, rejected, blocked) but not always its confidence: an accepted
  contract whose deterministic checks all fall into one phase drops from `high` to
  `medium` (`Verdict.SplitPreservesVerdict` has the condition, `Verdict.SplitLosesHigh`
  an input).
- Nodes that propose no patch never run the checks that belong to a proposal:
  `requirement_coverage` in the contract of such a node is not judged at all
  (`RunNode.AnalysisSucceedsExactly`, against `RunNode.PatchSucceedsExactly`).
- Whether a node is retried does not depend on the order of its failures
  (`Replan.RetryIgnoresFailureOrder`). The reported reason can
  (`Replan.ReasonDependsOnOrder`): it does not if and only if the verdict is accepted, a
  marker is set, or all hard failures share one category
  (`Replan.ReasonIgnoresOrderExactly`). Whether the run stops or escalates does not if
  and only if the hard failures agree on it (`Replan.ActionIgnoresOrderExactly`).
- After a failed rollback step the transaction stays pending although the lock and
  the reservation are freed, so every later proposal is refused, unless a second
  rollback repairs it (`RunNode.FailedRollbackStaysPending`,
  `Interleaving.PendingMeansLocked`). An attempt leaves one pending if and only if it
  opened one, did not commit it, and no rollback of it succeeded
  (`RunNode.RunAttempt`, `RunNode.LeavesPending`).
- Applying a patch loses the workspace in exactly one case: moving the new tree in
  fails and so do both attempts to move the old one back (`Integrator.PatchApplier.Apply`).
- The root verifier on its own accepts graphs with a node that succeeded under a
  rejected verdict, or that never ran; only the run loop and the node run exclude
  them (`Root.AloneAcceptsRefutedNode`, `Root.AloneAcceptsPendingNode`). Among healthy
  graphs without issues every node is accepted if and only if the run finished and no
  node succeeded under a rejected verdict (`Root.AllAcceptedExactly`).
- Batch selection compares declared paths, reservations compare resolved ones: a batch
  with `src/../lib` and `lib` is selected and then refused
  (`Reservations.SelectedMayBeRefused`). A batch is never refused if and only if its
  resolved write sets exist and do not overlap (`Reservations.NeverRefusedExactly`);
  selected batches whose paths have no `..` always meet this
  (`Reservations.SelectedIsHoldable`).
- A further failure lowers a worker's score if and only if the worker has a success or
  no history at all; one that only ever failed gains by failing again, for its quality
  stays zero while the uncertainty falls (`History.FailureLowersExactly`,
  `History.FurtherOutcome`).
- Events and inbox rows agree throughout a run if and only if no call asks for an
  inbox row of a key that was so far recorded without one
  (`Inbox.AgreementExactly`, `Inbox.LateRequestDisagrees`).

## Model

| member | source | states |
|---|---|---|
| Walks.NewEdgeClosesCycle | c4harness/core/graph.py:297-307 | adding an edge to an acyclic relation closes a cycle if and only if it is a self edge or its target already reaches its source |
| Walks.CutAtEdge | c4harness/core/graph.py:303-307 | a walk that may use the new edge avoids it, or splits into a walk to its source and one from its target |
| Walks.NoSourceMeansStuck | c4harness/application/run_graph.py:168-178 | in a finite set in which everything has a predecessor, every member is downstream of a cycle inside the set |
| Walks.ClosedHoldsReached | c4harness/delegator/scheduler.py:325-341 | a set closed under the edges that holds a node holds everything reachable from it |
| Graph.Visit | c4harness/core/graph.py:317-326 | the recursive visit fails only if there is a cycle; otherwise it extends a finishing order in which every edge leads backwards, and leaves the path set as it was |
| Graph.FinishedMeansAcyclic | c4harness/core/graph.py:317-329 | a finishing order that lists every source excludes cycles |
| Graph.TaskContractGraph.ValidateAcyclic | c4harness/core/graph.py:309-329 | succeeds if and only if the edge relation has no cycle |
| Graph.TaskContractGraph.Outgoing | c4harness/core/graph.py:310-312 | the successor table holds exactly the edges, whatever their type |
| Graph.TaskContractGraph.AddEdge | c4harness/core/graph.py:297-307 | keeps the graph acyclic; accepts if and only if both ends exist, differ, and the target does not reach the source; a rejected edge leaves the edge list unchanged |
| Graph.TaskContractGraph.AddNode | c4harness/core/graph.py:292-295 | rejects exactly duplicate ids and keeps the graph acyclic |
| Graph.TaskContractGraph.constructor | c4harness/core/graph.py:286-290 | the empty graph is acyclic |
| Graph.ReadyUntilCompleted | c4harness/core/graph.py:331-342 | in an acyclic graph, for any completed set, some node is ready until all are completed |
| Graph.AcyclicGraphHasNoRequiresCycle | c4harness/core/graph.py:309-329 | acyclicity over all edge types means no node is on or below a `requires` cycle |
| Paths.OverlapIsComparability | c4harness/integrator/conflicts.py:389-394 | two paths overlap if and only if one is a component prefix of the other, symmetrically |
| Paths.PrefixesOverlap | c4harness/integrator/conflicts.py:389-394 | two prefixes of one path overlap |
| Paths.NoSharedWritablePath | c4harness/integrator/patches.py:421-437 | no path is allowed under both of two non-overlapping write sets, whatever directories exist |
| Paths.CanonicalResolvesToItself | c4harness/integrator/conflicts.py:380-386 | a path without `..` is its own resolution |
| Paths.ResolvedIsCanonical | c4harness/integrator/service.py:67-76 | what a path resolves to has no `..` left and so resolves to itself |
| Paths.DownAndUp | c4harness/integrator/service.py:67-76 | a step down and up again leads nowhere and a step up from the root leads out, which with the fixed points determines every resolution |
| Paths.CanonicalSeqResolvesToItself | c4harness/integrator/service.py:81-85 | a list of paths without `..` is reserved as it was declared |
| Scheduler.LexTotal | c4harness/delegator/scheduler.py:257-272 | the id order is total and antisymmetric |
| Scheduler.LexTransitive | c4harness/delegator/scheduler.py:257-272 | the id order is transitive |
| Scheduler.LexByFirstDifference | c4harness/delegator/scheduler.py:257-272 | it is the dictionary order: a prefix comes first, otherwise the first difference decides |
| Scheduler.SortedIds | c4harness/delegator/scheduler.py:257-272 | a set of ids as its strictly ascending sequence |
| Scheduler.SelectParallelBatch | c4harness/delegator/scheduler.py:199-218 | the batch is a sorted, pairwise non-overlapping part of the ready nodes, never empty, starts with the first, and leaves out a node only because it overlaps an earlier chosen one or the batch is full; raises exactly for a bound below one |
| Scheduler.VisitedAreDescendants | c4harness/delegator/scheduler.py:325-341 | the fixpoint of the breadth-first search is the set of all and only the descendants |
| Scheduler.GraphScheduler.constructor | c4harness/delegator/scheduler.py:234-249 | every node pending, nothing executed, the source table equal to the `requires` relation |
| Scheduler.GraphScheduler.ReadyNodes | c4harness/delegator/scheduler.py:257-272 | exactly the pending nodes all of whose `requires` sources succeeded, in ascending order |
| Scheduler.GraphScheduler.MarkRunning | c4harness/delegator/scheduler.py:283-290 | raises exactly on an unknown or non-pending node and then changes nothing; otherwise starts it and appends it to the order |
| Scheduler.GraphScheduler.MarkSucceeded | c4harness/delegator/scheduler.py:292-299 | raises exactly on an unknown or non-running node and then changes nothing |
| Scheduler.GraphScheduler.MarkFailed | c4harness/delegator/scheduler.py:301-310 | additionally blocks every pending descendant and nothing else |
| Scheduler.GraphScheduler.MarkBlocked | c4harness/delegator/scheduler.py:312-321 | raises exactly on an unknown or non-pending node; otherwise blocks it and every pending descendant and nothing else |
| Scheduler.GraphScheduler.VisitDependents | c4harness/delegator/scheduler.py:330-341 | one dequeued node: every direct dependent is visited, and only those are added |
| Scheduler.GraphScheduler.PropagateBlocked | c4harness/delegator/scheduler.py:325-341 | the search terminates and blocks exactly the pending nodes reachable from the failed one |
| RunGraph.StartKeepsInv | c4harness/delegator/scheduler.py:283-290 | starting a ready node keeps the scheduler invariant and leaves every other ready node ready |
| RunGraph.CompletionKeepsInv | c4harness/delegator/scheduler.py:292-310 | completing a running node, in either way, keeps the scheduler invariant and every other running node |
| RunGraph.CompletionBlocksExactly | c4harness/delegator/scheduler.py:301-341 | after every completion a node is blocked if and only if some ancestor failed, and no executed node's state is touched |
| RunGraph.TopologicalIsSound | c4harness/delegator/scheduler.py:283-290 | the execution order has no repeats and lists every `requires` source first |
| RunGraph.StuckNeverRuns | c4harness/application/run_graph.py:166-178 | a node on or below a cycle never starts |
| RunGraph.ExecutedWalk | c4harness/delegator/scheduler.py:257-272 | every ancestor of a started node has succeeded |
| RunGraph.PendingWithoutReadyIsStuck | c4harness/application/run_graph.py:168-178 | with nothing running and nothing ready, every pending node is on or below a cycle |
| RunGraph.ReadyAsTheGraphSays | c4harness/core/graph.py:331-342 | the scheduler's and the contract graph's notions of ready agree on pending nodes |
| RunGraph.AcyclicAlwaysReady | c4harness/application/run_graph.py:166-178 | progress: in an acyclic graph the branch without ready nodes is unreachable while something is pending |
| RunGraph.BlockingTheRestIsFinal | c4harness/application/run_graph.py:168-178 | blocking what is left gives exactly the final states, also for cyclic graphs |
| RunGraph.Complete | c4harness/application/run_graph.py:239-256 | one completion is `Completed`, never raising |
| RunGraph.StartBatch | c4harness/application/run_graph.py:207-209 | marking the whole batch first never raises and starts exactly the batch |
| RunGraph.DrainBatch | c4harness/application/run_graph.py:232-256 | in every completion order nothing raises, nothing is left running, and nothing becomes pending |
| RunGraph.BlockRemaining | c4harness/application/run_graph.py:168-178 | exactly the pending nodes become blocked, never raising |
| RunGraph.RunReady | c4harness/application/run_graph.py:180-256 | one iteration starts between one and `max_parallel` nodes, beginning with the first ready one, and strictly decreases the pending nodes |
| RunGraph.BlockAndFinish | c4harness/application/run_graph.py:166-178 | a run in which nothing is ready ends terminal, in the final states, with a sound order |
| RunGraph.Execute | c4harness/application/run_graph.py:147-258 | for every graph, runner and bound the run ends; the result is terminal, no transition raised, the states are exactly `FinalStates`, and the order is sound and holds exactly the succeeded and failed nodes |
| RunGraph.BlockedByDirectSource | c4harness/delegator/scheduler.py:301-341 | off the cycles a node is blocked if and only if a direct source did not succeed |
| RunGraph.Confluence | c4harness/application/run_graph.py:180-256 | two runs over the same graph and runner have the same final states |
| RunGraph.SequentialEqualsParallel | c4harness/application/run_graph.py:180-256 | the sequential run and any parallel run end in the same states |
| RunGraph.RunnerDecides | c4harness/application/run_graph.py:187-199 | in a dry run every node off the cycles succeeds; otherwise success means that the runner returned it, and failure that it did not |
| RunGraph.DeadlockMeansCycle | c4harness/delegator/scheduler.py:98-132 | the deadlock flag of a finished run means a cycle without a failed node; it is never set for an acyclic graph |
| Text.JoinOfSplit | c4harness/integrator/patches.py:520 | splitting a text into lines loses nothing and only the last line may lack its newline |
| Text.SplitOfJoin | c4harness/integrator/patches.py:659-667 | joining lines and splitting again gives the lines back |
| Text.DigitsOfDecimal | c4harness/integrator/patches.py:501-503 | reading a printed number gives it back |
| Text.RStripAllBreaks | c4harness/integrator/patches.py:528 | exactly the trailing line breaks of a header are dropped |
| UnifiedDiff.PartsOfSlash | c4harness/integrator/patches.py:635-644 | the components of a name are those between its slashes, without empty ones and `.` |
| UnifiedDiff.SpliceLength | c4harness/integrator/patches.py:558-621 | the resulting line count is the original's plus the produced minus the consumed lines |
| UnifiedDiff.StepBody | c4harness/integrator/patches.py:579-611 | every body line consumes input and never moves the source cursor back or past the end |
| UnifiedDiff.ParseHunks | c4harness/integrator/patches.py:558-621 | over a whole file the cursors never move back |
| DiffProofs.ReadPrintedHeader | c4harness/integrator/patches.py:501-503 | a printed hunk header is read back with its ranges |
| DiffProofs.ReadHeaderAndHeading | c4harness/integrator/patches.py:501-503 | a section heading after a blank changes no field of a hunk header; anything else after the ranges makes it none |
| DiffProofs.BodySound | c4harness/integrator/patches.py:579-611 | an accepted hunk body is an edit list whose old lines are the original's lines between the cursors and whose new lines are what was appended |
| DiffProofs.BodyKeepsHeaders | c4harness/integrator/patches.py:579-585 | a hunk body swallows no hunk header |
| DiffProofs.HunksSound | c4harness/integrator/patches.py:558-621 | an accepted hunk sequence is a list of in-order hunks that fits the original, one per header, at the announced places and with the announced counts |
| DiffProofs.ParserSound | c4harness/integrator/patches.py:530-629 | every accepted file part that creates or modifies carries the original with each hunk's old lines replaced by its new lines and everything else unchanged, one hunk per header at the place and with the counts it announces, and the line count the hunks imply |
| DiffProofs.PatchSound | c4harness/integrator/patches.py:506-632 | every accepted patch consists of file parts, one for each operation and in their order, with only blank lines before the first, none overlapping, and each operation is its part's original with that part's hunks, so that the parser drops, invents and reorders nothing |
| DiffProofs.BodyRoundTrip | c4harness/integrator/patches.py:579-611 | a printed hunk body is read back if and only if none of its lines reads as a file header |
| DiffProofs.HunksRoundTrip | c4harness/integrator/patches.py:558-621 | printed hunks are read back, with the same condition |
| RoundTrip.FileRoundTrip | c4harness/integrator/patches.py:458-498 | one printed file is parsed to its intended operation, with the same condition, including created, deleted and empty files |
| RoundTrip.FilesRoundTrip | c4harness/integrator/patches.py:521-632 | a concatenation of printed files is parsed to the concatenated operations, with the same condition |
| RoundTrip.PatchRoundTrip | c4harness/integrator/patches.py:506-632 | for any valid differences of any files: the text parses to the intended operations if and only if there is one, no binary marker occurs and no deleted line starts with `-- ` |
| Grouping.GroupIsValid | c4harness/integrator/patches.py:490-495 | grouping any edit script with three lines of context gives hunks that fit the old lines, splice to the new ones, and are anchored |
| Grouping.SharedHunkExactly | c4harness/integrator/patches.py:490-495 | two changes with only kept lines between them share a hunk if and only if at most six lines separate them |
| Grouping.FirstHunkStarts | c4harness/integrator/patches.py:490-495 | the first hunk starts three lines before the first change, or at the first line |
| Grouping.GroupKeepsChanges | c4harness/integrator/patches.py:490-495 | grouping keeps every deleted line that reads as a header |
| Grouping.NoGroupsNoChanges | c4harness/integrator/patches.py:490-495 | a script without groups changes nothing |
| Grouping.ScriptGivesValidHunks | c4harness/integrator/patches.py:490-495 | so the groups of any script are a valid difference |
| Grouping.DiffRoundTrip | c4harness/integrator/patches.py:458-498 | for any old and new text and any edit script between them, parsing the generated diff yields exactly the one operation with the new text, if and only if the stated condition holds |
| Grouping.DeletedDashDashFails | c4harness/integrator/patches.py:582 | deleting the line `-- x` is not parsed back |
| Grouping.BinaryTextFails | c4harness/integrator/patches.py:518 | a new file with the one line `Binary files ` is not parsed back |
| Grouping.UnanchoredLandsEarly | c4harness/integrator/patches.py:572-577 | a context-free insertion after the first line is applied one line early |
| Joining.JoinedRoundTrip | c4harness/delegator/backends/external_cli.py:312-322 | for any valid differences of any files: the text in which a worker joins their diffs with blank lines parses to the intended operations if and only if something changed, no binary marker occurs, no deleted line reads as a header, and no changed file but the last has hunks; otherwise it is refused |
| Joining.TwoEditedFilesAreRefused | c4harness/delegator/backends/external_cli.py:312-322 | in particular the patch of a worker that edits two files is always refused |
| Joining.BlankExactly | c4harness/integrator/patches.py:524-525 | lines of blanks and tabs are blank, printed lines are not |
| Joining.BlanksAfterHeaders | c4harness/integrator/patches.py:558-565 | a file part reads the same with blank lines after its headers as without, whatever follows |
| Joining.BlanksInFront | c4harness/integrator/patches.py:523-526 | so does a patch with blank lines in front |
| Joining.HeaderOnlyPartBeforeBlank | c4harness/integrator/patches.py:558-616 | a part without hunks, for an empty file created or deleted, is read to its intended operation across the blank line before the next part |
| Joining.EditedPartBeforeBlank | c4harness/integrator/patches.py:608-610 | a part with hunks is refused when a blank line follows it |
| Grammar.AcceptedExactly | c4harness/integrator/patches.py:506-632 | a text is accepted with given operations if and only if it has no binary marker and its lines are blank lines followed by one part for each operation: two headers that name its target, blank lines, and hunks whose ranges, counts, prefixes and markers spell edits that fit the original and make the operation |
| Grammar.TargetExactly | c4harness/integrator/patches.py:538-557 | two headers name a target if and only if each is the null device or a safe name of its path, not both are the device, and a file that is not created is there and recorded; then the kind, the original and the expected state are these |
| Grammar.NamesExactly | c4harness/integrator/patches.py:635-644 | a label is taken for a path if and only if it is a safe name of it, behind at most one `a/` or `b/` |
| Grammar.LabelExactly | c4harness/integrator/patches.py:635-644 | behind such a prefix exactly the relative names without a `..` component are taken |
| Grammar.StepUpIsRefused | c4harness/integrator/patches.py:642-643 | a name with a step up anywhere in it is never taken |
| Grammar.MarkersExactly | c4harness/integrator/patches.py:517-518 | a text is taken for binary if and only if one of the two words occurs in it |
| Parser.ReadLine | c4harness/integrator/patches.py:586-611 | one iteration of the body loop is `StepBody` |
| Parser.ReadBody | c4harness/integrator/patches.py:579-611 | the body loop computes `ParseBody` |
| Parser.ReadOneHunk | c4harness/integrator/patches.py:566-621 | one hunk with its count checks is `ReadHunk` |
| Parser.ReadNext | c4harness/integrator/patches.py:558-621 | one iteration of the hunk loop is `StepHunks` |
| Parser.ReadHunks | c4harness/integrator/patches.py:558-621 | the hunk loop computes `ParseHunks` |
| Parser.ReadFile | c4harness/integrator/patches.py:530-629 | one file's headers and hunks are `ParseFile`, stopping where it stops |
| Parser.ParseUnifiedDiff | c4harness/integrator/patches.py:506-632 | the nested loops over a line index compute `ParsePatch`, errors included, and return given operations if and only if the text spells them in the grammar |
| Workspace.RecordFollowsTree | c4harness/integrator/patches.py:377-419 | the recorded file states keep equal to a rescan of the tree for non-excluded paths |
| Workspace.OnlyTargetsChange | c4harness/integrator/patches.py:377-419 | no file outside the operations' paths changes |
| Workspace.TargetsTakeEffect | c4harness/integrator/patches.py:377-419 | every operation of a patch takes effect: its target is gone, or has the new content and the directories above it |
| Workspace.ApplicableExactly | c4harness/integrator/patches.py:281-375 | on a tree whose scan is recorded a patch is admitted if and only if it is not empty, its targets are distinct and writable, and each operation is possible: a created file is not there, has content and expects nothing, a changed or deleted one is there with the expected content, and a changed one has content |
| Workspace.AllowedExactly | c4harness/integrator/patches.py:421-437 | a path is writable if and only if it has no `..` and is an allowed path or below an allowed directory |
| Workspace.ExcludedAnywhere | c4harness/integrator/workspace.py:371-379 | a path is excluded if and only if some component of it is |
| Workspace.ExcludedIsUnseen | c4harness/integrator/workspace.py:371-379 | what changes below an excluded directory changes no recorded state |
| Workspace.DisjointPatchesCommute | c4harness/integrator/patches.py:377-419 | patches with disjoint targets give the same tree in either order |
| Workspace.CommitOrderIrrelevant | c4harness/integrator/service.py:122-127 | any permutation of pairwise disjoint patches gives the same tree |
| Workspace.NonOverlappingPatchesDisjoint | c4harness/integrator/patches.py:421-437 | patches admitted under non-overlapping write sets touch disjoint files |
| Workspace.AdmissionUnaffected | c4harness/integrator/patches.py:281-375 | committing a patch under one write set does not change whether a patch under a non-overlapping one is admitted |
| Reservations.ReserveKeepsExclusive | c4harness/integrator/conflicts.py:112-158 | reserving after the check leaves no overlap between different nodes |
| Reservations.ReserveThenRelease | c4harness/integrator/conflicts.py:178-191 | releasing a node undoes its reservation |
| Reservations.WriteReservationManager.constructor | c4harness/integrator/conflicts.py:93-99 | nothing reserved, empty log |
| Reservations.WriteReservationManager.Reserve | c4harness/integrator/conflicts.py:112-158 | all or nothing: raises exactly on an invalid or conflicting path and then changes nothing; keeps active reservations exclusive and equal to what the log leaves active |
| Reservations.WriteReservationManager.IsRefused | c4harness/integrator/conflicts.py:138-147 | the check over all paths, before anything is recorded |
| Reservations.WriteReservationManager.RecordAll | c4harness/integrator/conflicts.py:149-158 | all paths become active for the node and the log only grows |
| Reservations.WriteReservationManager.Release | c4harness/integrator/conflicts.py:160-176 | releases exactly the named path of the named node |
| Reservations.WriteReservationManager.ReleaseNode | c4harness/integrator/conflicts.py:178-191 | releases and counts exactly the node's paths |
| Reservations.HoldableNeverRefused | c4harness/application/run_graph.py:368-370 | in every interleaving of the nodes of a batch whose write paths resolve to non-overlapping sets each reservation succeeds, and what is left is held by who has not released |
| Reservations.RefusedTrace | c4harness/integrator/service.py:81-85 | every other batch has an interleaving that is refused a reservation |
| Reservations.NeverRefusedExactly | c4harness/integrator/service.py:81-85 | no interleaving of a batch is ever refused if and only if every write path resolves and the resolved write sets of different members do not overlap |
| Reservations.RunNeverRefusedExactly | c4harness/application/run_graph.py:200-205 | over a whole run, in all interleavings of its batches, no reservation is refused and none is left at the end if and only if every batch meets that condition |
| Reservations.SelectedIsHoldable | c4harness/delegator/scheduler.py:164-181 | a selected batch whose paths have no `..` meets that condition |
| Reservations.SelectedMayBeRefused | c4harness/delegator/scheduler.py:164-218 | of two nodes that write `src/../lib` and `lib`, selection takes both and the second reservation is refused |
| Integrator.IntegrationSnapshot.constructor | c4harness/integrator/workspace.py:198-333 | a fresh snapshot holds exactly the copied source files and directories, records exactly those files, and has nothing pending |
| Integrator.CopySource | c4harness/integrator/workspace.py:248-314 | the copying loop takes over every file with its content and every empty directory, but for excluded and skipped ones, and records exactly the files |
| Integrator.CopyEntry | c4harness/integrator/workspace.py:248-314 | one entry of the source tree |
| Integrator.CopyExactly | c4harness/integrator/workspace.py:248-314 | a copy holds a file if and only if the source has it and it is not excluded or skipped, and a directory if and only if it is the root, above a copied file, or at or above an empty directory that is not excluded or skipped |
| Integrator.PatchApplier.ValidateAll | c4harness/integrator/patches.py:183-205 | no issue if and only if every operation validates and no target repeats |
| Integrator.PatchApplier.BuildTree | c4harness/integrator/patches.py:377-419 | unless a write fails, the transaction tree and the new states are the operations applied to the old ones |
| Integrator.PatchApplier.Apply | c4harness/integrator/patches.py:162-244 | succeeds if and only if nothing is pending, the patch is applicable and no step fails; then exactly the operations are applied and the old tree is retained; on failure states, pending transaction and workspace are unchanged, except in the one case that loses the workspace |
| Integrator.PatchApplier.Swap | c4harness/integrator/patches.py:227-237 | the new tree is in place, or the old one is back, or both attempts to move it back failed |
| Integrator.PatchApplier.Commit | c4harness/integrator/patches.py:246-253 | raises exactly when another transaction is pending; otherwise drops exactly the retained tree and leaves the workspace and the states alone |
| Integrator.PatchApplier.Rollback | c4harness/integrator/patches.py:255-275 | done exactly when the transaction is this one's and no step fails; then the old tree is back, rescanned, and nothing is pending; otherwise the transaction stays pending and the whole disk is determined by the step that failed; raises exactly on a foreign transaction or such a step |
| Session.GraphIntegrationSession.constructor | c4harness/integrator/service.py:35-43 | the lock is free and nothing is reserved |
| Session.GraphIntegrationSession.ApplyProposal | c4harness/integrator/service.py:90-120 | accepted if and only if nothing is pending and the proposal is admissible (on a settled workspace: `Workspace.ApplicableExactly`); then it holds the lock over one pending transaction whose patch was parsed, admitted and applied; every other outcome, exceptions included, frees the lock, opens nothing, and leaves the shared state as it was but for a workspace lost exactly when `Ruinous`; it reports drift exactly when the write paths resolve and the source drifted |
| Session.GraphIntegrationSession.PostVerificationIssues | c4harness/integrator/service.py:129-149 | no issue if and only if the scan of the workspace equals the recorded states |
| Session.GraphIntegrationSession.Commit | c4harness/integrator/service.py:122-127 | frees the lock even if it raises; for the holder it never raises and keeps the tree |
| Session.GraphIntegrationSession.Rollback | c4harness/integrator/service.py:151-157 | frees the lock even if it raises; when done, the retained tree and its states are back; when it fails, the transaction stays pending and which tree is in place follows from the failing step |
| Session.GraphIntegrationSession.ReleaseAttemptLock | c4harness/integrator/service.py:159-162 | frees the lock exactly when this attempt holds it |
| Proposal.ProposeChanges | c4harness/integrator/service.py:90-120 | the patch a worker generates for its changes, proposed on a settled workspace, is accepted if and only if it can be read back, nothing outside fails, the write paths resolve, every changed file is distinct and writable, and a file is there exactly when it is not said to be new; then every changed file has its new text or is gone, and nothing else visible changed |
| Proposal.GeneratedIsAdmissible | c4harness/integrator/service.py:90-120 | the same condition for the proposal to be admissible, and the operations it is read as |
| Interleaving.StepKeepsInv | c4harness/integrator/service.py:90-162 | every step of every thread, with arbitrary verifier writes and failing rollbacks, keeps the invariant |
| Interleaving.RunKeepsInv | c4harness/integrator/service.py:90-162 | so the invariant holds in every reachable state |
| Interleaving.Serializable | c4harness/integrator/service.py:90-162 | in every reachable state at most one thread is in a transaction, the lock is held exactly by it, every committed patch was admissible where it stands, and whenever none is pending the workspace and the records equal the initial snapshot with the committed patches applied in commit order |
| Interleaving.PendingMeansLocked | c4harness/integrator/service.py:151-157 | a transaction is pending if and only if the lock is held or a failed rollback was not repaired |
| Interleaving.SerialIsReplay | c4harness/integrator/service.py:122-127 | the serial state is the replay of the committed patches |
| Interleaving.CommitOrderOfRunsIrrelevant | c4harness/integrator/service.py:122-127 | two runs that committed the same pairwise disjoint patches in any order end with the same visible workspace |
| Simulation.ApplyIsStep | c4harness/integrator/service.py:90-120 | applying a proposal is a step of the interleaving machine: it opens a transaction, or fails and loses the workspace exactly when `Ruined` |
| Simulation.CheckIsStep | c4harness/integrator/service.py:129-149 | a comparison without issues is a step |
| Simulation.CommitIsStep | c4harness/integrator/service.py:122-127 | a commit by the holder after the comparison never raises and is a step |
| Simulation.RollbackIsStep | c4harness/integrator/service.py:151-157 | a rollback is a step whether it is done or fails, from inside the transaction or later without the lock |
| Verdict.RunDeterministicChecks | c4harness/verifier/executable.py:847-877 | the loop halts at the first blocked check and reports exactly the failures of the reached checks, with one issue line for each, in order, naming its check |
| Verdict.RunOpenChecks | c4harness/verifier/executable.py:879-908 | the evidence requirements and, unless they are blocked, the semantic check, which is always inconclusive: exactly these failures, the checks the issues name, and the flags that decide the verdict |
| Verdict.ExecuteChecks | c4harness/verifier/executable.py:841-930 | the verdict is determined by the outcomes of all checks, reached or not; the failures, and the checks the issues name, are exactly those of the reached ones |
| Verdict.HaltingRunFindsWorst | c4harness/verifier/executable.py:841-930 | halting early finds the class of the worst check over the whole contract |
| Verdict.CombineKeepsWorst | c4harness/verifier/phases.py:133-152 | merging keeps the worst class |
| Verdict.CombineOrderIrrelevant | c4harness/verifier/phases.py:133-152 | the merged class does not depend on the order of the phases |
| Verdict.SplitWorst | c4harness/verifier/phases.py:22-46 | the worst check is the worse of the two phases' worst |
| Verdict.SplitPreservesClass | c4harness/verifier/phases.py:31-46 | splitting a contract preserves the class it deserves |
| Verdict.VerdictHasWorstClass | c4harness/verifier/executable.py:910-922 | the verdict of a run has the worst class, and is `high` exactly with deterministic checks |
| Verdict.SplitPreservesVerdict | c4harness/verifier/phases.py:133-152 | two halting phases merged have the class and the acceptance of one halting run over the unsplit contract; the confidence is the same if and only if the stated condition holds |
| Verdict.SplitLosesHigh | c4harness/verifier/phases.py:133-152 | a contract with the one check `tests_pass` is `high` in one run and `medium` when split |
| Verdict.NameBeforeColon | c4harness/verifier/phases.py:27-28 | the name of a check expression is what comes before its first colon, whatever the argument |
| Verdict.PhaseOfCheck | c4harness/verifier/phases.py:31-46 | a check belongs to the proposal phase if and only if its name is one of three, with or without an argument |
| Verdict.PhasePassesExactly | c4harness/verifier/phases.py:31-46 | a phase passes if and only if every check whose name belongs to it does, and in the second phase the evidence is there and no semantic check is asked |
| Verdict.CombinedReportsBoth | c4harness/verifier/phases.py:133-152 | the merged verdict reports exactly what both report, the first one first |
| Verdict.CombinedAccepted | c4harness/verifier/phases.py:145-152 | two verdicts of runs merge into an accepted one if and only if both are accepted |
| Replan.RetryExactly | c4harness/decompose/replan.py:182-285 | a further attempt is decided if and only if attempts are left, nothing outside the verdict speaks against it, the verdict is not accepted and every failure is repairable |
| Replan.ActionExactly | c4harness/decompose/replan.py:182-285 | each action if and only if its condition on the verdict, the markers and the attempt holds: the fallback worker exactly when there is one, the same worker exactly when there is none, more context, a revised contract, a stop, or nothing at all |
| Replan.ReasonExactly | c4harness/decompose/replan.py:88-154 | each reason if and only if its marker or the first hard failure gives it, or no hard failure exists |
| Replan.DecisionAfterRun | c4harness/decompose/replan.py:182-285 | what a run of the checks in which nothing was stopped leads to: more context for unproven evidence, a revised contract for another open judgement, another attempt for a plain rejection, and the main agent after the last attempt |
| Replan.SplitReports | c4harness/verifier/phases.py:31-46 | when nothing is stopped the two phases report the same failures as one run, none lost and none invented |
| Replan.SplitKeepsDecision | c4harness/decompose/replan.py:182-285 | so the merged verdict leads to the same step as one run over the unsplit contract |
| Replan.StoppedDecides | c4harness/decompose/replan.py:110-131 | a check stopped for a hard reason gives the reason alone, whatever was rejected or left unproven before it |
| Replan.RetryIgnoresFailureOrder | c4harness/decompose/replan.py:157-179 | whether and with which worker to retry is invariant under permuting the failures |
| Replan.ReasonDependsOnOrder | c4harness/decompose/replan.py:88-154 | the reason, and whether the run stops or escalates, can depend on the order |
| Replan.ReasonIgnoresOrderExactly | c4harness/decompose/replan.py:88-154 | the reason is the same in every order of the failures if and only if the verdict is accepted, a marker is set, or all hard failures share one category |
| Replan.ActionIgnoresOrderExactly | c4harness/decompose/replan.py:182-285 | what is done next is the same in every order if and only if the verdict is accepted, a marker is set, or the hard failures all call for the same step |
| Replan.HardReasonMeansHardFailure | c4harness/decompose/replan.py:110-131 | a hard reason is found if and only if a policy, environment, conflict or missing-context failure exists |
| Replan.OnlyPlainRejectionsAreRetried | c4harness/decompose/replan.py:182-285 | a verdict of the checks is retried, attempts permitting, if and only if something was rejected and nothing was blocked, unproven or left to human judgement |
| RunNode.VerifyPhase | c4harness/verifier/phases.py:49-130 | a failed worker result is low and retryable, a violating one blocked with policy failures only; otherwise the phase accepts if and only if the worst of its checks passes; an accepted phase means success without violations |
| RunNode.PatchSucceedsExactly | c4harness/application/run_graph.py:396-562 | an attempt that proposes a patch succeeds if and only if nothing raises, the worker reports success without violations, every check of the contract passes in the phase of its name, the evidence is there and no semantic check is asked, the patch is admissible, changes exactly the reported paths, and the checks leave nothing else behind |
| RunNode.AnalysisSucceedsExactly | c4harness/application/run_graph.py:387-395 | any other attempt succeeds if and only if nothing raises, the worker reports success without violations, every check that does not belong to a proposal passes, the evidence is there and no semantic check is asked |
| RunNode.VerifyIntegrated | c4harness/application/run_graph.py:463-531 | an integrated patch is accepted if and only if exactly the reported paths changed, the checks accept and nothing but the patch is left behind; every other verdict names the first of these that failed and rolls the patch back |
| RunNode.PhasedVerifier | c4harness/application/run_graph.py:387-531 | accepts if and only if `VerifierAccepts`, with the verdict of the first failing step otherwise; the lock is held only with an open transaction; a transaction it opened is rolled back, still open, or stuck after a failed rollback, exactly as the faults say, and nothing else changes but for a workspace lost exactly when `Ruins`; a result that is no success or violates the write paths is never accepted and touches nothing |
| RunNode.Dispatch | c4harness/delegator/runtime.py:121-147 | exceptions of the verifier and of the hooks around it become a lifecycle verdict, never an accepted one |
| RunNode.RollBackInside | c4harness/application/run_graph.py:463-527 | a rollback by the verifier settles the workspace again, or raises and leaves the transaction as the failing step determines |
| RunNode.CommittedIsApplied | c4harness/application/run_graph.py:558-562 | a verified commit leaves the visible workspace as the base with the patch applied |
| RunNode.RunAttempt | c4harness/application/run_graph.py:533-570 | on the settled workspace an attempt succeeds if and only if `AttemptSucceeds`, and then exactly the worker's patch is committed; it leaves a transaction pending if and only if it opened one, did not succeed, and no rollback of it succeeded (`LeavesPending`); an exception escapes if and only if a hook, the ledger or its own rollback raises; otherwise the workspace is settled again; on every exit the lock is free; success implies a successful result without violations and hands on its evidence, and a conflict is reported exactly when the attempt met drift |
| RunNode.Conclude | c4harness/application/run_graph.py:533-570 | the attempt is committed exactly when it was accepted and recorded, and rolled back otherwise |
| RunNode.CommitAttempt | c4harness/application/run_graph.py:558-562 | the committed workspace is the base with the one admitted patch |
| RunNode.CloseAttempt | c4harness/application/run_graph.py:544-570 | whatever the attempt left open is rolled back; with nothing open it does nothing, and after a rollback that already failed beyond repair the transaction stays pending |
| RunNode.DecisionIsJustified | c4harness/application/run_graph.py:578-618 | a retry implies attempts left, no conflict, no policy block and only repairable failures; it goes to the fallback worker if and only if there is one other than the current; a rejected attempt always gets a decision, never one that needs a graph mutation |
| RunNode.RetryByCause | c4harness/application/run_graph.py:407-527 | source drift, unreported paths, verifier side effects and lifecycle exceptions are never retried; a missing or refused patch is, exactly while attempts are left |
| RunNode.DecisionByCause | c4harness/application/run_graph.py:407-527 | the decision on each of them: drift and foreign changes go to the main agent, for a conflict or for permission, exceptions stop the node, and a missing or refused patch goes to the fallback worker, the same worker, or after the last attempt to the main agent |
| RunNode.AttemptAndDecide | c4harness/delegator/runtime.py:121-147 | after an attempt nothing is decided on success or an exception, otherwise exactly `NextDecision`; drift decides first, then a violation, then an exception of the environment; exceptions escape only from hooks, the ledger or the fallback selection; an attempt that violates its write paths is never retried |
| RunNode.Report | c4harness/application/run_graph.py:553-618 | the loop goes on if and only if the decision is a retry, and the finished report is well formed |
| RunNode.TryOnce | c4harness/application/run_graph.py:371-618 | one pass of the loop: the next attempt goes to the fallback worker exactly after a decision to select another, and otherwise to the same worker; no violation is followed by another attempt |
| RunNode.AttemptLoop | c4harness/application/run_graph.py:371-618 | at most `max_attempts` dispatches, each further one after a justified retry, stopping only at another decision; from the settled workspace, whatever the faults, the run succeeds if and only if its last attempt does, no earlier attempt would have, and the workspace and the pending transaction are what that last attempt leaves; the worker changes exactly after a decision to select another and then is the fallback; a success is of a result without violations and reports its evidence |
| RunNode.RunNode | c4harness/application/run_graph.py:358-631 | additionally, on every exit the lock is free and the node holds no reservation while all others are as before; a transaction is pending if and only if the last attempt left one; it never dispatches if and only if its write paths cannot all be resolved and reserved |
| RunNode.FailedRollbackStaysPending | c4harness/integrator/patches.py:255-275 | after a rollback the lock is free, and nothing is pending if and only if no step failed |
| Root.ComputeAcceptedNodes | c4harness/verifier/root.py:402-417 | exactly the nodes that succeeded with an accepted verification |
| Root.UncoveredRequirements | c4harness/verifier/root.py:419-444 | empty if and only if every required requirement and every constraint has an accepted covering node |
| Root.CriterionStatuses | c4harness/verifier/root.py:446-567 | whether some criterion is uncovered, and whether some is undecided |
| Root.SemanticByName | c4harness/verifier/root.py:484-487 | a criterion is semantic if and only if the name before its first colon is no deterministic check |
| Root.CoveredWithoutDecision | c4harness/verifier/root.py:489-567 | without a decision it is covered if and only if it is deterministic by name and its requirements have accepted nodes, or, having none, any node is accepted; undecided if and only if it is semantic by name |
| Root.DetectArtifactConflicts | c4harness/verifier/root.py:590-609 | a conflict if and only if two accepted nodes claim one evidence path |
| Root.Verify | c4harness/verifier/root.py:178-366 | for each confidence exactly when it is given; accepted if and only if `high` |
| Root.AloneAcceptsRefutedNode | c4harness/verifier/root.py:402-417 | a succeeded node with a rejected verdict does not stop acceptance |
| Root.AloneAcceptsPendingNode | c4harness/verifier/root.py:371-387 | a node that never ran does not stop acceptance |
| Root.AllAcceptedExactly | c4harness/verifier/root.py:371-417 | a healthy graph without issues has every node accepted if and only if its run finished and no node succeeded under a rejected verdict |
| GraphExecution.NodeRunsAreSound | c4harness/application/run_graph.py:755-781 | whatever a node run reports of itself (`RunNode.RunNode`) is a sound report: a success has its accepted verdict |
| GraphExecution.AllNodesProved | c4harness/application/run_graph.py:755-781 | in a healthy finished run every node succeeded and was accepted by its own verification |
| GraphExecution.AcceptanceIsFull | c4harness/verifier/root.py:207-366 | then acceptance means `FullyProved` |
| GraphExecution.FullIsAccepted | c4harness/verifier/root.py:207-366 | conversely nothing stops the acceptance of a fully proved graph |
| GraphExecution.Execute | c4harness/application/run_graph.py:633-657 | the report is accepted if and only if it was no dry run, every node succeeded with an accepted verification, every required requirement and constraint has an accepted covering node, every semantic criterion an explicit approval, every other criterion accepted nodes for its requirements, no evidence path has two owners, and no node relies on a self-report alone |
| History.BuildCapabilityProfile | c4harness/history/profiles.py:30-75 | the counting loops give one sorted evidence entry per dimension met, with the tally's counts |
| History.CountersAreExact | c4harness/history/profiles.py:30-75 | each counter of each dimension is the number of the worker's pairs with that status, successes and failures only of those not excluded, and tokens and latency their sums |
| History.ProfiledDimensions | c4harness/history/profiles.py:36-37 | a profile has exactly the dimensions of the worker's outcomes, `general` for those without |
| History.CountsAreConserved | c4harness/history/profiles.py:30-75 | in every dimension success, failure, inconclusive and excluded counts add up to the number of (outcome, dimension) pairs |
| History.Assign | c4harness/decompose/assignment.py:96-153 | the eligible worker with the highest score, the smallest id among those with that score; none exactly when nobody is eligible |
| History.BestIsUnique | c4harness/decompose/assignment.py:143-144 | the choice is unique |
| History.BlamelessIsExcluded | c4harness/history/attribution.py:70-100 | a verdict naming a policy, environment, conflict, missing-context or contract failure is attributed outside the worker |
| History.SuccessExactly | c4harness/history/attribution.py:103-238 | an outcome is a success if and only if there was no exception and no violation, the worker reports success, and the verdict, if any, is accepted |
| History.FailureExactly | c4harness/history/attribution.py:103-238 | it counts as a failure of the worker if and only if an exception of no special kind was raised, the result did not succeed, or the rejection points at the worker |
| History.AttributionExactly | c4harness/history/attribution.py:70-100 | whom a rejected verdict with structured failures is put down to, in the order of its categories, the worker last |
| History.EarlyAttribution | c4harness/history/attribution.py:20-35 | exceptions are attributed by their kind, and violations to permission, before any verdict |
| History.MissingFileIsContext | c4harness/history/attribution.py:73-85 | a rejected check of an absent file is put down to missing context, whatever its path and whatever else failed |
| History.ExcludedMovesNothing | c4harness/history/profiles.py:45-60 | an excluded outcome moves no success or failure count |
| History.SignalDependsOnCounts | c4harness/decompose/assignment.py:74-84 | two profiles with the same counts give the same successes and samples, even if one has more dimensions |
| History.SignalIsExact | c4harness/decompose/assignment.py:74-84 | the history signal is the share of successes among the worker's successes and failures in the dimensions that matter, with their number |
| History.FailureLowersExactly | c4harness/decompose/assignment.py:126-136 | a further failure lowers the score if and only if the worker has a success or no history |
| History.SuccessRaises | c4harness/decompose/assignment.py:126-136 | a further success always raises it |
| History.FurtherOutcome | c4harness/decompose/assignment.py:74-136 | so one more outcome in a dimension that matters moves the score up or down, exactly under these conditions |
| History.BlamelessFailureKeepsScore | c4harness/history/attribution.py:159-217 | appending a blameless failure changes no success or failure count and not the history signal |
| History.AssignmentFollowsSignals | c4harness/decompose/assignment.py:96-153 | with equal signals the same worker is assigned |
| Inbox.RunKeepsConsistent | c4harness/memory/store.py:150-178 | in every reachable state keys are unique and each event has at most one inbox row, of its own task |
| Inbox.UnreadIffQueued | c4harness/delegator/async_runtime.py:202-245 | in an agreeing state a row is unread if and only if its event is queued |
| Inbox.StepAgreement | c4harness/delegator/async_runtime.py:202-336 | one operation keeps the agreement if and only if it is not a late request |
| Inbox.TablesMatchHistory | c4harness/delegator/async_runtime.py:202-245 | a key has an event if and only if it was recorded, and a row if and only if some record asked for it |
| Inbox.AgreementExactly | c4harness/delegator/async_runtime.py:202-336 | events and inbox agree throughout a run if and only if no call asks late |
| Inbox.FixedFlagsAgree | c4harness/delegator/async_runtime.py:776-777 | with one inbox flag per key they always agree |
| Inbox.LateRequestDisagrees | c4harness/delegator/async_runtime.py:276-304 | otherwise they may not: acknowledging the row then leaves the event as it was, acknowledging the task repairs it |
| Inbox.AcknowledgementIsPermanent | c4harness/delegator/async_runtime.py:276-336 | from any state on, an acknowledged event or row stays acknowledged |
| Inbox.AcknowledgementClears | c4harness/delegator/async_runtime.py:306-336 | acknowledging a task leaves it no unread row and every other task its own |
| Inbox.ClaimsUsePendingStatus | c4harness/delegator/async_runtime.py:151-162 | every successful claim uses up one pending status, initial or written back by an update |
| Inbox.OneClaimWins | c4harness/delegator/async_runtime.py:151-162 | at most one claim succeeds while nobody writes the status back |
| Inbox.AsyncTaskStore.ClaimTask | c4harness/delegator/async_runtime.py:151-162 | wins exactly on a pending task, which then runs |
| Inbox.AsyncTaskStore.RecordEvent | c4harness/delegator/async_runtime.py:202-245 | inserts exactly a new key, and an inbox row exactly when asked and none exists |
| Inbox.AsyncTaskStore.AcknowledgeInbox | c4harness/delegator/async_runtime.py:276-304 | found exactly for an existing row; acknowledges it and its open event |
| Inbox.AsyncTaskStore.AcknowledgeTask | c4harness/delegator/async_runtime.py:306-336 | returns exactly the unread count it clears and touches no other task's rows |
| Inbox.RowAcknowledgementExactly | c4harness/delegator/async_runtime.py:276-304 | acknowledging a row from any state reads this row, acknowledges its event unless that asked for no callback, and changes nothing else |
| Inbox.TasksAreCreated | c4harness/delegator/async_runtime.py:117-137 | a task exists if and only if some operation created it |

## Left out

- Line separators other than `\n`: texts are required to contain none of the others (`Text.PlainText`), and digits in hunk headers are ASCII.
- The internals of difflib: any edit script between the two texts, grouped with three lines of context, stands for its result.
- The rest of c4harness/delegator/backends/external_cli.py: which files a worker changed, and whether it may, are given.
- SHA-256: a recorded file state is the content itself, so hashes are injective.
- Symbolic links, `Path.resolve` on the real filesystem, sockets, permissions and temporary names: paths are lexical component lists, and a symbolic link found is a flag of the environment.
- Paths.Resolve: a relative path that climbs out of the repository and comes back in under its own name counts as outside; the name of the repository directory is not modelled.
- Integrator.IntegrationSnapshot.constructor: symbolic links, special files and unreadable files are one given set of skipped entries; the error texts and the counts of the copy are left out.
- Filesystem errors caused by the tree itself (a file where a directory is needed): every write may fail, so they are among the failures considered.
- Applying a patch without retaining the old tree (`retain_rollback=False`), which the graph executor does not use.
- Integrator.PatchApplier.Apply: failed operations and violations are one list of issues, and their texts are not modelled.
- Source drift in `detect_conflicts` (c4harness/integrator/conflicts.py:218-377): whether a conflict is found is a flag of the environment.
- RunGraph.Execute: the runner is a function of the node, so the run loop and the node run are composed through the node reports (`GraphExecution`, which asks of them exactly what `RunNode.RunNode` ensures), not through one shared heap; what node runs do to the shared workspace concurrently is `Interleaving`.
- Interleaving.Serializable: a worker process or hook that writes to the workspace outside a transaction is not a step, and neither is a process killed between two steps.
- RunNode.RunNode: `KeyboardInterrupt` and other exceptions outside `Exception` are not modelled; verifiers of nodes without a patch are assumed not to write to the workspace.
- The individual check runners: each check has one of the outcomes passed, failed, unproven or blocked, a function of the check expression in each phase.
- Verdict.ExecuteChecks: issue lines are reduced to whether they carry a marker and which check they name; facts and messages are left out.
- Human-readable texts, token estimates, timestamps and retry feedback.
- History.BlamelessFailureKeepsScore: the keyword scan of issue texts for verdicts without structured failures is a parameter (`blockReason`), which the property does not depend on.
- History.Assign: the terms of the score other than history and uncertainty are one number per worker, arithmetic is over the reals, and the confidence of the decision is left out.
- Inbox.RunKeepsConsistent: callback statuses that only older versions of the database wrote are part of the type but are not reachable.
- The polling loop of the asynchronous runtime, its backoff, and task fields other than the status.
- `BoundedReplanner`, hard-capability matching, the planner, proposal parsing, worker backends, command line, dashboard, provider loading, usage analytics and the remaining SQL.
