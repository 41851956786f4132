/** One graph node: reserve, attempt, verify, commit or roll back, retry, release. */
module RunNode {
  import opened Contracts
  import opened Paths
  import opened UnifiedDiff
  import opened Workspace
  import opened Integrator
  import opened Session
  import opened Reservations
  import opened Verdict
  import opened Replan

  const SUCCESS := "success"

  datatype WorkerResult = WorkerResult(
    status: string, policyViolations: bool, patch: Option<string>, changedPaths: seq<Path>, evidence: seq<string>)

  /** Everything one attempt meets from outside. The two outcome functions are the
      checks before and after integration; `verifierEffect` is whatever the
      post-integration checks do to the workspace; the `...Raises` flags are
      exceptions at the named step, if it is reached. */
  datatype AttemptEnv = AttemptEnv(
    preDispatchRaises: bool,
    workerRaises: bool, environmentException: bool,
    result: WorkerResult,
    postDelegateRaises: bool,
    proposalRaises: bool, proposalOutcome: string -> CheckOutcome,
    proposal: ProposalEnv,
    postRaises: bool, postOutcome: string -> CheckOutcome, evidence: CheckOutcome,
    verifierEffect: Tree -> Tree,
    symlinkAfter: bool, unreadableAfter: bool,
    innerRollback: RollbackFaults, outerRollback: RollbackFaults,
    postVerifyRaises: bool, recordRaises: bool,
    fallbackRaises: bool, fallback: Option<string>)

  function Failing(confidence: Confidence, check: string, failures: seq<FailureRecord>): VerificationResult {
    VerificationResult(false, confidence, [Issue(true, check)], failures)
  }

  /** The check both phases start with. */
  function Precheck(result: WorkerResult): Option<VerificationResult> {
    if result.status != SUCCESS then
      Some(VerificationResult(false, Low, [Issue(false, "")], [FailureRecord(Worker, "precheck", true, false)]))
    else if result.policyViolations then
      Some(VerificationResult(false, BlockedConfidence, [Issue(false, "")],
        [FailureRecord(PolicyPermission, "policy_precheck", false, false)]))
    else None
  }

  /** A phase accepts a successful result without violations when the worst of its
      checks passes. */
  predicate PhaseAccepted(contract: VerificationContract, proposal: bool, result: WorkerResult,
                          outcome: string -> CheckOutcome, evidence: CheckOutcome)
  {
    Precheck(result).None? && WorstOf(ContractForPhase(contract, proposal), outcome, evidence).AcceptedClass?
  }

  /** The worker reports success and stayed within its write paths. */
  predicate Trusted(result: WorkerResult) {
    result.status == "success" && !result.policyViolations
  }

  method VerifyPhase(contract: VerificationContract, proposal: bool, result: WorkerResult,
                     outcome: string -> CheckOutcome, evidence: CheckOutcome)
    returns (v: VerificationResult)
    ensures match Precheck(result)
      case Some(early) => v == early
      case None => VerdictOf(v, ContractForPhase(contract, proposal), outcome, evidence)
    ensures v.accepted <==> PhaseAccepted(contract, proposal, result, outcome, evidence)
    ensures v.accepted <==> v.confidence.Medium? || v.confidence.High?
    ensures v.accepted ==> result.status == "success" && !result.policyViolations
    ensures result.status == "success" && result.policyViolations ==>
      v.confidence.BlockedConfidence? && v.failures != [] && forall f | f in v.failures :: f.category.PolicyPermission?
    ensures result.status != "success" ==>
      v.confidence.Low? && v.failures != [] && forall f | f in v.failures :: f.category.Worker? && f.retryable
  {
    var early := Precheck(result);
    if early.Some? {
      return early.value;
    }
    v := ExecuteChecks(ContractForPhase(contract, proposal), outcome, evidence);
    VerdictHasWorstClass(v, ContractForPhase(contract, proposal), outcome, evidence);
  }

  const CONFLICT_VERDICT := Failing(BlockedConfidence, "integration",
    [FailureRecord(IntegrationConflict, "integration", false, false)])
  const NO_PATCH_VERDICT := Failing(Low, "patch_non_empty", [FailureRecord(Contract, "proposal", true, false)])
  const REFUSED_VERDICT := Failing(Low, "patch_integration",
    [FailureRecord(DeterministicRejection, "integration", true, false)])
  const MISMATCH_VERDICT := Failing(Low, "changed_paths_match_patch",
    [FailureRecord(PolicyPermission, "proposal", false, false)])
  const SIDE_EFFECT_VERDICT := Failing(BlockedConfidence, "post_verifier_side_effect",
    [FailureRecord(PolicyPermission, "post_integration", false, false)])
  const LIFECYCLE_VERDICT := Failing(BlockedConfidence, "orchestration_lifecycle",
    [FailureRecord(Environment, "verifier_or_hook", false, false)])

  // ---------------------------------------------------------------------------
  // States of the session between steps
  // ---------------------------------------------------------------------------

  /** The lock is held exactly by the attempt that keeps it. */
  ghost predicate LockMatches(s: GraphIntegrationSession, me: string, a: IntegrationAttempt?)
    reads s, if a == null then {} else {a}
  {
    && s.lock == (if a != null && a.lockHeld then Some(me) else None)
    && (a != null && a.lockHeld ==> a.patchResult != null)
  }

  /** Nothing pending, the workspace is `base`, and the records describe it. */
  ghost predicate Settled(s: IntegrationSnapshot, base: Tree)
    reads s
  {
    && s.pendingRollback == None && s.root in s.disk && s.disk[s.root] == base
    && s.fileStates == Scan(base)
  }

  /** The attempt's transaction is pending, the old workspace `base` is retained, and
      there is a workspace to replace by it. */
  ghost predicate Recoverable(s: IntegrationSnapshot, a: IntegrationAttempt?, base: Tree)
    reads s, if a == null then {} else {a}
    reads if a == null || a.patchResult == null then {} else {a.patchResult}
  {
    && IsPending(s, a) && s.pendingRollback.value in s.disk && s.disk[s.pendingRollback.value] == base
    && s.root in s.disk
  }

  ghost predicate IsPending(s: IntegrationSnapshot, a: IntegrationAttempt?)
    reads s, if a == null then {} else {a}
    reads if a == null || a.patchResult == null then {} else {a.patchResult}
  {
    a != null && a.patchResult != null && s.pendingRollback.Some? && a.patchResult.rollbackDir == s.pendingRollback
  }

  /** The attempt's transaction is pending but cannot be rolled back any more: the old
      workspace is `gone` from its place, or there is no workspace. */
  ghost predicate Stranded(s: IntegrationSnapshot, a: IntegrationAttempt?, gone: bool)
    reads s, if a == null then {} else {a}
    reads if a == null || a.patchResult == null then {} else {a.patchResult}
  {
    IsPending(s, a) && (s.pendingRollback.value !in s.disk <==> gone) && (!gone ==> s.root !in s.disk)
  }

  ghost predicate Retained(s: GraphIntegrationSession, me: string, a: IntegrationAttempt, base: Tree)
    reads s, s.snapshot, a, if a.patchResult == null then {} else {a.patchResult}
  {
    s.Holds(me, a) && Recoverable(s.snapshot, a, base)
  }

  /** No transaction of this attempt is open. */
  ghost predicate Closed(a: IntegrationAttempt?)
    reads if a == null then {} else {a}
    reads if a == null || a.patchResult == null then {} else {a.patchResult}
  {
    a == null || a.patchResult == null || a.patchResult.rollbackDir == None
  }

  /** A pending, verified patch: the workspace is exactly what was recorded. */
  ghost predicate ReadyToCommit(s: GraphIntegrationSession, me: string, a: IntegrationAttempt, base: Tree,
                                writePaths: seq<Path>)
    reads s, s.snapshot, a, if a.patchResult == null then {} else {a.patchResult}
  {
    && Retained(s, me, a, base)
    && Scan(s.snapshot.disk[s.snapshot.root]) == s.snapshot.fileStates
    && s.snapshot.fileStates == RecordOps(Scan(base), a.patchResult.applied)
    && ResolveAll(writePaths).Some?
    && Applicable(a.patchResult.applied, Scan(base), ResolveAll(writePaths), base.dirs)
  }

  /** What a verified commit does to the visible workspace. */
  lemma CommittedIsApplied(base: Tree, ops: seq<PatchOp>, states: FileStates, tree: Tree)
    requires states == RecordOps(Scan(base), ops) && Scan(tree) == states
    ensures Scan(tree) == Scan(ApplyOps(base, ops))
  {
    assert Visible(Scan(base)) == Scan(base);
    RecordFollowsTree(base, Scan(base), ops);
    assert Visible(states) == states;
  }

  // ---------------------------------------------------------------------------
  // What makes an attempt succeed
  // ---------------------------------------------------------------------------

  /** The operations the worker's patch means on the workspace `base`. */
  function PatchOf(result: WorkerResult, base: Tree): seq<PatchOp> {
    if result.patch.None? then []
    else
      match ParsePatch(result.patch.value, SourceOf(base, Scan(base)))
      case Failure(_) => []
      case Success(ops) => ops
  }

  /** The post-integration checks change something beside the patch. */
  predicate LeavesBehind(e: AttemptEnv, base: Tree, ops: seq<PatchOp>) {
    e.symlinkAfter || e.unreadableAfter || Scan(e.verifierEffect(ApplyOps(base, ops))) != RecordOps(Scan(base), ops)
  }

  /** After integration: exactly the reported paths changed, the checks accept, and
      they leave behind nothing but the patch. */
  predicate IntegrationPasses(node: TaskNodeContract, result: WorkerResult, e: AttemptEnv, base: Tree,
                              ops: seq<PatchOp>) {
    && ResolveAll(result.changedPaths) == Some(OpPaths(ops))
    && !e.postRaises && PhaseAccepted(node.verification, false, result, e.postOutcome, e.evidence)
    && !LeavesBehind(e, base, ops)
  }

  /** Which verdict an integrated patch gets, the first reason deciding: other paths
      than reported, something left behind, or the checks. */
  predicate IntegrationVerdict(v: VerificationResult, node: TaskNodeContract, result: WorkerResult, e: AttemptEnv,
                               base: Tree, ops: seq<PatchOp>) {
    if ResolveAll(result.changedPaths) != Some(OpPaths(ops)) then v == MISMATCH_VERDICT
    else if LeavesBehind(e, base, ops) then v == SIDE_EFFECT_VERDICT
    else v.accepted <==> PhaseAccepted(node.verification, false, result, e.postOutcome, e.evidence)
  }

  /** Which verdict a patch proposal gets: the proposal checks, a missing patch, source
      drift, a refused patch, or what integration shows, in this order. */
  predicate PatchVerdict(v: VerificationResult, node: TaskNodeContract, result: WorkerResult, e: AttemptEnv,
                         base: Tree) {
    if !PhaseAccepted(node.verification, true, result, e.proposalOutcome, e.evidence) then !v.accepted
    else if result.patch.None? then v == NO_PATCH_VERDICT
    else if e.proposal.conflict then v == CONFLICT_VERDICT
    else if !Admissible(base, Scan(base), result.patch.value, node.writePaths, e.proposal) then v == REFUSED_VERDICT
    else IntegrationVerdict(v, node, result, e, base, PatchOf(result, base))
  }

  predicate VerifierAccepts(node: TaskNodeContract, result: WorkerResult, e: AttemptEnv, base: Tree) {
    if !node.mode.Patch? then
      !e.postRaises && PhaseAccepted(node.verification, false, result, e.postOutcome, e.evidence)
    else
      && !e.proposalRaises && PhaseAccepted(node.verification, true, result, e.proposalOutcome, e.evidence)
      && result.patch.Some? && Admissible(base, Scan(base), result.patch.value, node.writePaths, e.proposal)
      && IntegrationPasses(node, result, e, base, PatchOf(result, base))
  }

  /** One attempt on the settled workspace `base` ends in success. */
  predicate AttemptSucceeds(node: TaskNodeContract, e: AttemptEnv, base: Tree) {
    && !e.preDispatchRaises && !e.workerRaises && !e.postDelegateRaises && !e.postVerifyRaises && !e.recordRaises
    && VerifierAccepts(node, e.result, e, base)
  }

  /** The outcome that counts for a check: allowlist, non-empty patch and coverage are
      judged on the proposal, everything else on the integrated workspace. */
  function OutcomeOf(e: AttemptEnv, check: string): CheckOutcome {
    if NameOf(check) in {"changed_paths_within_allowlist", "patch_non_empty", "requirement_coverage"}
    then e.proposalOutcome(check) else e.postOutcome(check)
  }

  /** A judgement is left to nobody: the evidence is there and no semantic check is asked. */
  predicate NothingUnproven(contract: VerificationContract, evidence: CheckOutcome) {
    (contract.evidenceRequirements != [] ==> evidence.Passed?) && contract.semanticCheck == ""
  }

  predicate NothingRaises(node: TaskNodeContract, e: AttemptEnv) {
    && !e.preDispatchRaises && !e.workerRaises && !e.postDelegateRaises && !e.postVerifyRaises && !e.recordRaises
    && !e.postRaises && (node.mode.Patch? ==> !e.proposalRaises)
  }

  /** Exactly when an attempt that proposes a patch succeeds: nothing raises, the worker
      reports success within its write paths, every check of the contract passes in its
      phase, and the patch is admissible, changes exactly the reported paths and is all
      that the checks find changed. */
  lemma PatchSucceedsExactly(node: TaskNodeContract, e: AttemptEnv, base: Tree)
    requires node.mode.Patch?
    ensures AttemptSucceeds(node, e, base) <==>
      && NothingRaises(node, e) && e.result.status == "success" && !e.result.policyViolations
      && (forall c | c in node.verification.deterministicChecks :: OutcomeOf(e, c).Passed?)
      && NothingUnproven(node.verification, e.evidence)
      && e.result.patch.Some? && Admissible(base, Scan(base), e.result.patch.value, node.writePaths, e.proposal)
      && ResolveAll(e.result.changedPaths) == Some(OpPaths(PatchOf(e.result, base)))
      && !LeavesBehind(e, base, PatchOf(e.result, base))
  {
    PhasePassesExactly(node.verification, true, e.proposalOutcome, e.evidence);
    PhasePassesExactly(node.verification, false, e.postOutcome, e.evidence);
  }

  /** Exactly when any other attempt does: the checks judged on a proposal play no part. */
  lemma AnalysisSucceedsExactly(node: TaskNodeContract, e: AttemptEnv, base: Tree)
    requires !node.mode.Patch?
    ensures AttemptSucceeds(node, e, base) <==>
      && NothingRaises(node, e) && e.result.status == "success" && !e.result.policyViolations
      && (forall c | c in node.verification.deterministicChecks ::
            NameOf(c) in {"changed_paths_within_allowlist", "patch_non_empty", "requirement_coverage"}
            || e.postOutcome(c).Passed?)
      && NothingUnproven(node.verification, e.evidence)
  {
    PhasePassesExactly(node.verification, false, e.postOutcome, e.evidence);
  }

  // ---------------------------------------------------------------------------
  // What an attempt leaves pending
  // ---------------------------------------------------------------------------

  /** What the worker hands over, a failed result when it raises. */
  function ResultOf(e: AttemptEnv): WorkerResult {
    if e.workerRaises then WorkerResult("failed", false, None, [], []) else e.result
  }

  /** The attempt gets to applying a patch. */
  predicate Proposes(node: TaskNodeContract, result: WorkerResult, e: AttemptEnv) {
    && node.mode.Patch? && !e.proposalRaises && result.patch.Some?
    && PhaseAccepted(node.verification, true, result, e.proposalOutcome, e.evidence)
  }

  /** The attempt gets to applying a patch and finds the source drifted. */
  predicate MeetsDrift(node: TaskNodeContract, result: WorkerResult, e: AttemptEnv) {
    Proposes(node, result, e) && ResolveAll(node.writePaths).Some? && e.proposal.conflict
  }

  predicate Drifts(node: TaskNodeContract, e: AttemptEnv) {
    !e.preDispatchRaises && !e.postDelegateRaises && MeetsDrift(node, ResultOf(e), e)
  }

  /** The attempt opens a transaction on the settled workspace `base`. */
  predicate Opens(node: TaskNodeContract, result: WorkerResult, e: AttemptEnv, base: Tree) {
    Proposes(node, result, e) && Admissible(base, Scan(base), result.patch.value, node.writePaths, e.proposal)
  }

  /** Applying the patch loses the workspace. */
  predicate Ruins(node: TaskNodeContract, result: WorkerResult, e: AttemptEnv, base: Tree) {
    Proposes(node, result, e) && Ruinous(base, Scan(base), result.patch.value, node.writePaths, e.proposal)
  }

  /** The verifier itself rolls the patch back, rather than leaving that to the loop. */
  predicate RollsBackInside(node: TaskNodeContract, result: WorkerResult, e: AttemptEnv, base: Tree,
                            ops: seq<PatchOp>) {
    && ResolveAll(result.changedPaths).Some?
    && (|| ResolveAll(result.changedPaths).value != OpPaths(ops)
        || (!e.postRaises
            && (LeavesBehind(e, base, ops)
                || !PhaseAccepted(node.verification, false, result, e.postOutcome, e.evidence))))
  }

  /** A rollback that fails so that no second one can succeed: the workspace is lost,
      or the old one was moved back but not rescanned. */
  predicate Strands(f: RollbackFaults) {
    !f.swapOut && (if f.swapIn then f.restore else f.rescan)
  }

  /** No rollback of the open transaction succeeds. */
  predicate Unrepaired(e: AttemptEnv, inside: bool) {
    if inside then e.innerRollback.Fails() && (Strands(e.innerRollback) || e.outerRollback.Fails())
    else e.outerRollback.Fails()
  }

  /** The attempt leaves a transaction pending: opened, not committed, not repaired. */
  predicate LeavesPending(node: TaskNodeContract, e: AttemptEnv, base: Tree) {
    Opened(node, e, base) && !AttemptSucceeds(node, e, base) && Unrepaired(e, Inside(node, e, base))
  }

  predicate RuinsWorkspace(node: TaskNodeContract, e: AttemptEnv, base: Tree) {
    !e.preDispatchRaises && !e.postDelegateRaises && Ruins(node, ResultOf(e), e, base)
  }

  /** The loop's own rollback raises: the transaction stays pending and the old
      workspace is still where it was retained. */
  predicate RollbackEscapes(node: TaskNodeContract, e: AttemptEnv, base: Tree) {
    LeavesPending(node, e, base) && !(Inside(node, e, base) && BackupGone(e.innerRollback))
  }

  predicate BackupGone(f: RollbackFaults) {
    !f.swapOut && !f.swapIn && f.rescan
  }

  /** What verification leaves of the opened transaction. */
  ghost predicate Integrated(s: IntegrationSnapshot, a: IntegrationAttempt?, base: Tree, inside: bool,
                             f: RollbackFaults)
    reads s, if a == null then {} else {a}
    reads if a == null || a.patchResult == null then {} else {a.patchResult}
  {
    if inside && !f.Fails() then Closed(a) && Settled(s, base)
    else if inside && Strands(f) then Stranded(s, a, BackupGone(f))
    else Recoverable(s, a, base)
  }

  // ---------------------------------------------------------------------------
  // One attempt
  // ---------------------------------------------------------------------------

  /** A rollback by the verifier itself. */
  method RollBackInside(s: GraphIntegrationSession, me: string, a: IntegrationAttempt, f: RollbackFaults,
                        ghost base: Tree)
    returns (raised: bool)
    requires s.snapshot.Valid() && LockMatches(s, me, a) && a.patchResult != null
    modifies s`lock, s.snapshot, a`lockHeld, a.patchResult
    ensures s.snapshot.Valid() && LockMatches(s, me, a)
    ensures old(Recoverable(s.snapshot, a, base)) ==>
      Integrated(s.snapshot, a, base, true, f) && (f.Fails() ==> raised)
  {
    var done;
    raised, done := s.Rollback(me, a, f);
  }

  /** The part after a successful application: reported paths, checks on the
      integrated workspace, side effects, and the merged verdict. `known` says that
      the transaction was opened over the settled workspace `base`. */
  method VerifyIntegrated(s: GraphIntegrationSession, me: string, node: TaskNodeContract, result: WorkerResult,
                          e: AttemptEnv, a: IntegrationAttempt, proposal: VerificationResult,
                          ghost base: Tree, ghost known: bool)
    returns (raised: bool, v: VerificationResult)
    requires s.snapshot.Valid() && s.Holds(me, a) && a.expectedStates == s.snapshot.fileStates
    requires known ==>
      && Retained(s, me, a, base)
      && s.snapshot.fileStates == RecordOps(Scan(base), a.patchResult.applied)
      && ResolveAll(node.writePaths).Some?
      && Applicable(a.patchResult.applied, Scan(base), ResolveAll(node.writePaths), base.dirs)
      && s.snapshot.disk[s.snapshot.root] == ApplyOps(base, a.patchResult.applied)
    requires proposal.accepted && (proposal.confidence.Medium? || proposal.confidence.High?)
    modifies s`lock, s.snapshot, a`lockHeld, a.patchResult
    ensures s.snapshot.Valid() && LockMatches(s, me, a)
    ensures known ==> (!raised && v.accepted <==> IntegrationPasses(node, result, e, base, a.patchResult.applied))
    ensures known && !raised ==> IntegrationVerdict(v, node, result, e, base, a.patchResult.applied)
    ensures !raised && v.accepted ==> s.Holds(me, a)
    ensures known && !raised && v.accepted ==> ReadyToCommit(s, me, a, base, node.writePaths)
    ensures known ==>
      var inside := RollsBackInside(node, result, e, base, a.patchResult.applied);
      Integrated(s.snapshot, a, base, inside, e.innerRollback) && (inside && e.innerRollback.Fails() ==> raised)
  {
    raised, v := false, LIFECYCLE_VERDICT;
    var reported := ResolveAll(result.changedPaths);
    if reported.None? {
      return true, v;
    }
    if OpPaths(a.patchResult.applied) != reported.value {
      raised := RollBackInside(s, me, a, e.innerRollback, base);
      return raised, MISMATCH_VERDICT;
    }
    if s.snapshot.root in s.snapshot.disk {
      s.snapshot.disk := s.snapshot.disk[s.snapshot.root := e.verifierEffect(s.snapshot.disk[s.snapshot.root])];
    }
    if e.postRaises {
      return true, v;
    }
    var post := VerifyPhase(node.verification, false, result, e.postOutcome, e.evidence);
    var sideEffects := s.PostVerificationIssues(a, e.symlinkAfter, e.unreadableAfter);
    if sideEffects {
      raised := RollBackInside(s, me, a, e.innerRollback, base);
      return raised, SIDE_EFFECT_VERDICT;
    }
    v := CombinePhaseResults([proposal, post]);
    CombinedAccepted(proposal, post);
    if !v.accepted {
      raised := RollBackInside(s, me, a, e.innerRollback, base);
    }
  }

  /** The verifier handed to the dispatcher. Whatever happens, the lock is held only
      with an open transaction; an accepted patch is open and verified; everything else
      is settled again or left as `Integrated` says, with the exact fault conditions. */
  method PhasedVerifier(s: GraphIntegrationSession, me: string, node: TaskNodeContract, result: WorkerResult,
                        e: AttemptEnv, ghost base: Tree)
    returns (raised: bool, v: VerificationResult, a: IntegrationAttempt?)
    requires s.snapshot.Valid() && s.lock == None
    modifies s`lock, s.snapshot
    ensures s.snapshot.Valid() && LockMatches(s, me, a)
    ensures a != null ==> fresh(a) && (a.patchResult != null ==> fresh(a.patchResult))
    ensures !node.mode.Patch? ==> a == null && unchanged(s.snapshot)
    ensures a != null && a.conflicts <==> MeetsDrift(node, result, e)
    ensures !raised && v.accepted && node.mode.Patch? ==> a != null && s.Holds(me, a)
    ensures !raised && v.accepted ==> Trusted(result)
    ensures !Trusted(result) ==> a == null && unchanged(s.snapshot)
    ensures old(Settled(s.snapshot, base)) ==> (!raised && v.accepted <==> VerifierAccepts(node, result, e, base))
    ensures old(Settled(s.snapshot, base)) && !raised && v.accepted && node.mode.Patch? ==>
      a.patchResult.applied == PatchOf(result, base)
    ensures old(Settled(s.snapshot, base)) && !raised && node.mode.Patch? ==> PatchVerdict(v, node, result, e, base)
    ensures old(Settled(s.snapshot, base)) && !raised && v.accepted && node.mode.Patch? ==>
      ReadyToCommit(s, me, a, base, node.writePaths)
    ensures old(Settled(s.snapshot, base)) && Opens(node, result, e, base) ==>
      var inside := RollsBackInside(node, result, e, base, PatchOf(result, base));
      Integrated(s.snapshot, a, base, inside, e.innerRollback) && (inside && e.innerRollback.Fails() ==> raised)
    ensures old(Settled(s.snapshot, base)) && !Opens(node, result, e, base) ==>
      Closed(a) && (if Ruins(node, result, e, base) then raised && s.snapshot.pendingRollback == None
                    else Settled(s.snapshot, base))
  {
    a := null;
    raised, v := false, LIFECYCLE_VERDICT;
    if !node.mode.Patch? {
      if e.postRaises {
        return true, v, a;
      }
      v := VerifyPhase(node.verification, false, result, e.postOutcome, e.evidence);
      return;
    }
    if e.proposalRaises {
      return true, v, a;
    }
    var proposal := VerifyPhase(node.verification, true, result, e.proposalOutcome, e.evidence);
    if !proposal.accepted {
      return false, proposal, a;
    }
    if result.patch.None? {
      return false, NO_PATCH_VERDICT, a;
    }
    raised, a := s.ApplyProposal(me, result.patch.value, node.writePaths, e.proposal);
    if raised {
      a := null;
      return;
    }
    if a.conflicts {
      return false, CONFLICT_VERDICT, a;
    }
    if !a.Accepted() {
      return false, REFUSED_VERDICT, a;
    }
    raised, v := VerifyIntegrated(s, me, node, result, e, a, proposal, base, old(Settled(s.snapshot, base)));
  }

  /** What verification leaves when the worker has run: the transaction it opened, as
      `Integrated` says, or no transaction. A rollback that failed inside, and a lost
      workspace, show as a lifecycle verdict. */
  ghost predicate Verified(s: IntegrationSnapshot, base: Tree, f: RollbackFaults, a: IntegrationAttempt?,
                           v: VerificationResult, begun: bool, inside: bool, ruined: bool)
    reads s, if a == null then {} else {a}
    reads if a == null || a.patchResult == null then {} else {a.patchResult}
  {
    if begun then Integrated(s, a, base, inside, f) && (inside && f.Fails() ==> v == LIFECYCLE_VERDICT)
    else Closed(a) && if ruined then v == LIFECYCLE_VERDICT && s.pendingRollback == None else Settled(s, base)
  }

  predicate Opened(node: TaskNodeContract, e: AttemptEnv, base: Tree) {
    !e.preDispatchRaises && !e.postDelegateRaises && Opens(node, ResultOf(e), e, base)
  }

  predicate Inside(node: TaskNodeContract, e: AttemptEnv, base: Tree) {
    RollsBackInside(node, ResultOf(e), e, base, PatchOf(ResultOf(e), base))
  }

  /** The dispatch of the worker with the verifier behind it: exceptions of the verifier
      and of the hooks around it become a lifecycle verdict. */
  method Dispatch(s: GraphIntegrationSession, me: string, node: TaskNodeContract, e: AttemptEnv, ghost base: Tree)
    returns (v: VerificationResult, a: IntegrationAttempt?)
    requires s.snapshot.Valid() && s.lock == None && !e.preDispatchRaises
    modifies s`lock, s.snapshot
    ensures s.snapshot.Valid() && LockMatches(s, me, a)
    ensures a != null ==> fresh(a) && (a.patchResult != null ==> fresh(a.patchResult))
    ensures !node.mode.Patch? ==> a == null && unchanged(s.snapshot)
    ensures !Trusted(ResultOf(e)) ==> a == null && unchanged(s.snapshot)
    ensures v.accepted ==> Trusted(ResultOf(e)) && (node.mode.Patch? ==> a != null && s.Holds(me, a))
    ensures a != null && a.conflicts <==> Drifts(node, e)
    ensures old(Settled(s.snapshot, base)) ==>
      (v.accepted <==> !e.postDelegateRaises && !e.postVerifyRaises && VerifierAccepts(node, ResultOf(e), e, base))
    ensures old(Settled(s.snapshot, base)) && v.accepted && node.mode.Patch? ==>
      ReadyToCommit(s, me, a, base, node.writePaths) && a.patchResult.applied == PatchOf(ResultOf(e), base)
    ensures !old(Settled(s.snapshot, base))
      || Verified(s.snapshot, base, e.innerRollback, a, v, Opened(node, e, base), Inside(node, e, base),
        RuinsWorkspace(node, e, base))
  {
    var raised := true;
    v, a := LIFECYCLE_VERDICT, null;
    if !e.postDelegateRaises {
      raised, v, a := PhasedVerifier(s, me, node, ResultOf(e), e, base);
      raised := raised || e.postVerifyRaises;
    }
    if raised {
      v := LIFECYCLE_VERDICT;
    }
  }

  /** What one dispatch leaves behind: an exception that escapes, or a verdict. */
  datatype AttemptOut =
    | Escaped
    | Finished(success: bool, verdict: VerificationResult, conflict: bool, policyBlocked: bool, committed: bool,
      evidence: seq<string>)

  /** One dispatch with its handling in the attempt loop. The lock is free again on
      every exit; a commit happens exactly when the attempt succeeds with a patch. */
  method RunAttempt(s: GraphIntegrationSession, me: string, node: TaskNodeContract, e: AttemptEnv, ghost base: Tree)
    returns (out: AttemptOut)
    requires s.snapshot.Valid() && s.lock == None
    modifies s`lock, s.snapshot
    ensures s.snapshot.Valid() && s.lock == None
    ensures out.Finished? ==>
      && (out.success <==> out.verdict.accepted)
      && (out.committed <==> out.success && node.mode.Patch?)
    ensures !old(Settled(s.snapshot, base)) || AttemptLeaves(s.snapshot, node, e, base, out)
    ensures !node.mode.Patch? || !Trusted(ResultOf(e)) ==> unchanged(s.snapshot)
    ensures out.Finished? && out.success ==> !e.workerRaises && Trusted(e.result)
    ensures out.Finished? ==> out.policyBlocked == ResultOf(e).policyViolations && out.evidence == ResultOf(e).evidence
    ensures out.Finished? && !out.success ==> (out.conflict <==> Drifts(node, e))
  {
    if e.preDispatchRaises {
      return Escaped;
    }
    var result := ResultOf(e);
    var v, a := Dispatch(s, me, node, e, base);
    out := Conclude(s, me, node, e, v, a, base, Opened(node, e, base), Inside(node, e, base),
      RuinsWorkspace(node, e, base));
  }

  /** What follows a dispatch: the ledger entry, then commit or rollback. */
  method Conclude(s: GraphIntegrationSession, me: string, node: TaskNodeContract, e: AttemptEnv,
                  v: VerificationResult, a: IntegrationAttempt?, ghost base: Tree,
                  ghost begun: bool, ghost inside: bool, ghost ruined: bool)
    returns (out: AttemptOut)
    requires s.snapshot.Valid() && LockMatches(s, me, a)
    requires v.accepted ==> Trusted(ResultOf(e))
    requires v.accepted ==> if node.mode.Patch? then a != null && s.Holds(me, a) else a == null
    modifies s`lock
    modifies if a == null then {} else {a}
    modifies if a == null || a.patchResult == null then {} else {s.snapshot, a.patchResult}
    ensures s.snapshot.Valid() && s.lock == None
    ensures out.Finished? ==> (out.success <==> out.verdict.accepted)
    ensures out.Finished? ==> (out.committed <==> out.success && node.mode.Patch?)
    ensures out.Finished? ==> out.verdict == v && out.policyBlocked == ResultOf(e).policyViolations
    ensures out.Finished? ==> out.evidence == ResultOf(e).evidence
    ensures out.Finished? && !out.success ==> (out.conflict <==> a != null && a.conflicts)
    ensures out.Finished? && out.success <==> v.accepted && !e.recordRaises
    ensures old(Verified(s.snapshot, base, e.innerRollback, a, v, begun, inside, ruined)) ==>
      var pending := begun && !(v.accepted && !e.recordRaises) && Unrepaired(e, inside);
      && ((v.accepted && !e.recordRaises && node.mode.Patch?) || (s.snapshot.pendingRollback.Some? <==> pending))
      && (out.Escaped? <==> e.recordRaises || (pending && !(inside && BackupGone(e.innerRollback))))
      && (out.Finished? && (pending || (ruined && !begun)) ==> v == LIFECYCLE_VERDICT)
      && (!(v.accepted && !e.recordRaises && node.mode.Patch?) && !pending && (begun || !ruined)
        ==> Settled(s.snapshot, base))
    ensures v.accepted && !e.recordRaises && node.mode.Patch?
            && old(a != null && ReadyToCommit(s, me, a, base, node.writePaths)) ==>
      s.snapshot.pendingRollback == None && Committed(s.snapshot, base, node.writePaths, a.patchResult.applied)
  {
    var result := ResultOf(e);
    if e.recordRaises {
      var rolledBack := CloseAttempt(s, me, node, e, a, base);
      return Escaped;
    }
    if result.status == SUCCESS && v.accepted {
      if a != null {
        CommitAttempt(s, me, node, a, base);
      }
      return Finished(true, v, false, result.policyViolations, a != null, result.evidence);
    }
    var conflict := a != null && a.conflicts;
    var failed := CloseAttempt(s, me, node, e, a, base);
    if failed {
      return Escaped;
    }
    out := Finished(false, v, conflict, result.policyViolations, false, result.evidence);
  }

  /** Commits the attempt's transaction. */
  method CommitAttempt(s: GraphIntegrationSession, me: string, node: TaskNodeContract, a: IntegrationAttempt,
                       ghost base: Tree)
    requires s.snapshot.Valid() && s.Holds(me, a)
    modifies s`lock, s.snapshot, a`lockHeld, a.patchResult
    ensures s.snapshot.Valid() && s.lock == None
    ensures old(ReadyToCommit(s, me, a, base, node.writePaths)) ==>
      s.snapshot.pendingRollback == None && Committed(s.snapshot, base, node.writePaths, a.patchResult.applied)
  {
    ghost var ready, ops := ReadyToCommit(s, me, a, base, node.writePaths), a.patchResult.applied;
    var failed := s.Commit(me, a);
    if ready { CommittedIsApplied(base, ops, s.snapshot.fileStates, s.snapshot.disk[s.snapshot.root]); }
  }

  /** Rolls back whatever the attempt left open; without an open transaction the
      rollback does nothing. */
  method CloseAttempt(s: GraphIntegrationSession, me: string, node: TaskNodeContract, e: AttemptEnv,
                      a: IntegrationAttempt?, ghost base: Tree)
    returns (raised: bool)
    requires s.snapshot.Valid() && LockMatches(s, me, a)
    modifies s`lock
    modifies if a == null then {} else {a}
    modifies if a == null || a.patchResult == null then {} else {s.snapshot, a.patchResult}
    ensures s.snapshot.Valid() && s.lock == None
    ensures old(Closed(a)) ==> !raised && s.View() == old(s.View()).(lock := None)
    ensures old(Recoverable(s.snapshot, a, base)) ==>
      if e.outerRollback.Fails() then raised && s.snapshot.pendingRollback.Some?
      else !raised && Settled(s.snapshot, base)
    ensures forall gone :: old(Stranded(s.snapshot, a, gone)) ==>
                             (raised <==> !gone) && s.snapshot.pendingRollback.Some?
  {
    raised := false;
    if a != null && a.patchResult != null {
      var done;
      raised, done := s.Rollback(me, a, e.outerRollback);
    }
  }

  /** What an attempt that began on the settled workspace `base` leaves. */
  ghost predicate Left(s: IntegrationSnapshot, node: TaskNodeContract, e: AttemptEnv, base: Tree, committed: bool)
    reads s
  {
    && (s.pendingRollback.Some? <==> LeavesPending(node, e, base))
    && (committed ==> Committed(s, base, node.writePaths, PatchOf(e.result, base)))
    && (!committed && !LeavesPending(node, e, base) && !RuinsWorkspace(node, e, base) ==> Settled(s, base))
  }

  /** An attempt on the settled workspace `base`: it succeeds exactly when
      `AttemptSucceeds`, an exception escapes exactly from a hook, the ledger or the
      loop's own rollback, and when it finishes with a transaction pending or the
      workspace lost, its verdict is the lifecycle one. */
  ghost predicate AttemptLeaves(s: IntegrationSnapshot, node: TaskNodeContract, e: AttemptEnv, base: Tree,
                                out: AttemptOut)
    reads s
  {
    && (out.Finished? && out.success <==> AttemptSucceeds(node, e, base))
    && (out.Escaped? <==> e.preDispatchRaises || e.recordRaises || RollbackEscapes(node, e, base))
    && Left(s, node, e, base, out.Finished? && out.committed)
    && (out.Finished? && (LeavesPending(node, e, base) || RuinsWorkspace(node, e, base))
      ==> out.verdict == LIFECYCLE_VERDICT)
  }

  /** The visible workspace is `base` with the one admissible patch applied, recorded. */
  ghost predicate Committed(s: IntegrationSnapshot, base: Tree, writePaths: seq<Path>, ops: seq<PatchOp>)
    reads s
  {
    && s.root in s.disk && s.fileStates == Scan(s.disk[s.root]) && ResolveAll(writePaths).Some?
    && Applicable(ops, Scan(base), ResolveAll(writePaths), base.dirs)
    && Scan(s.disk[s.root]) == Scan(ApplyOps(base, ops))
  }

  // ---------------------------------------------------------------------------
  // The attempt loop
  // ---------------------------------------------------------------------------

  /** `workers`, `verdicts` and `decisions` in the order they were used or made;
      `escaped` when the node run ends with an exception. */
  datatype NodeReport = NodeReport(
    success: bool, escaped: bool, dispatches: nat, commits: nat, workers: seq<Option<string>>,
    verdicts: seq<VerificationResult>, decisions: seq<ReplanDecision>, evidence: seq<string>)

  const NOT_DISPATCHED := NodeReport(false, false, 0, 0, [], [], [], [])

  /** Every dispatch but the last was followed by a decision to retry, taken with
      attempts left on a verdict whose failures are all repairable. */
  predicate RetriesJustified(r: NodeReport) {
    forall k | 0 <= k < r.dispatches - 1 ::
      && k < |r.verdicts| && k < |r.decisions|
      && !r.verdicts[k].accepted
      && (r.decisions[k].action.RetrySameWorker? || r.decisions[k].action.SelectAnotherWorker?)
      && forall f | f in r.verdicts[k].failures :: Repairable(f)
  }

  /** The first attempt is the assigned worker's; each further one is the same worker's,
      or the fallback's exactly after a decision to select another. */
  predicate WorkersFollow(workers: seq<Option<string>>, decisions: seq<ReplanDecision>, first: Option<string>,
                          env: nat -> AttemptEnv) {
    && (workers != [] ==> workers[0] == first)
    && forall k | 0 <= k < |workers| - 1 :: ChosenBy(workers, decisions, env, k)
  }

  /** Decision `k` chose the next worker. */
  predicate ChosenBy(workers: seq<Option<string>>, decisions: seq<ReplanDecision>, env: nat -> AttemptEnv, k: nat)
    requires k < |workers| - 1
  {
    && k < |decisions|
    && workers[k + 1] == if decisions[k].action.SelectAnotherWorker? then env(k + 1).fallback else workers[k]
  }

  /** A decision after the last attempt leaves the earlier workers explained and chooses
      the next one. */
  lemma NextWorkerFollows(workers: seq<Option<string>>, decisions: seq<ReplanDecision>, first: Option<string>,
                          env: nat -> AttemptEnv, decision: Option<ReplanDecision>)
    requires workers != [] && |decisions| == |workers| - 1 && WorkersFollow(workers, decisions, first, env)
    ensures var more := decisions + if decision.Some? then [decision.value] else [];
      && WorkersFollow(workers, more, first, env)
      && (decision.Some? ==> WorkersFollow(workers + [NextWorker(workers, env, decision.value)], more, first, env))
  {
    var more := decisions + if decision.Some? then [decision.value] else [];
    forall k | 0 <= k < |workers| - 1 ensures ChosenBy(workers, more, env, k) {
      assert ChosenBy(workers, decisions, env, k);
    }
    if decision.Some? {
      var all := workers + [NextWorker(workers, env, decision.value)];
      forall k | 0 <= k < |workers| ensures ChosenBy(all, more, env, k) {
        if k < |workers| - 1 { assert ChosenBy(workers, more, env, k); }
      }
    }
  }

  function NextWorker(workers: seq<Option<string>>, env: nat -> AttemptEnv, d: ReplanDecision): Option<string>
    requires workers != []
  {
    if d.action.SelectAnotherWorker? then env(|workers|).fallback else workers[|workers| - 1]
  }

  /** No attempt before number `attempt` violated its write paths. */
  predicate NoViolationBefore(env: nat -> AttemptEnv, attempt: nat) {
    forall k | 1 <= k < attempt :: !ResultOf(env(k)).policyViolations
  }

  /** No violation of the write paths goes on to another attempt or succeeds; a success
      hands on the evidence of its own attempt. */
  predicate ViolationsEnd(r: NodeReport, env: nat -> AttemptEnv) {
    && NoViolationBefore(env, r.dispatches)
    && (r.success ==>
        && r.dispatches > 0 && Trusted(ResultOf(env(r.dispatches)))
        && r.evidence == ResultOf(env(r.dispatches)).evidence)
  }

  /** A run that neither succeeded nor escaped stopped at a decision not to retry. */
  predicate StopsWhenDecided(r: NodeReport) {
    !r.success && !r.escaped && r.dispatches > 0 ==>
      && |r.verdicts| == |r.decisions| == r.dispatches
      && !IsRetry(Some(r.decisions[r.dispatches - 1]))
  }

  /** No attempt before number `attempt` succeeds; attempts count from one. */
  ghost predicate NoneSucceeded(node: TaskNodeContract, env: nat -> AttemptEnv, base: Tree, attempt: nat) {
    attempt <= 1 || (!AttemptSucceeds(node, env(attempt - 1), base) && NoneSucceeded(node, env, base, attempt - 1))
  }

  /** An attempt on the settled workspace `base`: success exactly when
      `AttemptSucceeds`, an exception only from a hook, the ledger, the fallback
      selection or a rollback that leaves the transaction pending, and the workspace
      and the transaction as `Left` says. */
  ghost predicate Explained(s: IntegrationSnapshot, base: Tree, node: TaskNodeContract, e: AttemptEnv,
                            success: bool, committed: bool, failed: bool)
    reads s
  {
    && (success <==> AttemptSucceeds(node, e, base))
    && (failed ==> e.preDispatchRaises || e.recordRaises || e.fallbackRaises || LeavesPending(node, e, base))
    && Left(s, node, e, base, committed)
  }

  /** The whole run is explained by its last attempt; no earlier one succeeds. */
  ghost predicate RunExplained(s: IntegrationSnapshot, base: Tree, node: TaskNodeContract, env: nat -> AttemptEnv,
                               r: NodeReport)
    reads s
  {
    if r.dispatches == 0 then !r.success && r.commits == 0 && Settled(s, base)
    else
      && NoneSucceeded(node, env, base, r.dispatches)
      && Explained(s, base, node, env(r.dispatches), r.success, r.commits == 1, r.escaped)
  }

  /** What each rejection means for the next attempt: drift, other paths than reported,
      something left behind and lifecycle exceptions are never retried; a missing or
      refused patch is, while attempts are left. */
  lemma RetryByCause(maxAttempts: nat, attempt: nat, m: Markers, fallback: bool)
    requires !m.integrationConflict && !m.policyBlocked && !m.environmentFailure
    ensures forall v | v in {CONFLICT_VERDICT, MISMATCH_VERDICT, SIDE_EFFECT_VERDICT, LIFECYCLE_VERDICT} ::
      !IsRetry(DecideRetry(v, maxAttempts, attempt, m, fallback))
    ensures forall v | v in {NO_PATCH_VERDICT, REFUSED_VERDICT} ::
      IsRetry(DecideRetry(v, maxAttempts, attempt, m, fallback)) <==> attempt < maxAttempts
  {
    forall v: VerificationResult {
      RetryExactly(v, maxAttempts, attempt, m, fallback);
    }
    forall v | v in {CONFLICT_VERDICT, MISMATCH_VERDICT, SIDE_EFFECT_VERDICT, LIFECYCLE_VERDICT}
      ensures !Repairable(v.failures[0]) {}
  }

  /** And what is decided instead: drift is reported as a conflict, foreign paths and side
      effects as a matter of permission, and exceptions stop the node; a missing or
      refused patch goes on, and escalates after the last attempt. */
  lemma DecisionByCause(maxAttempts: nat, attempt: nat, fallback: bool)
    ensures var none := Markers(false, false, false);
      && DecideRetry(CONFLICT_VERDICT, maxAttempts, attempt, none, fallback)
           == Some(ReplanDecision(EscalateMainAgent, ConflictDetected))
      && (forall v | v in {MISMATCH_VERDICT, SIDE_EFFECT_VERDICT} ::
            DecideRetry(v, maxAttempts, attempt, none, fallback)
            == Some(ReplanDecision(EscalateMainAgent, PermissionBlocked)))
      && DecideRetry(LIFECYCLE_VERDICT, maxAttempts, attempt, none, fallback)
           == Some(ReplanDecision(Stop, EnvironmentFailure))
      && (forall v | v in {NO_PATCH_VERDICT, REFUSED_VERDICT} ::
            DecideRetry(v, maxAttempts, attempt, none, fallback)
            == Some(ReplanDecision(if attempt >= maxAttempts then EscalateMainAgent
                                   else if fallback then SelectAnotherWorker else RetrySameWorker,
                                   VerificationFailed)))
  {
    forall v: VerificationResult | v in {NO_PATCH_VERDICT, REFUSED_VERDICT}
      ensures FirstHardReason(v.failures) == None && IsRetryableByFailures(v.failures)
    {
      assert v.failures[1..] == [];
    }
  }

  /** Actions that need a graph mutation are escalated instead. */
  function Escalated(d: ReplanDecision): ReplanDecision {
    if d.action.AddContext? || d.action.ReviseContract? then d.(action := EscalateMainAgent) else d
  }

  /** Adding context and revising the contract are left to the main agent. */
  predicate NeedsNoMutation(d: Option<ReplanDecision>) {
    d.Some? ==> !d.value.action.AddContext? && !d.value.action.ReviseContract?
  }

  /** The decision after one finished attempt, `None` when the loop just ends. */
  function NextDecision(node: TaskNodeContract, worker: Option<string>, attempt: nat, e: AttemptEnv,
                        out: AttemptOut): Option<ReplanDecision>
    requires out.Finished?
  {
    var fallback := if attempt < node.maxAttempts then e.fallback else None;
    var markers := Markers(out.conflict, out.policyBlocked, e.workerRaises && e.environmentException);
    match DecideRetry(out.verdict, node.maxAttempts, attempt, markers, fallback.Some? && fallback != worker)
    case None => None
    case Some(d) => Some(Escalated(d))
  }

  lemma DecisionIsJustified(node: TaskNodeContract, worker: Option<string>, attempt: nat, e: AttemptEnv,
                            out: AttemptOut)
    requires out.Finished?
    ensures IsRetry(NextDecision(node, worker, attempt, e, out)) ==>
      && attempt < node.maxAttempts && !out.verdict.accepted && !out.conflict && !out.policyBlocked
      && forall f | f in out.verdict.failures :: Repairable(f)
    ensures !out.verdict.accepted ==> NextDecision(node, worker, attempt, e, out).Some?
    ensures var d := NextDecision(node, worker, attempt, e, out);
      IsRetry(d) ==> (d.value.action.SelectAnotherWorker? <==> e.fallback.Some? && e.fallback != worker)
    ensures NeedsNoMutation(NextDecision(node, worker, attempt, e, out))
  {
    var fallback := if attempt < node.maxAttempts then e.fallback else None;
    ActionExactly(out.verdict, node.maxAttempts, attempt,
                  Markers(out.conflict, out.policyBlocked, e.workerRaises && e.environmentException),
                  fallback.Some? && fallback != worker);
    RetryExactly(out.verdict, node.maxAttempts, attempt,
                 Markers(out.conflict, out.policyBlocked, e.workerRaises && e.environmentException),
                 fallback.Some? && fallback != worker);
  }

  /** What is decided after an attempt: nothing after a success or an exception,
      otherwise `NextDecision`, and a retry only as `DecisionIsJustified` says. */
  predicate Decided(node: TaskNodeContract, worker: Option<string>, attempt: nat, e: AttemptEnv,
                    out: AttemptOut, failed: bool, decision: Option<ReplanDecision>)
  {
    && (out.Escaped? ==> failed)
    && (out.Finished? ==>
        && (out.success <==> out.verdict.accepted)
        && (out.committed <==> out.success && node.mode.Patch?)
        && (out.success ==> !failed))
    && (failed ==> decision == None)
    && (!failed ==> decision == if out.success then None else NextDecision(node, worker, attempt, e, out))
    && (!failed && !out.success ==> decision.Some?) && NeedsNoMutation(decision)
    && (IsRetry(decision) ==> attempt < node.maxAttempts && forall f | f in out.verdict.failures :: Repairable(f))
  }

  /** What the loop observed beside the verdict decides first: drift, then a violation,
      then an exception of the environment. */
  predicate MarkersDecide(node: TaskNodeContract, e: AttemptEnv, d: ReplanDecision) {
    if Drifts(node, e) then d == ReplanDecision(EscalateMainAgent, ConflictDetected)
    else if ResultOf(e).policyViolations then d == ReplanDecision(EscalateMainAgent, PermissionBlocked)
    else e.workerRaises && e.environmentException ==> d == ReplanDecision(Stop, EnvironmentFailure)
  }

  lemma ObservedDecides(node: TaskNodeContract, worker: Option<string>, attempt: nat, e: AttemptEnv, out: AttemptOut)
    requires out.Finished? && !out.success && !out.verdict.accepted
    requires out.conflict == Drifts(node, e) && out.policyBlocked == ResultOf(e).policyViolations
    ensures var d := NextDecision(node, worker, attempt, e, out); d.Some? && MarkersDecide(node, e, d.value)
  {
  }

  /** One attempt and what is decided after it. */
  method AttemptAndDecide(s: GraphIntegrationSession, id: string, node: TaskNodeContract, worker: Option<string>,
                          attempt: nat, e: AttemptEnv, ghost base: Tree)
    returns (out: AttemptOut, failed: bool, decision: Option<ReplanDecision>)
    requires s.snapshot.Valid() && s.lock == None
    modifies s`lock, s.snapshot
    ensures s.snapshot.Valid() && s.lock == None
    ensures Decided(node, worker, attempt, e, out, failed, decision)
    ensures !old(Settled(s.snapshot, base))
      || Explained(s.snapshot, base, node, e, out.Finished? && out.success, out.Finished? && out.committed, failed)
    ensures old(Settled(s.snapshot, base)) && IsRetry(decision) ==> Settled(s.snapshot, base)
    ensures out.Finished? && out.success ==> !e.workerRaises && Trusted(e.result) && out.evidence == e.result.evidence
    ensures decision.Some? ==> MarkersDecide(node, e, decision.value)
    ensures IsRetry(decision) ==> !ResultOf(e).policyViolations
    ensures IsRetry(decision) && decision.value.action.SelectAnotherWorker? ==>
      e.fallback.Some? && e.fallback != worker
  {
    out := RunAttempt(s, id, node, e, base);
    failed, decision := out.Escaped?, None;
    if out.Finished? && !out.success {
      if attempt < node.maxAttempts && e.fallbackRaises {
        failed := true;
      } else {
        decision := NextDecision(node, worker, attempt, e, out);
        DecisionIsJustified(node, worker, attempt, e, out);
        ObservedDecides(node, worker, attempt, e, out);
      }
    }
  }

  /** The report when attempt number `attempt` is about to start. */
  predicate UnderWay(r: NodeReport, attempt: nat) {
    && r.dispatches == attempt - 1 == |r.verdicts| == |r.decisions|
    && !r.success && !r.escaped && r.commits == 0
    && RetriesJustified(r.(dispatches := attempt)) && forall d | d in r.decisions :: NeedsNoMutation(Some(d))
  }

  /** What every finished report says of itself. */
  predicate WellReported(node: TaskNodeContract, r: NodeReport) {
    && r.dispatches <= node.maxAttempts && RetriesJustified(r) && StopsWhenDecided(r)
    && r.commits == (if r.success && node.mode.Patch? then 1 else 0)
    && (r.success ==> !r.escaped && r.verdicts != [] && r.verdicts[|r.verdicts| - 1].accepted)
    && forall d | d in r.decisions :: NeedsNoMutation(Some(d))
  }

  /** Enters one attempt into the report; `again` when the loop goes on. */
  method Report(r: NodeReport, node: TaskNodeContract, worker: Option<string>, attempt: nat, ghost e: AttemptEnv,
                out: AttemptOut, failed: bool, decision: Option<ReplanDecision>)
    returns (r': NodeReport, again: bool)
    requires UnderWay(r, attempt) && 1 <= attempt <= node.maxAttempts
      && Decided(node, worker, attempt, e, out, failed, decision)
    ensures again <==> IsRetry(decision)
    ensures r'.workers == r.workers + [worker]
    ensures r'.decisions == r.decisions + if decision.Some? then [decision.value] else []
    ensures again ==> attempt < node.maxAttempts && UnderWay(r', attempt + 1) && out.Finished? && !out.success
    ensures !again ==>
      && WellReported(node, r') && r'.dispatches == attempt
      && (r'.success <==> out.Finished? && out.success) && (r'.success ==> r'.evidence == out.evidence)
      && (r'.commits == 1 <==> out.Finished? && out.committed)
      && (r'.escaped <==> failed)
  {
    r' := r.(dispatches := attempt, workers := r.workers + [worker]);
    again := false;
    if out.Finished? {
      r' := r'.(verdicts := r'.verdicts + [out.verdict], evidence := out.evidence);
    }
    if failed {
      r' := r'.(escaped := true);
    } else if out.success {
      r' := r'.(success := true, commits := if out.committed then 1 else 0);
    } else if decision.Some? {
      r' := r'.(decisions := r'.decisions + [decision.value]);
      again := decision.value.action.RetrySameWorker? || decision.value.action.SelectAnotherWorker?;
    }
  }

  /** The report when attempt number `attempt` is about to start with `worker`. */
  predicate OnTheWay(r: NodeReport, node: TaskNodeContract, env: nat -> AttemptEnv, attempt: nat,
                     worker: Option<string>) {
    && UnderWay(r, attempt) && 1 <= attempt <= node.maxAttempts && NoViolationBefore(env, attempt)
    && |r.workers| == r.dispatches && WorkersFollow(r.workers + [worker], r.decisions, node.worker, env)
  }

  /** No attempt so far succeeded, and the workspace is as before the first. */
  ghost predicate Untried(s: IntegrationSnapshot, base: Tree, node: TaskNodeContract, env: nat -> AttemptEnv,
                          attempt: nat)
    reads s
  {
    Settled(s, base) && NoneSucceeded(node, env, base, attempt)
  }

  /** The finished report. */
  predicate Traced(r: NodeReport, node: TaskNodeContract, env: nat -> AttemptEnv) {
    && WellReported(node, r) && ViolationsEnd(r, env)
    && |r.workers| == r.dispatches && WorkersFollow(r.workers, r.decisions, node.worker, env)
  }

  /** One pass through the loop: an attempt, the decision after it, and the worker that
      the next one goes to. */
  method TryOnce(s: GraphIntegrationSession, id: string, node: TaskNodeContract, env: nat -> AttemptEnv,
                 attempt: nat, worker: Option<string>, r: NodeReport, ghost base: Tree)
    returns (r': NodeReport, again: bool, next: Option<string>)
    requires s.snapshot.Valid() && s.lock == None
    requires OnTheWay(r, node, env, attempt, worker)
    modifies s`lock, s.snapshot
    ensures s.snapshot.Valid() && s.lock == None && r'.dispatches == attempt
    ensures if again then OnTheWay(r', node, env, attempt + 1, next) else Traced(r', node, env)
    ensures old(Untried(s.snapshot, base, node, env, attempt)) && again ==>
      Untried(s.snapshot, base, node, env, attempt + 1)
    ensures again || !old(Untried(s.snapshot, base, node, env, attempt))
      || RunExplained(s.snapshot, base, node, env, r')
  {
    var out, failed, decision := AttemptAndDecide(s, id, node, worker, attempt, env(attempt), base);
    r', again := Report(r, node, worker, attempt, env(attempt), out, failed, decision);
    NextWorkerFollows(r'.workers, r.decisions, node.worker, env, decision);
    next := worker;
    if again && decision.value.action.SelectAnotherWorker? {
      next := env(attempt).fallback;
    }
  }

  lemma NotDispatched(node: TaskNodeContract, env: nat -> AttemptEnv)
    ensures if node.maxAttempts == 0 then Traced(NOT_DISPATCHED, node, env)
            else OnTheWay(NOT_DISPATCHED, node, env, 1, node.worker)
  {
  }

  /** The bounded loop. On every exit the lock is free; at most `maxAttempts`
      dispatches, at most one commit, and that exactly for a successful patch. */
  method AttemptLoop(s: GraphIntegrationSession, id: string, node: TaskNodeContract, env: nat -> AttemptEnv,
                     ghost base: Tree)
    returns (r: NodeReport)
    requires s.snapshot.Valid() && s.lock == None
    modifies s`lock, s.snapshot
    ensures s.snapshot.Valid() && s.lock == None
    ensures Traced(r, node, env) && (node.maxAttempts >= 1 ==> r.dispatches >= 1)
    ensures !old(Settled(s.snapshot, base)) || RunExplained(s.snapshot, base, node, env, r)
  {
    r := NOT_DISPATCHED;
    var worker := node.worker;
    NotDispatched(node, env);
    ghost var steady := Untried(s.snapshot, base, node, env, 1);
    for attempt := 1 to node.maxAttempts + 1
      invariant s.snapshot.Valid() && s.lock == None && r.dispatches == attempt - 1
      invariant attempt <= node.maxAttempts ==> OnTheWay(r, node, env, attempt, worker)
      invariant attempt > node.maxAttempts ==> node.maxAttempts == 0 && r == NOT_DISPATCHED
      invariant steady ==> Untried(s.snapshot, base, node, env, attempt)
    {
      var again;
      r, again, worker := TryOnce(s, id, node, env, attempt, worker, r, base);
      if !again {
        return;
      }
    }
  }

  /** A node with write paths never starts unless all of them can be reserved. */
  predicate ReservationRefused(active: Active, id: string, writePaths: seq<Path>) {
    writePaths != [] && (ResolveSeq(writePaths).None? || !Reservable(active, id, ResolveSeq(writePaths).value))
  }

  /** A whole node run. On every exit, exceptions included, the lock is free and the
      node holds no reservation; other nodes' reservations stay. The last attempt
      explains what is left: a transaction is pending exactly when that attempt opened
      one that was neither committed nor repaired, and otherwise the workspace is as
      before, lost, or the one committed patch of the accepted attempt. */
  method RunNode(s: GraphIntegrationSession, id: string, node: TaskNodeContract, env: nat -> AttemptEnv,
                 ghost base: Tree)
    returns (r: NodeReport)
    requires s.snapshot.Valid() && s.lock == None && s.reservations.Valid()
    modifies s`lock, s.snapshot, s.reservations
    ensures s.snapshot.Valid() && s.reservations.Valid()
    ensures s.lock == None && s.reservations.active == Released(old(s.reservations.active), id)
    ensures Traced(r, node, env)
    ensures node.maxAttempts >= 1 ==>
      (r.dispatches == 0 <==> ReservationRefused(old(s.reservations.active), id, node.writePaths))
    ensures !old(Settled(s.snapshot, base)) || RunExplained(s.snapshot, base, node, env, r)
  {
    if node.writePaths != [] {
      var paths := ResolveSeq(node.writePaths);
      var refused := true;
      if paths.Some? {
        refused := s.reservations.Reserve(id, paths.value);
        if !refused { ReserveThenRelease(old(s.reservations.active), id, paths.value); }
      }
      if refused {
        var freed := s.reservations.ReleaseNode(id);
        return NOT_DISPATCHED.(escaped := true);
      }
    }
    r := AttemptLoop(s, id, node, env, base);
    var count := s.reservations.ReleaseNode(id);
  }

  /** One rollback: when a step of it fails, and only then, the transaction stays
      pending, although the lock is free. */
  method FailedRollbackStaysPending(s: GraphIntegrationSession, me: string, a: IntegrationAttempt, base: Tree,
                                    faults: RollbackFaults)
    returns (raised: bool, done: bool)
    requires s.snapshot.Valid() && Retained(s, me, a, base)
    modifies s`lock, s.snapshot, a`lockHeld, a.patchResult
    ensures s.lock == None
    ensures s.snapshot.pendingRollback == None <==> !faults.Fails()
    ensures !faults.Fails() ==> Settled(s.snapshot, base)
  {
    raised, done := s.Rollback(me, a, faults);
  }
}
