/** The graph integration session: one lock-protected transaction at a time on one
    canonical workspace. */
module Session {
  import opened Contracts
  import opened Paths
  import opened UnifiedDiff
  import opened Transaction
  import opened Workspace
  import opened Integrator
  import Parser
  import opened Reservations

  class IntegrationAttempt {
    const patchResult: PatchResult?
    const conflicts: bool
    const issues: seq<HunkError>
    const expectedStates: FileStates
    var lockHeld: bool

    constructor (patchResult: PatchResult?, conflicts: bool, issues: seq<HunkError>,
                 expectedStates: FileStates, lockHeld: bool)
      ensures this.patchResult == patchResult && this.conflicts == conflicts && this.issues == issues
      ensures this.expectedStates == expectedStates && this.lockHeld == lockHeld
    {
      this.patchResult, this.conflicts, this.issues := patchResult, conflicts, issues;
      this.expectedStates, this.lockHeld := expectedStates, lockHeld;
    }

    predicate Accepted() {
      !conflicts && issues == [] && patchResult != null && patchResult.Success()
    }
  }

  /** What the environment decides during one proposal: whether the source drifted,
      and whether and where reading or applying the patch fails. */
  datatype ProposalEnv = ProposalEnv(conflict: bool, unreadable: bool, faults: ApplyFaults)

  function SourceOf(tree: Tree, states: FileStates): Source {
    Source(tree.files, states)
  }

  /** The proposal can be applied to a settled workspace: no drift, a readable patch
      that parses and is applicable under the write paths, and no failing step. */
  predicate Admissible(tree: Tree, states: FileStates, patch: string, writePaths: seq<Path>, env: ProposalEnv) {
    && ResolveAll(writePaths).Some? && !env.conflict && !env.unreadable
    && var parsed := ParsePatch(patch, SourceOf(tree, states));
       && parsed.Success?
       && !env.faults.symlink && !env.faults.mkdtemp && !env.faults.Fails(|parsed.value|)
       && Applicable(parsed.value, states, ResolveAll(writePaths), tree.dirs)
  }

  /** The proposal is fine but moving the new tree in fails, and so do both attempts to
      move the old one back: the workspace is lost. */
  predicate Ruinous(tree: Tree, states: FileStates, patch: string, writePaths: seq<Path>, env: ProposalEnv) {
    && ResolveAll(writePaths).Some? && !env.conflict && !env.unreadable
    && var parsed := ParsePatch(patch, SourceOf(tree, states));
       && parsed.Success?
       && !env.faults.symlink && !env.faults.mkdtemp && env.faults.Loses(|parsed.value|)
       && Applicable(parsed.value, states, ResolveAll(writePaths), tree.dirs)
  }

  predicate Ruined(s: Shared, patch: string, writePaths: seq<Path>, env: ProposalEnv) {
    s.pending == None && s.root.Some? && Ruinous(s.root.value, s.states, patch, writePaths, env)
  }

  /** How a rollback fails under the given faults. */
  function FailureOf(s: Shared, faults: RollbackFaults): RollbackFailure
    requires s.pending.Some?
  {
    if s.pending.value.None? || s.root.None? || faults.swapOut || (faults.swapIn && !faults.restore) then WorkspaceKept
    else if faults.swapIn then WorkspaceLost
    else WorkspaceRestored
  }

  class GraphIntegrationSession {
    const snapshot: IntegrationSnapshot
    const reservations: WriteReservationManager
    /** The owner of the integration lock, if it is held. */
    var lock: Option<string>

    constructor (snapshot: IntegrationSnapshot)
      ensures this.snapshot == snapshot && fresh(reservations) && reservations.Valid()
      ensures lock == None && reservations.active == map[]
    {
      this.snapshot := snapshot;
      this.lock := None;
      this.reservations := new WriteReservationManager();
    }

    /** The shared state as a value. */
    ghost function View(): Shared
      reads this, snapshot
    {
      Shared(
        if snapshot.root in snapshot.disk then Some(snapshot.disk[snapshot.root]) else None,
        snapshot.fileStates,
        match snapshot.pendingRollback
        case None => None
        case Some(d) => Some(if d in snapshot.disk then Some(snapshot.disk[d]) else None),
        lock)
    }

    /** The attempt is the pending transaction and its thread owns the lock. */
    ghost predicate Holds(me: string, attempt: IntegrationAttempt)
      reads this, snapshot, attempt, if attempt.patchResult == null then {} else {attempt.patchResult}
    {
      && lock == Some(me) && attempt.lockHeld
      && attempt.patchResult != null
      && snapshot.pendingRollback.Some? && attempt.patchResult.rollbackDir == snapshot.pendingRollback
    }

    /** The directory an attempt retains, if any. */
    ghost function RetainedBy(attempt: IntegrationAttempt): Option<DirId>
      reads attempt, if attempt.patchResult == null then {} else {attempt.patchResult}
    {
      if attempt.patchResult == null then None else attempt.patchResult.rollbackDir
    }

    /** The retained directory is the pending one. */
    static ghost predicate Owns(attempt: IntegrationAttempt, pending: Option<DirId>, retained: Option<DirId>) {
      attempt.patchResult != null && pending.Some? && retained == pending
    }

    /** Applies a proposal under the lock. An accepted attempt keeps the lock and the
        old workspace; every other outcome frees the lock and leaves the recorded
        states, the pending transaction and (but for a lost workspace) the tree. */
    method ApplyProposal(me: string, patch: string, writePaths: seq<Path>, env: ProposalEnv)
      returns (raised: bool, attempt: IntegrationAttempt)
      requires snapshot.Valid() && lock == None
      modifies this`lock, snapshot
      ensures snapshot.Valid() && fresh(attempt) && (attempt.patchResult != null ==> fresh(attempt.patchResult))
      ensures raised ==> !attempt.Accepted()
      ensures attempt.conflicts <==> ResolveAll(writePaths).Some? && env.conflict
      ensures attempt.conflicts ==> !raised
      ensures ResolveAll(writePaths).None? ==> raised
      ensures attempt.Accepted() ==>
        && !env.conflict && old(snapshot.pendingRollback) == None && snapshot.root in old(snapshot.disk)
        && Holds(me, attempt)
        && snapshot.pendingRollback.value in snapshot.disk
        && snapshot.disk[snapshot.pendingRollback.value] == old(snapshot.disk)[snapshot.root]
        && attempt.expectedStates == snapshot.fileStates
        && ParsePatch(patch, SourceOf(old(snapshot.disk)[snapshot.root], old(snapshot.fileStates)))
           == Success(attempt.patchResult.applied)
        && ResolveAll(writePaths).Some?
        && Applicable(attempt.patchResult.applied, old(snapshot.fileStates), ResolveAll(writePaths),
          old(snapshot.disk)[snapshot.root].dirs)
        && snapshot.root in snapshot.disk
        && snapshot.disk[snapshot.root] == ApplyOps(old(snapshot.disk)[snapshot.root], attempt.patchResult.applied)
        && snapshot.fileStates == RecordOps(old(snapshot.fileStates), attempt.patchResult.applied)
      ensures attempt.Accepted() <==>
        && old(snapshot.pendingRollback) == None && snapshot.root in old(snapshot.disk)
        && Admissible(old(snapshot.disk)[snapshot.root], old(snapshot.fileStates), patch, writePaths, env)
      ensures attempt.Accepted() ==> View() == Opened(old(View()), me, attempt.patchResult.applied)
      ensures !attempt.Accepted() ==>
        && lock == None && !attempt.lockHeld
        && (attempt.patchResult != null ==> attempt.patchResult.rollbackDir == None)
        && snapshot.pendingRollback == old(snapshot.pendingRollback) && snapshot.fileStates == old(snapshot.fileStates)
      ensures !attempt.Accepted() ==>
        View() == if Ruined(old(View()), patch, writePaths, env) then old(View()).(root := None) else old(View())
      ensures Ruined(old(View()), patch, writePaths, env) ==> raised
    {
      lock := Some(me);
      var allowed := ResolveAll(writePaths);
      if allowed.None? {
        attempt := new IntegrationAttempt(null, false, [InvalidPatch], map[], false);
        lock := None;
        return true, attempt;
      }
      if env.conflict {
        attempt := new IntegrationAttempt(null, true, [], map[], false);
        lock := None;
        return false, attempt;
      }
      var tree := if snapshot.root in snapshot.disk then snapshot.disk[snapshot.root] else Tree(map[], {});
      var parsed := Parser.ParseUnifiedDiff(patch, SourceOf(tree, snapshot.fileStates));
      var result: PatchResult;
      raised := false;
      if env.unreadable || parsed.Failure? {
        result := new PatchResult([], [HunkError.InvalidPatch], None);
      } else {
        var applier := new PatchApplier(snapshot, allowed);
        raised, result := applier.Apply(parsed.value, env.faults);
      }
      var keep := result.Success() && result.rollbackDir.Some?;
      attempt := new IntegrationAttempt(result, false, result.issues, snapshot.fileStates, keep);
      if !keep {
        lock := None;
      }
    }

    /** The verifier left the workspace exactly as the transaction recorded it. */
    method PostVerificationIssues(attempt: IntegrationAttempt, symlink: bool, unreadable: bool) returns (issues: bool)
      ensures !issues <==>
        && !symlink && !unreadable
        && snapshot.root in snapshot.disk && Scan(snapshot.disk[snapshot.root]) == attempt.expectedStates
      ensures View() == old(View())
    {
      issues := symlink || unreadable || snapshot.root !in snapshot.disk
        || Scan(snapshot.disk[snapshot.root]) != attempt.expectedStates;
    }

    /** Ends the transaction keeping the tree, and frees the lock even if it raises. */
    method Commit(me: string, attempt: IntegrationAttempt) returns (raised: bool)
      requires snapshot.Valid() && (attempt.lockHeld ==> lock == Some(me))
      modifies this`lock, snapshot, attempt`lockHeld, if attempt.patchResult == null then {} else {attempt.patchResult}
      ensures snapshot.Valid() && !attempt.lockHeld
      ensures lock == if old(attempt.lockHeld) then None else old(lock)
      ensures snapshot.fileStates == old(snapshot.fileStates)
      ensures snapshot.root in snapshot.disk <==> snapshot.root in old(snapshot.disk)
      ensures snapshot.root in snapshot.disk ==> snapshot.disk[snapshot.root] == old(snapshot.disk)[snapshot.root]
      ensures old(Holds(me, attempt)) ==> !raised && snapshot.pendingRollback == None
      ensures old(Holds(me, attempt)) ==> attempt.patchResult.rollbackDir == None
      ensures old(Holds(me, attempt)) ==> View() == Kept(old(View()))
    {
      raised := false;
      if attempt.patchResult != null {
        var applier := new PatchApplier(snapshot, None);
        raised := applier.Commit(attempt.patchResult);
      }
      ReleaseAttemptLock(attempt);
    }

    /** Ends the transaction restoring the old tree; frees the lock even if it raises. */
    method Rollback(me: string, attempt: IntegrationAttempt, faults: RollbackFaults) returns (raised: bool, done: bool)
      requires snapshot.Valid() && (attempt.lockHeld ==> lock == Some(me))
      modifies this`lock, snapshot, attempt`lockHeld, if attempt.patchResult == null then {} else {attempt.patchResult}
      ensures snapshot.Valid() && !attempt.lockHeld
      ensures lock == if old(attempt.lockHeld) then None else old(lock)
      ensures !Owns(attempt, old(snapshot.pendingRollback), old(RetainedBy(attempt))) ==>
        View() == old(View()).(lock := lock) && !done && snapshot.disk == old(snapshot.disk)
      ensures Owns(attempt, old(snapshot.pendingRollback), old(RetainedBy(attempt))) ==>
        && (done <==> old(View()).pending.value.Some? && old(View()).root.Some? && !faults.Fails())
        && (raised <==> old(View()).pending.value.Some? && !done)
        && View() == (if done then Restored(old(View()))
                      else Failed(old(View()), FailureOf(old(View()), faults))).(lock := lock)
      ensures RetainedBy(attempt) == if done then None else old(RetainedBy(attempt))
      ensures !done ==> snapshot.pendingRollback == old(snapshot.pendingRollback)
      ensures old(RetainedBy(attempt)) == None ==> !raised
    {
      raised, done := false, false;
      if attempt.patchResult != null {
        var applier := new PatchApplier(snapshot, None);
        raised, done := applier.Rollback(attempt.patchResult, faults);
      }
      ReleaseAttemptLock(attempt);
    }

    method ReleaseAttemptLock(attempt: IntegrationAttempt)
      modifies this`lock, attempt`lockHeld
      ensures !attempt.lockHeld
      ensures lock == if old(attempt.lockHeld) then None else old(lock)
    {
      if attempt.lockHeld {
        attempt.lockHeld := false;
        lock := None;
      }
    }
  }
}
