/** The session's methods are steps of the interleaving machine: what each does to the
    shared state, seen through `View`, is a step of the calling thread. */
module Simulation {
  import opened Contracts
  import opened Paths
  import opened Workspace
  import opened Transaction
  import opened Integrator
  import opened Session
  import I = Interleaving

  /** The machine `w` is in step with the session. */
  ghost predicate InStep(s: GraphIntegrationSession, w: I.World)
    reads s, s.snapshot
  {
    s.snapshot.Valid() && w.shared == s.View()
  }

  /** Where thread `t` stands after applying its proposal. */
  ghost function AfterProposal(w: I.World, t: string, writePaths: seq<Path>, attempt: IntegrationAttempt,
                               shared: Shared): I.World
    requires w.shared.root.Some? && ResolveAll(writePaths).Some? && attempt.patchResult != null
  {
    var ops, allowed := attempt.patchResult.applied, ResolveAll(writePaths).value;
    I.World(shared, w.phases[t := I.Applied(ops)], Some(I.Commit(ops, allowed, w.shared.root.value.dirs)), w.log)
  }

  /** A proposal is one step: it opens the transaction, or it fails and leaves the
      shared state alone but for a lost workspace. */
  method ApplyIsStep(s: GraphIntegrationSession, ghost w: I.World, t: string, patch: string, writePaths: seq<Path>,
                     env: ProposalEnv)
    returns (raised: bool, attempt: IntegrationAttempt, ghost w': I.World)
    requires InStep(s, w) && s.lock == None && t in w.phases && w.phases[t].Idle?
    modifies s`lock, s.snapshot
    ensures InStep(s, w')
    ensures attempt.Accepted() ==>
      && attempt.patchResult != null && ResolveAll(writePaths).Some?
      && I.Next(w, I.Apply(t, attempt.patchResult.applied, ResolveAll(writePaths).value), w')
    ensures !attempt.Accepted() ==> I.Next(w, I.ApplyFails(t, Ruined(w.shared, patch, writePaths, env)), w')
  {
    raised, attempt := s.ApplyProposal(t, patch, writePaths, env);
    w' := if attempt.Accepted() then AfterProposal(w, t, writePaths, attempt, s.View()) else w.(shared := s.View());
  }

  /** A comparison without issues is one step. */
  method CheckIsStep(s: GraphIntegrationSession, ghost w: I.World, t: string, attempt: IntegrationAttempt,
                     symlink: bool, unreadable: bool)
    returns (issues: bool, ghost w': I.World)
    requires InStep(s, w) && t in w.phases && w.phases[t].Applied? && attempt.expectedStates == s.snapshot.fileStates
    ensures InStep(s, w')
    ensures if issues then w' == w else I.Next(w, I.CheckPasses(t), w')
  {
    issues := s.PostVerificationIssues(attempt, symlink, unreadable);
    w' := if issues then w else w.(phases := w.phases[t := I.Checked(w.phases[t].ops)]);
  }

  /** A commit by the holder after the comparison is one step. */
  method CommitIsStep(s: GraphIntegrationSession, ghost w: I.World, t: string, attempt: IntegrationAttempt)
    returns (raised: bool, ghost w': I.World)
    requires InStep(s, w) && s.Holds(t, attempt) && t in w.phases && w.phases[t].Checked? && w.admitted.Some?
    modifies s`lock, s.snapshot, attempt`lockHeld, attempt.patchResult
    ensures !raised && InStep(s, w') && I.Next(w, I.Commits(t), w')
  {
    raised := s.Commit(t, attempt);
    w' := I.World(s.View(), w.phases[t := I.Idle], None, w.log + [w.admitted.value]);
  }

  /** A rollback of the pending transaction is one step, whether it is done or fails:
      the first from inside the transaction, any further one without the lock. */
  method RollbackIsStep(s: GraphIntegrationSession, ghost w: I.World, t: string, attempt: IntegrationAttempt,
                        faults: RollbackFaults)
    returns (raised: bool, done: bool, ghost w': I.World)
    requires InStep(s, w) && t in w.phases && !w.phases[t].Idle?
    requires attempt.lockHeld <==> I.InTransaction(w.phases[t])
    requires attempt.lockHeld ==> s.lock == Some(t)
    requires attempt.patchResult != null && attempt.patchResult.rollbackDir.Some?
    requires attempt.patchResult.rollbackDir == s.snapshot.pendingRollback
    modifies s`lock, s.snapshot, attempt`lockHeld, attempt.patchResult
    ensures InStep(s, w')
    ensures I.Next(w, if done then I.RollsBack(t) else I.RollbackFails(t, FailureOf(w.shared, faults)), w')
  {
    raised, done := s.Rollback(t, attempt, faults);
    w' := if done then I.World(s.View(), w.phases[t := I.Idle], None, w.log)
          else I.World(s.View(), w.phases[t := I.Orphaned], w.admitted, w.log);
  }
}
