/** Serializability: every interleaving of node threads through apply, verify and
    commit or rollback leaves the workspace at the initial snapshot plus the
    committed patches, in commit order. */
module Interleaving {
  import opened Contracts
  import opened UnifiedDiff
  import opened Workspace
  import opened Transaction

  /** Where one thread stands. `Orphaned`: its rollback failed, the transaction is
      still pending but the lock is free. */
  datatype Phase = Idle | Applied(ops: seq<PatchOp>) | Checked(ops: seq<PatchOp>) | Orphaned

  /** A commit: the patch, its write set, and the directories it was admitted under. */
  datatype Commit = Commit(ops: seq<PatchOp>, allowed: set<Path>, dirs: set<Path>)

  datatype World = World(shared: Shared, phases: map<string, Phase>, admitted: Option<Commit>, log: seq<Commit>)

  datatype Step =
    | Apply(t: string, ops: seq<PatchOp>, allowed: set<Path>)
    | ApplyFails(t: string, lost: bool)
    | VerifierRuns(t: string, tree: Tree)
    | CheckPasses(t: string)
    | Commits(t: string)
    | RollsBack(t: string)
    | RollbackFails(t: string, how: RollbackFailure)

  predicate InTransaction(p: Phase) {
    p.Applied? || p.Checked?
  }

  /** One step of thread `t`. Applying needs the free lock and succeeds only on an
      admissible patch with nothing pending. The post-integration checks may leave
      any tree behind. Committing needs a passed comparison with the records. */
  ghost predicate Next(w: World, step: Step, w': World) {
    var s := w.shared;
    && step.t in w.phases
    && var phase := w.phases[step.t];
       match step
       case Apply(t, ops, allowed) =>
         && phase.Idle? && s.lock == None && s.pending == None && s.root.Some?
         && Applicable(ops, s.states, Some(allowed), s.root.value.dirs)
         && w' == World(Opened(s, t, ops), w.phases[t := Applied(ops)],
                        Some(Commit(ops, allowed, s.root.value.dirs)), w.log)
       case ApplyFails(t, lost) =>
         && phase.Idle? && s.lock == None && (lost ==> s.pending == None)
         && w' == w.(shared := if lost then s.(root := None) else s)
       case VerifierRuns(t, tree) =>
         phase.Applied? && s.root.Some? && w' == w.(shared := s.(root := Some(tree)))
       case CheckPasses(t) =>
         && phase.Applied? && s.root.Some? && Scan(s.root.value) == s.states
         && w' == w.(phases := w.phases[t := Checked(phase.ops)])
       case Commits(t) =>
         && phase.Checked? && w.admitted.Some?
         && w' == World(Kept(s), w.phases[t := Idle], None, w.log + [w.admitted.value])
       case RollsBack(t) =>
         && !phase.Idle? && s.pending.Some? && s.pending.value.Some? && s.root.Some?
         && w' == World(Restored(s).(lock := if InTransaction(phase) then None else s.lock),
                        w.phases[t := Idle], None, w.log)
       case RollbackFails(t, how) =>
         && !phase.Idle? && s.pending.Some?
         && (how.WorkspaceRestored? ==> s.pending.value.Some?)
         && w' == World(Failed(s, how).(lock := if InTransaction(phase) then None else s.lock),
                        w.phases[t := Orphaned], w.admitted, w.log)
  }

  function Patches(log: seq<Commit>): seq<seq<PatchOp>> {
    if log == [] then [] else Patches(log[..|log| - 1]) + [log[|log| - 1].ops]
  }

  /** The serial execution: the committed patches applied to the snapshot in order. */
  function Serial(initial: Tree, log: seq<Commit>): Tree {
    if log == [] then initial else ApplyOps(Serial(initial, log[..|log| - 1]), log[|log| - 1].ops)
  }

  /** Every committed patch was admissible where it stands in the serial execution. */
  predicate SerialIsAdmissible(initial: Tree, log: seq<Commit>) {
    log == [] ||
    var before, last := log[..|log| - 1], log[|log| - 1];
    SerialIsAdmissible(initial, before)
      && Applicable(last.ops, Scan(Serial(initial, before)), Some(last.allowed), last.dirs)
  }

  /** At most one thread is away from idle, and exactly when a transaction is pending. */
  ghost predicate OneTransaction(w: World) {
    && (forall t, u | t in w.phases && u in w.phases && !w.phases[t].Idle? && !w.phases[u].Idle? :: t == u)
    && (w.shared.pending.Some? <==> exists t :: t in w.phases && !w.phases[t].Idle?)
  }

  /** The lock is held exactly by the thread inside its transaction. */
  ghost predicate LockedByOwner(w: World) {
    forall t | t in w.phases :: w.shared.lock == Some(t) <==> InTransaction(w.phases[t])
  }

  /** The base of the open transaction, or the workspace itself, is the serial state. */
  ghost predicate BaseIsSerial(initial: Tree, w: World) {
    var now := Scan(Serial(initial, w.log));
    match w.shared.pending
    case None => w.shared.states == now && (w.shared.root.Some? ==> Scan(w.shared.root.value) == now)
    case Some(Some(base)) => Scan(base) == now
    case Some(None) => true
  }

  /** The open transaction recorded its patch, and a checked one matches the tree. */
  ghost predicate TransactionRecorded(initial: Tree, w: World) {
    forall t | t in w.phases && InTransaction(w.phases[t]) ::
      && w.shared.pending.Some? && w.shared.pending.value.Some?
      && w.admitted.Some? && w.admitted.value.ops == w.phases[t].ops
      && Applicable(w.phases[t].ops, Scan(Serial(initial, w.log)), Some(w.admitted.value.allowed),
        w.admitted.value.dirs)
      && w.shared.states == RecordOps(Scan(Serial(initial, w.log)), w.phases[t].ops)
      && (w.phases[t].Checked? ==> w.shared.root.Some? && Scan(w.shared.root.value) == w.shared.states)
  }

  ghost predicate LockIsOwned(w: World) {
    w.shared.lock.Some? ==> w.shared.lock.value in w.phases
  }

  ghost predicate Inv(initial: Tree, w: World) {
    && OneTransaction(w) && LockedByOwner(w) && LockIsOwned(w)
    && BaseIsSerial(initial, w) && TransactionRecorded(initial, w)
    && SerialIsAdmissible(initial, w.log)
  }

  ghost predicate Init(initial: Tree, w: World) {
    && w.shared == Shared(Some(initial), Scan(initial), None, None)
    && (forall t | t in w.phases :: w.phases[t].Idle?)
    && w.admitted == None && w.log == []
  }

  // ---------------------------------------------------------------------------
  // Every step keeps the invariant
  // ---------------------------------------------------------------------------

  lemma CommitExtendsSerial(initial: Tree, log: seq<Commit>, c: Commit)
    ensures Serial(initial, log + [c]) == ApplyOps(Serial(initial, log), c.ops)
    ensures SerialIsAdmissible(initial, log + [c]) <==>
      SerialIsAdmissible(initial, log) && Applicable(c.ops, Scan(Serial(initial, log)), Some(c.allowed), c.dirs)
  {
    assert (log + [c])[..|log|] == log;
  }

  /** A recorded patch whose records match a scan changes no excluded path. */
  lemma RecordedIsSerial(base: Tree, ops: seq<PatchOp>, states: FileStates, tree: Tree)
    requires states == RecordOps(Scan(base), ops) && Scan(tree) == states
    ensures Scan(ApplyOps(base, ops)) == states
  {
    assert Visible(Scan(base)) == Scan(base);
    RecordFollowsTree(base, Scan(base), ops);
    assert Visible(states) == states;
  }

  lemma ApplyKeepsInv(initial: Tree, w: World, step: Step, w': World)
    requires Inv(initial, w) && Next(w, step, w') && step.Apply?
    ensures Inv(initial, w')
  {
    assert step.t in w'.phases && !w'.phases[step.t].Idle?;
    assert forall t | t in w.phases :: w.phases[t].Idle?;
  }

  /** What a checked transaction leaves is the serial state extended by its patch. */
  lemma CommittedIsSerial(initial: Tree, w: World, t: string)
    requires Inv(initial, w) && t in w.phases && w.phases[t].Checked? && w.admitted.Some?
    ensures var c := w.admitted.value;
      && w.shared.root.Some? && w.shared.states == Scan(w.shared.root.value)
      && w.shared.states == Scan(ApplyOps(Serial(initial, w.log), c.ops))
      && Applicable(c.ops, Scan(Serial(initial, w.log)), Some(c.allowed), c.dirs)
  {
    RecordedIsSerial(Serial(initial, w.log), w.admitted.value.ops, w.shared.states, w.shared.root.value);
  }

  lemma CommitKeepsInv(initial: Tree, w: World, step: Step, w': World)
    requires Inv(initial, w) && Next(w, step, w') && step.Commits?
    ensures Inv(initial, w')
  {
    var c := w.admitted.value;
    CommittedIsSerial(initial, w, step.t);
    CommitExtendsSerial(initial, w.log, c);
    assert w'.log == w.log + [c] && w'.shared == Kept(w.shared);
    assert forall t | t in w'.phases :: w'.phases[t].Idle?;
  }

  lemma RollbackKeepsInv(initial: Tree, w: World, step: Step, w': World)
    requires Inv(initial, w) && Next(w, step, w') && step.RollsBack?
    ensures Inv(initial, w')
  {
    assert forall t | t in w'.phases :: w'.phases[t].Idle?;
  }

  lemma FailedRollbackKeepsInv(initial: Tree, w: World, step: Step, w': World)
    requires Inv(initial, w) && Next(w, step, w') && step.RollbackFails?
    ensures Inv(initial, w')
  {
    assert step.t in w'.phases && !w'.phases[step.t].Idle?;
  }

  lemma StepKeepsInv(initial: Tree, w: World, step: Step, w': World)
    requires Inv(initial, w) && Next(w, step, w')
    ensures Inv(initial, w')
  {
    match step {
      case Apply(_, _, _) => ApplyKeepsInv(initial, w, step, w');
      case Commits(_) => CommitKeepsInv(initial, w, step, w');
      case RollsBack(_) => RollbackKeepsInv(initial, w, step, w');
      case RollbackFails(_, _) => FailedRollbackKeepsInv(initial, w, step, w');
      case CheckPasses(t) =>
        assert forall u | u in w.phases :: w'.phases[u].Idle? <==> w.phases[u].Idle?;
        assert forall u | u in w.phases :: InTransaction(w'.phases[u]) <==> InTransaction(w.phases[u]);
      case ApplyFails(_, _) =>
      case VerifierRuns(_, _) =>
    }
  }

  /** A run: worlds joined by steps. */
  ghost predicate Run(initial: Tree, ws: seq<World>, steps: seq<Step>) {
    && |ws| == |steps| + 1 && Init(initial, ws[0])
    && forall i | 0 <= i < |steps| :: Next(ws[i], steps[i], ws[i + 1])
  }

  lemma {:induction false} RunKeepsInv(initial: Tree, ws: seq<World>, steps: seq<Step>, n: nat)
    requires Run(initial, ws, steps) && n < |ws|
    ensures Inv(initial, ws[n])
  {
    if n > 0 {
      RunKeepsInv(initial, ws, steps, n - 1);
      StepKeepsInv(initial, ws[n - 1], steps[n - 1], ws[n]);
    }
  }

  /** Serializability. In every run, at every moment: at most one thread is inside a
      transaction, it holds the lock, and nobody else does; every committed patch
      was admissible at its place in the serial order; and whenever no transaction
      is pending, the workspace, if it is there, shows exactly the initial snapshot
      with the committed patches applied in commit order, and so do the records. */
  lemma Serializable(initial: Tree, ws: seq<World>, steps: seq<Step>, n: nat)
    requires Run(initial, ws, steps) && n < |ws|
    ensures var w := ws[n];
      && (forall t, u | t in w.phases && u in w.phases ::
            InTransaction(w.phases[t]) && InTransaction(w.phases[u]) ==> t == u)
      && (forall t | t in w.phases :: w.shared.lock == Some(t) <==> InTransaction(w.phases[t]))
      && SerialIsAdmissible(initial, w.log)
      && (w.shared.pending == None ==>
          && w.shared.states == Scan(Serial(initial, w.log))
          && (w.shared.root.Some? ==> Scan(w.shared.root.value) == Scan(Serial(initial, w.log))))
  {
    RunKeepsInv(initial, ws, steps, n);
  }

  /** A transaction is pending without the lock exactly after a failed rollback that
      has not been repaired: without such failures, pending and locked coincide. */
  lemma PendingMeansLocked(initial: Tree, ws: seq<World>, steps: seq<Step>, n: nat)
    requires Run(initial, ws, steps) && n < |ws|
    ensures var w := ws[n];
      w.shared.pending.Some? <==> w.shared.lock.Some? || exists t :: t in w.phases && w.phases[t].Orphaned?
  {
    RunKeepsInv(initial, ws, steps, n);
    var w := ws[n];
    if w.shared.lock.Some? { assert InTransaction(w.phases[w.shared.lock.value]); }
    if w.shared.pending.Some? {
      var t :| t in w.phases && !w.phases[t].Idle?;
      assert InTransaction(w.phases[t]) ==> w.shared.lock == Some(t);
    }
  }

  lemma {:induction false} SerialIsReplay(initial: Tree, log: seq<Commit>)
    ensures Serial(initial, log) == Replay(initial, Patches(log))
    decreases |log|
  {
    if log != [] {
      SerialIsReplay(initial, log[..|log| - 1]);
      ReplayAppend(initial, Patches(log[..|log| - 1]), log[|log| - 1].ops);
    }
  }

  lemma {:induction false} ReplayAppend(tree: Tree, log: seq<seq<PatchOp>>, ops: seq<PatchOp>)
    ensures Replay(tree, log + [ops]) == ApplyOps(Replay(tree, log), ops)
    decreases |log|
  {
    if log == [] {
      assert log + [ops] == [ops] && [ops][1..] == [];
    } else {
      assert (log + [ops])[1..] == log[1..] + [ops];
      ReplayAppend(ApplyOps(tree, log[0]), log[1..], ops);
    }
  }

  /** Two runs that committed the same pairwise disjoint patches, in whatever order,
      end with the same visible workspace. */
  lemma CommitOrderOfRunsIrrelevant(initial: Tree, ws: seq<World>, steps: seq<Step>, ws': seq<World>, steps': seq<Step>)
    requires Run(initial, ws, steps) && Run(initial, ws', steps')
    requires var w, w' := ws[|steps|], ws'[|steps'|];
      && w.shared.pending == None && w.shared.root.Some? && w'.shared.pending == None && w'.shared.root.Some?
      && multiset(Patches(w.log)) == multiset(Patches(w'.log)) && PairwiseDisjointPatches(Patches(w'.log))
    ensures Scan(ws[|steps|].shared.root.value) == Scan(ws'[|steps'|].shared.root.value)
  {
    var w, w' := ws[|steps|], ws'[|steps'|];
    Serializable(initial, ws, steps, |steps|);
    Serializable(initial, ws', steps', |steps'|);
    SerialIsReplay(initial, w.log);
    SerialIsReplay(initial, w'.log);
    CommitOrderIrrelevant(initial, Patches(w.log), Patches(w'.log));
  }
}
