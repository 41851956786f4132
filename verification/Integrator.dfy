/** The patch transaction: apply, commit and rollback on the workspace directory,
    with every filesystem step allowed to fail. */
module Integrator {
  import opened Contracts
  import opened Paths
  import opened UnifiedDiff
  import opened Workspace

  /** Which filesystem step of an application fails, if it is reached. */
  datatype ApplyFaults = ApplyFaults(
    symlink: bool, mkdtemp: bool, copy: bool, write: Option<nat>,
    swapOut: bool, swapIn: bool, innerRestore: bool, outerRestore: bool)
  {
    /** A step before the old workspace is moved away fails. */
    predicate FailsBeforeSwap(n: nat) {
      copy || (write.Some? && write.value < n) || swapOut
    }

    predicate Fails(n: nat) {
      FailsBeforeSwap(n) || swapIn
    }

    /** The one way to lose the workspace: moving the new one in fails, and so do
        both attempts to move the old one back. */
    predicate Loses(n: nat) {
      !FailsBeforeSwap(n) && swapIn && innerRestore && outerRestore
    }
  }

  datatype RollbackFaults = RollbackFaults(swapOut: bool, swapIn: bool, restore: bool, rescan: bool) {
    predicate Fails() {
      swapOut || swapIn || rescan
    }
  }

  // ---------------------------------------------------------------------------
  // Copying the source
  // ---------------------------------------------------------------------------

  /** `skipped` are the entries that are no regular files or directories, or that cannot
      be read or written. */
  predicate Copied(p: Path, skipped: set<Path>) {
    p != [] && !Excluded(p) && p !in skipped
  }

  predicate IsEmptyDir(source: Tree, d: Path) {
    (forall p | p in source.files :: !(d < p)) && forall p | p in source.dirs :: !(d < p)
  }

  /** The directories that copying an entry makes: those above a file, and an empty
      directory with those above it. */
  function Makes(source: Tree, skipped: set<Path>, p: Path): set<Path> {
    if !Copied(p, skipped) then {}
    else if p !in source.dirs then Ancestors(p)
    else if IsEmptyDir(source, p) then Ancestors(p) + {p}
    else {}
  }

  function MadeBy(source: Tree, skipped: set<Path>, entries: set<Path>): set<Path> {
    {[]} + set p, d | p in entries && d in Makes(source, skipped, p) :: d
  }

  function CopiedFiles(source: Tree, skipped: set<Path>, entries: set<Path>): map<Path, string> {
    map p | p in entries && p in source.files && Copied(p, skipped) :: source.files[p]
  }

  /** Every copied file with its content, and no directory but those that are needed. */
  predicate IsCopy(tree: Tree, source: Tree, skipped: set<Path>) {
    var entries := source.files.Keys + source.dirs;
    tree.files == CopiedFiles(source, skipped, entries) && tree.dirs == MadeBy(source, skipped, entries)
  }

  /** Exactly what a copy holds: the files that are not excluded or skipped, and the
      directories above them, the empty ones that are not excluded or skipped, those above
      these, and the root. */
  lemma CopyExactly(tree: Tree, source: Tree, skipped: set<Path>)
    requires IsCopy(tree, source, skipped) && source.files.Keys !! source.dirs
    ensures forall p :: p in tree.files <==> p in source.files && p != [] && !Excluded(p) && p !in skipped
    ensures forall p | p in tree.files :: tree.files[p] == source.files[p]
    ensures forall d :: d in tree.dirs <==> d == [] || IsAbove(d, tree) || AboveEmpty(d, source, skipped)
  {
    forall d ensures d in tree.dirs <==> d == [] || IsAbove(d, tree) || AboveEmpty(d, source, skipped) {
      CopiedDirIsNeeded(d, tree, source, skipped);
      NeededDirIsCopied(d, tree, source, skipped);
    }
  }

  lemma CopiedDirIsNeeded(d: Path, tree: Tree, source: Tree, skipped: set<Path>)
    requires IsCopy(tree, source, skipped) && source.files.Keys !! source.dirs
    ensures d in tree.dirs ==> d == [] || IsAbove(d, tree) || AboveEmpty(d, source, skipped)
  {
    if d in tree.dirs && d != [] {
      var p :| p in source.files.Keys + source.dirs && d in Makes(source, skipped, p);
      if p in source.dirs {
        assert d <= p && IsEmptyDir(source, p);
      } else {
        assert p in tree.files && d < p;
      }
    }
  }

  lemma NeededDirIsCopied(d: Path, tree: Tree, source: Tree, skipped: set<Path>)
    requires IsCopy(tree, source, skipped) && source.files.Keys !! source.dirs
    ensures d == [] || IsAbove(d, tree) || AboveEmpty(d, source, skipped) ==> d in tree.dirs
  {
    if IsAbove(d, tree) {
      var p :| p in tree.files && d < p;
      assert d == p[..|d|] && d in Makes(source, skipped, p);
    }
    if AboveEmpty(d, source, skipped) {
      var e :| e in source.dirs && d <= e && e != [] && !Excluded(e) && e !in skipped
        && forall p | p in source.files.Keys + source.dirs :: !(e < p);
      assert IsEmptyDir(source, e);
      assert d == e || d == e[..|d|];
      assert d in Makes(source, skipped, e);
    }
  }

  predicate IsAbove(d: Path, tree: Tree) {
    exists p | p in tree.files :: d < p
  }

  /** At or above an empty directory that is copied. */
  predicate AboveEmpty(d: Path, source: Tree, skipped: set<Path>) {
    exists e | e in source.dirs ::
      && d <= e && e != [] && !Excluded(e) && e !in skipped
      && forall p | p in source.files.Keys + source.dirs :: !(e < p)
  }

  method CopySource(source: Tree, skipped: set<Path>) returns (tree: Tree, states: FileStates)
    requires source.files.Keys !! source.dirs
    ensures IsCopy(tree, source, skipped) && states == Scan(tree)
  {
    tree, states := Tree(map[], {[]}), map[];
    var todo := source.files.Keys + source.dirs;
    ghost var done: set<Path> := {};
    while todo != {}
      invariant done + todo == source.files.Keys + source.dirs
      invariant tree.files == CopiedFiles(source, skipped, done) == states
      invariant tree.dirs == MadeBy(source, skipped, done)
    {
      var p :| p in todo;
      EntryCopied(source, skipped, done, p);
      tree, states := CopyEntry(source, skipped, p, tree, states);
      done := done + {p};
      todo := todo - {p};
    }
    assert done == source.files.Keys + source.dirs;
    assert Scan(tree) == tree.files;
  }

  method CopyEntry(source: Tree, skipped: set<Path>, p: Path, tree: Tree, states: FileStates)
    returns (tree': Tree, states': FileStates)
    requires p in source.files || p in source.dirs
    requires source.files.Keys !! source.dirs && tree.files == states
    ensures tree'.dirs == tree.dirs + Makes(source, skipped, p)
    ensures tree'.files == states' ==
      if p in source.files && Copied(p, skipped) then tree.files[p := source.files[p]] else tree.files
  {
    tree', states' := tree, states;
    if Copied(p, skipped) {
      if p in source.dirs {
        if IsEmptyDir(source, p) {
          tree' := tree.(dirs := tree.dirs + Ancestors(p) + {p});
        }
      } else {
        tree' := Tree(tree.files[p := source.files[p]], tree.dirs + Ancestors(p));
        states' := states[p := source.files[p]];
      }
    }
  }

  lemma EntryCopied(source: Tree, skipped: set<Path>, entries: set<Path>, p: Path)
    ensures MadeBy(source, skipped, entries + {p}) == MadeBy(source, skipped, entries) + Makes(source, skipped, p)
    ensures CopiedFiles(source, skipped, entries + {p}) ==
      if p in source.files && Copied(p, skipped) then CopiedFiles(source, skipped, entries)[p := source.files[p]]
      else CopiedFiles(source, skipped, entries)
  {
  }

  // ---------------------------------------------------------------------------
  // The transaction
  // ---------------------------------------------------------------------------

  type DirId = nat

  /** The workspace directory among its siblings, and what is recorded about it. */
  class IntegrationSnapshot {
    const root: DirId
    var disk: map<DirId, Tree>
    var nextDir: DirId
    var fileStates: FileStates
    var pendingRollback: Option<DirId>

    ghost predicate Valid()
      reads this
    {
      && root < nextDir && (forall d | d in disk :: d < nextDir)
      && (pendingRollback.Some? ==> pendingRollback.value != root && pendingRollback.value < nextDir)
    }

    /** A copy of the source under a new root, recorded, with nothing pending. */
    constructor (source: Tree, skipped: set<Path>)
      requires source.files.Keys !! source.dirs
      ensures Valid() && root in disk && IsCopy(disk[root], source, skipped)
      ensures fileStates == Scan(disk[root]) && pendingRollback == None
    {
      var tree, states := CopySource(source, skipped);
      root := 0;
      disk := map[0 := tree];
      nextDir := 1;
      fileStates := states;
      pendingRollback := None;
    }
  }

  class PatchResult {
    const applied: seq<PatchOp>
    const issues: seq<HunkError>
    var rollbackDir: Option<DirId>

    constructor (applied: seq<PatchOp>, issues: seq<HunkError>, rollbackDir: Option<DirId>)
      ensures this.applied == applied && this.issues == issues && this.rollbackDir == rollbackDir
    {
      this.applied, this.issues, this.rollbackDir := applied, issues, rollbackDir;
    }

    predicate Success() {
      applied != [] && issues == []
    }
  }

  class PatchApplier {
    const snapshot: IntegrationSnapshot
    const allowed: Option<set<Path>>

    constructor (snapshot: IntegrationSnapshot, allowed: Option<set<Path>>)
      ensures this.snapshot == snapshot && this.allowed == allowed
    {
      this.snapshot, this.allowed := snapshot, allowed;
    }

    /** Phase one: every operation validated, repeated targets rejected. */
    method ValidateAll(hunks: seq<PatchOp>, dirs: set<Path>) returns (issues: seq<HunkError>)
      ensures issues == [] <==>
        DistinctTargets(hunks) && forall op | op in hunks :: Validate(op, snapshot.fileStates, allowed, dirs) == None
    {
      issues := [];
      var seen: set<Path> := {};
      for i := 0 to |hunks|
        invariant issues == [] ==> seen == OpPaths(hunks[..i])
        invariant issues == [] <==>
          && DistinctTargets(hunks[..i])
          && forall op | op in hunks[..i] :: Validate(op, snapshot.fileStates, allowed, dirs) == None
      {
        assert hunks[..i + 1] == hunks[..i] + [hunks[i]];
        var error := Validate(hunks[i], snapshot.fileStates, allowed, dirs);
        if error.Some? {
          issues := issues + [error.value];
        } else if hunks[i].path in seen {
          DistinctExtends(hunks, i);
          issues := issues + [DuplicateTarget];
        } else {
          DistinctExtends(hunks, i);
          seen := seen + {hunks[i].path};
        }
      }
      assert hunks[..|hunks|] == hunks;
    }

    /** Writes all operations into the transaction tree. */
    method BuildTree(tree: Tree, hunks: seq<PatchOp>, faults: ApplyFaults)
      returns (ok: bool, result: Tree, states: FileStates)
      ensures ok <==> !(faults.write.Some? && faults.write.value < |hunks|)
      ensures ok ==> result == ApplyOps(tree, hunks) && states == RecordOps(snapshot.fileStates, hunks)
    {
      result, states := tree, snapshot.fileStates;
      for i := 0 to |hunks|
        invariant !(faults.write.Some? && faults.write.value < i)
        invariant ApplyOps(result, hunks[i..]) == ApplyOps(tree, hunks)
        invariant RecordOps(states, hunks[i..]) == RecordOps(snapshot.fileStates, hunks)
      {
        if faults.write == Some(i) {
          return false, result, states;
        }
        assert hunks[i..][1..] == hunks[i + 1..];
        result, states := ApplyOp(result, hunks[i]), RecordOp(states, hunks[i]);
      }
      ok := true;
    }

    /** All or nothing. On success exactly the operations are applied to the tree
        and to the recorded states, and the old tree is retained. On any failure the
        recorded states and the pending transaction are unchanged, and so is the
        workspace, unless `faults.Loses`. `raised` is an escaping exception. */
    method Apply(hunks: seq<PatchOp>, faults: ApplyFaults) returns (raised: bool, result: PatchResult)
      requires snapshot.Valid()
      modifies snapshot
      ensures snapshot.Valid() && fresh(result)
      ensures raised ==> !result.Success()
      ensures result.Success() <==>
        && old(snapshot.pendingRollback) == None && !faults.symlink && !faults.mkdtemp
        && snapshot.root in old(snapshot.disk)
        && Applicable(hunks, old(snapshot.fileStates), allowed, old(snapshot.disk)[snapshot.root].dirs)
        && !faults.Fails(|hunks|)
      ensures result.Success() ==>
        && result.applied == hunks && result.rollbackDir == snapshot.pendingRollback
        && snapshot.pendingRollback.Some? && snapshot.pendingRollback.value in snapshot.disk
        && snapshot.disk[snapshot.pendingRollback.value] == old(snapshot.disk)[snapshot.root]
        && snapshot.root in snapshot.disk
        && snapshot.disk[snapshot.root] == ApplyOps(old(snapshot.disk)[snapshot.root], hunks)
        && snapshot.fileStates == RecordOps(old(snapshot.fileStates), hunks)
      ensures !result.Success() ==>
        && result.rollbackDir == None && result.applied == [] && result.issues != []
        && snapshot.fileStates == old(snapshot.fileStates)
        && snapshot.pendingRollback == old(snapshot.pendingRollback)
        && (snapshot.root in snapshot.disk ==>
            snapshot.root in old(snapshot.disk) && snapshot.disk[snapshot.root] == old(snapshot.disk)[snapshot.root])
      ensures snapshot.root in old(snapshot.disk) ==>
        (snapshot.root !in snapshot.disk <==>
          && old(snapshot.pendingRollback) == None && !faults.symlink && !faults.mkdtemp && faults.Loses(|hunks|)
          && Applicable(hunks, old(snapshot.fileStates), allowed, old(snapshot.disk)[snapshot.root].dirs))
      ensures snapshot.root in old(snapshot.disk) && snapshot.root !in snapshot.disk ==> raised
      ensures old(snapshot.pendingRollback).Some? ==> !raised && snapshot.disk == old(snapshot.disk)
      ensures forall d | d in old(snapshot.disk) && d != snapshot.root ::
        d in snapshot.disk && snapshot.disk[d] == old(snapshot.disk)[d]
    {
      raised := false;
      if snapshot.pendingRollback.Some? {
        result := new PatchResult([], [PendingTransaction], None);
        return;
      }
      if faults.symlink {
        result := new PatchResult([], [SymlinkFound], None);
        return;
      }
      var dirs := if snapshot.root in snapshot.disk then snapshot.disk[snapshot.root].dirs else {};
      var issues := ValidateAll(hunks, dirs);
      if issues != [] {
        result := new PatchResult([], issues, None);
        return;
      }
      if hunks == [] {
        result := new PatchResult([], [NoChanges], None);
        return;
      }
      result := new PatchResult([], [TransactionFailed], None);
      if faults.mkdtemp {
        raised := true;
        return;
      }
      if snapshot.root !in snapshot.disk || faults.copy {
        return;
      }
      var before := snapshot.disk[snapshot.root];
      var ok, tree, states := BuildTree(before, hunks, faults);
      if !ok || faults.swapOut {
        return;
      }
      var done, backup;
      raised, done, backup := Swap(tree, faults);
      if !done {
        return;
      }
      snapshot.fileStates := states;
      snapshot.pendingRollback := Some(backup);
      result := new PatchResult(hunks, [], Some(backup));
    }

    /** Moves the workspace away and `tree` in. When that fails the workspace is moved
        back, twice if need be; `raised` when that fails too. */
    method Swap(tree: Tree, faults: ApplyFaults) returns (raised: bool, done: bool, backup: DirId)
      requires snapshot.Valid() && snapshot.root in snapshot.disk
      modifies snapshot`disk, snapshot`nextDir
      ensures snapshot.Valid()
      ensures done <==> !faults.swapIn
      ensures raised <==> faults.swapIn && faults.innerRestore && faults.outerRestore
      ensures done ==>
        && backup != snapshot.root && backup < snapshot.nextDir && backup in snapshot.disk
        && snapshot.disk[backup] == old(snapshot.disk)[snapshot.root]
        && snapshot.root in snapshot.disk && snapshot.disk[snapshot.root] == tree
      ensures !done && !raised ==>
                snapshot.root in snapshot.disk && snapshot.disk[snapshot.root] == old(snapshot.disk)[snapshot.root]
      ensures raised ==> snapshot.root !in snapshot.disk
      ensures forall d | d in old(snapshot.disk) && d != snapshot.root ::
        d in snapshot.disk && snapshot.disk[d] == old(snapshot.disk)[d]
    {
      var before := snapshot.disk[snapshot.root];
      backup := snapshot.nextDir;
      snapshot.nextDir := backup + 1;
      snapshot.disk := (snapshot.disk - {snapshot.root})[backup := before];
      raised, done := false, !faults.swapIn;
      if done {
        snapshot.disk := snapshot.disk[snapshot.root := tree];
      } else if !faults.innerRestore || !faults.outerRestore {
        snapshot.disk := (snapshot.disk - {backup})[snapshot.root := before];
      } else {
        raised := true;
      }
    }

    /** Drops the retained tree; raises when it is not this result's. */
    method Commit(result: PatchResult) returns (raised: bool)
      requires snapshot.Valid()
      modifies snapshot, result
      ensures snapshot.Valid() && snapshot.fileStates == old(snapshot.fileStates)
      ensures raised <==> old(result.rollbackDir).Some? && old(snapshot.pendingRollback) != old(result.rollbackDir)
      ensures snapshot.pendingRollback ==
        (if raised || old(result.rollbackDir) == None then old(snapshot.pendingRollback) else None)
      ensures result.rollbackDir == if raised then old(result.rollbackDir) else None
      ensures snapshot.disk ==
        if raised || old(result.rollbackDir) == None then old(snapshot.disk)
        else old(snapshot.disk) - {old(result.rollbackDir).value}
    {
      if result.rollbackDir.None? {
        return false;
      }
      if snapshot.pendingRollback != result.rollbackDir {
        return true;
      }
      snapshot.disk := snapshot.disk - {result.rollbackDir.value};
      snapshot.pendingRollback := None;
      result.rollbackDir := None;
      raised := false;
    }

    /** The directories after the steps of a rollback, up to the one that fails: the
        workspace as it was, or nothing there, or the retained tree in its place. */
    ghost function AfterRollback(disk: map<DirId, Tree>, backup: DirId, faults: RollbackFaults,
                                 spare: DirId): map<DirId, Tree>
      requires snapshot.root in disk && backup in disk
    {
      if faults.swapOut || (faults.swapIn && !faults.restore) then disk
      else if faults.swapIn then (disk - {snapshot.root})[spare := disk[snapshot.root]]
      else (disk - {backup})[snapshot.root := disk[backup]]
    }

    /** Restores the retained tree and rescans it; raises when the transaction is not
        this result's or a step fails, and then the transaction stays pending. Without
        a retained tree on disk it does nothing. */
    method Rollback(result: PatchResult, faults: RollbackFaults) returns (raised: bool, done: bool)
      requires snapshot.Valid()
      modifies snapshot, result
      ensures snapshot.Valid()
      ensures raised <==> old(result.rollbackDir).Some? && old(result.rollbackDir).value in old(snapshot.disk) && !done
      ensures done <==>
        && old(result.rollbackDir).Some? && old(result.rollbackDir) == old(snapshot.pendingRollback)
        && old(result.rollbackDir).value in old(snapshot.disk)
        && snapshot.root in old(snapshot.disk) && !faults.Fails()
      ensures snapshot.disk ==
        if && old(result.rollbackDir).Some? && old(result.rollbackDir) == old(snapshot.pendingRollback)
           && old(result.rollbackDir).value in old(snapshot.disk) && snapshot.root in old(snapshot.disk)
        then AfterRollback(old(snapshot.disk), old(result.rollbackDir).value, faults, old(snapshot.nextDir))
        else old(snapshot.disk)
      ensures done ==>
        && snapshot.fileStates == Scan(snapshot.disk[snapshot.root])
        && snapshot.pendingRollback == None && result.rollbackDir == None
      ensures !done ==>
        && snapshot.pendingRollback == old(snapshot.pendingRollback) && result.rollbackDir == old(result.rollbackDir)
        && snapshot.fileStates == old(snapshot.fileStates)
    {
      if result.rollbackDir.None? || result.rollbackDir.value !in snapshot.disk {
        return false, false;
      }
      var backup := result.rollbackDir.value;
      if snapshot.pendingRollback != result.rollbackDir {
        return true, false;
      }
      if snapshot.root !in snapshot.disk || faults.swapOut {
        return true, false;
      }
      var rejected, before := snapshot.disk[snapshot.root], snapshot.disk[backup];
      if faults.swapIn {
        if faults.restore {
          snapshot.disk := (snapshot.disk - {snapshot.root})[snapshot.nextDir := rejected];
          snapshot.nextDir := snapshot.nextDir + 1;
        }
        return true, false;
      }
      snapshot.disk := (snapshot.disk - {backup})[snapshot.root := before];
      if faults.rescan {
        return true, false;
      }
      snapshot.fileStates := Scan(before);
      snapshot.pendingRollback := None;
      result.rollbackDir := None;
      return false, true;
    }
  }

  lemma DistinctExtends(hunks: seq<PatchOp>, i: nat)
    requires i < |hunks|
    ensures DistinctTargets(hunks[..i + 1]) <==> DistinctTargets(hunks[..i]) && hunks[i].path !in OpPaths(hunks[..i])
  {
    var a, b := hunks[..i], hunks[..i + 1];
    assert b == a + [hunks[i]];
    if hunks[i].path in OpPaths(a) {
      var op :| op in a && op.path == hunks[i].path;
      var k :| 0 <= k < i && a[k] == op;
      assert b[k].path == b[i].path;
    }
    if DistinctTargets(b) {
      assert forall j, k | 0 <= j < k < i :: a[j] == b[j] && a[k] == b[k];
    }
    if DistinctTargets(a) && hunks[i].path !in OpPaths(a) {
      forall j, k | 0 <= j < k < |b| ensures b[j].path != b[k].path {
        assert b[j] == a[j] && a[j] in a;
      }
    }
  }
}
