/** The shared state of the integration session as a value, and what a transaction
    does to it. */
module Transaction {
  import opened Contracts
  import opened UnifiedDiff
  import opened Workspace

  /** `root` is the workspace unless it was lost; `pending` the retained old
      workspace of an open transaction, itself `None` once it is no longer on disk. */
  datatype Shared = Shared(root: Option<Tree>, states: FileStates, pending: Option<Option<Tree>>, lock: Option<string>)

  /** `me` applies `ops` and keeps the lock and the old workspace. */
  function Opened(s: Shared, me: string, ops: seq<PatchOp>): Shared
    requires s.root.Some?
  {
    Shared(Some(ApplyOps(s.root.value, ops)), RecordOps(s.states, ops), Some(s.root), Some(me))
  }

  /** The transaction ends and the workspace stays. */
  function Kept(s: Shared): Shared {
    s.(pending := None, lock := None)
  }

  /** The transaction ends and the old workspace returns, rescanned. */
  function Restored(s: Shared): Shared
    requires s.pending.Some? && s.pending.value.Some?
  {
    Shared(s.pending.value, Scan(s.pending.value.value), None, None)
  }

  /** What a rollback that fails leaves in place: the workspace as it was, the old
      workspace without a rescan, or nothing. */
  datatype RollbackFailure = WorkspaceKept | WorkspaceRestored | WorkspaceLost

  /** The transaction stays pending. */
  function Failed(s: Shared, how: RollbackFailure): Shared
    requires how.WorkspaceRestored? ==> s.pending.Some? && s.pending.value.Some?
  {
    match how
    case WorkspaceKept => s
    case WorkspaceRestored => s.(root := s.pending.value, pending := Some(None))
    case WorkspaceLost => s.(root := None)
  }
}
