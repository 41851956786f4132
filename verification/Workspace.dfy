/** The workspace tree, what a patch does to it, and when patches are independent. */
module Workspace {
  import opened Contracts
  import opened Paths
  import opened UnifiedDiff

  /** The regular files of a directory tree with their contents, and its
      directories; empty directories stay when their last file goes. */
  datatype Tree = Tree(files: map<Path, string>, dirs: set<Path>)

  type FileStates = map<Path, string>

  const EXCLUDED_NAMES := [
    ".git", ".c4harness", ".cost-router", "__pycache__", ".pytest_cache", ".mypy_cache",
    ".tox", ".nox", ".venv", "venv", "env", "node_modules", ".eggs"]

  predicate EndsWith(s: string, suffix: string) {
    |suffix| <= |s| && s[|s| - |suffix|..] == suffix
  }

  predicate Excluded(path: Path) {
    exists part | part in path :: part in EXCLUDED_NAMES || EndsWith(part, ".egg-info")
  }

  /** One excluded component anywhere excludes the path, and nothing else does. */
  lemma ExcludedAnywhere(before: Path, part: string, after: Path)
    ensures Excluded(before + [part] + after) <==>
      Excluded(before) || Excluded(after) || part in EXCLUDED_NAMES || EndsWith(part, ".egg-info")
    ensures !Excluded([])
  {
    var path := before + [part] + after;
    assert part in path && forall x :: x in path <==> x in before || x == part || x in after;
  }

  /** What happens below excluded directories, at any depth, is not recorded. */
  lemma ExcludedIsUnseen(tree: Tree, tree': Tree, d: Path)
    requires Excluded(d)
    requires forall p | !(d <= p) :: p in tree.files <==> p in tree'.files
    requires forall p | !(d <= p) && p in tree.files :: tree.files[p] == tree'.files[p]
    ensures Scan(tree) == Scan(tree')
  {
    forall p | d <= p ensures Excluded(p) {
      var part :| part in d && (part in EXCLUDED_NAMES || EndsWith(part, ".egg-info"));
      var i :| 0 <= i < |d| && d[i] == part;
      assert p[i] == part;
    }
  }

  /** What a rescan of the tree records. */
  function Scan(tree: Tree): FileStates {
    map p | p in tree.files && !Excluded(p) :: tree.files[p]
  }

  function Visible(states: FileStates): FileStates {
    map p | p in states && !Excluded(p) :: states[p]
  }

  /** The proper ancestors of a path, the root included. */
  function Ancestors(path: Path): set<Path> {
    set n | 0 <= n < |path| :: path[..n]
  }

  function NewContent(op: PatchOp): string {
    if op.content.Some? then op.content.value else ""
  }

  function ApplyOp(tree: Tree, op: PatchOp): Tree {
    if op.kind.Delete? then tree.(files := tree.files - {op.path})
    else Tree(tree.files[op.path := NewContent(op)], tree.dirs + Ancestors(op.path))
  }

  function ApplyOps(tree: Tree, ops: seq<PatchOp>): Tree
    decreases |ops|
  {
    if ops == [] then tree else ApplyOps(ApplyOp(tree, ops[0]), ops[1..])
  }

  function RecordOp(states: FileStates, op: PatchOp): FileStates {
    if op.kind.Delete? then states - {op.path} else states[op.path := NewContent(op)]
  }

  function RecordOps(states: FileStates, ops: seq<PatchOp>): FileStates
    decreases |ops|
  {
    if ops == [] then states else RecordOps(RecordOp(states, ops[0]), ops[1..])
  }

  function OpPaths(ops: seq<PatchOp>): set<Path> {
    set op | op in ops :: op.path
  }

  // ---------------------------------------------------------------------------
  // Validation
  // ---------------------------------------------------------------------------

  datatype HunkError =
    | PathRejected | OutsideAllowlist | AlreadyExists | UnexpectedHash | MissingContent | DoesNotExist | HashMismatch
    | DuplicateTarget | PendingTransaction | SymlinkFound | NoChanges | InvalidPatch | TransactionFailed

  /** `None` when the operation may be applied. */
  function Validate(op: PatchOp, states: FileStates, allowed: Option<set<Path>>, dirs: set<Path>): Option<HunkError> {
    if ".." in op.path then Some(PathRejected)
    else if allowed.Some? && !IsAllowed(op.path, allowed.value, dirs) then Some(OutsideAllowlist)
    else
      match op.kind
      case Create =>
        if op.path in states then Some(AlreadyExists)
        else if op.expected.Some? then Some(UnexpectedHash)
        else if op.content.None? then Some(MissingContent)
        else None
      case Modify =>
        if op.path !in states then Some(DoesNotExist)
        else if op.content.None? then Some(MissingContent)
        else if op.expected.Some? && op.expected.value != states[op.path] then Some(HashMismatch)
        else None
      case Delete =>
        if op.path !in states then Some(DoesNotExist)
        else if op.expected.Some? && op.expected.value != states[op.path] then Some(HashMismatch)
        else None
  }

  predicate DistinctTargets(ops: seq<PatchOp>) {
    forall i, j | 0 <= i < j < |ops| :: ops[i].path != ops[j].path
  }

  /** The whole patch passes validation. */
  predicate Applicable(ops: seq<PatchOp>, states: FileStates, allowed: Option<set<Path>>, dirs: set<Path>) {
    && ops != [] && DistinctTargets(ops)
    && forall op | op in ops :: Validate(op, states, allowed, dirs) == None
  }

  /** The path may be written: it is allowed itself, or lies below an allowed directory
      that exists. */
  predicate MayWrite(tree: Tree, allowed: set<Path>, path: Path) {
    && ".." !in path
    && (path in allowed || exists d | d in allowed && d in tree.dirs :: [] < d < path)
  }

  /** The operation does to its target what can be done to it: only a file that is not
      there is created, only one that is there and as expected is changed or deleted.
      Files below excluded directories count as not there. */
  predicate Possible(tree: Tree, op: PatchOp) {
    var there := op.path in tree.files && !Excluded(op.path);
    match op.kind
    case Create => !there && op.expected == None && op.content.Some?
    case Modify => there && op.content.Some? && (op.expected.Some? ==> op.expected.value == tree.files[op.path])
    case Delete => there && (op.expected.Some? ==> op.expected.value == tree.files[op.path])
  }

  /** Exactly which patches pass validation on a tree whose scan is recorded. */
  lemma ApplicableExactly(ops: seq<PatchOp>, tree: Tree, allowed: set<Path>)
    ensures Applicable(ops, Scan(tree), Some(allowed), tree.dirs) <==>
      && ops != []
      && (forall i, j | 0 <= i < j < |ops| :: ops[i].path != ops[j].path)
      && forall op | op in ops :: MayWrite(tree, allowed, op.path) && Possible(tree, op)
  {
    forall op | op in ops
      ensures Validate(op, Scan(tree), Some(allowed), tree.dirs) == None
          <==> MayWrite(tree, allowed, op.path) && Possible(tree, op)
    {
      AllowedExactly(op.path, tree, allowed);
      if MayWrite(tree, allowed, op.path) { PossibleExactly(op, tree, allowed); }
    }
  }

  lemma PossibleExactly(op: PatchOp, tree: Tree, allowed: set<Path>)
    requires ".." !in op.path && IsAllowed(op.path, allowed, tree.dirs)
    ensures Validate(op, Scan(tree), Some(allowed), tree.dirs) == None <==> Possible(tree, op)
  {
    var states := Scan(tree);
    assert op.path in states <==> op.path in tree.files && !Excluded(op.path);
    assert op.path in states ==> states[op.path] == tree.files[op.path];
  }

  lemma AllowedExactly(path: Path, tree: Tree, allowed: set<Path>)
    ensures MayWrite(tree, allowed, path) <==> ".." !in path && IsAllowed(path, allowed, tree.dirs)
  {
    if ".." !in path && path !in allowed && IsAllowed(path, allowed, tree.dirs) {
      var d :| d in allowed && d in tree.dirs && d != [] && d < path;
      assert [] < d < path;
    }
    if d :| d in allowed && d in tree.dirs && [] < d < path {
      assert d != [] && d < path;
    }
  }

  // ---------------------------------------------------------------------------
  // What a patch changes
  // ---------------------------------------------------------------------------

  /** The recorded states keep describing the tree. */
  lemma {:induction false} RecordFollowsTree(tree: Tree, states: FileStates, ops: seq<PatchOp>)
    requires Visible(states) == Scan(tree)
    ensures Visible(RecordOps(states, ops)) == Scan(ApplyOps(tree, ops))
    decreases |ops|
  {
    if ops != [] {
      RecordOneFollowsTree(tree, states, ops[0]);
      RecordFollowsTree(ApplyOp(tree, ops[0]), RecordOp(states, ops[0]), ops[1..]);
    }
  }

  lemma RecordOneFollowsTree(tree: Tree, states: FileStates, op: PatchOp)
    requires Visible(states) == Scan(tree)
    ensures Visible(RecordOp(states, op)) == Scan(ApplyOp(tree, op))
  {
    var tree', states' := ApplyOp(tree, op), RecordOp(states, op);
    forall p | !Excluded(p) ensures p in states' <==> p in tree'.files {
      assert p in Visible(states) <==> p in Scan(tree);
    }
    forall p | !Excluded(p) && p in states' ensures states'[p] == tree'.files[p] {
      if p != op.path { assert p in Visible(states) && Visible(states)[p] == Scan(tree)[p]; }
    }
  }

  /** Exactly the targets of the operations change. */
  lemma {:induction false} OnlyTargetsChange(tree: Tree, ops: seq<PatchOp>, p: Path)
    requires p !in OpPaths(ops)
    ensures p in ApplyOps(tree, ops).files <==> p in tree.files
    ensures p in tree.files ==> ApplyOps(tree, ops).files[p] == tree.files[p]
    decreases |ops|
  {
    if ops != [] {
      assert ops[0] in ops && ops[0].path in OpPaths(ops);
      assert OpPaths(ops[1..]) <= OpPaths(ops);
      OnlyTargetsChange(ApplyOp(tree, ops[0]), ops[1..], p);
    }
  }

  /** Each operation of a patch without repeated targets takes effect. */
  lemma {:induction false} TargetsTakeEffect(tree: Tree, ops: seq<PatchOp>, i: nat)
    requires DistinctTargets(ops) && i < |ops|
    ensures ops[i].path in ApplyOps(tree, ops).files <==> !ops[i].kind.Delete?
    ensures !ops[i].kind.Delete? ==> ApplyOps(tree, ops).files[ops[i].path] == NewContent(ops[i])
    ensures !ops[i].kind.Delete? ==> forall d | d < ops[i].path :: d in ApplyOps(tree, ops).dirs
    decreases |ops|
  {
    if i == 0 {
      AppliedDirs(ApplyOp(tree, ops[0]), ops[1..]);
      forall d | d < ops[0].path ensures d in Ancestors(ops[0].path) { assert d == ops[0].path[..|d|]; }
      assert ops[0].path !in OpPaths(ops[1..]);
      OnlyTargetsChange(ApplyOp(tree, ops[0]), ops[1..], ops[0].path);
    } else {
      assert ops[i] == ops[1..][i - 1];
      TargetsTakeEffect(ApplyOp(tree, ops[0]), ops[1..], i - 1);
    }
  }

  lemma {:induction false} ApplyAppend(tree: Tree, a: seq<PatchOp>, b: seq<PatchOp>)
    ensures ApplyOps(tree, a + b) == ApplyOps(ApplyOps(tree, a), b)
    decreases |a|
  {
    if a == [] {
      assert a + b == b;
    } else {
      assert (a + b)[1..] == a[1..] + b;
      ApplyAppend(ApplyOp(tree, a[0]), a[1..], b);
    }
  }

  // ---------------------------------------------------------------------------
  // Independent patches
  // ---------------------------------------------------------------------------

  lemma OpsCommute(tree: Tree, a: PatchOp, b: PatchOp)
    requires a.path != b.path
    ensures ApplyOp(ApplyOp(tree, a), b) == ApplyOp(ApplyOp(tree, b), a)
  {
    var x, y := ApplyOp(ApplyOp(tree, a), b), ApplyOp(ApplyOp(tree, b), a);
    assert x.files == y.files;
    assert x.dirs == y.dirs;
  }

  lemma {:induction false} OpPastOps(tree: Tree, a: PatchOp, ops: seq<PatchOp>)
    requires a.path !in OpPaths(ops)
    ensures ApplyOps(ApplyOp(tree, a), ops) == ApplyOp(ApplyOps(tree, ops), a)
    decreases |ops|
  {
    if ops != [] {
      assert ops[0] in ops && ops[0].path in OpPaths(ops);
      OpsCommute(tree, a, ops[0]);
      assert OpPaths(ops[1..]) <= OpPaths(ops);
      OpPastOps(ApplyOp(tree, ops[0]), a, ops[1..]);
    }
  }

  /** Patches with disjoint targets give the same tree in either order. */
  lemma {:induction false} DisjointPatchesCommute(tree: Tree, a: seq<PatchOp>, b: seq<PatchOp>)
    requires OpPaths(a) !! OpPaths(b)
    ensures ApplyOps(ApplyOps(tree, a), b) == ApplyOps(ApplyOps(tree, b), a)
    decreases |a|
  {
    if a != [] {
      assert a[0] in a && a[0].path in OpPaths(a);
      assert OpPaths(a[1..]) <= OpPaths(a);
      DisjointPatchesCommute(ApplyOp(tree, a[0]), a[1..], b);
      OpPastOps(tree, a[0], b);
    }
  }

  function Replay(tree: Tree, log: seq<seq<PatchOp>>): Tree
    decreases |log|
  {
    if log == [] then tree else Replay(ApplyOps(tree, log[0]), log[1..])
  }

  predicate PairwiseDisjointPatches(log: seq<seq<PatchOp>>) {
    forall i, j | 0 <= i < j < |log| :: OpPaths(log[i]) !! OpPaths(log[j])
  }

  function Without(log: seq<seq<PatchOp>>, k: nat): seq<seq<PatchOp>>
    requires k < |log|
  {
    log[..k] + log[k + 1..]
  }

  /** An independent patch may be moved to the front of a log. */
  lemma {:induction false} MoveToFront(tree: Tree, log: seq<seq<PatchOp>>, k: nat)
    requires k < |log| && forall j | 0 <= j < k :: OpPaths(log[j]) !! OpPaths(log[k])
    ensures Replay(tree, log) == Replay(ApplyOps(tree, log[k]), Without(log, k))
    decreases k
  {
    if k == 0 {
      assert Without(log, 0) == log[1..];
    } else {
      var rest := log[1..];
      MoveToFront(ApplyOps(tree, log[0]), rest, k - 1);
      DisjointPatchesCommute(tree, log[0], log[k]);
      assert Without(log, k)[0] == log[0];
      assert Without(log, k)[1..] == Without(rest, k - 1);
    }
  }

  lemma WithoutKeepsTheRest(log: seq<seq<PatchOp>>, k: nat)
    requires k < |log|
    ensures multiset(Without(log, k)) == multiset(log) - multiset{log[k]}
    ensures PairwiseDisjointPatches(log) ==> PairwiseDisjointPatches(Without(log, k))
  {
    assert log == log[..k] + [log[k]] + log[k + 1..];
  }

  /** The commit order of pairwise disjoint patches does not matter. */
  lemma {:induction false} CommitOrderIrrelevant(tree: Tree, a: seq<seq<PatchOp>>, b: seq<seq<PatchOp>>)
    requires multiset(a) == multiset(b) && PairwiseDisjointPatches(b)
    ensures Replay(tree, a) == Replay(tree, b)
    decreases |a|
  {
    if a == [] {
      assert |multiset(b)| == 0;
    } else {
      assert a[0] in multiset(a);
      var k :| 0 <= k < |b| && b[k] == a[0];
      assert a == [a[0]] + a[1..];
      WithoutKeepsTheRest(b, k);
      MoveToFront(tree, b, k);
      CommitOrderIrrelevant(ApplyOps(tree, a[0]), a[1..], Without(b, k));
    }
  }

  lemma {:induction false} AppliedDirs(tree: Tree, ops: seq<PatchOp>)
    ensures tree.dirs <= ApplyOps(tree, ops).dirs
    ensures forall d | d in ApplyOps(tree, ops).dirs && d !in tree.dirs :: exists op | op in ops :: d < op.path
    decreases |ops|
  {
    if ops != [] {
      var op := ops[0];
      AppliedDirs(ApplyOp(tree, op), ops[1..]);
      forall d | d in ApplyOps(tree, ops).dirs && d !in tree.dirs ensures exists o | o in ops :: d < o.path {
        if d in ApplyOp(tree, op).dirs {
          assert d in Ancestors(op.path);
          assert d < op.path && op in ops;
        } else {
          var o :| o in ops[1..] && d < o.path;
          assert o in ops;
        }
      }
    }
  }

  /** Patches admitted under non-overlapping write sets touch disjoint files. */
  lemma NonOverlappingPatchesDisjoint(a: seq<PatchOp>, b: seq<PatchOp>, statesA: FileStates, statesB: FileStates,
                                      writeA: seq<Path>, writeB: seq<Path>, dirsA: set<Path>, dirsB: set<Path>)
    requires !WriteSetsOverlap(writeA, writeB)
    requires Applicable(a, statesA, Some(PathSet(writeA)), dirsA)
    requires Applicable(b, statesB, Some(PathSet(writeB)), dirsB)
    ensures OpPaths(a) !! OpPaths(b)
  {
    forall p | p in OpPaths(a) ensures p !in OpPaths(b) {
      assert IsAllowed(p, PathSet(writeA), dirsA);
      NoSharedWritablePath(p, writeA, writeB, dirsA, dirsB);
    }
  }

  lemma {:induction false} UntouchedStates(states: FileStates, ops: seq<PatchOp>, p: Path)
    requires p !in OpPaths(ops)
    ensures p in RecordOps(states, ops) <==> p in states
    ensures p in states ==> RecordOps(states, ops)[p] == states[p]
    decreases |ops|
  {
    if ops != [] {
      assert ops[0] in ops && ops[0].path in OpPaths(ops);
      assert OpPaths(ops[1..]) <= OpPaths(ops);
      UntouchedStates(RecordOp(states, ops[0]), ops[1..], p);
    }
  }

  /** Committing one patch neither admits nor rejects another whose write set does
      not overlap: its targets keep their recorded contents, and no allowed path
      of it becomes a directory. */
  lemma AdmissionUnaffected(tree: Tree, states: FileStates, a: seq<PatchOp>, b: seq<PatchOp>, writeA: seq<Path>,
                            writeB: seq<Path>)
    requires !WriteSetsOverlap(writeA, writeB)
    requires Applicable(a, states, Some(PathSet(writeA)), tree.dirs)
    ensures Applicable(b, RecordOps(states, a), Some(PathSet(writeB)), ApplyOps(tree, a).dirs)
        <==> Applicable(b, states, Some(PathSet(writeB)), tree.dirs)
  {
    var tree' := ApplyOps(tree, a);
    AppliedDirs(tree, a);
    forall q | q in writeB ensures q in tree'.dirs <==> q in tree.dirs {
      if q in tree'.dirs && q !in tree.dirs {
        var op :| op in a && q < op.path;
        assert Validate(op, states, Some(PathSet(writeA)), tree.dirs) == None;
        var x :| x in PathSet(writeA) && (x == op.path || (x in tree.dirs && x != [] && x < op.path));
        PrefixesOverlap(x, q, op.path);
      }
    }
    forall op | op in b
      ensures Validate(op, RecordOps(states, a), Some(PathSet(writeB)), tree'.dirs)
           == Validate(op, states, Some(PathSet(writeB)), tree.dirs)
    {
      assert IsAllowed(op.path, PathSet(writeB), tree'.dirs) <==> IsAllowed(op.path, PathSet(writeB), tree.dirs);
      if IsAllowed(op.path, PathSet(writeB), tree.dirs) {
        if op.path in OpPaths(a) {
          var o :| o in a && o.path == op.path;
          assert Validate(o, states, Some(PathSet(writeA)), tree.dirs) == None;
          NoSharedWritablePath(op.path, writeA, writeB, tree.dirs, tree.dirs);
        }
        UntouchedStates(states, a, op.path);
      }
    }
  }
}
