/** From a worker's changes to the workspace: exactly when the patch generated for them is
    taken, and that the workspace then shows them. */
module Proposal {
  import opened Contracts
  import opened Paths
  import opened UnifiedDiff
  import opened RoundTrip
  import opened Joining
  import opened Workspace
  import opened Integrator
  import opened Session

  function PathOf(f: FileDiff): Path {
    Parts(f.name)
  }

  function PathsOf(fs: seq<FileDiff>): set<Path> {
    set f | f in fs :: PathOf(f)
  }

  /** The generated text can be read back. */
  predicate Readable(fs: seq<FileDiff>) {
    Changed(fs) != [] && !HasBinaryMarker(JoinedText(fs)) && AllSafe(fs) && HunksOnlyLast(Changed(fs))
  }

  predicate DistinctPaths(cs: seq<FileDiff>) {
    forall i, j | 0 <= i < j < |cs| :: PathOf(cs[i]) != PathOf(cs[j])
  }

  predicate IsNewIfSaid(f: FileDiff, tree: Tree) {
    f.existedBefore || PathOf(f) !in tree.files || Excluded(PathOf(f))
  }

  /** Each file is changed once, may be written, and is new exactly when it says so. */
  predicate Suits(cs: seq<FileDiff>, tree: Tree, allowed: set<Path>) {
    DistinctPaths(cs) && forall f | f in cs :: MayWrite(tree, allowed, PathOf(f)) && IsNewIfSaid(f, tree)
  }

  /** Nothing outside goes wrong. */
  predicate Smooth(env: ProposalEnv, n: nat) {
    !env.conflict && !env.unreadable && !env.faults.symlink && !env.faults.mkdtemp && !env.faults.Fails(n)
  }

  predicate TakesEffect(tree: Tree, f: FileDiff) {
    if f.existsAfter then PathOf(f) in tree.files && tree.files[PathOf(f)] == f.after else PathOf(f) !in tree.files
  }

  /** Every changed file has its new text or is gone, and no other file changed. */
  ghost predicate Shows(tree: Tree, before: Tree, cs: seq<FileDiff>) {
    && (forall f | f in cs :: TakesEffect(tree, f))
    && forall p | p !in PathsOf(cs) ::
         && (p in tree.files <==> p in before.files)
         && (p in tree.files ==> tree.files[p] == before.files[p])
  }

  lemma {:induction false} IntendedAt(cs: seq<FileDiff>)
    requires AllChanged(cs)
    ensures |IntendedOps(cs)| == |cs| && forall i | 0 <= i < |cs| :: IntendedOps(cs)[i] == Intended(cs[i])
    decreases |cs|
  {
    if cs != [] {
      assert !cs[0].Unchanged() && cs == [cs[0]] + cs[1..];
      IntendedAt(cs[1..]);
      assert IntendedOps(cs) == [Intended(cs[0])] + IntendedOps(cs[1..]);
    }
  }

  lemma IntendedMembers(cs: seq<FileDiff>)
    requires AllChanged(cs)
    ensures forall f | f in cs :: Intended(f) in IntendedOps(cs)
    ensures forall op | op in IntendedOps(cs) :: exists f | f in cs :: op == Intended(f)
  {
    IntendedAt(cs);
    var ops := IntendedOps(cs);
    forall f | f in cs ensures Intended(f) in ops {
      var i :| 0 <= i < |cs| && cs[i] == f;
      assert ops[i] == Intended(f);
    }
    forall op | op in ops ensures exists f | f in cs :: op == Intended(f) {
      var i :| 0 <= i < |ops| && ops[i] == op;
      assert cs[i] in cs;
    }
  }

  /** Of a valid change only its claim to be new is left to check. */
  lemma IntendedPossible(f: FileDiff, tree: Tree)
    requires ValidDiff(f, SourceOf(tree, Scan(tree))) && !f.Unchanged()
    ensures Possible(tree, Intended(f)) <==> IsNewIfSaid(f, tree)
  {
  }

  lemma IntendedDistinct(cs: seq<FileDiff>)
    requires AllChanged(cs)
    ensures DistinctTargets(IntendedOps(cs)) <==> DistinctPaths(cs)
  {
    IntendedAt(cs);
    var ops := IntendedOps(cs);
    assert forall i | 0 <= i < |cs| :: ops[i].path == PathOf(cs[i]);
  }

  lemma OpsFitExactly(ops: seq<PatchOp>, cs: seq<FileDiff>, tree: Tree, allowed: set<Path>)
    requires forall f | f in cs :: Intended(f) in ops
    requires forall op | op in ops :: exists f | f in cs :: op == Intended(f)
    requires forall f | f in cs :: Possible(tree, Intended(f)) <==> IsNewIfSaid(f, tree)
    ensures (forall op | op in ops :: MayWrite(tree, allowed, op.path) && Possible(tree, op))
        <==> forall f | f in cs :: MayWrite(tree, allowed, PathOf(f)) && IsNewIfSaid(f, tree)
  {
    if forall f | f in cs :: MayWrite(tree, allowed, PathOf(f)) && IsNewIfSaid(f, tree) {
      forall op | op in ops ensures MayWrite(tree, allowed, op.path) && Possible(tree, op) {
        var f :| f in cs && op == Intended(f);
      }
    } else {
      var f :| f in cs && !(MayWrite(tree, allowed, PathOf(f)) && IsNewIfSaid(f, tree));
      assert Intended(f) in ops && Intended(f).path == PathOf(f);
    }
  }

  /** The intended operations pass validation exactly when the changes suit the tree. */
  lemma IntendedApplicable(cs: seq<FileDiff>, tree: Tree, allowed: set<Path>)
    requires AllChanged(cs) && AllValid(cs, SourceOf(tree, Scan(tree)))
    ensures Applicable(IntendedOps(cs), Scan(tree), Some(allowed), tree.dirs) <==> cs != [] && Suits(cs, tree, allowed)
  {
    forall f | f in cs ensures Possible(tree, Intended(f)) <==> IsNewIfSaid(f, tree) {
      IntendedPossible(f, tree);
    }
    IntendedAt(cs);
    IntendedMembers(cs);
    IntendedDistinct(cs);
    OpsFitExactly(IntendedOps(cs), cs, tree, allowed);
    ApplicableExactly(IntendedOps(cs), tree, allowed);
  }

  lemma EachTakesEffect(cs: seq<FileDiff>, tree: Tree, f: FileDiff)
    requires AllChanged(cs) && DistinctPaths(cs) && f in cs && (f.existedBefore || f.existsAfter)
    ensures TakesEffect(ApplyOps(tree, IntendedOps(cs)), f)
  {
    IntendedAt(cs);
    IntendedDistinct(cs);
    var i :| 0 <= i < |cs| && cs[i] == f;
    assert !f.Unchanged() && IntendedOps(cs)[i] == Intended(f);
    TargetsTakeEffect(tree, IntendedOps(cs), i);
  }

  lemma IntendedPaths(cs: seq<FileDiff>)
    requires AllChanged(cs)
    ensures OpPaths(IntendedOps(cs)) == PathsOf(cs)
  {
    IntendedMembers(cs);
    forall f | f in cs ensures PathOf(f) in OpPaths(IntendedOps(cs)) {
      assert Intended(f) in IntendedOps(cs) && Intended(f).path == PathOf(f);
    }
  }

  lemma IntendedShows(cs: seq<FileDiff>, tree: Tree)
    requires AllChanged(cs) && DistinctPaths(cs) && forall f | f in cs :: f.existedBefore || f.existsAfter
    ensures Shows(ApplyOps(tree, IntendedOps(cs)), tree, cs)
  {
    forall f | f in cs {
      EachTakesEffect(cs, tree, f);
    }
    IntendedPaths(cs);
    forall p | p !in PathsOf(cs) {
      OnlyTargetsChange(tree, IntendedOps(cs), p);
    }
  }

  /** Exactly when the generated patch is admitted. */
  lemma GeneratedIsAdmissible(fs: seq<FileDiff>, tree: Tree, writePaths: seq<Path>, env: ProposalEnv)
    requires AllValid(fs, SourceOf(tree, Scan(tree)))
    ensures Admissible(tree, Scan(tree), JoinedText(fs), writePaths, env) <==>
      && Readable(fs) && Smooth(env, |Changed(fs)|)
      && ResolveSeq(writePaths).Some? && Suits(Changed(fs), tree, PathSet(ResolveSeq(writePaths).value))
    ensures Readable(fs) ==> ParsePatch(JoinedText(fs), SourceOf(tree, Scan(tree))) == Success(IntendedOps(Changed(fs)))
  {
    var cs := Changed(fs);
    ChangedMembers(fs);
    ChangedIntended(fs);
    IntendedAt(cs);
    JoinedRoundTrip(fs, SourceOf(tree, Scan(tree)));
    if ResolveSeq(writePaths).Some? {
      IntendedApplicable(cs, tree, PathSet(ResolveSeq(writePaths).value));
    }
  }

  /** A worker's changes proposed on a settled workspace. They are taken if and only if
      their text can be read back, nothing outside goes wrong, every file is changed once
      and may be written, and every file said to be new is; then exactly these changes
      show in the workspace. */
  method ProposeChanges(s: GraphIntegrationSession, me: string, fs: seq<FileDiff>, writePaths: seq<Path>,
                        env: ProposalEnv, ghost tree: Tree)
    returns (raised: bool, attempt: IntegrationAttempt)
    requires s.snapshot.Valid() && s.lock == None && s.snapshot.pendingRollback == None
    requires s.snapshot.root in s.snapshot.disk && s.snapshot.disk[s.snapshot.root] == tree
    requires s.snapshot.fileStates == Scan(tree) && AllValid(fs, SourceOf(tree, Scan(tree)))
    modifies s`lock, s.snapshot
    ensures attempt.Accepted() <==>
      && Readable(fs) && Smooth(env, |Changed(fs)|)
      && ResolveSeq(writePaths).Some? && Suits(Changed(fs), tree, PathSet(ResolveSeq(writePaths).value))
    ensures attempt.Accepted() ==>
      s.snapshot.root in s.snapshot.disk && Shows(s.snapshot.disk[s.snapshot.root], tree, Changed(fs))
  {
    ChangedMembers(fs);
    GeneratedIsAdmissible(fs, tree, writePaths, env);
    raised, attempt := s.ApplyProposal(me, JoinedText(fs), writePaths, env);
    if attempt.Accepted() {
      IntendedShows(Changed(fs), tree);
    }
  }
}
