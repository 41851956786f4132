/** The run loop: sequential or in parallel batches, for any graph and any runner
    that is a function of the node. */
module RunGraph {
  import opened Contracts
  import opened Walks
  import opened Graph
  import opened Scheduler

  /** What one call of the node runner does. */
  datatype NodeRun = Returned(success: bool) | Raised

  /** The nodes whose run succeeds. In a dry run the runner is skipped and every
      node counts as successful. */
  function Passing(nodes: set<string>, execute: bool, runner: string -> NodeRun): set<string> {
    set n | n in nodes && (!execute || runner(n) == Returned(true))
  }

  datatype GraphResult = GraphResult(states: States, order: seq<string>) {
    predicate AllSucceeded() {
      states.Keys != {} && forall n | n in states :: states[n].Succeeded?
    }
    predicate HasFailures() {
      exists n | n in states :: states[n].Failed?
    }
    predicate IsTerminal() {
      forall n | n in states :: states[n].Succeeded? || states[n].Failed? || states[n].Blocked?
    }
    predicate DeadlockDetected() {
      states.Keys != {} && IsTerminal() && !AllSucceeded() && !HasFailures()
    }
    predicate IsIncomplete() {
      IsTerminal() && exists n | n in states :: states[n].Blocked?
    }
  }

  // ---------------------------------------------------------------------------
  // What a run leaves behind
  // ---------------------------------------------------------------------------

  ghost predicate FailedAncestor(r: Rel, st: States, n: string) {
    exists a :: a in st && st[a].Failed? && Reaches(r, a, n)
  }

  /** The exact final state of every node: blocked when a transitive ancestor
      failed or the node is downstream of a cycle, otherwise the runner's verdict. */
  ghost predicate FinalStates(r: Rel, passing: set<string>, st: States) {
    forall n | n in st ::
      st[n] == if FailedAncestor(r, st, n) || Stuck(r, n) then Blocked
               else if n in passing then Succeeded
               else Failed
  }

  predicate Executed(state: NodeState) {
    state.Running? || state.Succeeded? || state.Failed?
  }

  /** No repeats, and every `requires` source of a node at an earlier position. */
  ghost predicate SoundOrder(r: Rel, order: seq<string>) {
    forall i | 0 <= i < |order| ::
      order[i] !in order[..i] && forall e | e in r && e.1 == order[i] :: e.0 in order[..i]
  }

  /** `SoundOrder`, one element at a time. */
  ghost predicate Topological(r: Rel, order: seq<string>) {
    order == [] ||
    var init, last := order[..|order| - 1], order[|order| - 1];
    Topological(r, init) && last !in init && forall e | e in r && e.1 == last :: e.0 in init
  }

  lemma {:induction false} TopologicalIsSound(r: Rel, order: seq<string>)
    requires Topological(r, order)
    ensures SoundOrder(r, order)
  {
    if order != [] {
      var init := order[..|order| - 1];
      TopologicalIsSound(r, init);
      forall i | 0 <= i < |order|
        ensures order[i] !in order[..i] && forall e | e in r && e.1 == order[i] :: e.0 in order[..i]
      {
        if i < |init| {
          assert order[i] == init[i] && order[..i] == init[..i];
        } else {
          assert order[..i] == init;
        }
      }
    }
  }

  /** A walk that ends in the order starts in it, at another node. */
  lemma {:induction false} WalkStartsEarlier(r: Rel, order: seq<string>, p: seq<string>)
    requires Topological(r, order) && Walk(r, p) && |p| >= 2 && p[|p| - 1] in order
    ensures p[0] in order && p[0] != p[|p| - 1]
    decreases |order|
  {
    var init, last := order[..|order| - 1], order[|order| - 1];
    assert order == init + [last];
    if p[|p| - 1] in init {
      WalkStartsEarlier(r, init, p);
    } else {
      assert (p[|p| - 2], last) in r;
      if |p| > 2 {
        assert Walk(r, p[..|p| - 1]);
        WalkStartsEarlier(r, init, p[..|p| - 1]);
      }
    }
  }

  /** Nodes on or downstream of a cycle never start. */
  lemma StuckNeverRuns(r: Rel, order: seq<string>, n: string)
    requires Topological(r, order) && Stuck(r, n)
    ensures n !in order
  {
    if n in order {
      var c :| Reaches(r, c, c) && (c == n || Reaches(r, c, n));
      if c != n {
        var q :| Walk(r, q) && |q| >= 2 && q[0] == c && q[|q| - 1] == n;
        WalkStartsEarlier(r, order, q);
      }
      var p :| Walk(r, p) && |p| >= 2 && p[0] == c && p[|p| - 1] == c;
      WalkStartsEarlier(r, order, p);
    }
  }

  // ---------------------------------------------------------------------------
  // The scheduler invariant
  // ---------------------------------------------------------------------------

  predicate SourcesIn(r: Rel, st: States) {
    forall e | e in r :: e.0 in st && e.1 in st
  }

  ghost predicate OrderMatches(st: States, order: seq<string>) {
    forall n :: n in order <==> n in st && Executed(st[n])
  }

  predicate SourcesSucceeded(r: Rel, st: States)
    requires SourcesIn(r, st)
  {
    forall e | e in r && Executed(st[e.1]) :: st[e.0].Succeeded?
  }

  ghost predicate BlockedExactly(r: Rel, st: States) {
    forall n | n in st :: st[n].Blocked? <==> FailedAncestor(r, st, n)
  }

  predicate Agrees(passing: set<string>, st: States) {
    forall n | n in st :: (st[n].Succeeded? ==> n in passing) && (st[n].Failed? ==> n !in passing)
  }

  /** What every scheduler transition of a run preserves. */
  ghost predicate SchedulerInv(r: Rel, passing: set<string>, st: States, order: seq<string>) {
    && SourcesIn(r, st)
    && Topological(r, order) && OrderMatches(st, order)
    && SourcesSucceeded(r, st) && BlockedExactly(r, st) && Agrees(passing, st)
  }

  function PendingNodes(st: States): set<string> {
    set n | n in st && st[n].Pending?
  }

  function RunningNodes(st: States): set<string> {
    set n | n in st && st[n].Running?
  }

  /** Every ancestor of an executed node has succeeded. */
  lemma {:induction false} ExecutedWalk(r: Rel, st: States, p: seq<string>)
    requires SourcesIn(r, st) && SourcesSucceeded(r, st)
    requires Walk(r, p) && |p| >= 2 && p[|p| - 1] in st && Executed(st[p[|p| - 1]])
    ensures p[0] in st && st[p[0]].Succeeded?
    decreases |p|
  {
    assert (p[|p| - 2], p[|p| - 1]) in r;
    if |p| > 2 {
      assert Walk(r, p[..|p| - 1]);
      ExecutedWalk(r, st, p[..|p| - 1]);
    }
  }

  /** Failed ancestors depend only on which nodes failed. */
  lemma SameFailuresSameAncestors(r: Rel, st: States, st': States)
    requires forall n :: (n in st && st[n].Failed?) <==> (n in st' && st'[n].Failed?)
    ensures forall n :: FailedAncestor(r, st, n) <==> FailedAncestor(r, st', n)
  {
    forall n ensures FailedAncestor(r, st, n) <==> FailedAncestor(r, st', n) {
      if FailedAncestor(r, st, n) {
        var a :| a in st && st[a].Failed? && Reaches(r, a, n);
        assert a in st' && st'[a].Failed?;
      }
      if FailedAncestor(r, st', n) {
        var a :| a in st' && st'[a].Failed? && Reaches(r, a, n);
        assert a in st && st[a].Failed?;
      }
    }
  }

  lemma StartKeepsInv(r: Rel, passing: set<string>, st: States, order: seq<string>, n: string)
    requires SchedulerInv(r, passing, st, order) && IsReady(r, st, n)
    ensures SchedulerInv(r, passing, st[n := Running], order + [n])
    ensures forall m | m != n && IsReady(r, st, m) :: IsReady(r, st[n := Running], m)
    ensures RunningNodes(st[n := Running]) == RunningNodes(st) + {n}
    ensures PendingNodes(st[n := Running]) == PendingNodes(st) - {n}
  {
    var st' := st[n := Running];
    assert (order + [n])[..|order|] == order;
    SameFailuresSameAncestors(r, st, st');
    assert forall m | m in st' :: st'[m].Blocked? <==> st[m].Blocked?;
  }

  ghost function Completed(r: Rel, passing: set<string>, st: States, n: string): States {
    if n in passing then st[n := Succeeded] else BlockDependents(r, st[n := Failed], n)
  }

  lemma CompletionBlocksExactly(r: Rel, passing: set<string>, st: States, n: string)
    requires SourcesIn(r, st) && SourcesSucceeded(r, st) && BlockedExactly(r, st)
    requires n in st && st[n].Running?
    ensures BlockedExactly(r, Completed(r, passing, st, n))
    ensures forall m | m in st && m != n && Executed(st[m]) :: Completed(r, passing, st, n)[m] == st[m]
  {
    var st' := Completed(r, passing, st, n);
    forall m | m in st && Executed(st[m]) && Reaches(r, n, m) ensures false {
      var p :| Walk(r, p) && |p| >= 2 && p[0] == n && p[|p| - 1] == m;
      ExecutedWalk(r, st, p);
    }
    forall m | m in st' ensures st'[m].Blocked? <==> FailedAncestor(r, st', m) {
      if FailedAncestor(r, st, m) {
        var a :| a in st && st[a].Failed? && Reaches(r, a, m);
        assert a in st' && st'[a].Failed?;
      }
      if n !in passing && Reaches(r, n, m) {
        assert n in st' && st'[n].Failed?;
      }
      if FailedAncestor(r, st', m) {
        var a :| a in st' && st'[a].Failed? && Reaches(r, a, m);
        if a != n {
          assert a in st && st[a].Failed?;
          assert FailedAncestor(r, st, m);
        }
      }
    }
  }

  lemma CompletionKeepsInv(r: Rel, passing: set<string>, st: States, order: seq<string>, n: string)
    requires SchedulerInv(r, passing, st, order) && n in st && st[n].Running?
    ensures SchedulerInv(r, passing, Completed(r, passing, st, n), order)
    ensures RunningNodes(Completed(r, passing, st, n)) == RunningNodes(st) - {n}
    ensures PendingNodes(Completed(r, passing, st, n)) <= PendingNodes(st)
  {
    CompletionBlocksExactly(r, passing, st, n);
    assert forall m | m in st :: Executed(Completed(r, passing, st, n)[m]) <==> Executed(st[m]);
  }

  /** With nothing running and nothing ready, every pending node is stuck. */
  lemma PendingWithoutReadyIsStuck(r: Rel, passing: set<string>, st: States, order: seq<string>, n: string)
    requires SchedulerInv(r, passing, st, order) && RunningNodes(st) == {}
    requires forall m :: !IsReady(r, st, m)
    requires n in st && st[n].Pending?
    ensures Stuck(r, n)
  {
    var pending := PendingNodes(st);
    forall m | m in pending ensures HasPredecessorIn(r, pending, m) {
      assert !IsReady(r, st, m);
      var e :| e in r && e.1 == m && !st[e.0].Succeeded?;
      assert e.0 !in RunningNodes(st);
      if !st[e.0].Pending? {
        ReachesStep(r, e.0, m);
        if st[e.0].Blocked? {
          var a :| a in st && st[a].Failed? && Reaches(r, a, e.0);
          ReachesTransitive(r, a, e.0, m);
        }
        assert false;
      }
      assert e.0 in pending && (e.0, m) in r;
    }
    var c := NoSourceMeansStuck(r, pending, n);
  }

  /** The scheduler's ready nodes are the pending ones among those the contract graph
      calls ready once the succeeded nodes are completed. */
  lemma ReadyAsTheGraphSays(nodes: set<string>, edges: seq<GraphEdge>, st: States, n: string)
    requires Closed(nodes, edges) && st.Keys == nodes
    ensures IsReady(RequiresPairs(edges), st, n) <==>
      n in st && st[n].Pending? && n in ReadyNodes(nodes, edges, set m | m in st && st[m].Succeeded?)
  {
    var r := RequiresPairs(edges);
    if IsReady(r, st, n) {
      forall e | e in edges && e.edgeType == REQUIRES && e.target == n
        ensures e.source in st && st[e.source].Succeeded?
      {
        assert (e.source, e.target) in r;
      }
    }
  }

  /** Progress: in an acyclic graph the loop always finds a ready node. */
  lemma AcyclicAlwaysReady(r: Rel, passing: set<string>, st: States, order: seq<string>)
    requires SchedulerInv(r, passing, st, order) && RunningNodes(st) == {} && !Cyclic(r)
    requires PendingNodes(st) != {}
    ensures exists n :: IsReady(r, st, n)
  {
    var n :| n in PendingNodes(st);
    if forall m :: !IsReady(r, st, m) {
      PendingWithoutReadyIsStuck(r, passing, st, order, n);
    }
  }

  /** Blocking what is left when nothing is ready yields exactly the final states. */
  lemma BlockingTheRestIsFinal(r: Rel, passing: set<string>, st: States, order: seq<string>, st': States)
    requires SchedulerInv(r, passing, st, order) && RunningNodes(st) == {}
    requires forall m :: !IsReady(r, st, m)
    requires st' == map n | n in st :: if st[n].Pending? then Blocked else st[n]
    ensures FinalStates(r, passing, st') && OrderMatches(st', order)
    ensures PendingNodes(st') == {} && RunningNodes(st') == {}
  {
    SameFailuresSameAncestors(r, st, st');
    forall n | n in st
      ensures st'[n] == if FailedAncestor(r, st', n) || Stuck(r, n) then Blocked
                        else if n in passing then Succeeded else Failed
    {
      assert FailedAncestor(r, st, n) <==> FailedAncestor(r, st', n);
      LastStateOf(r, passing, st, order, n);
    }
    NothingRunsOrWaits(st, st');
  }

  /** When nothing runs and nothing is ready, a node is pending and stuck, blocked by a
      failed ancestor, or has the runner's verdict. */
  lemma LastStateOf(r: Rel, passing: set<string>, st: States, order: seq<string>, n: string)
    requires SchedulerInv(r, passing, st, order) && RunningNodes(st) == {}
    requires (forall m :: !IsReady(r, st, m)) && n in st
    ensures (if st[n].Pending? then Blocked else st[n]) ==
      if FailedAncestor(r, st, n) || Stuck(r, n) then Blocked else if n in passing then Succeeded else Failed
  {
    assert n !in RunningNodes(st);
    if st[n].Pending? { PendingWithoutReadyIsStuck(r, passing, st, order, n); }
    if Stuck(r, n) { StuckNeverRuns(r, order, n); }
  }

  lemma NothingRunsOrWaits(st: States, st': States)
    requires RunningNodes(st) == {} && st' == map n | n in st :: if st[n].Pending? then Blocked else st[n]
    ensures PendingNodes(st') == {} && RunningNodes(st') == {}
    ensures forall n | n in st :: Executed(st'[n]) <==> Executed(st[n])
  {
    forall n | n in st' ensures !st'[n].Running? { assert n !in RunningNodes(st); }
  }

  // ---------------------------------------------------------------------------
  // Execution
  // ---------------------------------------------------------------------------

  /** Reports one finished node back to the scheduler. */
  method Complete(s: GraphScheduler, runner: string -> NodeRun, execute: bool, n: string) returns (raised: bool)
    requires s.Valid() && n in s.outcomes && s.outcomes[n].Running?
    modifies s`outcomes
    ensures s.Valid() && !raised
    ensures s.outcomes ==
      Completed(RequiresPairs(s.edges), Passing(s.nodes.Keys, execute, runner), old(s.outcomes), n)
  {
    if !execute {
      raised := s.MarkSucceeded(n);
      return;
    }
    match runner(n) {
      case Raised => raised := s.MarkFailed(n);
      case Returned(success) =>
        if success {
          raised := s.MarkSucceeded(n);
        } else {
          raised := s.MarkFailed(n);
        }
    }
  }

  ghost predicate AllReady(r: Rel, st: States, batch: seq<string>) {
    forall b | b in batch :: IsReady(r, st, b)
  }

  predicate Distinct(batch: seq<string>) {
    forall i, j | 0 <= i < j < |batch| :: batch[i] != batch[j]
  }

  function Members(batch: seq<string>): set<string> {
    set b | b in batch
  }

  lemma NextMember(batch: seq<string>, i: nat)
    requires i < |batch|
    ensures batch[..i + 1] == batch[..i] + [batch[i]]
    ensures Members(batch[..i + 1]) == Members(batch[..i]) + {batch[i]}
  {
  }

  lemma StartBatchKeepsInv(r: Rel, passing: set<string>, st: States, order: seq<string>, batch: seq<string>, i: nat)
    requires SchedulerInv(r, passing, st, order) && Distinct(batch) && i < |batch| && AllReady(r, st, batch[i..])
    ensures IsReady(r, st, batch[i])
    ensures SchedulerInv(r, passing, st[batch[i] := Running], order + [batch[i]])
    ensures AllReady(r, st[batch[i] := Running], batch[i + 1..])
    ensures RunningNodes(st[batch[i] := Running]) == RunningNodes(st) + {batch[i]}
    ensures PendingNodes(st[batch[i] := Running]) == PendingNodes(st) - {batch[i]}
  {
    assert batch[i..] == [batch[i]] + batch[i + 1..];
    StartKeepsInv(r, passing, st, order, batch[i]);
    var rest, st' := batch[i + 1..], st[batch[i] := Running];
    forall b | b in rest ensures IsReady(r, st', b) {
      assert b in batch[i..] && b != batch[i];
    }
  }

  /** The first `i` members of the batch have been marked since `before`. */
  ghost predicate Starting(r: Rel, passing: set<string>, batch: seq<string>, i: nat, before: States,
                           orderBefore: seq<string>,
                           st: States, order: seq<string>)
    requires i <= |batch|
  {
    && SchedulerInv(r, passing, st, order) && order == orderBefore + batch[..i] && AllReady(r, st, batch[i..])
    && RunningNodes(st) == Members(batch[..i]) && PendingNodes(st) == PendingNodes(before) - Members(batch[..i])
  }

  lemma StartNext(r: Rel, passing: set<string>, batch: seq<string>, i: nat, before: States, orderBefore: seq<string>,
                  st: States, order: seq<string>)
    requires Distinct(batch) && i < |batch| && Starting(r, passing, batch, i, before, orderBefore, st, order)
    ensures IsReady(r, st, batch[i])
    ensures Starting(r, passing, batch, i + 1, before, orderBefore, st[batch[i] := Running], order + [batch[i]])
  {
    StartBatchKeepsInv(r, passing, st, order, batch, i);
    NextMember(batch, i);
  }

  /** Marks every member of a batch as running before any of them executes. */
  method StartBatch(s: GraphScheduler, batch: seq<string>, ghost passing: set<string>) returns (raised: bool)
    requires s.Valid() && SchedulerInv(RequiresPairs(s.edges), passing, s.outcomes, s.executionOrder)
    requires RunningNodes(s.outcomes) == {}
    requires Distinct(batch) && AllReady(RequiresPairs(s.edges), s.outcomes, batch)
    modifies s`outcomes, s`executionOrder
    ensures s.Valid() && !raised
    ensures SchedulerInv(RequiresPairs(s.edges), passing, s.outcomes, s.executionOrder)
    ensures s.executionOrder == old(s.executionOrder) + batch
    ensures RunningNodes(s.outcomes) == Members(batch)
    ensures PendingNodes(s.outcomes) == PendingNodes(old(s.outcomes)) - Members(batch)
  {
    raised := false;
    for i := 0 to |batch|
      invariant !raised && s.Valid()
      invariant Starting(RequiresPairs(s.edges), passing, batch, i, old(s.outcomes), old(s.executionOrder),
                         s.outcomes, s.executionOrder)
    {
      StartNext(RequiresPairs(s.edges), passing, batch, i, old(s.outcomes), old(s.executionOrder),
                s.outcomes, s.executionOrder);
      raised := s.MarkRunning(batch[i]);
    }
    assert batch[..|batch|] == batch;
  }

  /** Takes the completions of a started batch in any order. */
  method DrainBatch(s: GraphScheduler, runner: string -> NodeRun, execute: bool, batch: seq<string>)
    returns (raised: bool)
    requires s.Valid()
    requires SchedulerInv(RequiresPairs(s.edges), Passing(s.nodes.Keys, execute, runner), s.outcomes, s.executionOrder)
    requires RunningNodes(s.outcomes) == Members(batch)
    modifies s`outcomes
    ensures s.Valid() && !raised
    ensures SchedulerInv(RequiresPairs(s.edges), Passing(s.nodes.Keys, execute, runner), s.outcomes, s.executionOrder)
    ensures RunningNodes(s.outcomes) == {} && PendingNodes(s.outcomes) <= PendingNodes(old(s.outcomes))
  {
    ghost var passing := Passing(s.nodes.Keys, execute, runner);
    raised := false;
    var remaining := Members(batch);
    while remaining != {}
      invariant !raised && s.Valid()
      invariant SchedulerInv(RequiresPairs(s.edges), passing, s.outcomes, s.executionOrder)
      invariant RunningNodes(s.outcomes) == remaining && PendingNodes(s.outcomes) <= PendingNodes(old(s.outcomes))
    {
      var n :| n in remaining;
      assert n in RunningNodes(s.outcomes);
      CompletionKeepsInv(RequiresPairs(s.edges), passing, s.outcomes, s.executionOrder, n);
      raised := Complete(s, runner, execute, n);
      remaining := remaining - {n};
    }
  }

  /** Some pending nodes of `before` are blocked in `st`; the rest is as it was. */
  predicate PartlyBlocked(before: States, st: States) {
    && before.Keys == st.Keys
    && forall n | n in st :: st[n] == before[n] || (before[n].Pending? && st[n].Blocked?)
  }

  lemma BlockingOneMore(r: Rel, before: States, st: States, n: string)
    requires PartlyBlocked(before, st) && n in st && st[n].Pending?
    ensures PartlyBlocked(before, BlockDependents(r, st[n := Blocked], n))
    ensures PendingNodes(BlockDependents(r, st[n := Blocked], n)) <= PendingNodes(st) - {n}
  {
  }

  /** The deadlock branch: every node still pending ends blocked. */
  method BlockRemaining(s: GraphScheduler) returns (raised: bool)
    requires s.Valid()
    modifies s`outcomes
    ensures s.Valid() && !raised
    ensures s.outcomes == map n | n in old(s.outcomes) ::
                            if old(s.outcomes)[n].Pending? then Blocked else old(s.outcomes)[n]
  {
    raised := false;
    var todo := s.outcomes.Keys;
    while todo != {}
      invariant !raised && s.Valid() && todo <= s.outcomes.Keys
      invariant PendingNodes(s.outcomes) <= todo && PartlyBlocked(old(s.outcomes), s.outcomes)
    {
      var n :| n in todo;
      todo := todo - {n};
      if s.outcomes[n].Pending? {
        BlockingOneMore(RequiresPairs(s.edges), old(s.outcomes), s.outcomes, n);
        raised := s.MarkBlocked(n);
      }
    }
    assert forall n | n in s.outcomes :: n !in PendingNodes(s.outcomes);
  }

  /** One iteration that found ready nodes: the first one alone when sequential,
      otherwise a batch of non-overlapping ones. At least one node leaves the
      pending state. */
  method RunReady(s: GraphScheduler, ready: seq<string>, runner: string -> NodeRun, maxParallel: nat, execute: bool)
    returns (raised: bool)
    requires s.Valid() && maxParallel >= 1
    requires SchedulerInv(RequiresPairs(s.edges), Passing(s.nodes.Keys, execute, runner), s.outcomes, s.executionOrder)
    requires RunningNodes(s.outcomes) == {}
    requires ready != [] && Sorted(ready) && AllReady(RequiresPairs(s.edges), s.outcomes, ready)
    modifies s`outcomes, s`executionOrder
    ensures s.Valid() && !raised
    ensures SchedulerInv(RequiresPairs(s.edges), Passing(s.nodes.Keys, execute, runner), s.outcomes, s.executionOrder)
    ensures RunningNodes(s.outcomes) == {} && PendingNodes(s.outcomes) < PendingNodes(old(s.outcomes))
    ensures |old(s.executionOrder)| < |s.executionOrder| <= |old(s.executionOrder)| + maxParallel
    ensures s.executionOrder[..|old(s.executionOrder)|] == old(s.executionOrder)
    ensures s.executionOrder[|old(s.executionOrder)|] == ready[0]
  {
    var batch := [ready[0]];
    raised := false;
    if maxParallel > 1 {
      raised, batch := SelectParallelBatch(s.nodes, ready, maxParallel);
    }
    assert ready[0] in ready && ready[0] in PendingNodes(s.outcomes);
    if !raised {
      raised := StartBatch(s, batch, Passing(s.nodes.Keys, execute, runner));
    }
    if !raised {
      raised := DrainBatch(s, runner, execute, batch);
    }
  }

  lemma FreshScheduler(r: Rel, passing: set<string>, st: States)
    requires SourcesIn(r, st) && forall n | n in st :: st[n].Pending?
    ensures SchedulerInv(r, passing, st, [])
  {
  }

  /** Ends a run in which nothing is ready any more. */
  method BlockAndFinish(s: GraphScheduler, ghost passing: set<string>) returns (raised: bool)
    requires s.Valid() && SchedulerInv(RequiresPairs(s.edges), passing, s.outcomes, s.executionOrder)
    requires RunningNodes(s.outcomes) == {} && forall n :: !IsReady(RequiresPairs(s.edges), s.outcomes, n)
    modifies s`outcomes
    ensures s.Valid() && !raised && s.IsTerminal()
    ensures FinalStates(RequiresPairs(s.edges), passing, s.outcomes)
    ensures SoundOrder(RequiresPairs(s.edges), s.executionOrder) && OrderMatches(s.outcomes, s.executionOrder)
  {
    ghost var before := s.outcomes;
    raised := BlockRemaining(s);
    BlockingTheRestIsFinal(RequiresPairs(s.edges), passing, before, s.executionOrder, s.outcomes);
    TopologicalIsSound(RequiresPairs(s.edges), s.executionOrder);
    NothingLeft(s.outcomes);
  }

  lemma NothingLeft(st: States)
    requires PendingNodes(st) == {} && RunningNodes(st) == {}
    ensures forall n | n in st :: st[n].Succeeded? || st[n].Failed? || st[n].Blocked?
  {
    forall n | n in st ensures !st[n].Pending? && !st[n].Running? {
      assert n !in PendingNodes(st) && n !in RunningNodes(st);
    }
  }

  /** For any closed graph, cyclic or not, any runner, any parallelism and any
      completion order: no transition raises, the run ends, and the final states
      and the execution order are as `FinalStates` and `SoundOrder` say. */
  method Execute(nodes: map<string, TaskNodeContract>, edges: seq<GraphEdge>, runner: string -> NodeRun,
                 maxParallel: int, execute: bool)
    returns (result: Result<GraphResult, string>)
    requires Closed(nodes.Keys, edges)
    ensures result.Failure? <==> maxParallel < 1
    ensures result.Success? ==>
      && result.value.states.Keys == nodes.Keys
      && result.value.IsTerminal()
      && FinalStates(RequiresPairs(edges), Passing(nodes.Keys, execute, runner), result.value.states)
      && SoundOrder(RequiresPairs(edges), result.value.order)
      && OrderMatches(result.value.states, result.value.order)
  {
    if maxParallel < 1 {
      return Failure("max_parallel must be at least 1");
    }
    ghost var passing := Passing(nodes.Keys, execute, runner);
    var s := new GraphScheduler(nodes, edges);
    FreshScheduler(RequiresPairs(edges), passing, s.outcomes);
    var raised := false;
    while !s.IsTerminal()
      invariant !raised && s.Valid() && s.nodes == nodes && s.edges == edges
      invariant SchedulerInv(RequiresPairs(edges), passing, s.outcomes, s.executionOrder)
      invariant RunningNodes(s.outcomes) == {}
      decreases PendingNodes(s.outcomes)
    {
      var ready := s.ReadyNodes();
      if ready == [] {
        raised := BlockAndFinish(s, passing);
        return Success(GraphResult(s.outcomes, s.executionOrder));
      }
      raised := RunReady(s, ready, runner, maxParallel, execute);
    }
    BlockingTheRestIsFinal(RequiresPairs(edges), passing, s.outcomes, s.executionOrder, s.outcomes);
    TopologicalIsSound(RequiresPairs(edges), s.executionOrder);
    result := Success(GraphResult(s.outcomes, s.executionOrder));
  }

  // ---------------------------------------------------------------------------
  // Consequences over whole runs
  // ---------------------------------------------------------------------------

  /** In a dry run every node off the cycles succeeds, whatever the runner would do;
      otherwise a node succeeds only when its runner returns success, and fails only
      when it returns anything else or raises. */
  lemma RunnerDecides(r: Rel, nodes: set<string>, execute: bool, runner: string -> NodeRun, st: States)
    requires FinalStates(r, Passing(nodes, execute, runner), st) && st.Keys == nodes
    ensures !execute ==> forall n | n in st :: st[n] == if Stuck(r, n) then Blocked else Succeeded
    ensures execute ==> forall n | n in st ::
      (st[n].Succeeded? ==> runner(n) == Returned(true)) && (st[n].Failed? ==> runner(n) != Returned(true))
  {
    if !execute {
      forall n | n in st ensures !st[n].Failed? { assert n in Passing(nodes, execute, runner); }
    }
  }

  /** Off the cycles, a node is blocked exactly when a direct source did not succeed. */
  lemma BlockedByDirectSource(r: Rel, passing: set<string>, st: States, n: string)
    requires FinalStates(r, passing, st) && n in st && !Stuck(r, n) && SourcesIn(r, st)
    ensures st[n].Blocked? <==> exists e | e in r && e.1 == n :: !st[e.0].Succeeded?
  {
    if st[n].Blocked? {
      var a :| a in st && st[a].Failed? && Reaches(r, a, n);
      var c := ReachesLast(r, a, n);
      if c != a { assert FailedAncestor(r, st, c); }
      assert (c, n) in r && !st[c].Succeeded?;
    }
    if e :| e in r && e.1 == n && !st[e.0].Succeeded? {
      ReachesStep(r, e.0, n);
      if Stuck(r, e.0) {
        var c :| Reaches(r, c, c) && (c == e.0 || Reaches(r, c, e.0));
        if c != e.0 { ReachesTransitive(r, c, e.0, n); }
        assert false;
      }
      if st[e.0].Blocked? {
        var a :| a in st && st[a].Failed? && Reaches(r, a, e.0);
        ReachesTransitive(r, a, e.0, n);
      }
      assert FailedAncestor(r, st, n);
    }
  }

  lemma DifferenceHasSource(r: Rel, passing: set<string>, st: States, st': States, n: string) returns (m: string)
    requires st.Keys == st'.Keys && SourcesIn(r, st)
    requires FinalStates(r, passing, st) && FinalStates(r, passing, st')
    requires n in st && st[n] != st'[n]
    ensures !Stuck(r, n) && m in st && st[m] != st'[m] && (m, n) in r
  {
    BlockedByDirectSource(r, passing, st, n);
    BlockedByDirectSource(r, passing, st', n);
    var e :| e in r && e.1 == n && st[e.0] != st'[e.0];
    m := e.0;
  }

  /** Confluence: the final states are a function of the graph and the runner. */
  lemma Confluence(r: Rel, passing: set<string>, st: States, st': States)
    requires st.Keys == st'.Keys && SourcesIn(r, st)
    requires FinalStates(r, passing, st) && FinalStates(r, passing, st')
    ensures st == st'
  {
    var differing := set n | n in st && st[n] != st'[n];
    forall n | n in differing ensures !Stuck(r, n) && HasPredecessorIn(r, differing, n) {
      var m := DifferenceHasSource(r, passing, st, st', n);
      assert m in differing;
    }
    SourcelessUnstuckIsEmpty(r, differing);
    assert forall n | n in st :: n !in differing;
  }

  /** A sequential and a parallel run of the same graph end in the same states. */
  method SequentialEqualsParallel(nodes: map<string, TaskNodeContract>,
                                  edges: seq<GraphEdge>, runner: string -> NodeRun,
                                  maxParallel: nat, execute: bool)
    returns (sequential: States, parallel: States)
    requires Closed(nodes.Keys, edges) && maxParallel >= 1
    ensures sequential.Keys == nodes.Keys
    ensures FinalStates(RequiresPairs(edges), Passing(nodes.Keys, execute, runner), sequential)
    ensures sequential == parallel
  {
    var one := Execute(nodes, edges, runner, 1, execute);
    var many := Execute(nodes, edges, runner, maxParallel, execute);
    sequential, parallel := one.value.states, many.value.states;
    Confluence(RequiresPairs(edges), Passing(nodes.Keys, execute, runner), sequential, parallel);
  }

  /** The deadlock flag of a finished run means a cycle and no failed node; in an
      acyclic graph every blocked node has a failed ancestor. */
  lemma DeadlockMeansCycle(r: Rel, passing: set<string>, result: GraphResult)
    requires FinalStates(r, passing, result.states)
    ensures result.DeadlockDetected() <==> !result.HasFailures() && exists n | n in result.states :: Stuck(r, n)
    ensures result.IsIncomplete()
            <==> exists n | n in result.states :: Stuck(r, n) || FailedAncestor(r, result.states, n)
    ensures !Cyclic(r) ==> !result.DeadlockDetected()
  {
    if result.DeadlockDetected() {
      var n :| n in result.states && !result.states[n].Succeeded?;
      assert Stuck(r, n);
    }
    if result.IsIncomplete() {
      var n :| n in result.states && result.states[n].Blocked?;
      assert Stuck(r, n) || FailedAncestor(r, result.states, n);
    }
  }
}
