/** Node-scoped write reservations: the manager, its audit log, and why no
    reservation made during a run of parallel batches is ever refused. */
module Reservations {
  import opened Contracts
  import opened Paths
  import opened Scheduler
  import opened Walks

  /** Active reservations: path to owning node. */
  type Active = map<Path, string>

  datatype Record = Record(node: string, path: Path, released: bool)

  predicate ConflictsWithOthers(active: Active, node: string, path: Path) {
    exists q | q in active :: active[q] != node && PathsOverlap(path, q)
  }

  /** No path of `paths` overlaps an active reservation of another node. */
  predicate Reservable(active: Active, node: string, paths: seq<Path>) {
    forall p | p in paths :: Canonical(p) && !ConflictsWithOthers(active, node, p)
  }

  function Reserved(active: Active, node: string, paths: seq<Path>): Active {
    active + map p | p in paths :: node
  }

  function Released(active: Active, node: string): Active {
    map p | p in active && active[p] != node :: active[p]
  }

  /** No two active reservations of different nodes overlap. */
  predicate Exclusive(active: Active) {
    forall p, q | p in active && q in active && active[p] != active[q] :: !PathsOverlap(p, q)
  }

  /** The reservations an audit log leaves active. */
  function ActiveAfter(log: seq<Record>): Active {
    if log == [] then map[]
    else
      var rest, last := ActiveAfter(log[..|log| - 1]), log[|log| - 1];
      if last.released then rest - {last.path} else rest[last.path := last.node]
  }

  /** The audit log only grows. */
  predicate Extends(before: seq<Record>, after: seq<Record>) {
    |before| <= |after| && after[..|before|] == before
  }

  /** Releasing a node undoes its reservation. */
  lemma ReserveThenRelease(active: Active, node: string, paths: seq<Path>)
    requires Reservable(active, node, paths)
    ensures Released(Reserved(active, node, paths), node) == Released(active, node)
  {
    forall p | p in paths && p in active ensures active[p] == node {
      assert PathsOverlap(p, p);
    }
  }

  lemma ReserveKeepsExclusive(active: Active, node: string, paths: seq<Path>)
    requires Exclusive(active) && Reservable(active, node, paths)
    ensures Exclusive(Reserved(active, node, paths))
  {
    var after := Reserved(active, node, paths);
    forall p, q | p in after && q in after && after[p] != after[q] ensures !PathsOverlap(p, q) {
      OverlapIsComparability(p, q);
      if p in paths {
        assert q in active && !ConflictsWithOthers(active, node, p);
      } else if q in paths {
        assert p in active && !ConflictsWithOthers(active, node, q);
      }
    }
  }

  class WriteReservationManager {
    var active: Active
    var log: seq<Record>

    ghost predicate Valid()
      reads this
    {
      Exclusive(active) && active == ActiveAfter(log)
    }

    constructor ()
      ensures Valid() && active == map[] && log == []
    {
      active, log := map[], [];
    }

    /** All or nothing: raises exactly when a path is invalid or overlaps a
        reservation of another node, and then changes nothing. */
    method Reserve(node: string, paths: seq<Path>) returns (raised: bool)
      requires Valid()
      modifies this
      ensures Valid()
      ensures raised <==> !Reservable(old(active), node, paths)
      ensures raised ==> active == old(active) && log == old(log)
      ensures !raised ==> active == Reserved(old(active), node, paths) && Extends(old(log), log)
    {
      var refused := IsRefused(node, paths);
      if refused {
        return true;
      }
      ReserveKeepsExclusive(active, node, paths);
      RecordAll(node, paths);
      raised := false;
    }

    /** The conflict check, before anything is recorded. */
    method IsRefused(node: string, paths: seq<Path>) returns (refused: bool)
      ensures refused <==> !Reservable(active, node, paths)
    {
      for i := 0 to |paths|
        invariant forall p | p in paths[..i] :: Canonical(p) && !ConflictsWithOthers(active, node, p)
      {
        assert paths[..i + 1] == paths[..i] + [paths[i]];
        if !Canonical(paths[i]) || ConflictsWithOthers(active, node, paths[i]) {
          return true;
        }
      }
      assert paths[..|paths|] == paths;
      refused := false;
    }

    method RecordAll(node: string, paths: seq<Path>)
      requires active == ActiveAfter(log) && Reservable(active, node, paths)
      modifies this
      ensures active == Reserved(old(active), node, paths)
      ensures active == ActiveAfter(log) && Extends(old(log), log)
    {
      for i := 0 to |paths|
        invariant active == Reserved(old(active), node, paths[..i])
        invariant active == ActiveAfter(log) && Extends(old(log), log)
      {
        ReservedStep(old(active), node, paths, i);
        if !(paths[i] in active && active[paths[i]] == node) {
          AppendRecord(log, Record(node, paths[i], false));
          active := active[paths[i] := node];
          log := log + [Record(node, paths[i], false)];
        }
      }
      assert paths[..|paths|] == paths;
    }

    /** Releases one path of one node. */
    method Release(node: string, path: Path) returns (released: bool)
      requires Valid()
      modifies this
      ensures Valid()
      ensures released <==> path in old(active) && old(active)[path] == node
      ensures active == (if released then old(active) - {path} else old(active))
      ensures !released ==> log == old(log)
    {
      if path !in active || active[path] != node {
        return false;
      }
      active := active - {path};
      AppendRecord(log, Record(node, path, true));
      log := log + [Record(node, path, true)];
      released := true;
    }

    method ReleaseNode(node: string) returns (count: nat)
      requires Valid()
      modifies this
      ensures Valid()
      ensures active == Released(old(active), node)
      ensures count == |set p | p in old(active) && old(active)[p] == node|
    {
      var owned := set p | p in active && active[p] == node;
      count := |owned|;
      var todo := owned;
      while todo != {}
        invariant Valid() && todo <= owned
        invariant active == old(active) - (owned - todo)
      {
        var p :| p in todo;
        assert p in active && active[p] == node;
        var ok := Release(node, p);
        todo := todo - {p};
        assert active == old(active) - (owned - todo);
      }
      assert owned - todo == owned;
      assert old(active) - owned == Released(old(active), node);
    }
  }

  lemma ReservedStep(active: Active, node: string, paths: seq<Path>, i: nat)
    requires i < |paths|
    ensures Reserved(active, node, paths[..i + 1]) == Reserved(active, node, paths[..i])[paths[i] := node]
  {
    assert paths[..i + 1] == paths[..i] + [paths[i]];
  }

  lemma AppendRecord(log: seq<Record>, r: Record)
    ensures ActiveAfter(log + [r])
            == if r.released then ActiveAfter(log) - {r.path} else ActiveAfter(log)[r.path := r.node]
  {
    assert (log + [r])[..|log|] == log;
  }

  // ---------------------------------------------------------------------------
  // Reservations during a run
  // ---------------------------------------------------------------------------

  /** One step of some node of a batch: reserving its write paths at its start, or
      releasing everything in its `finally`. */
  datatype Event = Acquire(node: string) | Free(node: string)

  function WritePaths(nodes: map<string, TaskNodeContract>, n: string): seq<Path> {
    if n in nodes then nodes[n].writePaths else []
  }

  /** What a node reserves: its declared paths, resolved. */
  function ReservedPaths(nodes: map<string, TaskNodeContract>, n: string): Option<seq<Path>> {
    ResolveSeq(WritePaths(nodes, n))
  }

  /** The reservations after a trace, `None` when a reservation was refused. */
  function RunTrace(nodes: map<string, TaskNodeContract>, active: Active, trace: seq<Event>): Option<Active>
    decreases |trace|
  {
    if trace == [] then Some(active)
    else
      match trace[0]
      case Free(n) => RunTrace(nodes, Released(active, n), trace[1..])
      case Acquire(n) =>
        match ReservedPaths(nodes, n)
        case None => None
        case Some(paths) =>
          if Reservable(active, n, paths) then RunTrace(nodes, Reserved(active, n, paths), trace[1..]) else None
  }

  predicate TraceOf(trace: seq<Event>, batch: seq<string>) {
    forall e | e in trace :: e.node in batch
  }

  /** Every acquisition is followed by a release of the same node. */
  predicate AllReleased(trace: seq<Event>, holders: set<string>)
    decreases |trace|
  {
    if trace == [] then holders == {}
    else if trace[0].Acquire? then AllReleased(trace[1..], holders + {trace[0].node})
    else AllReleased(trace[1..], holders - {trace[0].node})
  }

  /** Two nodes whose resolved write paths overlap. */
  predicate ResolvedOverlap(nodes: map<string, TaskNodeContract>, a: string, b: string)
    requires ReservedPaths(nodes, a).Some? && ReservedPaths(nodes, b).Some?
  {
    WriteSetsOverlap(ReservedPaths(nodes, a).value, ReservedPaths(nodes, b).value)
  }

  /** Every write path of the batch resolves, and the resolved write sets of
      different members do not overlap. */
  predicate Holdable(nodes: map<string, TaskNodeContract>, batch: seq<string>) {
    && (forall n | n in batch :: ReservedPaths(nodes, n).Some?)
    && forall a, b | a in batch && b in batch && a != b :: !ResolvedOverlap(nodes, a, b)
  }

  /** What is active belongs to holders of the batch and was declared by them. */
  predicate DeclaredBy(nodes: map<string, TaskNodeContract>, active: Active, holders: set<string>) {
    forall p | p in active ::
      && active[p] in holders
      && ReservedPaths(nodes, active[p]).Some? && p in ReservedPaths(nodes, active[p]).value
  }

  lemma AcquireSucceeds(nodes: map<string, TaskNodeContract>, batch: seq<string>, active: Active,
                        holders: set<string>, n: string)
    requires Holdable(nodes, batch) && n in batch
    requires (forall h | h in holders :: h in batch) && DeclaredBy(nodes, active, holders)
    ensures Reservable(active, n, ReservedPaths(nodes, n).value)
    ensures DeclaredBy(nodes, Reserved(active, n, ReservedPaths(nodes, n).value), holders + {n})
  {
    var paths := ReservedPaths(nodes, n).value;
    ResolvedSeqIsCanonical(WritePaths(nodes, n));
    forall p | p in paths ensures Canonical(p) && !ConflictsWithOthers(active, n, p) {
      forall q | q in active && active[q] != n ensures !PathsOverlap(p, q) {
        assert !ResolvedOverlap(nodes, n, active[q]);
      }
    }
  }

  /** In every interleaving of the nodes of a holdable batch every reservation
      succeeds; once every node has run its `finally`, none is left. */
  lemma {:induction false} HoldableNeverRefused(nodes: map<string, TaskNodeContract>, batch: seq<string>,
                                                active: Active,
                                                holders: set<string>, trace: seq<Event>)
    requires Holdable(nodes, batch) && TraceOf(trace, batch)
    requires (forall h | h in holders :: h in batch) && DeclaredBy(nodes, active, holders)
    ensures RunTrace(nodes, active, trace).Some?
    ensures AllReleased(trace, holders) ==> RunTrace(nodes, active, trace) == Some(map[])
    decreases |trace|
  {
    if trace == [] {
      if holders == {} { assert forall p :: p !in active; }
    } else {
      assert trace[0] in trace;
      assert forall e | e in trace[1..] :: e in trace;
      match trace[0] {
        case Free(n) => HoldableNeverRefused(nodes, batch, Released(active, n), holders - {n}, trace[1..]);
        case Acquire(n) =>
          AcquireSucceeds(nodes, batch, active, holders, n);
          var after := Reserved(active, n, ReservedPaths(nodes, n).value);
          HoldableNeverRefused(nodes, batch, after, holders + {n}, trace[1..]);
      }
    }
  }

  lemma UnresolvedIsRefused(nodes: map<string, TaskNodeContract>, n: string, rest: seq<Event>)
    requires ReservedPaths(nodes, n).None?
    ensures RunTrace(nodes, map[], [Acquire(n)] + rest) == None
  {
  }

  lemma OverlapIsRefused(nodes: map<string, TaskNodeContract>, a: string, b: string, rest: seq<Event>)
    requires a != b && ReservedPaths(nodes, a).Some? && ReservedPaths(nodes, b).Some? && ResolvedOverlap(nodes, a, b)
    ensures RunTrace(nodes, map[], [Acquire(a), Acquire(b)] + rest) == None
  {
    var mine, theirs := ReservedPaths(nodes, a).value, ReservedPaths(nodes, b).value;
    var p, q :| p in mine && q in theirs && PathsOverlap(p, q);
    var active := Reserved(map[], a, mine);
    OverlapIsComparability(p, q);
    assert p in active && active[p] == a && ConflictsWithOthers(active, b, q);
    var trace := [Acquire(a), Acquire(b)] + rest;
    assert trace[1..] == [Acquire(b)] + rest;
  }

  /** A batch that is not holdable has a refused trace, even one in which every node
      would release in the end. */
  lemma RefusedTrace(nodes: map<string, TaskNodeContract>, batch: seq<string>) returns (trace: seq<Event>)
    requires !Holdable(nodes, batch)
    ensures TraceOf(trace, batch) && AllReleased(trace, {}) && RunTrace(nodes, map[], trace) == None
  {
    if n :| n in batch && ReservedPaths(nodes, n).None? {
      trace := [Acquire(n), Free(n)];
      assert trace == [Acquire(n)] + [Free(n)] && trace[1..] == [Free(n)] && [Free(n)][1..] == [];
      UnresolvedIsRefused(nodes, n, [Free(n)]);
    } else {
      var a, b :| a in batch && b in batch && a != b && ResolvedOverlap(nodes, a, b);
      var rest := [Free(a), Free(b)];
      trace := [Acquire(a), Acquire(b)] + rest;
      BothRelease(a, b);
      OverlapIsRefused(nodes, a, b, rest);
    }
  }

  lemma BothRelease(a: string, b: string)
    requires a != b
    ensures AllReleased([Acquire(a), Acquire(b)] + [Free(a), Free(b)], {})
  {
    var trace := [Acquire(a), Acquire(b)] + [Free(a), Free(b)];
    assert [Free(b)][1..] == [] && {b} - {b} == {};
    assert AllReleased([Free(b)], {b});
    assert [Free(a), Free(b)][1..] == [Free(b)] && {} + {a} + {b} - {a} == {b};
    assert AllReleased([Free(a), Free(b)], {} + {a} + {b});
    assert trace[1..] == [Acquire(b), Free(a), Free(b)] && trace[1..][1..] == [Free(a), Free(b)];
    assert AllReleased(trace[1..], {} + {a});
  }

  /** Exactly when no interleaving of a batch is ever refused a reservation: when it
      is holdable. */
  lemma NeverRefusedExactly(nodes: map<string, TaskNodeContract>, batch: seq<string>)
    ensures (forall trace | TraceOf(trace, batch) :: RunTrace(nodes, map[], trace).Some?) <==> Holdable(nodes, batch)
  {
    if Holdable(nodes, batch) {
      forall trace | TraceOf(trace, batch) ensures RunTrace(nodes, map[], trace).Some? {
        HoldableNeverRefused(nodes, batch, map[], {}, trace);
      }
    } else {
      var trace := RefusedTrace(nodes, batch);
      assert TraceOf(trace, batch);
    }
  }

  // ---------------------------------------------------------------------------
  // Whole runs
  // ---------------------------------------------------------------------------

  /** One trace for each batch of a run, one batch after the other. */
  function RunBatches(nodes: map<string, TaskNodeContract>, active: Active, traces: seq<seq<Event>>): Option<Active>
    decreases |traces|
  {
    if traces == [] then Some(active)
    else
      match RunTrace(nodes, active, traces[0])
      case None => None
      case Some(next) => RunBatches(nodes, next, traces[1..])
  }

  predicate TracesOf(traces: seq<seq<Event>>, batches: seq<seq<string>>) {
    && |traces| == |batches|
    && forall k | 0 <= k < |traces| :: TraceOf(traces[k], batches[k]) && AllReleased(traces[k], {})
  }

  lemma {:induction false} HoldableRunNeverRefused(nodes: map<string, TaskNodeContract>, batches: seq<seq<string>>,
                                                   traces: seq<seq<Event>>)
    requires TracesOf(traces, batches) && forall b | b in batches :: Holdable(nodes, b)
    ensures RunBatches(nodes, map[], traces) == Some(map[])
    decreases |traces|
  {
    if traces != [] {
      assert batches[0] in batches;
      HoldableNeverRefused(nodes, batches[0], map[], {}, traces[0]);
      assert forall b | b in batches[1..] :: b in batches;
      HoldableRunNeverRefused(nodes, batches[1..], traces[1..]);
    }
  }

  lemma {:induction false} RefusedLater(nodes: map<string, TaskNodeContract>, traces: seq<seq<Event>>, k: nat)
    requires k < |traces| && RunTrace(nodes, map[], traces[k]) == None
    requires forall i | 0 <= i < k :: traces[i] == []
    ensures RunBatches(nodes, map[], traces) == None
    decreases k
  {
    if k > 0 { RefusedLater(nodes, traces[1..], k - 1); }
  }

  /** A run that does nothing before the batch that is not holdable. */
  lemma RefusedRun(nodes: map<string, TaskNodeContract>, batches: seq<seq<string>>, k: nat)
    returns (traces: seq<seq<Event>>)
    requires k < |batches| && !Holdable(nodes, batches[k])
    ensures TracesOf(traces, batches) && RunBatches(nodes, map[], traces) == None
  {
    var refused := RefusedTrace(nodes, batches[k]);
    traces := seq(|batches|, i requires 0 <= i < |batches| => if i == k then refused else []);
    RefusedLater(nodes, traces, k);
  }

  /** Exactly when a whole run, in all its interleavings, is never refused and ends
      with nothing reserved: when every batch is holdable. */
  lemma RunNeverRefusedExactly(nodes: map<string, TaskNodeContract>, batches: seq<seq<string>>)
    ensures (forall traces | TracesOf(traces, batches) :: RunBatches(nodes, map[], traces) == Some(map[]))
      <==> forall b | b in batches :: Holdable(nodes, b)
  {
    if forall b | b in batches :: Holdable(nodes, b) {
      forall traces | TracesOf(traces, batches) ensures RunBatches(nodes, map[], traces) == Some(map[]) {
        HoldableRunNeverRefused(nodes, batches, traces);
      }
    } else {
      var k :| 0 <= k < |batches| && !Holdable(nodes, batches[k]);
      var traces := RefusedRun(nodes, batches, k);
    }
  }

  // ---------------------------------------------------------------------------
  // Selected batches
  // ---------------------------------------------------------------------------

  predicate CanonicalNodes(nodes: map<string, TaskNodeContract>) {
    forall n | n in nodes :: forall p | p in nodes[n].writePaths :: Canonical(p)
  }

  /** For paths without `..` what selection compares is what is reserved, so every
      selected batch is holdable. */
  lemma SelectedIsHoldable(nodes: map<string, TaskNodeContract>, batch: seq<string>)
    requires (forall b | b in batch :: b in nodes) && PairwiseDisjoint(nodes, batch) && CanonicalNodes(nodes)
    ensures Holdable(nodes, batch)
  {
    forall n | n in batch ensures ReservedPaths(nodes, n) == Some(nodes[n].writePaths) {
      CanonicalSeqResolvesToItself(nodes[n].writePaths);
    }
    forall a, b | a in batch && b in batch && a != b ensures !ResolvedOverlap(nodes, a, b) {
      var i :| 0 <= i < |batch| && batch[i] == a;
      var j :| 0 <= j < |batch| && batch[j] == b;
      OverlapSymmetric(nodes, a, b);
    }
  }

  /** With `..` selection and reservation disagree: of two nodes that write
      `src/../lib` and `lib`, both are selected and the second is refused. */
  method SelectedMayBeRefused(nodes: map<string, TaskNodeContract>, maxParallel: int) returns (batch: seq<string>)
    requires nodes.Keys == {"a", "b"} && maxParallel >= 2
    requires nodes["a"].writePaths == [["src", "..", "lib"]] && nodes["b"].writePaths == [["lib"]]
    ensures batch == ["a", "b"] && PairwiseDisjoint(nodes, batch) && !Holdable(nodes, batch)
    ensures RunTrace(nodes, map[], [Acquire("a"), Acquire("b")]) == None
  {
    UpAndDownAgain();
    assert LexLeq("a", "b") && !NodesOverlap(nodes, "a", "b");
    OverlapSymmetric(nodes, "a", "b");
    var ready := SortedIds(nodes.Keys);
    assert "a" in ready && "b" in ready;
    var raised;
    raised, batch := SelectParallelBatch(nodes, ready, maxParallel);
    TwoSorted(ready);
    if "b" !in batch {
      SortedFitsIn(batch, {"a"});
      assert false;
    }
    TwoSorted(batch);
    assert ResolvedOverlap(nodes, "a", "b");
    OverlapIsRefused(nodes, "a", "b", []);
    assert [Acquire("a"), Acquire("b")] + [] == [Acquire("a"), Acquire("b")];
  }

  lemma UpAndDownAgain()
    ensures var raw, plain: Path := ["src", "..", "lib"], ["lib"];
      !WriteSetsOverlap([raw], [plain]) && ResolveSeq([raw]) == Some([plain]) && ResolveSeq([plain]) == Some([plain])
      && WriteSetsOverlap([plain], [plain])
  {
    var src, up, raw, lib: Path := ["src"], ["src", ".."], ["src", "..", "lib"], ["lib"];
    assert src[..0] == [] && up[..1] == src && raw[..2] == up && lib[..0] == [];
    assert Resolve(src) == Some([] + ["src"]);
    assert ([] + ["src"])[..0] == [];
    assert Resolve(up) == Some([]);
    assert [] + ["lib"] == lib && Resolve(raw) == Some(lib) && Resolve(lib) == Some(lib);
    var none: seq<Path> := [];
    assert [raw][1..] == none && [lib][1..] == none && ResolveSeq(none) == Some(none);
    assert ResolveSeq([raw]) == Some([lib] + none) && ResolveSeq([lib]) == Some([lib] + none);
    assert [lib] + none == [lib];
    assert lib in [lib] && PathsOverlap(lib, lib);
  }

  lemma SortedFitsIn(batch: seq<string>, ids: set<string>)
    requires Sorted(batch) && forall n | n in batch :: n in ids
    ensures |batch| <= |ids|
  {
    if |batch| > |ids| {
      var i, j := Pigeonhole(batch, ids);
      assert false;
    }
  }

  lemma TwoSorted(batch: seq<string>)
    requires Sorted(batch) && "a" in batch && "b" in batch && forall n | n in batch :: n == "a" || n == "b"
    ensures batch == ["a", "b"]
  {
    SortedFitsIn(batch, {"a", "b"});
    assert |batch| == 2 && batch[0] in batch && batch[1] in batch;
    assert !LexLeq("b", "a");
  }
}
