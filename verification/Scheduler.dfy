/** The five-state node machine, ready-node selection, batch selection and the
    breadth-first blocking of dependents. */
module Scheduler {
  import opened Contracts
  import opened Walks
  import opened Graph
  import opened Paths

  datatype NodeState = Pending | Running | Succeeded | Failed | Blocked

  type States = map<string, NodeState>

  // ---------------------------------------------------------------------------
  // Deterministic ordering of node ids
  // ---------------------------------------------------------------------------

  predicate LexLeq(a: string, b: string) {
    a == [] || (b != [] && (a[0] < b[0] || (a[0] == b[0] && LexLeq(a[1..], b[1..]))))
  }

  lemma LexTotal(a: string, b: string)
    ensures LexLeq(a, b) || LexLeq(b, a)
    ensures LexLeq(a, b) && LexLeq(b, a) ==> a == b
  {
    if a != [] && b != [] && a[0] == b[0] {
      LexTotal(a[1..], b[1..]);
      assert a == [a[0]] + a[1..] && b == [b[0]] + b[1..];
    }
  }

  /** The dictionary order: a prefix comes first, and otherwise the first difference
      decides. */
  lemma {:induction false} LexByFirstDifference(common: string, a: string, b: string)
    requires a == "" || (b != "" && a[0] < b[0])
    ensures LexLeq(common + a, common + b)
    ensures common + a != common + b ==> !LexLeq(common + b, common + a)
    decreases |common|
  {
    if common == "" {
      assert common + a == a && common + b == b;
    } else {
      LexByFirstDifference(common[1..], a, b);
      assert (common + a)[1..] == common[1..] + a && (common + b)[1..] == common[1..] + b;
      assert common + a == [common[0]] + (common[1..] + a) && common + b == [common[0]] + (common[1..] + b);
    }
  }

  lemma LexTransitive(a: string, b: string, c: string)
    requires LexLeq(a, b) && LexLeq(b, c)
    ensures LexLeq(a, c)
  {
  }

  predicate Sorted(s: seq<string>) {
    forall i, j | 0 <= i < j < |s| :: s[i] != s[j] && LexLeq(s[i], s[j])
  }

  lemma InsertKeepsSorted(s: seq<string>, i: nat, n: string)
    requires Sorted(s) && n !in s && i <= |s|
    requires forall j | 0 <= j < i :: LexLeq(s[j], n)
    requires i < |s| ==> !LexLeq(s[i], n)
    ensures Sorted(s[..i] + [n] + s[i..])
    ensures forall x :: x in s[..i] + [n] + s[i..] <==> x == n || x in s
  {
    forall j | i <= j < |s| ensures LexLeq(n, s[j]) {
      LexTotal(s[i], n);
      if i < j { LexTransitive(n, s[i], s[j]); }
    }
    var t := s[..i] + [n] + s[i..];
    assert forall j | 0 <= j < |t| :: t[j] == if j < i then s[j] else if j == i then n else s[j - 1];
    forall j, k | 0 <= j < k < |t| ensures t[j] != t[k] && LexLeq(t[j], t[k]) {
      if j != i && k != i { assert t[j] in s && t[k] in s; }
    }
    assert s == s[..i] + s[i..];
  }

  method SortedIds(ids: set<string>) returns (s: seq<string>)
    ensures Sorted(s) && forall n :: n in s <==> n in ids
  {
    s := [];
    var todo := ids;
    while todo != {}
      invariant todo <= ids && Sorted(s) && forall n :: n in s <==> n in ids - todo
    {
      var n :| n in todo;
      todo := todo - {n};
      var i := 0;
      while i < |s| && LexLeq(s[i], n)
        invariant 0 <= i <= |s|
        invariant forall j | 0 <= j < i :: LexLeq(s[j], n)
      {
        i := i + 1;
      }
      InsertKeepsSorted(s, i, n);
      s := s[..i] + [n] + s[i..];
    }
  }

  // ---------------------------------------------------------------------------
  // Parallel batch selection
  // ---------------------------------------------------------------------------

  predicate NodesOverlap(nodes: map<string, TaskNodeContract>, a: string, b: string)
    requires a in nodes && b in nodes
  {
    WriteSetsOverlap(nodes[a].writePaths, nodes[b].writePaths)
  }

  predicate ConflictsWith(nodes: map<string, TaskNodeContract>, n: string, batch: seq<string>)
    requires n in nodes && forall b | b in batch :: b in nodes
  {
    exists b | b in batch :: NodesOverlap(nodes, n, b)
  }

  lemma OverlapSymmetric(nodes: map<string, TaskNodeContract>, a: string, b: string)
    requires a in nodes && b in nodes
    ensures NodesOverlap(nodes, a, b) <==> NodesOverlap(nodes, b, a)
  {
    forall p, q ensures PathsOverlap(p, q) <==> PathsOverlap(q, p) { OverlapIsComparability(p, q); }
  }

  ghost predicate PairwiseDisjoint(nodes: map<string, TaskNodeContract>, batch: seq<string>)
    requires forall b | b in batch :: b in nodes
  {
    forall i, j | 0 <= i < j < |batch| :: batch[i] != batch[j] && !NodesOverlap(nodes, batch[i], batch[j])
  }

  /** Greedy first fit. The batch is never empty, its members do not overlap, it
      keeps the order of `ready`, and a ready node is passed over only because it
      overlaps a member chosen before it or because the batch is full. Raises when
      `maxParallel` is below one. */
  method SelectParallelBatch(nodes: map<string, TaskNodeContract>, ready: seq<string>, maxParallel: int)
    returns (raised: bool, batch: seq<string>)
    requires Sorted(ready) && forall n | n in ready :: n in nodes
    ensures raised <==> maxParallel < 1
    ensures forall b | b in batch :: b in ready
    ensures Sorted(batch) && PairwiseDisjoint(nodes, batch)
    ensures !raised ==> |batch| <= maxParallel && (ready != [] ==> batch != [] && batch[0] == ready[0])
    ensures !raised ==> forall n | n in ready && n !in batch ::
      || (|batch| == maxParallel && forall b | b in batch :: LexLeq(b, n))
      || exists b | b in batch :: LexLeq(b, n) && NodesOverlap(nodes, n, b)
  {
    raised, batch := maxParallel < 1, [];
    if raised {
      return;
    }
    var i := 0;
    while i < |ready| && |batch| < maxParallel
      invariant 0 <= i <= |ready| && |batch| <= maxParallel
      invariant forall b | b in batch :: b in ready[..i]
      invariant Sorted(batch) && PairwiseDisjoint(nodes, batch)
      invariant if i == 0 then batch == [] else batch != [] && batch[0] == ready[0]
      invariant forall n | n in ready[..i] && n !in batch ::
        exists b | b in batch :: LexLeq(b, n) && NodesOverlap(nodes, n, b)
    {
      var n := ready[i];
      assert ready[..i + 1] == ready[..i] + [n];
      if !ConflictsWith(nodes, n, batch) {
        forall j | 0 <= j < |batch| ensures batch[j] != n && LexLeq(batch[j], n) && !NodesOverlap(nodes, batch[j], n) {
          assert batch[j] in ready[..i];
          OverlapSymmetric(nodes, batch[j], n);
        }
        batch := batch + [n];
      }
      i := i + 1;
    }
    assert ready == ready[..i] + ready[i..];
  }

  // ---------------------------------------------------------------------------
  // Blocking
  // ---------------------------------------------------------------------------

  /** `st` with every pending descendant of `f`, and nothing else, blocked. */
  ghost function BlockDependents(r: Rel, st: States, f: string): States {
    map n | n in st :: if st[n].Pending? && Reaches(r, f, n) then Blocked else st[n]
  }

  predicate IsReady(r: Rel, st: States, n: string) {
    n in st && st[n].Pending? && forall e | e in r && e.1 == n :: e.0 in st && st[e.0].Succeeded?
  }

  /** `before` with every pending node of `visited` blocked. */
  function BlockVisited(before: States, visited: set<string>): States {
    map n | n in before :: if n in visited && before[n].Pending? then Blocked else before[n]
  }

  lemma BlockNext(before: States, visited: set<string>, n: string)
    requires n in before && n !in visited
    ensures var now := BlockVisited(before, visited);
            BlockVisited(before, visited + {n}) == if now[n].Pending? then now[n := Blocked] else now
  {
  }

  predicate HasSuccessorsIn(r: Rel, n: string, s: set<string>) {
    forall e | e in r && e.0 == n :: e.1 in s
  }

  /** The relation grows by the next edge when it is a `requires` edge. */
  lemma NextRequires(edges: seq<GraphEdge>, i: nat)
    requires i < |edges|
    ensures RequiresPairs(edges[..i + 1]) ==
      RequiresPairs(edges[..i]) + if edges[i].edgeType == REQUIRES then {(edges[i].source, edges[i].target)} else {}
    ensures edges[i].edgeType == REQUIRES ==> (edges[i].source, edges[i].target) in RequiresPairs(edges)
  {
    assert edges[..i + 1] == edges[..i] + [edges[i]];
  }

  ghost predicate AllFrom(r: Rel, f: string, visited: set<string>) {
    f in visited && forall v | v in visited && v != f :: Reaches(r, f, v)
  }

  lemma AllFromExtends(r: Rel, f: string, current: string, visited: set<string>, visited': set<string>)
    requires AllFrom(r, f, visited) && current in visited && visited <= visited'
    requires forall v | v in visited' && v !in visited :: (current, v) in r
    ensures AllFrom(r, f, visited')
  {
    forall v | v in visited' && v !in visited ensures Reaches(r, f, v) {
      ReachesStep(r, current, v);
      if current != f { ReachesTransitive(r, f, current, v); }
    }
  }

  lemma SuccessorsStay(r: Rel, visited: set<string>, visited': set<string>)
    requires visited <= visited'
    ensures forall n :: HasSuccessorsIn(r, n, visited) ==> HasSuccessorsIn(r, n, visited')
  {
  }

  /** The first `i` edges have been followed from `current`. */
  ghost predicate Expanded(edges: seq<GraphEdge>, i: nat, current: string, queue: seq<string>, visited: set<string>,
                           queue': seq<string>, visited': set<string>)
    requires i <= |edges|
  {
    && visited <= visited' && HasSuccessorsIn(RequiresPairs(edges[..i]), current, visited')
    && (forall v | v in visited' && v !in visited :: (current, v) in RequiresPairs(edges))
    && (forall q :: q in queue' <==> q in queue || (q in visited' && q !in visited))
    && (visited' == visited ==> queue' == queue)
  }

  lemma ExpandNext(edges: seq<GraphEdge>, i: nat, current: string, queue: seq<string>, visited: set<string>,
                   queue': seq<string>, visited': set<string>)
    requires i < |edges| && Expanded(edges, i, current, queue, visited, queue', visited')
    ensures var edge := edges[i];
      if edge.edgeType == REQUIRES && edge.source == current && edge.target !in visited'
      then Expanded(edges, i + 1, current, queue, visited, queue' + [edge.target], visited' + {edge.target})
      else Expanded(edges, i + 1, current, queue, visited, queue', visited')
  {
    NextRequires(edges, i);
  }

  /** The state of the search: everything visited is reached from `f`, and everything
      no longer queued has its successors visited. */
  ghost predicate Searched(r: Rel, f: string, queue: seq<string>, visited: set<string>) {
    && AllFrom(r, f, visited) && (forall q | q in queue :: q in visited)
    && forall v | v in visited && v !in queue :: HasSuccessorsIn(r, v, visited)
  }

  lemma SearchStep(r: Rel, f: string, queue: seq<string>, visited: set<string>, queue': seq<string>,
                   visited': set<string>)
    requires queue != [] && Searched(r, f, queue, visited) && visited <= visited'
    requires HasSuccessorsIn(r, queue[0], visited')
    requires forall v | v in visited' && v !in visited :: (queue[0], v) in r
    requires forall q :: q in queue' <==> q in queue[1..] || (q in visited' && q !in visited)
    ensures Searched(r, f, queue', visited')
  {
    assert queue == [queue[0]] + queue[1..];
    AllFromExtends(r, f, queue[0], visited, visited');
    SuccessorsStay(r, visited, visited');
  }

  /** The fixpoint of the search is the set of descendants. */
  lemma VisitedAreDescendants(r: Rel, before: States, f: string, visited: set<string>)
    requires AllFrom(r, f, visited) && f in before && !before[f].Pending?
    requires forall v | v in visited :: HasSuccessorsIn(r, v, visited)
    ensures BlockVisited(before, visited) == BlockDependents(r, before, f)
  {
    forall n | n in before && Reaches(r, f, n) ensures n in visited {
      forall e | e in r && e.0 in visited ensures e.1 in visited { assert HasSuccessorsIn(r, e.0, visited); }
      ClosedHoldsReached(r, visited, f, n);
    }
  }

  class GraphScheduler {
    const nodes: map<string, TaskNodeContract>
    const edges: seq<GraphEdge>
    const requiresSources: map<string, seq<string>>
    var outcomes: States
    var executionOrder: seq<string>

    ghost predicate Valid()
      reads this
    {
      && Closed(nodes.Keys, edges)
      && outcomes.Keys == nodes.Keys
      && requiresSources.Keys == nodes.Keys
      && forall n, s | n in nodes :: s in requiresSources[n] <==> (s, n) in RequiresPairs(edges)
    }

    constructor (nodes: map<string, TaskNodeContract>, edges: seq<GraphEdge>)
      requires Closed(nodes.Keys, edges)
      ensures Valid() && this.nodes == nodes && this.edges == edges
      ensures executionOrder == [] && forall n | n in outcomes :: outcomes[n] == Pending
    {
      var sources: map<string, seq<string>> := map n | n in nodes :: [];
      for i := 0 to |edges|
        invariant sources.Keys == nodes.Keys
        invariant forall n, s | n in nodes :: s in sources[n] <==> (s, n) in RequiresPairs(edges[..i])
      {
        var e := edges[i];
        NextRequires(edges, i);
        if e.edgeType == REQUIRES && e.target in sources {
          sources := sources[e.target := sources[e.target] + [e.source]];
        }
      }
      assert edges[..|edges|] == edges;
      this.nodes, this.edges, requiresSources := nodes, edges, sources;
      outcomes := map n | n in nodes :: Pending;
      executionOrder := [];
    }

    /** Exactly the ready nodes, in lexicographic order. */
    method ReadyNodes() returns (ready: seq<string>)
      requires Valid()
      ensures Sorted(ready) && forall n :: n in ready <==> IsReady(RequiresPairs(edges), outcomes, n)
    {
      ghost var r := RequiresPairs(edges);
      var ids := SortedIds(outcomes.Keys);
      ready := [];
      for i := 0 to |ids|
        invariant Sorted(ready) && forall n | n in ready :: n in ids[..i]
        invariant forall n | n in ids[..i] :: n in ready <==> IsReady(r, outcomes, n)
      {
        var nid := ids[i];
        assert ids[..i + 1] == ids[..i] + [nid];
        assert forall s | s in requiresSources[nid] :: (s, nid) in r;
        assert forall e | e in r && e.1 == nid :: e.0 in requiresSources[nid];
        forall j | 0 <= j < |ready| ensures ready[j] != nid && LexLeq(ready[j], nid) {
          assert ready[j] in ids[..i];
        }
        if outcomes[nid].Pending? && forall s | s in requiresSources[nid] :: outcomes[s].Succeeded? {
          ready := ready + [nid];
        }
      }
      assert ids[..|ids|] == ids;
    }

    predicate IsTerminal()
      reads this
    {
      forall n | n in outcomes :: outcomes[n].Succeeded? || outcomes[n].Failed? || outcomes[n].Blocked?
    }

    /** `raised` stands for the exception on an unknown or wrong-state node. */
    method MarkRunning(id: string) returns (raised: bool)
      requires Valid()
      modifies this`outcomes, this`executionOrder
      ensures Valid()
      ensures raised <==> !(id in old(outcomes) && old(outcomes)[id].Pending?)
      ensures raised ==> outcomes == old(outcomes) && executionOrder == old(executionOrder)
      ensures !raised ==> outcomes == old(outcomes)[id := Running] && executionOrder == old(executionOrder) + [id]
    {
      if id !in outcomes || !outcomes[id].Pending? {
        return true;
      }
      outcomes := outcomes[id := Running];
      executionOrder := executionOrder + [id];
      raised := false;
    }

    method MarkSucceeded(id: string) returns (raised: bool)
      requires Valid()
      modifies this`outcomes
      ensures Valid()
      ensures raised <==> !(id in old(outcomes) && old(outcomes)[id].Running?)
      ensures outcomes == if raised then old(outcomes) else old(outcomes)[id := Succeeded]
    {
      if id !in outcomes || !outcomes[id].Running? {
        return true;
      }
      outcomes := outcomes[id := Succeeded];
      raised := false;
    }

    method MarkFailed(id: string) returns (raised: bool)
      requires Valid()
      modifies this`outcomes
      ensures Valid()
      ensures raised <==> !(id in old(outcomes) && old(outcomes)[id].Running?)
      ensures outcomes ==
        if raised then old(outcomes) else BlockDependents(RequiresPairs(edges), old(outcomes)[id := Failed], id)
    {
      if id !in outcomes || !outcomes[id].Running? {
        return true;
      }
      outcomes := outcomes[id := Failed];
      PropagateBlocked(id);
      raised := false;
    }

    method MarkBlocked(id: string) returns (raised: bool)
      requires Valid()
      modifies this`outcomes
      ensures Valid()
      ensures raised <==> !(id in old(outcomes) && old(outcomes)[id].Pending?)
      ensures outcomes ==
        if raised then old(outcomes) else BlockDependents(RequiresPairs(edges), old(outcomes)[id := Blocked], id)
    {
      if id !in outcomes || !outcomes[id].Pending? {
        return true;
      }
      outcomes := outcomes[id := Blocked];
      PropagateBlocked(id);
      raised := false;
    }

    /** One dequeued node: block and enqueue each dependent not yet visited. */
    method VisitDependents(current: string, ghost before: States, queue: seq<string>, visited: set<string>)
      returns (queue': seq<string>, visited': set<string>)
      requires Valid() && visited <= nodes.Keys
      requires outcomes == BlockVisited(before, visited)
      modifies this`outcomes
      ensures Valid() && visited <= visited' <= nodes.Keys && outcomes == BlockVisited(before, visited')
      ensures HasSuccessorsIn(RequiresPairs(edges), current, visited')
      ensures forall v | v in visited' && v !in visited :: (current, v) in RequiresPairs(edges)
      ensures forall q :: q in queue' <==> q in queue || (q in visited' && q !in visited)
      ensures visited' == visited ==> queue' == queue
    {
      queue', visited' := queue, visited;
      for i := 0 to |edges|
        invariant Valid() && visited' <= nodes.Keys && outcomes == BlockVisited(before, visited')
        invariant Expanded(edges, i, current, queue, visited, queue', visited')
      {
        var edge := edges[i];
        ExpandNext(edges, i, current, queue, visited, queue', visited');
        if edge.edgeType == REQUIRES && edge.source == current && edge.target !in visited' {
          BlockNext(before, visited', edge.target);
          if outcomes[edge.target].Pending? {
            outcomes := outcomes[edge.target := Blocked];
          }
          visited' := visited' + {edge.target};
          queue' := queue' + [edge.target];
        }
      }
      assert edges[..|edges|] == edges;
    }

    /** Breadth-first search over the `requires` edges. */
    method PropagateBlocked(failed: string)
      requires Valid() && failed in outcomes && !outcomes[failed].Pending?
      modifies this`outcomes
      ensures Valid()
      ensures outcomes == BlockDependents(RequiresPairs(edges), old(outcomes), failed)
    {
      ghost var r := RequiresPairs(edges);
      var queue := [failed];
      var visited := {failed};
      while queue != []
        invariant Valid() && visited <= nodes.Keys && Searched(r, failed, queue, visited)
        invariant outcomes == BlockVisited(old(outcomes), visited)
        decreases nodes.Keys - visited, |queue|
      {
        ghost var before, seen := queue, visited;
        queue, visited := VisitDependents(queue[0], old(outcomes), queue[1..], visited);
        SearchStep(r, failed, before, seen, queue, visited);
        if visited != seen {
          assert nodes.Keys - visited < nodes.Keys - seen;
        }
      }
      VisitedAreDescendants(r, old(outcomes), failed, visited);
    }
  }
}
