/** The task-contract graph: edge insertion guarded by a depth-first acyclicity check. */
module Graph {
  import opened Contracts
  import opened Walks

  /** Every edge, whatever its type: the relation the acyclicity check looks at. */
  function EdgePairs(edges: seq<GraphEdge>): Rel {
    set e | e in edges :: (e.source, e.target)
  }

  /** The `requires` edges only: the relation the scheduler looks at. */
  function RequiresPairs(edges: seq<GraphEdge>): Rel {
    set e | e in edges && e.edgeType == REQUIRES :: (e.source, e.target)
  }

  predicate Closed(nodes: set<string>, edges: seq<GraphEdge>) {
    forall e | e in edges :: e.source in nodes && e.target in nodes
  }

  lemma AcyclicGraphHasNoRequiresCycle(edges: seq<GraphEdge>)
    requires !Cyclic(EdgePairs(edges))
    ensures forall n :: !Stuck(RequiresPairs(edges), n)
  {
    forall n ensures !Stuck(RequiresPairs(edges), n) {
      forall c | Reaches(RequiresPairs(edges), c, c) ensures false {
        assert RequiresPairs(edges) <= EdgePairs(edges);
        ReachesMonotone(RequiresPairs(edges), EdgePairs(edges), c, c);
      }
    }
  }

  /** The nodes not completed whose `requires` sources all are. */
  function ReadyNodes(nodes: set<string>, edges: seq<GraphEdge>, completed: set<string>): set<string> {
    set n | n in nodes && n !in completed
      && forall e | e in edges && e.edgeType == REQUIRES && e.target == n :: e.source in completed
  }

  /** In an acyclic graph something is ready until everything is completed,
      whatever was completed so far. */
  lemma ReadyUntilCompleted(nodes: set<string>, edges: seq<GraphEdge>, completed: set<string>)
    requires Closed(nodes, edges) && !Cyclic(EdgePairs(edges))
    ensures ReadyNodes(nodes, edges, completed) == {} <==> nodes <= completed
  {
    var r, left := RequiresPairs(edges), nodes - completed;
    if ReadyNodes(nodes, edges, completed) == {} {
      forall n | n in left ensures HasPredecessorIn(r, left, n) {
        assert n !in ReadyNodes(nodes, edges, completed);
        var e :| e in edges && e.edgeType == REQUIRES && e.target == n && e.source !in completed;
        assert (e.source, n) in r;
      }
      AcyclicGraphHasNoRequiresCycle(edges);
      SourcelessUnstuckIsEmpty(r, left);
      assert forall n | n in nodes :: n !in left;
    }
  }

  /** `order` lists nodes so that every edge leads to an earlier position. */
  ghost predicate Finished(r: Rel, order: seq<string>) {
    forall i, t | 0 <= i < |order| && (order[i], t) in r :: t in order[..i]
  }

  lemma FinishedExtends(r: Rel, order: seq<string>, node: string)
    requires Finished(r, order) && forall t | (node, t) in r :: t in order
    ensures Finished(r, order + [node])
  {
    var order' := order + [node];
    forall i, t | 0 <= i < |order'| && (order'[i], t) in r ensures t in order'[..i] {
      if i < |order| {
        assert order'[i] == order[i] && order'[..i] == order[..i];
      } else {
        assert order'[..i] == order;
      }
    }
  }

  lemma {:induction false} FinishedWalkDescends(r: Rel, order: seq<string>, k: nat, p: seq<string>) returns (j: nat)
    requires Finished(r, order) && k < |order|
    requires Walk(r, p) && |p| >= 2 && p[0] == order[k]
    ensures j < k && order[j] == p[|p| - 1]
    decreases |p|
  {
    assert (order[k], p[1]) in r;
    j :| 0 <= j < k && order[j] == p[1];
    if |p| > 2 {
      assert Walk(r, p[1..]);
      j := FinishedWalkDescends(r, order, j, p[1..]);
    }
  }

  lemma {:induction false} FinishedNodeNotOnCycle(r: Rel, order: seq<string>, k: nat)
    requires Finished(r, order) && k < |order|
    ensures !Reaches(r, order[k], order[k])
    decreases k
  {
    if Reaches(r, order[k], order[k]) {
      var p :| Walk(r, p) && |p| >= 2 && p[0] == order[k] && p[|p| - 1] == order[k];
      var j := FinishedWalkDescends(r, order, k, p);
      FinishedNodeNotOnCycle(r, order, j);
    }
  }

  /** A finishing order that lists every source of an edge excludes cycles. */
  lemma FinishedMeansAcyclic(r: Rel, order: seq<string>)
    requires Finished(r, order) && forall e | e in r :: e.0 in order
    ensures !Cyclic(r)
  {
    forall n | Reaches(r, n, n) ensures false {
      var p :| Walk(r, p) && |p| >= 2 && p[0] == n && p[|p| - 1] == n;
      assert (p[0], p[1]) in r;
      var k :| 0 <= k < |order| && order[k] == n;
      FinishedNodeNotOnCycle(r, order, k);
    }
  }

  ghost predicate Adjacency(outgoing: map<string, seq<string>>, r: Rel) {
    && (forall e | e in r :: e.0 in outgoing && e.1 in outgoing[e.0])
    && (forall n, t | n in outgoing && t in outgoing[n] :: t in outgoing && (n, t) in r)
  }

  /** One activation of the recursive visit: `visiting` is the current path,
      `visited` the finished nodes. Failing means a cycle was found. */
  method Visit(outgoing: map<string, seq<string>>, node: string, visiting: set<string>, visited: set<string>,
               ghost r: Rel, ghost stack: seq<string>, ghost order: seq<string>)
    returns (ok: bool, visited': set<string>, ghost order': seq<string>)
    requires Adjacency(outgoing, r) && node in outgoing
    requires visiting <= outgoing.Keys && visiting == (set n | n in stack)
    requires Walk(r, stack + [node])
    requires Finished(r, order) && visited == (set n | n in order) && visited !! visiting
    ensures !ok ==> Cyclic(r)
    ensures ok ==> Finished(r, order') && visited' == (set n | n in order')
    ensures ok ==> visited + {node} <= visited' && visited' !! visiting
    decreases outgoing.Keys - visiting
  {
    visited', order' := visited, order;
    if node in visiting {
      ghost var k :| 0 <= k < |stack| && stack[k] == node;
      ghost var p := (stack + [node])[k..];
      assert Walk(r, p) && p[0] == node && p[|p| - 1] == node;
      assert Reaches(r, node, node);
      return false, visited', order';
    }
    if node in visited {
      return true, visited', order';
    }
    var visiting' := visiting + {node};
    ghost var stack' := stack + [node];
    var targets := outgoing[node];
    for i := 0 to |targets|
      invariant Finished(r, order') && visited' == (set n | n in order')
      invariant visited <= visited' && visited' !! visiting'
      invariant forall t | t in targets[..i] :: t in visited'
    {
      assert (node, targets[i]) in r;
      forall j | 0 <= j < |stack'| ensures ((stack' + [targets[i]])[j], (stack' + [targets[i]])[j + 1]) in r {
        if j < |stack'| - 1 { assert stack'[j] == (stack + [node])[j]; }
      }
      ok, visited', order' := Visit(outgoing, targets[i], visiting', visited', r, stack', order');
      if !ok {
        return;
      }
    }
    assert targets[..|targets|] == targets;
    FinishedExtends(r, order', node);
    visited', order' := visited' + {node}, order' + [node];
    ok := true;
  }

  class TaskContractGraph {
    var nodes: map<string, TaskNodeContract>
    var edges: seq<GraphEdge>

    /** What every sequence of `AddNode` and `AddEdge` calls preserves. */
    ghost predicate Valid()
      reads this
    {
      Closed(nodes.Keys, edges) && !Cyclic(EdgePairs(edges))
    }

    constructor ()
      ensures Valid() && nodes == map[] && edges == []
    {
      nodes, edges := map[], [];
      new;
      FinishedMeansAcyclic(EdgePairs(edges), []);
    }

    method AddNode(id: string, node: TaskNodeContract) returns (ok: bool)
      requires Valid()
      modifies this`nodes
      ensures Valid()
      ensures ok <==> id !in old(nodes)
      ensures nodes == if ok then old(nodes)[id := node] else old(nodes)
    {
      ok := id !in nodes;
      if ok {
        nodes := nodes[id := node];
      }
    }

    /** The edge is kept exactly when both ends exist, it is no self edge and its
        target does not already reach its source; otherwise nothing changes. */
    method AddEdge(edge: GraphEdge) returns (ok: bool)
      requires Valid()
      modifies this`edges
      ensures Valid()
      ensures ok <==>
        && edge.source in nodes && edge.target in nodes
        && edge.source != edge.target
        && !Reaches(old(EdgePairs(edges)), edge.target, edge.source)
      ensures edges == if ok then old(edges) + [edge] else old(edges)
    {
      if edge.source !in nodes || edge.target !in nodes {
        return false;
      }
      if edge.source == edge.target {
        return false;
      }
      ghost var before := EdgePairs(edges);
      edges := edges + [edge];
      assert EdgePairs(edges) == before + {(edge.source, edge.target)};
      NewEdgeClosesCycle(before, edge.source, edge.target);
      ok := ValidateAcyclic();
      if !ok {
        edges := edges[..|edges| - 1];
      }
    }

    /** The targets of every node. */
    method Outgoing() returns (outgoing: map<string, seq<string>>)
      requires Closed(nodes.Keys, edges)
      ensures outgoing.Keys == nodes.Keys && Adjacency(outgoing, EdgePairs(edges))
    {
      outgoing := map n | n in nodes :: [];
      for i := 0 to |edges|
        invariant outgoing.Keys == nodes.Keys
        invariant Adjacency(outgoing, EdgePairs(edges[..i]))
      {
        var e := edges[i];
        assert edges[..i + 1] == edges[..i] + [e];
        assert EdgePairs(edges[..i + 1]) == EdgePairs(edges[..i]) + {(e.source, e.target)};
        outgoing := outgoing[e.source := outgoing[e.source] + [e.target]];
      }
      assert edges[..|edges|] == edges;
    }

    /** Accepts exactly the acyclic edge lists. */
    method ValidateAcyclic() returns (ok: bool)
      requires Closed(nodes.Keys, edges)
      ensures ok <==> !Cyclic(EdgePairs(edges))
    {
      ghost var r := EdgePairs(edges);
      var outgoing := Outgoing();
      var visited: set<string> := {};
      ghost var order: seq<string> := [];
      var todo := nodes.Keys;
      while todo != {}
        invariant todo <= nodes.Keys
        invariant Finished(r, order) && visited == (set n | n in order)
        invariant nodes.Keys - todo <= visited
      {
        var node :| node in todo;
        ok, visited, order := Visit(outgoing, node, {}, visited, r, [], order);
        if !ok {
          return;
        }
        todo := todo - {node};
      }
      forall e | e in r ensures e.0 in order {
        assert e.0 in nodes && e.0 in visited;
      }
      FinishedMeansAcyclic(r, order);
      ok := true;
    }
  }
}
