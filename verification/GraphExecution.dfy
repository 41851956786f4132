/** Scheduling, node runs and root verification composed: what an accepted graph
    report means end to end. */
module GraphExecution {
  import opened Contracts
  import opened Graph
  import opened Scheduler
  import opened RunGraph
  import opened Verdict
  import opened Root
  import RunNode

  /** What the execution reports. */
  datatype Report = Report(accepted: bool, graph: GraphResult)

  /** Success is backed by an accepted last verdict. */
  predicate SoundReport(r: RunNode.NodeReport) {
    r.success ==> !r.escaped && r.verdicts != [] && r.verdicts[|r.verdicts| - 1].accepted
  }

  /** Every report that a node run returns is sound. */
  lemma NodeRunsAreSound(nodes: map<string, TaskNodeContract>, reports: string -> RunNode.NodeReport)
    requires forall n | n in nodes :: RunNode.WellReported(nodes[n], reports(n))
    ensures forall n | n in nodes :: SoundReport(reports(n))
  {
    forall n | n in nodes ensures SoundReport(reports(n)) {
      assert RunNode.WellReported(nodes[n], reports(n));
    }
  }

  function AsRunner(reports: string -> RunNode.NodeReport): string -> NodeRun {
    n => if reports(n).escaped then Raised else Returned(reports(n).success)
  }

  /** The last verdict of every executed node. */
  function Verifications(order: seq<string>, reports: string -> RunNode.NodeReport): map<string, VerificationResult> {
    map n | n in order && reports(n).verdicts != [] :: reports(n).verdicts[|reports(n).verdicts| - 1]
  }

  function EvidenceOf(order: seq<string>, reports: string -> RunNode.NodeReport): map<string, seq<string>> {
    map n | n in order && reports(n).verdicts != [] :: reports(n).evidence
  }

  /** A node that ran successfully and was accepted by its own verification. */
  predicate ProvedNode(nodes: map<string, TaskNodeContract>, g: GraphResult, reports: string -> RunNode.NodeReport,
                       n: string) {
    && n in nodes && n in g.states && g.states[n].Succeeded?
    && reports(n).success && reports(n).verdicts != [] && reports(n).verdicts[|reports(n).verdicts| - 1].accepted
  }

  predicate ProvedFor(nodes: map<string, TaskNodeContract>, g: GraphResult, reports: string -> RunNode.NodeReport,
                      requirement: string) {
    exists n | n in nodes :: requirement in nodes[n].requirementRefs && ProvedNode(nodes, g, reports, n)
  }

  /** The end-to-end meaning of acceptance. */
  ghost predicate FullyProved(plan: Plan, g: GraphResult, reports: string -> RunNode.NodeReport,
                              decisions: map<string, bool>) {
    && (forall n | n in plan.nodes :: ProvedNode(plan.nodes, g, reports, n))
    && (forall r | r in plan.requirements && (r.required || r.kind.Constraint?) ::
          ProvedFor(plan.nodes, g, reports, r.id))
    && (forall c | c in plan.criteria && IsSemanticCheck(c.check) :: c.id in decisions && decisions[c.id])
    && (forall c | c in plan.criteria && !IsSemanticCheck(c.check) ::
          && (forall ref | ref in c.requirementRefs :: ProvedFor(plan.nodes, g, reports, ref))
          && (c.requirementRefs == [] ==> plan.nodes.Keys != {}))
    && (forall a, b, path | a in plan.nodes && b in plan.nodes && path != "" &&
          path in reports(a).evidence && path in reports(b).evidence :: a == b)
    && (forall n | n in plan.nodes :: !SelfReportOnly(plan.nodes, n))
  }

  lemma AllNodesProved(plan: Plan, edges: seq<GraphEdge>, g: GraphResult,
                       reports: string -> RunNode.NodeReport, o: Outcome)
    requires g.states.Keys == plan.nodes.Keys && g.IsTerminal() && Healthy(g)
    requires FinalStates(RequiresPairs(edges), Passing(plan.nodes.Keys, true, AsRunner(reports)), g.states)
    requires OrderMatches(g.states, g.order)
    requires forall n | n in plan.nodes :: SoundReport(reports(n))
    requires o.graph == g && o.verifications == Verifications(g.order, reports)
    ensures forall n | n in plan.nodes :: n in g.order && ProvedNode(plan.nodes, g, reports, n)
    ensures AcceptedNodes(o) == plan.nodes.Keys
  {
    forall n | n in plan.nodes ensures n in g.order && ProvedNode(plan.nodes, g, reports, n) && AcceptedNode(o, n) {
      assert n in g.states && !g.states[n].Failed? && !g.states[n].Blocked?;
      assert g.states[n].Succeeded?;
      assert n in Passing(plan.nodes.Keys, true, AsRunner(reports));
      assert SoundReport(reports(n));
    }
  }

  lemma AcceptanceIsFull(plan: Plan, g: GraphResult, reports: string -> RunNode.NodeReport, o: Outcome)
    requires forall n | n in plan.nodes :: n in g.order && ProvedNode(plan.nodes, g, reports, n)
    requires o.graph == g && o.verifications == Verifications(g.order, reports)
      && o.evidence == EvidenceOf(g.order, reports)
    requires AcceptedNodes(o) == plan.nodes.Keys
    requires NoIssues(plan, o, AcceptedNodes(o)) && NothingOpen(plan, o, AcceptedNodes(o))
    ensures FullyProved(plan, g, reports, o.decisions)
  {
    forall requirement | CoveredBy(plan.nodes, AcceptedNodes(o), requirement)
      ensures ProvedFor(plan.nodes, g, reports, requirement)
    {
      var n :| n in plan.nodes && requirement in plan.nodes[n].requirementRefs && n in AcceptedNodes(o);
      assert ProvedNode(plan.nodes, g, reports, n);
    }
    forall c | c in plan.criteria ensures StatusOf(plan, AcceptedNodes(o), o.decisions, c).Covered? {}
    forall a, b, path | a in plan.nodes && b in plan.nodes && path != "" &&
      path in reports(a).evidence && path in reports(b).evidence ensures a == b
    {
      assert ProvedNode(plan.nodes, g, reports, a) && ProvedNode(plan.nodes, g, reports, b);
      assert Claims(o.evidence, a, path) && Claims(o.evidence, b, path);
    }
  }

  /** Conversely the root verifier finds nothing wrong with a fully proved graph. */
  lemma FullIsAccepted(plan: Plan, g: GraphResult, reports: string -> RunNode.NodeReport, o: Outcome)
    requires g.states.Keys == plan.nodes.Keys && OrderMatches(g.states, g.order)
    requires o.graph == g && o.verifications == Verifications(g.order, reports)
      && o.evidence == EvidenceOf(g.order, reports)
    requires FullyProved(plan, g, reports, o.decisions)
    ensures Healthy(g) && NoIssues(plan, o, AcceptedNodes(o)) && NothingOpen(plan, o, AcceptedNodes(o))
  {
    ProvedMeansAccepted(plan, g, reports, o);
    FullMeansNoIssues(plan, g, reports, o);
  }

  lemma ProvedMeansAccepted(plan: Plan, g: GraphResult, reports: string -> RunNode.NodeReport, o: Outcome)
    requires g.states.Keys == plan.nodes.Keys && OrderMatches(g.states, g.order)
    requires o.graph == g && o.verifications == Verifications(g.order, reports)
    requires forall n | n in plan.nodes :: ProvedNode(plan.nodes, g, reports, n)
    ensures Healthy(g) && AcceptedNodes(o) == plan.nodes.Keys
  {
    forall n | n in plan.nodes ensures n in AcceptedNodes(o) {
      assert ProvedNode(plan.nodes, g, reports, n);
      assert Executed(g.states[n]) && n in g.order;
    }
  }

  lemma FullMeansNoIssues(plan: Plan, g: GraphResult, reports: string -> RunNode.NodeReport, o: Outcome)
    requires AcceptedNodes(o) == plan.nodes.Keys && g.states.Keys == plan.nodes.Keys
    requires o.graph == g && o.evidence == EvidenceOf(g.order, reports)
    requires FullyProved(plan, g, reports, o.decisions)
    ensures NoIssues(plan, o, AcceptedNodes(o)) && NothingOpen(plan, o, AcceptedNodes(o))
  {
    var accepted := AcceptedNodes(o);
    forall requirement | ProvedFor(plan.nodes, g, reports, requirement)
      ensures CoveredBy(plan.nodes, accepted, requirement)
    {
      var n :| n in plan.nodes && requirement in plan.nodes[n].requirementRefs && ProvedNode(plan.nodes, g, reports, n);
      assert n in accepted;
    }
    forall n | n in o.graph.states && o.graph.states[n].Succeeded? ensures n in o.verifications {
      assert n in AcceptedNodes(o);
    }
    forall c | c in plan.criteria ensures StatusOf(plan, accepted, o.decisions, c).Covered? {}
  }

  /** Runs the graph and verifies the root. The report is accepted if and only if the
      run was real, every node succeeded with an accepted verdict, every required
      requirement, every constraint and every deterministic criterion has such a
      node, every semantic criterion was explicitly approved, no evidence path has
      two owners, and no node relies on its worker's word alone. The reports are any
      that node runs return. */
  method Execute(plan: Plan, edges: seq<GraphEdge>, reports: string -> RunNode.NodeReport, maxParallel: int,
                 execute: bool,
                 decisions: map<string, bool>)
    returns (report: Result<Report, string>)
    requires Closed(plan.nodes.Keys, edges)
    requires forall n | n in plan.nodes :: RunNode.WellReported(plan.nodes[n], reports(n))
    ensures report.Failure? <==> maxParallel < 1
    ensures report.Success? ==>
      && report.value.graph.states.Keys == plan.nodes.Keys && report.value.graph.IsTerminal()
      && (report.value.accepted <==> execute && FullyProved(plan, report.value.graph, reports, decisions))
  {
    var run := RunGraph.Execute(plan.nodes, edges, AsRunner(reports), maxParallel, execute);
    if run.Failure? {
      return Failure(run.error);
    }
    var graph := run.value;
    if !execute {
      return Success(Report(false, graph));
    }
    var o := Outcome(graph, Verifications(graph.order, reports), EvidenceOf(graph.order, reports), decisions);
    var accepted, confidence := Root.Verify(plan, o);
    if accepted {
      NodeRunsAreSound(plan.nodes, reports);
      AllNodesProved(plan, edges, graph, reports, o);
      AcceptanceIsFull(plan, graph, reports, o);
    } else {
      ghost var full := FullyProved(plan, graph, reports, decisions);
      if full { FullIsAccepted(plan, graph, reports, o); }
    }
    report := Success(Report(accepted, graph));
  }
}
