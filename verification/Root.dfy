/** The root verifier over a finished graph. */
module Root {
  import opened Contracts
  import opened Scheduler
  import opened RunGraph
  import opened Verdict

  datatype RequirementKind = Deliverable | Constraint | Preference | Acceptance

  datatype Requirement = Requirement(id: string, kind: RequirementKind, required: bool)

  datatype Criterion = Criterion(id: string, check: string, requirementRefs: seq<string>)

  /** The parts of a decomposition plan the root verifier reads. */
  datatype Plan = Plan(nodes: map<string, TaskNodeContract>, requirements: seq<Requirement>, criteria: seq<Criterion>)

  /** What graph execution hands over. */
  datatype Outcome = Outcome(
    graph: GraphResult,
    verifications: map<string, VerificationResult>,
    evidence: map<string, seq<string>>,
    decisions: map<string, bool>)

  datatype RootConfidence = RootBlocked | RootLow | RootInconclusive | RootHigh

  datatype CriterionStatus = Covered | Uncovered | Undecided

  const DETERMINISTIC_CHECKS := [
    "file_exists", "file_contains", "command_exit_zero", "output_matches", "tests_pass", "json_schema_valid",
    "changed_paths_within_allowlist", "patch_non_empty", "requirement_coverage"]

  predicate IsSemanticCheck(check: string) {
    NameOf(check) !in DETERMINISTIC_CHECKS
  }

  /** A criterion is semantic exactly when the name before its first colon is none of
      the deterministic checks; its argument never matters. */
  lemma SemanticByName(name: string, argument: string)
    requires ':' !in name
    ensures IsSemanticCheck(name) <==> name !in DETERMINISTIC_CHECKS
    ensures IsSemanticCheck(name + ":" + argument) <==> name !in DETERMINISTIC_CHECKS
  {
    NameOfBare(name);
    NameBeforeColon(name, argument);
  }

  /** Without any explicit decision a criterion is covered exactly when its check is a
      deterministic one by name and its requirements have accepted nodes. */
  lemma CoveredWithoutDecision(plan: Plan, accepted: set<string>, c: Criterion, name: string, argument: string)
    requires ':' !in name && (c.check == name || c.check == name + ":" + argument)
    ensures StatusOf(plan, accepted, map[], c).Covered? <==>
      && name in DETERMINISTIC_CHECKS
      && (forall ref | ref in c.requirementRefs ::
            exists n | n in plan.nodes :: ref in plan.nodes[n].requirementRefs && n in accepted)
      && (c.requirementRefs == [] ==> accepted != {})
    ensures StatusOf(plan, accepted, map[], c).Undecided? <==> name !in DETERMINISTIC_CHECKS
  {
    SemanticByName(name, argument);
    OnlySemanticIsOpen(plan, accepted, map[], c);
  }

  lemma OnlySemanticIsOpen(plan: Plan, accepted: set<string>, decisions: map<string, bool>, c: Criterion)
    ensures StatusOf(plan, accepted, decisions, c).Undecided? <==> IsSemanticCheck(c.check) && c.id !in decisions
  {
  }

  // ---------------------------------------------------------------------------
  // What the parts of the verdict mean
  // ---------------------------------------------------------------------------

  predicate Healthy(g: GraphResult) {
    !g.HasFailures() && !g.IsIncomplete() && !g.DeadlockDetected()
  }

  /** Succeeded in the graph and verified as accepted. */
  predicate AcceptedNode(o: Outcome, n: string) {
    n in o.verifications && n in o.graph.states && o.graph.states[n].Succeeded? && o.verifications[n].accepted
  }

  /** Some accepted node of the plan refers to the requirement. */
  predicate CoveredBy(nodes: map<string, TaskNodeContract>, accepted: set<string>, requirement: string) {
    exists n | n in nodes :: requirement in nodes[n].requirementRefs && n in accepted
  }

  function StatusOf(plan: Plan, accepted: set<string>, decisions: map<string, bool>, c: Criterion): CriterionStatus {
    if IsSemanticCheck(c.check) then
      if c.id !in decisions then Undecided else if decisions[c.id] then Covered else Uncovered
    else if exists ref | ref in c.requirementRefs :: !CoveredBy(plan.nodes, accepted, ref) then Uncovered
    else if c.requirementRefs == [] && accepted == {} then Uncovered
    else Covered
  }

  predicate Claims(evidence: map<string, seq<string>>, n: string, path: string) {
    path != "" && n in evidence && path in evidence[n]
  }

  /** No evidence path is claimed by two accepted nodes. */
  ghost predicate SingleOwners(evidence: map<string, seq<string>>, accepted: set<string>) {
    forall a, b, path | a in accepted && b in accepted && Claims(evidence, a, path) && Claims(evidence, b, path) ::
      a == b
  }

  predicate SelfReportOnly(nodes: map<string, TaskNodeContract>, n: string) {
    n in nodes && nodes[n].verification.deterministicChecks == [] && nodes[n].verification.evidenceRequirements == []
  }

  /** Nothing that rejects outright. */
  ghost predicate NoIssues(plan: Plan, o: Outcome, accepted: set<string>) {
    && (forall n | n in o.graph.states && o.graph.states[n].Succeeded? :: n in o.verifications)
    && (forall r | r in plan.requirements && (r.required || r.kind.Constraint?) ::
          CoveredBy(plan.nodes, accepted, r.id))
    && (forall c | c in plan.criteria :: !StatusOf(plan, accepted, o.decisions, c).Uncovered?)
    && SingleOwners(o.evidence, accepted)
  }

  /** Nothing left to human judgement. */
  predicate NothingOpen(plan: Plan, o: Outcome, accepted: set<string>) {
    && (forall c | c in plan.criteria :: !StatusOf(plan, accepted, o.decisions, c).Undecided?)
    && (forall n | n in accepted :: !SelfReportOnly(plan.nodes, n))
  }

  function AcceptedNodes(o: Outcome): set<string> {
    set n | n in o.verifications && AcceptedNode(o, n)
  }

  // ---------------------------------------------------------------------------
  // The verifier
  // ---------------------------------------------------------------------------

  method ComputeAcceptedNodes(o: Outcome) returns (accepted: set<string>)
    ensures accepted == AcceptedNodes(o)
  {
    accepted := {};
    var todo := o.verifications.Keys;
    while todo != {}
      invariant todo <= o.verifications.Keys
      invariant accepted == set n | n in o.verifications && n !in todo && AcceptedNode(o, n)
    {
      var n :| n in todo;
      if n in o.graph.states && o.graph.states[n].Succeeded? && o.verifications[n].accepted {
        accepted := accepted + {n};
      }
      todo := todo - {n};
    }
  }

  /** The requirements that are required or constraints and lack an accepted node. */
  method UncoveredRequirements(plan: Plan, accepted: set<string>) returns (uncovered: seq<string>)
    ensures uncovered == [] <==>
      forall r | r in plan.requirements && (r.required || r.kind.Constraint?) :: CoveredBy(plan.nodes, accepted, r.id)
  {
    uncovered := [];
    for i := 0 to |plan.requirements|
      invariant uncovered == [] <==>
        forall r | r in plan.requirements[..i] && (r.required || r.kind.Constraint?) ::
          CoveredBy(plan.nodes, accepted, r.id)
    {
      var r := plan.requirements[i];
      assert plan.requirements[..i + 1] == plan.requirements[..i] + [r];
      if (r.required || r.kind.Constraint?) && !CoveredBy(plan.nodes, accepted, r.id) {
        uncovered := uncovered + [r.id];
      }
    }
    assert plan.requirements[..|plan.requirements|] == plan.requirements;
  }

  method CriterionStatuses(plan: Plan, o: Outcome, accepted: set<string>) returns (uncovered: bool, undecided: bool)
    ensures uncovered <==> exists c | c in plan.criteria :: StatusOf(plan, accepted, o.decisions, c).Uncovered?
    ensures undecided <==> exists c | c in plan.criteria :: StatusOf(plan, accepted, o.decisions, c).Undecided?
  {
    uncovered, undecided := false, false;
    for i := 0 to |plan.criteria|
      invariant uncovered <==> exists c | c in plan.criteria[..i] :: StatusOf(plan, accepted, o.decisions, c).Uncovered?
      invariant undecided <==> exists c | c in plan.criteria[..i] :: StatusOf(plan, accepted, o.decisions, c).Undecided?
    {
      var c := plan.criteria[i];
      assert plan.criteria[..i + 1] == plan.criteria[..i] + [c];
      var status := StatusOf(plan, accepted, o.decisions, c);
      uncovered := uncovered || status.Uncovered?;
      undecided := undecided || status.Undecided?;
    }
    assert plan.criteria[..|plan.criteria|] == plan.criteria;
  }

  /** Collects the owners of every evidence path; a path with two is a conflict. */
  method DetectArtifactConflicts(evidence: map<string, seq<string>>, accepted: set<string>) returns (conflict: bool)
    ensures conflict <==> !SingleOwners(evidence, accepted)
  {
    var owner: map<string, string> := map[];
    conflict := false;
    var todo := accepted;
    while todo != {}
      invariant todo <= accepted
      invariant !conflict ==>
                  forall p, n | n in accepted - todo && Claims(evidence, n, p) :: p in owner && owner[p] == n
      invariant !conflict ==> forall p | p in owner :: owner[p] in accepted - todo && Claims(evidence, owner[p], p)
      invariant conflict ==> !SingleOwners(evidence, accepted)
    {
      var n :| n in todo;
      todo := todo - {n};
      if n in evidence {
        for i := 0 to |evidence[n]|
          invariant !conflict ==>
                      forall p, m | m in accepted - todo - {n} && Claims(evidence, m, p) :: p in owner && owner[p] == m
          invariant !conflict ==> forall p | p in evidence[n][..i] && p != "" :: p in owner && owner[p] == n
          invariant !conflict ==> forall p | p in owner :: owner[p] in accepted - todo && Claims(evidence, owner[p], p)
          invariant conflict ==> !SingleOwners(evidence, accepted)
        {
          var path := evidence[n][i];
          assert evidence[n][..i + 1] == evidence[n][..i] + [path];
          if path != "" && !conflict {
            assert Claims(evidence, n, path);
            if path in owner && owner[path] != n {
              assert Claims(evidence, owner[path], path);
              conflict := true;
            } else {
              owner := owner[path := n];
            }
          }
        }
        assert evidence[n][..|evidence[n]|] == evidence[n];
      }
    }
  }

  /** The verdict and, for each confidence, exactly when it is given. */
  method Verify(plan: Plan, o: Outcome) returns (accepted: bool, confidence: RootConfidence)
    ensures accepted <==> confidence.RootHigh?
    ensures confidence.RootBlocked? <==> !Healthy(o.graph)
    ensures confidence.RootLow? <==> Healthy(o.graph) && !NoIssues(plan, o, AcceptedNodes(o))
    ensures confidence.RootHigh? <==>
      Healthy(o.graph) && NoIssues(plan, o, AcceptedNodes(o)) && NothingOpen(plan, o, AcceptedNodes(o))
  {
    if o.graph.HasFailures() || o.graph.IsIncomplete() || o.graph.DeadlockDetected() {
      return false, RootBlocked;
    }
    var missing := exists n | n in o.graph.states :: o.graph.states[n].Succeeded? && n !in o.verifications;
    var nodes := ComputeAcceptedNodes(o);
    var requirements := UncoveredRequirements(plan, nodes);
    var uncovered, undecided := CriterionStatuses(plan, o, nodes);
    var conflict := DetectArtifactConflicts(o.evidence, nodes);
    var claims := exists n | n in nodes :: SelfReportOnly(plan.nodes, n);
    if missing || requirements != [] || uncovered || conflict {
      return false, RootLow;
    }
    if undecided || claims {
      return false, RootInconclusive;
    }
    return true, RootHigh;
  }

  // ---------------------------------------------------------------------------
  // What the verifier alone does not guarantee
  // ---------------------------------------------------------------------------

  /** No node succeeded under a rejected verdict. */
  predicate NoneRefuted(o: Outcome) {
    forall n | n in o.graph.states && o.graph.states[n].Succeeded? && n in o.verifications ::
      o.verifications[n].accepted
  }

  /** Exactly when a graph that passes the health and the issue checks has every node
      accepted: when its run finished and no node succeeded under a rejected verdict. */
  lemma AllAcceptedExactly(plan: Plan, o: Outcome)
    requires o.graph.states.Keys == plan.nodes.Keys
    requires Healthy(o.graph) && NoIssues(plan, o, AcceptedNodes(o))
    ensures (forall n | n in plan.nodes :: AcceptedNode(o, n)) <==> o.graph.IsTerminal() && NoneRefuted(o)
  {
    if o.graph.IsTerminal() && NoneRefuted(o) {
      forall n | n in plan.nodes ensures AcceptedNode(o, n) {
        assert n in o.graph.states && !o.graph.states[n].Failed? && !o.graph.states[n].Blocked?;
      }
    }
  }

  const PROVED := VerificationResult(true, High, [], [])
  const REFUTED := VerificationResult(false, Low, [], [])

  /** A plan with one requirement, covered by `a`, one approved semantic criterion
      and a second node `b`. */
  function TwoNodes(checked: TaskNodeContract, other: TaskNodeContract): Plan {
    Plan(map["a" := checked, "b" := other], [Requirement("r", Deliverable, true)], [Criterion("c", "", [])])
  }

  lemma ApprovedCriterion(plan: Plan, o: Outcome)
    requires plan.criteria == [Criterion("c", "", [])] && o.decisions == map["c" := true]
    ensures forall c | c in plan.criteria :: StatusOf(plan, AcceptedNodes(o), o.decisions, c).Covered?
  {
    assert NameOf("") == "" && forall s | s in DETERMINISTIC_CHECKS :: s != "";
  }

  /** On its own the verifier accepts a graph with a node that succeeded under a
      rejected verdict: only node execution rules that out. */
  lemma AloneAcceptsRefutedNode(checked: TaskNodeContract, other: TaskNodeContract)
    requires "r" in checked.requirementRefs && checked.verification.deterministicChecks != []
    ensures var plan, o := TwoNodes(checked, other),
        Outcome(GraphResult(map["a" := Succeeded, "b" := Succeeded], ["a", "b"]),
                map["a" := PROVED, "b" := REFUTED], map[], map["c" := true]);
      Healthy(o.graph) && NoIssues(plan, o, AcceptedNodes(o)) && NothingOpen(plan, o, AcceptedNodes(o))
  {
    var plan := TwoNodes(checked, other);
    var o := Outcome(GraphResult(map["a" := Succeeded, "b" := Succeeded], ["a", "b"]),
                     map["a" := PROVED, "b" := REFUTED], map[], map["c" := true]);
    assert AcceptedNodes(o) == {"a"};
    assert plan.nodes["a"] == checked && CoveredBy(plan.nodes, {"a"}, "r");
    ApprovedCriterion(plan, o);
  }

  /** Likewise a graph with a node that never ran: only a finished run rules that out. */
  lemma AloneAcceptsPendingNode(checked: TaskNodeContract, other: TaskNodeContract)
    requires "r" in checked.requirementRefs && checked.verification.deterministicChecks != []
    ensures var plan, o := TwoNodes(checked, other),
        Outcome(GraphResult(map["a" := Succeeded, "b" := Pending], ["a"]), map["a" := PROVED], map[], map["c" := true]);
      Healthy(o.graph) && NoIssues(plan, o, AcceptedNodes(o)) && NothingOpen(plan, o, AcceptedNodes(o))
  {
    var plan := TwoNodes(checked, other);
    var o := Outcome(GraphResult(map["a" := Succeeded, "b" := Pending], ["a"]), map["a" := PROVED], map[],
      map["c" := true]);
    assert AcceptedNodes(o) == {"a"};
    assert plan.nodes["a"] == checked && CoveredBy(plan.nodes, {"a"}, "r");
    assert "b" in o.graph.states && !o.graph.IsTerminal();
    ApprovedCriterion(plan, o);
  }
}
