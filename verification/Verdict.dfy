/** Contract checks: one halting run over all of them, or split into a proposal and
    a post-integration phase whose verdicts are combined. */
module Verdict {
  import opened Contracts

  datatype FailureCategory =
    | Worker | MissingContext | Contract | PolicyPermission | Environment
    | IntegrationConflict | DeterministicRejection | SemanticInconclusive

  /** `missingFile`: the message says that a path does not exist. */
  datatype FailureRecord = FailureRecord(category: FailureCategory, check: string, retryable: bool, missingFile: bool)

  /** An issue line; `tagged` when it starts with a bracketed marker and names a check. */
  datatype Issue = Issue(tagged: bool, name: string)

  datatype Confidence = BlockedConfidence | Low | InconclusiveConfidence | Medium | High

  datatype VerificationResult = VerificationResult(
    accepted: bool, confidence: Confidence, issues: seq<Issue>, failures: seq<FailureRecord>)

  /** What running one check shows. `Stopped` covers a blocked check and an
      expression that does not parse, with the category its details select. */
  datatype CheckOutcome = Passed | Unproven | Rejected(missingFile: bool) | Stopped(category: FailureCategory)

  const EVIDENCE := "evidence_requirements"
  const SEMANTIC := "semantic_check"

  /** The check name of an expression: everything before the first colon. */
  function NameOf(expression: string): string {
    if expression == "" || expression[0] == ':' then "" else [expression[0]] + NameOf(expression[1..])
  }

  /** A check expression is a name, or a name and an argument after the first colon;
      the argument may hold further colons. */
  lemma {:induction false} NameBeforeColon(name: string, argument: string)
    requires ':' !in name
    ensures NameOf(name + ":" + argument) == name
    decreases |name|
  {
    var expression := name + ":" + argument;
    if name == "" {
      assert expression[0] == ':';
    } else {
      assert name[0] in name && name == [name[0]] + name[1..];
      NameBeforeColon(name[1..], argument);
      assert expression[1..] == name[1..] + ":" + argument;
    }
  }

  lemma {:induction false} NameOfBare(name: string)
    requires ':' !in name
    ensures NameOf(name) == name
    decreases |name|
  {
    if name != "" {
      assert name[0] in name;
      NameOfBare(name[1..]);
    }
  }

  function FailuresOf(name: string, outcome: CheckOutcome): seq<FailureRecord> {
    match outcome
    case Passed => []
    case Unproven =>
      [FailureRecord(if name == EVIDENCE then MissingContext else SemanticInconclusive, name, false, false)]
    case Rejected(missing) => [FailureRecord(DeterministicRejection, name, true, missing)]
    case Stopped(category) => [FailureRecord(category, name, false, false)]
  }

  function IssuesOf(name: string, outcome: CheckOutcome): seq<Issue> {
    if outcome.Passed? then [] else [Issue(true, name)]
  }

  // ---------------------------------------------------------------------------
  // One run over a contract
  // ---------------------------------------------------------------------------

  /** The checks a run gets to: up to and including the first stopped one. */
  function Reached(checks: seq<string>, outcome: string -> CheckOutcome): seq<string> {
    if checks == [] then []
    else if outcome(checks[0]).Stopped? then [checks[0]]
    else [checks[0]] + Reached(checks[1..], outcome)
  }

  function CheckFailures(checks: seq<string>, outcome: string -> CheckOutcome): seq<FailureRecord> {
    if checks == [] then [] else FailuresOf(NameOf(checks[0]), outcome(checks[0])) + CheckFailures(checks[1..], outcome)
  }

  predicate SomeStopped(checks: seq<string>, outcome: string -> CheckOutcome) {
    exists c | c in checks :: outcome(c).Stopped?
  }

  predicate SomeRejected(checks: seq<string>, outcome: string -> CheckOutcome) {
    exists c | c in checks :: outcome(c).Rejected?
  }

  predicate SomeUnproven(checks: seq<string>, outcome: string -> CheckOutcome) {
    exists c | c in checks :: outcome(c).Unproven?
  }

  function EvidenceOutcome(contract: VerificationContract, evidence: CheckOutcome): CheckOutcome {
    if contract.evidenceRequirements == [] then Passed else evidence
  }

  const SEMANTIC_RECORD := FailureRecord(SemanticInconclusive, SEMANTIC, false, false)

  /** Everything reported: the reached checks, then, unless blocked, the evidence,
      then, unless blocked, the semantic check, which nothing proves locally. */
  function Reported(contract: VerificationContract, outcome: string -> CheckOutcome,
                    evidence: CheckOutcome): seq<FailureRecord> {
    CheckFailures(Reached(contract.deterministicChecks, outcome), outcome) +
    if SomeStopped(contract.deterministicChecks, outcome) then [] else OpenFailures(contract, evidence)
  }

  function OpenFailures(contract: VerificationContract, evidence: CheckOutcome): seq<FailureRecord> {
    FailuresOf(EVIDENCE, EvidenceOutcome(contract, evidence)) +
    if EvidenceOutcome(contract, evidence).Stopped? || contract.semanticCheck == "" then [] else [SEMANTIC_RECORD]
  }

  /** One issue line for each failure, in order, naming its check. */
  predicate Mentions(issues: seq<Issue>, failures: seq<FailureRecord>) {
    |issues| == |failures| && forall i | 0 <= i < |issues| :: issues[i] == Issue(true, failures[i].check)
  }

  lemma MentionsNext(issues: seq<Issue>, failures: seq<FailureRecord>, name: string, outcome: CheckOutcome)
    requires Mentions(issues, failures)
    ensures Mentions(issues + IssuesOf(name, outcome), failures + FailuresOf(name, outcome))
  {
  }

  /** The loop over the deterministic checks, which halts at the first stopped one. */
  method RunDeterministicChecks(checks: seq<string>, outcome: string -> CheckOutcome)
    returns (failures: seq<FailureRecord>, issues: seq<Issue>, blocked: bool, rejected: bool, unproven: bool)
    ensures failures == CheckFailures(Reached(checks, outcome), outcome) && Mentions(issues, failures)
    ensures blocked <==> SomeStopped(checks, outcome)
    ensures !blocked ==> (rejected <==> SomeRejected(checks, outcome)) && (unproven <==> SomeUnproven(checks, outcome))
  {
    failures, issues, blocked, rejected, unproven := [], [], false, false, false;
    ghost var all := CheckFailures(Reached(checks, outcome), outcome);
    assert checks[0..] == checks;
    for i := 0 to |checks|
      invariant !blocked && !SomeStopped(checks[..i], outcome)
      invariant failures + CheckFailures(Reached(checks[i..], outcome), outcome) == all
      invariant Mentions(issues, failures)
      invariant rejected <==> SomeRejected(checks[..i], outcome)
      invariant unproven <==> SomeUnproven(checks[..i], outcome)
    {
      var c := checks[i];
      assert checks[..i + 1] == checks[..i] + [c] && checks[i..][1..] == checks[i + 1..];
      NextCheck(checks[i..], outcome, failures);
      MentionsNext(issues, failures, NameOf(c), outcome(c));
      failures := failures + FailuresOf(NameOf(c), outcome(c));
      issues := issues + IssuesOf(NameOf(c), outcome(c));
      match outcome(c) {
        case Stopped(_) =>
          assert c in checks;
          return failures, issues, true, rejected, unproven;
        case Rejected(_) => rejected := true;
        case Unproven => unproven := true;
        case Passed =>
      }
    }
    assert checks[..|checks|] == checks;
  }

  /** What follows when no deterministic check was stopped: the evidence and, unless
      that is stopped, the semantic check. */
  method RunOpenChecks(contract: VerificationContract, evidence: CheckOutcome)
    returns (failures: seq<FailureRecord>, issues: seq<Issue>, blocked: bool, rejected: bool, unproven: bool)
    ensures failures == OpenFailures(contract, evidence) && Mentions(issues, failures)
    ensures var ev := EvidenceOutcome(contract, evidence);
      && (blocked <==> ev.Stopped?) && (rejected <==> ev.Rejected?)
      && (unproven <==> ev.Unproven? || (!ev.Stopped? && contract.semanticCheck != ""))
  {
    var ev := EvidenceOutcome(contract, evidence);
    MentionsNext([], [], EVIDENCE, ev);
    failures, issues := FailuresOf(EVIDENCE, ev), IssuesOf(EVIDENCE, ev);
    blocked, rejected, unproven := ev.Stopped?, ev.Rejected?, ev.Unproven?;
    if !blocked && contract.semanticCheck != "" {
      failures := failures + [SEMANTIC_RECORD];
      issues := issues + [Issue(true, SEMANTIC)];
      unproven := true;
    }
  }

  /** The whole run. The verdict follows from all checks, reached or not. */
  method ExecuteChecks(contract: VerificationContract, outcome: string -> CheckOutcome, evidence: CheckOutcome)
    returns (r: VerificationResult)
    ensures r.failures == Reported(contract, outcome, evidence) && Mentions(r.issues, r.failures)
    ensures VerdictOf(r, contract, outcome, evidence)
  {
    var checks := contract.deterministicChecks;
    var failures, issues, blocked, rejected, unproven := RunDeterministicChecks(checks, outcome);
    if !blocked {
      var openFailures, openIssues, stopped, refuted, open := RunOpenChecks(contract, evidence);
      failures, issues := failures + openFailures, issues + openIssues;
      blocked, rejected, unproven := stopped, rejected || refuted, unproven || open;
    }
    var confidence :=
      if blocked then BlockedConfidence
      else if rejected then Low
      else if unproven then InconclusiveConfidence
      else if checks != [] then High
      else Medium;
    r := VerificationResult(!blocked && !rejected && !unproven, confidence, issues, failures);
  }

  lemma NextCheck(checks: seq<string>, outcome: string -> CheckOutcome, failures: seq<FailureRecord>)
    requires checks != []
    ensures failures + CheckFailures(Reached(checks, outcome), outcome) ==
      (failures + FailuresOf(NameOf(checks[0]), outcome(checks[0]))) +
      (if outcome(checks[0]).Stopped? then [] else CheckFailures(Reached(checks[1..], outcome), outcome))
  {
    var later := if outcome(checks[0]).Stopped? then [] else CheckFailures(Reached(checks[1..], outcome), outcome);
    ReachedFailures(checks, outcome);
    FailuresAssociative(failures, FailuresOf(NameOf(checks[0]), outcome(checks[0])), later);
  }

  lemma ReachedFailures(checks: seq<string>, outcome: string -> CheckOutcome)
    requires checks != []
    ensures CheckFailures(Reached(checks, outcome), outcome) ==
      FailuresOf(NameOf(checks[0]), outcome(checks[0])) +
      (if outcome(checks[0]).Stopped? then [] else CheckFailures(Reached(checks[1..], outcome), outcome))
  {
    var later := if outcome(checks[0]).Stopped? then [] else Reached(checks[1..], outcome);
    assert Reached(checks, outcome) == [checks[0]] + later;
    assert ([checks[0]] + later)[1..] == later;
  }

  lemma FailuresAssociative(a: seq<FailureRecord>, b: seq<FailureRecord>, c: seq<FailureRecord>)
    ensures a + (b + c) == (a + b) + c
  {
  }

  // ---------------------------------------------------------------------------
  // Verdict classes
  // ---------------------------------------------------------------------------

  /** Ordered by severity. */
  datatype Class = AcceptedClass | InconclusiveClass | RejectedClass | BlockedClass

  function Severity(c: Class): nat {
    match c
    case AcceptedClass => 0
    case InconclusiveClass => 1
    case RejectedClass => 2
    case BlockedClass => 3
  }

  function Worse(a: Class, b: Class): Class {
    if Severity(a) >= Severity(b) then a else b
  }

  function OutcomeClass(o: CheckOutcome): Class {
    match o
    case Passed => AcceptedClass
    case Unproven => InconclusiveClass
    case Rejected(_) => RejectedClass
    case Stopped(_) => BlockedClass
  }

  /** The worst outcome over all checks, whatever their order. */
  function WorstCheck(checks: seq<string>, outcome: string -> CheckOutcome): Class {
    if checks == [] then AcceptedClass else Worse(OutcomeClass(outcome(checks[0])), WorstCheck(checks[1..], outcome))
  }

  /** What the contract as a whole deserves. */
  function WorstOf(contract: VerificationContract, outcome: string -> CheckOutcome, evidence: CheckOutcome): Class {
    Worse(WorstCheck(contract.deterministicChecks, outcome),
          Worse(OutcomeClass(EvidenceOutcome(contract, evidence)),
                if contract.semanticCheck != "" then InconclusiveClass else AcceptedClass))
  }

  function ConfidenceOf(contract: VerificationContract, outcome: string -> CheckOutcome,
                        evidence: CheckOutcome): Confidence {
    var ev, checks := EvidenceOutcome(contract, evidence), contract.deterministicChecks;
    if SomeStopped(checks, outcome) || ev.Stopped? then BlockedConfidence
    else if SomeRejected(checks, outcome) || ev.Rejected? then Low
    else if SomeUnproven(checks, outcome) || ev.Unproven? || contract.semanticCheck != "" then InconclusiveConfidence
    else if checks != [] then High
    else Medium
  }

  /** The class the merge reads off a verdict. */
  function ClassOf(r: VerificationResult): Class {
    if r.confidence.BlockedConfidence? then BlockedClass
    else if !r.accepted && !r.confidence.InconclusiveConfidence? then RejectedClass
    else if !r.accepted || r.confidence.InconclusiveConfidence? then InconclusiveClass
    else AcceptedClass
  }

  function ClassOfConfidence(c: Confidence): Class {
    match c
    case BlockedConfidence => BlockedClass
    case Low => RejectedClass
    case InconclusiveConfidence => InconclusiveClass
    case Medium => AcceptedClass
    case High => AcceptedClass
  }

  lemma {:induction false} WorstCheckIs(checks: seq<string>, outcome: string -> CheckOutcome)
    ensures WorstCheck(checks, outcome) ==
      (if SomeStopped(checks, outcome) then BlockedClass
       else if SomeRejected(checks, outcome) then RejectedClass
       else if SomeUnproven(checks, outcome) then InconclusiveClass
       else AcceptedClass)
    decreases |checks|
  {
    if checks != [] {
      WorstCheckIs(checks[1..], outcome);
      assert checks == [checks[0]] + checks[1..];
      assert forall c :: c in checks <==> c == checks[0] || c in checks[1..];
    }
  }

  /** A halting run reaches exactly the class of its worst check: stopping early
      hides nothing that would have changed the class. */
  lemma HaltingRunFindsWorst(contract: VerificationContract, outcome: string -> CheckOutcome, evidence: CheckOutcome)
    ensures ClassOfConfidence(ConfidenceOf(contract, outcome, evidence)) == WorstOf(contract, outcome, evidence)
  {
    WorstCheckIs(contract.deterministicChecks, outcome);
  }

  // ---------------------------------------------------------------------------
  // Phases
  // ---------------------------------------------------------------------------

  const PROPOSAL_CHECKS := ["changed_paths_within_allowlist", "patch_non_empty", "requirement_coverage"]

  function SelectChecks(checks: seq<string>, proposal: bool): seq<string> {
    if checks == [] then []
    else if (NameOf(checks[0]) in PROPOSAL_CHECKS) == proposal then [checks[0]] + SelectChecks(checks[1..], proposal)
    else SelectChecks(checks[1..], proposal)
  }

  function ContractForPhase(contract: VerificationContract, proposal: bool): VerificationContract {
    VerificationContract(
      SelectChecks(contract.deterministicChecks, proposal),
      if proposal then [] else contract.evidenceRequirements,
      if proposal then "" else contract.semanticCheck)
  }

  lemma {:induction false} SelectedByName(checks: seq<string>, proposal: bool, check: string)
    ensures check in SelectChecks(checks, proposal)
        <==> check in checks && (NameOf(check) in PROPOSAL_CHECKS) == proposal
    decreases |checks|
  {
    if checks != [] {
      SelectedByName(checks[1..], proposal, check);
      assert checks == [checks[0]] + checks[1..];
    }
  }

  /** A check goes to the phase of its name, whatever its argument: allowlist, non-empty
      patch and coverage are judged on the proposal, everything else after integration. */
  lemma PhaseOfCheck(contract: VerificationContract, name: string, argument: string, check: string)
    requires ':' !in name && (check == name || check == name + ":" + argument)
    requires check in contract.deterministicChecks
    ensures check in ContractForPhase(contract, true).deterministicChecks
        <==> name in {"changed_paths_within_allowlist", "patch_non_empty", "requirement_coverage"}
    ensures check in ContractForPhase(contract, false).deterministicChecks
        <==> name !in {"changed_paths_within_allowlist", "patch_non_empty", "requirement_coverage"}
  {
    NameBeforeColon(name, argument);
    NameOfBare(name);
    SelectedByName(contract.deterministicChecks, true, check);
    SelectedByName(contract.deterministicChecks, false, check);
  }

  /** The worst check passes exactly when all do. */
  lemma PassesExactly(contract: VerificationContract, outcome: string -> CheckOutcome, evidence: CheckOutcome)
    ensures WorstOf(contract, outcome, evidence).AcceptedClass? <==>
      && (forall c | c in contract.deterministicChecks :: outcome(c).Passed?)
      && (contract.evidenceRequirements != [] ==> evidence.Passed?) && contract.semanticCheck == ""
  {
    WorstCheckIs(contract.deterministicChecks, outcome);
  }

  /** A phase passes exactly when every check whose name belongs to it does; the evidence
      and the semantic check belong to the second. */
  lemma PhasePassesExactly(contract: VerificationContract, proposal: bool, outcome: string -> CheckOutcome,
                           evidence: CheckOutcome)
    ensures WorstOf(ContractForPhase(contract, proposal), outcome, evidence).AcceptedClass? <==>
      && (forall c | c in contract.deterministicChecks && (NameOf(c) in PROPOSAL_CHECKS) == proposal ::
            outcome(c).Passed?)
      && (!proposal ==> (contract.evidenceRequirements != [] ==> evidence.Passed?) && contract.semanticCheck == "")
  {
    PassesExactly(ContractForPhase(contract, proposal), outcome, evidence);
    forall c { SelectedByName(contract.deterministicChecks, proposal, c); }
  }

  function AllIssues(rs: seq<VerificationResult>): seq<Issue> {
    if rs == [] then [] else rs[0].issues + AllIssues(rs[1..])
  }

  function AllFailures(rs: seq<VerificationResult>): seq<FailureRecord> {
    if rs == [] then [] else rs[0].failures + AllFailures(rs[1..])
  }

  function CombinePhaseResults(rs: seq<VerificationResult>): VerificationResult {
    if rs == [] then VerificationResult(true, Medium, [], [])
    else if exists r | r in rs :: r.confidence.BlockedConfidence?
    then VerificationResult(false, BlockedConfidence, AllIssues(rs), AllFailures(rs))
    else if exists r | r in rs :: !r.accepted && !r.confidence.InconclusiveConfidence?
    then VerificationResult(false, Low, AllIssues(rs), AllFailures(rs))
    else if exists r | r in rs :: !r.accepted || r.confidence.InconclusiveConfidence?
    then VerificationResult(false, InconclusiveConfidence, AllIssues(rs), AllFailures(rs))
    else VerificationResult(true, if forall r | r in rs :: r.confidence.High? then High else Medium,
                            AllIssues(rs), AllFailures(rs))
  }

  function WorstResult(rs: seq<VerificationResult>): Class {
    if rs == [] then AcceptedClass else Worse(ClassOf(rs[0]), WorstResult(rs[1..]))
  }

  lemma {:induction false} WorstResultIs(rs: seq<VerificationResult>)
    ensures forall r | r in rs :: Severity(ClassOf(r)) <= Severity(WorstResult(rs))
    ensures rs != [] ==> exists r | r in rs :: ClassOf(r) == WorstResult(rs)
    decreases |rs|
  {
    if rs != [] {
      WorstResultIs(rs[1..]);
      assert rs == [rs[0]] + rs[1..];
      assert rs[0] in rs && forall r | r in rs[1..] :: r in rs;
    }
  }

  /** Merging keeps the worst class. */
  lemma CombineKeepsWorst(rs: seq<VerificationResult>)
    ensures ClassOf(CombinePhaseResults(rs)) == WorstResult(rs)
  {
    WorstResultIs(rs);
  }

  /** The merged class does not depend on the order of the phases. */
  lemma CombineOrderIrrelevant(rs: seq<VerificationResult>, rs': seq<VerificationResult>)
    requires multiset(rs) == multiset(rs')
    ensures ClassOf(CombinePhaseResults(rs)) == ClassOf(CombinePhaseResults(rs'))
  {
    CombineKeepsWorst(rs);
    CombineKeepsWorst(rs');
    WorstResultIs(rs);
    WorstResultIs(rs');
    assert forall r :: r in rs <==> r in multiset(rs);
    assert forall r :: r in rs' <==> r in multiset(rs');
    assert rs == [] ==> |multiset(rs')| == 0;
    assert rs' == [] ==> |multiset(rs)| == 0;
  }

  lemma {:induction false} SplitWorst(checks: seq<string>, outcome: string -> CheckOutcome)
    ensures WorstCheck(checks, outcome)
         == Worse(WorstCheck(SelectChecks(checks, true), outcome), WorstCheck(SelectChecks(checks, false), outcome))
    ensures checks == [] <==> SelectChecks(checks, true) == [] && SelectChecks(checks, false) == []
    decreases |checks|
  {
    if checks != [] {
      SplitWorst(checks[1..], outcome);
      assert ([checks[0]] + SelectChecks(checks[1..], true))[1..] == SelectChecks(checks[1..], true);
      assert ([checks[0]] + SelectChecks(checks[1..], false))[1..] == SelectChecks(checks[1..], false);
    }
  }

  lemma SplitPreservesClass(contract: VerificationContract, outcome: string -> CheckOutcome, evidence: CheckOutcome)
    ensures WorstOf(contract, outcome, evidence) ==
      Worse(WorstOf(ContractForPhase(contract, true), outcome, evidence),
            WorstOf(ContractForPhase(contract, false), outcome, evidence))
  {
    SplitWorst(contract.deterministicChecks, outcome);
  }

  lemma CombineTwo(a: VerificationResult, b: VerificationResult)
    ensures ClassOf(CombinePhaseResults([a, b])) == Worse(ClassOf(a), ClassOf(b))
    ensures ClassOf(CombinePhaseResults([a, b])).AcceptedClass? ==>
      (CombinePhaseResults([a, b]).confidence.High? <==> a.confidence.High? && b.confidence.High?)
  {
    CombineKeepsWorst([a, b]);
    assert [a, b][1..] == [b] && [b][1..] == [];
    assert a in [a, b] && b in [a, b] && forall r | r in [a, b] :: r == a || r == b;
  }

  /** `r` is a verdict that a run over `contract` may return. */
  predicate VerdictOf(r: VerificationResult, contract: VerificationContract, outcome: string -> CheckOutcome,
                      evidence: CheckOutcome) {
    && r.confidence == ConfidenceOf(contract, outcome, evidence)
    && (r.accepted <==> r.confidence.Medium? || r.confidence.High?)
  }

  lemma VerdictHasWorstClass(r: VerificationResult, contract: VerificationContract, outcome: string -> CheckOutcome,
                             evidence: CheckOutcome)
    requires VerdictOf(r, contract, outcome, evidence)
    ensures ClassOf(r) == WorstOf(contract, outcome, evidence)
    ensures r.accepted ==> (r.confidence.High? <==> contract.deterministicChecks != [])
  {
    HaltingRunFindsWorst(contract, outcome, evidence);
    ExecutedClass(r);
  }

  /** Splitting a contract into phases preserves the class of its verdict, for any
      outcomes that do not depend on the phase and despite the early halts. The
      confidence of an accepted verdict survives exactly when both phases have
      checks or the contract has none: a phase without checks is only `medium`. */
  lemma SplitPreservesVerdict(contract: VerificationContract, outcome: string -> CheckOutcome, evidence: CheckOutcome,
                              proposal: VerificationResult, post: VerificationResult, whole: VerificationResult)
    requires VerdictOf(proposal, ContractForPhase(contract, true), outcome, evidence)
    requires VerdictOf(post, ContractForPhase(contract, false), outcome, evidence)
    requires VerdictOf(whole, contract, outcome, evidence)
    ensures var split := CombinePhaseResults([proposal, post]);
      && ClassOf(split) == ClassOf(whole) == WorstOf(contract, outcome, evidence)
      && split.accepted == whole.accepted
      && (split.confidence == whole.confidence <==>
          || !whole.accepted || contract.deterministicChecks == []
          || (SelectChecks(contract.deterministicChecks, true) != []
            && SelectChecks(contract.deterministicChecks, false) != []))
  {
    VerdictHasWorstClass(proposal, ContractForPhase(contract, true), outcome, evidence);
    VerdictHasWorstClass(post, ContractForPhase(contract, false), outcome, evidence);
    VerdictHasWorstClass(whole, contract, outcome, evidence);
    SplitPreservesClass(contract, outcome, evidence);
    SplitWorst(contract.deterministicChecks, outcome);
    CombineTwo(proposal, post);
    CombinedShape(proposal, post);
  }

  /** The confidence does drop: a contract with the single check `tests_pass` that passes
      is `high` in one run and `medium` when split, for its proposal phase is empty. */
  lemma SplitLosesHigh(outcome: string -> CheckOutcome, evidence: CheckOutcome,
                       proposal: VerificationResult, post: VerificationResult, whole: VerificationResult)
    requires outcome("tests_pass").Passed?
    requires var contract := VerificationContract(["tests_pass"], [], "");
      && VerdictOf(proposal, ContractForPhase(contract, true), outcome, evidence)
      && VerdictOf(post, ContractForPhase(contract, false), outcome, evidence)
      && VerdictOf(whole, contract, outcome, evidence)
    ensures whole.confidence.High? && CombinePhaseResults([proposal, post]).confidence.Medium?
  {
    var contract := VerificationContract(["tests_pass"], [], "");
    var checks := contract.deterministicChecks;
    OnlyPostCheck();
    assert forall c | c in checks :: c == "tests_pass";
    assert !SomeStopped(checks, outcome) && !SomeRejected(checks, outcome) && !SomeUnproven(checks, outcome);
    SplitPreservesVerdict(contract, outcome, evidence, proposal, post, whole);
    CombinedShape(proposal, post);
  }

  lemma OnlyPostCheck()
    ensures SelectChecks(["tests_pass"], true) == [] && SelectChecks(["tests_pass"], false) == ["tests_pass"]
  {
    assert ["tests_pass"][1..] == [];
    NameOfBare("tests_pass");
    assert SelectChecks(["tests_pass"], false) == ["tests_pass"] + [];
  }

  /** Two verdicts of runs are merged into an accepted one exactly when both are. */
  lemma CombinedAccepted(a: VerificationResult, b: VerificationResult)
    requires a.accepted <==> a.confidence.Medium? || a.confidence.High?
    requires b.accepted <==> b.confidence.Medium? || b.confidence.High?
    ensures CombinePhaseResults([a, b]).accepted <==> a.accepted && b.accepted
  {
    CombineTwo(a, b);
    CombinedShape(a, b);
  }

  /** The merged verdict reports what both report, the first one's findings first. */
  lemma CombinedReportsBoth(a: VerificationResult, b: VerificationResult)
    ensures CombinePhaseResults([a, b]).failures == a.failures + b.failures
    ensures CombinePhaseResults([a, b]).issues == a.issues + b.issues
  {
    assert [a, b][1..] == [b] && [b][1..] == [];
    assert AllFailures([b]) == b.failures && AllIssues([b]) == b.issues;
    assert AllFailures([a, b]) == a.failures + AllFailures([b]) && AllIssues([a, b]) == a.issues + AllIssues([b]);
  }

  lemma CombinedShape(a: VerificationResult, b: VerificationResult)
    ensures var c := CombinePhaseResults([a, b]);
      && (c.accepted <==> c.confidence.Medium? || c.confidence.High?)
      && ClassOf(c) == ClassOfConfidence(c.confidence)
  {
  }

  /** For a verdict of a run, class and confidence say the same. */
  lemma ExecutedClass(r: VerificationResult)
    requires r.accepted <==> r.confidence.Medium? || r.confidence.High?
    ensures ClassOf(r) == ClassOfConfidence(r.confidence)
  {
  }
}
