/** Why an attempt failed, and whether it may be tried again. */
module Replan {
  import opened Contracts
  import opened Verdict

  datatype ReplanReason =
    | MissingContextReason | VerificationFailed | VerificationInconclusive | EnvironmentFailure
    | PermissionBlocked | ConflictDetected

  datatype ReplanAction =
    | AddContext | ReviseContract | RetrySameWorker | SelectAnotherWorker | EscalateMainAgent | Stop

  datatype ReplanDecision = ReplanDecision(action: ReplanAction, reason: ReplanReason)

  /** What the caller observed beside the verdict. */
  datatype Markers = Markers(integrationConflict: bool, policyBlocked: bool, environmentFailure: bool)

  /** The first failure that rules a retry out by itself. */
  function FirstHardReason(failures: seq<FailureRecord>): Option<ReplanReason> {
    if failures == [] then None
    else
      match failures[0].category
      case PolicyPermission => Some(PermissionBlocked)
      case Environment => Some(EnvironmentFailure)
      case IntegrationConflict => Some(ConflictDetected)
      case MissingContext => Some(MissingContextReason)
      case _ => FirstHardReason(failures[1..])
  }

  /** The fallback for verdicts without structured failures. */
  function LegacyReason(v: VerificationResult): ReplanReason {
    if exists i | i in v.issues :: i.tagged && (i.name == "file_exists" || i.name == EVIDENCE) then MissingContextReason
    else if v.confidence.BlockedConfidence? then EnvironmentFailure
    else if v.confidence.InconclusiveConfidence? then VerificationInconclusive
    else VerificationFailed
  }

  function ClassifyReplanReason(v: VerificationResult, m: Markers): Option<ReplanReason> {
    if m.integrationConflict then Some(ConflictDetected)
    else if m.policyBlocked then Some(PermissionBlocked)
    else if m.environmentFailure then Some(EnvironmentFailure)
    else if v.accepted then None
    else if v.failures == [] then Some(LegacyReason(v))
    else if FirstHardReason(v.failures).Some? then FirstHardReason(v.failures)
    else if exists f | f in v.failures :: f.category.SemanticInconclusive? then Some(VerificationInconclusive)
    else Some(VerificationFailed)
  }

  predicate IsRetryableByFailures(failures: seq<FailureRecord>) {
    forall f | f in failures ::
      && !f.category.PolicyPermission? && !f.category.Environment? && !f.category.IntegrationConflict?
      && (f.retryable || f.category.Worker? || f.category.SemanticInconclusive?)
  }

  function DecideRetry(v: VerificationResult, maxAttempts: nat, attempt: nat, m: Markers,
                       fallback: bool): Option<ReplanDecision> {
    match ClassifyReplanReason(v, m)
    case None => None
    case Some(reason) =>
      Some(ReplanDecision(ActionFor(v, maxAttempts, attempt, reason, fallback), reason))
  }

  function ActionFor(v: VerificationResult, maxAttempts: nat, attempt: nat, reason: ReplanReason,
                     fallback: bool): ReplanAction {
    if reason.PermissionBlocked? then EscalateMainAgent
    else if reason.EnvironmentFailure? then Stop
    else if reason.ConflictDetected? then EscalateMainAgent
    else if reason.MissingContextReason? && attempt < maxAttempts then AddContext
    else if reason.VerificationInconclusive? && attempt < maxAttempts then ReviseContract
    else if v.failures != [] && !IsRetryableByFailures(v.failures) then EscalateMainAgent
    else if attempt < maxAttempts then
      if reason.MissingContextReason? then AddContext
      else if reason.VerificationInconclusive? then ReviseContract
      else if fallback then SelectAnotherWorker
      else RetrySameWorker
    else EscalateMainAgent
  }

  predicate IsRetry(d: Option<ReplanDecision>) {
    d.Some? && (d.value.action.RetrySameWorker? || d.value.action.SelectAnotherWorker?)
  }

  /** A failure that a worker may repair: its own, or a retryable rejection. */
  predicate Repairable(f: FailureRecord) {
    f.category.Worker? || (f.retryable && (f.category.Contract? || f.category.DeterministicRejection?))
  }

  lemma {:induction false} HardReasonMeansHardFailure(failures: seq<FailureRecord>)
    ensures FirstHardReason(failures).Some? <==>
      exists f | f in failures ::
        f.category.PolicyPermission? || f.category.Environment?
        || f.category.IntegrationConflict? || f.category.MissingContext?
    ensures FirstHardReason(failures) != Some(VerificationFailed)
      && FirstHardReason(failures) != Some(VerificationInconclusive)
    decreases |failures|
  {
    if failures != [] {
      HardReasonMeansHardFailure(failures[1..]);
      assert failures == [failures[0]] + failures[1..];
      assert forall f :: f in failures <==> f == failures[0] || f in failures[1..];
    }
  }

  /** Exactly when a further attempt is decided: attempts are left, nothing outside
      the verdict speaks against it, the verdict is not accepted, and every failure
      is repairable; without structured failures the legacy reason decides. */
  lemma RetryExactly(v: VerificationResult, maxAttempts: nat, attempt: nat, m: Markers, fallback: bool)
    ensures IsRetry(DecideRetry(v, maxAttempts, attempt, m, fallback)) <==>
      && attempt < maxAttempts
      && !m.integrationConflict && !m.policyBlocked && !m.environmentFailure
      && !v.accepted
      && (if v.failures == [] then LegacyReason(v).VerificationFailed? else forall f | f in v.failures :: Repairable(f))
  {
    HardReasonMeansHardFailure(v.failures);
  }

  /** Reordering the failures never changes whether, or with which worker, the node
      is tried again. */
  lemma RetryIgnoresFailureOrder(v: VerificationResult, failures: seq<FailureRecord>, maxAttempts: nat,
                                 attempt: nat, m: Markers, fallback: bool)
    requires multiset(v.failures) == multiset(failures)
    ensures var d, d' := DecideRetry(v, maxAttempts, attempt, m, fallback),
      DecideRetry(v.(failures := failures), maxAttempts, attempt, m, fallback);
      IsRetry(d) == IsRetry(d') && (IsRetry(d) ==> d.value.action == d'.value.action)
  {
    RetryExactly(v, maxAttempts, attempt, m, fallback);
    RetryExactly(v.(failures := failures), maxAttempts, attempt, m, fallback);
    assert forall f :: f in v.failures <==> f in multiset(v.failures);
    assert forall f :: f in failures <==> f in multiset(failures);
    assert v.failures == [] ==> |multiset(failures)| == 0;
    assert failures == [] ==> |multiset(v.failures)| == 0;
  }

  /** The reported reason, and with it the kind of non-retry, does depend on the
      order: the first hard failure wins. */
  lemma ReasonDependsOnOrder(attempt: nat)
    ensures var policy, environment := FailureRecord(PolicyPermission, "p", false, false),
      FailureRecord(Environment, "e", false, false);
      var none := Markers(false, false, false);
      && DecideRetry(VerificationResult(false, BlockedConfidence, [], [policy, environment]), 2, attempt, none, false)
           == Some(ReplanDecision(EscalateMainAgent, PermissionBlocked))
      && DecideRetry(VerificationResult(false, BlockedConfidence, [], [environment, policy]), 2, attempt, none, false)
           == Some(ReplanDecision(Stop, EnvironmentFailure))
  {
  }

  // ---------------------------------------------------------------------------
  // Which action is decided
  // ---------------------------------------------------------------------------

  predicate IsHard(c: FailureCategory) {
    c.PolicyPermission? || c.Environment? || c.IntegrationConflict? || c.MissingContext?
  }

  /** The first hard failure has this category. */
  predicate FirstHardIs(failures: seq<FailureRecord>, c: FailureCategory) {
    exists i | 0 <= i < |failures| ::
      failures[i].category == c && forall j | 0 <= j < i :: !IsHard(failures[j].category)
  }

  /** The checks that the issue lines of a verdict without failures name. */
  predicate NamesMissing(v: VerificationResult) {
    exists i | i in v.issues && i.tagged :: i.name == "file_exists" || i.name == "evidence_requirements"
  }

  predicate NoMarkers(m: Markers) {
    !m.integrationConflict && !m.policyBlocked && !m.environmentFailure
  }

  /** A rejection for want of context. */
  predicate LacksContext(v: VerificationResult) {
    if v.failures == [] then NamesMissing(v) else FirstHardIs(v.failures, MissingContext)
  }

  /** A rejection that nothing harder than an open judgement explains. */
  predicate LeftOpen(v: VerificationResult) {
    if v.failures == [] then !NamesMissing(v) && v.confidence.InconclusiveConfidence?
    else
      && (forall f | f in v.failures :: !IsHard(f.category))
      && exists f | f in v.failures :: f.category.SemanticInconclusive?
  }

  /** A rejection by the environment. */
  predicate EnvironmentBroke(v: VerificationResult) {
    if v.failures == [] then !NamesMissing(v) && v.confidence.BlockedConfidence?
    else FirstHardIs(v.failures, Environment)
  }

  /** A rejection that another attempt may repair. */
  predicate MayBeRepaired(v: VerificationResult) {
    if v.failures == [] then
      !NamesMissing(v) && !v.confidence.BlockedConfidence? && !v.confidence.InconclusiveConfidence?
    else
      forall f | f in v.failures ::
        f.category.Worker? || (f.retryable && (f.category.Contract? || f.category.DeterministicRejection?))
  }

  /** Each reported reason exactly when it is given. */
  lemma ReasonExactly(v: VerificationResult, m: Markers)
    ensures var reason := ClassifyReplanReason(v, m);
      var open := NoMarkers(m) && !v.accepted;
      && (reason == None <==> NoMarkers(m) && v.accepted)
      && (reason == Some(ConflictDetected) <==>
          m.integrationConflict || (open && FirstHardIs(v.failures, IntegrationConflict)))
      && (reason == Some(PermissionBlocked) <==>
          (!m.integrationConflict && m.policyBlocked) || (open && FirstHardIs(v.failures, PolicyPermission)))
      && (reason == Some(EnvironmentFailure) <==>
          (!m.integrationConflict && !m.policyBlocked && m.environmentFailure) || (open && EnvironmentBroke(v)))
      && (reason == Some(MissingContextReason) <==> open && LacksContext(v))
      && (reason == Some(VerificationInconclusive) <==> open && LeftOpen(v))
  {
    FirstHardExactly(v.failures);
    HardReasonMeansHardFailure(v.failures);
  }

  /** Each action exactly when it is decided. An accepted verdict without markers gets no
      decision; conflicts and policy come before the environment; with attempts left a
      repairable rejection goes to the fallback worker if there is one and to the same
      worker otherwise; whatever is left escalates. */
  lemma ActionExactly(v: VerificationResult, maxAttempts: nat, attempt: nat, m: Markers, fallback: bool)
    ensures var action := NextAction(v, maxAttempts, attempt, m, fallback);
      var more, open := attempt < maxAttempts, NoMarkers(m) && !v.accepted;
      && (action == None <==> NoMarkers(m) && v.accepted)
      && (action == Some(Stop) <==>
          !m.integrationConflict && !m.policyBlocked && (m.environmentFailure || (!v.accepted && EnvironmentBroke(v))))
      && (action == Some(AddContext) <==> open && more && LacksContext(v))
      && (action == Some(ReviseContract) <==> open && more && LeftOpen(v))
      && (action == Some(SelectAnotherWorker) <==> open && more && MayBeRepaired(v) && fallback)
      && (action == Some(RetrySameWorker) <==> open && more && MayBeRepaired(v) && !fallback)
  {
    ReasonExactly(v, m);
    if NoMarkers(m) && !v.accepted { RepairableExactly(v, m); }
    var reason := ClassifyReplanReason(v, m);
    if reason.Some? { ActionOfReason(v, maxAttempts, attempt, reason.value, fallback); }
  }

  lemma ActionOfReason(v: VerificationResult, maxAttempts: nat, attempt: nat, reason: ReplanReason, fallback: bool)
    ensures var action := ActionFor(v, maxAttempts, attempt, reason, fallback);
      var more := attempt < maxAttempts;
      var again := more && reason.VerificationFailed? && MayRetry(v);
      && (action == Stop <==> reason.EnvironmentFailure?)
      && (action == AddContext <==> reason.MissingContextReason? && more)
      && (action == ReviseContract <==> reason.VerificationInconclusive? && more)
      && (action == SelectAnotherWorker <==> again && fallback)
      && (action == RetrySameWorker <==> again && !fallback)
  {
  }

  predicate MayRetry(v: VerificationResult) {
    v.failures == [] || IsRetryableByFailures(v.failures)
  }

  lemma RepairableExactly(v: VerificationResult, m: Markers)
    requires NoMarkers(m) && !v.accepted
    ensures ClassifyReplanReason(v, m) == Some(VerificationFailed) && MayRetry(v) <==> MayBeRepaired(v)
  {
    HardReasonMeansHardFailure(v.failures);
  }

  /** The scan finds the category of the first hard failure. */
  lemma {:induction false} FirstHardExactly(failures: seq<FailureRecord>)
    ensures FirstHardReason(failures) == Some(PermissionBlocked) <==> FirstHardIs(failures, PolicyPermission)
    ensures FirstHardReason(failures) == Some(EnvironmentFailure) <==> FirstHardIs(failures, Environment)
    ensures FirstHardReason(failures) == Some(ConflictDetected) <==> FirstHardIs(failures, IntegrationConflict)
    ensures FirstHardReason(failures) == Some(MissingContextReason) <==> FirstHardIs(failures, MissingContext)
    decreases |failures|
  {
    if failures != [] {
      FirstHardExactly(failures[1..]);
      FirstHardStep(failures, PolicyPermission);
      FirstHardStep(failures, Environment);
      FirstHardStep(failures, IntegrationConflict);
      FirstHardStep(failures, MissingContext);
    }
  }

  lemma FirstHardStep(failures: seq<FailureRecord>, c: FailureCategory)
    requires failures != [] && IsHard(c)
    ensures FirstHardIs(failures, c)
        <==> failures[0].category == c || (!IsHard(failures[0].category) && FirstHardIs(failures[1..], c))
  {
    var rest := failures[1..];
    if FirstHardIs(failures, c) && failures[0].category != c {
      var i :| 0 <= i < |failures| && failures[i].category == c
        && forall j | 0 <= j < i :: !IsHard(failures[j].category);
      assert rest[i - 1].category == c && forall j | 0 <= j < i - 1 :: rest[j] == failures[j + 1];
    }
    if !IsHard(failures[0].category) && FirstHardIs(rest, c) {
      var i :| 0 <= i < |rest| && rest[i].category == c && forall j | 0 <= j < i :: !IsHard(rest[j].category);
      assert failures[i + 1].category == c && forall j | 1 <= j < i + 1 :: failures[j] == rest[j - 1];
    }
  }

  // ---------------------------------------------------------------------------
  // When the order of the failures does not matter
  // ---------------------------------------------------------------------------

  /** The reason a hard failure gives when it comes first. */
  function HardReason(f: FailureRecord): Option<ReplanReason> {
    match f.category
    case PolicyPermission => Some(PermissionBlocked)
    case Environment => Some(EnvironmentFailure)
    case IntegrationConflict => Some(ConflictDetected)
    case MissingContext => Some(MissingContextReason)
    case _ => None
  }

  /** All hard failures have one category, hence one reason. */
  predicate OneHardCategory(failures: seq<FailureRecord>) {
    forall f, g | f in failures && g in failures && HardReason(f).Some? && HardReason(g).Some? ::
      f.category == g.category
  }

  /** The first hard failure decides, and it is one of the list. */
  lemma {:induction false} FirstHardIsHard(failures: seq<FailureRecord>)
    ensures match FirstHardReason(failures)
      case None => forall f | f in failures :: HardReason(f).None?
      case Some(r) => exists f | f in failures :: HardReason(f) == Some(r)
    decreases |failures|
  {
    if failures != [] {
      FirstHardIsHard(failures[1..]);
      assert failures == [failures[0]] + failures[1..];
      assert failures[0] in failures;
    }
  }

  /** Any failure may come first. */
  lemma MovedToFront(failures: seq<FailureRecord>, f: FailureRecord) returns (moved: seq<FailureRecord>)
    requires f in failures
    ensures multiset(moved) == multiset(failures) && moved != [] && moved[0] == f
  {
    var i :| 0 <= i < |failures| && failures[i] == f;
    moved := [f] + (failures[..i] + failures[i + 1..]);
    assert failures == failures[..i] + [f] + failures[i + 1..];
  }

  lemma SameMembers(a: seq<FailureRecord>, b: seq<FailureRecord>)
    requires multiset(a) == multiset(b)
    ensures forall f :: f in a <==> f in b
    ensures a == [] <==> b == []
  {
    assert forall f :: f in a <==> f in multiset(a);
    assert forall f :: f in b <==> f in multiset(b);
    assert |multiset(a)| == |a| && |multiset(b)| == |b|;
  }

  /** With one hard category the first hard reason is the same in every order. */
  lemma OneCategoryOneReason(failures: seq<FailureRecord>, others: seq<FailureRecord>)
    requires multiset(failures) == multiset(others) && OneHardCategory(failures)
    ensures FirstHardReason(others) == FirstHardReason(failures)
  {
    SameMembers(failures, others);
    FirstHardIsHard(failures);
    FirstHardIsHard(others);
  }

  ghost predicate ReasonIgnoresOrder(v: VerificationResult, m: Markers) {
    forall fs | multiset(fs) == multiset(v.failures) ::
      ClassifyReplanReason(v.(failures := fs), m) == ClassifyReplanReason(v, m)
  }

  /** Acceptance and markers decide before any failure is looked at. */
  predicate DecidedWithoutFailures(v: VerificationResult, m: Markers) {
    v.accepted || m.integrationConflict || m.policyBlocked || m.environmentFailure
  }

  /** The reason is the same in every order of the failures exactly when it is decided
      without them or all hard failures have one category. */
  lemma ReasonIgnoresOrderExactly(v: VerificationResult, m: Markers)
    ensures ReasonIgnoresOrder(v, m) <==> DecidedWithoutFailures(v, m) || OneHardCategory(v.failures)
  {
    if DecidedWithoutFailures(v, m) {
    } else if OneHardCategory(v.failures) {
      forall fs | multiset(fs) == multiset(v.failures)
        ensures ClassifyReplanReason(v.(failures := fs), m) == ClassifyReplanReason(v, m)
      {
        SameMembers(v.failures, fs);
        OneCategoryOneReason(v.failures, fs);
      }
    } else {
      var f, g :| f in v.failures && g in v.failures && HardReason(f).Some? && HardReason(g).Some?
        && f.category != g.category;
      var first := MovedToFront(v.failures, f);
      var second := MovedToFront(v.failures, g);
      assert FirstHardReason(first) == HardReason(f) && FirstHardReason(second) == HardReason(g);
      assert ClassifyReplanReason(v.(failures := first), m) == HardReason(f);
      assert ClassifyReplanReason(v.(failures := second), m) == HardReason(g);
    }
  }

  /** What a hard failure makes of the next step when it comes first. */
  function HardAction(f: FailureRecord, more: bool): ReplanAction
    requires HardReason(f).Some?
  {
    if f.category.Environment? then Stop
    else if f.category.MissingContext? && more then AddContext
    else EscalateMainAgent
  }

  predicate OneHardAction(failures: seq<FailureRecord>, more: bool) {
    forall f, g | f in failures && g in failures && HardReason(f).Some? && HardReason(g).Some? ::
      HardAction(f, more) == HardAction(g, more)
  }

  ghost predicate ActionIgnoresOrder(v: VerificationResult, maxAttempts: nat, attempt: nat, m: Markers,
                                     fallback: bool) {
    forall fs | multiset(fs) == multiset(v.failures) ::
      NextAction(v.(failures := fs), maxAttempts, attempt, m, fallback)
      == NextAction(v, maxAttempts, attempt, m, fallback)
  }

  function NextAction(v: VerificationResult, maxAttempts: nat, attempt: nat, m: Markers,
                      fallback: bool): Option<ReplanAction> {
    match DecideRetry(v, maxAttempts, attempt, m, fallback)
    case None => None
    case Some(d) => Some(d.action)
  }

  /** A verdict with a hard failure in front gets that failure's action. */
  lemma HardFirstDecides(v: VerificationResult, maxAttempts: nat, attempt: nat, m: Markers, fallback: bool,
                         f: FailureRecord)
    requires !DecidedWithoutFailures(v, m)
    requires f in v.failures && HardReason(f).Some? && FirstHardReason(v.failures) == HardReason(f)
    ensures NextAction(v, maxAttempts, attempt, m, fallback) == Some(HardAction(f, attempt < maxAttempts))
  {
    if f.category.MissingContext? && attempt >= maxAttempts {
      assert ClassifyReplanReason(v, m) == Some(MissingContextReason);
    }
  }

  /** What is done next is the same in every order of the failures exactly when it is
      decided without them or the hard failures agree on it: policy and conflict failures
      escalate, environment failures stop, and missing context escalates once the
      attempts are used up. */
  lemma ActionIgnoresOrderExactly(v: VerificationResult, maxAttempts: nat, attempt: nat, m: Markers, fallback: bool)
    ensures ActionIgnoresOrder(v, maxAttempts, attempt, m, fallback)
      <==> DecidedWithoutFailures(v, m) || OneHardAction(v.failures, attempt < maxAttempts)
  {
    var more := attempt < maxAttempts;
    if DecidedWithoutFailures(v, m) {
    } else if OneHardAction(v.failures, more) {
      forall fs | multiset(fs) == multiset(v.failures)
        ensures NextAction(v.(failures := fs), maxAttempts, attempt, m, fallback)
             == NextAction(v, maxAttempts, attempt, m, fallback)
      {
        ReorderedAction(v, maxAttempts, attempt, m, fallback, fs);
      }
    } else {
      var f, g :| f in v.failures && g in v.failures && HardReason(f).Some? && HardReason(g).Some?
        && HardAction(f, more) != HardAction(g, more);
      var first := MovedToFront(v.failures, f);
      var second := MovedToFront(v.failures, g);
      assert first[0] in first && second[0] in second;
      HardFirstDecides(v.(failures := first), maxAttempts, attempt, m, fallback, f);
      HardFirstDecides(v.(failures := second), maxAttempts, attempt, m, fallback, g);
    }
  }

  lemma ReorderedAction(v: VerificationResult, maxAttempts: nat, attempt: nat, m: Markers, fallback: bool,
                        fs: seq<FailureRecord>)
    requires !DecidedWithoutFailures(v, m)
    requires multiset(fs) == multiset(v.failures) && OneHardAction(v.failures, attempt < maxAttempts)
    ensures NextAction(v.(failures := fs), maxAttempts, attempt, m, fallback)
            == NextAction(v, maxAttempts, attempt, m, fallback)
  {
    SameMembers(v.failures, fs);
    FirstHardIsHard(v.failures);
    FirstHardIsHard(fs);
    if FirstHardReason(v.failures).Some? {
      var f :| f in v.failures && HardReason(f) == FirstHardReason(v.failures);
      var g :| g in fs && HardReason(g) == FirstHardReason(fs);
      HardFirstDecides(v, maxAttempts, attempt, m, fallback, f);
      HardFirstDecides(v.(failures := fs), maxAttempts, attempt, m, fallback, g);
    } else {
      assert ClassifyReplanReason(v.(failures := fs), m) == ClassifyReplanReason(v, m);
      assert IsRetryableByFailures(fs) == IsRetryableByFailures(v.failures);
    }
  }

  // ---------------------------------------------------------------------------
  // Verdicts of the checks
  // ---------------------------------------------------------------------------

  lemma {:induction false} ReportedByChecks(checks: seq<string>, outcome: string -> CheckOutcome)
    ensures SomeRejected(checks, outcome) && !SomeStopped(checks, outcome) && !SomeUnproven(checks, outcome)
        ==> CheckFailures(Reached(checks, outcome), outcome) != []
    ensures !SomeStopped(checks, outcome) ==>
      ((forall f | f in CheckFailures(Reached(checks, outcome), outcome) :: Repairable(f))
        <==> !SomeUnproven(checks, outcome))
    decreases |checks|
  {
    if checks != [] {
      var c, rest := checks[0], checks[1..];
      ReportedByChecks(rest, outcome);
      assert checks == [c] + rest;
      assert forall x :: x in checks <==> x == c || x in rest;
      var tail := CheckFailures(Reached(rest, outcome), outcome);
      if !outcome(c).Stopped? {
        assert ([c] + Reached(rest, outcome))[1..] == Reached(rest, outcome);
        var all := FailuresOf(NameOf(c), outcome(c)) + tail;
        assert CheckFailures(Reached(checks, outcome), outcome) == all;
        assert forall f :: f in all <==> f in FailuresOf(NameOf(c), outcome(c)) || f in tail;
        if outcome(c).Unproven? { assert all[0] in all && !Repairable(all[0]); }
      }
    }
  }

  /** A verdict of the checks is retried, attempts permitting, exactly when it is a
      plain rejection: something was rejected and nothing was stopped, unproven or
      left to human judgement. */
  lemma OnlyPlainRejectionsAreRetried(v: VerificationResult, contract: VerificationContract,
                                      outcome: string -> CheckOutcome,
                                      evidence: CheckOutcome, maxAttempts: nat, attempt: nat, fallback: bool)
    requires VerdictOf(v, contract, outcome, evidence) && v.failures == Reported(contract, outcome, evidence)
    requires forall c :: outcome(c).Stopped? ==> !outcome(c).category.Worker?
    requires evidence.Stopped? ==> !evidence.category.Worker?
    ensures IsRetry(DecideRetry(v, maxAttempts, attempt, Markers(false, false, false), fallback)) <==>
      && attempt < maxAttempts
      && WorstOf(contract, outcome, evidence).RejectedClass?
      && !SomeUnproven(contract.deterministicChecks, outcome)
      && !EvidenceOutcome(contract, evidence).Unproven?
      && contract.semanticCheck == ""
  {
    RetryExactly(v, maxAttempts, attempt, Markers(false, false, false), fallback);
    VerdictHasWorstClass(v, contract, outcome, evidence);
    HaltingRunFindsWorst(contract, outcome, evidence);
    ReportedByChecks(contract.deterministicChecks, outcome);
    ReportIsRepairable(contract, outcome, evidence);
  }

  lemma {:induction false} StoppedIsNotRepairable(checks: seq<string>, outcome: string -> CheckOutcome)
    requires SomeStopped(checks, outcome) && forall c :: outcome(c).Stopped? ==> !outcome(c).category.Worker?
    ensures exists f | f in CheckFailures(Reached(checks, outcome), outcome) :: !Repairable(f)
    decreases |checks|
  {
    var c, rest := checks[0], checks[1..];
    if outcome(c).Stopped? {
      assert Reached(checks, outcome) == [c] && [c][1..] == [];
      var f := FailuresOf(NameOf(c), outcome(c))[0];
      assert CheckFailures([c], outcome)[0] == f;
      assert f in CheckFailures(Reached(checks, outcome), outcome) && !Repairable(f);
    } else {
      assert checks == [c] + rest;
      StoppedIsNotRepairable(rest, outcome);
      assert ([c] + Reached(rest, outcome))[1..] == Reached(rest, outcome);
      var f :| f in CheckFailures(Reached(rest, outcome), outcome) && !Repairable(f);
      assert f in CheckFailures(Reached(checks, outcome), outcome);
    }
  }

  lemma ReportIsRepairable(contract: VerificationContract, outcome: string -> CheckOutcome, evidence: CheckOutcome)
    requires forall c :: outcome(c).Stopped? ==> !outcome(c).category.Worker?
    requires evidence.Stopped? ==> !evidence.category.Worker?
    ensures (forall f | f in Reported(contract, outcome, evidence) :: Repairable(f)) <==>
      && !SomeStopped(contract.deterministicChecks, outcome) && !SomeUnproven(contract.deterministicChecks, outcome)
      && !EvidenceOutcome(contract, evidence).Stopped? && !EvidenceOutcome(contract, evidence).Unproven?
      && contract.semanticCheck == ""
    ensures WorstOf(contract, outcome, evidence).RejectedClass? && !SomeUnproven(contract.deterministicChecks, outcome)
      ==> Reported(contract, outcome, evidence) != []
  {
    var checks, ev := contract.deterministicChecks, EvidenceOutcome(contract, evidence);
    ReportedByChecks(checks, outcome);
    WorstCheckIs(checks, outcome);
    var base, report := CheckFailures(Reached(checks, outcome), outcome), Reported(contract, outcome, evidence);
    if SomeStopped(checks, outcome) {
      StoppedIsNotRepairable(checks, outcome);
      assert report == base;
    } else {
      var more := FailuresOf(EVIDENCE, ev);
      var last := if ev.Stopped? || contract.semanticCheck == "" then [] else [SEMANTIC_RECORD];
      assert report == base + (more + last);
      assert forall f :: f in report <==> f in base || f in more || f in last;
      if !ev.Passed? { assert more[0] in more; }
      if last != [] { assert last[0] in last; }
    }
  }

  // ---------------------------------------------------------------------------
  // What follows a run of the checks
  // ---------------------------------------------------------------------------

  lemma {:induction false} NothingStoppedReachesAll(checks: seq<string>, outcome: string -> CheckOutcome)
    requires !SomeStopped(checks, outcome)
    ensures Reached(checks, outcome) == checks
    decreases |checks|
  {
    if checks != [] {
      assert checks == [checks[0]] + checks[1..] && checks[0] in checks;
      assert forall c | c in checks[1..] :: c in checks;
      NothingStoppedReachesAll(checks[1..], outcome);
    }
  }

  predicate HasFailure(failures: seq<FailureRecord>, c: FailureCategory) {
    exists f | f in failures :: f.category == c
  }

  /** What failures say when nothing was stopped: whether context is missing, and whether
      any judgement is open; all others are plain rejections. */
  predicate Says(failures: seq<FailureRecord>, missing: bool, open: bool) {
    && (HasFailure(failures, MissingContext) <==> missing)
    && (HasFailure(failures, MissingContext) || HasFailure(failures, SemanticInconclusive) <==> open)
    && forall f | f in failures ::
         || f.category.MissingContext? || f.category.SemanticInconclusive?
         || (f.category.DeterministicRejection? && f.retryable)
  }

  lemma SaysBoth(a: seq<FailureRecord>, b: seq<FailureRecord>, missing: bool, open: bool, missing': bool, open': bool)
    requires Says(a, missing, open) && Says(b, missing', open')
    ensures Says(a + b, missing || missing', open || open')
  {
    assert forall f :: f in a + b <==> f in a || f in b;
  }

  lemma OutcomeSays(name: string, outcome: CheckOutcome)
    requires !outcome.Stopped?
    ensures Says(FailuresOf(name, outcome), outcome.Unproven? && name == "evidence_requirements", outcome.Unproven?)
  {
    if !outcome.Passed? { assert FailuresOf(name, outcome)[0] in FailuresOf(name, outcome); }
  }

  /** Some unproven check goes by the name of the evidence requirements. */
  predicate NamedEvidence(checks: seq<string>, outcome: string -> CheckOutcome) {
    exists c | c in checks :: outcome(c).Unproven? && NameOf(c) == "evidence_requirements"
  }

  lemma {:induction false} ChecksSay(checks: seq<string>, outcome: string -> CheckOutcome)
    requires !SomeStopped(checks, outcome)
    ensures Says(CheckFailures(checks, outcome), NamedEvidence(checks, outcome), SomeUnproven(checks, outcome))
    decreases |checks|
  {
    if checks != [] {
      var c, rest := checks[0], checks[1..];
      assert checks == [c] + rest && c in checks;
      assert forall x :: x in checks <==> x == c || x in rest;
      ChecksSay(rest, outcome);
      OutcomeSays(NameOf(c), outcome(c));
      SaysBoth(FailuresOf(NameOf(c), outcome(c)), CheckFailures(rest, outcome),
               outcome(c).Unproven? && NameOf(c) == "evidence_requirements", outcome(c).Unproven?,
               NamedEvidence(rest, outcome), SomeUnproven(rest, outcome));
    }
  }

  lemma OpenChecksSay(contract: VerificationContract, evidence: CheckOutcome)
    requires !EvidenceOutcome(contract, evidence).Stopped?
    ensures var ev := EvidenceOutcome(contract, evidence);
            Says(OpenFailures(contract, evidence), ev.Unproven?, ev.Unproven? || contract.semanticCheck != "")
  {
    var ev := EvidenceOutcome(contract, evidence);
    var open := if contract.semanticCheck == "" then [] else [SEMANTIC_RECORD];
    OutcomeSays(EVIDENCE, ev);
    if open != [] { assert open[0] in open; }
    assert Says(open, false, contract.semanticCheck != "");
    SaysBoth(FailuresOf(EVIDENCE, ev), open, ev.Unproven?, ev.Unproven?, false, contract.semanticCheck != "");
  }

  /** The evidence is unproven, or a check that goes by its name. */
  predicate LacksEvidence(contract: VerificationContract, outcome: string -> CheckOutcome, evidence: CheckOutcome) {
    || (contract.evidenceRequirements != [] && evidence.Unproven?)
    || NamedEvidence(contract.deterministicChecks, outcome)
  }

  /** Some check, the evidence or the semantic check waits for a judgement. */
  predicate LeavesOpen(contract: VerificationContract, outcome: string -> CheckOutcome, evidence: CheckOutcome) {
    || SomeUnproven(contract.deterministicChecks, outcome) || contract.semanticCheck != ""
    || (contract.evidenceRequirements != [] && evidence.Unproven?)
  }

  /** What a run reports when nothing was stopped. */
  lemma RunSays(contract: VerificationContract, outcome: string -> CheckOutcome, evidence: CheckOutcome)
    requires !SomeStopped(contract.deterministicChecks, outcome) && !EvidenceOutcome(contract, evidence).Stopped?
    ensures Says(Reported(contract, outcome, evidence), LacksEvidence(contract, outcome, evidence),
                 LeavesOpen(contract, outcome, evidence))
  {
    var checks, ev := contract.deterministicChecks, EvidenceOutcome(contract, evidence);
    NothingStoppedReachesAll(checks, outcome);
    ChecksSay(checks, outcome);
    OpenChecksSay(contract, evidence);
    SaysBoth(CheckFailures(checks, outcome), OpenFailures(contract, evidence), NamedEvidence(checks, outcome),
             SomeUnproven(checks, outcome), ev.Unproven?, ev.Unproven? || contract.semanticCheck != "");
  }

  lemma {:induction false} OnlyMissingIsHard(failures: seq<FailureRecord>, missing: bool, open: bool)
    requires Says(failures, missing, open)
    ensures FirstHardIs(failures, MissingContext) <==> missing
    ensures !FirstHardIs(failures, Environment)
    decreases |failures|
  {
    if failures != [] {
      var rest := failures[1..];
      FirstHardStep(failures, MissingContext);
      assert failures == [failures[0]] + rest && failures[0] in failures;
      assert forall f :: f in failures <==> f == failures[0] || f in rest;
      var missing' := HasFailure(rest, MissingContext);
      OnlyMissingIsHard(rest, missing', missing' || HasFailure(rest, SemanticInconclusive));
    }
  }

  /** The step after a run in which nothing was stopped: after the last attempt the main
      agent; before it, unproven evidence asks for context, any other open judgement for a
      revised contract, and a plain rejection for another attempt, by the fallback worker
      if there is one. */
  lemma DecisionAfterRun(v: VerificationResult, contract: VerificationContract, outcome: string -> CheckOutcome,
                         evidence: CheckOutcome, maxAttempts: nat, attempt: nat, fallback: bool)
    requires VerdictOf(v, contract, outcome, evidence) && v.failures == Reported(contract, outcome, evidence)
    requires !SomeStopped(contract.deterministicChecks, outcome) && !EvidenceOutcome(contract, evidence).Stopped?
    requires !v.accepted
    ensures NextAction(v, maxAttempts, attempt, Markers(false, false, false), fallback) == Some(
      if attempt >= maxAttempts then EscalateMainAgent
      else if LacksEvidence(contract, outcome, evidence) then AddContext
      else if LeavesOpen(contract, outcome, evidence) then ReviseContract
      else if fallback then SelectAnotherWorker
      else RetrySameWorker)
  {
    RunSays(contract, outcome, evidence);
    SomethingReported(v, contract, outcome, evidence);
    ActionWhenSaid(v, LacksEvidence(contract, outcome, evidence), LeavesOpen(contract, outcome, evidence),
                   maxAttempts, attempt, fallback);
  }

  lemma ActionWhenSaid(v: VerificationResult, missing: bool, open: bool, maxAttempts: nat, attempt: nat,
                       fallback: bool)
    requires !v.accepted && v.failures != [] && Says(v.failures, missing, open)
    ensures NextAction(v, maxAttempts, attempt, Markers(false, false, false), fallback) == Some(
      if attempt >= maxAttempts then EscalateMainAgent
      else if missing then AddContext else if open then ReviseContract
      else if fallback then SelectAnotherWorker else RetrySameWorker)
  {
    OnlyMissingIsHard(v.failures, missing, open);
    SaidDecides(v, missing, open);
    ActionExactly(v, maxAttempts, attempt, Markers(false, false, false), fallback);
  }

  lemma SaidDecides(v: VerificationResult, missing: bool, open: bool)
    requires v.failures != [] && Says(v.failures, missing, open)
    ensures !missing ==> (LeftOpen(v) <==> open)
    ensures missing ==> !LeftOpen(v)
    ensures MayBeRepaired(v) <==> !open
  {
  }

  lemma SomethingReported(v: VerificationResult, contract: VerificationContract, outcome: string -> CheckOutcome,
                          evidence: CheckOutcome)
    requires VerdictOf(v, contract, outcome, evidence) && !v.accepted
    requires Says(Reported(contract, outcome, evidence), LacksEvidence(contract, outcome, evidence),
                  LeavesOpen(contract, outcome, evidence))
    requires !SomeStopped(contract.deterministicChecks, outcome) && !EvidenceOutcome(contract, evidence).Stopped?
    ensures Reported(contract, outcome, evidence) != []
  {
    if !LeavesOpen(contract, outcome, evidence) {
      NothingStoppedReachesAll(contract.deterministicChecks, outcome);
      ReportedByChecks(contract.deterministicChecks, outcome);
    }
  }

  lemma {:induction false} SplitChecksReport(checks: seq<string>, outcome: string -> CheckOutcome)
    ensures multiset(CheckFailures(checks, outcome))
         == multiset(CheckFailures(SelectChecks(checks, true), outcome))
            + multiset(CheckFailures(SelectChecks(checks, false), outcome))
    decreases |checks|
  {
    if checks != [] {
      var c, rest := checks[0], checks[1..];
      SplitChecksReport(rest, outcome);
      assert ([c] + SelectChecks(rest, true))[1..] == SelectChecks(rest, true);
      assert ([c] + SelectChecks(rest, false))[1..] == SelectChecks(rest, false);
    }
  }

  lemma NothingStoppedInPhase(checks: seq<string>, outcome: string -> CheckOutcome, proposal: bool)
    requires !SomeStopped(checks, outcome)
    ensures !SomeStopped(SelectChecks(checks, proposal), outcome)
  {
    forall c | c in SelectChecks(checks, proposal) ensures c in checks {
      SelectedByName(checks, proposal, c);
    }
  }

  /** Splitting a contract into phases loses no failure and invents none: when nothing is
      stopped the two phases together report what one run does, the evidence and the
      semantic check in the second. */
  lemma SplitReports(contract: VerificationContract, outcome: string -> CheckOutcome, evidence: CheckOutcome)
    requires !SomeStopped(contract.deterministicChecks, outcome)
    ensures var proposal := Reported(ContractForPhase(contract, true), outcome, evidence);
      var post := Reported(ContractForPhase(contract, false), outcome, evidence);
      && multiset(proposal + post) == multiset(Reported(contract, outcome, evidence))
      && proposal == CheckFailures(SelectChecks(contract.deterministicChecks, true), outcome)
  {
    var checks := contract.deterministicChecks;
    var open := OpenFailures(contract, evidence);
    NothingStoppedReachesAll(checks, outcome);
    NothingStoppedInPhase(checks, outcome, true);
    NothingStoppedInPhase(checks, outcome, false);
    NothingStoppedReachesAll(SelectChecks(checks, true), outcome);
    NothingStoppedReachesAll(SelectChecks(checks, false), outcome);
    SplitChecksReport(checks, outcome);
    var first := CheckFailures(SelectChecks(checks, true), outcome);
    assert Reported(ContractForPhase(contract, true), outcome, evidence) == first + ([] + []) == first;
    assert Reported(ContractForPhase(contract, false), outcome, evidence)
        == CheckFailures(SelectChecks(checks, false), outcome) + open;
  }

  lemma SaysSame(a: seq<FailureRecord>, b: seq<FailureRecord>, missing: bool, open: bool)
    requires multiset(a) == multiset(b) && Says(a, missing, open)
    ensures Says(b, missing, open)
  {
    SameMembers(a, b);
  }

  /** So the step after a verdict merged from two phases is the step after one run over the
      unsplit contract. */
  lemma SplitKeepsDecision(contract: VerificationContract, outcome: string -> CheckOutcome, evidence: CheckOutcome,
                           proposal: VerificationResult, post: VerificationResult, whole: VerificationResult,
                           maxAttempts: nat, attempt: nat, fallback: bool)
    requires VerdictOf(proposal, ContractForPhase(contract, true), outcome, evidence)
    requires VerdictOf(post, ContractForPhase(contract, false), outcome, evidence)
    requires VerdictOf(whole, contract, outcome, evidence)
    requires proposal.failures == Reported(ContractForPhase(contract, true), outcome, evidence)
    requires post.failures == Reported(ContractForPhase(contract, false), outcome, evidence)
    requires whole.failures == Reported(contract, outcome, evidence)
    requires !SomeStopped(contract.deterministicChecks, outcome) && !EvidenceOutcome(contract, evidence).Stopped?
    ensures NextAction(CombinePhaseResults([proposal, post]), maxAttempts, attempt, Markers(false, false, false),
                       fallback)
         == NextAction(whole, maxAttempts, attempt, Markers(false, false, false), fallback)
  {
    var split := CombinePhaseResults([proposal, post]);
    SplitPreservesVerdict(contract, outcome, evidence, proposal, post, whole);
    if !whole.accepted {
      CombinedReportsBoth(proposal, post);
      SplitReports(contract, outcome, evidence);
      RunSays(contract, outcome, evidence);
      SomethingReported(whole, contract, outcome, evidence);
      SaysSame(whole.failures, split.failures, LacksEvidence(contract, outcome, evidence),
               LeavesOpen(contract, outcome, evidence));
      SameMembers(whole.failures, split.failures);
      ActionWhenSaid(split, LacksEvidence(contract, outcome, evidence), LeavesOpen(contract, outcome, evidence),
                     maxAttempts, attempt, fallback);
      DecisionAfterRun(whole, contract, outcome, evidence, maxAttempts, attempt, fallback);
    }
  }

  /** A check that was stopped for a hard reason decides alone, whatever was rejected or
      left unproven before it. */
  lemma {:induction false} StoppedDecides(checks: seq<string>, outcome: string -> CheckOutcome, i: nat)
    requires i < |checks| && outcome(checks[i]).Stopped? && IsHard(outcome(checks[i]).category)
    requires forall j | 0 <= j < i ::
      !outcome(checks[j]).Stopped? && !(outcome(checks[j]).Unproven? && NameOf(checks[j]) == "evidence_requirements")
    ensures FirstHardIs(CheckFailures(Reached(checks, outcome), outcome), outcome(checks[i]).category)
    decreases i
  {
    ReachedFailures(checks, outcome);
    var c := checks[0];
    var first := FailuresOf(NameOf(c), outcome(c));
    if i == 0 {
      StoppedIsFirst(NameOf(c), outcome(c));
      assert first + [] == first;
    } else {
      StoppedDecides(checks[1..], outcome, i - 1);
      SoftFirst(first, CheckFailures(Reached(checks[1..], outcome), outcome), outcome(checks[i]).category);
    }
  }

  lemma StoppedIsFirst(name: string, outcome: CheckOutcome)
    requires outcome.Stopped?
    ensures FirstHardIs(FailuresOf(name, outcome), outcome.category)
  {
    assert FailuresOf(name, outcome)[0].category == outcome.category;
  }

  lemma SoftFirst(first: seq<FailureRecord>, later: seq<FailureRecord>, c: FailureCategory)
    requires (forall f | f in first :: !IsHard(f.category)) && FirstHardIs(later, c)
    ensures FirstHardIs(first + later, c)
  {
    var i :| 0 <= i < |later| && later[i].category == c && forall j | 0 <= j < i :: !IsHard(later[j].category);
    var all := first + later;
    assert all[|first| + i].category == c;
    forall j | 0 <= j < |first| + i ensures !IsHard(all[j].category) {
      if j < |first| { assert all[j] == first[j] && first[j] in first; } else { assert all[j] == later[j - |first|]; }
    }
  }
}
