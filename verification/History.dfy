/** Failure attribution, capability profiles and worker assignment: failures that
    are not the worker's do not move its score. */
module History {
  import opened Contracts
  import opened Scheduler
  import opened Verdict

  datatype OutcomeStatus = SuccessStatus | FailedStatus | InconclusiveStatus | BlockedStatus

  datatype FailureAttribution =
    | NoFailure | WorkerError | DecompositionError | AssignmentError | MissingContextFault | Unverified
    | EnvironmentFault | PermissionFault | ConsentScopeChanged | ConflictFault

  /** The classes of exceptions that are told apart. */
  datatype ExceptionKind = PermissionException | MissingFileException | OperatingSystemException | OtherException

  datatype Attributed = Attributed(status: OutcomeStatus, attribution: FailureAttribution)

  /** The parts of a worker result that attribution reads. */
  datatype ReportedResult = ReportedResult(succeeded: bool, policyViolations: bool)

  predicate IsExcluded(a: FailureAttribution) {
    a.EnvironmentFault? || a.PermissionFault? || a.ConsentScopeChanged? || a.MissingContextFault?
    || a.DecompositionError? || a.AssignmentError? || a.ConflictFault?
  }

  function ClassifyException(e: ExceptionKind): Attributed {
    match e
    case PermissionException => Attributed(BlockedStatus, PermissionFault)
    case MissingFileException => Attributed(BlockedStatus, MissingContextFault)
    case OperatingSystemException => Attributed(BlockedStatus, EnvironmentFault)
    case OtherException => Attributed(FailedStatus, WorkerError)
  }

  predicate HasCategory(failures: seq<FailureRecord>, c: FailureCategory) {
    exists f | f in failures :: f.category == c
  }

  /** A rejected file check whose file is absent counts as missing context. */
  predicate ReportsMissingFile(f: FailureRecord) {
    f.category.DeterministicRejection? && (f.check == "file_exists" || f.check == "file_contains") && f.missingFile
  }

  function ClassifyFailures(failures: seq<FailureRecord>): Option<Attributed> {
    if exists f | f in failures :: ReportsMissingFile(f) then Some(Attributed(BlockedStatus, MissingContextFault))
    else if failures == [] then None
    else if HasCategory(failures, PolicyPermission) then Some(Attributed(BlockedStatus, PermissionFault))
    else if HasCategory(failures, Environment) then Some(Attributed(BlockedStatus, EnvironmentFault))
    else if HasCategory(failures, IntegrationConflict) then Some(Attributed(BlockedStatus, ConflictFault))
    else if HasCategory(failures, MissingContext) then Some(Attributed(BlockedStatus, MissingContextFault))
    else if HasCategory(failures, Contract) then Some(Attributed(BlockedStatus, DecompositionError))
    else if HasCategory(failures, SemanticInconclusive) then Some(Attributed(InconclusiveStatus, Unverified))
    else Some(Attributed(FailedStatus, WorkerError))
  }

  /** A rejected check of a file that is absent is never the worker's fault, whatever
      else failed: its failure carries the check's name without the path. */
  lemma MissingFileIsContext(name: string, path: string, failures: seq<FailureRecord>)
    requires name == "file_exists" || name == "file_contains"
    requires forall f | f in FailuresOf(NameOf(name + ":" + path), Rejected(true)) :: f in failures
    ensures ClassifyFailures(failures) == Some(Attributed(BlockedStatus, MissingContextFault))
  {
    NameBeforeColon(name, path);
    var f := FailuresOf(NameOf(name + ":" + path), Rejected(true))[0];
    assert f in FailuresOf(NameOf(name + ":" + path), Rejected(true)) && ReportsMissingFile(f);
  }

  predicate NamesCheck(issues: seq<Issue>, name: string) {
    exists i | i in issues :: i.tagged && i.name == name
  }

  /** `blockReason` is what the keyword scan makes of a blocked verdict without
      structured failures. */
  function AttributeOutcome(result: Option<ReportedResult>, verification: Option<VerificationResult>,
                            exception: Option<ExceptionKind>, blockReason: FailureAttribution): Attributed {
    if exception.Some? then ClassifyException(exception.value)
    else if result.None? then Attributed(InconclusiveStatus, WorkerError)
    else if result.value.policyViolations then Attributed(BlockedStatus, PermissionFault)
    else if !result.value.succeeded then Attributed(FailedStatus, WorkerError)
    else if verification.None? || verification.value.accepted then Attributed(SuccessStatus, NoFailure)
    else
      var v := verification.value;
      if ClassifyFailures(v.failures).Some? then ClassifyFailures(v.failures).value
      else if v.confidence.InconclusiveConfidence? then Attributed(InconclusiveStatus, Unverified)
      else if v.confidence.BlockedConfidence? then Attributed(BlockedStatus, blockReason)
      else
        Attributed(FailedStatus,
          if NamesCheck(v.issues, "file_exists") || NamesCheck(v.issues, EVIDENCE) then MissingContextFault
          else if NamesCheck(v.issues, "integration_conflict") then ConflictFault
          else WorkerError)
  }

  /** Only an accepted result, or an unverified one that its worker reports, is a success. */
  lemma SuccessExactly(result: Option<ReportedResult>, verification: Option<VerificationResult>,
                       exception: Option<ExceptionKind>, blockReason: FailureAttribution)
    ensures AttributeOutcome(result, verification, exception, blockReason).status.SuccessStatus? <==>
      && exception == None && result.Some? && !result.value.policyViolations && result.value.succeeded
      && (verification == None || verification.value.accepted)
  {
  }

  /** Nothing in the verdict points away from the worker: every failure is its own or a
      rejection of something present, or there is only a plain low confidence. */
  predicate PointsAtWorker(v: VerificationResult) {
    if v.failures == [] then
      && !v.confidence.InconclusiveConfidence? && !v.confidence.BlockedConfidence?
      && forall i | i in v.issues && i.tagged :: i.name !in ["file_exists", EVIDENCE, "integration_conflict"]
    else
      forall f | f in v.failures ::
        && (f.category.Worker? || f.category.DeterministicRejection?)
        && !(f.category.DeterministicRejection? && f.check in ["file_exists", "file_contains"] && f.missingFile)
  }

  /** Exactly what counts as a failure of the worker: an exception of no special kind, a
      result without violations that did not succeed, or a rejection that points at it. */
  lemma FailureExactly(result: Option<ReportedResult>, verification: Option<VerificationResult>,
                       exception: Option<ExceptionKind>, blockReason: FailureAttribution)
    ensures var a := AttributeOutcome(result, verification, exception, blockReason);
      a.status.FailedStatus? && !IsExcluded(a.attribution) <==>
        if exception.Some? then exception.value.OtherException?
        else
          && result.Some? && !result.value.policyViolations
          && (result.value.succeeded ==>
              verification.Some? && !verification.value.accepted && PointsAtWorker(verification.value))
  {
    if exception.None? && result.Some? && !result.value.policyViolations && result.value.succeeded
      && verification.Some? && !verification.value.accepted && verification.value.failures != []
    {
      StructuredFailure(verification.value);
    }
  }

  predicate LacksFile(v: VerificationResult) {
    exists f | f in v.failures ::
      f.category.DeterministicRejection? && f.check in ["file_exists", "file_contains"] && f.missingFile
  }

  /** Whom a rejected verdict with structured failures is put down to: an absent file to
      missing context before anything else, then policy, environment, conflict, context,
      contract and open judgement in this order, and the worker last. */
  lemma AttributionExactly(result: ReportedResult, v: VerificationResult, blockReason: FailureAttribution)
    requires result.succeeded && !result.policyViolations && !v.accepted && v.failures != []
    ensures var a := AttributeOutcome(Some(result), Some(v), None, blockReason);
      var has := (c: FailureCategory) => exists f :: f in v.failures && f.category == c;
      if LacksFile(v) then a == Attributed(BlockedStatus, MissingContextFault)
      else if has(PolicyPermission) then a == Attributed(BlockedStatus, PermissionFault)
      else if has(Environment) then a == Attributed(BlockedStatus, EnvironmentFault)
      else if has(IntegrationConflict) then a == Attributed(BlockedStatus, ConflictFault)
      else if has(MissingContext) then a == Attributed(BlockedStatus, MissingContextFault)
      else if has(Contract) then a == Attributed(BlockedStatus, DecompositionError)
      else if has(SemanticInconclusive) then a == Attributed(InconclusiveStatus, Unverified)
      else a == Attributed(FailedStatus, WorkerError)
  {
    assert LacksFile(v) <==> exists f | f in v.failures :: ReportsMissingFile(f);
  }

  /** What comes before any verdict: exceptions by their kind, then reported violations. */
  lemma EarlyAttribution(result: ReportedResult, verification: Option<VerificationResult>, e: ExceptionKind,
                         blockReason: FailureAttribution)
    ensures AttributeOutcome(Some(result), verification, Some(e), blockReason).attribution.PermissionFault?
        <==> e.PermissionException?
    ensures AttributeOutcome(Some(result), verification, Some(e), blockReason).attribution.MissingContextFault?
        <==> e.MissingFileException?
    ensures AttributeOutcome(Some(result), verification, Some(e), blockReason).attribution.EnvironmentFault?
        <==> e.OperatingSystemException?
    ensures result.policyViolations ==>
      AttributeOutcome(Some(result), verification, None, blockReason) == Attributed(BlockedStatus, PermissionFault)
  {
  }

  lemma StructuredFailure(v: VerificationResult)
    requires v.failures != []
    ensures ClassifyFailures(v.failures) == Some(Attributed(FailedStatus, WorkerError)) <==> PointsAtWorker(v)
    ensures ClassifyFailures(v.failures).Some?
    ensures !ClassifyFailures(v.failures).value.status.SuccessStatus?
    ensures ClassifyFailures(v.failures).value.status.FailedStatus?
      ==> ClassifyFailures(v.failures) == Some(Attributed(FailedStatus, WorkerError))
  {
    if !PointsAtWorker(v) {
      var f :| f in v.failures && !(
        && (f.category.Worker? || f.category.DeterministicRejection?)
        && !(f.category.DeterministicRejection? && f.check in ["file_exists", "file_contains"] && f.missingFile));
      assert HasCategory(v.failures, f.category) && (ReportsMissingFile(f) || !f.category.DeterministicRejection?);
    }
  }

  // ---------------------------------------------------------------------------
  // Profiles
  // ---------------------------------------------------------------------------

  datatype ExecutionOutcome = ExecutionOutcome(
    worker: Option<string>, result: Attributed, dimensions: seq<string>, tokens: nat, latency: nat)

  datatype Bucket = Bucket(success: nat, failure: nat, inconclusive: nat, excluded: nat, tokens: nat, latency: nat)

  const EMPTY := Bucket(0, 0, 0, 0, 0, 0)

  type Buckets = map<string, Bucket>

  function BucketOf(m: Buckets, d: string): Bucket {
    if d in m then m[d] else EMPTY
  }

  function Dimensions(o: ExecutionOutcome): seq<string> {
    if o.dimensions == [] then ["general"] else o.dimensions
  }

  /** One (outcome, dimension) pair: exactly one of the four counters moves. */
  function Counted(b: Bucket, o: ExecutionOutcome): Bucket {
    var c := b.(tokens := b.tokens + o.tokens, latency := b.latency + o.latency);
    if IsExcluded(o.result.attribution) then c.(excluded := c.excluded + 1)
    else if o.result.status.SuccessStatus? then c.(success := c.success + 1)
    else if o.result.status.FailedStatus? then c.(failure := c.failure + 1)
    else c.(inconclusive := c.inconclusive + 1)
  }

  function CountDimensions(m: Buckets, o: ExecutionOutcome, ds: seq<string>): Buckets {
    if ds == [] then m
    else
      var rest := CountDimensions(m, o, ds[..|ds| - 1]);
      rest[ds[|ds| - 1] := Counted(BucketOf(rest, ds[|ds| - 1]), o)]
  }

  function Tally(worker: string, outcomes: seq<ExecutionOutcome>): Buckets {
    if outcomes == [] then map[]
    else
      var rest, o := Tally(worker, outcomes[..|outcomes| - 1]), outcomes[|outcomes| - 1];
      if o.worker != Some(worker) then rest else CountDimensions(rest, o, Dimensions(o))
  }

  datatype Evidence = Evidence(dimension: string, counts: Bucket)

  /** The profile: one evidence entry per dimension met, sorted by dimension. */
  method BuildCapabilityProfile(worker: string, outcomes: seq<ExecutionOutcome>) returns (evidence: seq<Evidence>)
    ensures IsProfile(evidence, Tally(worker, outcomes))
  {
    var buckets: Buckets := map[];
    for i := 0 to |outcomes|
      invariant buckets == Tally(worker, outcomes[..i])
    {
      var o := outcomes[i];
      assert outcomes[..i + 1][..i] == outcomes[..i];
      if o.worker == Some(worker) {
        var dimensions := Dimensions(o);
        ghost var before := buckets;
        for j := 0 to |dimensions|
          invariant buckets == CountDimensions(before, o, dimensions[..j])
        {
          assert dimensions[..j + 1][..j] == dimensions[..j];
          buckets := buckets[dimensions[j] := Counted(BucketOf(buckets, dimensions[j]), o)];
        }
        assert dimensions[..|dimensions|] == dimensions;
      }
    }
    assert outcomes[..|outcomes|] == outcomes;
    var keys := SortedIds(buckets.Keys);
    evidence := seq(|keys|, i requires 0 <= i < |keys| => Evidence(keys[i], BucketOf(buckets, keys[i])));
    assert DimensionsOf(evidence) == keys by { DimensionsAre(evidence, keys); }
  }

  function DimensionsOf(evidence: seq<Evidence>): seq<string> {
    if evidence == [] then [] else DimensionsOf(evidence[..|evidence| - 1]) + [evidence[|evidence| - 1].dimension]
  }

  lemma {:induction false} DimensionsAre(evidence: seq<Evidence>, keys: seq<string>)
    requires |evidence| == |keys| && forall i | 0 <= i < |keys| :: evidence[i].dimension == keys[i]
    ensures DimensionsOf(evidence) == keys
    decreases |keys|
  {
    if keys != [] {
      DimensionsAre(evidence[..|keys| - 1], keys[..|keys| - 1]);
    }
  }

  ghost predicate IsProfile(evidence: seq<Evidence>, m: Buckets) {
    && Sorted(DimensionsOf(evidence))
    && (forall d :: d in DimensionsOf(evidence) <==> d in m)
    && forall e | e in evidence :: e.counts == BucketOf(m, e.dimension)
  }

  // ---------------------------------------------------------------------------
  // Conservation
  // ---------------------------------------------------------------------------

  datatype Counter = OfSuccess | OfFailure | OfInconclusive | OfExcluded | OfTokens | OfLatency

  function ValueOf(b: Bucket, k: Counter): nat {
    match k
    case OfSuccess => b.success
    case OfFailure => b.failure
    case OfInconclusive => b.inconclusive
    case OfExcluded => b.excluded
    case OfTokens => b.tokens
    case OfLatency => b.latency
  }

  /** What one (outcome, dimension) pair is worth to a counter. */
  function Worth(o: ExecutionOutcome, k: Counter): nat {
    var excluded := IsExcluded(o.result.attribution);
    match k
    case OfSuccess => if !excluded && o.result.status.SuccessStatus? then 1 else 0
    case OfFailure => if !excluded && o.result.status.FailedStatus? then 1 else 0
    case OfInconclusive =>
      if !excluded && (o.result.status.InconclusiveStatus? || o.result.status.BlockedStatus?) then 1 else 0
    case OfExcluded => if excluded then 1 else 0
    case OfTokens => o.tokens
    case OfLatency => o.latency
  }

  /** The worth of the pairs of one outcome that fall on `d`. */
  function WorthOn(ds: seq<string>, o: ExecutionOutcome, d: string, k: Counter): nat {
    if ds == [] then 0 else WorthOn(ds[..|ds| - 1], o, d, k) + if ds[|ds| - 1] == d then Worth(o, k) else 0
  }

  /** The worth of all pairs of the worker on `d`. */
  function WorthOfAll(worker: string, outcomes: seq<ExecutionOutcome>, d: string, k: Counter): nat {
    if outcomes == [] then 0
    else
      var o := outcomes[|outcomes| - 1];
      WorthOfAll(worker, outcomes[..|outcomes| - 1], d, k)
      + if o.worker == Some(worker) then WorthOn(Dimensions(o), o, d, k) else 0
  }

  function Occurrences(ds: seq<string>, d: string): nat {
    if ds == [] then 0 else Occurrences(ds[..|ds| - 1], d) + if ds[|ds| - 1] == d then 1 else 0
  }

  /** How many (outcome, dimension) pairs of the worker fall on `d`. */
  function Pairs(worker: string, outcomes: seq<ExecutionOutcome>, d: string): nat {
    if outcomes == [] then 0
    else
      var o := outcomes[|outcomes| - 1];
      Pairs(worker, outcomes[..|outcomes| - 1], d)
      + if o.worker == Some(worker) then Occurrences(Dimensions(o), d) else 0
  }

  lemma {:induction false} DimensionsCounted(m: Buckets, o: ExecutionOutcome, ds: seq<string>, d: string, k: Counter)
    ensures ValueOf(BucketOf(CountDimensions(m, o, ds), d), k) == ValueOf(BucketOf(m, d), k) + WorthOn(ds, o, d, k)
    decreases |ds|
  {
    if ds != [] {
      var init, e := ds[..|ds| - 1], ds[|ds| - 1];
      DimensionsCounted(m, o, init, d, k);
      PairCounted(BucketOf(CountDimensions(m, o, init), e), o, k);
    }
  }

  lemma PairCounted(b: Bucket, o: ExecutionOutcome, k: Counter)
    ensures ValueOf(Counted(b, o), k) == ValueOf(b, k) + Worth(o, k)
  {
  }

  /** Every counter of every dimension is exactly the worth of the worker's pairs:
      successes and failures are pairs of that status that are not excluded, and tokens
      and latency are summed. */
  lemma {:induction false} CountersAreExact(worker: string, outcomes: seq<ExecutionOutcome>, d: string, k: Counter)
    ensures ValueOf(BucketOf(Tally(worker, outcomes), d), k) == WorthOfAll(worker, outcomes, d, k)
    decreases |outcomes|
  {
    if outcomes != [] {
      var rest, o := outcomes[..|outcomes| - 1], outcomes[|outcomes| - 1];
      CountersAreExact(worker, rest, d, k);
      DimensionsCounted(Tally(worker, rest), o, Dimensions(o), d, k);
    }
  }

  lemma {:induction false} OneCounterPerPair(ds: seq<string>, o: ExecutionOutcome, d: string)
    ensures WorthOn(ds, o, d, OfSuccess) + WorthOn(ds, o, d, OfFailure) + WorthOn(ds, o, d, OfInconclusive)
            + WorthOn(ds, o, d, OfExcluded) == Occurrences(ds, d)
    decreases |ds|
  {
    if ds != [] { OneCounterPerPair(ds[..|ds| - 1], o, d); }
  }

  lemma {:induction false} CountersCoverPairs(worker: string, outcomes: seq<ExecutionOutcome>, d: string)
    ensures WorthOfAll(worker, outcomes, d, OfSuccess) + WorthOfAll(worker, outcomes, d, OfFailure)
            + WorthOfAll(worker, outcomes, d, OfInconclusive) + WorthOfAll(worker, outcomes, d, OfExcluded)
            == Pairs(worker, outcomes, d)
    decreases |outcomes|
  {
    if outcomes != [] {
      var o := outcomes[|outcomes| - 1];
      CountersCoverPairs(worker, outcomes[..|outcomes| - 1], d);
      OneCounterPerPair(Dimensions(o), o, d);
    }
  }

  /** Every pair is counted once: in every dimension the four counters add up to the
      number of (outcome, dimension) pairs. */
  lemma CountsAreConserved(worker: string, outcomes: seq<ExecutionOutcome>, d: string)
    ensures var b := BucketOf(Tally(worker, outcomes), d);
            b.success + b.failure + b.inconclusive + b.excluded == Pairs(worker, outcomes, d)
  {
    CountersAreExact(worker, outcomes, d, OfSuccess);
    CountersAreExact(worker, outcomes, d, OfFailure);
    CountersAreExact(worker, outcomes, d, OfInconclusive);
    CountersAreExact(worker, outcomes, d, OfExcluded);
    CountersCoverPairs(worker, outcomes, d);
  }

  // ---------------------------------------------------------------------------
  // Assignment
  // ---------------------------------------------------------------------------

  predicate Relevant(node: TaskNodeContract, e: Evidence) {
    node.softCapabilities == map[] || e.dimension in node.softCapabilities
  }

  function Successes(node: TaskNodeContract, evidence: seq<Evidence>): nat {
    if evidence == [] then 0
    else
      var e := evidence[|evidence| - 1];
      Successes(node, evidence[..|evidence| - 1]) + if Relevant(node, e) then e.counts.success else 0
  }

  function Samples(node: TaskNodeContract, evidence: seq<Evidence>): nat {
    if evidence == [] then 0
    else
      var e := evidence[|evidence| - 1];
      Samples(node, evidence[..|evidence| - 1]) + if Relevant(node, e) then e.counts.success + e.counts.failure else 0
  }

  datatype Signal = Signal(quality: real, samples: nat)

  function HistorySignal(node: TaskNodeContract, evidence: seq<Evidence>): Signal {
    var samples := Samples(node, evidence);
    Signal(if samples == 0 then 0.5 else Successes(node, evidence) as real / samples as real, samples)
  }

  // ---------------------------------------------------------------------------
  // What the history signal counts
  // ---------------------------------------------------------------------------

  /** A node without soft capabilities looks at every dimension. */
  predicate Matters(node: TaskNodeContract, d: string) {
    node.softCapabilities == map[] || d in node.softCapabilities
  }

  /** The worth of one outcome's pairs in the dimensions that matter. */
  function WorthThatMatters(node: TaskNodeContract, o: ExecutionOutcome, ds: seq<string>, k: Counter): nat {
    if ds == [] then 0
    else
      WorthThatMatters(node, o, ds[..|ds| - 1], k) + if Matters(node, ds[|ds| - 1]) then Worth(o, k) else 0
  }

  /** The dimensions an outcome is counted under; without any it counts as general. */
  function CountedUnder(o: ExecutionOutcome): seq<string> {
    if |o.dimensions| > 0 then o.dimensions else ["general"]
  }

  /** The worth of all of the worker's pairs in the dimensions that matter. */
  function AllThatMatters(worker: string, outcomes: seq<ExecutionOutcome>, node: TaskNodeContract, k: Counter): nat {
    if outcomes == [] then 0
    else
      var o := outcomes[|outcomes| - 1];
      AllThatMatters(worker, outcomes[..|outcomes| - 1], node, k)
      + if o.worker == Some(worker) then WorthThatMatters(node, o, CountedUnder(o), k) else 0
  }

  /** The same, dimension by dimension. */
  function ByDimension(worker: string, outcomes: seq<ExecutionOutcome>, node: TaskNodeContract, ds: seq<string>,
                       k: Counter): nat {
    if ds == [] then 0
    else
      var d := ds[|ds| - 1];
      ByDimension(worker, outcomes, node, ds[..|ds| - 1], k)
      + if Matters(node, d) then WorthOfAll(worker, outcomes, d, k) else 0
  }

  predicate Repeatless(ds: seq<string>) {
    forall i, j | 0 <= i < j < |ds| :: ds[i] != ds[j]
  }

  /** One outcome, dimension by dimension. */
  function OutcomeByDimension(node: TaskNodeContract, o: ExecutionOutcome, under: seq<string>, ds: seq<string>,
                              k: Counter): nat {
    if ds == [] then 0
    else
      var d := ds[|ds| - 1];
      OutcomeByDimension(node, o, under, ds[..|ds| - 1], k) + if Matters(node, d) then WorthOn(under, o, d, k) else 0
  }

  lemma {:induction false} NextOutcomeByDimension(worker: string, outcomes: seq<ExecutionOutcome>, o: ExecutionOutcome,
                                                  node: TaskNodeContract, ds: seq<string>, k: Counter)
    ensures ByDimension(worker, outcomes + [o], node, ds, k) == ByDimension(worker, outcomes, node, ds, k)
      + if o.worker == Some(worker) then OutcomeByDimension(node, o, Dimensions(o), ds, k) else 0
    decreases |ds|
  {
    if ds != [] {
      NextOutcomeByDimension(worker, outcomes, o, node, ds[..|ds| - 1], k);
      assert (outcomes + [o])[..|outcomes|] == outcomes;
    }
  }

  lemma {:induction false} NothingUnderNone(node: TaskNodeContract, o: ExecutionOutcome, ds: seq<string>, k: Counter)
    ensures OutcomeByDimension(node, o, [], ds, k) == 0
    decreases |ds|
  {
    if ds != [] { NothingUnderNone(node, o, ds[..|ds| - 1], k); }
  }

  /** One more pair adds its worth once, in its own dimension. */
  lemma {:induction false} NextPairByDimension(node: TaskNodeContract, o: ExecutionOutcome, under: seq<string>,
                                               e: string, ds: seq<string>, k: Counter)
    requires Repeatless(ds)
    ensures OutcomeByDimension(node, o, under + [e], ds, k) == OutcomeByDimension(node, o, under, ds, k)
      + if e in ds && Matters(node, e) then Worth(o, k) else 0
    decreases |ds|
  {
    if ds != [] {
      var init, d := ds[..|ds| - 1], ds[|ds| - 1];
      NextPairByDimension(node, o, under, e, init, k);
      NextWorthOn(under, e, o, d, k);
      InOnePart(ds, e);
    }
  }

  lemma NextWorthOn(under: seq<string>, e: string, o: ExecutionOutcome, d: string, k: Counter)
    ensures WorthOn(under + [e], o, d, k) == WorthOn(under, o, d, k) + if e == d then Worth(o, k) else 0
  {
    assert (under + [e])[..|under|] == under;
  }

  lemma InOnePart(ds: seq<string>, e: string)
    requires ds != [] && Repeatless(ds)
    ensures e in ds <==> e in ds[..|ds| - 1] || e == ds[|ds| - 1]
    ensures e in ds[..|ds| - 1] ==> e != ds[|ds| - 1]
  {
    var init := ds[..|ds| - 1];
    assert ds == init + [ds[|ds| - 1]];
    if e in init {
      var i :| 0 <= i < |init| && init[i] == e;
      assert ds[i] == e;
    }
  }

  lemma {:induction false} OutcomeMatters(node: TaskNodeContract, o: ExecutionOutcome, under: seq<string>,
                                          ds: seq<string>, k: Counter)
    requires Repeatless(ds) && forall d | d in under :: d in ds
    ensures OutcomeByDimension(node, o, under, ds, k) == WorthThatMatters(node, o, under, k)
    decreases |under|
  {
    if under == [] {
      NothingUnderNone(node, o, ds, k);
    } else {
      var init, e := under[..|under| - 1], under[|under| - 1];
      assert under == init + [e];
      OutcomeMatters(node, o, init, ds, k);
      NextPairByDimension(node, o, init, e, ds, k);
    }
  }

  lemma {:induction false} ByDimensionIsAll(worker: string, outcomes: seq<ExecutionOutcome>, node: TaskNodeContract,
                                            ds: seq<string>, k: Counter)
    requires Repeatless(ds)
    requires forall o, d | o in outcomes && o.worker == Some(worker) && d in CountedUnder(o) :: d in ds
    ensures ByDimension(worker, outcomes, node, ds, k) == AllThatMatters(worker, outcomes, node, k)
    decreases |outcomes|
  {
    if outcomes == [] {
      NothingCounted(worker, node, ds, k);
    } else {
      var rest, o := outcomes[..|outcomes| - 1], outcomes[|outcomes| - 1];
      assert outcomes == rest + [o] && o in outcomes;
      assert forall x | x in rest :: x in outcomes;
      ByDimensionIsAll(worker, rest, node, ds, k);
      NextOutcomeByDimension(worker, rest, o, node, ds, k);
      if o.worker == Some(worker) { OutcomeMatters(node, o, Dimensions(o), ds, k); }
    }
  }

  lemma {:induction false} NothingCounted(worker: string, node: TaskNodeContract, ds: seq<string>, k: Counter)
    ensures ByDimension(worker, [], node, ds, k) == 0
    decreases |ds|
  {
    if ds != [] { NothingCounted(worker, node, ds[..|ds| - 1], k); }
  }

  lemma {:induction false} SignalByDimension(worker: string, outcomes: seq<ExecutionOutcome>, node: TaskNodeContract,
                                             p: seq<Evidence>)
    requires forall e | e in p :: e.counts == BucketOf(Tally(worker, outcomes), e.dimension)
    ensures Successes(node, p) == ByDimension(worker, outcomes, node, DimensionsOf(p), OfSuccess)
    ensures Samples(node, p) == ByDimension(worker, outcomes, node, DimensionsOf(p), OfSuccess)
                                + ByDimension(worker, outcomes, node, DimensionsOf(p), OfFailure)
    decreases |p|
  {
    if p != [] {
      var init, e := p[..|p| - 1], p[|p| - 1];
      assert e in p && forall x | x in init :: x in p;
      SignalByDimension(worker, outcomes, node, init);
      DimensionsSplit(p);
      CountersAreExact(worker, outcomes, e.dimension, OfSuccess);
      CountersAreExact(worker, outcomes, e.dimension, OfFailure);
      NextDimension(worker, outcomes, node, DimensionsOf(init), e.dimension, OfSuccess);
      NextDimension(worker, outcomes, node, DimensionsOf(init), e.dimension, OfFailure);
    }
  }

  lemma DimensionsSplit(p: seq<Evidence>)
    requires p != []
    ensures DimensionsOf(p) == DimensionsOf(p[..|p| - 1]) + [p[|p| - 1].dimension]
  {
  }

  lemma NextDimension(worker: string, outcomes: seq<ExecutionOutcome>, node: TaskNodeContract, ds: seq<string>,
                      d: string, k: Counter)
    ensures ByDimension(worker, outcomes, node, ds + [d], k)
         == ByDimension(worker, outcomes, node, ds, k)
            + if Matters(node, d) then WorthOfAll(worker, outcomes, d, k) else 0
  {
    assert (ds + [d])[..|ds|] == ds;
  }

  lemma {:induction false} CountedUnderAll(m: Buckets, o: ExecutionOutcome, ds: seq<string>)
    ensures CountDimensions(m, o, ds).Keys == m.Keys + set d | d in ds
    decreases |ds|
  {
    if ds != [] {
      CountedUnderAll(m, o, ds[..|ds| - 1]);
      assert ds == ds[..|ds| - 1] + [ds[|ds| - 1]];
    }
  }

  /** A profile has exactly the dimensions the worker's outcomes are counted under. */
  lemma {:induction false} ProfiledDimensions(worker: string, outcomes: seq<ExecutionOutcome>)
    ensures forall d :: d in Tally(worker, outcomes)
                        <==> exists o | o in outcomes :: o.worker == Some(worker) && d in CountedUnder(o)
    decreases |outcomes|
  {
    if outcomes != [] {
      var rest, o := outcomes[..|outcomes| - 1], outcomes[|outcomes| - 1];
      ProfiledDimensions(worker, rest);
      CountedUnderAll(Tally(worker, rest), o, Dimensions(o));
      assert outcomes == rest + [o];
      assert forall x :: x in outcomes <==> x in rest || x == o;
    }
  }

  /** The signal of a worker: its successes and its successes and failures, over the pairs
      in dimensions that matter to the node, and one half without any. */
  function SignalOf(successes: nat, failures: nat): Signal {
    var samples := successes + failures;
    Signal(if samples == 0 then 0.5 else successes as real / samples as real, samples)
  }

  lemma ProfileCovers(worker: string, outcomes: seq<ExecutionOutcome>, ds: seq<string>)
    requires forall d | d in Tally(worker, outcomes) :: d in ds
    ensures forall o, d | o in outcomes && o.worker == Some(worker) && d in CountedUnder(o) :: d in ds
  {
    ProfiledDimensions(worker, outcomes);
  }

  lemma CountsThatMatter(worker: string, outcomes: seq<ExecutionOutcome>, node: TaskNodeContract, p: seq<Evidence>,
                         ds: seq<string>)
    requires ds == DimensionsOf(p) && Repeatless(ds)
    requires forall o, d | o in outcomes && o.worker == Some(worker) && d in CountedUnder(o) :: d in ds
    requires forall e | e in p :: e.counts == BucketOf(Tally(worker, outcomes), e.dimension)
    ensures Successes(node, p) == AllThatMatters(worker, outcomes, node, OfSuccess)
    ensures Samples(node, p) == Successes(node, p) + AllThatMatters(worker, outcomes, node, OfFailure)
  {
    SignalByDimension(worker, outcomes, node, p);
    ByDimensionIsAll(worker, outcomes, node, ds, OfSuccess);
    ByDimensionIsAll(worker, outcomes, node, ds, OfFailure);
  }

  lemma SignalIsExact(worker: string, outcomes: seq<ExecutionOutcome>, node: TaskNodeContract, p: seq<Evidence>)
    requires IsProfile(p, Tally(worker, outcomes))
    ensures HistorySignal(node, p) == SignalOf(AllThatMatters(worker, outcomes, node, OfSuccess),
                                               AllThatMatters(worker, outcomes, node, OfFailure))
  {
    ProfileCovers(worker, outcomes, DimensionsOf(p));
    CountsThatMatter(worker, outcomes, node, p, DimensionsOf(p));
  }

  /** An eligible worker's score apart from its history. */
  datatype Candidate = Candidate(eligible: bool, base: real)

  /** Weighted quality minus weighted uncertainty, on top of the other terms. */
  function Score(c: Candidate, s: Signal): real {
    c.base + 0.20 * s.quality - 0.10 * (1.0 / (1.0 + s.samples as real))
  }

  /** A further success always raises the score. */
  lemma SuccessRaises(c: Candidate, successes: nat, failures: nat)
    ensures Score(c, SignalOf(successes + 1, failures)) > Score(c, SignalOf(successes, failures))
  {
    var s, n := successes as real, (successes + failures) as real;
    if successes + failures > 0 { QualityRises(s, n); }
    UncertaintyFalls(n);
  }

  /** A further failure lowers the score exactly when the worker has a success, or no
      history at all: one that only ever failed gains by failing again, for its quality
      cannot fall and the uncertainty does. */
  lemma FailureLowersExactly(c: Candidate, successes: nat, failures: nat)
    ensures Score(c, SignalOf(successes, failures + 1)) < Score(c, SignalOf(successes, failures))
        <==> successes > 0 || failures == 0
  {
    var s, n := successes as real, (successes + failures) as real;
    var q, q' := SignalOf(successes, failures).quality, SignalOf(successes, failures + 1).quality;
    var u, u' := 1.0 / (1.0 + n), 1.0 / (1.0 + (n + 1.0));
    assert q' == s / (n + 1.0) && SignalOf(successes, failures + 1).samples as real == n + 1.0;
    assert Score(c, SignalOf(successes, failures)) == c.base + 0.20 * q - 0.10 * u;
    assert Score(c, SignalOf(successes, failures + 1)) == c.base + 0.20 * q' - 0.10 * u';
    if successes > 0 {
      assert q == s / n;
      QualityFallsFaster(s, n);
    } else if failures > 0 {
      assert q == 0.0 / n == 0.0 && q' == 0.0 / (n + 1.0) == 0.0;
      UncertaintyFalls(n);
    } else {
      assert q == 0.5 && q' == 0.0 && u == 1.0 && u' == 0.5;
    }
  }

  lemma NextThatMatters(worker: string, outcomes: seq<ExecutionOutcome>, o: ExecutionOutcome, node: TaskNodeContract,
                        d: string, k: Counter)
    requires o.worker == Some(worker) && CountedUnder(o) == [d] && Matters(node, d)
    ensures AllThatMatters(worker, outcomes + [o], node, k) == AllThatMatters(worker, outcomes, node, k) + Worth(o, k)
  {
    assert (outcomes + [o])[..|outcomes|] == outcomes && [d][..0] == [];
    assert WorthThatMatters(node, o, [d], k) == WorthThatMatters(node, o, [], k) + Worth(o, k);
  }

  /** A success raises the score; a failure lowers it unless the worker `onlyFailed`. */
  predicate Moves(c: Candidate, before: Signal, after: Signal, success: bool, onlyFailed: bool) {
    if success then Score(c, after) > Score(c, before) else Score(c, after) < Score(c, before) <==> !onlyFailed
  }

  /** So one more outcome in a dimension that matters: a success raises the score, and a
      failure of the worker lowers it unless the worker has only ever failed. */
  lemma FurtherOutcome(worker: string, outcomes: seq<ExecutionOutcome>, o: ExecutionOutcome, d: string,
                       node: TaskNodeContract, c: Candidate, p: seq<Evidence>, p': seq<Evidence>)
    requires o.worker == Some(worker) && CountedUnder(o) == [d] && Matters(node, d)
    requires IsProfile(p, Tally(worker, outcomes)) && IsProfile(p', Tally(worker, outcomes + [o]))
    requires !IsExcluded(o.result.attribution)
    requires o.result.status.SuccessStatus? || o.result.status.FailedStatus?
    ensures Moves(c, HistorySignal(node, p), HistorySignal(node, p'), o.result.status.SuccessStatus?,
                  Samples(node, p) > 0 && Successes(node, p) == 0)
  {
    CountsAround(worker, outcomes, o, d, node, p, p');
    SignalOfCounts(node, p);
    SignalOfCounts(node, p');
    var s, s' := Successes(node, p), Successes(node, p');
    ScoreMoves(c, s, Samples(node, p) - s, s', Samples(node, p') - s', o.result.status.SuccessStatus?);
  }

  lemma CountsAround(worker: string, outcomes: seq<ExecutionOutcome>, o: ExecutionOutcome, d: string,
                     node: TaskNodeContract, p: seq<Evidence>, p': seq<Evidence>)
    requires o.worker == Some(worker) && CountedUnder(o) == [d] && Matters(node, d)
    requires IsProfile(p, Tally(worker, outcomes)) && IsProfile(p', Tally(worker, outcomes + [o]))
    ensures Successes(node, p') == Successes(node, p) + Worth(o, OfSuccess)
    ensures Samples(node, p') == Samples(node, p) + Worth(o, OfSuccess) + Worth(o, OfFailure)
  {
    ProfileCovers(worker, outcomes, DimensionsOf(p));
    CountsThatMatter(worker, outcomes, node, p, DimensionsOf(p));
    ProfileCovers(worker, outcomes + [o], DimensionsOf(p'));
    CountsThatMatter(worker, outcomes + [o], node, p', DimensionsOf(p'));
    NextThatMatters(worker, outcomes, o, node, d, OfSuccess);
    NextThatMatters(worker, outcomes, o, node, d, OfFailure);
  }

  lemma {:induction false} SignalOfCounts(node: TaskNodeContract, p: seq<Evidence>)
    ensures Samples(node, p) >= Successes(node, p)
    ensures HistorySignal(node, p) == SignalOf(Successes(node, p), Samples(node, p) - Successes(node, p))
    decreases |p|
  {
    if p != [] { SignalOfCounts(node, p[..|p| - 1]); }
  }

  lemma ScoreMoves(c: Candidate, successes: nat, failures: nat, successes': nat, failures': nat, success: bool)
    requires successes' == successes + (if success then 1 else 0)
    requires failures' == failures + (if success then 0 else 1)
    ensures Moves(c, SignalOf(successes, failures), SignalOf(successes', failures'), success,
                  successes + failures > 0 && successes == 0)
  {
    SuccessRaises(c, successes, failures);
    FailureLowersExactly(c, successes, failures);
  }

  lemma QualityRises(s: real, n: real)
    requires 0.0 <= s <= n && n > 0.0
    ensures (s + 1.0) / (n + 1.0) >= s / n
  {
    var q, q' := s / n, (s + 1.0) / (n + 1.0);
    TimesDivisor(s, n);
    TimesDivisor(s + 1.0, n + 1.0);
    Rises(q, q', s, n);
  }

  lemma Rises(q: real, q': real, s: real, n: real)
    requires 0.0 <= s <= n && n > 0.0 && q * n == s && q' * (n + 1.0) == s + 1.0
    ensures q' >= q
  {
    if q > 1.0 { Scaled(1.0, q, n); }
    assert q * (n + 1.0) == q * n + q <= q' * (n + 1.0);
    if q > q' { Scaled(q', q, n + 1.0); }
  }

  lemma UncertaintyFalls(n: real)
    requires n >= 0.0
    ensures 1.0 / (1.0 + (n + 1.0)) < 1.0 / (1.0 + n)
  {
    var u, u' := 1.0 / (1.0 + n), 1.0 / (1.0 + (n + 1.0));
    TimesDivisor(1.0, 1.0 + n);
    TimesDivisor(1.0, 1.0 + (n + 1.0));
    PartLost(u, u', 1.0, 1.0 + n);
    if u' >= u { Scaled(u, u', 1.0 + n); }
  }

  lemma QualityFallsFaster(s: real, n: real)
    requires 1.0 <= s <= n
    ensures 0.20 * (s / n) - 0.20 * (s / (n + 1.0)) > 0.10 * (1.0 / (1.0 + n)) - 0.10 * (1.0 / (1.0 + (n + 1.0)))
  {
    var q, q', u, u' := s / n, s / (n + 1.0), 1.0 / (1.0 + n), 1.0 / (1.0 + (n + 1.0));
    TimesDivisor(s, n);
    TimesDivisor(s, n + 1.0);
    TimesDivisor(1.0, 1.0 + n);
    TimesDivisor(1.0, 1.0 + (n + 1.0));
    FallsFaster(q, q', u, u', s, n);
  }

  lemma FallsFaster(q: real, q': real, u: real, u': real, s: real, n: real)
    requires 1.0 <= s <= n
    requires q * n == s && q' * (n + 1.0) == s && u * (1.0 + n) == 1.0 && u' * (1.0 + (n + 1.0)) == 1.0
    ensures 0.20 * q - 0.20 * q' > 0.10 * u - 0.10 * u'
  {
    PartLost(q, q', s, n);
    PartLost(u, u', 1.0, 1.0 + n);
    if u' <= 0.0 { Scaled(u', 0.0, 1.0 + (n + 1.0)); }
    if q <= u' { Scaled(q, u', n); }
    Grows(u - u', q - q', 1.0 + n);
    if u - u' <= 0.0 { Scaled(u - u', 0.0, 1.0 + n); }
  }

  lemma TimesDivisor(x: real, n: real)
    requires n > 0.0
    ensures (x / n) * n == x
  {
  }

  lemma Scaled(x: real, y: real, n: real)
    requires n > 0.0 && x <= y
    ensures x * n <= y * n && (x < y ==> x * n < y * n)
  {
    assert (y - x) * n >= 0.0 && (x < y ==> (y - x) * n > 0.0);
  }

  lemma Grows(x: real, y: real, n: real)
    requires n > 0.0 && x * n < y * n
    ensures x < y
  {
    if y <= x { Scaled(y, x, n); }
  }

  /** What a quotient loses when its divisor grows by one. */
  lemma PartLost(q: real, q': real, x: real, n: real)
    requires q * n == x && q' * (n + 1.0) == x
    ensures (q - q') * (n + 1.0) == q
  {
    assert (q - q') * (n + 1.0) == q * (n + 1.0) - q' * (n + 1.0) && q * (n + 1.0) == q * n + q;
  }

  predicate Ranked(candidates: map<string, Candidate>, signals: map<string, Signal>, a: string, b: string)
    requires a in candidates && b in candidates && a in signals && b in signals
  {
    var x, y := Score(candidates[a], signals[a]), Score(candidates[b], signals[b]);
    x > y || (x == y && LexLeq(a, b))
  }

  ghost predicate IsBest(candidates: map<string, Candidate>, signals: map<string, Signal>, w: string)
    requires candidates.Keys <= signals.Keys
  {
    w in candidates && candidates[w].eligible
    && forall v | v in candidates && candidates[v].eligible :: Ranked(candidates, signals, w, v)
  }

  /** The highest score wins, the smaller id on a tie; raises when nobody is eligible. */
  method Assign(candidates: map<string, Candidate>, signals: map<string, Signal>) returns (chosen: Option<string>)
    requires candidates.Keys <= signals.Keys
    ensures chosen.None? <==> forall w | w in candidates :: !candidates[w].eligible
    ensures chosen.Some? ==> IsBest(candidates, signals, chosen.value)
    ensures chosen.Some? ==>
      forall v | v in candidates && candidates[v].eligible ::
        var best, other := Score(candidates[chosen.value], signals[chosen.value]), Score(candidates[v], signals[v]);
        other < best || (other == best && LexLeq(chosen.value, v))
  {
    chosen := None;
    var todo := candidates.Keys;
    while todo != {}
      invariant todo <= candidates.Keys
      invariant chosen.None? <==> forall v | v in candidates && v !in todo :: !candidates[v].eligible
      invariant chosen.Some? ==> chosen.value in candidates && candidates[chosen.value].eligible
      invariant chosen.Some? ==>
        forall v | v in candidates && v !in todo && candidates[v].eligible ::
          Ranked(candidates, signals, chosen.value, v)
    {
      var w :| w in todo;
      todo := todo - {w};
      if candidates[w].eligible {
        LexTotal(w, w);
        if chosen.None? {
          chosen := Some(w);
        } else {
          LexTotal(w, chosen.value);
          if !Ranked(candidates, signals, chosen.value, w) {
            forall v | v in candidates && v !in todo && candidates[v].eligible
              ensures Ranked(candidates, signals, w, v)
            {
              if v != w {
                RankedTransitive(candidates, signals, w, chosen.value, v);
              }
            }
            chosen := Some(w);
          }
        }
      }
    }
  }

  lemma RankedTransitive(candidates: map<string, Candidate>, signals: map<string, Signal>,
                         a: string, b: string, c: string)
    requires candidates.Keys <= signals.Keys && a in candidates && b in candidates && c in candidates
    requires Ranked(candidates, signals, a, b) && Ranked(candidates, signals, b, c)
    ensures Ranked(candidates, signals, a, c)
  {
    if LexLeq(a, b) && LexLeq(b, c) { LexTransitive(a, b, c); }
  }

  lemma BestIsUnique(candidates: map<string, Candidate>, signals: map<string, Signal>, a: string, b: string)
    requires candidates.Keys <= signals.Keys && IsBest(candidates, signals, a) && IsBest(candidates, signals, b)
    ensures a == b
  {
    LexTotal(a, b);
  }

  // ---------------------------------------------------------------------------
  // Blameless failures
  // ---------------------------------------------------------------------------

  predicate IsBlameless(c: FailureCategory) {
    c.PolicyPermission? || c.Environment? || c.IntegrationConflict? || c.MissingContext? || c.Contract?
  }

  /** A verdict that names a blameless failure is attributed outside the worker. */
  lemma BlamelessIsExcluded(result: ReportedResult, v: VerificationResult, blockReason: FailureAttribution)
    requires result.succeeded && !v.accepted && exists f | f in v.failures :: IsBlameless(f.category)
    ensures IsExcluded(AttributeOutcome(Some(result), Some(v), None, blockReason).attribution)
  {
    var f :| f in v.failures && IsBlameless(f.category);
    assert HasCategory(v.failures, f.category);
  }

  lemma {:induction false} ExcludedMovesNothing(m: Buckets, o: ExecutionOutcome, ds: seq<string>, d: string)
    requires IsExcluded(o.result.attribution)
    ensures BucketOf(CountDimensions(m, o, ds), d).success == BucketOf(m, d).success
    ensures BucketOf(CountDimensions(m, o, ds), d).failure == BucketOf(m, d).failure
    ensures d in m ==> d in CountDimensions(m, o, ds)
    decreases |ds|
  {
    if ds != [] { ExcludedMovesNothing(m, o, ds[..|ds| - 1], d); }
  }

  /** Same counts of successes and failures in every dimension. */
  ghost predicate SameCounts(m: Buckets, m': Buckets) {
    && m.Keys <= m'.Keys
    && forall d ::
         BucketOf(m, d).success == BucketOf(m', d).success && BucketOf(m, d).failure == BucketOf(m', d).failure
  }

  lemma {:induction false} SignalDependsOnCounts(node: TaskNodeContract, p: seq<Evidence>, p': seq<Evidence>,
                                                 m: Buckets, m': Buckets)
    requires IsSorted(p) && IsSorted(p') && SameCounts(m, m')
    requires forall e | e in p :: e.counts == BucketOf(m, e.dimension)
    requires forall e | e in p' :: e.counts == BucketOf(m', e.dimension)
    requires forall d | d in DimensionsOf(p) :: d in DimensionsOf(p')
    requires forall d | d in DimensionsOf(p') && d !in DimensionsOf(p) ::
               BucketOf(m, d).success == BucketOf(m, d).failure == 0
    ensures Successes(node, p) == Successes(node, p') && Samples(node, p) == Samples(node, p')
    decreases |p'|
  {
    if p' == [] {
      if p != [] { LastDimension(p); }
    } else {
      var last := p'[|p'| - 1];
      var init' := p'[..|p'| - 1];
      LastDimension(p');
      assert last in p';
      if last.dimension in DimensionsOf(p) {
        LastOfSubsequence(p, p');
        LastDimension(p);
        assert p[|p| - 1] in p;
        var init := p[..|p| - 1];
        SignalDependsOnCounts(node, init, init', m, m');
      } else {
        SignalDependsOnCounts(node, p, init', m, m');
      }
    }
  }

  ghost predicate IsSorted(p: seq<Evidence>) {
    Sorted(DimensionsOf(p))
  }

  /** The last entry: its dimension is last, and no other entry has it. */
  lemma LastDimension(p: seq<Evidence>)
    requires p != [] && IsSorted(p)
    ensures var init, last := p[..|p| - 1], p[|p| - 1];
      && IsSorted(init)
      && last.dimension !in DimensionsOf(init)
      && (forall d :: d in DimensionsOf(p) <==> d == last.dimension || d in DimensionsOf(init))
      && (forall d | d in DimensionsOf(init) :: LexLeq(d, last.dimension))
      && (forall e | e in init :: e in p)
  {
    var init, last := p[..|p| - 1], p[|p| - 1];
    var ds, di := DimensionsOf(p), DimensionsOf(init);
    assert ds == di + [last.dimension];
    forall i, j | 0 <= i < j < |di| ensures di[i] != di[j] && LexLeq(di[i], di[j]) {
      assert ds[i] == di[i] && ds[j] == di[j];
    }
    forall d | d in di ensures d != last.dimension && LexLeq(d, last.dimension) {
      var i :| 0 <= i < |di| && di[i] == d;
      assert ds[i] == d && ds[|di|] == last.dimension;
    }
  }

  /** When the larger profile's last dimension is in the smaller one, it is last there too. */
  lemma LastOfSubsequence(p: seq<Evidence>, p': seq<Evidence>)
    requires IsSorted(p) && IsSorted(p') && p' != []
    requires forall d | d in DimensionsOf(p) :: d in DimensionsOf(p')
    requires p'[|p'| - 1].dimension in DimensionsOf(p)
    ensures p != [] && p[|p| - 1].dimension == p'[|p'| - 1].dimension
  {
    LastDimension(p');
    var top := p'[|p'| - 1].dimension;
    LastDimension(p);
    var mine := p[|p| - 1].dimension;
    assert mine in DimensionsOf(p);
    LexTotal(mine, top);
  }

  /** Appending a blameless outcome changes no success or failure count and leaves
      the history signal, hence the assignment, as it was. */
  lemma BlamelessFailureKeepsScore(worker: string, outcomes: seq<ExecutionOutcome>,
                                   result: ReportedResult, v: VerificationResult,
                                   blockReason: FailureAttribution, o: ExecutionOutcome, node: TaskNodeContract,
                                   p: seq<Evidence>, p': seq<Evidence>)
    requires result.succeeded && !v.accepted && exists f | f in v.failures :: IsBlameless(f.category)
    requires o.result == AttributeOutcome(Some(result), Some(v), None, blockReason)
    requires IsProfile(p, Tally(worker, outcomes)) && IsProfile(p', Tally(worker, outcomes + [o]))
    ensures SameCounts(Tally(worker, outcomes), Tally(worker, outcomes + [o]))
    ensures HistorySignal(node, p) == HistorySignal(node, p')
  {
    BlamelessIsExcluded(result, v, blockReason);
    var m, m' := Tally(worker, outcomes), Tally(worker, outcomes + [o]);
    assert (outcomes + [o])[..|outcomes|] == outcomes;
    forall d
      ensures BucketOf(m, d).success == BucketOf(m', d).success
      ensures BucketOf(m, d).failure == BucketOf(m', d).failure && (d in m ==> d in m')
    {
      ExcludedMovesNothing(m, o, Dimensions(o), d);
    }
    SignalDependsOnCounts(node, p, p', m, m');
  }

  /** With equal signals the same worker is assigned. */
  lemma AssignmentFollowsSignals(candidates: map<string, Candidate>, signals: map<string, Signal>,
                                 signals': map<string, Signal>, a: string, b: string)
    requires candidates.Keys <= signals.Keys && candidates.Keys <= signals'.Keys
    requires forall w | w in candidates :: signals[w] == signals'[w]
    requires IsBest(candidates, signals, a) && IsBest(candidates, signals', b)
    ensures a == b
  {
    assert IsBest(candidates, signals, b) by {
      forall v | v in candidates && candidates[v].eligible ensures Ranked(candidates, signals, b, v) {
        assert Ranked(candidates, signals', b, v);
      }
    }
    BestIsUnique(candidates, signals, a, b);
  }
}
