/** The task, event and inbox tables of asynchronous tasks: a state machine over
    the store's operations, and the class that updates the tables in place. */
module Inbox {
  datatype CallbackStatus = NotRequested | Queued | PendingCallback | CallbackExecuted | CallbackFailed | Acknowledged

  datatype Event = Event(task: string, key: string, kind: string, status: CallbackStatus)

  datatype Row = Row(event: nat, task: string, acknowledged: bool)

  /** Row ids are positions: nothing is ever deleted. */
  datatype Tables = Tables(tasks: map<string, string>, events: seq<Event>, inbox: seq<Row>)

  datatype Operation =
    | Create(task: string)
    | Claim(task: string)
    | Update(task: string, status: string)
    | Record(task: string, key: string, kind: string, request: bool)
    | AcknowledgeRow(id: nat)
    | AcknowledgeAll(task: string)

  const PENDING := "pending"
  const RUNNING := "running"
  const EMPTY := Tables(map[], [], [])

  // ---------------------------------------------------------------------------
  // What each operation makes of the tables
  // ---------------------------------------------------------------------------

  predicate Keyed(e: Event, task: string, key: string) {
    e.task == task && e.key == key
  }

  /** Where the event with that key is; the length of the table when there is none. */
  function FindEvent(events: seq<Event>, task: string, key: string): (i: nat)
    ensures i <= |events|
    ensures i < |events| ==> Keyed(events[i], task, key)
    ensures i == |events| ==> forall j | 0 <= j < |events| :: !Keyed(events[j], task, key)
  {
    if events == [] then 0
    else if Keyed(events[|events| - 1], task, key) then |events| - 1
    else
      var i := FindEvent(events[..|events| - 1], task, key);
      if i == |events| - 1 then |events| else i
  }

  function FindRow(inbox: seq<Row>, event: nat): (r: nat)
    ensures r <= |inbox|
    ensures r < |inbox| ==> inbox[r].event == event
    ensures r == |inbox| ==> forall j | 0 <= j < |inbox| :: inbox[j].event != event
  {
    if inbox == [] then 0
    else if inbox[|inbox| - 1].event == event then |inbox| - 1
    else
      var r := FindRow(inbox[..|inbox| - 1], event);
      if r == |inbox| - 1 then |inbox| else r
  }

  predicate HasRow(t: Tables, event: nat) {
    FindRow(t.inbox, event) < |t.inbox|
  }

  /** An event is inserted unless its key exists; the inbox row unless its event has one. */
  function Recorded(t: Tables, task: string, key: string, kind: string, request: bool): Tables {
    var i := FindEvent(t.events, task, key);
    Tables(
      t.tasks,
      if i < |t.events| then t.events
      else t.events + [Event(task, key, kind, if request then Queued else NotRequested)],
      if request && !HasRow(t, i) then t.inbox + [Row(i, task, false)] else t.inbox)
  }

  predicate IsOpen(s: CallbackStatus) {
    s.Queued? || s.PendingCallback? || s.CallbackExecuted? || s.CallbackFailed?
  }

  function RowAcknowledged(t: Tables, id: nat): Tables {
    if id >= |t.inbox| then t
    else
      var e := t.inbox[id].event;
      t.(inbox := t.inbox[id := t.inbox[id].(acknowledged := true)],
         events :=
           if e < |t.events| && IsOpen(t.events[e].status) then t.events[e := t.events[e].(status := Acknowledged)]
           else t.events)
  }

  predicate IsUnread(r: Row, task: string) {
    r.task == task && !r.acknowledged
  }

  /** Is `event` named by an unread row of the task? */
  predicate Waiting(inbox: seq<Row>, task: string, event: nat) {
    exists r | r in inbox :: IsUnread(r, task) && r.event == event
  }

  function Read(r: Row, task: string): Row {
    if IsUnread(r, task) then r.(acknowledged := true) else r
  }

  function Cleared(e: Event, waiting: bool): Event {
    if waiting then e.(status := Acknowledged) else e
  }

  function AllAcknowledged(t: Tables, task: string): Tables {
    t.(inbox := seq(|t.inbox|, r requires 0 <= r < |t.inbox| => Read(t.inbox[r], task)),
       events := seq(|t.events|, e requires 0 <= e < |t.events| => Cleared(t.events[e], Waiting(t.inbox, task, e))))
  }

  function Apply(t: Tables, op: Operation): Tables {
    match op
    case Create(task) => if task in t.tasks then t else t.(tasks := t.tasks[task := PENDING])
    case Claim(task) => if Claimable(t, task) then t.(tasks := t.tasks[task := RUNNING]) else t
    case Update(task, status) => if task in t.tasks then t.(tasks := t.tasks[task := status]) else t
    case Record(task, key, kind, request) => Recorded(t, task, key, kind, request)
    case AcknowledgeRow(id) => RowAcknowledged(t, id)
    case AcknowledgeAll(task) => AllAcknowledged(t, task)
  }

  function Run(t: Tables, ops: seq<Operation>): Tables {
    if ops == [] then t else Apply(Run(t, ops[..|ops| - 1]), ops[|ops| - 1])
  }

  predicate Claimable(t: Tables, task: string) {
    task in t.tasks && t.tasks[task] == PENDING
  }

  // ---------------------------------------------------------------------------
  // One inbox row per event
  // ---------------------------------------------------------------------------

  ghost predicate Consistent(t: Tables) {
    && (forall i, j | 0 <= i < j < |t.events| :: !Keyed(t.events[j], t.events[i].task, t.events[i].key))
    && (forall r | 0 <= r < |t.inbox| ::
          t.inbox[r].event < |t.events| && t.events[t.inbox[r].event].task == t.inbox[r].task)
    && (forall r, s | 0 <= r < s < |t.inbox| :: t.inbox[r].event != t.inbox[s].event)
  }

  lemma RecordKeepsConsistent(t: Tables, task: string, key: string, kind: string, request: bool)
    requires Consistent(t)
    ensures Consistent(Recorded(t, task, key, kind, request))
  {
    var i := FindEvent(t.events, task, key);
    var events := Recorded(t, task, key, kind, request).events;
    if i == |t.events| { EventInserted(t, events[i]); }
    if request && !HasRow(t, i) { RowInserted(t.(events := events), i); }
  }

  lemma EventInserted(t: Tables, e: Event)
    requires Consistent(t) && FindEvent(t.events, e.task, e.key) == |t.events|
    ensures Consistent(t.(events := t.events + [e]))
  {
    var events := t.events + [e];
    forall i, j | 0 <= i < j < |events| ensures !Keyed(events[j], events[i].task, events[i].key) {
      if j == |t.events| { assert !Keyed(t.events[i], e.task, e.key); }
    }
  }

  lemma RowInserted(t: Tables, i: nat)
    requires Consistent(t) && i < |t.events| && !HasRow(t, i)
    ensures Consistent(t.(inbox := t.inbox + [Row(i, t.events[i].task, false)]))
  {
    var inbox := t.inbox + [Row(i, t.events[i].task, false)];
    forall r, s | 0 <= r < s < |inbox| ensures inbox[r].event != inbox[s].event {
      if s == |t.inbox| { assert t.inbox[r].event != i; }
    }
  }

  lemma RowKeepsConsistent(t: Tables, id: nat)
    requires Consistent(t)
    ensures Consistent(RowAcknowledged(t, id))
  {
    var t' := RowAcknowledged(t, id);
    assert forall e | 0 <= e < |t.events| :: Keyed(t'.events[e], t.events[e].task, t.events[e].key);
    assert forall r | 0 <= r < |t.inbox| ::
        t'.inbox[r].event == t.inbox[r].event && t'.inbox[r].task == t.inbox[r].task;
  }

  lemma AllKeepConsistent(t: Tables, task: string)
    requires Consistent(t)
    ensures Consistent(AllAcknowledged(t, task))
  {
    var t' := AllAcknowledged(t, task);
    assert forall e | 0 <= e < |t.events| :: Keyed(t'.events[e], t.events[e].task, t.events[e].key);
    assert forall r | 0 <= r < |t.inbox| ::
        t'.inbox[r].event == t.inbox[r].event && t'.inbox[r].task == t.inbox[r].task;
  }

  lemma StepKeepsConsistent(t: Tables, op: Operation)
    requires Consistent(t)
    ensures Consistent(Apply(t, op))
  {
    match op
    case Record(task, key, kind, request) => RecordKeepsConsistent(t, task, key, kind, request);
    case AcknowledgeRow(id) => RowKeepsConsistent(t, id);
    case AcknowledgeAll(task) => AllKeepConsistent(t, task);
    case _ =>
  }

  /** At every reachable state keys are unique and each event has at most one inbox row. */
  lemma {:induction false} RunKeepsConsistent(ops: seq<Operation>)
    ensures Consistent(Run(EMPTY, ops))
    decreases |ops|
  {
    if ops != [] {
      RunKeepsConsistent(ops[..|ops| - 1]);
      StepKeepsConsistent(Run(EMPTY, ops[..|ops| - 1]), ops[|ops| - 1]);
    }
  }

  // ---------------------------------------------------------------------------
  // Agreement of events and inbox rows
  // ---------------------------------------------------------------------------

  /** What the inbox says of an event. */
  function InboxStatus(inbox: seq<Row>, event: nat): CallbackStatus {
    var r := FindRow(inbox, event);
    if r == |inbox| then NotRequested else if inbox[r].acknowledged then Acknowledged else Queued
  }

  ghost predicate Agrees(t: Tables) {
    forall e | 0 <= e < |t.events| :: t.events[e].status == InboxStatus(t.inbox, e)
  }

  /** In an agreeing state a row is unread exactly when its event is queued. */
  lemma UnreadIffQueued(t: Tables, r: nat)
    requires Consistent(t) && Agrees(t) && r < |t.inbox|
    ensures !t.inbox[r].acknowledged <==> t.events[t.inbox[r].event].status.Queued?
  {
    RowIsFound(t, r);
  }

  lemma RowIsFound(t: Tables, r: nat)
    requires Consistent(t) && r < |t.inbox|
    ensures FindRow(t.inbox, t.inbox[r].event) == r
  {
    var s := FindRow(t.inbox, t.inbox[r].event);
    if s != r { assert false; }
  }

  /** A request for an event that was recorded without one. */
  predicate IsUpgrade(t: Tables, op: Operation) {
    && op.Record? && op.request
    && var i := FindEvent(t.events, op.task, op.key);
    i < |t.events| && !HasRow(t, i)
  }

  lemma RowsOfOthers(inbox: seq<Row>, row: Row, event: nat)
    ensures InboxStatus(inbox + [row], event) ==
      if event == row.event then (if row.acknowledged then Acknowledged else Queued) else InboxStatus(inbox, event)
  {
    assert (inbox + [row])[..|inbox|] == inbox;
  }

  lemma RecordAgrees(t: Tables, op: Operation)
    requires Consistent(t) && Agrees(t) && op.Record?
    ensures Agrees(Apply(t, op)) <==> !IsUpgrade(t, op)
  {
    var i := FindEvent(t.events, op.task, op.key);
    var t' := Apply(t, op);
    if IsUpgrade(t, op) {
      RecordedStatus(t, op, i);
      assert t'.events[i].status == InboxStatus(t.inbox, i) == NotRequested;
    } else {
      NoRowBeyond(t);
      forall e | 0 <= e < |t'.events| ensures t'.events[e].status == InboxStatus(t'.inbox, e) {
        RecordedStatus(t, op, e);
      }
    }
  }

  lemma RecordedStatus(t: Tables, op: Operation, e: nat)
    requires op.Record?
    ensures var i := FindEvent(t.events, op.task, op.key);
      InboxStatus(Apply(t, op).inbox, e)
      == if op.request && !HasRow(t, i) && e == i then Queued else InboxStatus(t.inbox, e)
  {
    RowsOfOthers(t.inbox, Row(FindEvent(t.events, op.task, op.key), op.task, false), e);
  }

  lemma RowKeptElsewhere(t: Tables, t': Tables, event: nat)
    requires Consistent(t) && |t'.inbox| == |t.inbox|
    requires forall r | 0 <= r < |t.inbox| :: t'.inbox[r].event == t.inbox[r].event
    ensures FindRow(t'.inbox, event) == FindRow(t.inbox, event)
  {
    var r, s := FindRow(t.inbox, event), FindRow(t'.inbox, event);
    if r != s { assert false; }
  }

  lemma RowAcknowledgementAgrees(t: Tables, id: nat)
    requires Consistent(t) && Agrees(t) && id < |t.inbox|
    ensures Agrees(RowAcknowledged(t, id))
  {
    var t' := RowAcknowledged(t, id);
    RowIsFound(t, id);
    forall e | 0 <= e < |t'.events| ensures t'.events[e].status == InboxStatus(t'.inbox, e) {
      RowKeptElsewhere(t, t', e);
      assert t.events[e].status == InboxStatus(t.inbox, e);
    }
  }

  lemma WaitingMeansUnreadRow(t: Tables, task: string, event: nat)
    requires Consistent(t)
    ensures Waiting(t.inbox, task, event) <==>
      HasRow(t, event) && IsUnread(t.inbox[FindRow(t.inbox, event)], task)
  {
    if Waiting(t.inbox, task, event) {
      var r :| r in t.inbox && IsUnread(r, task) && r.event == event;
      var k :| 0 <= k < |t.inbox| && t.inbox[k] == r;
      RowIsFound(t, k);
    } else if HasRow(t, event) {
      assert t.inbox[FindRow(t.inbox, event)] in t.inbox;
    }
  }

  lemma TaskAcknowledgementAgrees(t: Tables, task: string)
    requires Consistent(t) && Agrees(t)
    ensures Agrees(AllAcknowledged(t, task))
  {
    var t' := AllAcknowledged(t, task);
    forall e | 0 <= e < |t'.events| ensures t'.events[e].status == InboxStatus(t'.inbox, e) {
      RowKeptElsewhere(t, t', e);
      WaitingMeansUnreadRow(t, task, e);
      assert t.events[e].status == InboxStatus(t.inbox, e);
    }
  }

  /** One step keeps agreement exactly when it is not an upgrade. */
  lemma StepAgreement(t: Tables, op: Operation)
    requires Consistent(t) && Agrees(t)
    ensures Agrees(Apply(t, op)) <==> !IsUpgrade(t, op)
  {
    match op
    case Record(_, _, _, _) => RecordAgrees(t, op);
    case AcknowledgeRow(id) => if id < |t.inbox| { RowAcknowledgementAgrees(t, id); }
    case AcknowledgeAll(task) => TaskAcknowledgementAgrees(t, task);
    case _ =>
  }

  // The history of calls decides: what the tables hold of a key is what was asked for it.

  predicate Records(op: Operation, task: string, key: string) {
    op.Record? && op.task == task && op.key == key
  }

  predicate WasRecorded(ops: seq<Operation>, task: string, key: string) {
    exists op | op in ops :: Records(op, task, key)
  }

  predicate WasRequested(ops: seq<Operation>, task: string, key: string) {
    exists op | op in ops :: Records(op, task, key) && op.request
  }

  ghost predicate HoldsKey(t: Tables, task: string, key: string) {
    FindEvent(t.events, task, key) < |t.events|
  }

  ghost predicate HoldsRow(t: Tables, task: string, key: string) {
    HoldsKey(t, task, key) && HasRow(t, FindEvent(t.events, task, key))
  }

  /** Keys and row owners never change; both tables only grow. */
  ghost predicate Grows(t: Tables, t': Tables) {
    && |t.events| <= |t'.events| && |t.inbox| <= |t'.inbox|
    && (forall e | 0 <= e < |t.events| :: Keyed(t'.events[e], t.events[e].task, t.events[e].key))
    && (forall r | 0 <= r < |t.inbox| :: t'.inbox[r].event == t.inbox[r].event)
  }

  lemma StepGrows(t: Tables, op: Operation)
    ensures Grows(t, Apply(t, op))
    ensures !op.Record? ==> |Apply(t, op).events| == |t.events| && |Apply(t, op).inbox| == |t.inbox|
  {
  }

  lemma KeyStep(t: Tables, op: Operation, task: string, key: string)
    ensures HoldsKey(Apply(t, op), task, key) <==> HoldsKey(t, task, key) || Records(op, task, key)
  {
    var t' := Apply(t, op);
    StepGrows(t, op);
    var i, j := FindEvent(t.events, task, key), FindEvent(t'.events, task, key);
    if i < |t.events| { assert Keyed(t'.events[i], task, key); }
    if Records(op, task, key) && i == |t.events| { assert Keyed(t'.events[i], task, key); }
    if j < |t.events| { assert Keyed(t.events[j], task, key); }
  }

  lemma KeyPlaceStays(t: Tables, op: Operation, task: string, key: string)
    requires Consistent(t) && HoldsKey(t, task, key)
    ensures FindEvent(Apply(t, op).events, task, key) == FindEvent(t.events, task, key)
  {
    var t' := Apply(t, op);
    StepGrows(t, op);
    StepKeepsConsistent(t, op);
    var i, j := FindEvent(t.events, task, key), FindEvent(t'.events, task, key);
    assert Keyed(t'.events[i], task, key);
    if i != j { assert false; }
  }

  lemma RowStep(t: Tables, op: Operation, e: nat)
    requires Consistent(t)
    ensures HasRow(Apply(t, op), e) <==>
      HasRow(t, e) || (op.Record? && op.request && FindEvent(t.events, op.task, op.key) == e)
  {
    var t' := Apply(t, op);
    StepGrows(t, op);
    var r, s := FindRow(t.inbox, e), FindRow(t'.inbox, e);
    if r < |t.inbox| { assert t'.inbox[r].event == e; }
    if s < |t.inbox| { assert t.inbox[s].event == e; }
  }

  lemma HeldRowStep(t: Tables, op: Operation, task: string, key: string)
    requires Consistent(t)
    ensures HoldsRow(Apply(t, op), task, key) <==> HoldsRow(t, task, key) || (Records(op, task, key) && op.request)
  {
    KeyStep(t, op, task, key);
    var i := FindEvent(t.events, task, key);
    if HoldsKey(t, task, key) {
      KeyPlaceStays(t, op, task, key);
      RowStep(t, op, i);
      if op.Record? && FindEvent(t.events, op.task, op.key) == i {
        assert Keyed(t.events[i], op.task, op.key);
      }
    } else if Records(op, task, key) {
      var t' := Apply(t, op);
      StepKeepsConsistent(t, op);
      assert Keyed(t'.events[i], task, key);
      assert FindEvent(t'.events, task, key) == i;
      RowStep(t, op, i);
      NoRowBeyond(t);
    }
  }

  lemma NoRowBeyond(t: Tables)
    requires Consistent(t)
    ensures !HasRow(t, |t.events|)
  {
    var r := FindRow(t.inbox, |t.events|);
    if r < |t.inbox| { assert false; }
  }

  /** A key has an event exactly when it was recorded, and that event an inbox row
      exactly when one of the records asked for it. */
  lemma {:induction false} TablesMatchHistory(ops: seq<Operation>, task: string, key: string)
    ensures HoldsKey(Run(EMPTY, ops), task, key) <==> WasRecorded(ops, task, key)
    ensures HoldsRow(Run(EMPTY, ops), task, key) <==> WasRequested(ops, task, key)
    decreases |ops|
  {
    if ops != [] {
      var rest, op := ops[..|ops| - 1], ops[|ops| - 1];
      TablesMatchHistory(rest, task, key);
      RunKeepsConsistent(rest);
      KeyStep(Run(EMPTY, rest), op, task, key);
      HeldRowStep(Run(EMPTY, rest), op, task, key);
      HistoryStep(rest, op, task, key);
      assert rest + [op] == ops;
    }
  }

  lemma HistoryStep(rest: seq<Operation>, op: Operation, task: string, key: string)
    ensures WasRecorded(rest + [op], task, key) <==> WasRecorded(rest, task, key) || Records(op, task, key)
    ensures WasRequested(rest + [op], task, key)
            <==> WasRequested(rest, task, key) || (Records(op, task, key) && op.request)
  {
    if WasRecorded(rest, task, key) {
      var o :| o in rest && Records(o, task, key);
      assert o in rest + [op];
    }
    if WasRequested(rest, task, key) {
      var o :| o in rest && Records(o, task, key) && o.request;
      assert o in rest + [op];
    }
    assert op in rest + [op];
  }

  /** Call `j` asks for an inbox row of a key that was so far only recorded without one. */
  predicate AsksLate(ops: seq<Operation>, j: nat)
    requires j < |ops|
  {
    && ops[j].Record? && ops[j].request
    && WasRecorded(ops[..j], ops[j].task, ops[j].key)
    && !WasRequested(ops[..j], ops[j].task, ops[j].key)
  }

  ghost predicate AlwaysAgrees(ops: seq<Operation>) {
    forall n | 0 <= n <= |ops| :: Agrees(Run(EMPTY, ops[..n]))
  }

  ghost predicate NeverAsksLate(ops: seq<Operation>) {
    forall j | 0 <= j < |ops| :: !AsksLate(ops, j)
  }

  lemma AgreeingPrefixes(rest: seq<Operation>, op: Operation)
    ensures AlwaysAgrees(rest + [op]) <==> AlwaysAgrees(rest) && Agrees(Run(EMPTY, rest + [op]))
  {
    var ops := rest + [op];
    PrefixRuns(rest, op);
    if AlwaysAgrees(ops) {
      forall n | 0 <= n <= |rest| ensures Agrees(Run(EMPTY, rest[..n])) { assert Agrees(Run(EMPTY, ops[..n])); }
      assert Agrees(Run(EMPTY, ops[..|ops|]));
    }
    if AlwaysAgrees(rest) && Agrees(Run(EMPTY, ops)) {
      forall n | 0 <= n <= |ops| ensures Agrees(Run(EMPTY, ops[..n])) {
        if n < |ops| { assert Agrees(Run(EMPTY, rest[..n])); }
      }
    }
  }

  lemma PrefixRuns(rest: seq<Operation>, op: Operation)
    ensures forall n | 0 <= n <= |rest| :: (rest + [op])[..n] == rest[..n]
    ensures (rest + [op])[..|rest| + 1] == rest + [op]
  {
  }

  lemma LatePrefixes(rest: seq<Operation>, op: Operation)
    ensures NeverAsksLate(rest + [op]) <==> NeverAsksLate(rest) && !AsksLate(rest + [op], |rest|)
  {
    var ops := rest + [op];
    PrefixRuns(rest, op);
    forall j | 0 <= j < |rest| ensures AsksLate(ops, j) <==> AsksLate(rest, j) { assert ops[j] == rest[j]; }
  }

  /** Events and inbox agree throughout a run exactly when no call asks late for an
      inbox row of a key it had recorded without one. */
  lemma {:induction false} AgreementExactly(ops: seq<Operation>)
    ensures AlwaysAgrees(ops) <==> NeverAsksLate(ops)
    decreases |ops|
  {
    if ops == [] {
      assert ops[..0] == [];
    } else {
      var rest, op := ops[..|ops| - 1], ops[|ops| - 1];
      AgreementExactly(rest);
      assert rest + [op] == ops;
      AgreeingPrefixes(rest, op);
      LatePrefixes(rest, op);
      if AlwaysAgrees(rest) { LastAgreement(rest, op); }
    }
  }

  lemma LastAgreement(rest: seq<Operation>, op: Operation)
    requires AlwaysAgrees(rest)
    ensures Agrees(Run(EMPTY, rest + [op])) <==> !AsksLate(rest + [op], |rest|)
  {
    var t := Run(EMPTY, rest);
    assert Agrees(t) by { assert rest[..|rest|] == rest; }
    RunKeepsConsistent(rest);
    StepAgreement(t, op);
    RunAppend(rest, op);
    LateIsUpgrade(rest, op);
  }

  lemma RunAppend(rest: seq<Operation>, op: Operation)
    ensures Run(EMPTY, rest + [op]) == Apply(Run(EMPTY, rest), op)
  {
    assert (rest + [op])[..|rest|] == rest;
  }

  lemma LateIsUpgrade(rest: seq<Operation>, op: Operation)
    ensures AsksLate(rest + [op], |rest|) <==> IsUpgrade(Run(EMPTY, rest), op)
  {
    assert (rest + [op])[..|rest|] == rest;
    if op.Record? { TablesMatchHistory(rest, op.task, op.key); }
  }

  lemma FirstRecordDecides(ops: seq<Operation>, flag: (string, string) -> bool, j: nat)
    requires forall op | op in ops && op.Record? :: op.request == flag(op.task, op.key)
    requires j < |ops| && ops[j].Record? && ops[j].request && WasRecorded(ops[..j], ops[j].task, ops[j].key)
    ensures WasRequested(ops[..j], ops[j].task, ops[j].key)
  {
    var o :| o in ops[..j] && Records(o, ops[j].task, ops[j].key);
    assert o in ops && ops[j] in ops;
  }

  /** With one inbox flag per key the tables always agree. */
  lemma FixedFlagsAgree(ops: seq<Operation>, flag: (string, string) -> bool)
    requires forall op | op in ops && op.Record? :: op.request == flag(op.task, op.key)
    ensures AlwaysAgrees(ops)
  {
    AgreementExactly(ops);
    forall j | 0 <= j < |ops| ensures !AsksLate(ops, j) {
      if AsksLate(ops, j) {
        FirstRecordDecides(ops, flag, j);
      }
    }
  }

  /** Without that it can fail: an event recorded plainly and then with a request has
      an unread row, and acknowledging the row leaves the event as it was. */
  lemma LateRequestDisagrees(task: string, key: string, kind: string)
    ensures var late := [Record(task, key, kind, false), Record(task, key, kind, true)];
      && !Agrees(Run(EMPTY, late))
      && !Agrees(Run(EMPTY, late + [AcknowledgeRow(0)]))
      && Agrees(Run(EMPTY, late + [AcknowledgeAll(task)]))
  {
    var late := [Record(task, key, kind, false), Record(task, key, kind, true)];
    var t := LateTables(task, key, kind);
    LateRun(task, key, kind);
    assert FindRow(t.inbox, 0) == 0 && t.events[0].status != InboxStatus(t.inbox, 0);
    RunAppend(late, AcknowledgeRow(0));
    RunAppend(late, AcknowledgeAll(task));
    LateRowAcknowledged(task, key, kind);
    LateTaskAcknowledged(task, key, kind);
  }

  /** An event recorded plainly, with the inbox row a later record asked for. */
  function LateTables(task: string, key: string, kind: string): Tables {
    Tables(map[], [Event(task, key, kind, NotRequested)], [Row(0, task, false)])
  }

  lemma LateRun(task: string, key: string, kind: string)
    ensures Run(EMPTY, [Record(task, key, kind, false), Record(task, key, kind, true)]) == LateTables(task, key, kind)
  {
    var plain, asked := Record(task, key, kind, false), Record(task, key, kind, true);
    RunAppend([], plain);
    RunAppend([plain], asked);
    assert [] + [plain] == [plain] && [plain] + [asked] == [plain, asked];
    RecordedPlainly(task, key, kind);
    RecordedLate(task, key, kind);
  }

  lemma RecordedPlainly(task: string, key: string, kind: string)
    ensures Recorded(EMPTY, task, key, kind, false) == LateTables(task, key, kind).(inbox := [])
  {
  }

  lemma RecordedLate(task: string, key: string, kind: string)
    ensures Recorded(LateTables(task, key, kind).(inbox := []), task, key, kind, true) == LateTables(task, key, kind)
  {
    assert FindEvent(LateTables(task, key, kind).events, task, key) == 0;
  }

  lemma LateRowAcknowledged(task: string, key: string, kind: string)
    ensures !Agrees(RowAcknowledged(LateTables(task, key, kind), 0))
  {
    var t := RowAcknowledged(LateTables(task, key, kind), 0);
    assert t.inbox == [Row(0, task, true)] && t.events[0].status == NotRequested;
    assert FindRow(t.inbox, 0) == 0;
    assert t.events[0].status != InboxStatus(t.inbox, 0);
  }

  lemma LateTaskAcknowledged(task: string, key: string, kind: string)
    ensures Agrees(AllAcknowledged(LateTables(task, key, kind), task))
  {
    var t := LateTables(task, key, kind);
    var t' := AllAcknowledged(t, task);
    assert t'.inbox == [Row(0, task, true)];
    assert t.inbox[0] in t.inbox;
    assert t'.events == [Event(task, key, kind, Acknowledged)];
    assert FindRow(t'.inbox, 0) == 0;
  }

  // ---------------------------------------------------------------------------
  // Acknowledgement is permanent, and counted
  // ---------------------------------------------------------------------------

  ghost predicate StaysAcknowledged(t: Tables, t': Tables) {
    && Grows(t, t')
    && (forall e | 0 <= e < |t.events| :: t.events[e].status.Acknowledged? ==> t'.events[e].status.Acknowledged?)
    && (forall r | 0 <= r < |t.inbox| :: t.inbox[r].acknowledged ==> t'.inbox[r].acknowledged)
  }

  lemma StepStaysAcknowledged(t: Tables, op: Operation)
    ensures StaysAcknowledged(t, Apply(t, op))
  {
  }

  /** From any state on, an acknowledged event or row stays acknowledged. */
  lemma {:induction false} AcknowledgementIsPermanent(t: Tables, ops: seq<Operation>)
    ensures StaysAcknowledged(t, Run(t, ops))
    decreases |ops|
  {
    if ops != [] {
      var rest, op := ops[..|ops| - 1], ops[|ops| - 1];
      AcknowledgementIsPermanent(t, rest);
      StepStaysAcknowledged(Run(t, rest), op);
    }
  }

  /** The unread rows of a task. */
  function Unread(inbox: seq<Row>, task: string): nat {
    if inbox == [] then 0
    else Unread(inbox[..|inbox| - 1], task) + if IsUnread(inbox[|inbox| - 1], task) then 1 else 0
  }

  lemma UnreadStep(rows: seq<Row>, row: Row, task: string)
    ensures Unread(rows + [row], task) == Unread(rows, task) + if IsUnread(row, task) then 1 else 0
    ensures forall e: nat ::
      Waiting(rows + [row], task, e) <==> Waiting(rows, task, e) || (IsUnread(row, task) && row.event == e)
  {
    assert (rows + [row])[..|rows|] == rows;
    assert forall r :: r in rows + [row] <==> r in rows || r == row;
  }

  /** Acknowledging a task leaves it no unread row and every other task its own. */
  lemma {:induction false} AcknowledgementClears(before: seq<Row>, after: seq<Row>, task: string, other: string)
    requires |before| == |after| && forall r | 0 <= r < |before| :: after[r] == Read(before[r], task)
    ensures Unread(after, other) == if other == task then 0 else Unread(before, other)
    decreases |before|
  {
    if before != [] { AcknowledgementClears(before[..|before| - 1], after[..|after| - 1], task, other); }
  }

  // ---------------------------------------------------------------------------
  // Claims
  // ---------------------------------------------------------------------------

  function PendingCount(t: Tables, task: string): nat {
    if Claimable(t, task) then 1 else 0
  }

  /** How many claims of the task succeed during the run. */
  function Won(t: Tables, ops: seq<Operation>, task: string): nat {
    if ops == [] then 0
    else
      var rest, op := ops[..|ops| - 1], ops[|ops| - 1];
      Won(t, rest, task) + if op == Claim(task) && Claimable(Run(t, rest), task) then 1 else 0
  }

  /** How many updates write the status back to pending. */
  function Resets(ops: seq<Operation>, task: string): nat {
    if ops == [] then 0
    else Resets(ops[..|ops| - 1], task) + if ops[|ops| - 1] == Update(task, PENDING) then 1 else 0
  }

  /** Every successful claim uses up one pending status: the one the task starts
      with or one that an update wrote back. */
  lemma {:induction false} ClaimsUsePendingStatus(t: Tables, ops: seq<Operation>, task: string)
    requires task in t.tasks
    ensures task in Run(t, ops).tasks
    ensures Won(t, ops, task) + PendingCount(Run(t, ops), task) <= PendingCount(t, task) + Resets(ops, task)
    decreases |ops|
  {
    if ops != [] {
      ClaimsUsePendingStatus(t, ops[..|ops| - 1], task);
      ClaimStep(Run(t, ops[..|ops| - 1]), ops[|ops| - 1], task);
    }
  }

  lemma ClaimStep(t: Tables, op: Operation, task: string)
    requires task in t.tasks
    ensures task in Apply(t, op).tasks
    ensures (if op == Claim(task) && Claimable(t, task) then 1 else 0) + PendingCount(Apply(t, op), task)
         <= PendingCount(t, task) + if op == Update(task, PENDING) then 1 else 0
  {
  }

  /** Acknowledging a row from any state: the row is read, its event is acknowledged unless
      it never asked for a callback, and nothing else changes. */
  lemma RowAcknowledgementExactly(t: Tables, id: nat)
    requires id < |t.inbox| && t.inbox[id].event < |t.events|
    ensures var t', e := Apply(t, AcknowledgeRow(id)), t.inbox[id].event;
      && t'.tasks == t.tasks && |t'.events| == |t.events| && |t'.inbox| == |t.inbox|
      && t'.inbox[id].acknowledged && (forall r | 0 <= r < |t.inbox| && r != id :: t'.inbox[r] == t.inbox[r])
      && t'.events[e].status == (if t.events[e].status.NotRequested? then NotRequested else Acknowledged)
      && forall i | 0 <= i < |t.events| && i != e :: t'.events[i] == t.events[i]
  {
  }

  /** A task exists exactly when some operation created it: claims, updates, records and
      acknowledgements make none. */
  lemma {:induction false} TasksAreCreated(t: Tables, ops: seq<Operation>, task: string)
    ensures task in Run(t, ops).tasks <==> task in t.tasks || Create(task) in ops
    decreases |ops|
  {
    if ops != [] {
      var rest, op := ops[..|ops| - 1], ops[|ops| - 1];
      TasksAreCreated(t, rest, task);
      assert ops == rest + [op];
    }
  }

  /** Of any number of claims at most one succeeds while nobody writes the status back. */
  lemma OneClaimWins(t: Tables, ops: seq<Operation>, task: string)
    requires task in t.tasks && Update(task, PENDING) !in ops
    ensures Won(t, ops, task) <= 1
  {
    ClaimsUsePendingStatus(t, ops, task);
    NoResets(ops, task);
  }

  lemma {:induction false} NoResets(ops: seq<Operation>, task: string)
    requires Update(task, PENDING) !in ops
    ensures Resets(ops, task) == 0
    decreases |ops|
  {
    if ops != [] {
      assert ops[|ops| - 1] in ops;
      NoResets(ops[..|ops| - 1], task);
    }
  }

  // ---------------------------------------------------------------------------
  // The store
  // ---------------------------------------------------------------------------

  class AsyncTaskStore {
    var tasks: map<string, string>
    var events: seq<Event>
    var inbox: seq<Row>

    ghost function Contents(): Tables
      reads this
    {
      Tables(tasks, events, inbox)
    }

    constructor ()
      ensures Contents() == EMPTY
    {
      tasks, events, inbox := map[], [], [];
    }

    method ClaimTask(task: string) returns (won: bool)
      modifies this`tasks
      ensures won == Claimable(old(Contents()), task)
      ensures Contents() == Apply(old(Contents()), Claim(task))
    {
      won := task in tasks && tasks[task] == PENDING;
      if won {
        tasks := tasks[task := RUNNING];
      }
    }

    /** Returns the stored row and whether this call inserted it. */
    method RecordEvent(task: string, key: string, kind: string, request: bool) returns (row: Event, inserted: bool)
      modifies this
      ensures Contents() == Apply(old(Contents()), Record(task, key, kind, request))
      ensures inserted <==> !old(HoldsKey(Contents(), task, key))
      ensures Keyed(row, task, key) && row in events
      ensures inserted ==> row.kind == kind && (row.status.Queued? <==> request)
    {
      var id := FindEvent(events, task, key);
      inserted := id == |events|;
      if inserted {
        events := events + [Event(task, key, kind, if request then Queued else NotRequested)];
      }
      row := events[id];
      if request {
        if FindRow(inbox, id) == |inbox| {
          inbox := inbox + [Row(id, task, false)];
        }
      }
    }

    method AcknowledgeInbox(id: nat) returns (found: bool)
      modifies this
      ensures found == (id < |old(inbox)|)
      ensures Contents() == Apply(old(Contents()), AcknowledgeRow(id))
    {
      found := id < |inbox|;
      if found {
        var e := inbox[id].event;
        inbox := inbox[id := inbox[id].(acknowledged := true)];
        if e < |events| && IsOpen(events[e].status) {
          events := events[e := events[e].(status := Acknowledged)];
        }
      }
    }

    /** The events of the unread rows of a task, one entry per row. */
    method UnreadEvents(task: string) returns (ids: seq<nat>)
      ensures |ids| == Unread(inbox, task) && forall e: nat :: e in ids <==> Waiting(inbox, task, e)
    {
      ids := [];
      for r := 0 to |inbox|
        invariant |ids| == Unread(inbox[..r], task)
        invariant forall e: nat :: e in ids <==> Waiting(inbox[..r], task, e)
      {
        UnreadStep(inbox[..r], inbox[r], task);
        assert inbox[..r + 1] == inbox[..r] + [inbox[r]];
        if IsUnread(inbox[r], task) {
          ids := ids + [inbox[r].event];
        }
      }
      assert inbox[..|inbox|] == inbox;
    }

    /** Returns exactly the number of unread rows of the task, and clears them. */
    method AcknowledgeTask(task: string) returns (count: nat)
      modifies this
      ensures Contents() == Apply(old(Contents()), AcknowledgeAll(task))
      ensures count == Unread(old(inbox), task)
      ensures forall other :: Unread(inbox, other) == if other == task then 0 else Unread(old(inbox), other)
    {
      var ids := UnreadEvents(task);
      count := |ids|;
      var rows, stored := inbox, events;
      inbox := seq(|rows|, r requires 0 <= r < |rows| => Read(rows[r], task));
      events := seq(|stored|, e requires 0 <= e < |stored| => Cleared(stored[e], e in ids));
      forall other ensures Unread(inbox, other) == if other == task then 0 else Unread(old(inbox), other) {
        AcknowledgementClears(old(inbox), inbox, task, other);
      }
    }
  }
}
