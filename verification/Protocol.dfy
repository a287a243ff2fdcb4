/** The order submission protocol as a state machine over its durable and external actions, with crashes between any two. */
module Protocol {
  import opened Outcomes
  import opened Decimals
  import Constraints
  import opened Orders
  import opened BrokerReads

  // ---------------------------------------------------------------- the durable store

  datatype Row = Row(status: OrderStatus, brokerOrderId: string, payload: Order)

  /** The submissions table, by client order id. */
  type Store = map<string, Row>

  predicate IsUnresolved(status: OrderStatus) {
    status == Submitting || status == ReconciliationRequired
  }

  /** `mark_submitting`: insert or replace. */
  function WithSubmitting(store: Store, order: Order): Store {
    store[order.clientOrderId := Row(Submitting, "", order)]
  }

  /** `mark_result`: update where the row exists. */
  function WithResult(store: Store, id: string, status: OrderStatus, brokerOrderId: string): Store {
    if id in store then store[id := store[id].(status := status, brokerOrderId := brokerOrderId)] else store
  }

  /** The ids, in some order and each once, of the rows that `unresolved` selects. */
  predicate ListsUnresolved(ids: seq<string>, store: Store) {
    && (forall i, j :: 0 <= i < j < |ids| ==> ids[i] != ids[j])
    && (forall id <- ids :: id in store && IsUnresolved(store[id].status))
    && (forall id <- store :: IsUnresolved(store[id].status) ==> id in ids)
  }

  // ---------------------------------------------------------------- recovery of one row

  function RecoveryMatch(id: string, row: Row, listed: seq<BrokerOrder>, listedAgain: seq<BrokerOrder>): (OrderStatus, string) {
    match FirstIdentified(listed, id, row.brokerOrderId)
    case Some(item) =>
      (if MappedStatus(item.state).Some? then MappedStatus(item.state).value else ReconciliationRequired, item.orderId)
    case None =>
      var candidates := Candidates(listedAgain, row.payload.assetCode, FieldValue(row.payload.quantity), FieldValue(row.payload.limitPrice));
      (ReconciliationRequired, if |candidates| == 1 then candidates[0].orderId else "")
  }

  function FieldValue(field: NumberField): real {
    if field.parsed.Some? then Value(field.parsed.value) else 0.0
  }

  /** What one turn of the recovery loop writes, from the broker's answers to its two queries. */
  function RecoveredStore(store: Store, id: string, listed: seq<BrokerOrder>, listedAgain: seq<BrokerOrder>): Store
    requires id in store
  {
    var (status, brokerOrderId) := RecoveryMatch(id, store[id], listed, listedAgain);
    WithResult(store, id, status, brokerOrderId)
  }

  // ---------------------------------------------------------------- states, events and actions

  datatype BrokerOutcome = Raised | Returned(accepted: bool, brokerOrderId: string)

  datatype Command = Pause | Resume | OtherCommand

  /** Where the process is; everything but the store and the log is lost in a crash. */
  datatype Phase =
    | Down
    | Recovering(todo: seq<string>)
    | Idle
    | Ordering
    | Validated(order: Order)
    | Recorded(order: Order)
    | Acknowledged(order: Order, ack: Ack)
    | Cleared(order: Order)
    | Settling(order: Order, status: OrderStatus, attempted: bool, brokerOrderId: string)
    | Reporting(order: Order, outcome: Option<OrderStatus>, attempted: bool, brokerOrderId: string)
    | Polling
    | Commanding(commands: seq<Command>)

  datatype Event =
    | Leased
    | Checked(order: Order, readings: Readings, config: Config)
    | Persisted(order: Order)
    | Answered(order: Order, ack: Ack)
    | Rechecked(order: Order, readings: Readings, config: Config)
    | BrokerCalled(order: Order, answer: BrokerOutcome)
    | Marked(id: string, status: OrderStatus, brokerOrderId: string)
    | Reported(id: string, outcome: Option<OrderStatus>, attempted: bool, brokerOrderId: string)
    | Recovered(id: string, status: OrderStatus, brokerOrderId: string)

  datatype State = State(store: Store, phase: Phase, paused: bool, leases: seq<Order>, config: Config, log: seq<Event>)

  /** One small step, with what the environment answers in it. */
  datatype Action =
    | Crash
    | Start(config: Config, unresolved: seq<string>)
    | RecoverRow(listed: seq<BrokerOrder>, listedAgain: seq<BrokerOrder>)
    | FinishRecovery
    | BeginCycle(blocked: bool, leases: seq<Order>)
    | FailCycle
    | Validate(readings: Readings)
    | Persist(stored: bool)
    | Announce(response: Option<Ack>)
    | Revalidate(readings: Readings)
    | Submit(outcome: BrokerOutcome)
    | Settle(stored: bool)
    | Report
    | EndOrders
    | LeaseCommands(commands: seq<Command>)
    | ProcessCommand(stop: bool, completed: bool)
    | EndCycle

  function Init(config: Config): State {
    State(map[], Down, false, [], config, [])
  }

  predicate Enabled(s: State, a: Action) {
    match a
    case Crash => true
    case Start(_, unresolved) => s.phase.Down? && ListsUnresolved(unresolved, s.store)
    case RecoverRow(_, _) => s.phase.Recovering? && s.phase.todo != [] && s.phase.todo[0] in s.store
    case FinishRecovery => s.phase == Recovering([])
    case BeginCycle(_, _) => s.phase.Idle?
    case FailCycle => s.phase.Idle? || s.phase.Polling?
    case Validate(_) => s.phase.Ordering? && s.leases != []
    case Persist(_) => s.phase.Validated?
    case Announce(_) => s.phase.Recorded?
    case Revalidate(_) => s.phase.Acknowledged?
    case Submit(_) => s.phase.Cleared?
    case Settle(_) => s.phase.Settling?
    case Report => s.phase.Reporting?
    case EndOrders => s.phase.Ordering? && s.leases == []
    case LeaseCommands(_) => s.phase.Polling?
    case ProcessCommand(_, _) => s.phase.Commanding? && s.phase.commands != []
    case EndCycle => s.phase == Commanding([])
  }

  function Logged(s: State, e: Event): State {
    s.(log := s.log + [e])
  }

  function ApplyValidate(s: State, r: Readings): State
    requires s.leases != []
  {
    var order, next := s.leases[0], s.(leases := s.leases[1..]);
    if ValidateBeforeSubmit(order, r, s.config, order.clientOrderId in s.store) != Passed then next
    else
      var checked := Logged(next, Checked(order, r, s.config));
      if s.config.dryRun then checked.(phase := Reporting(Rewritten(order), None, false, ""))
      else checked.(phase := Validated(Rewritten(order)))
  }

  function ApplyRevalidate(s: State, r: Readings): State
    requires s.phase.Acknowledged?
  {
    var order := s.phase.order;
    var verdict := if CheckAck(s.phase.ack, order) != Pass then Refused else ValidateBeforeSubmit(order, r, s.config, false);
    match verdict
    case Passed => Logged(s, Rechecked(order, r, s.config)).(phase := Cleared(Rewritten(order)))
    case Refused => s.(phase := Settling(order, Failed, false, ""))
    case Escaped => s.(phase := Ordering)
  }

  function ApplySubmit(s: State, outcome: BrokerOutcome): State
    requires s.phase.Cleared?
  {
    var order := s.phase.order;
    Logged(s, BrokerCalled(order, outcome)).(phase :=
      match outcome
      case Raised => Settling(order, ReconciliationRequired, true, "")
      case Returned(accepted, brokerOrderId) => Settling(order, if accepted then Submitted else BrokerRejected, true, brokerOrderId))
  }

  function ApplyCommand(s: State, stop: bool, completed: bool): State
    requires s.phase.Commanding? && s.phase.commands != []
  {
    s.(paused := (match s.phase.commands[0] case Pause => true case Resume => stop case OtherCommand => s.paused),
       phase := if completed then Commanding(s.phase.commands[1..]) else Idle)
  }

  /** The state after an enabled action. */
  function Apply(s: State, a: Action): State
    requires Enabled(s, a)
  {
    match a
    case Crash => s.(phase := Down, paused := false, leases := [])
    case Start(config, unresolved) => s.(phase := Recovering(unresolved), config := config)
    case RecoverRow(listed, listedAgain) =>
      var id := s.phase.todo[0];
      var (status, brokerOrderId) := RecoveryMatch(id, s.store[id], listed, listedAgain);
      Logged(s, Recovered(id, status, brokerOrderId))
        .(store := RecoveredStore(s.store, id, listed, listedAgain), phase := Recovering(s.phase.todo[1..]))
    case FinishRecovery => s.(phase := Idle)
    case BeginCycle(blocked, leases) =>
      if blocked || s.paused then s.(phase := Polling) else Logged(s, Leased).(phase := Ordering, leases := leases)
    case FailCycle => s.(phase := Idle)
    case Validate(readings) => ApplyValidate(s, readings)
    case Persist(stored) =>
      if stored then Logged(s, Persisted(s.phase.order)).(store := WithSubmitting(s.store, s.phase.order), phase := Recorded(s.phase.order))
      else s.(phase := Ordering)
    case Announce(response) =>
      if response.None? then s.(phase := Settling(s.phase.order, ReconciliationRequired, false, ""))
      else Logged(s, Answered(s.phase.order, response.value)).(phase := Acknowledged(s.phase.order, response.value))
    case Revalidate(readings) => ApplyRevalidate(s, readings)
    case Submit(outcome) => ApplySubmit(s, outcome)
    case Settle(stored) =>
      if stored then
        Logged(s, Marked(s.phase.order.clientOrderId, s.phase.status, s.phase.brokerOrderId))
          .(store := WithResult(s.store, s.phase.order.clientOrderId, s.phase.status, s.phase.brokerOrderId),
            phase := Reporting(s.phase.order, Some(s.phase.status), s.phase.attempted, s.phase.brokerOrderId))
      else s.(phase := Ordering)
    case Report =>
      Logged(s, Reported(s.phase.order.clientOrderId, s.phase.outcome, s.phase.attempted, s.phase.brokerOrderId)).(phase := Ordering)
    case EndOrders => s.(phase := Polling)
    case LeaseCommands(commands) => s.(phase := Commanding(commands))
    case ProcessCommand(stop, completed) => ApplyCommand(s, stop, completed)
    case EndCycle => s.(phase := Idle)
  }

  // ---------------------------------------------------------------- runs

  /** Each action of the sequence is enabled when its turn comes. */
  predicate IsRun(config: Config, actions: seq<Action>)
    decreases |actions|, 0
  {
    actions == [] ||
    (&& IsRun(config, actions[..|actions| - 1])
     && Enabled(After(config, actions[..|actions| - 1]), actions[|actions| - 1]))
  }

  /** The state that a run reaches. */
  function After(config: Config, actions: seq<Action>): State
    requires IsRun(config, actions)
    decreases |actions|, 1
  {
    if actions == [] then Init(config) else Apply(After(config, actions[..|actions| - 1]), actions[|actions| - 1])
  }

  lemma ExtendRun(config: Config, actions: seq<Action>, a: Action)
    requires IsRun(config, actions) && Enabled(After(config, actions), a)
    ensures IsRun(config, actions + [a]) && After(config, actions + [a]) == Apply(After(config, actions), a)
  {
    assert (actions + [a])[..|actions + [a]| - 1] == actions;
  }

  lemma {:induction false} PrefixIsRun(config: Config, actions: seq<Action>, k: nat)
    requires IsRun(config, actions) && k <= |actions|
    ensures IsRun(config, actions[..k])
  {
    if k == |actions| {
      assert actions[..k] == actions;
    } else {
      PrefixIsRun(config, actions[..|actions| - 1], k);
      assert actions[..|actions| - 1][..k] == actions[..k];
    }
  }

  /** The state of the run after its first `k` actions. */
  function At(config: Config, actions: seq<Action>, k: nat): State
    requires IsRun(config, actions) && k <= |actions|
  {
    PrefixIsRun(config, actions, k);
    After(config, actions[..k])
  }

  lemma {:induction false} AtOfPrefix(config: Config, actions: seq<Action>, k: nat)
    requires IsRun(config, actions) && k <= |actions|
    ensures k == |actions| ==> At(config, actions, k) == After(config, actions)
    ensures k < |actions| ==>
              && IsRun(config, actions[..|actions| - 1])
              && At(config, actions[..|actions| - 1], k) == At(config, actions, k)
  {
    PrefixIsRun(config, actions, k);
    if k == |actions| {
      assert actions[..k] == actions;
    } else {
      assert actions[..|actions| - 1][..k] == actions[..k];
    }
  }

  // ---------------------------------------------------------------- broker calls of an order

  /** How often the broker was called for an order. */
  function Calls(log: seq<Event>, id: string): nat {
    if log == [] then 0
    else Calls(log[..|log| - 1], id) + if IsCall(log[|log| - 1], id) then 1 else 0
  }

  predicate IsCall(e: Event, id: string) {
    e.BrokerCalled? && e.order.clientOrderId == id
  }

  lemma CallsAppend(log: seq<Event>, e: Event, id: string)
    ensures Calls(log + [e], id) == Calls(log, id) + if IsCall(e, id) then 1 else 0
  {
    assert (log + [e])[..|log + [e]| - 1] == log;
  }

  /** The orders that the broker was called with, in turn. */
  function SentOrders(log: seq<Event>): seq<Order> {
    if log == [] then []
    else SentOrders(log[..|log| - 1]) + if log[|log| - 1].BrokerCalled? then [log[|log| - 1].order] else []
  }

  lemma SentAfterStep(s: State, a: Action)
    requires Enabled(s, a)
    ensures SentOrders(Apply(s, a).log) == SentOrders(s.log) + if a.Submit? then [s.phase.order] else []
  {
    hide ValidateBeforeSubmit, CheckAck, RecoveryMatch, RecoveredStore, Rewritten, SentOrders;
    var log := Apply(s, a).log;
    if |log| > |s.log| {
      SentAppend(s.log, log[|s.log|]);
    }
  }

  lemma SentAppend(log: seq<Event>, e: Event)
    ensures SentOrders(log + [e]) == SentOrders(log) + if e.BrokerCalled? then [e.order] else []
  {
    assert (log + [e])[..|log + [e]| - 1] == log;
  }

  /** A report of one submission: the status that it names, if any, whether the broker was called, and the broker's id. */
  datatype SubmissionReport = SubmissionReport(clientOrderId: string, status: Option<OrderStatus>, attempted: bool, brokerOrderId: string)

  /** The reports of submissions that were posted, in turn. */
  function ReportsOf(log: seq<Event>): seq<SubmissionReport> {
    if log == [] then [] else ReportsOf(log[..|log| - 1]) + ReportIn(log[|log| - 1])
  }

  function ReportIn(e: Event): seq<SubmissionReport> {
    if e.Reported? then [SubmissionReport(e.id, e.outcome, e.attempted, e.brokerOrderId)] else []
  }

  /** The report that a phase holds. */
  function ReportOf(phase: Phase): SubmissionReport
    requires phase.Reporting?
  {
    SubmissionReport(phase.order.clientOrderId, phase.outcome, phase.attempted, phase.brokerOrderId)
  }

  lemma {:induction false} ReportsAfterStep(s: State, a: Action)
    requires Enabled(s, a)
    ensures ReportsOf(Apply(s, a).log) == ReportsOf(s.log) + if a.Report? then [ReportOf(s.phase)] else []
  {
    hide ValidateBeforeSubmit, CheckAck, RecoveryMatch, RecoveredStore, Rewritten, ReportsOf;
    var log := Apply(s, a).log;
    if |log| > |s.log| {
      ReportsAppend(s.log, log[|s.log|]);
    }
  }

  lemma {:induction false} ReportsAppend(log: seq<Event>, e: Event)
    ensures ReportsOf(log + [e]) == ReportsOf(log) + ReportIn(e)
  {
    assert (log + [e])[..|log + [e]| - 1] == log;
  }

  /** The order whose row is in the hands of the running process. */
  function InFlight(phase: Phase): Option<Order> {
    match phase
    case Recorded(order) => Some(order)
    case Acknowledged(order, _) => Some(order)
    case Cleared(order) => Some(order)
    case Settling(order, _, _, _) => Some(order)
    case _ => None
  }

  /** A call has been made for the order in the hands of the process. */
  predicate CallMade(phase: Phase) {
    phase.Settling? && phase.attempted
  }

  /** Which rows and calls belong together, for one order. */
  predicate CallsMatchStore(s: State, id: string) {
    && Calls(s.log, id) <= 1
    && (Calls(s.log, id) > 0 ==> id in s.store && s.store[id].status != Failed)
    && (InFlight(s.phase).Some? && InFlight(s.phase).value.clientOrderId == id ==>
          && id in s.store && s.store[id] == Row(Submitting, "", InFlight(s.phase).value)
          && (Calls(s.log, id) > 0 <==> CallMade(s.phase)))
    && (s.phase.Validated? && s.phase.order.clientOrderId == id ==> id !in s.store)
    && (s.phase.Settling? && s.phase.order.clientOrderId == id ==>
          !IsUnresolved(s.phase.status) || s.phase.status == ReconciliationRequired)
    && (s.phase.Settling? && s.phase.order.clientOrderId == id ==> (s.phase.status == Failed ==> !s.phase.attempted))
    && (s.phase.Reporting? && s.phase.order.clientOrderId == id ==> (Calls(s.log, id) > 0 <==> s.phase.attempted))
    && (s.phase.Recovering? && id in s.phase.todo ==> id in s.store && IsUnresolved(s.store[id].status))
  }

  predicate TodoIsDistinct(s: State) {
    s.phase.Recovering? ==> forall i, j :: 0 <= i < j < |s.phase.todo| ==> s.phase.todo[i] != s.phase.todo[j]
  }

  /** From the first passing validation on, the process holds the order as the validation rewrote it. */
  predicate HoldsRewritten(phase: Phase) {
    match phase
    case Validated(order) => Rewritten(order) == order
    case Recorded(order) => Rewritten(order) == order
    case Acknowledged(order, _) => Rewritten(order) == order
    case Cleared(order) => Rewritten(order) == order
    case _ => true
  }

  lemma StepKeepsRewritten(s: State, a: Action)
    requires Enabled(s, a) && HoldsRewritten(s.phase)
    ensures HoldsRewritten(Apply(s, a).phase)
  {
    hide ValidateBeforeSubmit, CheckAck, RecoveredStore, RecoveryMatch, Rewritten;
    if a.Validate? {
      RewritingIsIdempotent(s.leases[0]);
    }
  }

  lemma StepKeepsTodo(s: State, a: Action)
    requires Enabled(s, a) && TodoIsDistinct(s)
    ensures TodoIsDistinct(Apply(s, a))
  {
    hide ValidateBeforeSubmit, CheckAck, Rewritten, RecoveredStore, RecoveryMatch;
  }

  lemma PassingStored(order: Order, r: Readings, config: Config, alreadyStored: bool)
    ensures ValidateBeforeSubmit(order, r, config, alreadyStored) == Passed ==> !alreadyStored
  {
    if ValidateBeforeSubmit(order, r, config, alreadyStored) == Passed {
      PassesExactly(order, r, config, alreadyStored);
    }
  }

  lemma RecoveryIsNeverFailed(id: string, row: Row, listed: seq<BrokerOrder>, listedAgain: seq<BrokerOrder>)
    ensures RecoveryMatch(id, row, listed, listedAgain).0 != Failed
    ensures RecoveryMatch(id, row, listed, listedAgain).0 != Submitting
  {
  }

  lemma CallsAfterStep(s: State, a: Action, id: string)
    requires Enabled(s, a)
    ensures Calls(Apply(s, a).log, id) ==
              Calls(s.log, id) + if a.Submit? && s.phase.order.clientOrderId == id then 1 else 0
  {
    hide ValidateBeforeSubmit, CheckAck, RecoveryMatch, RecoveredStore, Rewritten, Calls;
    var log := Apply(s, a).log;
    if |log| > |s.log| {
      CallsAppend(s.log, log[|s.log|], id);
    }
  }

  lemma RecoveryKeepsCalls(s: State, a: Action, id: string)
    requires Enabled(s, a) && a.RecoverRow? && TodoIsDistinct(s)
    requires forall x: string :: CallsMatchStore(s, x)
    ensures CallsMatchStore(Apply(s, a), id)
  {
    hide RecoveryMatch, Calls;
    CallsAfterStep(s, a, id);
    RecoveryIsNeverFailed(s.phase.todo[0], s.store[s.phase.todo[0]], a.listed, a.listedAgain);
    assert CallsMatchStore(s, id) && CallsMatchStore(s, s.phase.todo[0]);
  }

  lemma OrderKeepsCalls(s: State, a: Action, id: string)
    requires Enabled(s, a) && HoldsRewritten(s.phase)
    requires a.Validate? || a.Persist? || a.Submit? || a.Settle? || a.Revalidate?
    requires forall x: string :: CallsMatchStore(s, x)
    ensures CallsMatchStore(Apply(s, a), id)
  {
    hide ValidateBeforeSubmit, CheckAck, Calls, RecoveryMatch, RecoveredStore;
    CallsAfterStep(s, a, id);
    assert CallsMatchStore(s, id);
    if a.Validate? {
      hide ApplySubmit, ApplyRevalidate, WithSubmitting, WithResult;
      PassingStored(s.leases[0], a.readings, s.config, s.leases[0].clientOrderId in s.store);
    } else if a.Persist? || a.Settle? {
      hide ApplySubmit, ApplyRevalidate, ApplyValidate, Rewritten;
    } else {
      hide ApplyValidate, WithSubmitting, WithResult;
    }
  }

  /** One step keeps rows and calls together. */
  lemma StepKeepsCalls(s: State, a: Action, id: string)
    requires Enabled(s, a) && TodoIsDistinct(s) && HoldsRewritten(s.phase)
    requires forall x: string :: CallsMatchStore(s, x)
    ensures CallsMatchStore(Apply(s, a), id)
  {
    hide ValidateBeforeSubmit, CheckAck, RecoveryMatch, RecoveredStore, Calls;
    match a {
      case RecoverRow(_, _) => RecoveryKeepsCalls(s, a, id);
      case Validate(_) => OrderKeepsCalls(s, a, id);
      case Persist(_) => OrderKeepsCalls(s, a, id);
      case Revalidate(_) => OrderKeepsCalls(s, a, id);
      case Submit(_) => OrderKeepsCalls(s, a, id);
      case Settle(_) => OrderKeepsCalls(s, a, id);
      case _ =>
        CallsAfterStep(s, a, id);
        assert CallsMatchStore(s, id);
    }
  }

  // ---------------------------------------------------------------- what precedes a call

  ghost predicate EndsChecked(log: seq<Event>, n: nat, order: Order, config: Config)
    requires n <= |log|
  {
    && n >= 1 && log[n - 1].Checked? && log[n - 1].config == config && !config.dryRun
    && Rewritten(log[n - 1].order) == order
    && ValidateBeforeSubmit(log[n - 1].order, log[n - 1].readings, config, false) == Passed
  }

  ghost predicate EndsPersisted(log: seq<Event>, n: nat, order: Order, config: Config)
    requires n <= |log|
  {
    n >= 2 && log[n - 1] == Persisted(order) && EndsChecked(log, n - 1, order, config)
  }

  ghost predicate EndsAnswered(log: seq<Event>, n: nat, order: Order, ack: Ack, config: Config)
    requires n <= |log|
  {
    n >= 3 && log[n - 1] == Answered(order, ack) && EndsPersisted(log, n - 1, order, config)
  }

  ghost predicate EndsRechecked(log: seq<Event>, n: nat, order: Order, config: Config)
    requires n <= |log|
  {
    && n >= 4 && log[n - 1].Rechecked? && log[n - 1].order == order && log[n - 1].config == config
    && ValidateBeforeSubmit(order, log[n - 1].readings, config, false) == Passed
    && log[n - 2].Answered? && CheckAck(log[n - 2].ack, order) == Pass
    && EndsAnswered(log, n - 1, order, log[n - 2].ack, config)
  }

  /** The log ends with the stages that the current phase has passed. */
  ghost predicate TrailMatchesPhase(s: State) {
    match s.phase
    case Validated(order) => EndsChecked(s.log, |s.log|, order, s.config)
    case Recorded(order) => EndsPersisted(s.log, |s.log|, order, s.config)
    case Acknowledged(order, ack) => EndsAnswered(s.log, |s.log|, order, ack, s.config)
    case Cleared(order) => EndsRechecked(s.log, |s.log|, order, s.config)
    case _ => true
  }

  lemma PassingNeedsNoRow(order: Order, r: Readings, config: Config, alreadyStored: bool)
    requires ValidateBeforeSubmit(order, r, config, alreadyStored) == Passed
    ensures ValidateBeforeSubmit(order, r, config, false) == Passed
  {
    PassingStored(order, r, config, alreadyStored);
  }

  lemma StepKeepsTrail(s: State, a: Action)
    requires Enabled(s, a) && TrailMatchesPhase(s) && HoldsRewritten(s.phase)
    ensures TrailMatchesPhase(Apply(s, a))
  {
    hide ValidateBeforeSubmit, CheckAck, RecoveryMatch, RecoveredStore, Rewritten;
    match a {
      case Validate(_) => ValidateLeavesTrail(s, a);
      case Persist(_) => PersistKeepsTrail(s, a);
      case Announce(_) => PersistKeepsTrail(s, a);
      case Revalidate(_) => RevalidateKeepsTrail(s, a);
      case _ => hide EndsChecked, EndsPersisted, EndsAnswered, EndsRechecked;
    }
  }

  lemma ValidateLeavesTrail(s: State, a: Action)
    requires Enabled(s, a) && a.Validate?
    ensures TrailMatchesPhase(Apply(s, a))
  {
    hide ValidateBeforeSubmit, CheckAck, Rewritten;
    if ValidateBeforeSubmit(s.leases[0], a.readings, s.config, s.leases[0].clientOrderId in s.store) == Passed {
      PassingNeedsNoRow(s.leases[0], a.readings, s.config, s.leases[0].clientOrderId in s.store);
    }
  }

  lemma PersistKeepsTrail(s: State, a: Action)
    requires Enabled(s, a) && TrailMatchesPhase(s) && (a.Persist? || a.Announce?)
    ensures TrailMatchesPhase(Apply(s, a))
  {
    hide ValidateBeforeSubmit, CheckAck, Rewritten, WithSubmitting;
  }

  lemma RevalidateKeepsTrail(s: State, a: Action)
    requires Enabled(s, a) && TrailMatchesPhase(s) && HoldsRewritten(s.phase) && a.Revalidate?
    ensures TrailMatchesPhase(Apply(s, a))
  {
    hide ValidateBeforeSubmit, CheckAck, Rewritten, EndsPersisted;
    var log, n := Apply(s, a).log, |s.log|;
    if Apply(s, a).phase.Cleared? {
      assert EndsAnswered(s.log, n, s.phase.order, s.phase.ack, s.config);
      PersistedInLongerLog(s.log, log, n - 1, s.phase.order, s.config);
    }
  }

  lemma PersistedInLongerLog(log: seq<Event>, longer: seq<Event>, n: nat, order: Order, config: Config)
    requires n <= |log| <= |longer| && longer[..|log|] == log && EndsPersisted(log, n, order, config)
    ensures EndsPersisted(longer, n, order, config)
  {
    hide ValidateBeforeSubmit, CheckAck, Rewritten;
    assert forall j :: 0 <= j < |log| ==> longer[j] == log[j];
  }

  /** Every event of the log is in its place: calls after all four stages, reports with the flag that the calls before them give. */
  ghost predicate EventIsSound(log: seq<Event>, i: nat)
    requires i < |log|
  {
    && (log[i].BrokerCalled? ==> i >= 4 && log[i - 1].Rechecked? && EndsRechecked(log, i, log[i].order, log[i - 1].config))
    && (log[i].Reported? ==> (log[i].attempted <==> Calls(log[..i], log[i].id) > 0))
  }

  /** A step only adds to the log, at most one event. */
  lemma StepKeepsLog(s: State, a: Action)
    requires Enabled(s, a)
    ensures |s.log| <= |Apply(s, a).log| <= |s.log| + 1
    ensures Apply(s, a).log[..|s.log|] == s.log
  {
    hide ValidateBeforeSubmit, CheckAck, RecoveryMatch, RecoveredStore, Rewritten;
  }

  lemma SoundInLongerLog(log: seq<Event>, longer: seq<Event>, i: nat)
    requires i < |log| <= |longer| && longer[..|log|] == log && EventIsSound(log, i)
    ensures EventIsSound(longer, i)
  {
    hide ValidateBeforeSubmit, CheckAck, Rewritten, Calls;
    assert longer[..i] == log[..i];
    assert forall j :: 0 <= j < |log| ==> longer[j] == log[j];
  }

  lemma NewEventIsSound(s: State, a: Action)
    requires Enabled(s, a) && TrailMatchesPhase(s) && (s.phase.Reporting? ==> CallsMatchStore(s, s.phase.order.clientOrderId))
    requires |Apply(s, a).log| == |s.log| + 1
    ensures EventIsSound(Apply(s, a).log, |s.log|)
  {
    hide ValidateBeforeSubmit, CheckAck, RecoveryMatch, RecoveredStore, Rewritten, Calls;
    var log, n := Apply(s, a).log, |s.log|;
    assert log[..n] == s.log;
    if log[n].BrokerCalled? {
      hide CallsMatchStore;
      SoundTrailInLongerLog(s.log, log, n, log[n].order, s.config);
    } else {
      hide EndsRechecked, EndsAnswered, EndsPersisted, EndsChecked;
    }
  }

  lemma SoundTrailInLongerLog(log: seq<Event>, longer: seq<Event>, n: nat, order: Order, config: Config)
    requires n <= |log| <= |longer| && longer[..|log|] == log && EndsRechecked(log, n, order, config)
    ensures EndsRechecked(longer, n, order, config)
  {
    hide ValidateBeforeSubmit, CheckAck, Rewritten;
    assert forall j :: 0 <= j < |log| ==> longer[j] == log[j];
  }

  lemma StepKeepsEvents(s: State, a: Action, i: nat)
    requires Enabled(s, a) && TrailMatchesPhase(s) && (s.phase.Reporting? ==> CallsMatchStore(s, s.phase.order.clientOrderId))
    requires forall j :: 0 <= j < |s.log| ==> EventIsSound(s.log, j)
    requires i < |Apply(s, a).log|
    ensures EventIsSound(Apply(s, a).log, i)
  {
    hide *;
    StepKeepsLog(s, a);
    var log := Apply(s, a).log;
    if i < |s.log| {
      assert EventIsSound(s.log, i);
      SoundInLongerLog(s.log, log, i);
    } else {
      NewEventIsSound(s, a);
    }
  }

  // ---------------------------------------------------------------- rows

  /** A row that a step finds is never removed, keeps its payload, and keeps everything once its status is final. */
  lemma StepKeepsRow(s: State, a: Action, id: string)
    requires Enabled(s, a) && id in s.store
    requires forall x: string :: CallsMatchStore(s, x)
    ensures id in Apply(s, a).store && Apply(s, a).store[id].payload == s.store[id].payload
    ensures !IsUnresolved(s.store[id].status) ==> Apply(s, a).store[id] == s.store[id]
  {
    hide ValidateBeforeSubmit, CheckAck, RecoveryMatch, Rewritten, Calls;
    match a {
      case RecoverRow(_, _) => assert CallsMatchStore(s, s.phase.todo[0]);
      case Persist(_) => assert CallsMatchStore(s, s.phase.order.clientOrderId);
      case Settle(_) => assert CallsMatchStore(s, s.phase.order.clientOrderId);
      case _ =>
    }
  }

  /** The rows of called orders hold exactly the order that was called. */
  predicate CallIsStored(s: State, i: nat)
    requires i < |s.log|
  {
    s.log[i].BrokerCalled? ==>
      s.log[i].order.clientOrderId in s.store && s.store[s.log[i].order.clientOrderId].payload == s.log[i].order
  }

  lemma StepKeepsStoredCalls(s: State, a: Action, i: nat)
    requires Enabled(s, a) && i < |Apply(s, a).log|
    requires forall x: string :: CallsMatchStore(s, x)
    requires forall j :: 0 <= j < |s.log| ==> CallIsStored(s, j)
    ensures CallIsStored(Apply(s, a), i)
  {
    hide ValidateBeforeSubmit, CheckAck, RecoveryMatch, Rewritten, Calls, RecoveredStore;
    if i < |s.log| {
      assert CallIsStored(s, i);
      if s.log[i].BrokerCalled? {
        StepKeepsRow(s, a, s.log[i].order.clientOrderId);
      }
    } else if a.Submit? {
      assert CallsMatchStore(s, s.phase.order.clientOrderId);
    }
  }

  // ---------------------------------------------------------------- pause

  /** While the process is paused it neither leases nor handles orders. */
  predicate PauseHolds(s: State) {
    s.paused ==> s.phase.Idle? || s.phase.Polling? || s.phase.Commanding?
  }

  lemma StepKeepsPause(s: State, a: Action)
    requires Enabled(s, a) && PauseHolds(s)
    ensures PauseHolds(Apply(s, a))
  {
    hide ValidateBeforeSubmit, CheckAck, RecoveryMatch, RecoveredStore, Rewritten;
  }

  // ---------------------------------------------------------------- whole runs

  /** What holds in every state that a run reaches. */
  ghost predicate Inv(s: State) {
    && HoldsRewritten(s.phase) && TodoIsDistinct(s) && TrailMatchesPhase(s) && PauseHolds(s)
    && (forall id: string :: CallsMatchStore(s, id))
    && (forall i :: 0 <= i < |s.log| ==> EventIsSound(s.log, i))
    && (forall i :: 0 <= i < |s.log| ==> CallIsStored(s, i))
  }

  lemma StepKeepsInv(s: State, a: Action)
    requires Enabled(s, a) && Inv(s)
    ensures Inv(Apply(s, a))
  {
    hide HoldsRewritten, TodoIsDistinct, TrailMatchesPhase, PauseHolds, CallsMatchStore, EventIsSound, CallIsStored, Apply, Enabled;
    StepKeepsRewritten(s, a);
    StepKeepsTodo(s, a);
    StepKeepsTrail(s, a);
    StepKeepsPause(s, a);
    forall id: string
      ensures CallsMatchStore(Apply(s, a), id)
    {
      StepKeepsCalls(s, a, id);
    }
    forall i | 0 <= i < |Apply(s, a).log|
      ensures EventIsSound(Apply(s, a).log, i)
    {
      StepKeepsEvents(s, a, i);
    }
    forall i | 0 <= i < |Apply(s, a).log|
      ensures CallIsStored(Apply(s, a), i)
    {
      StepKeepsStoredCalls(s, a, i);
    }
  }

  lemma InitIsSound(config: Config)
    ensures Inv(Init(config))
  {
  }

  lemma {:induction false} RunKeepsInv(config: Config, actions: seq<Action>)
    requires IsRun(config, actions)
    ensures Inv(After(config, actions))
  {
    hide Inv, Apply, Enabled;
    InitIsSound(config);
    if actions != [] {
      RunKeepsInv(config, actions[..|actions| - 1]);
      StepKeepsInv(After(config, actions[..|actions| - 1]), actions[|actions| - 1]);
    }
  }

  /** In every run the broker is called at most once for an order, and only for an order whose durable row holds exactly what is sent; an order that failed was never sent. */
  lemma AtMostOneCall(config: Config, actions: seq<Action>, id: string)
    requires IsRun(config, actions)
    ensures var s := After(config, actions);
            && Calls(s.log, id) <= 1
            && (Calls(s.log, id) > 0 ==> id in s.store && s.store[id].status != Failed)
            && forall i :: 0 <= i < |s.log| && IsCall(s.log[i], id) ==> id in s.store && s.store[id].payload == s.log[i].order
  {
    RunKeepsInv(config, actions);
    hide After, IsRun, Calls;
    var s := After(config, actions);
    assert CallsMatchStore(s, id);
    forall i | 0 <= i < |s.log| && IsCall(s.log[i], id)
      ensures id in s.store && s.store[id].payload == s.log[i].order
    {
      assert CallIsStored(s, i);
    }
  }

  lemma {:induction false} SentIsCalled(log: seq<Event>, i: nat)
    requires i < |SentOrders(log)|
    ensures Calls(log, SentOrders(log)[i].clientOrderId) >= 1
  {
    var front := log[..|log| - 1];
    if i < |SentOrders(front)| {
      SentIsCalled(front, i);
    }
  }

  lemma {:induction false} SentTwiceIsCalledTwice(log: seq<Event>, i: nat, j: nat)
    requires i < j < |SentOrders(log)| && SentOrders(log)[i].clientOrderId == SentOrders(log)[j].clientOrderId
    ensures Calls(log, SentOrders(log)[i].clientOrderId) >= 2
  {
    var front := log[..|log| - 1];
    if j < |SentOrders(front)| {
      SentTwiceIsCalledTwice(front, i, j);
    } else {
      SentIsCalled(front, i);
    }
  }

  /** No two orders that the broker is ever handed, by any of the processes of one table, have the same client order id. */
  lemma SentOrdersDiffer(config: Config, actions: seq<Action>, i: nat, j: nat)
    requires IsRun(config, actions) && i < j < |SentOrders(After(config, actions).log)|
    ensures SentOrders(After(config, actions).log)[i].clientOrderId != SentOrders(After(config, actions).log)[j].clientOrderId
  {
    hide IsRun, After, SentOrders, Calls;
    var log := After(config, actions).log;
    if SentOrders(log)[i].clientOrderId == SentOrders(log)[j].clientOrderId {
      SentTwiceIsCalledTwice(log, i, j);
      AtMostOneCall(config, actions, SentOrders(log)[i].clientOrderId);
    }
  }

  /** Every broker call of every run comes right after a passing validation, the durable row, an accepted acknowledgement that echoes the order, and a second passing validation with STOP absent; the order sent carries the exact texts of its envelope. */
  lemma CallsAreCleared(config: Config, actions: seq<Action>, i: nat)
    requires IsRun(config, actions) && i < |After(config, actions).log| && After(config, actions).log[i].BrokerCalled?
    ensures var log := After(config, actions).log;
            var order := log[i].order;
            && i >= 4
            && log[i - 4].Checked? && Rewritten(log[i - 4].order) == order
            && log[i - 4].order.(quantity := order.quantity, limitPrice := order.limitPrice) == order
            && ValidateBeforeSubmit(log[i - 4].order, log[i - 4].readings, log[i - 4].config, false) == Passed
            && log[i - 3] == Persisted(order)
            && log[i - 2].Answered? && log[i - 2].order == order && Echoes(log[i - 2].ack, order)
            && log[i - 1].Rechecked? && log[i - 1].order == order && log[i - 1].config == log[i - 4].config
            && !log[i - 1].config.dryRun && !log[i - 1].readings.stop1 && !log[i - 1].readings.stop3
            && IsClearedThroughout(order, log[i - 4].readings, log[i - 1].config)
            && IsClearedThroughout(order, log[i - 1].readings, log[i - 1].config)
  {
    RunKeepsInv(config, actions);
    hide After, IsRun, Calls, ValidateBeforeSubmit, CheckAck, IsClearedThroughout, Echoes, Rewritten;
    var log := After(config, actions).log;
    assert EventIsSound(log, i);
    var order := log[i].order;
    RewritingIsIdempotent(log[i - 4].order);
    RewritingKeepsTheRest(log[i - 4].order);
    PassingClears(log[i - 4].order, log[i - 4].readings, log[i - 1].config);
    PassingClears(order, log[i - 1].readings, log[i - 1].config);
    AcknowledgesExactly(log[i - 2].ack, order);
  }

  /** Where the local date never goes back, the order is also in force, and its envelope accepted, at every instant between any two of the six clocks that are read before its broker call. */
  lemma {:induction false} InForceBeforeCall(config: Config, actions: seq<Action>, i: nat, t: int)
    requires IsRun(config, actions) && i < |After(config, actions).log| && After(config, actions).log[i].BrokerCalled?
    ensures var log := After(config, actions).log;
            && i >= 4 && log[i - 4].Checked? && log[i - 1].Rechecked?
            && (IsSpanned(log[i - 4].readings, log[i - 1].readings, t) && Constraints.Monotone(log[i - 1].config.zone) ==>
                 IsClearedAt(log[i].order, t, log[i - 1].config))
  {
    hide *;
    CallsAreCleared(config, actions, i);
    var log := After(config, actions).log;
    if IsSpanned(log[i - 4].readings, log[i - 1].readings, t) && Constraints.Monotone(log[i - 1].config.zone) {
      ClearedInSpan(log[i].order, log[i - 4].readings, log[i - 1].readings, t, log[i - 1].config);
    }
  }

  /** Every report tells truly whether the broker had been called for its order. */
  lemma ReportsAreTrue(config: Config, actions: seq<Action>, i: nat)
    requires IsRun(config, actions) && i < |After(config, actions).log| && After(config, actions).log[i].Reported?
    ensures var log := After(config, actions).log;
            log[i].attempted <==> exists j :: 0 <= j < i && IsCall(log[j], log[i].id)
  {
    RunKeepsInv(config, actions);
    ReportIsTrue(After(config, actions), i);
  }

  lemma ReportIsTrue(s: State, i: nat)
    requires Inv(s) && i < |s.log| && s.log[i].Reported?
    ensures s.log[i].attempted <==> exists j :: 0 <= j < i && IsCall(s.log[j], s.log[i].id)
  {
    SoundEvent(s, i);
    hide Inv, EndsRechecked, Calls;
    CallsCount(s.log[..i], s.log[i].id);
  }

  lemma SoundEvent(s: State, i: nat)
    requires Inv(s) && i < |s.log|
    ensures EventIsSound(s.log, i)
  {
  }

  lemma {:induction false} CallsCount(log: seq<Event>, id: string)
    ensures Calls(log, id) > 0 <==> exists j :: 0 <= j < |log| && IsCall(log[j], id)
  {
    if log != [] {
      CallsCount(log[..|log| - 1], id);
    }
  }

  /** A status other than SUBMITTING and RECONCILIATION_REQUIRED is never changed by any later action, and no row ever loses its payload. */
  lemma {:induction false} FinalStatusesStay(config: Config, actions: seq<Action>, k: nat, id: string)
    requires IsRun(config, actions) && k <= |actions| && id in At(config, actions, k).store
    ensures var earlier, later := At(config, actions, k).store, After(config, actions).store;
            && id in later && later[id].payload == earlier[id].payload
            && (earlier[id].status !in {OrderStatus.Submitting, ReconciliationRequired} ==> later[id] == earlier[id])
  {
    hide Apply, Enabled, At;
    AtOfPrefix(config, actions, k);
    if k < |actions| {
      var front := actions[..|actions| - 1];
      FinalStatusesStay(config, front, k, id);
      RunKeepsInv(config, front);
      StepKeepsRow(After(config, front), actions[|actions| - 1], id);
    }
  }

  /** Once a row exists and the running process has let go of it, no later action of any run calls the broker for its order again. */
  lemma {:induction false} NeverSubmittedAgain(config: Config, actions: seq<Action>, k: nat, id: string)
    requires IsRun(config, actions) && k <= |actions|
    requires id in At(config, actions, k).store && !IsHeld(At(config, actions, k).phase, id)
    ensures Calls(After(config, actions).log, id) == Calls(At(config, actions, k).log, id)
    ensures id in After(config, actions).store && !IsHeld(After(config, actions).phase, id)
  {
    hide Apply, Enabled, Calls, At, IsHeld;
    AtOfPrefix(config, actions, k);
    if k < |actions| {
      var front := actions[..|actions| - 1];
      NeverSubmittedAgain(config, front, k, id);
      RunKeepsInv(config, front);
      LetGoStays(After(config, front), actions[|actions| - 1], id);
    }
  }

  /** The order is in the hands of the running process. */
  predicate IsHeld(phase: Phase, id: string) {
    InFlight(phase).Some? && InFlight(phase).value.clientOrderId == id
  }

  lemma LetGoStays(s: State, a: Action, id: string)
    requires Enabled(s, a) && Inv(s) && id in s.store && !IsHeld(s.phase, id)
    ensures Calls(Apply(s, a).log, id) == Calls(s.log, id) && id in Apply(s, a).store && !IsHeld(Apply(s, a).phase, id)
  {
    hide ValidateBeforeSubmit, CheckAck, RecoveryMatch, RecoveredStore, Calls;
    CallsAfterStep(s, a, id);
    StepKeepsRow(s, a, id);
    assert CallsMatchStore(s, id);
  }

  predicate EndsPause(s: State, a: Action) {
    a.Crash? || (a.ProcessCommand? && s.phase.Commanding? && s.phase.commands != [] && s.phase.commands[0].Resume? && !a.stop)
  }

  /** After a processed pause, no action leases or sends an order until a crash or a successful resume. */
  lemma {:induction false} PausedUntilResumed(config: Config, actions: seq<Action>, k: nat)
    requires IsRun(config, actions) && k <= |actions| && At(config, actions, k).paused
    requires forall j :: k <= j < |actions| ==> !EndsPause(At(config, actions, j), actions[j])
    ensures After(config, actions).paused
    ensures After(config, actions).log == At(config, actions, k).log
  {
    hide Apply, Enabled, EndsPause, At;
    AtOfPrefix(config, actions, k);
    if k < |actions| {
      var n := |actions| - 1;
      var front := actions[..n];
      forall j | k <= j < n
        ensures !EndsPause(At(config, front, j), front[j])
      {
        AtOfPrefix(config, actions, j);
      }
      PausedUntilResumed(config, front, k);
      RunKeepsInv(config, front);
      LastState(config, actions);
      PausedStep(After(config, front), actions[n]);
    }
  }

  lemma {:induction false} LastState(config: Config, actions: seq<Action>)
    requires IsRun(config, actions) && actions != []
    ensures At(config, actions, |actions| - 1) == After(config, actions[..|actions| - 1])
  {
  }

  lemma PausedStep(s: State, a: Action)
    requires Enabled(s, a) && Inv(s) && s.paused && !EndsPause(s, a)
    ensures Apply(s, a).paused && Apply(s, a).log == s.log
  {
    hide ValidateBeforeSubmit, CheckAck, RecoveryMatch, RecoveredStore, Rewritten;
  }
}
