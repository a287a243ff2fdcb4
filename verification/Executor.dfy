/** The executor: every method is a sequence of protocol steps on the store that it updates in place. */
module Executor {
  import opened Outcomes
  import Constraints
  import opened Decimals
  import opened Orders
  import opened BrokerReads
  import opened Protocol
  import opened Recovery
  import opened StateStore

  /** A leased order; validation rewrites its two numbers in place. */
  class LeasedOrder {
    const lease: Order
    var quantity: NumberField
    var limitPrice: NumberField

    constructor (lease: Order)
      ensures Value() == lease
    {
      this.lease := lease;
      quantity, limitPrice := lease.quantity, lease.limitPrice;
    }

    function Value(): Order
      reads this
    {
      lease.(quantity := quantity, limitPrice := limitPrice)
    }

    method Rewrite()
      modifies this
      ensures Value() == Rewritten(old(Value()))
    {
      quantity, limitPrice := CanonicalField(lease.envelope.order.quantity), CanonicalField(lease.envelope.order.limitPrice);
    }
  }

  /** `_validate_execution_constraints` at one clock: the order is rewritten when it passes. */
  method ValidateExecutionConstraints(order: LeasedOrder, clock: int, zone: Constraints.Zone) returns (verdict: Verdict)
    modifies order
    ensures verdict == CheckVerdict(CheckConstraints(old(order.Value()), clock, zone))
    ensures order.Value() == if verdict == Passed then Rewritten(old(order.Value())) else old(order.Value())
  {
    var check := CheckConstraints(order.Value(), clock, zone);
    if check != Pass {
      return Refused;
    }
    order.Rewrite();
    verdict := Passed;
  }

  /** What the environment answers while one order is handled. */
  datatype OrderAnswers = OrderAnswers(
    first: Readings, recorded: bool, response: Option<Ack>, second: Readings, outcome: BrokerOutcome, settled: bool)

  /** The server strictly accepts the recorded order, and the second validation passes. */
  predicate PassesSecond(order: Order, env: OrderAnswers, config: Config) {
    env.response.Some? && SecondVerdict(order, env.response.value, env.second, config) == Passed
  }

  /** The verdict of the acknowledgement and, where it is accepted, of the second validation. */
  function SecondVerdict(order: Order, ack: Ack, r: Readings, config: Config): Verdict {
    if CheckAck(ack, order) != Pass then Refused else ValidateBeforeSubmit(order, r, config, false)
  }

  /** All that must succeed before the broker is called: both validations, the durable row and the acknowledgement. */
  predicate Sends(order: Order, env: OrderAnswers, config: Config, known: bool) {
    && ValidateBeforeSubmit(order, env.first, config, known) == Passed && !config.dryRun && env.recorded
    && PassesSecond(Rewritten(order), env, config)
  }

  /** The status and broker id that a recorded order is left with; none when an unlisted exception escapes. */
  function FinalMark(order: Order, env: OrderAnswers, config: Config): Option<(OrderStatus, string)> {
    if env.response.None? then Some((ReconciliationRequired, ""))
    else match SecondVerdict(order, env.response.value, env.second, config)
      case Refused => Some((Failed, ""))
      case Escaped => None
      case Passed => Some(OutcomeMark(env.outcome))
  }

  function Listed<T>(x: Option<T>): seq<T> {
    if x.Some? then [x.value] else []
  }

  /** The report that an order ends with: none where nothing is stored, else the stored status with whether the broker was called. */
  function ReportAfter(order: Order, env: OrderAnswers, config: Config, known: bool): Option<SubmissionReport> {
    if ValidateBeforeSubmit(order, env.first, config, known) != Passed then None
    else if config.dryRun then Some(SubmissionReport(order.clientOrderId, None, false, ""))
    else if !env.recorded then None
    else MarkReport(Rewritten(order), env, config)
  }

  function MarkReport(order: Order, env: OrderAnswers, config: Config): Option<SubmissionReport> {
    var mark := FinalMark(order, env, config);
    if mark.None? || !env.settled then None
    else Some(SubmissionReport(order.clientOrderId, Some(mark.value.0), PassesSecond(order, env, config), mark.value.1))
  }

  function OutcomeMark(outcome: BrokerOutcome): (OrderStatus, string) {
    match outcome
    case Raised => (ReconciliationRequired, "")
    case Returned(accepted, brokerOrderId) => (if accepted then Submitted else BrokerRejected, brokerOrderId)
  }

  /** The table with the final mark on a recorded row, where there is one and its write succeeds. */
  function WithMark(rows: Store, id: string, mark: Option<(OrderStatus, string)>, settled: bool): Store {
    if mark.None? || !settled then rows else WithResult(rows, id, mark.value.0, mark.value.1)
  }

  /** The table after one order: a row only for an order that passes validation in earnest. */
  function RowsAfter(rows: Store, order: Order, env: OrderAnswers, config: Config): Store {
    var id := order.clientOrderId;
    if ValidateBeforeSubmit(order, env.first, config, id in rows) != Passed || config.dryRun || !env.recorded then rows
    else WithMark(WithSubmitting(rows, Rewritten(order)), id, FinalMark(Rewritten(order), env, config), env.settled)
  }

  // ---------------------------------------------------------------- where one step leads

  /** The action is enabled, and leads to the given phase, table and leases. */
  ghost predicate Moves(s: State, a: Action, phase: Phase, store: Store, leases: seq<Order>) {
    && Enabled(s, a) && Apply(s, a).phase == phase && Apply(s, a).store == store && Apply(s, a).leases == leases
    && Apply(s, a).paused == s.paused && Apply(s, a).config == s.config
  }

  lemma ValidateMoves(s: State, r: Readings)
    requires s.phase.Ordering? && s.leases != []
    ensures var order := s.leases[0];
            var passed := ValidateBeforeSubmit(order, r, s.config, order.clientOrderId in s.store) == Passed;
            Moves(s, Validate(r),
              if !passed then Ordering
              else if s.config.dryRun then Reporting(Rewritten(order), None, false, "")
              else Validated(Rewritten(order)),
              s.store, s.leases[1..])
  {
    hide ValidateBeforeSubmit, Rewritten;
  }

  lemma PersistMoves(s: State, recorded: bool)
    requires s.phase.Validated?
    ensures Moves(s, Persist(recorded),
              if recorded then Recorded(s.phase.order) else Ordering,
              if recorded then WithSubmitting(s.store, s.phase.order) else s.store, s.leases)
  {
    hide WithSubmitting;
  }

  lemma AnnounceMoves(s: State, response: Option<Ack>)
    requires s.phase.Recorded?
    ensures Moves(s, Announce(response),
              if response.None? then Settling(s.phase.order, ReconciliationRequired, false, "") else Acknowledged(s.phase.order, response.value),
              s.store, s.leases)
  {
  }

  lemma RevalidateMoves(s: State, r: Readings)
    requires s.phase.Acknowledged?
    ensures Moves(s, Revalidate(r),
              (match SecondVerdict(s.phase.order, s.phase.ack, r, s.config)
               case Passed => Cleared(Rewritten(s.phase.order))
               case Refused => Settling(s.phase.order, Failed, false, "")
               case Escaped => Ordering),
              s.store, s.leases)
  {
    hide ValidateBeforeSubmit, CheckAck, Rewritten;
  }

  lemma SubmitMoves(s: State, outcome: BrokerOutcome)
    requires s.phase.Cleared?
    ensures Moves(s, Submit(outcome), Settling(s.phase.order, OutcomeMark(outcome).0, true, OutcomeMark(outcome).1), s.store, s.leases)
  {
  }

  lemma SettleMoves(s: State, settled: bool)
    requires s.phase.Settling?
    ensures Moves(s, Settle(settled),
              if settled then Reporting(s.phase.order, Some(s.phase.status), s.phase.attempted, s.phase.brokerOrderId) else Ordering,
              if settled then WithResult(s.store, s.phase.order.clientOrderId, s.phase.status, s.phase.brokerOrderId) else s.store,
              s.leases)
  {
    hide WithResult;
  }

  lemma ReportMoves(s: State)
    requires s.phase.Reporting?
    ensures Moves(s, Report, Ordering, s.store, s.leases)
  {
  }

  lemma RecoverMoves(s: State, listed: seq<BrokerOrder>, listedAgain: seq<BrokerOrder>)
    requires s.phase.Recovering? && s.phase.todo != [] && s.phase.todo[0] in s.store
    ensures Moves(s, RecoverRow(listed, listedAgain), Recovering(s.phase.todo[1..]),
              RecoveredStore(s.store, s.phase.todo[0], listed, listedAgain), s.leases)
  {
    hide RecoveryMatch, RecoveredStore;
  }

  lemma FinishMoves(s: State)
    requires s.phase == Recovering([])
    ensures Moves(s, FinishRecovery, Idle, s.store, s.leases)
  {
  }

  /** The answers, where there are any. */
  function Given(answers: string -> Option<Answers>): string -> Answers {
    id => if answers(id).Some? then answers(id).value else Answers([], [])
  }

  /** What is reported of a recovered row. */
  datatype RecoveryReport = RecoveryReport(clientOrderId: string, status: OrderStatus, brokerOrderId: string, found: bool, candidates: nat)

  function RecoveryReportOf(id: string, row: Row, answers: Answers): RecoveryReport {
    var found := FirstIdentified(answers.listed, id, row.brokerOrderId).Some?;
    RecoveryReport(id, RecoveredRow(id, row, answers).status, RecoveredRow(id, row, answers).brokerOrderId, found,
                   if found then 0 else |CandidatesFor(row, answers.listedAgain)|)
  }

  /** One report for each of the ids, of the row as it was read. */
  predicate ReportsRows(reports: seq<RecoveryReport>, ids: seq<string>, store: Store, answers: string -> Answers) {
    && |reports| == |ids|
    && forall k :: 0 <= k < |ids| ==> ids[k] in store && reports[k] == RecoveryReportOf(ids[k], store[ids[k]], answers(ids[k]))
  }

  /** The reports of a pass: each unresolved row once, with the status and broker id that the pass stores for it. */
  lemma {:induction false} RecoveryReportsTellTheRows(reports: seq<RecoveryReport>, ids: seq<string>, store: Store, answers: string -> Answers, id: string)
    requires ListsUnresolved(ids, store) && ReportsRows(reports, ids, store, answers) && id in store
    ensures IsUnresolved(store[id].status) <==> exists k :: 0 <= k < |reports| && reports[k].clientOrderId == id
    ensures forall k :: 0 <= k < |reports| && reports[k].clientOrderId == id ==>
              && reports[k].status == PassResult(store, answers)[id].status
              && reports[k].brokerOrderId == PassResult(store, answers)[id].brokerOrderId
              && forall m :: 0 <= m < |reports| && reports[m].clientOrderId == id ==> m == k
  {
    hide RecoveredRow, FirstIdentified, CandidatesFor;
    assert forall k :: 0 <= k < |ids| ==> reports[k].clientOrderId == ids[k];
    if IsUnresolved(store[id].status) {
      var k :| 0 <= k < |ids| && ids[k] == id;
      assert reports[k].clientOrderId == id;
    }
  }

  /** A report says that the order was found exactly when a listed order is identified, and otherwise counts the candidates: none, or one, exactly where no order, or one place, has the fields of the payload. */
  lemma {:induction false} RecoveryReportExactly(id: string, row: Row, answers: Answers, quantity: Decimal, limitPrice: Decimal)
    requires row.payload.quantity.parsed == Some(quantity) && row.payload.limitPrice.parsed == Some(limitPrice)
    ensures var report, code, q, p := RecoveryReportOf(id, row, answers), row.payload.assetCode, Value(quantity), Value(limitPrice);
            && (report.found <==> exists item <- answers.listed :: Identifies(item, id, row.brokerOrderId))
            && (report.found ==> report.candidates == 0)
            && (!report.found ==>
                  && report.status == ReconciliationRequired
                  && (report.candidates == 0 <==> forall item <- answers.listedAgain :: !IsCandidate(item, code, q, p))
                  && (report.candidates == 1 <==> exists i :: 0 <= i < |answers.listedAgain| && IsOnlyPlace(answers.listedAgain, i, code, q, p)))
  {
    FirstIdentifiedFinds(answers.listed, id, row.brokerOrderId);
    UnmatchedNeedsReconciliation(id, row, answers);
    CandidatesExactly(answers.listedAgain, row.payload.assetCode, Value(quantity), Value(limitPrice));
    OneCandidateExactly(answers.listedAgain, row.payload.assetCode, Value(quantity), Value(limitPrice));
    hide FirstIdentified, Identifies, Candidates, FieldsMatch, Value, IsOnlyPlace, IsCandidate, RecoveredRow;
    var candidates := CandidatesFor(row, answers.listedAgain);
    if candidates != [] {
      assert candidates[0] in candidates;
    }
  }

  lemma {:induction false} NothingRecovered(store: Store, ids: seq<string>, answers: string -> Answers)
    ensures RecoveredAll(store, ids[..0], answers) == store && ReportsRows([], ids[..0], store, answers)
  {
  }

  lemma {:induction false} RecoveredNext(store: Store, ids: seq<string>, k: nat, answers: string -> Answers, reports: seq<RecoveryReport>)
    requires k < |ids| && (forall id <- ids :: id in store) && ReportsRows(reports, ids[..k], store, answers)
    ensures var answer, before := answers(ids[k]), RecoveredAll(store, ids[..k], answers);
            && RecoveredAll(store, ids[..k + 1], answers) == RecoveredStore(before, ids[k], answer.listed, answer.listedAgain)
            && ReportsRows(reports + [RecoveryReportOf(ids[k], store[ids[k]], answer)], ids[..k + 1], store, answers)
  {
    hide RecoveredStore, RecoveryReportOf;
    assert ids[..k + 1][..k] == ids[..k] && ids[..k + 1] == ids[..k] + [ids[k]];
  }

  lemma {:induction false} ListedAreStored(ids: seq<string>, store: Store)
    requires ListsUnresolved(ids, store)
    ensures forall id <- ids :: id in store
  {
  }

  lemma {:induction false} AllRecovered(store: Store, ids: seq<string>, answers: string -> Answers)
    requires ListsUnresolved(ids, store)
    ensures forall id <- store :: id in RecoveredAll(store, ids, answers) && RecoveredAll(store, ids, answers)[id] == PassResult(store, answers)[id]
    ensures PassResult(store, answers).Keys == store.Keys
  {
    OnePass(store, ids, answers);
    hide RecoveredAll, RecoveredRow, ListsUnresolved;
  }

  /** Where the recovery loop stands before its next row: that row is as it was read, every earlier one is recovered. */
  lemma RecoveredPrefix(store: Store, ids: seq<string>, k: nat, answers: string -> Answers)
    requires ListsUnresolved(ids, store) && k < |ids|
    ensures RecoveredAll(store, ids[..k], answers)[ids[k]] == store[ids[k]]
    ensures forall id <- store :: RecoveredAll(store, ids[..k], answers)[id] in {store[id], PassResult(store, answers)[id]}
  {
    hide RecoveredRow, RecoveredStore, RecoveredAll;
    forall id | id in store
      ensures RecoveredAll(store, ids[..k], answers)[id] == if id in ids[..k] then RecoveredRow(id, store[id], answers(id)) else store[id]
    {
      RecoveredAllRows(store, ids[..k], answers, id);
    }
  }

  lemma CommandsMove(s: State, commands: seq<Command>)
    requires s.phase.Polling?
    ensures Moves(s, LeaseCommands(commands), Commanding(commands), s.store, s.leases)
  {
  }

  lemma EndCycleMoves(s: State)
    requires s.phase == Commanding([])
    ensures Moves(s, EndCycle, Idle, s.store, s.leases)
  {
  }

  lemma EndOrdersMoves(s: State)
    requires s.phase.Ordering? && s.leases == []
    ensures Moves(s, EndOrders, Polling, s.store, s.leases)
  {
  }

  lemma FailMoves(s: State)
    requires s.phase.Idle? || s.phase.Polling?
    ensures Moves(s, FailCycle, Idle, s.store, s.leases)
  {
  }

  lemma BeginMoves(s: State, blocked: bool, leases: seq<Order>)
    requires s.phase.Idle?
    ensures Moves(s, BeginCycle(blocked, leases), if blocked || s.paused then Polling else Ordering, s.store,
              if blocked || s.paused then s.leases else leases)
  {
  }

  // ---------------------------------------------------------------- what one order does to the table

  /** One order leaves every other row alone, and is sent only where the table did not know it; then the table holds exactly what was sent. */
  lemma {:induction false} OrderRows(rows: Store, order: Order, env: OrderAnswers, config: Config)
    ensures forall id <- rows :: id in RowsAfter(rows, order, env, config) && RowsAfter(rows, order, env, config)[id] == rows[id]
    ensures Rewritten(order).clientOrderId == order.clientOrderId
    ensures Sends(order, env, config, order.clientOrderId in rows) ==>
              && order.clientOrderId !in rows && order.clientOrderId in RowsAfter(rows, order, env, config)
              && RowsAfter(rows, order, env, config)[order.clientOrderId].payload == Rewritten(order)
  {
    PassingStored(order, env.first, config, order.clientOrderId in rows);
    hide ValidateBeforeSubmit, CheckAck;
  }

  /** The status that a new row ends with tells what happened: the broker's word, a refusal before any call, or, for SUBMITTING and RECONCILIATION_REQUIRED, that nothing is certain. */
  lemma {:induction false} StatusTellsWhatHappened(rows: Store, order: Order, env: OrderAnswers, config: Config)
    requires order.clientOrderId !in rows && order.clientOrderId in RowsAfter(rows, order, env, config)
    ensures var status, sends := RowsAfter(rows, order, env, config)[order.clientOrderId].status, Sends(order, env, config, false);
            && (status == Submitted <==> sends && env.settled && env.outcome.Returned? && env.outcome.accepted)
            && (status == BrokerRejected <==> sends && env.settled && env.outcome.Returned? && !env.outcome.accepted)
            && (status == Failed <==>
                  env.settled && env.response.Some? && SecondVerdict(Rewritten(order), env.response.value, env.second, config) == Refused)
            && (status == Failed ==> !sends)
            && status in {Submitted, BrokerRejected, Failed, Submitting, ReconciliationRequired}
            && RowsAfter(rows, order, env, config)[order.clientOrderId].brokerOrderId
               == if status in {Submitted, BrokerRejected} then env.outcome.brokerOrderId else ""
  {
    hide ValidateBeforeSubmit, CheckAck, Rewritten, SecondVerdict;
    SameId(order);
  }

  lemma SameId(order: Order)
    ensures Rewritten(order).clientOrderId == order.clientOrderId
  {
  }

  /** Sent orders are pairwise different, were unknown before, and each lies in the table as it was sent. */
  predicate SentAreNew(sent: seq<Order>, before: Store, after: Store) {
    && (forall order <- sent :: order.clientOrderId !in before && order.clientOrderId in after && after[order.clientOrderId].payload == order)
    && (forall i, j :: 0 <= i < j < |sent| ==> sent[i].clientOrderId != sent[j].clientOrderId)
  }

  lemma NothingSent(rows: Store)
    ensures SentAreNew([], rows, rows)
  {
  }

  lemma SentGrows(sent: seq<Order>, order: Order, before: Store, mid: Store, after: Store)
    requires SentAreNew(sent, before, mid)
    requires forall id <- before :: id in mid
    requires forall id <- mid :: id in after && after[id] == mid[id]
    ensures SentAreNew(sent, before, after)
    ensures order.clientOrderId !in mid && order.clientOrderId in after && after[order.clientOrderId].payload == order ==>
              SentAreNew(sent + [order], before, after)
  {
    forall i | 0 <= i < |sent|
      ensures sent[i].clientOrderId in mid
    {
      assert sent[i] in sent;
    }
  }

  /** One order more: what was sent is still new, and no row that was there has changed. */
  lemma {:induction false} LeaseSends(sent: seq<Order>, order: Order, env: OrderAnswers, config: Config, first: Store, rows: Store)
    requires SentAreNew(sent, first, rows) && forall id <- first :: id in rows && rows[id] == first[id]
    ensures var after := RowsAfter(rows, order, env, config);
            var one := if Sends(order, env, config, order.clientOrderId in rows) then Some(Rewritten(order)) else None;
            && SentAreNew(sent + Listed(one), first, after)
            && forall id <- first :: id in after && after[id] == first[id]
  {
    OrderRows(rows, order, env, config);
    hide Sends, RowsAfter, Rewritten, SentAreNew;
    SentGrows(sent, Rewritten(order), first, rows, RowsAfter(rows, order, env, config));
    assert sent + [] == sent;
  }

  /** How a command is answered: whether the STOP file is there, and whether the command and the post of its completion succeed. */
  datatype CommandTurn = CommandTurn(stop: bool, completed: bool)

  function PausedBy(command: Command, stop: bool, paused: bool): bool {
    match command
    case Pause => true
    case Resume => stop
    case OtherCommand => paused
  }

  /** The pause flag after all the commands. */
  function PausedAfter(commands: seq<Command>, turn: nat -> CommandTurn, paused: bool): bool {
    if commands == [] then paused
    else PausedBy(commands[|commands| - 1], turn(|commands| - 1).stop, PausedAfter(commands[..|commands| - 1], turn, paused))
  }

  lemma PausedTurns(commands: seq<Command>, turn: nat -> CommandTurn, paused: bool, k: nat)
    requires k <= |commands|
    ensures PausedAfter([], turn, paused) == paused
    ensures k < |commands| ==>
              PausedAfter(commands[..k + 1], turn, paused) == PausedBy(commands[k], turn(k).stop, PausedAfter(commands[..k], turn, paused))
  {
    if k < |commands| {
      assert commands[..k + 1][..k] == commands[..k];
    }
  }

  /** The last pause or resume decides: the process is paused afterwards exactly when it is a pause, or a resume that meets the STOP file. */
  lemma {:induction false} LastCommandDecides(commands: seq<Command>, turn: nat -> CommandTurn, paused: bool, k: nat)
    requires k < |commands| && !commands[k].OtherCommand?
    requires forall j :: k < j < |commands| ==> commands[j].OtherCommand?
    ensures PausedAfter(commands, turn, paused) <==> commands[k].Pause? || turn(k).stop
  {
    if k < |commands| - 1 {
      LastCommandDecides(commands[..|commands| - 1], turn, paused, k);
    }
  }

  /** How many of the commands are handled: all of them, or those up to the first that is not completed. */
  function HandledCount(n: nat, turn: nat -> CommandTurn): (k: nat)
    ensures k <= n && forall j :: 0 <= j < k - 1 ==> turn(j).completed
    ensures k < n ==> k > 0 && !turn(k - 1).completed
  {
    if n == 0 then 0
    else
      var k := HandledCount(n - 1, turn);
      if k == n - 1 && (k == 0 || turn(k - 1).completed) then n else k
  }

  /** The pause flag after the commands that are handled. */
  function PausedAfterHandled(commands: seq<Command>, turn: nat -> CommandTurn, paused: bool): bool {
    PausedAfter(commands[..HandledCount(|commands|, turn)], turn, paused)
  }

  lemma {:induction false} HandledUpTo(commands: seq<Command>, turn: nat -> CommandTurn, paused: bool, i: nat)
    requires i <= |commands| && forall j :: 0 <= j < i ==> turn(j).completed
    ensures i == |commands| ==> PausedAfterHandled(commands, turn, paused) == PausedAfter(commands, turn, paused)
    ensures i < |commands| && !turn(i).completed ==> PausedAfterHandled(commands, turn, paused) == PausedAfter(commands[..i + 1], turn, paused)
  {
    hide PausedAfter;
    var k := HandledCount(|commands|, turn);
    if i == |commands| {
      assert k == |commands|;
      assert commands[..k] == commands;
    } else if !turn(i).completed {
      assert k == i + 1;
    }
  }

  /** A pause that is handled last holds although the post of its completion fails. */
  lemma {:induction false} CutShortPauseHolds(commands: seq<Command>, turn: nat -> CommandTurn, paused: bool, k: nat)
    requires k < |commands| && commands[k].Pause? && !turn(k).completed && forall j :: 0 <= j < k ==> turn(j).completed
    ensures PausedAfterHandled(commands, turn, paused)
  {
    HandledUpTo(commands, turn, paused, k);
    PausedTurns(commands, turn, paused, k);
    hide PausedAfterHandled, PausedAfter;
  }

  /** What the environment answers during one cycle. */
  datatype CycleAnswers = CycleAnswers(
    connected: bool, blocked: bool, leased: bool, order: nat -> OrderAnswers, polled: bool,
    commands: Option<seq<Command>>, turn: nat -> CommandTurn)

  /** The pause flag after a cycle; only a cycle that comes to its commands changes it. */
  function PausedAfterCycle(env: CycleAnswers, paused: bool): bool {
    if env.connected && env.commands.Some? && (env.blocked || paused || (env.leased && env.polled))
    then PausedAfterHandled(env.commands.value, env.turn, paused)
    else paused
  }

  class QmtAgentExecutor {
    const config: Config
    const state: AgentStateStore
    var paused: bool
    ghost const origin: Config
    ghost var actions: seq<Action>
    ghost var machine: State

    /** The actions so far are a run of the protocol over all processes of this table, and it has reached the state that this process is in. */
    ghost predicate Valid()
      reads this, state
    {
      && IsRun(origin, actions) && machine == After(origin, actions)
      && machine.store == state.rows && machine.paused == paused
      && (machine.phase.Down? || machine.config == config)
    }

    /** A process starts on the table that the last one left. */
    constructor (config: Config, state: AgentStateStore, ghost origin: Config, ghost past: seq<Action>)
      requires IsRun(origin, past) && After(origin, past).store == state.rows
      ensures Valid() && machine.phase.Down? && this.config == config && this.state == state && !paused
      ensures this.origin == origin && actions == past + [Crash]
    {
      this.config, this.state, paused := config, state, false;
      this.origin, actions := origin, past + [Crash];
      machine := Apply(After(origin, past), Crash);
      ExtendRun(origin, past, Crash);
    }

    /** The run goes one enabled action further. */
    ghost method Step(a: Action)
      requires IsRun(origin, actions) && machine == After(origin, actions) && Enabled(machine, a)
      modifies this`actions, this`machine
      ensures IsRun(origin, actions) && machine == After(origin, actions)
      ensures machine == Apply(old(machine), a) && actions == old(actions) + [a]
      ensures SentOrders(machine.log) == SentOrders(old(machine.log)) + if a.Submit? then [old(machine).phase.order] else []
      ensures ReportsOf(machine.log) == ReportsOf(old(machine.log)) + if a.Report? then [ReportOf(old(machine).phase)] else []
    {
      hide Apply, IsRun, After, SentOrders, ReportsOf;
      SentAfterStep(machine, a);
      ReportsAfterStep(machine, a);
      hide Enabled;
      ExtendRun(origin, actions, a);
      machine := Apply(machine, a);
      actions := actions + [a];
    }

    /** A step whose target is known. */
    ghost method StepTo(a: Action, phase: Phase, store: Store, leases: seq<Order>)
      requires IsRun(origin, actions) && machine == After(origin, actions) && Moves(machine, a, phase, store, leases)
      modifies this`actions, this`machine
      ensures IsRun(origin, actions) && machine == After(origin, actions)
      ensures machine.phase == phase && machine.store == store && machine.leases == leases
      ensures machine.paused == old(machine.paused) && machine.config == old(machine.config)
      ensures actions == old(actions) + [a]
      ensures SentOrders(machine.log) == SentOrders(old(machine.log)) + if a.Submit? then [old(machine).phase.order] else []
      ensures ReportsOf(machine.log) == ReportsOf(old(machine.log)) + if a.Report? then [ReportOf(old(machine).phase)] else []
    {
      hide Apply, IsRun, After, SentOrders, ReportsOf;
      Step(a);
    }

    /** `_validate_before_submit` on an order that it rewrites in place. */
    method ValidateOrder(order: LeasedOrder, r: Readings, checkIdempotency: bool) returns (verdict: Verdict)
      modifies order
      ensures verdict == ValidateBeforeSubmit(old(order.Value()), r, config, checkIdempotency && old(order.Value()).clientOrderId in state.rows)
      ensures verdict == Passed ==> order.Value() == Rewritten(old(order.Value()))
      ensures order.Value() in {old(order.Value()), Rewritten(old(order.Value()))}
    {
      hide CheckConstraints, CheckLocalIdentity;
      verdict := ValidateExecutionConstraints(order, r.clock1, config.zone);
      if verdict != Passed { return; }
      RewritingIsIdempotent(old(order.Value()));
      hide Rewritten;
      if CheckLocalIdentity(order.Value(), config, r.stop1) != Pass { return Refused; }
      if r.session1 != Holds { return GateVerdict(r.session1); }
      verdict := ValidateExecutionConstraints(order, r.clock2, config.zone);
      if verdict != Passed { return; }
      if r.market != Holds { return GateVerdict(r.market); }
      if r.capacity != Holds { return GateVerdict(r.capacity); }
      if checkIdempotency {
        var row := state.Get(order.Value().clientOrderId);
        if row.Some? { return Refused; }
      }
      verdict := ValidateExecutionConstraints(order, r.clock3, config.zone);
      if verdict != Passed { return; }
      if CheckLocalIdentity(order.Value(), config, r.stop3) != Pass { return Refused; }
      verdict := GateVerdict(r.final);
    }

    /** `execute_order`; `sent` is the order that the broker was handed, if it was called, and `report` what was posted about it at the end. */
    method ExecuteOrder(order: LeasedOrder, env: OrderAnswers) returns (sent: Option<Order>, report: Option<SubmissionReport>)
      requires Valid() && machine.phase.Ordering? && machine.leases != [] && machine.leases[0] == order.Value()
      modifies order, state, this`actions, this`machine
      ensures Valid() && machine.phase.Ordering? && machine.leases == old(machine.leases)[1..]
      ensures sent == if Sends(old(order.Value()), env, config, old(order.Value()).clientOrderId in old(state.rows))
                      then Some(Rewritten(old(order.Value()))) else None
      ensures report == ReportAfter(old(order.Value()), env, config, old(order.Value()).clientOrderId in old(state.rows))
      ensures SentOrders(machine.log) == SentOrders(old(machine.log)) + Listed(sent)
      ensures ReportsOf(machine.log) == ReportsOf(old(machine.log)) + Listed(report)
      ensures state.rows == RowsAfter(old(state.rows), old(order.Value()), env, config)
    {
      hide ValidateBeforeSubmit, CheckAck, Rewritten, IsRun, After, SentOrders, ReportsOf, Apply, Enabled, Moves, FinalMark, PassesSecond, WithMark, MarkReport;
      sent, report := None, None;
      RewritingIsIdempotent(order.Value());
      var verdict := ValidateOrder(order, env.first, true);
      ghost var rest := machine.leases[1..];
      ValidateMoves(machine, env.first);
      StepTo(Validate(env.first),
        if verdict != Passed then Ordering else if config.dryRun then Reporting(order.Value(), None, false, "") else Validated(order.Value()),
        state.rows, rest);
      if verdict != Passed { return; }
      if config.dryRun {
        report := Some(SubmissionReport(order.Value().clientOrderId, None, false, ""));
        ReportMoves(machine);
        StepTo(Report, Ordering, state.rows, rest);
        return;
      }
      if !env.recorded {
        PersistMoves(machine, false);
        StepTo(Persist(false), Ordering, state.rows, rest);
        return;
      }
      state.MarkSubmitting(order.Value().clientOrderId, order.Value());
      PersistMoves(machine, true);
      StepTo(Persist(true), Recorded(order.Value()), state.rows, rest);
      sent, report := AnnounceRecorded(order, env);
    }

    /** From the durable row on: the server's acknowledgement, and what follows from it. */
    method AnnounceRecorded(order: LeasedOrder, env: OrderAnswers) returns (sent: Option<Order>, report: Option<SubmissionReport>)
      requires Valid() && machine.phase == Recorded(order.Value()) && Rewritten(order.Value()) == order.Value()
      requires order.Value().clientOrderId in state.rows
      modifies order, state, this`actions, this`machine
      ensures Valid() && machine.phase.Ordering? && machine.leases == old(machine.leases)
      ensures sent == if PassesSecond(old(order.Value()), env, config) then Some(old(order.Value())) else None
      ensures report == MarkReport(old(order.Value()), env, config)
      ensures SentOrders(machine.log) == SentOrders(old(machine.log)) + Listed(sent)
      ensures ReportsOf(machine.log) == ReportsOf(old(machine.log)) + Listed(report)
      ensures state.rows == WithMark(old(state.rows), old(order.Value()).clientOrderId, FinalMark(old(order.Value()), env, config), env.settled)
    {
      hide ValidateBeforeSubmit, CheckAck, Rewritten, IsRun, After, SentOrders, ReportsOf, Apply, Enabled, Moves, WithResult, SecondVerdict;
      sent, report := None, None;
      AnnounceMoves(machine, env.response);
      StepTo(Announce(env.response),
        if env.response.None? then Settling(order.Value(), ReconciliationRequired, false, "") else Acknowledged(order.Value(), env.response.value),
        state.rows, machine.leases);
      if env.response.None? {
        report := SettleAndReport(order.Value(), ReconciliationRequired, false, "", env.settled);
        return;
      }
      sent, report := ConcludeAcknowledged(order, env);
    }

    /** From the server's answer on: the second validation, and the call. */
    method ConcludeAcknowledged(order: LeasedOrder, env: OrderAnswers) returns (sent: Option<Order>, report: Option<SubmissionReport>)
      requires Valid() && env.response.Some? && machine.phase == Acknowledged(order.Value(), env.response.value)
      requires Rewritten(order.Value()) == order.Value() && order.Value().clientOrderId in state.rows
      modifies order, state, this`actions, this`machine
      ensures Valid() && machine.phase.Ordering? && machine.leases == old(machine.leases)
      ensures sent == if PassesSecond(old(order.Value()), env, config) then Some(old(order.Value())) else None
      ensures report == MarkReport(old(order.Value()), env, config)
      ensures SentOrders(machine.log) == SentOrders(old(machine.log)) + Listed(sent)
      ensures ReportsOf(machine.log) == ReportsOf(old(machine.log)) + Listed(report)
      ensures state.rows == WithMark(old(state.rows), old(order.Value()).clientOrderId, FinalMark(old(order.Value()), env, config), env.settled)
    {
      hide ValidateBeforeSubmit, CheckAck, Rewritten, IsRun, After, SentOrders, ReportsOf, Apply, Enabled, Moves, WithResult;
      sent, report := None, None;
      var verdict := Refused;
      if CheckAck(env.response.value, order.Value()) == Pass {
        verdict := ValidateOrder(order, env.second, false);
      }
      RevalidateMoves(machine, env.second);
      StepTo(Revalidate(env.second),
        (match verdict
         case Passed => Cleared(order.Value())
         case Refused => Settling(order.Value(), Failed, false, "")
         case Escaped => Ordering),
        state.rows, machine.leases);
      match verdict {
        case Escaped => return;
        case Refused => report := SettleAndReport(order.Value(), Failed, false, "", env.settled);
        case Passed =>
          sent := Some(order.Value());
          report := SubmitCleared(order.Value(), env);
      }
    }

    /** The one call of the broker. */
    method SubmitCleared(order: Order, env: OrderAnswers) returns (report: Option<SubmissionReport>)
      requires Valid() && machine.phase == Cleared(order) && order.clientOrderId in state.rows
      modifies state, this`actions, this`machine
      ensures Valid() && machine.phase.Ordering? && machine.leases == old(machine.leases)
      ensures report == (if env.settled
                         then Some(SubmissionReport(order.clientOrderId, Some(OutcomeMark(env.outcome).0), true, OutcomeMark(env.outcome).1)) else None)
      ensures SentOrders(machine.log) == SentOrders(old(machine.log)) + [order]
      ensures ReportsOf(machine.log) == ReportsOf(old(machine.log)) + Listed(report)
      ensures state.rows == WithMark(old(state.rows), order.clientOrderId, Some(OutcomeMark(env.outcome)), env.settled)
    {
      hide ValidateBeforeSubmit, CheckAck, Rewritten, IsRun, After, SentOrders, ReportsOf, Apply, Enabled, Moves, WithResult;
      SubmitMoves(machine, env.outcome);
      match env.outcome {
        case Raised =>
          StepTo(Submit(env.outcome), Settling(order, ReconciliationRequired, true, ""), state.rows, machine.leases);
          report := SettleAndReport(order, ReconciliationRequired, true, "", env.settled);
        case Returned(accepted, brokerOrderId) =>
          var status := if accepted then Submitted else BrokerRejected;
          StepTo(Submit(env.outcome), Settling(order, status, true, brokerOrderId), state.rows, machine.leases);
          report := SettleAndReport(order, status, true, brokerOrderId, env.settled);
      }
    }

    /** The last durable action of an order, and its report. */
    method SettleAndReport(order: Order, status: OrderStatus, attempted: bool, brokerOrderId: string, settled: bool)
      returns (report: Option<SubmissionReport>)
      requires Valid() && order.clientOrderId in state.rows
      requires machine.phase == Settling(order, status, attempted, brokerOrderId)
      modifies state, this`actions, this`machine
      ensures Valid() && machine.phase.Ordering? && machine.leases == old(machine.leases)
      ensures report == if settled then Some(SubmissionReport(order.clientOrderId, Some(status), attempted, brokerOrderId)) else None
      ensures SentOrders(machine.log) == SentOrders(old(machine.log))
      ensures ReportsOf(machine.log) == ReportsOf(old(machine.log)) + Listed(report)
      ensures state.rows == if settled then WithResult(old(state.rows), order.clientOrderId, status, brokerOrderId) else old(state.rows)
    {
      hide ValidateBeforeSubmit, CheckAck, Rewritten, IsRun, After, SentOrders, ReportsOf, Apply, Enabled, Moves;
      if settled {
        state.MarkResult(order.clientOrderId, status, brokerOrderId);
        SettleMoves(machine, true);
        StepTo(Settle(true), Reporting(order, Some(status), attempted, brokerOrderId), state.rows, machine.leases);
        report := Some(SubmissionReport(order.clientOrderId, Some(status), attempted, brokerOrderId));
        ReportMoves(machine);
        StepTo(Report, Ordering, state.rows, machine.leases);
      } else {
        SettleMoves(machine, false);
        StepTo(Settle(false), Ordering, state.rows, machine.leases);
        report := None;
      }
    }

    /** The process looks up the unresolved rows. */
    ghost method StepStart(ids: seq<string>)
      requires Valid() && machine.phase.Down? && !paused && ListsUnresolved(ids, state.rows)
      modifies this`actions, this`machine
      ensures Valid() && machine.phase == Recovering(ids)
      ensures SentOrders(machine.log) == SentOrders(old(machine.log))
    {
      hide IsRun, After, SentOrders, ReportsOf, ListsUnresolved;
      Step(Start(config, ids));
    }

    /** `recover_uncertain_submissions`; it is cut short where a query of the broker raises. */
    method RecoverUncertainSubmissions(answers: string -> Option<Answers>) returns (completed: bool, reports: seq<RecoveryReport>)
      requires Valid() && machine.phase.Down? && !paused
      modifies state, this`actions, this`machine
      ensures Valid() && !paused
      ensures SentOrders(machine.log) == SentOrders(old(machine.log))
      ensures completed <==> forall id <- old(state.rows) :: IsUnresolved(old(state.rows)[id].status) ==> answers(id).Some?
      ensures completed ==> machine.phase.Idle? && state.rows == PassResult(old(state.rows), Given(answers))
      ensures completed ==> exists ids :: ListsUnresolved(ids, old(state.rows)) && ReportsRows(reports, ids, old(state.rows), Given(answers))
      ensures !completed ==> machine.phase.Recovering? && state.rows.Keys == old(state.rows).Keys && reports == []
      ensures forall id <- old(state.rows) ::
                state.rows[id] == old(state.rows)[id] || state.rows[id] == PassResult(old(state.rows), Given(answers))[id]
    {
      hide IsRun, After, SentOrders, ReportsOf, Apply, Enabled, Moves, RecoveryReportOf, RecoveredAll, RecoveredRow, ReportsRows;
      var records := state.rows;
      var ids := state.Unresolved();
      StepStart(ids);
      completed, reports := RecoverRows(ids, records, answers);
      if completed {
        OnePass(records, ids, Given(answers));
        FinishMoves(machine);
        StepTo(FinishRecovery, Idle, state.rows, machine.leases);
      } else {
        reports := [];
      }
    }

    /** The recovery loop over the records read at its start. */
    method RecoverRows(ids: seq<string>, records: Store, answers: string -> Option<Answers>) returns (completed: bool, reports: seq<RecoveryReport>)
      requires Valid() && machine.phase == Recovering(ids) && state.rows == records && ListsUnresolved(ids, records)
      modifies state, this`actions, this`machine
      ensures Valid() && paused == old(paused) && SentOrders(machine.log) == SentOrders(old(machine.log))
      ensures completed <==> forall id <- ids :: answers(id).Some?
      ensures completed ==> machine.phase == Recovering([]) && state.rows == RecoveredAll(records, ids, Given(answers))
      ensures completed ==> ReportsRows(reports, ids, records, Given(answers))
      ensures !completed ==> machine.phase.Recovering? && state.rows.Keys == records.Keys
      ensures forall id <- records :: state.rows[id] in {records[id], PassResult(records, Given(answers))[id]}
    {
      hide IsRun, After, SentOrders, ReportsOf, Apply, Enabled, Moves, RecoveryMatch, RecoveredStore, WithResult, RecoveryReportOf, RecoveredAll, ReportsRows,
        PassResult, ListsUnresolved;
      reports := [];
      ListedAreStored(ids, records);
      NothingRecovered(records, ids, Given(answers));
      var i := 0;
      while i < |ids|
        invariant i <= |ids| && Valid() && machine.phase == Recovering(ids[i..])
        invariant SentOrders(machine.log) == SentOrders(old(machine.log))
        invariant state.rows == RecoveredAll(records, ids[..i], Given(answers))
        invariant forall id <- ids[..i] :: answers(id).Some?
        invariant ReportsRows(reports, ids[..i], records, Given(answers))
      {
        var id := ids[i];
        RecoveredPrefix(records, ids, i, Given(answers));
        if answers(id).None? {
          return false, [];
        }
        var report := RecoverRowOf(id, records[id], answers(id).value);
        RecoveredNext(records, ids, i, Given(answers), reports);
        reports := reports + [report];
        assert ids[i..][1..] == ids[i + 1..] && ids[..i + 1] == ids[..i] + [id];
        i := i + 1;
      }
      assert ids[..|ids|] == ids;
      AllRecovered(records, ids, Given(answers));
      completed := true;
    }

    /** One turn of the recovery loop, on the record read at its start. */
    method RecoverRowOf(id: string, record: Row, answers: Answers) returns (report: RecoveryReport)
      requires Valid() && machine.phase.Recovering? && machine.phase.todo != [] && machine.phase.todo[0] == id
      requires id in state.rows && state.rows[id] == record
      modifies state, this`actions, this`machine
      ensures Valid() && machine.phase == Recovering(old(machine.phase.todo)[1..])
      ensures SentOrders(machine.log) == SentOrders(old(machine.log))
      ensures state.rows == RecoveredStore(old(state.rows), id, answers.listed, answers.listedAgain)
      ensures report == RecoveryReportOf(id, record, answers)
    {
      hide IsRun, After, SentOrders, ReportsOf, Apply, Enabled, Moves, WithResult;
      var found := QueryOrder(answers.listed, id, record.brokerOrderId);
      var status, matched, count := ReconciliationRequired, "", 0;
      if found.Some? {
        status := if MappedStatus(found.value.state).Some? then MappedStatus(found.value.state).value else ReconciliationRequired;
        matched := found.value.orderId;
      } else {
        var candidates := FindOrderCandidates(answers.listedAgain, record.payload.assetCode,
                                              FieldValue(record.payload.quantity), FieldValue(record.payload.limitPrice));
        count := |candidates|;
        if count == 1 {
          matched := candidates[0].orderId;
        }
      }
      RecoverMoves(machine, answers.listed, answers.listedAgain);
      state.MarkResult(id, status, matched);
      report := RecoveryReport(id, status, matched, found.Some?, count);
      StepTo(RecoverRow(answers.listed, answers.listedAgain), Recovering(machine.phase.todo[1..]), state.rows, machine.leases);
    }

    /** One command, and whether its completion was posted. */
    ghost method StepCommand(turn: CommandTurn, pausedNow: bool)
      requires IsRun(origin, actions) && machine == After(origin, actions)
      requires machine.phase.Commanding? && machine.phase.commands != []
      requires pausedNow == PausedBy(machine.phase.commands[0], turn.stop, machine.paused)
      modifies this`actions, this`machine
      ensures IsRun(origin, actions) && machine == After(origin, actions)
      ensures machine.phase == if turn.completed then Commanding(old(machine.phase).commands[1..]) else Idle
      ensures machine.store == old(machine.store) && machine.leases == old(machine.leases) && machine.config == old(machine.config)
      ensures machine.paused == pausedNow
      ensures SentOrders(machine.log) == SentOrders(old(machine.log))
    {
      hide IsRun, After, SentOrders, ReportsOf;
      Step(ProcessCommand(turn.stop, turn.completed));
    }

    /** `process_commands`, cut short where a command or the post of its completion raises. */
    method ProcessCommands(commands: seq<Command>, turn: nat -> CommandTurn) returns (completed: bool)
      requires Valid() && machine.phase.Polling?
      modifies this
      ensures Valid() && machine.phase.Idle? && state.rows == old(state.rows)
      ensures SentOrders(machine.log) == SentOrders(old(machine.log))
      ensures completed <==> forall i :: 0 <= i < |commands| ==> turn(i).completed
      ensures paused == PausedAfterHandled(commands, turn, old(paused))
    {
      hide IsRun, After, SentOrders, ReportsOf, Apply, Enabled, Moves, PausedAfter, PausedAfterHandled;
      PausedTurns(commands, turn, paused, 0);
      CommandsMove(machine, commands);
      StepTo(LeaseCommands(commands), Commanding(commands), state.rows, machine.leases);
      var i := 0;
      while i < |commands|
        invariant i <= |commands| && Valid() && machine.phase == Commanding(commands[i..])
        invariant SentOrders(machine.log) == SentOrders(old(machine.log))
        invariant forall j :: 0 <= j < i ==> turn(j).completed
        invariant paused == PausedAfter(commands[..i], turn, old(paused))
        invariant state.rows == old(state.rows)
      {
        assert commands[i..][1..] == commands[i + 1..];
        PausedTurns(commands, turn, old(paused), i);
        HandleCommand(commands[i], turn(i));
        HandledUpTo(commands, turn, old(paused), i);
        if !turn(i).completed {
          return false;
        }
        i := i + 1;
      }
      assert commands[..|commands|] == commands;
      HandledUpTo(commands, turn, old(paused), |commands|);
      EndCycleMoves(machine);
      StepTo(EndCycle, Idle, state.rows, machine.leases);
      completed := true;
    }

    /** One command: the pause flag is set before its completion is posted. */
    method HandleCommand(command: Command, turn: CommandTurn)
      requires Valid() && machine.phase.Commanding? && machine.phase.commands != [] && machine.phase.commands[0] == command
      modifies this
      ensures Valid() && state.rows == old(state.rows) && SentOrders(machine.log) == SentOrders(old(machine.log))
      ensures paused == PausedBy(command, turn.stop, old(paused))
      ensures machine.phase == if turn.completed then Commanding(old(machine.phase).commands[1..]) else Idle
    {
      hide IsRun, After, SentOrders, ReportsOf, Apply, Enabled, Moves;
      match command {
        case Pause => paused := true;
        case Resume =>
          var success := !turn.stop;
          paused := !success;
        case OtherCommand =>
      }
      StepCommand(turn, paused);
    }

    /** The leased orders of a cycle, one after the other; a failing order does not stop the next. */
    method ExecuteLeases(leases: seq<LeasedOrder>, answers: nat -> OrderAnswers) returns (sent: seq<Order>)
      requires Valid() && machine.phase.Ordering? && machine.leases == Values(leases)
      requires forall i, j :: 0 <= i < j < |leases| ==> leases[i] != leases[j]
      modifies leases, state, this`actions, this`machine
      ensures Valid() && machine.phase.Polling?
      ensures forall id <- old(state.rows) :: id in state.rows && state.rows[id] == old(state.rows)[id]
      ensures SentAreNew(sent, old(state.rows), state.rows)
      ensures SentOrders(machine.log) == SentOrders(old(machine.log)) + sent
    {
      hide IsRun, After, SentOrders, ReportsOf, Apply, Enabled, Moves, Sends, RowsAfter, Rewritten, SentAreNew, ReportAfter;
      sent := [];
      NothingSent(state.rows);
      var i := 0;
      while i < |leases|
        invariant i <= |leases| && Valid() && machine.phase.Ordering? && machine.leases == Values(leases[i..])
        invariant forall id <- old(state.rows) :: id in state.rows && state.rows[id] == old(state.rows)[id]
        invariant SentAreNew(sent, old(state.rows), state.rows)
        invariant SentOrders(machine.log) == SentOrders(old(machine.log)) + sent
      {
        ghost var order, before := leases[i].Value(), state.rows;
        ghost var rest := leases[i + 1..];
        ghost var values := Values(rest);
        assert leases[i..][1..] == rest;
        var one, report := ExecuteOrder(leases[i], answers(i));
        assert Values(rest) == values;
        LeaseSends(sent, order, answers(i), config, old(state.rows), before);
        sent := sent + Listed(one);
        i := i + 1;
      }
      EndOrdersMoves(machine);
      StepTo(EndOrders, Polling, state.rows, machine.leases);
    }

    ghost function Values(leases: seq<LeasedOrder>): (values: seq<Order>)
      reads leases
      ensures |values| == |leases|
    {
      seq(|leases|, i requires 0 <= i < |leases| reads leases => leases[i].Value())
    }

    /** `run_once` without the broker's facts that it only forwards. */
    method RunOnce(leases: seq<LeasedOrder>, env: CycleAnswers) returns (completed: bool, sent: seq<Order>)
      requires Valid() && machine.phase.Idle?
      requires forall i, j :: 0 <= i < j < |leases| ==> leases[i] != leases[j]
      modifies leases, state, this
      ensures Valid() && machine.phase.Idle?
      ensures old(paused) || env.blocked || !env.connected ==> sent == [] && state.rows == old(state.rows)
      ensures forall id <- old(state.rows) :: id in state.rows && state.rows[id] == old(state.rows)[id]
      ensures SentAreNew(sent, old(state.rows), state.rows)
      ensures SentOrders(machine.log) == SentOrders(old(machine.log)) + sent
      ensures paused == PausedAfterCycle(env, old(paused))
    {
      hide IsRun, After, SentOrders, ReportsOf, Apply, Enabled, Moves, PausedAfter, PausedAfterHandled, SentAreNew;
      sent := [];
      NothingSent(state.rows);
      if !env.connected {
        FailMoves(machine);
        StepTo(FailCycle, Idle, state.rows, machine.leases);
        return false, sent;
      }
      BeginMoves(machine, env.blocked, Values(leases));
      if env.blocked || paused {
        StepTo(BeginCycle(env.blocked, Values(leases)), Polling, state.rows, machine.leases);
      } else if !env.leased {
        FailMoves(machine);
        StepTo(FailCycle, Idle, state.rows, machine.leases);
        return false, sent;
      } else {
        StepTo(BeginCycle(env.blocked, Values(leases)), Ordering, state.rows, Values(leases));
        sent := ExecuteLeases(leases, env.order);
        if !env.polled {
          FailMoves(machine);
          StepTo(FailCycle, Idle, state.rows, machine.leases);
          return false, sent;
        }
      }
      if env.commands.None? {
        FailMoves(machine);
        StepTo(FailCycle, Idle, state.rows, machine.leases);
        return false, sent;
      }
      completed := ProcessCommands(env.commands.value, env.turn);
    }
  }
}
