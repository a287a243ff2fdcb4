/** What the reports of submissions say: the status and the broker id that have just been stored, and what the broker or the server did. */
module Reports {
  import opened Outcomes
  import SubmissionV2
  import opened Orders
  import opened BrokerReads
  import opened Protocol

  /** What the broker's answer to the call makes of an order. */
  predicate IsOutcome(outcome: BrokerOutcome, status: OrderStatus, brokerOrderId: string) {
    match outcome
    case Raised => status == ReconciliationRequired && brokerOrderId == ""
    case Returned(accepted, id) => brokerOrderId == id && status == if accepted then Submitted else BrokerRejected
  }

  /** The log up to `n` ends with what settles the order: the broker's outcome, a refused acknowledgement or second validation, or a server that did not answer. */
  ghost predicate EndsSettling(log: seq<Event>, n: nat, id: string, status: OrderStatus, attempted: bool, brokerOrderId: string) {
    && 1 <= n <= |log|
    && match log[n - 1]
       case BrokerCalled(order, outcome) => order.clientOrderId == id && attempted && IsOutcome(outcome, status, brokerOrderId)
       case Answered(order, _) => order.clientOrderId == id && !attempted && status == Failed && brokerOrderId == ""
       case Persisted(order) => order.clientOrderId == id && !attempted && status == ReconciliationRequired && brokerOrderId == ""
       case _ => false
  }

  /** The log up to `n` ends with what is to be reported: the mark just stored, or a validation under dry run. */
  ghost predicate EndsReporting(log: seq<Event>, n: nat, id: string, outcome: Option<OrderStatus>, attempted: bool, brokerOrderId: string) {
    && 1 <= n <= |log|
    && match outcome
       case Some(status) => log[n - 1] == Marked(id, status, brokerOrderId) && EndsSettling(log, n - 1, id, status, attempted, brokerOrderId)
       case None =>
         && log[n - 1].Checked? && log[n - 1].config.dryRun && log[n - 1].order.clientOrderId == id
         && !attempted && brokerOrderId == ""
  }

  predicate RowHas(store: Store, id: string, status: OrderStatus, brokerOrderId: string) {
    id in store && store[id].status == status && store[id].brokerOrderId == brokerOrderId
  }

  /** The log ends with what the phase is about to settle or report, and the row of a reported status has it. */
  ghost predicate TracksReport(s: State) {
    match s.phase
    case Recorded(order) => s.log != [] && s.log[|s.log| - 1] == Persisted(order)
    case Acknowledged(order, ack) => s.log != [] && s.log[|s.log| - 1] == Answered(order, ack)
    case Settling(order, status, attempted, brokerOrderId) => EndsSettling(s.log, |s.log|, order.clientOrderId, status, attempted, brokerOrderId)
    case Reporting(order, outcome, attempted, brokerOrderId) =>
      && EndsReporting(s.log, |s.log|, order.clientOrderId, outcome, attempted, brokerOrderId)
      && (outcome.Some? ==> RowHas(s.store, order.clientOrderId, outcome.value, brokerOrderId))
    case _ => true
  }

  ghost predicate ReportIsSound(log: seq<Event>, i: nat)
    requires i < |log|
  {
    log[i].Reported? ==> EndsReporting(log, i, log[i].id, log[i].outcome, log[i].attempted, log[i].brokerOrderId)
  }

  lemma {:induction false} SettlingInLongerLog(
    log: seq<Event>, longer: seq<Event>, n: nat, id: string, status: OrderStatus, attempted: bool, brokerOrderId: string)
    requires |log| <= |longer| && longer[..|log|] == log && EndsSettling(log, n, id, status, attempted, brokerOrderId)
    ensures EndsSettling(longer, n, id, status, attempted, brokerOrderId)
  {
    hide IsOutcome;
    assert longer[n - 1] == log[n - 1];
  }

  lemma {:induction false} ReportingInLongerLog(
    log: seq<Event>, longer: seq<Event>, n: nat, id: string, outcome: Option<OrderStatus>, attempted: bool, brokerOrderId: string)
    requires |log| <= |longer| && longer[..|log|] == log && EndsReporting(log, n, id, outcome, attempted, brokerOrderId)
    ensures EndsReporting(longer, n, id, outcome, attempted, brokerOrderId)
  {
    hide EndsSettling;
    assert longer[n - 1] == log[n - 1];
    if outcome.Some? {
      SettlingInLongerLog(log, longer, n - 1, id, outcome.value, attempted, brokerOrderId);
    }
  }

  lemma {:induction false} SettleKeepsReport(s: State, stored: bool)
    requires s.phase.Settling? && TracksReport(s) && s.phase.order.clientOrderId in s.store
    ensures TracksReport(Apply(s, Settle(stored)))
  {
    hide ValidateBeforeSubmit, CheckAck, Rewritten, RecoveryMatch, EndsSettling;
    var next := Apply(s, Settle(stored));
    if stored {
      SettlingInLongerLog(s.log, next.log, |s.log|, s.phase.order.clientOrderId, s.phase.status, s.phase.attempted, s.phase.brokerOrderId);
    }
  }

  lemma {:induction false} ValidateLeavesReport(s: State, r: Readings)
    requires s.phase.Ordering? && s.leases != []
    ensures TracksReport(Apply(s, Validate(r)))
  {
    hide ValidateBeforeSubmit;
  }

  lemma {:induction false} AnswersKeepReport(s: State, a: Action)
    requires Enabled(s, a) && TracksReport(s) && (a.Persist? || a.Announce? || a.Revalidate? || a.Submit?)
    ensures TracksReport(Apply(s, a))
  {
    hide ValidateBeforeSubmit, CheckAck, Rewritten, RecoveryMatch, WithSubmitting;
  }

  lemma {:induction false} StepKeepsReport(s: State, a: Action)
    requires Enabled(s, a) && TracksReport(s) && (s.phase.Settling? ==> s.phase.order.clientOrderId in s.store)
    ensures TracksReport(Apply(s, a))
  {
    hide ValidateBeforeSubmit, CheckAck, Rewritten, RecoveryMatch, RecoveredStore;
    match a {
      case Validate(r) => ValidateLeavesReport(s, r);
      case Persist(_) => AnswersKeepReport(s, a);
      case Announce(_) => AnswersKeepReport(s, a);
      case Revalidate(_) => AnswersKeepReport(s, a);
      case Submit(_) => AnswersKeepReport(s, a);
      case Settle(stored) => SettleKeepsReport(s, stored);
      case _ => hide EndsSettling, EndsReporting, RowHas;
    }
  }

  /** Only the report step logs a report, and logs what its phase holds. */
  lemma {:induction false} NewReportIsSound(s: State, a: Action)
    requires Enabled(s, a) && TracksReport(s) && |Apply(s, a).log| == |s.log| + 1
    ensures ReportIsSound(Apply(s, a).log, |s.log|)
  {
    hide ValidateBeforeSubmit, CheckAck, Rewritten, RecoveryMatch, RecoveredStore, EndsSettling, RowHas;
    if a.Report? {
      hide EndsReporting;
      ReportingInLongerLog(s.log, Apply(s, a).log, |s.log|, s.phase.order.clientOrderId, s.phase.outcome, s.phase.attempted, s.phase.brokerOrderId);
    }
  }

  ghost predicate ReportsInv(s: State) {
    TracksReport(s) && forall i :: 0 <= i < |s.log| ==> ReportIsSound(s.log, i)
  }

  lemma {:induction false} SoundInLonger(log: seq<Event>, longer: seq<Event>, i: nat)
    requires i < |log| <= |longer| && longer[..|log|] == log && ReportIsSound(log, i)
    ensures ReportIsSound(longer, i)
  {
    hide EndsReporting;
    assert longer[i] == log[i];
    if log[i].Reported? {
      ReportingInLongerLog(log, longer, i, log[i].id, log[i].outcome, log[i].attempted, log[i].brokerOrderId);
    }
  }

  lemma {:induction false} StepKeepsReports(s: State, a: Action)
    requires Enabled(s, a) && Inv(s) && ReportsInv(s)
    ensures ReportsInv(Apply(s, a))
  {
    SettlingHasRow(s);
    hide *;
    hide ReportsInv;
    TracksNow(s);
    StepKeepsReport(s, a);
    StepKeepsLog(s, a);
    var next := Apply(s, a);
    forall i | 0 <= i < |next.log|
      ensures ReportIsSound(next.log, i)
    {
      if i < |s.log| {
        SoundNow(s, i);
        SoundInLonger(s.log, next.log, i);
      } else {
        NewReportIsSound(s, a);
      }
    }
    AllSound(next);
  }

  lemma {:induction false} SettlingHasRow(s: State)
    requires Inv(s)
    ensures s.phase.Settling? ==> s.phase.order.clientOrderId in s.store
  {
    hide EventIsSound, CallIsStored, TrailMatchesPhase, Calls;
    if s.phase.Settling? {
      assert CallsMatchStore(s, s.phase.order.clientOrderId);
    }
  }

  lemma {:induction false} TracksNow(s: State)
    requires ReportsInv(s)
    ensures TracksReport(s)
  {
    hide TracksReport, ReportIsSound;
  }

  lemma {:induction false} SoundNow(s: State, i: nat)
    requires ReportsInv(s) && i < |s.log|
    ensures ReportIsSound(s.log, i)
  {
    hide TracksReport, ReportIsSound;
  }

  lemma {:induction false} AllSound(s: State)
    requires TracksReport(s) && forall i :: 0 <= i < |s.log| ==> ReportIsSound(s.log, i)
    ensures ReportsInv(s)
  {
    hide TracksReport, ReportIsSound;
  }

  lemma {:induction false} RunKeepsReports(config: Config, actions: seq<Action>)
    requires IsRun(config, actions)
    ensures ReportsInv(After(config, actions))
  {
    hide Inv, Apply, Enabled, ReportsInv;
    if actions == [] {
      NothingReported(config);
    } else {
      var front := actions[..|actions| - 1];
      RunKeepsReports(config, front);
      RunKeepsInv(config, front);
      StepKeepsReports(After(config, front), actions[|actions| - 1]);
    }
  }

  lemma {:induction false} NothingReported(config: Config)
    ensures ReportsInv(Init(config))
  {
  }

  // ---------------------------------------------------------------- what a report tells

  /** In every run, a report of a status comes right after the mark that stored it with its broker id, which comes right after what it tells: SUBMITTED exactly a call that the broker accepted, BROKER_REJECTED one that it did not, FAILED an answer of the server without a call, RECONCILIATION_REQUIRED a call that raised or a row that the server did not answer for. A report without status comes right after a validation under dry run. */
  lemma {:induction false} ReportsTellWhatHappened(config: Config, actions: seq<Action>, i: nat)
    requires IsRun(config, actions) && i < |After(config, actions).log| && After(config, actions).log[i].Reported?
    ensures var log := After(config, actions).log;
            var id, outcome, attempted, brokerOrderId := log[i].id, log[i].outcome, log[i].attempted, log[i].brokerOrderId;
            && (outcome.None? ==>
                 && i >= 1 && log[i - 1].Checked? && log[i - 1].config.dryRun && log[i - 1].order.clientOrderId == id
                 && !attempted && brokerOrderId == "")
            && (outcome.Some? ==>
                 && i >= 2 && log[i - 1] == Marked(id, outcome.value, brokerOrderId)
                 && (log[i - 2].BrokerCalled? || log[i - 2].Answered? || log[i - 2].Persisted?) && log[i - 2].order.clientOrderId == id
                 && (attempted <==> log[i - 2].BrokerCalled?)
                 && (outcome.value == Submitted <==> log[i - 2].BrokerCalled? && log[i - 2].answer.Returned? && log[i - 2].answer.accepted)
                 && (outcome.value == BrokerRejected <==> log[i - 2].BrokerCalled? && log[i - 2].answer.Returned? && !log[i - 2].answer.accepted)
                 && (outcome.value == Failed <==> log[i - 2].Answered?)
                 && (outcome.value == ReconciliationRequired <==> log[i - 2].Persisted? || (log[i - 2].BrokerCalled? && log[i - 2].answer.Raised?))
                 && brokerOrderId == if log[i - 2].BrokerCalled? && log[i - 2].answer.Returned? then log[i - 2].answer.brokerOrderId else "")
  {
    RunKeepsReports(config, actions);
    SoundNow(After(config, actions), i);
    hide After, IsRun, ReportsInv;
  }

  // ---------------------------------------------------------------- what is logged is stored

  /** The events that speak of a row are logged by steps after which the row has what they say. */
  ghost predicate IsStored(e: Event, store: Store) {
    match e
    case Persisted(order) => order.clientOrderId in store && store[order.clientOrderId] == Row(Submitting, "", order)
    case Marked(id, status, brokerOrderId) => RowHas(store, id, status, brokerOrderId)
    case Recovered(id, status, brokerOrderId) => RowHas(store, id, status, brokerOrderId)
    case Reported(id, outcome, _, brokerOrderId) => outcome.Some? ==> RowHas(store, id, outcome.value, brokerOrderId)
    case _ => true
  }

  lemma {:induction false} NewEventIsStored(s: State, a: Action)
    requires Enabled(s, a) && TracksReport(s) && (s.phase.Settling? ==> s.phase.order.clientOrderId in s.store)
    ensures |Apply(s, a).log| > |s.log| ==> IsStored(Apply(s, a).log[|s.log|], Apply(s, a).store)
  {
    hide ValidateBeforeSubmit, CheckAck, Rewritten, RecoveryMatch, EndsSettling, EndsReporting;
  }

  /** In every run, whatever step logs an event of a row, a persisted order, a mark, a recovered status or a report, leaves the row with exactly that status and broker id. */
  lemma {:induction false} LoggedIsStored(config: Config, actions: seq<Action>, k: nat)
    requires IsRun(config, actions) && k < |actions|
    ensures var before, after := At(config, actions, k), At(config, actions, k + 1);
            && |before.log| <= |after.log| <= |before.log| + 1 && after.log[..|before.log|] == before.log
            && (|after.log| > |before.log| ==> IsStored(after.log[|before.log|], after.store))
  {
    hide Apply, Enabled, IsStored, Inv, ReportsInv;
    PrefixIsRun(config, actions, k);
    PrefixIsRun(config, actions, k + 1);
    var before := After(config, actions[..k]);
    assert actions[..k + 1][..k] == actions[..k];
    RunKeepsInv(config, actions[..k]);
    RunKeepsReports(config, actions[..k]);
    SettlingHasRow(before);
    TracksNow(before);
    StepKeepsLog(before, actions[k]);
    NewEventIsStored(before, actions[k]);
  }

  // ---------------------------------------------------------------- what a stored order is

  /** Every stored order lies under its own id, with the very texts of its envelope, read as the numbers that they denote. */
  predicate RowIsExact(id: string, row: Row) {
    var order := row.payload;
    && order.clientOrderId == id && id != ""
    && IsExactText(order.quantity, order.envelope.order.quantity) && IsExactText(order.limitPrice, order.envelope.order.limitPrice)
  }

  ghost predicate RowsAreExact(store: Store) {
    forall id <- store :: RowIsExact(id, store[id])
  }

  lemma {:induction false} PersistedIsExact(s: State)
    requires s.phase.Validated? && TrailMatchesPhase(s)
    ensures RowIsExact(s.phase.order.clientOrderId, Row(Submitting, "", s.phase.order))
  {
    var n := |s.log|;
    assert EndsChecked(s.log, n, s.phase.order, s.config);
    PassesExactly(s.log[n - 1].order, s.log[n - 1].readings, s.config, false);
    hide ValidateBeforeSubmit, IsExactText, HasEnvelopeNumbers, Rewritten, SubmissionV2.ValidateV2;
  }

  lemma {:induction false} StepKeepsExact(s: State, a: Action)
    requires Enabled(s, a) && RowsAreExact(s.store) && TrailMatchesPhase(s)
    ensures RowsAreExact(Apply(s, a).store)
  {
    hide ValidateBeforeSubmit, CheckAck, Rewritten, RecoveryMatch, IsExactText, EndsPersisted, EndsAnswered, EndsRechecked, EndsChecked;
    if a.Persist? {
      PersistedIsExact(s);
      hide RowIsExact;
    }
  }

  /** In every run, all that is ever stored lies under its own id, with the very texts of its envelope. */
  lemma {:induction false} StoredOrdersAreExact(config: Config, actions: seq<Action>)
    requires IsRun(config, actions)
    ensures forall id <- After(config, actions).store :: RowIsExact(id, After(config, actions).store[id])
  {
    hide Apply, Enabled, Inv, RowIsExact;
    if actions != [] {
      var front := actions[..|actions| - 1];
      StoredOrdersAreExact(config, front);
      RunKeepsInv(config, front);
      TrailNow(After(config, front));
      StepKeepsExact(After(config, front), actions[|actions| - 1]);
    }
  }

  lemma {:induction false} TrailNow(s: State)
    requires Inv(s)
    ensures TrailMatchesPhase(s)
  {
    hide TrailMatchesPhase, EventIsSound, CallIsStored, CallsMatchStore;
  }
}
