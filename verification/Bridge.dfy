/** The market worker: one cycle on the durable outbox. */
module Bridge {
  import opened Outcomes
  import opened DailyHistory
  import opened Outbox

  // ---------------------------------------------------------------- what the environment answers

  /** Whether an exception is one of those that the polling loop retries after; any other ends the process. */
  datatype Fault = Caught | Uncaught

  datatype PostOutcome = Unreached(fault: Fault) | AnswerLost(fault: Fault) | Answered(receipt: Receipt)

  datatype Plan = Plan(poll: IntField, enabled: bool, assets: Option<seq<string>>)

  datatype PlanAnswer = NoPlan(fault: Fault) | Planned(plan: Plan)

  datatype SourceAnswer = Raises(fault: Fault) | Rows(rows: seq<Sample>, statuses: seq<Sample>)

  /** Answers, clocks and fresh ids of one cycle. The database refuses the statement with number `breaksAt` of the collecting transaction, its commit being the last one; `deleted` tells whether the deletion commits. */
  datatype CycleEnv = CycleEnv(
    plan: PlanAnswer, pausedHere: bool, startDay: int, source: SourceAnswer, collectedAt: int, collectedDay: int,
    ids: nat -> string, breaksAt: Option<nat>, post: Batch -> PostOutcome, deleted: bool)

  /** What a step of a cycle comes to: a value, an exception that the loop retries after, or one that ends the process. */
  datatype Outcome<+T> = Done(value: T) | Retried(code: string) | Escaped(code: string)

  function Failing<T>(fault: Fault, code: string): (r: Outcome<T>)
    ensures !r.Done?
  {
    if fault == Caught then Retried(code) else Escaped(code)
  }

  /** `int(...)` of a field of an answer. */
  function Read(field: IntField): Outcome<int> {
    match field
    case Readable(i) => Done(i)
    case Malformed => Retried("ValueError")
    case Unreadable => Escaped("TypeError")
  }

  /** The days of a backfill; without one the worker collects quotes. */
  datatype Backfill = Backfill(startDay: int, endDay: int)

  datatype Cycle =
    | Blocked(poll: int)
    | Noop(poll: int)
    | Flushed(stored: int, poll: int, pending: nat)
    | Collected(stored: int, poll: int, pending: nat)

  predicate HasCollected(cycle: Cycle) {
    cycle.Noop? || cycle.Collected?
  }

  function PendingOf(cycle: Cycle): nat {
    if cycle.Flushed? || cycle.Collected? then cycle.pending else 0
  }

  const MAX_ROWS := 10000
  const MAX_TEXT := 1_000_000

  predicate IsValidSelection(assets: Option<seq<string>>) {
    assets.Some? && 1 <= |assets.value| <= MAX_ASSETS
  }

  // ---------------------------------------------------------------- one collection as batches

  function Groups(rows: seq<Sample>, statuses: seq<Sample>): seq<seq<Sample>> {
    Chunks(rows) + Chunks(statuses)
  }

  /** The i-th batch of a collection: first the rows, then the statuses, which carry the requested window. */
  function BatchAt(rows: seq<Sample>, statuses: seq<Sample>, i: nat, backfill: Option<Backfill>, env: CycleEnv): Batch
    requires i < |Groups(rows, statuses)|
  {
    var samples := Groups(rows, statuses)[i];
    if i < |Chunks(rows)| then Batch(env.ids(i), if backfill.Some? then BarKind else QuoteKind, env.collectedAt, samples, None)
    else Batch(env.ids(i), DailyStatusKind, env.collectedAt, samples,
               if backfill.Some? then Some((backfill.value.startDay, backfill.value.endDay)) else None)
  }

  function Batches(rows: seq<Sample>, statuses: seq<Sample>, backfill: Option<Backfill>, env: CycleEnv): (batches: seq<Batch>)
    ensures |batches| == |Groups(rows, statuses)|
    ensures forall i :: 0 <= i < |batches| ==> batches[i] == BatchAt(rows, statuses, i, backfill, env)
  {
    seq(|Groups(rows, statuses)|, i requires 0 <= i < |Groups(rows, statuses)| => BatchAt(rows, statuses, i, backfill, env))
  }

  /** The rows come first, in batches of 500 as quotes or, in a backfill, as bars without a window; the statuses follow in batches of 500, with the window that was asked for. Each batch has the id of its place and the instant of the collection. */
  lemma {:induction false} BatchesAreLabelled(rows: seq<Sample>, statuses: seq<Sample>, backfill: Option<Backfill>, env: CycleEnv, i: nat)
    requires i < |Batches(rows, statuses, backfill, env)|
    ensures var batch, ofRows := Batches(rows, statuses, backfill, env)[i], (|rows| + 499) / 500;
            && batch.id == env.ids(i) && batch.collectedAt == env.collectedAt
            && (if i < ofRows then
                  && batch.kind == (if backfill.None? then QuoteKind else BarKind) && batch.window == None
                  && batch.samples == rows[500 * i..if 500 * i + 500 <= |rows| then 500 * i + 500 else |rows|]
                else
                  && batch.kind == DailyStatusKind
                  && batch.window == (match backfill case None => None case Some(days) => Some((days.startDay, days.endDay)))
                  && 500 * (i - ofRows) <= |statuses|
                  && batch.samples == statuses[500 * (i - ofRows)..if 500 * (i - ofRows) + 500 <= |statuses| then 500 * (i - ofRows) + 500 else |statuses|])
  {
    ChunksAreExact(rows);
    ChunksAreExact(statuses);
    if i < |Chunks(rows)| {
      ChunkAt(rows, i);
    } else {
      ChunkAt(statuses, i - |Chunks(rows)|);
    }
    hide Chunks;
  }

  lemma {:induction false} ChunkAt(rows: seq<Sample>, i: nat)
    requires i < |Chunks(rows)|
    ensures 500 * i < |rows|
    ensures Chunks(rows)[i] == rows[500 * i..if 500 * i + 500 <= |rows| then 500 * i + 500 else |rows|]
  {
    if i > 0 {
      var rest := rows[500..];
      ChunkAt(rest, i - 1);
      assert rest[500 * (i - 1)..] == rows[500 * i..];
      var end := if 500 * i + 500 <= |rows| then 500 * i + 500 else |rows|;
      assert rest[500 * (i - 1)..end - 500] == rows[500 * i..end];
    }
  }

  /** The transaction goes through: every text is within its bound, no id occurs twice, and no statement fails. */
  predicate GoesThrough(batches: seq<Batch>, textLength: Batch -> nat, breaksAt: Option<nat>) {
    && (forall batch <- batches :: textLength(batch) <= 1_000_000) && DistinctIds(batches)
    && (breaksAt.Some? ==> breaksAt.value > |batches|)
  }

  /** The transaction from one of its statements on: an oversized text is refused by the worker, a repeated id or a failing statement by the database. */
  function InsertAll(pending: seq<Batch>, rest: seq<Batch>, textLength: Batch -> nat, breaksAt: Option<nat>): Outcome<seq<Batch>>
    decreases |rest|
  {
    if rest == [] then
      if breaksAt == Some(|pending|) then Escaped("DATABASE") else Done(pending)
    else if textLength(rest[0]) > MAX_TEXT then Retried("PAYLOAD")
    else if breaksAt == Some(|pending|) || exists other <- pending :: other.id == rest[0].id then Escaped("DATABASE")
    else InsertAll(pending + [rest[0]], rest[1..], textLength, breaksAt)
  }

  /** It comes to an end exactly when it goes through, and then has inserted everything. */
  lemma {:induction false} InsertsAllOrNothing(pending: seq<Batch>, rest: seq<Batch>, textLength: Batch -> nat, breaksAt: Option<nat>)
    requires (forall batch <- pending :: textLength(batch) <= MAX_TEXT) && DistinctIds(pending)
    requires breaksAt.Some? ==> breaksAt.value >= |pending|
    ensures InsertAll(pending, rest, textLength, breaksAt).Done? <==> GoesThrough(pending + rest, textLength, breaksAt)
    ensures InsertAll(pending, rest, textLength, breaksAt).Done? ==> InsertAll(pending, rest, textLength, breaksAt).value == pending + rest
    decreases |rest|
  {
    if rest == [] {
      assert pending + rest == pending;
    } else {
      var next := pending + [rest[0]];
      assert next + rest[1..] == pending + rest;
      if textLength(rest[0]) > MAX_TEXT || breaksAt == Some(|pending|) || exists other <- pending :: other.id == rest[0].id {
        hide InsertAll, GoesThrough;
        FailsHere(pending, rest, textLength, breaksAt);
        StopsHere(pending, rest, textLength, breaksAt);
      } else {
        StillDistinct(pending, rest[0]);
        hide GoesThrough, DistinctIds;
        InsertsAllOrNothing(next, rest[1..], textLength, breaksAt);
      }
    }
  }

  lemma {:induction false} StillDistinct(pending: seq<Batch>, batch: Batch)
    requires DistinctIds(pending) && forall other <- pending :: other.id != batch.id
    ensures DistinctIds(pending + [batch])
  {
  }

  lemma {:induction false} StopsHere(pending: seq<Batch>, rest: seq<Batch>, textLength: Batch -> nat, breaksAt: Option<nat>)
    requires rest != []
    requires textLength(rest[0]) > MAX_TEXT || breaksAt == Some(|pending|) || exists other <- pending :: other.id == rest[0].id
    ensures !InsertAll(pending, rest, textLength, breaksAt).Done?
  {
  }

  lemma {:induction false} FailsHere(pending: seq<Batch>, rest: seq<Batch>, textLength: Batch -> nat, breaksAt: Option<nat>)
    requires rest != []
    requires textLength(rest[0]) > MAX_TEXT || breaksAt == Some(|pending|) || exists other <- pending :: other.id == rest[0].id
    ensures !GoesThrough(pending + rest, textLength, breaksAt)
  {
    var all := pending + rest;
    assert all[|pending|] == rest[0] && rest[0] in all;
    if exists other <- pending :: other.id == rest[0].id {
      var i :| 0 <= i < |pending| && pending[i].id == rest[0].id;
      assert all[i].id == all[|pending|].id;
    }
  }

  function AllSamples(batches: seq<Batch>): seq<Sample> {
    if batches == [] then [] else batches[0].samples + AllSamples(batches[1..])
  }

  lemma {:induction false} SamplesOfGroups(batches: seq<Batch>, groups: seq<seq<Sample>>)
    requires |batches| == |groups| && forall i :: 0 <= i < |groups| ==> batches[i].samples == groups[i]
    ensures AllSamples(batches) == Joined(groups)
  {
    if batches != [] {
      SamplesOfGroups(batches[1..], groups[1..]);
    }
  }

  lemma {:induction false} JoinedAppend(a: seq<seq<Sample>>, b: seq<seq<Sample>>)
    ensures Joined(a + b) == Joined(a) + Joined(b)
  {
    if a == [] {
      assert a + b == b;
    } else {
      JoinedAppend(a[1..], b);
      assert (a + b)[0] == a[0] && (a + b)[1..] == a[1..] + b;
    }
  }

  /** The batches of one collection hold its rows and then its statuses, all of them and in order, 1 to 500 in each. */
  lemma BatchesHoldTheCollection(rows: seq<Sample>, statuses: seq<Sample>, backfill: Option<Backfill>, env: CycleEnv)
    ensures var batches := Batches(rows, statuses, backfill, env);
            && AllSamples(batches) == rows + statuses
            && |batches| == (|rows| + 499) / 500 + (|statuses| + 499) / 500
            && (forall batch <- batches :: 1 <= |batch.samples| <= 500)
  {
    var batches := Batches(rows, statuses, backfill, env);
    ChunksAreExact(rows);
    ChunksAreExact(statuses);
    JoinedAppend(Chunks(rows), Chunks(statuses));
    hide Chunks;
    SamplesOfGroups(batches, Groups(rows, statuses));
    assert AllSamples(batches) == Joined(Chunks(rows) + Chunks(statuses));
  }

  // ---------------------------------------------------------------- one cycle as a function

  /** What a flush returns, and the outbox that it leaves; the stored count is read after the deletion. */
  function FlushOf(outbox: seq<Batch>, env: CycleEnv): (Outcome<int>, seq<Batch>) {
    if outbox == [] then (Done(0), outbox)
    else
      match env.post(outbox[0])
      case Unreached(fault) => (Failing(fault, "TRANSPORT"), outbox)
      case AnswerLost(fault) => (Failing(fault, "TRANSPORT"), outbox)
      case Answered(receipt) =>
        if !Acknowledges(receipt, outbox[0]) then (Retried("NOT_ACKNOWLEDGED"), outbox)
        else if !env.deleted then (Escaped("DATABASE"), outbox)
        else (Read(receipt.stored), outbox[1..])
  }

  /** The answer arrives, under the id of the batch, with success or nothing to do, no failed sample and as many taken as there are. */
  predicate IsTaken(answer: PostOutcome, id: string, samples: nat) {
    && answer.Answered? && answer.receipt.batchId == id && answer.receipt.outcome in {"success", "noop"}
    && answer.receipt.failed == 0 && answer.receipt.succeeded == samples
  }

  /** What the worker asks the source for in this cycle, if all the checks before allow it. */
  function CheckedRows(backfill: Option<Backfill>, plan: Plan, env: CycleEnv): Outcome<(seq<Sample>, seq<Sample>)> {
    if !IsValidSelection(plan.assets) then Retried("INVALID_SELECTION")
    else if backfill.Some? && !IsCompletedRange(Request([], backfill.value.startDay, backfill.value.endDay, env.startDay)) then Retried("INVALID_RANGE")
    else if env.source.Raises? then Failing(env.source.fault, "SOURCE")
    else
      var rows := env.source.rows;
      var statuses := if backfill.Some? then env.source.statuses else [];
      if |rows| > MAX_ROWS || |statuses| > MAX_ROWS then Retried("BUDGET")
      else if statuses != [] && backfill.value.endDay >= env.collectedDay then Retried("NOT_COMPLETED")
      else Done((rows, statuses))
  }

  function HistorySamples(h: History): SourceAnswer {
    Rows(seq(|h.bars|, i requires 0 <= i < |h.bars| => BarSample(h.bars[i])),
         seq(|h.statuses|, i requires 0 <= i < |h.statuses| => StatusSample(h.statuses[i])))
  }

  /** A daily history is never refused by the row budget, and makes at most 26 batches. */
  lemma HistoryIsWithinBudget(
    request: Request, frames: map<string, seq<SourceRow>>, backfill: Backfill, plan: Plan, env: CycleEnv)
    requires IsValidRequest(request) && ObserveAll([], Entries(request.assets, frames), request).Ok?
    requires env.source == HistorySamples(HistoryOf(ObserveAll([], Entries(request.assets, frames), request).value))
    ensures CheckedRows(Some(backfill), plan, env) != Retried("BUDGET")
    ensures |Batches(env.source.rows, env.source.statuses, Some(backfill), env)| <= 26
  {
    hide *;
    HistoryIsFaithful(request, frames);
    HistorySampleCounts(HistoryOf(ObserveAll([], Entries(request.assets, frames), request).value));
    WithinBudget(backfill, plan, env);
    FewBatches(backfill, env);
  }

  lemma {:induction false} FewBatches(backfill: Backfill, env: CycleEnv)
    requires env.source.Rows? && |env.source.rows| <= 6400 && |env.source.statuses| <= 6400
    ensures |Batches(env.source.rows, env.source.statuses, Some(backfill), env)| <= 26
  {
    BatchesHoldTheCollection(env.source.rows, env.source.statuses, Some(backfill), env);
    hide Batches, AllSamples;
  }

  lemma HistorySampleCounts(h: History)
    ensures HistorySamples(h).Rows?
    ensures |HistorySamples(h).rows| == |h.bars| && |HistorySamples(h).statuses| == |h.statuses|
  {
  }

  lemma WithinBudget(backfill: Backfill, plan: Plan, env: CycleEnv)
    requires env.source.Rows? && |env.source.rows| <= 10000 && |env.source.statuses| <= 10000
    ensures CheckedRows(Some(backfill), plan, env) != Retried("BUDGET")
  {
    hide IsCompletedRange, IsValidSelection;
  }

  /** The same failure, at another type. */
  function Passed<T, U>(failed: Outcome<T>): (r: Outcome<U>)
    requires !failed.Done?
    ensures !r.Done?
  {
    if failed.Retried? then Retried(failed.code) else Escaped(failed.code)
  }

  function CollectOf(backfill: Option<Backfill>, plan: Plan, poll: int, env: CycleEnv, textLength: Batch -> nat): (Outcome<Cycle>, seq<Batch>) {
    var checked := CheckedRows(backfill, plan, env);
    if !checked.Done? then (Passed(checked), [])
    else
      var batches := Batches(checked.value.0, checked.value.1, backfill, env);
      if batches == [] then (Done(Noop(poll)), [])
      else
        var inserted := InsertAll([], batches, textLength, env.breaksAt);
        if !inserted.Done? then (Passed(inserted), [])
        else
          var (stored, rest) := FlushOf(batches, env);
          (if stored.Done? then Done(Collected(stored.value, poll, |rest|)) else Passed(stored), rest)
  }

  /** The polling interval of a plan. */
  function PollOf(plan: PlanAnswer): (r: Outcome<int>)
    ensures r.Done? ==> plan.Planned? && 1 <= r.value <= 60
  {
    if plan.NoPlan? then Failing(plan.fault, "PLAN")
    else
      var poll := Read(plan.plan.poll);
      if poll.Done? && !(1 <= poll.value <= 60) then Retried("POLL") else poll
  }

  /** `run_once`: what the cycle returns, and the outbox that it leaves. */
  function CycleOf(outbox: seq<Batch>, backfill: Option<Backfill>, env: CycleEnv, textLength: Batch -> nat): (Outcome<Cycle>, seq<Batch>) {
    var poll := PollOf(env.plan);
    if !poll.Done? then (Passed(poll), outbox)
    else if !env.plan.plan.enabled || env.pausedHere then (Done(Blocked(poll.value)), outbox)
    else if outbox != [] then
      var (stored, rest) := FlushOf(outbox, env);
      (if stored.Done? then Done(Flushed(stored.value, poll.value, |rest|)) else Passed(stored), rest)
    else CollectOf(backfill, env.plan.plan, poll.value, env, textLength)
  }

  /** A plan is followed exactly where it arrives with a number from 1 to 60; the process ends where the transport fails unexpectedly or the interval is of the wrong kind, and any other plan is retried. */
  lemma {:induction false} PlanIsFollowedExactly(plan: PlanAnswer, p: int)
    ensures PollOf(plan) == Done(p) <==> plan.Planned? && plan.plan.poll == Readable(p) && 1 <= p <= 60
    ensures PollOf(plan).Escaped? <==> (plan.NoPlan? && plan.fault == Uncaught) || (plan.Planned? && plan.plan.poll == Unreadable)
  {
  }

  /** The source's rows are taken exactly where 1 to 200 assets are selected, the days of a backfill are 1 to 32 that are past, the source answers, no list is longer than 10000, and statuses are of days before the day of collection. Quotes come without statuses. */
  lemma {:induction false} RowsAreTakenExactly(backfill: Option<Backfill>, plan: Plan, env: CycleEnv, rows: seq<Sample>, statuses: seq<Sample>)
    ensures CheckedRows(backfill, plan, env) == Done((rows, statuses)) <==>
              && plan.assets.Some? && 1 <= |plan.assets.value| <= 200
              && (backfill.Some? ==>
                    backfill.value.startDay <= backfill.value.endDay < env.startDay && backfill.value.endDay - backfill.value.startDay + 1 <= 32)
              && env.source.Rows? && rows == env.source.rows && |rows| <= 10000
              && (if backfill.Some? then statuses == env.source.statuses && |statuses| <= 10000 && (statuses != [] ==> backfill.value.endDay < env.collectedDay)
                  else statuses == [])
    ensures CheckedRows(backfill, plan, env).Escaped? ==> env.source == Raises(Uncaught)
  {
  }

  /** What a cycle that returns says: blocked where the plan or the local pause forbids, flushed on a queue, else collected, or nothing to collect. The polling interval is the plan's, the stored count that of the exact receipt for the head, and all but the head is pending. */
  lemma {:induction false} CycleAnswersExactly(outbox: seq<Batch>, backfill: Option<Backfill>, env: CycleEnv, textLength: Batch -> nat, cycle: Cycle)
    requires CycleOf(outbox, backfill, env, textLength).0 == Done(cycle)
    ensures env.plan.Planned? && env.plan.plan.poll == Readable(cycle.poll) && 1 <= cycle.poll <= 60
    ensures cycle.Blocked? <==> !env.plan.plan.enabled || env.pausedHere
    ensures cycle.Flushed? <==> !cycle.Blocked? && outbox != []
    ensures cycle.Flushed? ==> IsStoredHead(env, outbox, cycle.stored, cycle.pending)
    ensures cycle.Noop? || cycle.Collected? ==> env.source.Rows?
    ensures cycle.Noop? ==> env.source.rows == [] && (backfill.Some? ==> env.source.statuses == [])
    ensures cycle.Collected? ==>
              var statuses := if backfill.Some? then env.source.statuses else [];
              env.source.rows + statuses != [] && IsStoredHead(env, Batches(env.source.rows, statuses, backfill, env), cycle.stored, cycle.pending)
  {
    hide *;
    PlanAnswers(outbox, backfill, env, textLength, cycle);
    if !cycle.Blocked? {
      if outbox != [] {
        FlushAnswers(outbox, backfill, env, textLength, cycle);
      } else {
        CollectAnswers(backfill, env, textLength, cycle);
      }
    }
  }

  lemma {:induction false} PlanAnswers(outbox: seq<Batch>, backfill: Option<Backfill>, env: CycleEnv, textLength: Batch -> nat, cycle: Cycle)
    requires CycleOf(outbox, backfill, env, textLength).0 == Done(cycle)
    ensures env.plan.Planned? && env.plan.plan.poll == Readable(cycle.poll) && 1 <= cycle.poll <= 60
    ensures cycle.Blocked? <==> !env.plan.plan.enabled || env.pausedHere
    ensures cycle.Flushed? ==> outbox != []
  {
    PlanIsFollowedExactly(env.plan, PollOf(env.plan).value);
    hide PollOf, CheckedRows, Batches, InsertAll, FlushOf;
  }

  lemma {:induction false} StoredHead(outbox: seq<Batch>, env: CycleEnv)
    requires outbox != [] && FlushOf(outbox, env).0.Done?
    ensures IsStoredHead(env, outbox, FlushOf(outbox, env).0.value, |FlushOf(outbox, env).1|)
  {
  }

  lemma {:induction false} FlushAnswers(outbox: seq<Batch>, backfill: Option<Backfill>, env: CycleEnv, textLength: Batch -> nat, cycle: Cycle)
    requires CycleOf(outbox, backfill, env, textLength).0 == Done(cycle) && !cycle.Blocked? && outbox != []
    ensures cycle.Flushed? && IsStoredHead(env, outbox, cycle.stored, cycle.pending)
  {
    if FlushOf(outbox, env).0.Done? {
      StoredHead(outbox, env);
    }
    hide PollOf, CollectOf, FlushOf, IsStoredHead;
  }

  lemma {:induction false} CollectAnswers(backfill: Option<Backfill>, env: CycleEnv, textLength: Batch -> nat, cycle: Cycle)
    requires CycleOf([], backfill, env, textLength).0 == Done(cycle) && !cycle.Blocked?
    ensures (cycle.Noop? || cycle.Collected?) && env.source.Rows?
    ensures var statuses := if backfill.Some? then env.source.statuses else [];
            && (cycle.Noop? ==> env.source.rows == [] && statuses == [])
            && (cycle.Collected? ==>
                  && env.source.rows + statuses != []
                  && IsStoredHead(env, Batches(env.source.rows, statuses, backfill, env), cycle.stored, cycle.pending))
  {
    hide PollOf, CheckedRows, Batches, InsertAll, GoesThrough, FlushOf, IsStoredHead;
    var checked := CheckedRows(backfill, env.plan.plan, env);
    var (rows, statuses) := checked.value;
    RowsAreTakenExactly(backfill, env.plan.plan, env, rows, statuses);
    EmptyCollection(rows, statuses, backfill, env);
    var batches := Batches(rows, statuses, backfill, env);
    InsertsAllOrNothing([], batches, textLength, env.breaksAt);
    assert [] + batches == batches;
    if batches != [] {
      StoredHead(batches, env);
    }
  }

  /** The head is taken, its deletion commits, the receipt has this stored count, and this many batches remain. */
  predicate IsStoredHead(env: CycleEnv, batches: seq<Batch>, stored: int, pending: nat) {
    && batches != [] && |batches| == pending + 1
    && IsTaken(env.post(batches[0]), batches[0].id, |batches[0].samples|) && env.deleted
    && env.post(batches[0]).receipt.stored == Readable(stored)
  }

  /** The cycle commits a collection. */
  predicate Commits(outbox: seq<Batch>, backfill: Option<Backfill>, env: CycleEnv, textLength: Batch -> nat) {
    && PollOf(env.plan).Done? && env.plan.plan.enabled && !env.pausedHere && outbox == []
    && var checked := CheckedRows(backfill, env.plan.plan, env);
    && checked.Done?
    && var batches := Batches(checked.value.0, checked.value.1, backfill, env);
    && batches != [] && GoesThrough(batches, textLength, env.breaksAt)
  }

  // ---------------------------------------------------------------- the worker

  class BridgeWorker {
    const textLength: Batch -> nat
    var outbox: seq<Batch>
    ghost var actions: seq<Action>

    /** The queue's history is a run, and has reached this outbox. */
    ghost predicate Valid()
      reads this
    {
      IsRun(actions) && After(actions).outbox == outbox
    }

    /** A worker opens the outbox that the last one left. */
    constructor (textLength: Batch -> nat, outbox: seq<Batch>, ghost past: seq<Action>)
      requires IsRun(past) && After(past).outbox == outbox
      ensures Valid() && this.outbox == outbox && this.actions == past && this.textLength == textLength
    {
      this.textLength, this.outbox, actions := textLength, outbox, past;
    }

    ghost method Step(a: Action)
      requires IsRun(actions) && Enabled(After(actions), a)
      modifies this`actions
      ensures IsRun(actions) && After(actions) == Apply(After(old(actions)), a)
      ensures CommitCount(actions) == CommitCount(old(actions)) + if a.Commit? then 1 else 0
    {
      CommitCountExtends(actions, a);
      hide IsRun, After, Enabled, Apply, CommitCount;
      ExtendRun(actions, a);
      actions := actions + [a];
    }

    /** `_flush`: the head goes out, and goes away only on its exact receipt. */
    method Flush(env: CycleEnv) returns (r: Outcome<int>)
      requires Valid()
      modifies this`outbox, this`actions
      ensures Valid() && (r, outbox) == FlushOf(old(outbox), env)
      ensures old(outbox) == [] ==> outbox == []
      ensures old(outbox) != [] ==>
                var head := old(outbox)[0];
                if IsTaken(env.post(head), head.id, |head.samples|) && env.deleted then outbox == old(outbox)[1..] else outbox == old(outbox)
      ensures After(actions).committed == old(After(actions).committed) && CommitCount(actions) == old(CommitCount(actions))
      ensures After(actions).posted == old(After(actions).posted) + if old(outbox) == [] || env.post(old(outbox)[0]).Unreached? then [] else [old(outbox)[0]]
    {
      hide IsRun, After, Without, CommitCount;
      if outbox == [] {
        return Done(0);
      }
      var head := outbox[0];
      var answer := env.post(head);
      if answer.Unreached? {
        return Failing(answer.fault, "TRANSPORT");
      }
      RunsConserve(actions);
      WithoutHead(outbox);
      if answer.AnswerLost? {
        Step(Deliver(None, false));
        return Failing(answer.fault, "TRANSPORT");
      }
      Step(Deliver(Some(answer.receipt), env.deleted));
      if !Acknowledges(answer.receipt, head) {
        return Retried("NOT_ACKNOWLEDGED");
      }
      if !env.deleted {
        return Escaped("DATABASE");
      }
      outbox := Without(outbox, head.id);
      r := Read(answer.receipt.stored);
    }

    /** One collection in one transaction: all its batches or none. */
    method Insert(rows: seq<Sample>, statuses: seq<Sample>, backfill: Option<Backfill>, env: CycleEnv) returns (r: Outcome<seq<Batch>>)
      requires Valid() && outbox == []
      modifies this`outbox, this`actions
      ensures Valid()
      ensures r == InsertAll([], Batches(rows, statuses, backfill, env), textLength, env.breaksAt)
      ensures r.Done? <==> GoesThrough(Batches(rows, statuses, backfill, env), textLength, env.breaksAt)
      ensures outbox == if r.Done? then Batches(rows, statuses, backfill, env) else []
      ensures After(actions).committed == old(After(actions).committed) + outbox
      ensures After(actions).posted == old(After(actions).posted)
      ensures CommitCount(actions) == old(CommitCount(actions)) + if r.Done? then 1 else 0
    {
      NothingRepeats();
      hide IsRun, After, CommitCount, InsertAll, GoesThrough, Batches, DistinctIds, Apply, Enabled, Groups, Chunks, BatchAt, Without;
      InsertsAllOrNothing([], Batches(rows, statuses, backfill, env), textLength, env.breaksAt);
      assert [] + Batches(rows, statuses, backfill, env) == Batches(rows, statuses, backfill, env);
      r := FillTransaction(rows, statuses, backfill, env, textLength);
      if r.Done? {
        Distinct(r.value, textLength, env.breaksAt);
        CommitApplies(After(actions), r.value);
        outbox := r.value;
        Step(Commit(r.value));
      }
    }

    /** `run_once`. */
    method RunOnce(backfill: Option<Backfill>, env: CycleEnv) returns (r: Outcome<Cycle>)
      requires Valid()
      modifies this`outbox, this`actions
      ensures Valid() && (r, outbox) == CycleOf(old(outbox), backfill, env, textLength)
      ensures CommitCount(actions) == old(CommitCount(actions)) + if Commits(old(outbox), backfill, env, textLength) then 1 else 0
    {
      hide IsRun, After, Batches, GoesThrough, Acknowledges, CommitCount, InsertAll, CheckedRows, PollOf;
      var poll := PollOf(env.plan);
      if !poll.Done? { return Passed(poll); }
      if !env.plan.plan.enabled || env.pausedHere { return Done(Blocked(poll.value)); }
      if outbox != [] {
        var stored := Flush(env);
        return if stored.Done? then Done(Flushed(stored.value, poll.value, |outbox|)) else Passed(stored);
      }
      var checked := CheckedRows(backfill, env.plan.plan, env);
      if !checked.Done? { return Passed(checked); }
      var (rows, statuses) := checked.value;
      EmptyCollection(rows, statuses, backfill, env);
      if rows == [] && statuses == [] { return Done(Noop(poll.value)); }
      var inserted := Insert(rows, statuses, backfill, env);
      if !inserted.Done? { return Passed(inserted); }
      var stored := Flush(env);
      r := if stored.Done? then Done(Collected(stored.value, poll.value, |outbox|)) else Passed(stored);
    }
  }

  lemma {:induction false} NothingRepeats()
    ensures DistinctIds([])
  {
  }

  lemma {:induction false} CommitApplies(q: Queue, batches: seq<Batch>)
    requires q.outbox == [] && DistinctIds(batches)
    ensures Enabled(q, Commit(batches))
    ensures Apply(q, Commit(batches)) == q.(committed := q.committed + batches, outbox := batches)
  {
    hide DistinctIds;
  }

  /** The loop of the transaction: it ends with all the batches of the collection, or with the exception that rolls it back. */
  method FillTransaction(rows: seq<Sample>, statuses: seq<Sample>, backfill: Option<Backfill>, env: CycleEnv, textLength: Batch -> nat)
    returns (r: Outcome<seq<Batch>>)
    ensures r == InsertAll([], Batches(rows, statuses, backfill, env), textLength, env.breaksAt)
  {
    hide InsertAll, Batches, Chunks;
    ghost var batches := Batches(rows, statuses, backfill, env);
    var rowSlices := Sliced(rows);
    var statusSlices := Sliced(statuses);
    var groups := rowSlices + statusSlices;
    var pending: seq<Batch> := [];
    assert batches[..0] == [] && batches[0..] == batches;
    for i := 0 to |groups|
      invariant pending == batches[..i]
      invariant InsertAll(pending, batches[i..], textLength, env.breaksAt) == InsertAll([], batches, textLength, env.breaksAt)
    {
      var ofRows := i < |rowSlices|;
      var kind := if !ofRows then DailyStatusKind else if backfill.Some? then BarKind else QuoteKind;
      var window := if !ofRows && backfill.Some? then Some((backfill.value.startDay, backfill.value.endDay)) else None;
      var batch := Batch(env.ids(i), kind, env.collectedAt, groups[i], window);
      assert batch == batches[i];
      InsertNext(batches, i, textLength, env.breaksAt);
      if textLength(batch) > MAX_TEXT {
        return Retried("PAYLOAD");
      }
      if env.breaksAt == Some(|pending|) || exists other <- pending :: other.id == batch.id {
        return Escaped("DATABASE");
      }
      pending := pending + [batch];
    }
    InsertLast(batches, textLength, env.breaksAt);
    if env.breaksAt == Some(|pending|) {
      return Escaped("DATABASE");
    }
    r := Done(pending);
  }

  lemma InsertNext(batches: seq<Batch>, i: nat, textLength: Batch -> nat, breaksAt: Option<nat>)
    requires i < |batches|
    ensures batches[..i] + [batches[i]] == batches[..i + 1]
    ensures InsertAll(batches[..i], batches[i..], textLength, breaksAt) ==
              if textLength(batches[i]) > MAX_TEXT then Retried("PAYLOAD")
              else if breaksAt == Some(i) || exists other <- batches[..i] :: other.id == batches[i].id then Escaped("DATABASE")
              else InsertAll(batches[..i + 1], batches[i + 1..], textLength, breaksAt)
  {
    assert batches[i..][1..] == batches[i + 1..] && batches[..i] + [batches[i]] == batches[..i + 1];
  }

  lemma InsertLast(batches: seq<Batch>, textLength: Batch -> nat, breaksAt: Option<nat>)
    ensures batches[..|batches|] == batches
    ensures InsertAll(batches[..|batches|], batches[|batches|..], textLength, breaksAt) ==
              if breaksAt == Some(|batches|) then Escaped("DATABASE") else Done(batches)
  {
    assert batches[..|batches|] == batches && batches[|batches|..] == [];
  }

  lemma Distinct(batches: seq<Batch>, textLength: Batch -> nat, breaksAt: Option<nat>)
    requires GoesThrough(batches, textLength, breaksAt)
    ensures DistinctIds(batches)
  {
  }

  lemma EmptyCollection(rows: seq<Sample>, statuses: seq<Sample>, backfill: Option<Backfill>, env: CycleEnv)
    ensures Batches(rows, statuses, backfill, env) == [] <==> rows == [] && statuses == []
  {
  }
}
