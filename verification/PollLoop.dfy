/** The polling loop of a backfill: when it ends, and how often it collects. */
module PollLoop {
  import opened Outcomes
  import opened DailyHistory
  import opened Outbox
  import opened Bridge

  datatype LoopEnd = Running | Finished(cycles: nat) | Aborted(cycles: nat)

  /** The same end, counted from `n` cycles before. */
  function Later(n: nat, end: LoopEnd): LoopEnd {
    match end
    case Running => Running
    case Finished(m) => Finished(n + m)
    case Aborted(m) => Aborted(n + m)
  }

  function CollectedBy(r: Outcome<Cycle>, collected: bool): bool {
    collected || (r.Done? && HasCollected(r.value))
  }

  /** The exit condition of the loop. */
  predicate Ends(r: Outcome<Cycle>, backfill: Option<Backfill>, collected: bool) {
    r.Done? && backfill.Some? && CollectedBy(r, collected) && PendingOf(r.value) == 0 && !r.value.Blocked?
  }

  /** How the loop fares on the given cycles: an exception that it does not catch ends the process, any other is followed by the next cycle. */
  function LoopOf(outbox: seq<Batch>, backfill: Option<Backfill>, collected: bool, envs: seq<CycleEnv>, textLength: Batch -> nat): LoopEnd
    decreases |envs|
  {
    if envs == [] then Running
    else
      var (r, rest) := CycleOf(outbox, backfill, envs[0], textLength);
      if r.Escaped? then Aborted(1)
      else if Ends(r, backfill, collected) then Finished(1)
      else Later(1, LoopOf(rest, backfill, CollectedBy(r, collected), envs[1..], textLength))
  }

  /** How many collections the loop commits. */
  function Collections(outbox: seq<Batch>, backfill: Option<Backfill>, collected: bool, envs: seq<CycleEnv>, textLength: Batch -> nat): nat
    decreases |envs|
  {
    if envs == [] then 0
    else
      var (r, rest) := CycleOf(outbox, backfill, envs[0], textLength);
      (if Commits(outbox, backfill, envs[0], textLength) then 1 else 0)
      + if r.Escaped? || Ends(r, backfill, collected) then 0
        else Collections(rest, backfill, CollectedBy(r, collected), envs[1..], textLength)
  }

  /** The loop of `main`, for as long as the given cycles last; it ends by itself only on an empty outbox. */
  method Poll(worker: BridgeWorker, backfill: Option<Backfill>, envs: seq<CycleEnv>) returns (end: LoopEnd)
    requires worker.Valid()
    modifies worker`outbox, worker`actions
    ensures worker.Valid()
    ensures end == LoopOf(old(worker.outbox), backfill, false, envs, worker.textLength)
    ensures CommitCount(worker.actions) == old(CommitCount(worker.actions)) + Collections(old(worker.outbox), backfill, false, envs, worker.textLength)
    ensures end.Finished? ==> worker.outbox == [] && backfill.Some?
  {
    hide IsRun, After, CycleOf, Ends, CollectedBy, Commits, CommitCount;
    var collected := false;
    var i := 0;
    ghost var whole := LoopOf(worker.outbox, backfill, false, envs, worker.textLength);
    ghost var count := Collections(worker.outbox, backfill, false, envs, worker.textLength);
    assert envs[0..] == envs;
    while i < |envs|
      invariant i <= |envs| && worker.Valid()
      invariant whole == Later(i, LoopOf(worker.outbox, backfill, collected, envs[i..], worker.textLength))
      invariant CommitCount(worker.actions) + Collections(worker.outbox, backfill, collected, envs[i..], worker.textLength)
                == old(CommitCount(worker.actions)) + count
    {
      assert envs[i..][1..] == envs[i + 1..];
      ghost var before := worker.outbox;
      var r := worker.RunOnce(backfill, envs[i]);
      EndingLeavesNothing(before, backfill, collected, envs[i], worker.textLength);
      i := i + 1;
      if r.Escaped? {
        return Aborted(i);
      }
      if Ends(r, backfill, collected) {
        return Finished(i);
      }
      collected := CollectedBy(r, collected);
    }
    end := Running;
  }

  /** Only a backfill ends by itself: a worker that collects quotes goes on until an exception ends it. */
  lemma {:induction false} QuotesGoOn(outbox: seq<Batch>, collected: bool, envs: seq<CycleEnv>, textLength: Batch -> nat)
    ensures !LoopOf(outbox, None, collected, envs, textLength).Finished?
    decreases |envs|
  {
    hide CycleOf, CollectedBy;
    if envs != [] {
      var (r, rest) := CycleOf(outbox, None, envs[0], textLength);
      QuotesGoOn(rest, CollectedBy(r, collected), envs[1..], textLength);
    }
  }

  /** A cycle that ends the loop leaves an empty outbox. */
  lemma {:induction false} EndingLeavesNothing(outbox: seq<Batch>, backfill: Option<Backfill>, collected: bool, env: CycleEnv, textLength: Batch -> nat)
    ensures Ends(CycleOf(outbox, backfill, env, textLength).0, backfill, collected) ==> CycleOf(outbox, backfill, env, textLength).1 == [] && backfill.Some?
  {
    hide Batches, InsertAll, CheckedRows, Acknowledges;
  }

  // ---------------------------------------------------------------- one cycle, from its environment alone

  /** What a cycle does with the head of the queue; `read` tells whether the count in the receipt can be read. */
  datatype Turn = Waits | Aborts | Removes(read: bool)

  function FaultTurn(fault: Fault): Turn {
    if fault == Caught then Waits else Aborts
  }

  function TurnOf(head: Batch, env: CycleEnv): Turn {
    var poll := PollOf(env.plan);
    if poll.Escaped? then Aborts
    else if poll.Retried? || !env.plan.plan.enabled || env.pausedHere then Waits
    else PostTurn(head, env)
  }

  function PostTurn(head: Batch, env: CycleEnv): Turn {
    match env.post(head)
    case Unreached(fault) => FaultTurn(fault)
    case AnswerLost(fault) => FaultTurn(fault)
    case Answered(receipt) =>
      if !IsTaken(Answered(receipt), head.id, |head.samples|) then Waits
      else if !env.deleted || receipt.stored.Unreadable? then Aborts
      else Removes(receipt.stored.Readable?)
  }

  lemma {:induction false} TurnIsExact(outbox: seq<Batch>, backfill: Option<Backfill>, collected: bool, env: CycleEnv, textLength: Batch -> nat)
    requires outbox != []
    ensures var (r, rest) := CycleOf(outbox, backfill, env, textLength);
            match TurnOf(outbox[0], env)
            case Aborts => r.Escaped?
            case Waits => !r.Escaped? && rest == outbox && !Ends(r, backfill, collected) && CollectedBy(r, collected) == collected
            case Removes(read) =>
              && rest == outbox[1..] && CollectedBy(r, collected) == collected
              && (if read then r.Done? && !r.value.Blocked? && PendingOf(r.value) == |rest| else r.Retried?)
    ensures !Commits(outbox, backfill, env, textLength)
  {
    hide PollOf;
  }

  /** The batches that the cycle would collect. */
  function BatchesAt(backfill: Backfill, env: CycleEnv): seq<Batch> {
    if !PollOf(env.plan).Done? || !CheckedRows(Some(backfill), env.plan.plan, env).Done? then []
    else
      var rows := CheckedRows(Some(backfill), env.plan.plan, env).value;
      Batches(rows.0, rows.1, Some(backfill), env)
  }

  /** A cycle that finds the queue empty and changes nothing: it is blocked, or fails in a way that the loop retries after. */
  predicate Idles(backfill: Backfill, env: CycleEnv, textLength: Batch -> nat) {
    var poll := PollOf(env.plan);
    || poll.Retried?
    || (poll.Done? &&
        (|| !env.plan.plan.enabled || env.pausedHere
         || CheckedRows(Some(backfill), env.plan.plan, env).Retried?
         || InsertAll([], BatchesAt(backfill, env), textLength, env.breaksAt).Retried?))
  }

  lemma {:induction false} EmptyTurnIsExact(backfill: Backfill, collected: bool, env: CycleEnv, textLength: Batch -> nat)
    requires !Commits([], Some(backfill), env, textLength)
    ensures var (r, rest) := CycleOf([], Some(backfill), env, textLength);
            if Idles(backfill, env, textLength)
            then !r.Escaped? && rest == [] && !Ends(r, Some(backfill), collected) && CollectedBy(r, collected) == collected
            else r.Escaped? || Ends(r, Some(backfill), collected)
  {
    hide PollOf, CheckedRows, Batches, InsertAll, GoesThrough;
    InsertsNothing(textLength, env.breaksAt);
    if PollOf(env.plan).Done? && CheckedRows(Some(backfill), env.plan.plan, env).Done? {
      var batches := BatchesAt(backfill, env);
      InsertsAllOrNothing([], batches, textLength, env.breaksAt);
      assert [] + batches == batches;
    }
  }

  lemma InsertsNothing(textLength: Batch -> nat, breaksAt: Option<nat>)
    ensures !InsertAll([], [], textLength, breaksAt).Retried?
  {
  }

  /** The post of the head is answered, its receipt is exact, the deletion commits, and the stored count can be read. */
  predicate IsSettled(env: CycleEnv, head: Batch) {
    IsTaken(env.post(head), head.id, |head.samples|) && env.deleted && env.post(head).receipt.stored.Readable?
  }

  /** A cycle that commits a collection counts as having collected exactly when the first of its batches is settled. */
  lemma {:induction false} CountsExactly(backfill: Backfill, env: CycleEnv, textLength: Batch -> nat)
    requires Commits([], Some(backfill), env, textLength)
    ensures BatchesAt(backfill, env) != []
    ensures var r := CycleOf([], Some(backfill), env, textLength).0;
            r.Done? && HasCollected(r.value) <==> IsSettled(env, BatchesAt(backfill, env)[0])
  {
    CommittingTurnIsExact(backfill, false, env, textLength);
    hide CycleOf, Commits, BatchesAt, Acknowledges;
  }

  lemma {:induction false} CommittingTurnIsExact(backfill: Backfill, collected: bool, env: CycleEnv, textLength: Batch -> nat)
    requires Commits([], Some(backfill), env, textLength)
    ensures BatchesAt(backfill, env) != []
    ensures var batches := BatchesAt(backfill, env);
            var (r, rest) := CycleOf([], Some(backfill), env, textLength);
            match TurnOf(batches[0], env)
            case Aborts => r.Escaped? && !IsSettled(env, batches[0])
            case Waits => r.Retried? && rest == batches && !IsSettled(env, batches[0])
            case Removes(read) =>
              && rest == batches[1..] && (read <==> IsSettled(env, batches[0]))
              && (if read then r.Done? && r.value.Collected? && PendingOf(r.value) == |rest| else r.Retried?)
  {
    var batches := BatchesAt(backfill, env);
    InsertsAllOrNothing([], batches, textLength, env.breaksAt);
    assert [] + batches == batches;
    hide PollOf, CheckedRows, Batches, InsertAll, GoesThrough;
  }

  // ---------------------------------------------------------------- how often the loop collects

  datatype Drain = NotDrained | Drained(cycles: nat, read: bool)

  function OneMore(drain: Drain): Drain {
    if drain.Drained? then drain.(cycles := drain.cycles + 1) else NotDrained
  }

  /** After how many cycles the queue is empty, and whether the count in its last receipt could be read. */
  function DrainOf(outbox: seq<Batch>, envs: seq<CycleEnv>): (drain: Drain)
    ensures drain.Drained? ==> |outbox| <= drain.cycles <= |envs|
    decreases |envs|
  {
    if outbox == [] then Drained(0, true)
    else if envs == [] then NotDrained
    else
      match TurnOf(outbox[0], envs[0])
      case Aborts => NotDrained
      case Waits => OneMore(DrainOf(outbox, envs[1..]))
      case Removes(read) => if |outbox| == 1 then Drained(1, read) else OneMore(DrainOf(outbox[1..], envs[1..]))
  }

  /** With the queue empty, the first cycle that does not idle commits a collection. */
  predicate CollectsFirst(backfill: Backfill, envs: seq<CycleEnv>, textLength: Batch -> nat) {
    exists i :: 0 <= i < |envs| && IsFirstCollection(backfill, envs, textLength, i)
  }

  predicate IsFirstCollection(backfill: Backfill, envs: seq<CycleEnv>, textLength: Batch -> nat, i: nat)
    requires i < |envs|
  {
    Commits([], Some(backfill), envs[i], textLength) && forall j :: 0 <= j < i ==> Idles(backfill, envs[j], textLength)
  }

  /** Nothing is committed before the queue is empty, and nothing after that if the loop ends then. */
  lemma {:induction false} QueuedCollections(outbox: seq<Batch>, backfill: Backfill, collected: bool, envs: seq<CycleEnv>, textLength: Batch -> nat)
    requires outbox != []
    ensures var drain := DrainOf(outbox, envs);
            Collections(outbox, Some(backfill), collected, envs, textLength) ==
              if drain.NotDrained? || (collected && drain.read) then 0
              else Collections([], Some(backfill), collected, envs[drain.cycles..], textLength)
    decreases |envs|
  {
    hide CycleOf, TurnOf, Commits;
    if envs != [] {
      TurnIsExact(outbox, Some(backfill), collected, envs[0], textLength);
      match TurnOf(outbox[0], envs[0]) {
        case Aborts =>
        case Waits =>
          QueuedCollections(outbox, backfill, collected, envs[1..], textLength);
          Shifted(envs, DrainOf(outbox, envs[1..]));
        case Removes(read) =>
          if |outbox| > 1 {
            QueuedCollections(outbox[1..], backfill, collected, envs[1..], textLength);
            Shifted(envs, DrainOf(outbox[1..], envs[1..]));
          }
      }
    }
  }

  lemma Shifted(envs: seq<CycleEnv>, drain: Drain)
    requires envs != [] && (drain.Drained? ==> drain.cycles <= |envs| - 1)
    ensures drain.Drained? ==> envs[1..][drain.cycles..] == envs[OneMore(drain).cycles..]
  {
  }

  /** From an empty queue, idle cycles change nothing before the first collection. */
  lemma {:induction false} IdleCollections(backfill: Backfill, collected: bool, envs: seq<CycleEnv>, textLength: Batch -> nat, i: nat)
    requires i < |envs| && IsFirstCollection(backfill, envs, textLength, i)
    ensures Collections([], Some(backfill), collected, envs, textLength) == Collections([], Some(backfill), collected, envs[i..], textLength)
    decreases i
  {
    hide CycleOf, Commits, Idles;
    if i > 0 {
      assert Idles(backfill, envs[0], textLength);
      NotBoth(backfill, envs[0], textLength);
      EmptyTurnIsExact(backfill, collected, envs[0], textLength);
      assert envs[1..][i - 1..] == envs[i..];
      assert forall j :: 0 <= j < i - 1 ==> envs[1..][j] == envs[j + 1];
      IdleCollections(backfill, collected, envs[1..], textLength, i - 1);
    } else {
      assert envs[0..] == envs;
    }
  }

  lemma {:induction false} NotBoth(backfill: Backfill, env: CycleEnv, textLength: Batch -> nat)
    requires Idles(backfill, env, textLength)
    ensures !Commits([], Some(backfill), env, textLength)
  {
    hide PollOf, CheckedRows, Batches, InsertAll, GoesThrough;
    var batches := BatchesAt(backfill, env);
    InsertsAllOrNothing([], batches, textLength, env.breaksAt);
    assert [] + batches == batches;
  }

  /** From an empty queue something is collected exactly when the first cycle that does not idle commits. */
  lemma {:induction false} CollectsAtAllExactly(backfill: Backfill, collected: bool, envs: seq<CycleEnv>, textLength: Batch -> nat)
    ensures Collections([], Some(backfill), collected, envs, textLength) > 0 <==> CollectsFirst(backfill, envs, textLength)
    decreases |envs|
  {
    hide CycleOf, Commits, Idles;
    if envs != [] {
      if Commits([], Some(backfill), envs[0], textLength) {
        assert IsFirstCollection(backfill, envs, textLength, 0);
      } else {
        EmptyTurnIsExact(backfill, collected, envs[0], textLength);
        if Idles(backfill, envs[0], textLength) {
          CollectsAtAllExactly(backfill, collected, envs[1..], textLength);
          ShiftedFirst(backfill, envs, textLength);
        }
      }
    }
  }

  lemma {:induction false} ShiftedFirst(backfill: Backfill, envs: seq<CycleEnv>, textLength: Batch -> nat)
    requires envs != [] && Idles(backfill, envs[0], textLength) && !Commits([], Some(backfill), envs[0], textLength)
    ensures CollectsFirst(backfill, envs, textLength) <==> CollectsFirst(backfill, envs[1..], textLength)
  {
    hide Commits, Idles;
    var rest := envs[1..];
    if i :| 0 <= i < |envs| && IsFirstCollection(backfill, envs, textLength, i) {
      assert forall j :: 0 <= j < |rest| ==> rest[j] == envs[j + 1];
      assert IsFirstCollection(backfill, rest, textLength, i - 1);
    }
    if i :| 0 <= i < |rest| && IsFirstCollection(backfill, rest, textLength, i) {
      assert forall j :: 0 < j < |envs| ==> envs[j] == rest[j - 1];
      assert IsFirstCollection(backfill, envs, textLength, i + 1);
    }
  }

  /** A collection at the first of the cycles is followed by another: its queue drains, but the loop does not end then, because the collection did not count or the last receipt could not be read; and the first cycle after that which does not idle commits. */
  predicate CollectsAgain(backfill: Backfill, collected: bool, envs: seq<CycleEnv>, textLength: Batch -> nat)
    requires envs != []
  {
    var batches := BatchesAt(backfill, envs[0]);
    var drain := DrainOf(batches, envs);
    && batches != [] && drain.Drained?
    && !((collected || IsSettled(envs[0], batches[0])) && drain.read)
    && CollectsFirst(backfill, envs[drain.cycles..], textLength)
  }

  lemma {:induction false} CollectsAgainExactly(backfill: Backfill, collected: bool, envs: seq<CycleEnv>, textLength: Batch -> nat)
    requires envs != [] && Commits([], Some(backfill), envs[0], textLength)
    ensures Collections([], Some(backfill), collected, envs, textLength) >= 2 <==> CollectsAgain(backfill, collected, envs, textLength)
  {
    hide CycleOf, Commits, BatchesAt, TurnOf, IsSettled;
    var batches := BatchesAt(backfill, envs[0]);
    CommittingTurnIsExact(backfill, collected, envs[0], textLength);
    var (r, rest) := CycleOf([], Some(backfill), envs[0], textLength);
    var now := CollectedBy(r, collected);
    if TurnOf(batches[0], envs[0]).Aborts? {
    } else if rest == [] {
      CollectsAtAllExactly(backfill, now, envs[1..], textLength);
    } else {
      QueuedCollections(rest, backfill, now, envs[1..], textLength);
      var drain := DrainOf(rest, envs[1..]);
      Shifted(envs, drain);
      if drain.Drained? {
        CollectsAtAllExactly(backfill, now, envs[1..][drain.cycles..], textLength);
      }
    }
  }

  /** The given cycle is the first that commits a collection: the queue is drained before it, and the cycles between idle. */
  predicate IsFirstCommit(outbox: seq<Batch>, backfill: Backfill, envs: seq<CycleEnv>, textLength: Batch -> nat, c: nat) {
    var drain := DrainOf(outbox, envs);
    && drain.Drained? && drain.cycles <= c < |envs|
    && IsFirstCollection(backfill, envs[drain.cycles..], textLength, c - drain.cycles)
  }

  /** Over any cycles and from any queue, the loop collects exactly once when there is a first collection and it is not followed by another; it collects nothing exactly when there is no first one. */
  lemma {:induction false} CollectsOnceExactly(outbox: seq<Batch>, backfill: Backfill, envs: seq<CycleEnv>, textLength: Batch -> nat)
    ensures Collections(outbox, Some(backfill), false, envs, textLength) == 1 <==>
              exists c :: 0 <= c < |envs| && IsFirstCommit(outbox, backfill, envs, textLength, c) && !CollectsAgain(backfill, false, envs[c..], textLength)
    ensures Collections(outbox, Some(backfill), false, envs, textLength) == 0 <==>
              forall c :: 0 <= c < |envs| ==> !IsFirstCommit(outbox, backfill, envs, textLength, c)
  {
    hide *;
    CollectionsAfterDrain(outbox, backfill, envs, textLength);
    var all := Collections(outbox, Some(backfill), false, envs, textLength);
    forall c | 0 <= c < |envs| && IsFirstCommit(outbox, backfill, envs, textLength, c)
      ensures all > 0 && (all >= 2 <==> CollectsAgain(backfill, false, envs[c..], textLength))
    {
      FromFirstCommit(outbox, backfill, envs, textLength, c);
    }
    if all > 0 {
      FirstCommitExists(outbox, backfill, envs, textLength);
    }
  }

  lemma {:induction false} CollectionsAfterDrain(outbox: seq<Batch>, backfill: Backfill, envs: seq<CycleEnv>, textLength: Batch -> nat)
    ensures var drain := DrainOf(outbox, envs);
            Collections(outbox, Some(backfill), false, envs, textLength) ==
              if drain.NotDrained? then 0 else Collections([], Some(backfill), false, envs[drain.cycles..], textLength)
  {
    hide Collections, TurnOf;
    if outbox == [] {
      assert envs[0..] == envs;
    } else {
      QueuedCollections(outbox, backfill, false, envs, textLength);
    }
  }

  lemma {:induction false} FromFirstCommit(outbox: seq<Batch>, backfill: Backfill, envs: seq<CycleEnv>, textLength: Batch -> nat, c: nat)
    requires c < |envs| && IsFirstCommit(outbox, backfill, envs, textLength, c)
    ensures var all := Collections(outbox, Some(backfill), false, envs, textLength);
            all > 0 && (all >= 2 <==> CollectsAgain(backfill, false, envs[c..], textLength))
  {
    hide Collections, DrainOf, Commits, Idles, CollectsAgain, CollectsFirst;
    var d := DrainOf(outbox, envs).cycles;
    CollectionsAfterDrain(outbox, backfill, envs, textLength);
    IdleCollections(backfill, false, envs[d..], textLength, c - d);
    CollectsAtAllExactly(backfill, false, envs[d..], textLength);
    SomeFirst(backfill, envs[d..], textLength, c - d);
    assert envs[d..][c - d..] == envs[c..] && envs[d..][c - d] == envs[c] && envs[c..][0] == envs[c];
    CollectsAgainExactly(backfill, false, envs[c..], textLength);
  }

  lemma {:induction false} SomeFirst(backfill: Backfill, envs: seq<CycleEnv>, textLength: Batch -> nat, i: nat)
    requires i < |envs| && IsFirstCollection(backfill, envs, textLength, i)
    ensures CollectsFirst(backfill, envs, textLength)
  {
    hide IsFirstCollection;
  }

  lemma {:induction false} FirstCommitExists(outbox: seq<Batch>, backfill: Backfill, envs: seq<CycleEnv>, textLength: Batch -> nat)
    requires Collections(outbox, Some(backfill), false, envs, textLength) > 0
    ensures exists c :: 0 <= c < |envs| && IsFirstCommit(outbox, backfill, envs, textLength, c)
  {
    hide Collections, DrainOf, IsFirstCollection;
    CollectionsAfterDrain(outbox, backfill, envs, textLength);
    var d := DrainOf(outbox, envs).cycles;
    CollectsAtAllExactly(backfill, false, envs[d..], textLength);
    var i :| 0 <= i < |envs[d..]| && IsFirstCollection(backfill, envs[d..], textLength, i);
    assert IsFirstCommit(outbox, backfill, envs, textLength, d + i);
  }

  // ---------------------------------------------------------------- an acknowledging server

  /** The plan is enabled and every post is acknowledged. */
  ghost predicate AlwaysAcknowledges(env: CycleEnv) {
    && PollOf(env.plan).Done? && env.plan.plan.enabled && !env.pausedHere
    && forall batch :: IsSettled(env, batch)
  }

  lemma {:induction false} AcknowledgedTurn(head: Batch, env: CycleEnv)
    requires AlwaysAcknowledges(env)
    ensures TurnOf(head, env) == Removes(true) && IsSettled(env, head)
  {
    hide PollOf;
    assert IsSettled(env, head);
  }

  lemma {:induction false} AcknowledgedDrain(outbox: seq<Batch>, envs: seq<CycleEnv>)
    requires forall env <- envs :: AlwaysAcknowledges(env)
    ensures DrainOf(outbox, envs) == if |outbox| <= |envs| then Drained(|outbox|, true) else NotDrained
    decreases |envs|
  {
    hide AlwaysAcknowledges, TurnOf;
    if outbox != [] && envs != [] {
      AcknowledgedTurn(outbox[0], envs[0]);
      AcknowledgedDrain(outbox[1..], envs[1..]);
    }
  }

  lemma {:induction false} AcknowledgedCollectsOnce(backfill: Backfill, collected: bool, envs: seq<CycleEnv>, textLength: Batch -> nat)
    requires envs != [] && Commits([], Some(backfill), envs[0], textLength) && forall env <- envs :: AlwaysAcknowledges(env)
    ensures Collections([], Some(backfill), collected, envs, textLength) == 1
  {
    hide AlwaysAcknowledges, Commits, Collections, DrainOf, TurnOf, CollectsFirst, IsSettled, BatchesAt, IsFirstCollection;
    CommittingTurnIsExact(backfill, collected, envs[0], textLength);
    CollectsAgainExactly(backfill, collected, envs, textLength);
    AcknowledgedDrain(BatchesAt(backfill, envs[0]), envs);
    AcknowledgedTurn(BatchesAt(backfill, envs[0])[0], envs[0]);
    FirstAtOnce(backfill, envs, textLength);
    CollectsAtAllExactly(backfill, collected, envs, textLength);
  }

  lemma {:induction false} FirstAtOnce(backfill: Backfill, envs: seq<CycleEnv>, textLength: Batch -> nat)
    requires envs != [] && Commits([], Some(backfill), envs[0], textLength)
    ensures CollectsFirst(backfill, envs, textLength)
  {
    hide Commits, Idles;
    assert IsFirstCollection(backfill, envs, textLength, 0);
  }

  /** Where every later post is acknowledged and every later collection would go through, the loop collects once exactly when the first batch is settled or its failure ends the process; otherwise it collects twice. */
  lemma {:induction false} CollectsTwiceExactly(backfill: Backfill, envs: seq<CycleEnv>, textLength: Batch -> nat)
    requires envs != [] && Commits([], Some(backfill), envs[0], textLength)
    requires forall env <- envs[1..] :: AlwaysAcknowledges(env) && Commits([], Some(backfill), env, textLength)
    requires |envs| >= |BatchesAt(backfill, envs[0])| + 2
    ensures BatchesAt(backfill, envs[0]) != []
    ensures Collections([], Some(backfill), false, envs, textLength) ==
              if TurnOf(BatchesAt(backfill, envs[0])[0], envs[0]) in {Removes(true), Aborts} then 1 else 2
  {
    hide AlwaysAcknowledges, Commits, DrainOf, TurnOf, CollectsFirst, IsSettled, BatchesAt, IsFirstCollection, CycleOf;
    CommittingTurnIsExact(backfill, false, envs[0], textLength);
    var (r, rest) := CycleOf([], Some(backfill), envs[0], textLength);
    var q := |rest|;
    if !TurnOf(BatchesAt(backfill, envs[0])[0], envs[0]).Aborts? {
      AcknowledgedDrain(rest, envs[1..]);
      assert envs[1..][q..] == envs[1 + q..] && envs[1 + q] in envs[1..] && forall env <- envs[1 + q..] :: env in envs[1..];
      AcknowledgedCollectsOnce(backfill, false, envs[1 + q..], textLength);
      if rest != [] {
        QueuedCollections(rest, backfill, CollectedBy(r, false), envs[1..], textLength);
      } else {
        assert envs[1 + q..] == envs[1..];
      }
    }
  }

  lemma {:induction false} FlushingCycle(outbox: seq<Batch>, backfill: Option<Backfill>, env: CycleEnv, textLength: Batch -> nat)
    requires AlwaysAcknowledges(env) && outbox != []
    ensures var (r, rest) := CycleOf(outbox, backfill, env, textLength);
            r.Done? && r.value.Flushed? && rest == outbox[1..] && r.value.pending == |rest|
  {
    assert IsSettled(env, outbox[0]);
    hide PollOf;
  }

  /** Once the collection counts, the loop ends when the queue is empty. */
  lemma {:induction false} DrainsAndEnds(outbox: seq<Batch>, backfill: Backfill, envs: seq<CycleEnv>, textLength: Batch -> nat)
    requires outbox != [] && |outbox| <= |envs| && forall env <- envs :: AlwaysAcknowledges(env)
    ensures LoopOf(outbox, Some(backfill), true, envs, textLength) == Finished(|outbox|)
    decreases |outbox|
  {
    hide AlwaysAcknowledges, CycleOf;
    assert AlwaysAcknowledges(envs[0]);
    FlushingCycle(outbox, Some(backfill), envs[0], textLength);
    if |outbox| > 1 {
      DrainsAndEnds(outbox[1..], backfill, envs[1..], textLength);
    }
  }

  /** The collecting cycle goes through, with the batches that it collects, if any. */
  ghost predicate CanCollect(backfill: Backfill, env: CycleEnv, textLength: Batch -> nat) {
    && AlwaysAcknowledges(env) && CheckedRows(Some(backfill), env.plan.plan, env).Done?
    && (BatchesAt(backfill, env) == [] || GoesThrough(BatchesAt(backfill, env), textLength, env.breaksAt))
  }

  lemma {:induction false} CollectingCycle(backfill: Backfill, env: CycleEnv, textLength: Batch -> nat)
    requires CanCollect(backfill, env, textLength)
    ensures var batches := BatchesAt(backfill, env);
            var (r, rest) := CycleOf([], Some(backfill), env, textLength);
            && r.Done? && HasCollected(r.value) && !r.value.Blocked? && PendingOf(r.value) == |rest|
            && rest == if batches == [] then [] else batches[1..]
  {
    var batches := BatchesAt(backfill, env);
    if batches == [] {
      hide PollOf, CheckedRows, Batches, InsertAll, GoesThrough;
    } else {
      CommitsWhereItCan(backfill, env, textLength);
      CommittingTurnIsExact(backfill, false, env, textLength);
      AcknowledgedTurn(batches[0], env);
      hide CycleOf, TurnOf, BatchesAt, AlwaysAcknowledges, GoesThrough, IsSettled, Commits;
    }
  }

  lemma {:induction false} CommitsWhereItCan(backfill: Backfill, env: CycleEnv, textLength: Batch -> nat)
    requires CanCollect(backfill, env, textLength) && BatchesAt(backfill, env) != []
    ensures Commits([], Some(backfill), env, textLength)
  {
    hide PollOf, CheckedRows, Batches, InsertAll, GoesThrough;
  }

  function AtLeastOne(n: nat): nat {
    if n > 1 then n else 1
  }

  /** With an enabled plan and an acknowledging server, a backfill that finds k batches queued and collects n ends after exactly k + max(1, n) cycles. */
  lemma {:induction false} BackfillEndsAfter(outbox: seq<Batch>, backfill: Backfill, envs: seq<CycleEnv>, textLength: Batch -> nat)
    requires |outbox| < |envs| && CanCollect(backfill, envs[|outbox|], textLength) && forall env <- envs :: AlwaysAcknowledges(env)
    requires |outbox| + AtLeastOne(|BatchesAt(backfill, envs[|outbox|])|) <= |envs|
    ensures LoopOf(outbox, Some(backfill), false, envs, textLength) == Finished(|outbox| + AtLeastOne(|BatchesAt(backfill, envs[|outbox|])|))
    decreases |outbox|
  {
    hide AlwaysAcknowledges, CanCollect, CycleOf, BatchesAt;
    assert AlwaysAcknowledges(envs[0]);
    if outbox != [] {
      FlushingCycle(outbox, Some(backfill), envs[0], textLength);
      assert envs[1..][|outbox| - 1] == envs[|outbox|];
      BackfillEndsAfter(outbox[1..], backfill, envs[1..], textLength);
    } else {
      CollectingCycle(backfill, envs[0], textLength);
      var batches := BatchesAt(backfill, envs[0]);
      if |batches| > 1 {
        DrainsAndEnds(batches[1..], backfill, envs[1..], textLength);
      }
    }
  }

  /** So a collection whose first batch is not settled, and whose failure the loop catches, is drained without counting and then made again. */
  lemma {:induction false} FailedPostCollectsAgain(backfill: Backfill, envs: seq<CycleEnv>, textLength: Batch -> nat)
    requires envs != [] && Commits([], Some(backfill), envs[0], textLength) && BatchesAt(backfill, envs[0]) != []
    requires TurnOf(BatchesAt(backfill, envs[0])[0], envs[0]) in {Waits, Removes(false)}
    requires forall env <- envs[1..] :: AlwaysAcknowledges(env) && CanCollect(backfill, env, textLength)
    requires var n := |BatchesAt(backfill, envs[0])|;
             && |envs| > n + 1
             && forall k :: n <= k <= n + 1 ==> k + AtLeastOne(|BatchesAt(backfill, envs[k])|) <= |envs|
    ensures var batches, first := BatchesAt(backfill, envs[0]), TurnOf(BatchesAt(backfill, envs[0])[0], envs[0]);
            var k := if first.Waits? then 1 + |batches| else |batches|;
            LoopOf([], Some(backfill), false, envs, textLength) == Finished(k + AtLeastOne(|BatchesAt(backfill, envs[k])|))
  {
    hide AlwaysAcknowledges, CanCollect, CycleOf, BatchesAt, TurnOf, Commits, IsSettled;
    CommittingTurnIsExact(backfill, false, envs[0], textLength);
    var rest := CycleOf([], Some(backfill), envs[0], textLength).1;
    var q := |rest|;
    assert envs[1..][q] == envs[1 + q] && envs[1 + q] in envs[1..];
    BackfillEndsAfter(rest, backfill, envs[1..], textLength);
  }

  // ---------------------------------------------------------------- a backfill that collects twice

  const DAYS := Backfill(1, 2)

  function Exact(batch: Batch): PostOutcome {
    Answered(Receipt(batch.id, "success", 0, |batch.samples|, Readable(0)))
  }

  function Uncounted(batch: Batch): PostOutcome {
    Answered(Receipt(batch.id, "success", 0, |batch.samples|, Malformed))
  }

  function Ids(n: nat): string {
    ""
  }

  function OneSample(post: Batch -> PostOutcome): CycleEnv {
    CycleEnv(Planned(Plan(Readable(10), true, Some(["A"]))), false, 3, Rows([QuoteSample("A", "")], []), 0, 3, Ids, None, post, true)
  }

  lemma OneBatch(post: Batch -> PostOutcome)
    ensures |BatchesAt(DAYS, OneSample(post))| == 1 && Commits([], Some(DAYS), OneSample(post), _ => 0)
  {
    var rows := [QuoteSample("A", "")];
    assert Groups(rows, []) == [rows];
    var batches := BatchesAt(DAYS, OneSample(post));
    assert CheckedRows(Some(DAYS), OneSample(post).plan.plan, OneSample(post)) == Done((rows, []));
    hide Batches, CheckedRows, Groups;
    assert |batches| == 1;
  }

  lemma ExactIsAcknowledged()
    ensures AlwaysAcknowledges(OneSample(Exact))
  {
  }

  /** Two such backfills: the first post is lost on its way, or is acknowledged exactly with a stored count that is no number. */
  lemma CollectsTwice()
    ensures Collections([], Some(DAYS), false, [OneSample(_ => Unreached(Caught)), OneSample(Exact), OneSample(Exact)], _ => 0) == 2
    ensures Collections([], Some(DAYS), false, [OneSample(Uncounted), OneSample(Exact), OneSample(Exact)], _ => 0) == 2
    ensures Collections([], Some(DAYS), false, [OneSample(Exact), OneSample(Exact), OneSample(Exact)], _ => 0) == 1
  {
    CollectionsFrom(_ => Unreached(Caught));
    CollectionsFrom(Uncounted);
    CollectionsFrom(Exact);
    hide Collections, BatchesAt, Commits;
  }

  lemma CollectionsFrom(post: Batch -> PostOutcome)
    ensures |BatchesAt(DAYS, OneSample(post))| == 1
    ensures Collections([], Some(DAYS), false, [OneSample(post), OneSample(Exact), OneSample(Exact)], _ => 0) ==
              if TurnOf(BatchesAt(DAYS, OneSample(post))[0], OneSample(post)) in {Removes(true), Aborts} then 1 else 2
  {
    OneBatch(post);
    OneBatch(Exact);
    ExactIsAcknowledged();
    hide Collections, BatchesAt, Commits, TurnOf, OneSample, AlwaysAcknowledges;
    var envs := [OneSample(post), OneSample(Exact), OneSample(Exact)];
    assert envs[1..] == [OneSample(Exact), OneSample(Exact)];
    CollectsTwiceExactly(DAYS, envs, _ => 0);
  }

  function UncountedStatuses(batch: Batch): PostOutcome {
    if batch.kind == DailyStatusKind then Uncounted(batch) else Exact(batch)
  }

  function TwoIds(n: nat): string {
    if n == 0 then "" else "1"
  }

  function TwoSamples(): CycleEnv {
    OneSample(UncountedStatuses).(source := Rows([QuoteSample("A", "")], [StatusSample(Status("A", 1, None))]), ids := TwoIds)
  }

  lemma TwoBatches()
    ensures var batches := BatchesAt(DAYS, TwoSamples());
            && |batches| == 2 && batches[0].kind == BarKind && batches[1].kind == DailyStatusKind
            && Commits([], Some(DAYS), TwoSamples(), _ => 0)
  {
    var rows, statuses := TwoSamples().source.rows, TwoSamples().source.statuses;
    assert Groups(rows, statuses) == [rows, statuses];
    assert CheckedRows(Some(DAYS), TwoSamples().plan.plan, TwoSamples()) == Done((rows, statuses));
    hide Batches, CheckedRows, Groups;
  }

  /** A settled first batch is not enough: where the last receipt of the collection cannot be read, the loop collects again although the collection has counted. */
  lemma CountsAndCollectsTwice()
    ensures BatchesAt(DAYS, TwoSamples()) != [] && IsSettled(TwoSamples(), BatchesAt(DAYS, TwoSamples())[0])
    ensures Collections([], Some(DAYS), false, [TwoSamples(), TwoSamples(), OneSample(Exact)], _ => 0) >= 2
  {
    TwoBatches();
    OneBatch(Exact);
    var envs := [TwoSamples(), TwoSamples(), OneSample(Exact)];
    var batches := BatchesAt(DAYS, TwoSamples());
    assert TurnOf(batches[0], TwoSamples()) == Removes(true) && TurnOf(batches[1], TwoSamples()) == Removes(false);
    assert IsSettled(TwoSamples(), batches[0]);
    hide Collections, BatchesAt, Commits, TurnOf, TwoSamples, OneSample, IsSettled;
    assert envs[1..][0] == TwoSamples() && |batches[1..]| == 1;
    assert DrainOf(batches[1..], envs[1..]) == Drained(1, false);
    assert DrainOf(batches, envs) == Drained(2, false);
    assert envs[2..] == [OneSample(Exact)];
    FirstAtOnce(DAYS, envs[2..], _ => 0);
    CollectsAgainExactly(DAYS, false, envs, _ => 0);
  }
}
