/** The market-data outbox: collections cut into batches, the durable queue, and what the server makes of what is posted. */
module Outbox {
  import opened Outcomes
  import opened DailyHistory

  datatype Sample = QuoteSample(asset: string, text: string) | BarSample(bar: Bar) | StatusSample(status: Status)

  datatype Kind = QuoteKind | BarKind | DailyStatusKind

  datatype Batch = Batch(id: string, kind: Kind, collectedAt: int, samples: seq<Sample>, window: Option<(int, int)>)

  // ---------------------------------------------------------------- chunks

  const CHUNK := 500

  function Chunks(rows: seq<Sample>): seq<seq<Sample>> {
    if rows == [] then [] else if |rows| <= CHUNK then [rows] else [rows[..CHUNK]] + Chunks(rows[CHUNK..])
  }

  /** The slices of a result list, by offsets of 500. */
  method Sliced(rows: seq<Sample>) returns (slices: seq<seq<Sample>>)
    ensures slices == Chunks(rows)
  {
    slices := [];
    var offset := 0;
    assert rows[0..] == rows && ChunksFrom(rows, 0) == Chunks(rows);
    hide Chunks, ChunksFrom;
    while offset < |rows|
      invariant offset >= 0 && (offset >= |rows| ==> ChunksFrom(rows, offset) == [])
      invariant Chunks(rows) == slices + ChunksFrom(rows, offset)
    {
      var end := if offset + CHUNK <= |rows| then offset + CHUNK else |rows|;
      NextChunk(rows, offset);
      slices := slices + [rows[offset..end]];
      offset := offset + CHUNK;
      NoMoreChunks(rows, offset);
    }
  }

  /** The chunks from an offset on; the last step of the loop may overshoot the end. */
  function ChunksFrom(rows: seq<Sample>, offset: nat): seq<seq<Sample>> {
    if offset < |rows| then Chunks(rows[offset..]) else []
  }

  lemma NextChunk(rows: seq<Sample>, offset: nat)
    requires offset < |rows|
    ensures ChunksFrom(rows, offset) ==
              [rows[offset..if offset + CHUNK <= |rows| then offset + CHUNK else |rows|]] + ChunksFrom(rows, offset + CHUNK)
  {
    var rest := rows[offset..];
    if offset + CHUNK < |rows| {
      assert rest[CHUNK..] == rows[offset + CHUNK..] && rest[..CHUNK] == rows[offset..offset + CHUNK];
    } else {
      assert rest != [] && Chunks(rest) == [rest];
      assert rows[offset..|rows|] == rest;
    }
  }

  lemma NoMoreChunks(rows: seq<Sample>, offset: nat)
    ensures offset >= |rows| ==> ChunksFrom(rows, offset) == []
  {
  }

  function Joined(chunks: seq<seq<Sample>>): seq<Sample> {
    if chunks == [] then [] else chunks[0] + Joined(chunks[1..])
  }

  /** Chunks hold 1 to 500 rows, all but the last exactly 500, and put together they are the rows again. */
  lemma {:induction false} ChunksAreExact(rows: seq<Sample>)
    ensures Joined(Chunks(rows)) == rows
    ensures |Chunks(rows)| == (|rows| + 499) / 500
    ensures forall i :: 0 <= i < |Chunks(rows)| ==> 1 <= |Chunks(rows)[i]| <= 500
    ensures forall i :: 0 <= i < |Chunks(rows)| - 1 ==> |Chunks(rows)[i]| == 500
  {
    if |rows| > CHUNK {
      ChunksAreExact(rows[CHUNK..]);
    }
  }

  // ---------------------------------------------------------------- the queue and the server

  /** A field that is read as an integer: it is one, it is text that is none, or it is of another kind. */
  datatype IntField = Readable(i: int) | Malformed | Unreadable

  datatype Receipt = Receipt(batchId: string, outcome: string, failed: int, succeeded: int, stored: IntField)

  /** The exact receipt that lets a batch go. */
  predicate Acknowledges(receipt: Receipt, batch: Batch) {
    && receipt.batchId == batch.id && (receipt.outcome == "success" || receipt.outcome == "noop")
    && receipt.failed == 0 && receipt.succeeded == |batch.samples|
  }

  /** The durable queue, with the history of what was committed to it, removed from it and received by the server. */
  datatype Queue = Queue(committed: seq<Batch>, removed: seq<Batch>, outbox: seq<Batch>, posted: seq<Batch>)

  /** The durable and external actions; a crash before or after one leaves its state. */
  datatype Action =
    | Commit(batches: seq<Batch>)
    | Deliver(receipt: Option<Receipt>, deleted: bool)

  predicate DistinctIds(batches: seq<Batch>) {
    forall i, j :: 0 <= i < j < |batches| ==> batches[i].id != batches[j].id
  }

  /** A collection starts on an empty queue, and its ids are a primary key. */
  predicate Enabled(q: Queue, a: Action) {
    match a
    case Commit(batches) => q.outbox == [] && DistinctIds(batches)
    case Deliver(_, _) => q.outbox != []
  }

  /** The head reaches the server; it is deleted where the answer arrives, acknowledges it, and the deletion commits. */
  function Apply(q: Queue, a: Action): Queue
    requires Enabled(q, a)
  {
    match a
    case Commit(batches) => q.(committed := q.committed + batches, outbox := batches)
    case Deliver(receipt, deleted) =>
      var received := q.(posted := q.posted + [q.outbox[0]]);
      if receipt.Some? && Acknowledges(receipt.value, q.outbox[0]) && deleted
      then received.(removed := q.removed + [q.outbox[0]], outbox := Without(q.outbox, q.outbox[0].id))
      else received
  }

  /** `DELETE FROM outbox WHERE id=?`. */
  function Without(outbox: seq<Batch>, id: string): seq<Batch> {
    if outbox == [] then []
    else (if outbox[0].id == id then [] else [outbox[0]]) + Without(outbox[1..], id)
  }

  lemma {:induction false} WithoutUnknown(outbox: seq<Batch>, id: string)
    requires forall batch <- outbox :: batch.id != id
    ensures Without(outbox, id) == outbox
  {
    if outbox != [] {
      WithoutUnknown(outbox[1..], id);
    }
  }

  lemma WithoutHead(outbox: seq<Batch>)
    requires outbox != [] && DistinctIds(outbox)
    ensures Without(outbox, outbox[0].id) == outbox[1..]
  {
    WithoutUnknown(outbox[1..], outbox[0].id);
  }

  const EMPTY := Queue([], [], [], [])

  predicate IsRun(actions: seq<Action>)
    decreases |actions|, 0
  {
    actions == [] ||
    (IsRun(actions[..|actions| - 1]) && Enabled(After(actions[..|actions| - 1]), actions[|actions| - 1]))
  }

  function After(actions: seq<Action>): Queue
    requires IsRun(actions)
    decreases |actions|, 1
  {
    if actions == [] then EMPTY else Apply(After(actions[..|actions| - 1]), actions[|actions| - 1])
  }

  lemma ExtendRun(actions: seq<Action>, a: Action)
    requires IsRun(actions) && Enabled(After(actions), a)
    ensures IsRun(actions + [a]) && After(actions + [a]) == Apply(After(actions), a)
  {
    assert (actions + [a])[..|actions + [a]| - 1] == actions;
  }

  /** How many collections were committed. */
  function CommitCount(actions: seq<Action>): nat {
    if actions == [] then 0 else CommitCount(actions[..|actions| - 1]) + if actions[|actions| - 1].Commit? then 1 else 0
  }

  lemma CommitCountExtends(actions: seq<Action>, a: Action)
    ensures CommitCount(actions + [a]) == CommitCount(actions) + if a.Commit? then 1 else 0
  {
    assert (actions + [a])[..|actions + [a]| - 1] == actions;
  }

  // ---------------------------------------------------------------- nothing is lost

  predicate Conserves(q: Queue) {
    q.removed + q.outbox == q.committed && DistinctIds(q.outbox)
  }

  lemma StepConserves(q: Queue, a: Action)
    requires Enabled(q, a) && Conserves(q)
    ensures Conserves(Apply(q, a))
  {
    if a.Deliver? {
      WithoutHead(q.outbox);
    }
  }

  /** In every run, what was removed followed by what is queued is what was committed, in order. */
  lemma {:induction false} RunsConserve(actions: seq<Action>)
    requires IsRun(actions)
    ensures After(actions).removed + After(actions).outbox == After(actions).committed
    ensures DistinctIds(After(actions).outbox)
  {
    hide Apply, Enabled;
    if actions != [] {
      RunsConserve(actions[..|actions| - 1]);
      StepConserves(After(actions[..|actions| - 1]), actions[|actions| - 1]);
    }
  }

  // ---------------------------------------------------------------- what was removed

  lemma {:induction false} PrefixOfRun(actions: seq<Action>, k: nat)
    requires IsRun(actions) && k <= |actions|
    ensures IsRun(actions[..k])
  {
    if k == |actions| {
      assert actions[..k] == actions;
    } else {
      PrefixOfRun(actions[..|actions| - 1], k);
      assert actions[..|actions| - 1][..k] == actions[..k];
    }
  }

  /** The queue after the first `k` actions. */
  function At(actions: seq<Action>, k: nat): Queue
    requires IsRun(actions) && k <= |actions|
  {
    PrefixOfRun(actions, k);
    After(actions[..k])
  }

  /** The action delivers the batch at the head of the queue, is answered for it by its id, with success or nothing to do, no failed sample and every sample taken, and deletes it. */
  predicate RemovesExactly(actions: seq<Action>, k: nat, batch: Batch)
    requires IsRun(actions)
  {
    && k < |actions| && actions[k].Deliver? && actions[k].receipt.Some? && actions[k].deleted
    && At(actions, k).outbox != [] && At(actions, k).outbox[0] == batch
    && var receipt := actions[k].receipt.value;
    && receipt.batchId == batch.id && receipt.outcome in {"success", "noop"} && receipt.failed == 0 && receipt.succeeded == |batch.samples|
  }

  lemma {:induction false} RemovesInLonger(actions: seq<Action>, k: nat, batch: Batch)
    requires IsRun(actions) && actions != [] && IsRun(actions[..|actions| - 1]) && RemovesExactly(actions[..|actions| - 1], k, batch)
    ensures RemovesExactly(actions, k, batch)
  {
    assert actions[..|actions| - 1][..k] == actions[..k] && actions[..|actions| - 1][k] == actions[k];
    hide IsRun, After;
  }

  lemma {:induction false} LastRemoves(actions: seq<Action>)
    requires IsRun(actions) && actions != []
    ensures var front, q := actions[..|actions| - 1], After(actions);
            || q.removed == After(front).removed
            || (&& q.removed == After(front).removed + [After(front).outbox[0]]
                && RemovesExactly(actions, |actions| - 1, After(front).outbox[0]))
  {
    hide Without;
  }

  /** In every run, each batch that was removed was removed on an exact receipt of its own. */
  lemma {:induction false} RemovedOnExactReceipt(actions: seq<Action>, i: nat)
    requires IsRun(actions) && i < |After(actions).removed|
    ensures exists k :: RemovesExactly(actions, k, After(actions).removed[i])
  {
    hide Apply, Enabled, RemovesExactly;
    if actions != [] {
      var front := actions[..|actions| - 1];
      LastRemoves(actions);
      if i < |After(front).removed| {
        RemovedOnExactReceipt(front, i);
        var k :| RemovesExactly(front, k, After(front).removed[i]);
        RemovesInLonger(actions, k, After(front).removed[i]);
        assert RemovesExactly(actions, k, After(actions).removed[i]);
      } else {
        assert RemovesExactly(actions, |actions| - 1, After(actions).removed[i]);
      }
    }
  }

  // ---------------------------------------------------------------- the server

  /** What a server keeps that skips a batch whose id it has already seen. */
  function Deduplicated(posted: seq<Batch>): seq<Batch> {
    if posted == [] then []
    else
      var front, last := Deduplicated(posted[..|posted| - 1]), posted[|posted| - 1];
      if exists batch <- front :: batch.id == last.id then front else front + [last]
  }

  /** What is left of the posts when a repetition of the post before is dropped. */
  function WithoutRepeats(posted: seq<Batch>): seq<Batch> {
    if posted == [] then []
    else
      var front, last := posted[..|posted| - 1], posted[|posted| - 1];
      if front != [] && front[|front| - 1] == last then WithoutRepeats(front) else WithoutRepeats(front) + [last]
  }

  /** The posts, without adjacent repeats, are the removed batches, and after them the head if the last post was of it. */
  predicate PostsAreOrdered(q: Queue) {
    && (q.posted == [] ==> q.removed == [])
    && (q.posted != [] ==>
         || (q.removed != [] && q.posted[|q.posted| - 1] == q.removed[|q.removed| - 1] && WithoutRepeats(q.posted) == q.removed)
         || (q.outbox != [] && q.posted[|q.posted| - 1] == q.outbox[0] && WithoutRepeats(q.posted) == q.removed + [q.outbox[0]]))
  }

  lemma StepKeepsOrder(q: Queue, a: Action)
    requires Enabled(q, a) && Conserves(q) && PostsAreOrdered(q) && DistinctIds(Apply(q, a).committed)
    ensures PostsAreOrdered(Apply(q, a))
  {
    if a.Deliver? {
      WithoutHead(q.outbox);
      PostingKeepsOrder(q);
      hide WithoutRepeats, Without;
    } else {
      assert q.outbox == [];
    }
  }

  lemma PostingKeepsOrder(q: Queue)
    requires q.outbox != [] && Conserves(q) && PostsAreOrdered(q) && DistinctIds(q.committed)
    ensures WithoutRepeats(q.posted + [q.outbox[0]]) == q.removed + [q.outbox[0]]
  {
    var posted := q.posted + [q.outbox[0]];
    assert posted[..|posted| - 1] == q.posted;
    assert q.committed[|q.removed|] == q.outbox[0];
    assert forall i :: 0 <= i < |q.removed| ==> q.committed[i] == q.removed[i];
  }

  lemma {:induction false} RunsKeepOrder(actions: seq<Action>)
    requires IsRun(actions) && DistinctIds(After(actions).committed)
    ensures PostsAreOrdered(After(actions))
  {
    hide Apply, Enabled, PostsAreOrdered, WithoutRepeats;
    if actions == [] {
      EmptyIsOrdered();
    } else {
      var front, a := actions[..|actions| - 1], actions[|actions| - 1];
      CommittedGrows(After(front), a);
      RunsKeepOrder(front);
      RunsConserve(front);
      StepKeepsOrder(After(front), a);
    }
  }

  lemma EmptyIsOrdered()
    ensures PostsAreOrdered(EMPTY)
  {
  }

  lemma CommittedGrows(q: Queue, a: Action)
    requires Enabled(q, a)
    ensures q.committed <= Apply(q, a).committed
  {
  }

  lemma {:induction false} RepeatsAreDuplicates(posted: seq<Batch>)
    requires DistinctIds(WithoutRepeats(posted))
    ensures Deduplicated(posted) == WithoutRepeats(posted)
    ensures posted != [] ==> posted[|posted| - 1] in WithoutRepeats(posted)
  {
    if posted != [] {
      var front, last := posted[..|posted| - 1], posted[|posted| - 1];
      var all := WithoutRepeats(posted);
      if front != [] && front[|front| - 1] == last {
        RepeatsAreDuplicates(front);
      } else {
        assert WithoutRepeats(front) == all[..|all| - 1];
        RepeatsAreDuplicates(front);
        assert all[|all| - 1] == last;
      }
    }
  }

  /** In every run whose batch ids differ, the posts without adjacent repeats are a prefix of what was committed, one batch at most beyond what was removed; a server that skips ids it knows keeps each of these batches exactly once and in order. */
  lemma ServerKeepsEachOnce(actions: seq<Action>)
    requires IsRun(actions) && DistinctIds(After(actions).committed)
    ensures var q := After(actions);
            && WithoutRepeats(q.posted) <= q.committed
            && |q.removed| <= |WithoutRepeats(q.posted)| <= |q.removed| + 1
            && Deduplicated(q.posted) == WithoutRepeats(q.posted)
  {
    RunsConserve(actions);
    RunsKeepOrder(actions);
    hide IsRun, After, WithoutRepeats, Deduplicated;
    var q := After(actions);
    assert PostsAreOrdered(q);
    PostsReach(q);
    RepeatsAreDuplicates(q.posted);
  }

  lemma PostsReach(q: Queue)
    requires Conserves(q) && PostsAreOrdered(q) && DistinctIds(q.committed)
    ensures WithoutRepeats(q.posted) <= q.committed && DistinctIds(WithoutRepeats(q.posted))
    ensures |q.removed| <= |WithoutRepeats(q.posted)| <= |q.removed| + 1
  {
    if q.posted == [] {
      assert WithoutRepeats(q.posted) == [];
    }
    hide WithoutRepeats;
    assert WithoutRepeats(q.posted) <= q.committed;
    forall i, j | 0 <= i < j < |WithoutRepeats(q.posted)|
      ensures WithoutRepeats(q.posted)[i].id != WithoutRepeats(q.posted)[j].id
    {
      assert WithoutRepeats(q.posted)[i] == q.committed[i] && WithoutRepeats(q.posted)[j] == q.committed[j];
    }
  }
}
