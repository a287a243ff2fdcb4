/** What recovery makes of the rows that a crash left unresolved, over one pass and over two. */
module Recovery {
  import opened Outcomes
  import opened Decimals
  import opened Remarks
  import opened BrokerReads
  import opened Orders
  import opened Protocol

  /** The broker's answers to the two queries for one row. */
  datatype Answers = Answers(listed: seq<BrokerOrder>, listedAgain: seq<BrokerOrder>)

  function RecoveredRow(id: string, row: Row, answers: Answers): Row {
    var (status, brokerOrderId) := RecoveryMatch(id, row, answers.listed, answers.listedAgain);
    row.(status := status, brokerOrderId := brokerOrderId)
  }

  /** The store after the recovery loop has handled the given rows in turn. */
  function RecoveredAll(store: Store, ids: seq<string>, answers: string -> Answers): (after: Store)
    requires forall id <- ids :: id in store
    ensures after.Keys == store.Keys
  {
    if ids == [] then store
    else
      var last := ids[|ids| - 1];
      RecoveredStore(RecoveredAll(store, ids[..|ids| - 1], answers), last, answers(last).listed, answers(last).listedAgain)
  }

  lemma {:induction false} RecoveredAllRows(store: Store, ids: seq<string>, answers: string -> Answers, id: string)
    requires forall i <- ids :: i in store
    requires forall i, j :: 0 <= i < j < |ids| ==> ids[i] != ids[j]
    requires id in store
    ensures RecoveredAll(store, ids, answers)[id] == if id in ids then RecoveredRow(id, store[id], answers(id)) else store[id]
  {
    hide RecoveryMatch;
    if ids != [] {
      RecoveredAllRows(store, ids[..|ids| - 1], answers, id);
    }
  }

  /** Every unresolved row as the broker's answers for it alone make it, every final row as it was. */
  function PassResult(store: Store, answers: string -> Answers): Store {
    map id <- store :: if IsUnresolved(store[id].status) then RecoveredRow(id, store[id], answers(id)) else store[id]
  }

  /** One pass gives the same store in whatever order the rows are listed. */
  lemma OnePass(store: Store, ids: seq<string>, answers: string -> Answers)
    requires ListsUnresolved(ids, store)
    ensures RecoveredAll(store, ids, answers) == PassResult(store, answers)
  {
    hide RecoveredRow, RecoveredStore;
    forall id | id in store
      ensures RecoveredAll(store, ids, answers)[id] == PassResult(store, answers)[id]
    {
      RecoveredAllRows(store, ids, answers, id);
    }
  }

  // ---------------------------------------------------------------- one row

  /** The row has the state and the id of the broker's order. */
  predicate GivesTo(item: BrokerOrder, row: Row) {
    MappedStatus(item.state) == Some(row.status) && item.orderId == row.brokerOrderId
  }

  /** A row that no listed order identifies needs reconciliation, whatever field candidates there are; otherwise the first order that identifies it decides. */
  lemma UnmatchedNeedsReconciliation(id: string, row: Row, answers: Answers)
    ensures (forall item <- answers.listed :: !Identifies(item, id, row.brokerOrderId)) ==>
              RecoveredRow(id, row, answers).status == ReconciliationRequired
    ensures RecoveredRow(id, row, answers).status != ReconciliationRequired ==>
              exists item <- answers.listed :: Identifies(item, id, row.brokerOrderId) && GivesTo(item, RecoveredRow(id, row, answers))
  {
    FirstIdentifiedFinds(answers.listed, id, row.brokerOrderId);
    hide FirstIdentified, Identifies, Candidates;
  }

  /** A row that holds no broker id takes its status only from an order whose own remark names it. */
  lemma FirstPassTrustsRemarksOnly(id: string, row: Row, answers: Answers)
    requires row.brokerOrderId == "" && forall item <- answers.listed :: item.orderId != ""
    ensures RecoveredRow(id, row, answers).status != ReconciliationRequired ==>
              exists item <- answers.listed :: DecodeRemark(item.remark) == Some(id) && GivesTo(item, RecoveredRow(id, row, answers))
  {
    UnmatchedNeedsReconciliation(id, row, answers);
    hide RecoveredRow, DecodeRemark;
  }

  /** An order that went out with the remark of its id is found again, and gives the row its state, exactly when the id is canonical text; it must be the only one so marked, and its list complete. */
  lemma OwnOrderIsRecovered(id: string, row: Row, answers: Answers, own: BrokerOrder)
    requires row.brokerOrderId == "" && forall item <- answers.listed :: item.orderId != ""
    requires own in answers.listed && EncodeRemark(id) == Some(own.remark)
    requires forall item <- answers.listed :: item != own ==> DecodeRemark(item.remark) != Some(id)
    ensures FirstIdentified(answers.listed, id, row.brokerOrderId) == Some(own) <==> IsCanonicalText(id)
    ensures IsCanonicalText(id) ==> RecoveredRow(id, row, answers).brokerOrderId == own.orderId
    ensures IsCanonicalText(id) && MappedStatus(own.state).Some? ==> RecoveredRow(id, row, answers).status == MappedStatus(own.state).value
    ensures !IsCanonicalText(id) ==> RecoveredRow(id, row, answers).status == ReconciliationRequired
  {
    FirstIdentifiedFinds(answers.listed, id, row.brokerOrderId);
    OwnRemarkIsRecognised(id);
    hide FirstIdentified, DecodeRemark, EncodeRemark, IsCanonicalText, Candidates;
  }

  /** The order at the place is the first that has the row's broker id or names the row. */
  predicate IsFirstNamed(listed: seq<BrokerOrder>, i: nat, id: string, brokerOrderId: string) {
    && i < |listed| && Identifies(listed[i], id, brokerOrderId)
    && forall j :: 0 <= j < i ==> !Identifies(listed[j], id, brokerOrderId)
  }

  predicate IsKnown(state: QmtOrderState) {
    MappedStatus(state) !in {None, Some(ReconciliationRequired)}
  }

  lemma {:induction false} FirstIdentifiedIsFirstNamed(listed: seq<BrokerOrder>, id: string, brokerOrderId: string)
    ensures FirstIdentified(listed, id, brokerOrderId).None? <==> forall i :: 0 <= i < |listed| ==> !IsFirstNamed(listed, i, id, brokerOrderId)
    ensures forall i :: 0 <= i < |listed| && IsFirstNamed(listed, i, id, brokerOrderId) ==> FirstIdentified(listed, id, brokerOrderId) == Some(listed[i])
  {
    hide Identifies;
    if listed != [] {
      var rest := listed[1..];
      FirstIdentifiedIsFirstNamed(rest, id, brokerOrderId);
      if Identifies(listed[0], id, brokerOrderId) {
        assert IsFirstNamed(listed, 0, id, brokerOrderId);
      } else {
        forall i | 0 <= i < |listed|
          ensures IsFirstNamed(listed, i, id, brokerOrderId) <==> i > 0 && IsFirstNamed(rest, i - 1, id, brokerOrderId)
        {
          assert forall j :: 0 < j < |listed| ==> listed[j] == rest[j - 1];
          assert forall j :: 0 <= j < |rest| ==> rest[j] == listed[j + 1];
        }
        assert forall i :: 0 <= i < |rest| && IsFirstNamed(rest, i, id, brokerOrderId) ==> IsFirstNamed(listed, i + 1, id, brokerOrderId);
      }
    }
  }

  /** A pass leaves a row unresolved exactly when no listed order is the first to be identified and of known state; one that is gives the row its state and id. */
  lemma {:induction false} ResolvedExactly(id: string, row: Row, answers: Answers)
    ensures RecoveredRow(id, row, answers).status == ReconciliationRequired <==>
              forall i :: 0 <= i < |answers.listed| && IsFirstNamed(answers.listed, i, id, row.brokerOrderId) ==> !IsKnown(answers.listed[i].state)
    ensures forall i :: 0 <= i < |answers.listed| && IsFirstNamed(answers.listed, i, id, row.brokerOrderId) && IsKnown(answers.listed[i].state) ==>
              GivesTo(answers.listed[i], RecoveredRow(id, row, answers))
    ensures IsUnresolved(RecoveredRow(id, row, answers).status) <==> RecoveredRow(id, row, answers).status == ReconciliationRequired
  {
    FirstIdentifiedIsFirstNamed(answers.listed, id, row.brokerOrderId);
    hide FirstIdentified, Candidates, FieldsMatch, FieldValue, IsFirstNamed;
  }

  /** What the first identified order of a pass makes of the row: each status stands for exactly these states of the broker. */
  lemma {:induction false} RecoveredStatusExactly(id: string, row: Row, answers: Answers, i: nat)
    requires IsFirstNamed(answers.listed, i, id, row.brokerOrderId)
    ensures var status, state := RecoveredRow(id, row, answers).status, answers.listed[i].state;
            && (status == Submitted <==> state in {Unreported, WaitReporting, ReportedState})
            && (status == PartiallyFilled <==> state == PartSucc)
            && (status == Filled <==> state == Succeeded)
            && (status == CancelPending <==> state in {ReportedCancel, PartSuccCancel})
            && (status == Canceled <==> state in {PartCancel, CanceledState})
            && (status == BrokerRejected <==> state == Junk)
            && (status == ReconciliationRequired <==> state in {UnknownState, Undocumented})
            && status !in {Submitting, Failed}
    ensures RecoveredRow(id, row, answers).brokerOrderId == answers.listed[i].orderId
  {
    FirstIdentifiedIsFirstNamed(answers.listed, id, row.brokerOrderId);
    assert i < |answers.listed| && FirstIdentified(answers.listed, id, row.brokerOrderId) == Some(answers.listed[i]);
    hide FirstIdentified, Candidates, IsFirstNamed;
  }

  /** Where no order is identified, the row needs reconciliation, and keeps the id of the one candidate: the one place at which an order with the payload's code, quantity and, to a ten-thousandth, price is listed. */
  lemma {:induction false} CandidateIsKeptExactly(id: string, row: Row, answers: Answers, quantity: Decimal, limitPrice: Decimal)
    requires forall item <- answers.listed :: !Identifies(item, id, row.brokerOrderId)
    requires row.payload.quantity.parsed == Some(quantity) && row.payload.limitPrice.parsed == Some(limitPrice)
    ensures var listed, code := answers.listedAgain, row.payload.assetCode;
            && RecoveredRow(id, row, answers).status == ReconciliationRequired
            && (forall i :: 0 <= i < |listed| && IsOnlyPlace(listed, i, code, Value(quantity), Value(limitPrice)) ==>
                  RecoveredRow(id, row, answers).brokerOrderId == listed[i].orderId)
            && ((forall i :: 0 <= i < |listed| ==> !IsOnlyPlace(listed, i, code, Value(quantity), Value(limitPrice))) ==>
                  RecoveredRow(id, row, answers).brokerOrderId == "")
  {
    FirstIdentifiedFinds(answers.listed, id, row.brokerOrderId);
    OneCandidateExactly(answers.listedAgain, row.payload.assetCode, Value(quantity), Value(limitPrice));
    hide FirstIdentified, Identifies, Candidates, FieldsMatch, Value, IsOnlyPlace;
  }

  // ---------------------------------------------------------------- two passes

  /** A row after two passes with independent answers; the second passes over a row that the first resolved. */
  function AfterTwoPasses(id: string, row: Row, a1: Answers, a2: Answers): Row {
    var first := RecoveredRow(id, row, a1);
    if IsUnresolved(first.status) then RecoveredRow(id, first, a2) else first
  }

  /** So it is for the rows of the table, each from the answers about it alone. */
  lemma {:induction false} TwoPassesOfTheTable(store: Store, a1: string -> Answers, a2: string -> Answers, id: string)
    requires id in store
    ensures id in PassResult(PassResult(store, a1), a2)
    ensures PassResult(PassResult(store, a1), a2)[id] ==
              if IsUnresolved(store[id].status) then AfterTwoPasses(id, store[id], a1(id), a2(id)) else store[id]
  {
    hide RecoveredRow;
  }

  /** After two passes a row is unresolved exactly when neither pass found, first of those with the row's remark or the broker id stored by then, an order of known state; the id that the second goes by is the one that the first stored. */
  lemma {:induction false} UnresolvedAfterTwoExactly(id: string, row: Row, a1: Answers, a2: Answers)
    ensures var stored := RecoveredRow(id, row, a1).brokerOrderId;
            AfterTwoPasses(id, row, a1, a2).status == ReconciliationRequired <==>
              && (forall i :: 0 <= i < |a1.listed| && IsFirstNamed(a1.listed, i, id, row.brokerOrderId) ==> !IsKnown(a1.listed[i].state))
              && (forall i :: 0 <= i < |a2.listed| && IsFirstNamed(a2.listed, i, id, stored) ==> !IsKnown(a2.listed[i].state))
  {
    ResolvedExactly(id, row, a1);
    ResolvedExactly(id, RecoveredRow(id, row, a1), a2);
    hide RecoveredRow, IsFirstNamed, IsKnown, GivesTo;
  }

  /** The second pass takes the row's status from the order at the place, whose remark does not name the row. */
  predicate AdoptsForeign(id: string, row: Row, a1: Answers, a2: Answers, i: nat) {
    var first := RecoveredRow(id, row, a1);
    && IsUnresolved(first.status)
    && IsFirstNamed(a2.listed, i, id, first.brokerOrderId) && IsKnown(a2.listed[i].state)
    && DecodeRemark(a2.listed[i].remark) != Some(id)
  }

  /** The order at the place is the first that has the given id or names the row, does not name the row, and its state is known. */
  predicate IsForeignById(listed: seq<BrokerOrder>, i: nat, id: string, orderId: string) {
    && i < |listed| && listed[i].orderId == orderId && DecodeRemark(listed[i].remark) != Some(id) && IsKnown(listed[i].state)
    && forall j :: 0 <= j < i ==> listed[j].orderId != orderId && DecodeRemark(listed[j].remark) != Some(id)
  }

  /** The id that a pass stores for a row that it leaves unresolved: that of the identified order of unknown state, else that of the single field candidate, else none. */
  function IdStoredFor(id: string, row: Row, answers: Answers): string {
    match FirstIdentified(answers.listed, id, row.brokerOrderId)
    case Some(item) => item.orderId
    case None => if |CandidatesFor(row, answers.listedAgain)| == 1 then CandidatesFor(row, answers.listedAgain)[0].orderId else ""
  }

  /** A foreign order is adopted in the second pass exactly when the first left the row unresolved and the second lists, first of the orders that it identifies, a foreign order of known state under the id that the first stored. The row then has the order's state and id. */
  lemma {:induction false} AdoptsForeignExactly(id: string, row: Row, a1: Answers, a2: Answers, i: nat)
    ensures AdoptsForeign(id, row, a1, a2, i) <==>
              && (forall k :: 0 <= k < |a1.listed| && IsFirstNamed(a1.listed, k, id, row.brokerOrderId) ==> !IsKnown(a1.listed[k].state))
              && IsForeignById(a2.listed, i, id, IdStoredFor(id, row, a1))
    ensures AdoptsForeign(id, row, a1, a2, i) ==> GivesTo(a2.listed[i], AfterTwoPasses(id, row, a1, a2))
  {
    ResolvedExactly(id, row, a1);
    StoredId(id, row, a1);
    ResolvedExactly(id, RecoveredRow(id, row, a1), a2);
    hide RecoveredRow, IdStoredFor, IsKnown, GivesTo, DecodeRemark, FirstIdentified, Candidates;
  }

  lemma {:induction false} StoredId(id: string, row: Row, answers: Answers)
    ensures RecoveredRow(id, row, answers).brokerOrderId == IdStoredFor(id, row, answers)
  {
    hide FirstIdentified, Candidates;
  }

  /** An order keeps its remark from one list to the other. */
  predicate RemarksStay(before: seq<BrokerOrder>, after: seq<BrokerOrder>) {
    forall a <- before, b <- after :: a.orderId == b.orderId ==> a.remark == b.remark
  }

  /** For a row without a broker id, with a broker that gives every order an id and leaves remarks as they are: a foreign order is adopted exactly when the first pass identified nothing and found exactly one field candidate, and the second lists the candidate's id first of the orders that it identifies, in a known state, under a remark that does not name the row. */
  lemma {:induction false} ForeignAdoptionExactly(id: string, row: Row, a1: Answers, a2: Answers, i: nat)
    requires row.brokerOrderId == "" && RemarksStay(a1.listed, a2.listed)
    requires (forall item <- a1.listed :: item.orderId != "") && (forall item <- a2.listed :: item.orderId != "")
    ensures AdoptsForeign(id, row, a1, a2, i) <==>
              && (forall item <- a1.listed :: DecodeRemark(item.remark) != Some(id))
              && |CandidatesFor(row, a1.listedAgain)| == 1
              && IsForeignById(a2.listed, i, id, CandidatesFor(row, a1.listedAgain)[0].orderId)
  {
    AdoptsForeignExactly(id, row, a1, a2, i);
    FirstIdentifiedFinds(a1.listed, id, "");
    FirstIdentifiedIsFirstNamed(a1.listed, id, "");
    hide AdoptsForeign, IsFirstNamed, CandidatesFor, IsKnown, DecodeRemark, FirstIdentified;
    if i < |a2.listed| {
      assert a2.listed[i] in a2.listed;
    }
  }

  // ---------------------------------------------------------------- two passes over one list

  function CandidatesFor(row: Row, listed: seq<BrokerOrder>): seq<BrokerOrder> {
    Candidates(listed, row.payload.assetCode, FieldValue(row.payload.quantity), FieldValue(row.payload.limitPrice))
  }

  /** The first pass finds no match but one field candidate whose state is known. */
  predicate HasOneKnownCandidate(row: Row, listed: seq<BrokerOrder>) {
    && |CandidatesFor(row, listed)| == 1
    && IsKnown(CandidatesFor(row, listed)[0].state)
  }

  /** A second pass over an unchanged broker list: the row that no order identified stays unresolved exactly when there was not one single field candidate of known state. Such a candidate's id, stored as the row's own by the first pass, identifies it in the second. */
  lemma SecondPass(id: string, row: Row, listed: seq<BrokerOrder>)
    requires DistinctIds(listed) && forall item <- listed :: item.orderId != ""
    requires FirstIdentified(listed, id, row.brokerOrderId).None?
    ensures var first := RecoveredRow(id, row, Answers(listed, listed));
            var second := RecoveredRow(id, first, Answers(listed, listed));
            && first.status == ReconciliationRequired
            && (second.status == ReconciliationRequired <==> !HasOneKnownCandidate(row, listed))
            && (HasOneKnownCandidate(row, listed) ==>
                 second.brokerOrderId == CandidatesFor(row, listed)[0].orderId
                 && Some(second.status) == MappedStatus(CandidatesFor(row, listed)[0].state))
  {
    var candidates := CandidatesFor(row, listed);
    var first := RecoveredRow(id, row, Answers(listed, listed));
    CandidatesExactly(listed, row.payload.assetCode, FieldValue(row.payload.quantity), FieldValue(row.payload.limitPrice));
    FirstIdentifiedFinds(listed, id, row.brokerOrderId);
    FirstIdentifiedFinds(listed, id, first.brokerOrderId);
    hide FirstIdentified, DecodeRemark, Candidates, FieldsMatch, FieldValue, IsCandidate;
    var found := FirstIdentified(listed, id, first.brokerOrderId);
    if |candidates| == 1 {
      var c := candidates[0];
      assert c in candidates && c in listed && Identifies(c, id, first.brokerOrderId);
      assert found.value in listed && found.value.orderId == c.orderId;
      SameIdSameOrder(listed, found.value, c);
    } else {
      assert first.brokerOrderId == "";
      assert found.None?;
    }
  }

  lemma SameIdSameOrder(orders: seq<BrokerOrder>, a: BrokerOrder, b: BrokerOrder)
    requires DistinctIds(orders) && a in orders && b in orders && a.orderId == b.orderId
    ensures a == b
  {
    var i, j :| 0 <= i < |orders| && 0 <= j < |orders| && orders[i] == a && orders[j] == b;
  }

  /** So an order whose own remark names another client order is adopted by the second pass: matching fields in the first are enough, whatever the order's state was then. */
  lemma {:induction false} ForeignOrderIsAdopted(id: string, other: string, row: Row, item: BrokerOrder, later: QmtOrderState)
    requires IsCanonicalText(other) && other != id && EncodeRemark(other) == Some(item.remark)
    requires row.brokerOrderId == "" && item.orderId != "" && IsKnown(later)
    requires FieldsMatch(item, row.payload.assetCode, FieldValue(row.payload.quantity), FieldValue(row.payload.limitPrice))
    ensures var a1, a2 := Answers([item], [item]), Answers([item.(state := later)], []);
            && RecoveredRow(id, row, a1).status == ReconciliationRequired
            && AdoptsForeign(id, row, a1, a2, 0)
            && Some(AfterTwoPasses(id, row, a1, a2).status) == MappedStatus(later)
  {
    var a1, a2 := Answers([item], [item]), Answers([item.(state := later)], []);
    OwnRemarkIsRecognised(other);
    hide *;
    OnlyCandidate(row, item);
    OneForeignOrder(id, item.(state := later));
    ForeignLists(id, item, item.(state := later));
    ForeignAdoptionExactly(id, row, a1, a2, 0);
    AdoptsForeignExactly(id, row, a1, a2, 0);
    AdoptionResolves(id, row, a1, a2, 0);
  }

  lemma {:induction false} OnlyCandidate(row: Row, item: BrokerOrder)
    requires FieldsMatch(item, row.payload.assetCode, FieldValue(row.payload.quantity), FieldValue(row.payload.limitPrice))
    ensures CandidatesFor(row, [item]) == [item]
  {
    hide FieldsMatch, FieldValue;
    var orders := [item];
    assert orders[0] == item && orders[1..] == [];
    assert Candidates(orders[1..], row.payload.assetCode, FieldValue(row.payload.quantity), FieldValue(row.payload.limitPrice)) == [];
    assert Candidates(orders, row.payload.assetCode, FieldValue(row.payload.quantity), FieldValue(row.payload.limitPrice)) == [item];
  }

  lemma {:induction false} OneForeignOrder(id: string, item: BrokerOrder)
    requires DecodeRemark(item.remark) != Some(id) && IsKnown(item.state)
    ensures IsForeignById([item], 0, id, item.orderId)
  {
    hide DecodeRemark, IsKnown;
  }

  lemma {:induction false} ForeignLists(id: string, a: BrokerOrder, b: BrokerOrder)
    requires DecodeRemark(a.remark) != Some(id) && a.remark == b.remark && a.orderId == b.orderId != ""
    ensures RemarksStay([a], [b])
    ensures forall item <- [a] :: item.orderId != "" && DecodeRemark(item.remark) != Some(id)
    ensures forall item <- [b] :: item.orderId != ""
  {
    hide DecodeRemark;
  }

  lemma {:induction false} AdoptionResolves(id: string, row: Row, a1: Answers, a2: Answers, i: nat)
    requires AdoptsForeign(id, row, a1, a2, i)
    ensures RecoveredRow(id, row, a1).status == ReconciliationRequired
    ensures Some(AfterTwoPasses(id, row, a1, a2).status) == MappedStatus(a2.listed[i].state)
  {
    ResolvedExactly(id, row, a1);
    AdoptsForeignExactly(id, row, a1, a2, i);
    hide RecoveredRow, AfterTwoPasses, AdoptsForeign;
  }

  /** It happens for any two UUIDs and any payload: an order of unknown state with the payload's fields, filled by the second pass. */
  lemma {:induction false} ForeignAdoptionHappens(u: Uuid, v: Uuid, payload: Order)
    requires u != v
    ensures EncodeRemark(UuidText(v)).Some?
    ensures var item := BrokerOrder("1", EncodeRemark(UuidText(v)).value, UnknownState, payload.assetCode, FieldValue(payload.quantity), FieldValue(payload.limitPrice));
            AfterTwoPasses(UuidText(u), Row(Submitting, "", payload), Answers([item], [item]), Answers([item.(state := Succeeded)], [])).status == Filled
  {
    ParseCanonical(u);
    ParseCanonical(v);
    UuidTextIsCanonical(v);
    hide ParseUuid, UuidText, IsCanonicalText, AfterTwoPasses, FieldValue, EncodeBytes;
    var item := BrokerOrder("1", EncodeRemark(UuidText(v)).value, UnknownState, payload.assetCode, FieldValue(payload.quantity), FieldValue(payload.limitPrice));
    ForeignOrderIsAdopted(UuidText(u), UuidText(v), Row(Submitting, "", payload), item, Succeeded);
  }
}
