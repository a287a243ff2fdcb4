/** What the adapter reads from the broker: one order by identity, candidates by fields, and the polled events. */
module BrokerReads {
  import opened Outcomes
  import opened Remarks

  /** The documented states of a stock order at the broker. */
  datatype QmtOrderState =
    | Unreported | WaitReporting | ReportedState | ReportedCancel | PartSuccCancel | PartCancel
    | CanceledState | PartSucc | Succeeded | Junk | UnknownState | Undocumented

  /** The states of an order in the local store and in events. */
  datatype OrderStatus =
    | Submitting | Submitted | PartiallyFilled | Filled | CancelPending | Canceled
    | BrokerRejected | ReconciliationRequired | Failed

  /** `_qmt_order_status_map`. */
  function MappedStatus(state: QmtOrderState): Option<OrderStatus> {
    match state
    case Unreported => Some(Submitted)
    case WaitReporting => Some(Submitted)
    case ReportedState => Some(Submitted)
    case ReportedCancel => Some(CancelPending)
    case PartSuccCancel => Some(CancelPending)
    case PartCancel => Some(Canceled)
    case CanceledState => Some(Canceled)
    case PartSucc => Some(PartiallyFilled)
    case Succeeded => Some(Filled)
    case Junk => Some(BrokerRejected)
    case UnknownState => Some(ReconciliationRequired)
    case Undocumented => None
  }

  /** What a documented state of the broker means for the local lifecycle. */
  predicate Means(state: QmtOrderState, status: OrderStatus) {
    || (status == Submitted && state in {Unreported, WaitReporting, ReportedState})
    || (status == PartiallyFilled && state == PartSucc)
    || (status == Filled && state == Succeeded)
    || (status == CancelPending && state in {ReportedCancel, PartSuccCancel})
    || (status == Canceled && state in {PartCancel, CanceledState})
    || (status == BrokerRejected && state == Junk)
    || (status == ReconciliationRequired && state == UnknownState)
  }

  /** The map gives every documented state its one meaning, and an undocumented state none. */
  lemma {:induction false} MapIsExact(state: QmtOrderState, status: OrderStatus)
    ensures MappedStatus(state) == Some(status) <==> Means(state, status)
    ensures MappedStatus(state).None? <==> state == Undocumented
    ensures MappedStatus(state) != Some(Submitting) && MappedStatus(state) != Some(Failed)
  {
  }

  datatype BrokerOrder = BrokerOrder(
    orderId: string, remark: string, state: QmtOrderState, stockCode: string, volume: real, price: real)

  datatype BrokerTrade = BrokerTrade(orderId: string, tradedId: string)

  // ---------------------------------------------------------------- one order by identity

  predicate Identifies(item: BrokerOrder, clientOrderId: string, brokerOrderId: string) {
    item.orderId == brokerOrderId || DecodeRemark(item.remark) == Some(clientOrderId)
  }

  /** The first listed order with the broker id or the client's remark. */
  function FirstIdentified(orders: seq<BrokerOrder>, clientOrderId: string, brokerOrderId: string): Option<BrokerOrder> {
    if orders == [] then None
    else if Identifies(orders[0], clientOrderId, brokerOrderId) then Some(orders[0])
    else FirstIdentified(orders[1..], clientOrderId, brokerOrderId)
  }

  /** `query_order`. */
  method QueryOrder(orders: seq<BrokerOrder>, clientOrderId: string, brokerOrderId: string) returns (r: Option<BrokerOrder>)
    ensures r == FirstIdentified(orders, clientOrderId, brokerOrderId)
  {
    var i := 0;
    while i < |orders|
      invariant i <= |orders|
      invariant FirstIdentified(orders, clientOrderId, brokerOrderId) == FirstIdentified(orders[i..], clientOrderId, brokerOrderId)
    {
      if Identifies(orders[i], clientOrderId, brokerOrderId) {
        return Some(orders[i]);
      }
      i := i + 1;
    }
    r := None;
  }

  lemma {:induction false} FirstIdentifiedFinds(orders: seq<BrokerOrder>, clientOrderId: string, brokerOrderId: string)
    ensures var r := FirstIdentified(orders, clientOrderId, brokerOrderId);
            && (r.Some? ==> r.value in orders && Identifies(r.value, clientOrderId, brokerOrderId))
            && (r.None? <==> forall item <- orders :: !Identifies(item, clientOrderId, brokerOrderId))
  {
    if orders != [] {
      FirstIdentifiedFinds(orders[1..], clientOrderId, brokerOrderId);
      assert forall item :: item in orders <==> item == orders[0] || item in orders[1..];
    }
  }

  // ---------------------------------------------------------------- candidates by fields

  function Upper(t: string): string {
    seq(|t|, i requires 0 <= i < |t| => if 'a' <= t[i] <= 'z' then (t[i] as int - 32) as char else t[i])
  }

  predicate FieldsMatch(item: BrokerOrder, assetCode: string, quantity: real, limitPrice: real) {
    && Upper(item.stockCode) == Upper(assetCode)
    && item.volume == quantity
    && -0.0001 <= item.price - limitPrice <= 0.0001
  }

  function Candidates(orders: seq<BrokerOrder>, assetCode: string, quantity: real, limitPrice: real): seq<BrokerOrder> {
    if orders == [] then []
    else (if FieldsMatch(orders[0], assetCode, quantity, limitPrice) then [orders[0]] else [])
         + Candidates(orders[1..], assetCode, quantity, limitPrice)
  }

  /** `find_order_candidates`. */
  method FindOrderCandidates(orders: seq<BrokerOrder>, assetCode: string, quantity: real, limitPrice: real)
    returns (candidates: seq<BrokerOrder>)
    ensures candidates == Candidates(orders, assetCode, quantity, limitPrice)
  {
    candidates := [];
    for i := 0 to |orders|
      invariant Candidates(orders, assetCode, quantity, limitPrice)
                == candidates + Candidates(orders[i..], assetCode, quantity, limitPrice)
    {
      assert orders[i..][1..] == orders[i + 1..];
      if FieldsMatch(orders[i], assetCode, quantity, limitPrice) {
        candidates := candidates + [orders[i]];
      }
    }
  }

  // ---------------------------------------------------------------- which orders are candidates

  /** The same letter but for ASCII case, or the same character. */
  predicate IsSameLetter(a: char, b: char) {
    || a == b
    || ('a' <= a <= 'z' && 'A' <= b <= 'Z' && a as int == b as int + 32)
    || ('a' <= b <= 'z' && 'A' <= a <= 'Z' && b as int == a as int + 32)
  }

  predicate IsSameCode(a: string, b: string) {
    |a| == |b| && forall i :: 0 <= i < |a| ==> IsSameLetter(a[i], b[i])
  }

  /** The broker's order has the code, the volume and, to a ten-thousandth, the price. */
  predicate IsCandidate(item: BrokerOrder, assetCode: string, quantity: real, limitPrice: real) {
    && IsSameCode(item.stockCode, assetCode) && item.volume == quantity
    && item.price <= limitPrice + 0.0001 && limitPrice <= item.price + 0.0001
  }

  lemma {:induction false} UpperIsSame(a: string, b: string)
    ensures Upper(a) == Upper(b) <==> IsSameCode(a, b)
  {
    if Upper(a) == Upper(b) {
      assert |Upper(a)| == |a| && |Upper(b)| == |b|;
      forall i | 0 <= i < |a|
        ensures IsSameLetter(a[i], b[i])
      {
        assert Upper(a)[i] == Upper(b)[i];
      }
    }
  }

  lemma {:induction false} FieldsMatchExactly(item: BrokerOrder, assetCode: string, quantity: real, limitPrice: real)
    ensures FieldsMatch(item, assetCode, quantity, limitPrice) <==> IsCandidate(item, assetCode, quantity, limitPrice)
  {
    UpperIsSame(item.stockCode, assetCode);
    hide Upper, IsSameCode;
  }

  /** The only place at which an order with the fields is listed. */
  predicate IsOnlyPlace(orders: seq<BrokerOrder>, i: nat, assetCode: string, quantity: real, limitPrice: real) {
    && i < |orders| && IsCandidate(orders[i], assetCode, quantity, limitPrice)
    && forall j :: 0 <= j < |orders| && j != i ==> !IsCandidate(orders[j], assetCode, quantity, limitPrice)
  }

  /** The candidates are exactly the listed orders with the fields. */
  lemma {:induction false} CandidatesExactly(orders: seq<BrokerOrder>, assetCode: string, quantity: real, limitPrice: real)
    ensures forall item :: item in Candidates(orders, assetCode, quantity, limitPrice) <==> item in orders && IsCandidate(item, assetCode, quantity, limitPrice)
  {
    if orders != [] {
      CandidatesExactly(orders[1..], assetCode, quantity, limitPrice);
      FieldsMatchExactly(orders[0], assetCode, quantity, limitPrice);
      hide FieldsMatch, IsCandidate;
      assert forall item :: item in orders <==> item == orders[0] || item in orders[1..];
    }
  }

  /** There is one candidate exactly when there is one place for it. */
  lemma {:induction false} OneCandidateExactly(orders: seq<BrokerOrder>, assetCode: string, quantity: real, limitPrice: real)
    ensures |Candidates(orders, assetCode, quantity, limitPrice)| == 1 <==> exists i :: 0 <= i < |orders| && IsOnlyPlace(orders, i, assetCode, quantity, limitPrice)
    ensures forall i :: 0 <= i < |orders| && IsOnlyPlace(orders, i, assetCode, quantity, limitPrice) ==> Candidates(orders, assetCode, quantity, limitPrice) == [orders[i]]
  {
    if orders != [] {
      var rest := orders[1..];
      OneCandidateExactly(rest, assetCode, quantity, limitPrice);
      CandidatesExactly(rest, assetCode, quantity, limitPrice);
      FieldsMatchExactly(orders[0], assetCode, quantity, limitPrice);
      hide FieldsMatch, IsCandidate;
      var later := Candidates(rest, assetCode, quantity, limitPrice);
      assert forall j :: 0 <= j < |rest| ==> rest[j] == orders[j + 1];
      assert forall j :: 0 < j < |orders| ==> orders[j] == rest[j - 1] && rest[j - 1] in rest;
      if !IsCandidate(orders[0], assetCode, quantity, limitPrice) {
        LaterPlaces(orders, assetCode, quantity, limitPrice);
        hide IsOnlyPlace;
      } else if later == [] {
        assert IsOnlyPlace(orders, 0, assetCode, quantity, limitPrice);
      } else {
        assert later[0] in later;
        var k :| 0 <= k < |rest| && rest[k] == later[0];
        assert IsCandidate(orders[k + 1], assetCode, quantity, limitPrice);
      }
    }
  }

  lemma {:induction false} LaterPlaces(orders: seq<BrokerOrder>, assetCode: string, quantity: real, limitPrice: real)
    requires orders != [] && !IsCandidate(orders[0], assetCode, quantity, limitPrice)
    ensures forall i :: 0 <= i < |orders| && IsOnlyPlace(orders, i, assetCode, quantity, limitPrice) ==>
              i > 0 && IsOnlyPlace(orders[1..], i - 1, assetCode, quantity, limitPrice)
    ensures forall i :: 0 <= i < |orders[1..]| && IsOnlyPlace(orders[1..], i, assetCode, quantity, limitPrice) ==>
              IsOnlyPlace(orders, i + 1, assetCode, quantity, limitPrice)
  {
    hide IsCandidate;
    var rest := orders[1..];
    assert forall j :: 0 <= j < |rest| ==> rest[j] == orders[j + 1];
    assert forall j :: 0 < j < |orders| ==> orders[j] == rest[j - 1];
  }

  // ---------------------------------------------------------------- polling

  datatype BrokerEvent =
    | FillEvent(clientOrderId: string, brokerOrderId: string, tradeId: string)
    | StateEvent(clientOrderId: string, brokerOrderId: string, status: OrderStatus)

  /** The dictionary by order id; a later order replaces an earlier one with the same id. */
  function ById(orders: seq<BrokerOrder>): map<string, BrokerOrder> {
    if orders == [] then map[] else ById(orders[..|orders| - 1])[orders[|orders| - 1].orderId := orders[|orders| - 1]]
  }

  function StateOf(item: BrokerOrder): seq<BrokerEvent> {
    var client := DecodeRemark(item.remark);
    if client.None? || MappedStatus(item.state).None? then []
    else [StateEvent(client.value, item.orderId, MappedStatus(item.state).value)]
  }

  function FillOf(trade: BrokerTrade, byId: map<string, BrokerOrder>): seq<BrokerEvent> {
    var client := if trade.orderId in byId then DecodeRemark(byId[trade.orderId].remark) else None;
    if client.None? || trade.tradedId == "" then [] else [FillEvent(client.value, trade.orderId, trade.tradedId)]
  }

  function StateEvents(orders: seq<BrokerOrder>): seq<BrokerEvent> {
    if orders == [] then [] else StateEvents(orders[..|orders| - 1]) + StateOf(orders[|orders| - 1])
  }

  function FillEvents(trades: seq<BrokerTrade>, byId: map<string, BrokerOrder>): seq<BrokerEvent> {
    if trades == [] then [] else FillEvents(trades[..|trades| - 1], byId) + FillOf(trades[|trades| - 1], byId)
  }

  /** `poll_events`: fills first, then the authoritative order states. */
  method PollEvents(orders: seq<BrokerOrder>, trades: seq<BrokerTrade>) returns (events: seq<BrokerEvent>)
    ensures events == FillEvents(trades, ById(orders)) + StateEvents(orders)
  {
    var byId: map<string, BrokerOrder> := map[];
    var orderEvents: seq<BrokerEvent> := [];
    for i := 0 to |orders|
      invariant byId == ById(orders[..i]) && orderEvents == StateEvents(orders[..i])
    {
      assert orders[..i + 1][..i] == orders[..i];
      byId := byId[orders[i].orderId := orders[i]];
      orderEvents := orderEvents + StateOf(orders[i]);
    }
    assert orders[..|orders|] == orders;
    var tradeEvents: seq<BrokerEvent> := [];
    for i := 0 to |trades|
      invariant tradeEvents == FillEvents(trades[..i], byId)
    {
      assert trades[..i + 1][..i] == trades[..i];
      tradeEvents := tradeEvents + FillOf(trades[i], byId);
    }
    assert trades[..|trades|] == trades;
    events := tradeEvents + orderEvents;
  }

  predicate DistinctIds(orders: seq<BrokerOrder>) {
    forall i, j :: 0 <= i < j < |orders| ==> orders[i].orderId != orders[j].orderId
  }

  lemma {:induction false} ByIdHoldsOrders(orders: seq<BrokerOrder>, id: string)
    ensures id in ById(orders) ==> ById(orders)[id] in orders && ById(orders)[id].orderId == id
    ensures (exists item <- orders :: item.orderId == id) ==> id in ById(orders)
  {
    if orders != [] {
      var front, last := orders[..|orders| - 1], orders[|orders| - 1];
      ByIdHoldsOrders(front, id);
      assert forall item :: item in orders <==> item in front || item == last;
    }
  }

  lemma {:induction false} FillEventsAre(trades: seq<BrokerTrade>, byId: map<string, BrokerOrder>, e: BrokerEvent)
    ensures e in FillEvents(trades, byId) <==> exists trade <- trades :: FillOf(trade, byId) == [e]
  {
    if trades != [] {
      var front, last := trades[..|trades| - 1], trades[|trades| - 1];
      FillEventsAre(front, byId, e);
      assert forall trade :: trade in trades <==> trade in front || trade == last;
      assert e in FillOf(last, byId) <==> FillOf(last, byId) == [e];
    }
  }

  lemma {:induction false} StateEventsAre(orders: seq<BrokerOrder>, e: BrokerEvent)
    ensures e in StateEvents(orders) <==> exists item <- orders :: StateOf(item) == [e]
  {
    if orders != [] {
      var front, last := orders[..|orders| - 1], orders[|orders| - 1];
      StateEventsAre(front, e);
      assert forall item :: item in orders <==> item in front || item == last;
      assert e in StateOf(last) <==> StateOf(last) == [e];
    }
  }

  /** An order and a trade of it that the broker lists, whose remark names the client order. */
  ghost predicate IsFillOf(orders: seq<BrokerOrder>, trades: seq<BrokerTrade>, clientOrderId: string, brokerOrderId: string, tradeId: string) {
    exists item <- orders :: item.orderId == brokerOrderId && DecodeRemark(item.remark) == Some(clientOrderId)
      && tradeId != "" && BrokerTrade(brokerOrderId, tradeId) in trades
  }

  /** With unique broker order ids, polling reports exactly the fills of identified orders, each under the client order that the order's own remark names. */
  lemma PolledFillsAreAttributed(orders: seq<BrokerOrder>, trades: seq<BrokerTrade>, clientOrderId: string, brokerOrderId: string, tradeId: string)
    requires DistinctIds(orders)
    ensures FillEvent(clientOrderId, brokerOrderId, tradeId) in FillEvents(trades, ById(orders)) + StateEvents(orders)
            <==> IsFillOf(orders, trades, clientOrderId, brokerOrderId, tradeId)
  {
    var e, byId := FillEvent(clientOrderId, brokerOrderId, tradeId), ById(orders);
    FillEventsAre(trades, byId, e);
    StateEventsAre(orders, e);
    ByIdHoldsOrders(orders, brokerOrderId);
    forall a, b | a in orders && b in orders && a.orderId == b.orderId
      ensures a == b
    {
      var i, j :| 0 <= i < |orders| && 0 <= j < |orders| && orders[i] == a && orders[j] == b;
    }
    if exists trade <- trades :: FillOf(trade, byId) == [e] {
      var trade :| trade in trades && FillOf(trade, byId) == [e];
      assert trade == BrokerTrade(brokerOrderId, tradeId);
    }
    if IsFillOf(orders, trades, clientOrderId, brokerOrderId, tradeId) {
      assert FillOf(BrokerTrade(brokerOrderId, tradeId), byId) == [e];
    }
  }

  /** Polling reports exactly the states of the orders whose own remark names a client order and whose state is documented, each under that client order, with the order's id and the meaning of its state. */
  lemma {:induction false} PolledStatesAreExact(orders: seq<BrokerOrder>, clientOrderId: string, brokerOrderId: string, status: OrderStatus)
    ensures StateEvent(clientOrderId, brokerOrderId, status) in StateEvents(orders) <==>
              exists item <- orders :: item.orderId == brokerOrderId && DecodeRemark(item.remark) == Some(clientOrderId) && Means(item.state, status)
    ensures |StateEvents(orders)| <= |orders|
  {
    var e := StateEvent(clientOrderId, brokerOrderId, status);
    StateEventsAre(orders, e);
    AtMostOneEach(orders);
    forall item | item in orders
      ensures StateOf(item) == [e] <==>
                item.orderId == brokerOrderId && DecodeRemark(item.remark) == Some(clientOrderId) && Means(item.state, status)
    {
      MapIsExact(item.state, status);
      hide DecodeRemark, MappedStatus, Means;
    }
    hide StateOf, DecodeRemark, Means;
  }

  lemma {:induction false} AtMostOneEach(orders: seq<BrokerOrder>)
    ensures |StateEvents(orders)| <= |orders|
  {
    if orders != [] {
      AtMostOneEach(orders[..|orders| - 1]);
      hide DecodeRemark;
    }
  }

  /** An order of undocumented state gives no state event. */
  lemma {:induction false} UndocumentedIsSilent(item: BrokerOrder)
    ensures StateOf(item) == [] <==> item.state == Undocumented || DecodeRemark(item.remark).None?
  {
    MapIsExact(item.state, Submitted);
    hide DecodeRemark;
  }

  /** Fills come before all order states. */
  lemma {:induction false} FillsComeFirst(orders: seq<BrokerOrder>, trades: seq<BrokerTrade>)
    ensures forall e <- FillEvents(trades, ById(orders)) :: e.FillEvent?
    ensures forall e <- StateEvents(orders) :: e.StateEvent?
  {
    forall e | e in FillEvents(trades, ById(orders))
      ensures e.FillEvent?
    {
      FillEventsAre(trades, ById(orders), e);
    }
    forall e | e in StateEvents(orders)
      ensures e.StateEvent?
    {
      StateEventsAre(orders, e);
    }
  }

  const EVENTS_PER_POST := 200

  /** The part of the polled events that one cycle posts. */
  function Posted(events: seq<BrokerEvent>): seq<BrokerEvent> {
    if |events| <= EVENTS_PER_POST then events else events[..EVENTS_PER_POST]
  }

  /** A cycle posts everything exactly when no more than 200 events are listed, and the i-th order state exactly when the fills and the states before it are fewer than 200; what it posts of the states is their first part. */
  lemma {:induction false} PostedExactly(orders: seq<BrokerOrder>, trades: seq<BrokerTrade>, i: nat)
    ensures var fills, states := FillEvents(trades, ById(orders)), StateEvents(orders);
            var posted := Posted(fills + states);
            && (posted == fills + states <==> |fills| + |states| <= 200)
            && (i < |states| ==> (|fills| + i < |posted| <==> |fills| + i < 200))
            && (i < |states| && |fills| + i < 200 ==> posted[|fills| + i] == states[i])
            && (|fills| <= 200 ==> posted == fills + states[..|posted| - |fills|])
            && (|fills| > 200 ==> posted == fills[..200])
  {
    hide FillEvents, StateEvents, ById;
    var fills, states := FillEvents(trades, ById(orders)), StateEvents(orders);
    if |fills| > EVENTS_PER_POST {
      assert (fills + states)[..EVENTS_PER_POST] == fills[..EVENTS_PER_POST];
    } else if |fills| + |states| > EVENTS_PER_POST {
      assert (fills + states)[..EVENTS_PER_POST] == fills + states[..EVENTS_PER_POST - |fills|];
    } else {
      assert states[..|states|] == states;
    }
  }

  /** A cycle posts some order state exactly when there is one and fewer than 200 fills are listed: a day with 200 fills posts no order state by polling. */
  lemma StatesArePostedExactly(orders: seq<BrokerOrder>, trades: seq<BrokerTrade>)
    ensures (exists e <- Posted(FillEvents(trades, ById(orders)) + StateEvents(orders)) :: e.StateEvent?)
            <==> |FillEvents(trades, ById(orders))| < EVENTS_PER_POST && StateEvents(orders) != []
  {
    FillsComeFirst(orders, trades);
    PostedStates(FillEvents(trades, ById(orders)), StateEvents(orders));
  }

  lemma PostedStates(fills: seq<BrokerEvent>, states: seq<BrokerEvent>)
    requires forall e <- fills :: e.FillEvent?
    requires forall e <- states :: e.StateEvent?
    ensures (exists e <- Posted(fills + states) :: e.StateEvent?) <==> |fills| < EVENTS_PER_POST && states != []
  {
    var posted := Posted(fills + states);
    if |fills| < EVENTS_PER_POST && states != [] {
      assert posted[|fills|] == states[0] && states[0] in states;
      assert posted[|fills|] in posted;
    } else {
      assert posted == if |fills| <= EVENTS_PER_POST then fills else fills[..EVENTS_PER_POST];
      forall e | e in posted
        ensures e.FillEvent?
      {
        assert e in fills;
      }
    }
  }
}
