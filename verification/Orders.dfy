/** A leased order, its local validation before submission, and the server's acknowledgement. */
module Orders {
  import opened Outcomes
  import opened Decimals
  import opened DecimalText
  import opened PriceCage
  import opened Constraints
  import opened SubmissionV2

  /** A numeric field: its text, and what `_exact_decimal` makes of it. */
  datatype NumberField = NumberField(text: string, parsed: Option<Decimal>)

  datatype Order = Order(
    clientOrderId: string, accountId: int, assetCode: string, side: Side, orderType: string,
    quantity: NumberField, limitPrice: NumberField,
    leaseToken: string, expiresAt: int, leaseExpiresAt: int, envelope: EnvelopeV2)

  datatype Config = Config(accountId: int, dryRun: bool, zone: Zone)

  function CanonicalField(text: string): NumberField {
    NumberField(text, WireDecimal(text, true))
  }

  /** The order with the canonical texts of its envelope, as the validation leaves it. */
  function Rewritten(order: Order): Order {
    order.(quantity := CanonicalField(order.envelope.order.quantity), limitPrice := CanonicalField(order.envelope.order.limitPrice))
  }

  predicate SameNumber(a: NumberField, b: NumberField) {
    a.parsed.Some? && b.parsed.Some? && Value(a.parsed.value) == Value(b.parsed.value)
  }

  /** `_validate_execution_constraints` at one clock, without the rewriting. */
  function CheckConstraints(order: Order, clock: int, zone: Zone): Check {
    var inner := order.envelope.order;
    :- ValidateV2(order.envelope, clock, zone);
    :- Need(clock < order.expiresAt && clock < order.leaseExpiresAt, "LEASE_EXPIRED");
    :- Need(order.clientOrderId != "" && order.accountId > 0 && order.assetCode != "", "BINDING_INCOMPLETE");
    :- Need(order.orderType == "LIMIT", "ONLY_LIMIT");
    :- Need(inner.orderId == order.clientOrderId && inner.accountId == order.accountId
            && inner.securityId == order.assetCode && inner.side == order.side, "BINDING_IDENTITY");
    Need(SameNumber(order.quantity, CanonicalField(inner.quantity)) && SameNumber(order.limitPrice, CanonicalField(inner.limitPrice)),
         "BINDING_NUMBERS")
  }

  /** `_validate_local_order_identity`. */
  function CheckLocalIdentity(order: Order, config: Config, stop: bool): Check {
    if stop then Reject("LOCAL_STOP") else
    :- Need(order.accountId > 0 && order.accountId == config.accountId, "ACCOUNT_MISMATCH");
    :- Need(order.orderType == "LIMIT" && order.limitPrice.text != "", "ONLY_LIMIT");
    Need(order.quantity.parsed.Some? && order.limitPrice.parsed.Some?
         && Value(order.quantity.parsed.value) > 0.0 && Value(order.limitPrice.parsed.value) > 0.0, "NOT_POSITIVE")
  }

  /** A local gate whose arithmetic is not modelled: it holds, refuses with a listed exception, or lets another exception escape. */
  datatype Gate = Holds | Refuses | Escapes

  /** What one validation reads: three clocks, the STOP file twice, and the outcomes of the gates between them. */
  datatype Readings = Readings(
    clock1: int, clock2: int, clock3: int, stop1: bool, stop3: bool,
    session1: Gate, market: Gate, capacity: Gate, final: Gate)

  datatype Verdict = Passed | Refused | Escaped

  function GateVerdict(g: Gate): Verdict {
    match g
    case Holds => Passed
    case Refuses => Refused
    case Escapes => Escaped
  }

  function Then(first: Verdict, second: Verdict): Verdict {
    if first == Passed then second else first
  }

  function CheckVerdict(c: Check): Verdict {
    if c == Pass then Passed else Refused
  }

  /** `_validate_before_submit`: the constraints at three clocks, each on the order as the earlier passes rewrote it, with the gates between. */
  function ValidateBeforeSubmit(order: Order, r: Readings, config: Config, alreadyStored: bool): Verdict {
    var rewritten := Rewritten(order);
    Then(CheckVerdict(CheckConstraints(order, r.clock1, config.zone)),
    Then(CheckVerdict(CheckLocalIdentity(rewritten, config, r.stop1)),
    Then(GateVerdict(r.session1),
    Then(CheckVerdict(CheckConstraints(rewritten, r.clock2, config.zone)),
    Then(GateVerdict(r.market),
    Then(GateVerdict(r.capacity),
    Then(if alreadyStored then Refused else Passed,
    Then(CheckVerdict(CheckConstraints(rewritten, r.clock3, config.zone)),
    Then(CheckVerdict(CheckLocalIdentity(rewritten, config, r.stop3)),
         GateVerdict(r.final))))))))))
  }

  // ---------------------------------------------------------------- the acknowledgement

  datatype Echo = Echo(
    clientOrderId: string, accountId: int, assetCode: string, side: Side, orderType: string,
    quantity: NumberField, limitPrice: NumberField)

  datatype Ack = Ack(accepted: bool, echo: Option<Echo>)

  /** `_validate_ack_order`. */
  function CheckAck(ack: Ack, order: Order): Check {
    if !ack.accepted then Reject("NOT_ACCEPTED") else
    :- Need(ack.echo.Some?, "NO_ECHO");
    var echo := ack.echo.value;
    :- Need(echo.orderType == "LIMIT", "ONLY_LIMIT");
    :- Need(echo.clientOrderId == order.clientOrderId && echo.assetCode == order.assetCode && echo.side == order.side, "ECHO_IDENTITY");
    :- Need(echo.accountId > 0 && echo.accountId == order.accountId, "ECHO_ACCOUNT");
    Need(SameNumber(echo.quantity, order.quantity) && SameNumber(echo.limitPrice, order.limitPrice), "ECHO_NUMBERS")
  }

  // ---------------------------------------------------------------- what a passing validation leaves

  /** Rewriting changes nothing the second time. */
  lemma RewritingIsIdempotent(order: Order)
    ensures Rewritten(Rewritten(order)) == Rewritten(order)
  {
  }

  /** An order that carries the exact texts of an envelope accepted at the clock, names what the envelope names, and is in force. */
  predicate IsBoundAt(order: Order, clock: int, zone: Zone) {
    && ValidateV2(order.envelope, clock, zone) == Pass && NamesItsEnvelope(order, clock)
    && IsExactText(order.quantity, order.envelope.order.quantity) && IsExactText(order.limitPrice, order.envelope.order.limitPrice)
  }

  /** The field carries the very text, and is read as the number that the text denotes. */
  predicate IsExactText(field: NumberField, text: string) {
    field.text == text && IsWireText(text) && field.parsed == Some(ParseText(text))
  }

  /** The field, in whatever spelling, is read as the number that the text denotes. */
  predicate IsNumberOf(field: NumberField, text: string) {
    IsWireText(text) && field.parsed.Some? && Value(field.parsed.value) == Value(ParseText(text))
  }

  /** The numbers that the lease shows are those of its envelope, in whatever spelling. */
  predicate HasEnvelopeNumbers(order: Order) {
    IsNumberOf(order.quantity, order.envelope.order.quantity) && IsNumberOf(order.limitPrice, order.envelope.order.limitPrice)
  }

  lemma AcceptedFieldsArePositive(order: Order, clock: int, zone: Zone)
    requires ValidateV2(order.envelope, clock, zone) == Pass
    ensures var r := Rewritten(order);
            && r.quantity.parsed.Some? && Value(r.quantity.parsed.value) > 0.0
            && r.limitPrice.parsed.Some? && Value(r.limitPrice.parsed.value) > 0.0 && r.limitPrice.text != ""
  {
    var inner := order.envelope.order;
    AcceptedNumbers(order.envelope, clock, zone);
    PositiveField(inner.quantity);
    PositiveField(inner.limitPrice);
    hide ValidateV2, CanonicalField, Value;
  }

  lemma PositiveField(text: string)
    requires Number(text, false).Ok?
    ensures CanonicalField(text).parsed.Some? && Value(CanonicalField(text).parsed.value) > 0.0 && text != ""
  {
    NumbersAgree(text, false);
    WireTextIsUnsigned(text);
    hide Value, Number, IsWireText, ParseText;
  }

  /** The canonical text of an accepted number is read as what it denotes. */
  lemma {:induction false} CanonicalFieldIsExact(text: string)
    requires Number(text, false).Ok?
    ensures IsExactText(CanonicalField(text), text) && IsNumberOf(CanonicalField(text), text)
  {
    NumbersAgree(text, false);
    hide Value, Number, IsWireText, ParseText, IsZero;
  }

  lemma {:induction false} SameAsCanonical(field: NumberField, text: string)
    requires IsExactText(CanonicalField(text), text)
    ensures SameNumber(field, CanonicalField(text)) <==> IsNumberOf(field, text)
  {
    hide Value, IsWireText, ParseText, CanonicalField;
  }

  lemma {:induction false} ConstraintsBind(order: Order, clock: int, zone: Zone)
    ensures CheckConstraints(order, clock, zone) == Pass <==> IsBoundAt(Rewritten(order), clock, zone) && HasEnvelopeNumbers(order)
  {
    hide *;
    ConstraintsParts(order, clock, zone);
    BoundParts(order, clock, zone);
    if ValidateV2(order.envelope, clock, zone) == Pass {
      AcceptedNumbers(order.envelope, clock, zone);
      CanonicalFieldIsExact(order.envelope.order.quantity);
      CanonicalFieldIsExact(order.envelope.order.limitPrice);
      SameAsCanonical(order.quantity, order.envelope.order.quantity);
      SameAsCanonical(order.limitPrice, order.envelope.order.limitPrice);
    }
  }

  /** The order names what its envelope names, and is in force. */
  predicate NamesItsEnvelope(order: Order, clock: int) {
    && clock < order.expiresAt && clock < order.leaseExpiresAt
    && order.clientOrderId != "" && order.assetCode != "" && order.accountId > 0 && order.orderType == "LIMIT"
    && order.envelope.order.orderId == order.clientOrderId
    && order.envelope.order.accountId == order.accountId
    && order.envelope.order.securityId == order.assetCode
    && order.envelope.order.side == order.side
  }

  lemma {:induction false} ConstraintsParts(order: Order, clock: int, zone: Zone)
    ensures CheckConstraints(order, clock, zone) == Pass <==>
              && ValidateV2(order.envelope, clock, zone) == Pass && NamesItsEnvelope(order, clock)
              && SameNumber(order.quantity, CanonicalField(order.envelope.order.quantity))
              && SameNumber(order.limitPrice, CanonicalField(order.envelope.order.limitPrice))
  {
    hide ValidateV2, CanonicalField, SameNumber;
  }

  lemma {:induction false} BoundParts(order: Order, clock: int, zone: Zone)
    ensures IsBoundAt(Rewritten(order), clock, zone) <==>
              && ValidateV2(order.envelope, clock, zone) == Pass && NamesItsEnvelope(order, clock)
              && IsExactText(CanonicalField(order.envelope.order.quantity), order.envelope.order.quantity)
              && IsExactText(CanonicalField(order.envelope.order.limitPrice), order.envelope.order.limitPrice)
    ensures HasEnvelopeNumbers(order) <==>
              IsNumberOf(order.quantity, order.envelope.order.quantity) && IsNumberOf(order.limitPrice, order.envelope.order.limitPrice)
  {
    hide ValidateV2, CanonicalField, IsExactText, IsNumberOf;
  }

  lemma {:induction false} RewrittenHasEnvelopeNumbers(order: Order, clock: int, zone: Zone)
    requires IsBoundAt(Rewritten(order), clock, zone)
    ensures HasEnvelopeNumbers(Rewritten(order))
  {
    hide ValidateV2, CanonicalField, Value, IsWireText, ParseText;
  }

  /** On a bound order only the STOP file and the account can fail the local checks. */
  lemma {:induction false} LocalIdentityOfBound(order: Order, clock: int, config: Config, stop: bool)
    requires IsBoundAt(Rewritten(order), clock, config.zone)
    ensures CheckLocalIdentity(Rewritten(order), config, stop) == Pass <==> !stop && order.accountId == config.accountId
  {
    AcceptedFieldsArePositive(order, clock, config.zone);
    hide ValidateV2, CanonicalField, Value;
  }

  /** An order that may be sent at the clock. */
  predicate IsClearedAt(order: Order, clock: int, config: Config) {
    IsBoundAt(order, clock, config.zone) && order.accountId == config.accountId
  }

  /** An order that may be sent at two clocks may be sent at every instant between them. */
  lemma {:induction false} ClearedBetween(order: Order, first: int, t: int, last: int, config: Config)
    requires Monotone(config.zone) && first <= t <= last
    requires IsClearedAt(order, first, config) && IsClearedAt(order, last, config)
    ensures IsClearedAt(order, t, config)
  {
    hide ValidateV2, CanonicalField, Monotone;
    AcceptedBetweenV2(order.envelope, first, t, last, config.zone);
  }

  /** The clocks that a validation reads. */
  function ClocksOf(r: Readings): set<int> {
    {r.clock1, r.clock2, r.clock3}
  }

  predicate GatesHold(r: Readings) {
    r.session1 == Holds && r.market == Holds && r.capacity == Holds && r.final == Holds
  }

  /** A validation passes exactly when the lease shows the envelope's numbers, the order with the envelope's exact texts is cleared at each of the three clocks, STOP is absent at both looks, every gate holds, and the store does not know the order. */
  lemma {:induction false} PassesExactly(order: Order, r: Readings, config: Config, alreadyStored: bool)
    ensures ValidateBeforeSubmit(order, r, config, alreadyStored) == Passed <==>
              && HasEnvelopeNumbers(order)
              && IsClearedAt(Rewritten(order), r.clock1, config) && IsClearedAt(Rewritten(order), r.clock2, config)
              && IsClearedAt(Rewritten(order), r.clock3, config)
              && !r.stop1 && !r.stop3 && GatesHold(r) && !alreadyStored
  {
    hide *;
    var rewritten := Rewritten(order);
    RewritingIsIdempotent(order);
    VerdictParts(order, r, config, alreadyStored);
    ConstraintsBind(order, r.clock1, config.zone);
    ConstraintsBind(rewritten, r.clock2, config.zone);
    ConstraintsBind(rewritten, r.clock3, config.zone);
    if IsBoundAt(rewritten, r.clock1, config.zone) {
      RewrittenHasEnvelopeNumbers(order, r.clock1, config.zone);
      LocalIdentityOfBound(order, r.clock1, config, r.stop1);
      LocalIdentityOfBound(order, r.clock1, config, r.stop3);
    }
    ClearedParts(order, r.clock1, config);
    ClearedParts(order, r.clock2, config);
    ClearedParts(order, r.clock3, config);
  }

  lemma {:induction false} ClearedParts(order: Order, clock: int, config: Config)
    ensures IsClearedAt(Rewritten(order), clock, config) <==> IsBoundAt(Rewritten(order), clock, config.zone) && order.accountId == config.accountId
  {
    hide IsBoundAt, CanonicalField;
  }

  /** A validation lets an unlisted exception escape exactly when one of its gates does, everything before that gate having passed. */
  lemma {:induction false} EscapesExactly(order: Order, r: Readings, config: Config, alreadyStored: bool)
    ensures var mine := (order.accountId == config.accountId);
            ValidateBeforeSubmit(order, r, config, alreadyStored) == Escaped <==>
              && HasEnvelopeNumbers(order) && IsBoundAt(Rewritten(order), r.clock1, config.zone) && mine && !r.stop1
              && (r.session1 == Escapes ||
                  (&& r.session1 == Holds && IsBoundAt(Rewritten(order), r.clock2, config.zone)
                   && (r.market == Escapes ||
                       (&& r.market == Holds
                        && (r.capacity == Escapes ||
                            (&& r.capacity == Holds && !alreadyStored && IsBoundAt(Rewritten(order), r.clock3, config.zone)
                             && !r.stop3 && r.final == Escapes))))))
  {
    hide *;
    var rewritten := Rewritten(order);
    RewritingIsIdempotent(order);
    EscapeParts(order, r, config, alreadyStored);
    ConstraintsBind(order, r.clock1, config.zone);
    ConstraintsBind(rewritten, r.clock2, config.zone);
    ConstraintsBind(rewritten, r.clock3, config.zone);
    if IsBoundAt(rewritten, r.clock1, config.zone) {
      RewrittenHasEnvelopeNumbers(order, r.clock1, config.zone);
      LocalIdentityOfBound(order, r.clock1, config, r.stop1);
      LocalIdentityOfBound(order, r.clock1, config, r.stop3);
    }
  }

  lemma {:induction false} EscapeParts(order: Order, r: Readings, config: Config, alreadyStored: bool)
    ensures ValidateBeforeSubmit(order, r, config, alreadyStored) == Escaped <==>
              && CheckConstraints(order, r.clock1, config.zone) == Pass && CheckLocalIdentity(Rewritten(order), config, r.stop1) == Pass
              && (r.session1 == Escapes ||
                  (&& r.session1 == Holds && CheckConstraints(Rewritten(order), r.clock2, config.zone) == Pass
                   && (r.market == Escapes ||
                       (&& r.market == Holds
                        && (r.capacity == Escapes ||
                            (&& r.capacity == Holds && !alreadyStored && CheckConstraints(Rewritten(order), r.clock3, config.zone) == Pass
                             && CheckLocalIdentity(Rewritten(order), config, r.stop3) == Pass && r.final == Escapes))))))
  {
    hide CheckConstraints, CheckLocalIdentity, Rewritten;
  }

  /** Rewriting changes nothing but the two numbers. */
  lemma RewritingKeepsTheRest(order: Order)
    ensures order.(quantity := Rewritten(order).quantity, limitPrice := Rewritten(order).limitPrice) == Rewritten(order)
  {
  }

  /** A validation passes when every one of its checks and gates does. */
  lemma {:induction false} VerdictParts(order: Order, r: Readings, config: Config, alreadyStored: bool)
    ensures ValidateBeforeSubmit(order, r, config, alreadyStored) == Passed <==>
              && CheckConstraints(order, r.clock1, config.zone) == Pass
              && CheckConstraints(Rewritten(order), r.clock2, config.zone) == Pass && CheckConstraints(Rewritten(order), r.clock3, config.zone) == Pass
              && CheckLocalIdentity(Rewritten(order), config, r.stop1) == Pass && CheckLocalIdentity(Rewritten(order), config, r.stop3) == Pass
              && GatesHold(r) && !alreadyStored
  {
    hide CheckConstraints, CheckLocalIdentity, Rewritten;
  }

  /** The order may be sent at each clock of the validation. */
  predicate IsClearedThroughout(order: Order, r: Readings, config: Config) {
    IsClearedAt(order, r.clock1, config) && IsClearedAt(order, r.clock2, config) && IsClearedAt(order, r.clock3, config)
  }

  lemma {:induction false} PassingClears(order: Order, r: Readings, config: Config)
    requires ValidateBeforeSubmit(order, r, config, false) == Passed
    ensures IsClearedThroughout(Rewritten(order), r, config) && !r.stop1 && !r.stop3
  {
    hide ValidateBeforeSubmit, IsClearedAt, HasEnvelopeNumbers, Rewritten;
    PassesExactly(order, r, config, false);
  }

  /** The instant lies between two of the clocks that the two validations read. */
  predicate IsSpanned(r1: Readings, r2: Readings, t: int) {
    exists first <- ClocksOf(r1) + ClocksOf(r2), last <- ClocksOf(r1) + ClocksOf(r2) :: first <= t <= last
  }

  /** After two passing validations an order may be sent at every instant that their clocks span. */
  lemma {:induction false} ClearedInSpan(order: Order, r1: Readings, r2: Readings, t: int, config: Config)
    requires Monotone(config.zone) && IsClearedThroughout(order, r1, config) && IsClearedThroughout(order, r2, config)
    requires IsSpanned(r1, r2, t)
    ensures IsClearedAt(order, t, config)
  {
    hide IsClearedAt, Monotone;
    var first, last :| first in ClocksOf(r1) + ClocksOf(r2) && last in ClocksOf(r1) + ClocksOf(r2) && first <= t <= last;
    ClearedBetween(order, first, t, last, config);
  }

  /** The acknowledged numbers equal those of the order. */
  predicate Echoes(ack: Ack, order: Order) {
    && ack.accepted && ack.echo.Some?
    && ack.echo.value.clientOrderId == order.clientOrderId
    && ack.echo.value.accountId == order.accountId
    && ack.echo.value.assetCode == order.assetCode
    && ack.echo.value.side == order.side && ack.echo.value.orderType == "LIMIT"
    && AreEqual(ack.echo.value.quantity.parsed, order.quantity.parsed)
    && AreEqual(ack.echo.value.limitPrice.parsed, order.limitPrice.parsed)
  }

  predicate AreEqual(a: Option<Decimal>, b: Option<Decimal>) {
    a.Some? && b.Some? && !(Value(a.value) < Value(b.value)) && !(Value(b.value) < Value(a.value))
  }

  /** The answer is accepted exactly when it is an acceptance of this order at equal numbers, and the account is a real one. */
  lemma {:induction false} AcknowledgesExactly(ack: Ack, order: Order)
    ensures CheckAck(ack, order) == Pass <==> Echoes(ack, order) && order.accountId > 0
  {
    hide Value;
  }
}
