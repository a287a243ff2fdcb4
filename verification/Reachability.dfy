/** What can happen: orders that may be sent are sent in some run, and envelopes that are accepted exist. */
module Reachability {
  import opened Outcomes
  import opened Decimals
  import opened DecimalText
  import opened PriceCage
  import opened Constraints
  import opened SubmissionV2
  import opened ParsedAcceptance
  import opened OddLots
  import opened Orders
  import opened BrokerReads
  import opened Protocol
  import opened Executor

  // ---------------------------------------------------------------- one step further

  /** Some run reaches the state. */
  ghost predicate Reaches(config: Config, s: State) {
    exists actions: seq<Action> :: IsRun(config, actions) && After(config, actions) == s
  }

  lemma ReachesNext(config: Config, s: State, a: Action, phase: Phase, store: Store, leases: seq<Order>)
    requires Reaches(config, s) && Moves(s, a, phase, store, leases)
    ensures Enabled(s, a) && Reaches(config, Apply(s, a))
    ensures var next := Apply(s, a);
            && next.phase == phase && next.store == store && next.leases == leases && next.paused == s.paused && next.config == s.config
            && SentOrders(next.log) == SentOrders(s.log) + if a.Submit? then [s.phase.order] else []
  {
    SentAfterStep(s, a);
    var actions :| IsRun(config, actions) && After(config, actions) == s;
    hide Apply, Enabled, IsRun, After, SentOrders;
    ExtendRun(config, actions, a);
  }

  /** A process that starts on an empty table leases the given order. */
  lemma ReachesLease(config: Config, order: Order) returns (s: State)
    ensures Reaches(config, s) && s.phase == Ordering && s.leases == [order] && s.store == map[] && s.config == config && SentOrders(s.log) == []
  {
    assert IsRun(config, []) && After(config, []) == Init(config);
    s := Apply(Init(config), Start(config, []));
    ExtendRun(config, [], Start(config, []));
    assert s.log == [];
    hide Apply, IsRun, After;
    FinishMoves(s);
    ReachesNext(config, s, FinishRecovery, Idle, s.store, s.leases);
    s := Apply(s, FinishRecovery);
    BeginMoves(s, false, [order]);
    ReachesNext(config, s, BeginCycle(false, [order]), Ordering, s.store, [order]);
    s := Apply(s, BeginCycle(false, [order]));
  }

  /** Every order that passes both validations and whose acknowledgement is accepted is sent in some run, exactly as rewritten. */
  lemma ValidOrderIsSent(config: Config, order: Order, first: Readings, second: Readings, ack: Ack, outcome: BrokerOutcome) returns (s: State)
    requires !config.dryRun && ValidateBeforeSubmit(order, first, config, false) == Passed
    requires CheckAck(ack, Rewritten(order)) == Pass && ValidateBeforeSubmit(Rewritten(order), second, config, false) == Passed
    ensures Reaches(config, s) && SentOrders(s.log) == [Rewritten(order)]
  {
    RewritingIsIdempotent(order);
    hide Apply, Enabled, Reaches, Moves, SentOrders, ValidateBeforeSubmit, CheckAck, Rewritten;
    var sent := Rewritten(order);
    s := ReachesLease(config, order);
    ValidateMoves(s, first);
    assert s.leases[1..] == [];
    ReachesNext(config, s, Validate(first), Validated(sent), s.store, []);
    s := Apply(s, Validate(first));
    PersistMoves(s, true);
    ReachesNext(config, s, Persist(true), Recorded(sent), WithSubmitting(s.store, sent), []);
    s := Apply(s, Persist(true));
    AnnounceMoves(s, Some(ack));
    ReachesNext(config, s, Announce(Some(ack)), Acknowledged(sent, ack), s.store, []);
    s := Apply(s, Announce(Some(ack)));
    RevalidateMoves(s, second);
    ReachesNext(config, s, Revalidate(second), Cleared(sent), s.store, []);
    s := Apply(s, Revalidate(second));
    SubmitMoves(s, outcome);
    ReachesNext(config, s, Submit(outcome), Settling(sent, OutcomeMark(outcome).0, true, OutcomeMark(outcome).1), s.store, []);
    s := Apply(s, Submit(outcome));
  }

  // ---------------------------------------------------------------- an accepted order

  const UNIT: Decimal := DecimalTuple(false, [1], 0)
  const NOTHING: Decimal := DecimalTuple(false, [0], 0)

  lemma UnitTexts()
    ensures Number("1", false) == Ok(UNIT) && NumberV2("1", false) == Ok(UNIT) && NumberV2("1", true) == Ok(UNIT) && NumberV2("0", true) == Ok(NOTHING)
  {
    DigitText("1", 1);
    DigitText("0", 0);
    UnitValues();
    hide *;
    ParsedText("1", UNIT);
    ParsedText("0", NOTHING);
    NumbersAgree("1", false);
  }

  lemma ParsedText(t: string, d: Decimal)
    requires IsWireText(t) && ParseText(t) == d && |t| == 1
    ensures NumberV2(t, true) == Ok(d) && (!IsZero(d) ==> NumberV2(t, false) == Ok(d))
  {
    hide IsWireText, ParseText, IsZero;
  }

  lemma DigitText(t: string, d: Digit)
    requires t == [DigitChar(d)]
    ensures IsWireText(t) && ParseText(t) == DecimalTuple(false, [d], 0)
  {
    assert TextDigits(t) == [d];
    assert t[..1] == t;
    ParsePlain(t);
  }

  lemma UnitValues()
    ensures Value(UNIT) == 1.0 && Value(NOTHING) == 0.0 && !IsZero(UNIT) && IsWholeNumber(UNIT)
    ensures Components(UNIT, false) == Ok((1, 0)) && Components(NOTHING, true) == Ok((0, 0)) && Components(UNIT, true) == Ok((1, 0))
    ensures IsTimes(1, Value(UNIT), Value(UNIT)) && ScaledInteger(UNIT, 0) == 1
  {
    SignOfValue(NOTHING);
    assert Trim([1]) == [1] && Coefficient([1]) == 1;
    assert Scale(0) == 1.0;
  }

  const UNIT_QUANTITY := QuantityText("1", "1", "1")
  const UNIT_RULE := RuleV1("S", "M", "B", UNIT_QUANTITY, UNIT_QUANTITY, Forbid, "1", 0, 0, 0, 9, "R", "R")
  const UNIT_MARKET := MarketV1("S", "M", "B", 0, 0, 0, 9, 0, 9, SessionOpen, Trading, BoundaryMode.Unrestricted, None, None, "1", 0, 0, 9, "E", "E")
  const UNIT_RANGE := RangeRuleText("M", "B", "1", "0", "0", 0, 0, 0, 1)

  function UnitOrder(id: string): ConstraintOrder {
    ConstraintOrder(id, 1, "S", Buy, "1", "1", None)
  }

  /** The smallest envelope: one share at one tick, from an ask of one tick. */
  function UnitEnvelope(id: string): EnvelopeV2 {
    var absent := QuoteText(ConfirmedAbsent, None);
    EnvelopeV2(0, RuleV2(UNIT_RULE, UNIT_RANGE, [Continuous], "R2", "R2"),
               MarketV2(UNIT_MARKET, Continuous, QuoteText(Present, Some("1")), absent, absent, absent, "E2", "E2"),
               UnitOrder(id), ServerDecision(true, [], id, "R2", "E2"))
  }

  function UnitRangeRule(): RangeRule {
    RangeRule("M", "B", UNIT, NOTHING, NOTHING, 0, 0, 0, 1)
  }

  lemma SmallIntegers()
    ensures IsBoundedInteger(0, false) && IsBoundedInteger(1, true)
  {
    assert |NatDigits(0)| == 1 && |NatDigits(1)| == 1;
  }

  lemma NothingIsRatio()
    ensures IsRatio(NOTHING) && Value(NOTHING) < 1.0
  {
    UnitValues();
    hide Components, Value;
  }

  lemma UnitRuleIsValid()
    ensures ValidRule(UnitRangeRule()) && ParseRangeRule(UNIT_RANGE) == Ok(UnitRangeRule())
  {
    hide NumberV2, Value, IsPositive, IsRatio, IsBoundedInteger, Number;
    UnitTexts();
    SmallIntegers();
    NothingIsRatio();
    UnitIsPositive();
  }

  function UnitQuantity(): QuantityRule {
    QuantityRule(UNIT, UNIT, UNIT)
  }

  lemma UnitQuantityParses()
    ensures ParseQuantityRule(UNIT_QUANTITY) == Ok(UnitQuantity())
  {
    hide Number, NumberV2, Value, IsWholeNumber, Components, ScaledInteger, IsTimes, IsZero;
    UnitTexts();
    UnitValues();
  }

  lemma UnitTermsParse()
    ensures ParseTerms(UNIT_RULE, UNIT_MARKET) == Ok(Terms(UnitQuantity(), UnitQuantity(), UNIT, UNIT, None))
  {
    UnitShape();
    hide *;
    UnitTexts();
    UnitQuantityParses();
    TermsParse(UNIT_RULE, UNIT_MARKET, UnitQuantity(), UNIT);
  }

  lemma UnitShape()
    ensures ParseBand(UNIT_MARKET) == Ok(None)
    ensures UNIT_RULE.buyQuantity == UNIT_RULE.sellQuantity == UNIT_QUANTITY && UNIT_RULE.oddLotMode == Forbid
    ensures UNIT_RULE.priceTick == UNIT_MARKET.referencePrice == "1"
    ensures UNIT_RULE.effectiveFrom < UNIT_RULE.validUntil && UNIT_MARKET.sessionOpenAt < UNIT_MARKET.sessionCloseAt
  {
  }

  lemma TermsParse(rule: RuleV1, market: MarketV1, q: QuantityRule, d: Decimal)
    requires rule.buyQuantity == rule.sellQuantity && ParseQuantityRule(rule.buyQuantity) == Ok(q) && rule.oddLotMode == Forbid
    requires rule.priceTick == market.referencePrice && Number(rule.priceTick, false) == Ok(d)
    requires rule.effectiveFrom < rule.validUntil && market.sessionOpenAt < market.sessionCloseAt && ParseBand(market) == Ok(None)
    ensures ParseTerms(rule, market) == Ok(Terms(q, q, d, d, None))
  {
    hide ParseQuantityRule, Number, ParseBand, Value, IsZero, IsWholeNumber, QuantityRule.Sound, IsWireText, ParseText;
  }

  lemma UnitNumbers(id: string)
    ensures ParseNumbers(DerivedV1(UnitEnvelope(id))) == Ok(Numbers(Terms(UnitQuantity(), UnitQuantity(), UNIT, UNIT, None), UNIT, UNIT))
  {
    hide Number, NumberV2, Value, ParseTerms, UnitQuantity, IsWholeNumber, Components, ScaledInteger, IsTimes, IsZero;
    UnitTexts();
    UnitValues();
    UnitTermsParse();
  }

  function UnitQuotes(): Quotes {
    var absent := Quote(ConfirmedAbsent, None);
    Quotes(Quote(Present, Some(UNIT)), absent, absent, absent)
  }

  lemma ParsedPresent(t: string, d: Decimal)
    requires NumberV2(t, false) == Ok(d) && ValidQuote(Quote(Present, Some(d)))
    ensures ParseQuote(QuoteText(Present, Some(t))) == Ok(Quote(Present, Some(d)))
  {
    hide NumberV2, ValidQuote;
  }

  lemma ParsedAbsent()
    ensures ParseQuote(QuoteText(ConfirmedAbsent, None)) == Ok(Quote(ConfirmedAbsent, None)) && ValidQuote(Quote(ConfirmedAbsent, None))
  {
    hide NumberV2;
  }

  lemma UnitIsPositive()
    ensures IsPositive(UNIT) && ValidQuote(Quote(Present, Some(UNIT)))
  {
    UnitValues();
    hide Components;
  }

  lemma UnitQuotesParse(id: string)
    ensures ParseQuotes(UnitEnvelope(id).market) == Ok(UnitQuotes()) && ValidQuotes(UnitQuotes())
  {
    hide NumberV2, ParseQuote, ValidQuote, Number;
    UnitTexts();
    UnitIsPositive();
    ParsedPresent("1", UNIT);
    ParsedAbsent();
  }

  lemma UnitCage(id: string)
    ensures Cage(UnitEnvelope(id)).Ok? && Cage(UnitEnvelope(id)).value.rule == UnitRangeRule() && Cage(UnitEnvelope(id)).value.reference == UNIT
  {
    UnitFields(id);
    hide *;
    UnitQuotesParse(id);
    UnitRuleIsValid();
    UnitTexts();
    ContinuousIsAllowed();
    UnitDecision();
    CageFrom(UnitEnvelope(id), UnitRangeRule(), UNIT, UnitQuotes());
  }

  lemma UnitFields(id: string)
    ensures var env := UnitEnvelope(id);
            && env.rule.range == UNIT_RANGE && env.rule.allowedStages == [Continuous] && env.rule.base.priceTick == "1"
            && env.market.stage == Continuous && env.order.side == Buy
            && UnitRangeRule().market == env.rule.base.market && UnitRangeRule().board == env.rule.base.board && UnitRangeRule().priceTick == UNIT
  {
  }

  lemma CageFrom(env: EnvelopeV2, rule: RangeRule, tick: Decimal, quotes: Quotes)
    requires ParseRangeRule(env.rule.range) == Ok(rule) && NumberV2(env.rule.base.priceTick, false) == Ok(tick) && ParseQuotes(env.market) == Ok(quotes)
    requires rule.market == env.rule.base.market && rule.board == env.rule.base.board && rule.priceTick == tick
    requires env.rule.allowedStages == [Continuous] && env.market.stage == Continuous && CheckAllowedStages([Continuous]) == Pass
    requires var d := Range(rule, env.order.side, Continuous, quotes); d.status == Calculated && d.reference.Some? && d.boundary.Some?
    ensures Cage(env).Ok? && Cage(env).value.rule == rule
    ensures Some(Cage(env).value.reference) == Range(rule, env.order.side, Continuous, quotes).reference
  {
    hide NumberV2, ParseRangeRule, ParseQuotes, Range, Value, ValidRule, CageCode, CheckAllowedStages;
  }

  lemma ContinuousIsAllowed()
    ensures CheckAllowedStages([Continuous]) == Pass
  {
  }

  lemma FirstIsAsk(quotes: Quotes)
    requires quotes.ask.state == Present
    ensures FirstNotAbsent(quotes, SourceOrder(Buy)) == Some(Ask)
  {
    assert SourceOrder(Buy)[0] == Ask;
    hide SourceOrder;
  }

  lemma UnitDecision()
    ensures var d := Range(UnitRangeRule(), Buy, Continuous, UnitQuotes());
            d.status == Calculated && d.reference == Some(UNIT) && d.boundary.Some?
  {
    hide *;
    UnitRuleIsValid();
    UnitQuotesParse("");
    UnitReference();
    RangeFromAsk(UnitRangeRule(), UnitQuotes(), UNIT);
  }

  lemma RangeFromAsk(rule: RangeRule, quotes: Quotes, d: Decimal)
    requires ValidRule(rule) && ValidQuotes(quotes) && quotes.ask == Quote(Present, Some(d))
    ensures Range(rule, Buy, Continuous, quotes) == DecideOnReference(rule, Buy, Ask, d)
  {
    QuotesAreValid(quotes);
    FirstIsAsk(quotes);
    hide ValidRule, ValidQuotes, FirstInvalid, FirstNotAbsent, SourceOrder, DecideOnReference;
  }

  lemma UnitReference()
    ensures UnitQuotes().ask == Quote(Present, Some(UNIT)) && ValidRule(UnitRangeRule())
    ensures var d := DecideOnReference(UnitRangeRule(), Buy, Ask, UNIT);
            d.status == Calculated && d.reference == Some(UNIT) && d.boundary.Some?
  {
    hide ValidRule, DecideOnReference, Components, ClosedFormTicks, TickMultiple, Value, IsPositive, IsTimes;
    UnitRuleIsValid();
    UnitIsPositive();
    UnitValues();
    UnitBoundary();
    DecisionOnTick(UnitRangeRule(), Buy, Ask, UNIT, 1);
  }

  lemma UnitBoundary()
    ensures ClosedFormTicks(UnitRangeRule(), Buy, 1) == 1 && TickMultiple(1, UNIT) == UNIT
  {
    UnitValues();
    RoundOfInteger(1);
    assert ByRatio(1.0, 1.0) == 1.0;
    hide RoundHalfUp, Value, Components;
  }

  /** Accepted envelopes exist. */
  lemma UnitEnvelopeIsAccepted(id: string)
    ensures ValidateV2(UnitEnvelope(id), 0, _ => 0) == Pass
  {
    AcceptsParsedV2(UnitEnvelope(id), 0, _ => 0);
    UnitIsBound(id);
    UnitIsAdmissible(id);
    UnitIsCaged(id);
    hide *;
  }

  lemma UnitIsBound(id: string)
    ensures CheckOuterBinding(UnitEnvelope(id)) == Pass
  {
  }

  lemma UnitIsTimeless(id: string)
    ensures CheckTimeless(DerivedV1(UnitEnvelope(id))) == Pass
  {
    UnitNumbers(id);
    hide ParseNumbers;
  }

  lemma UnitIsPermitted(env: EnvelopeV1)
    ensures var n := Numbers(Terms(UnitQuantity(), UnitQuantity(), UNIT, UNIT, None), UNIT, UNIT);
            && n.terms.buy.Sound() && IsMarketPrice(Value(UNIT), Value(UNIT), None)
            && (env.order.side == Buy ==> IsParsedQuantity(env, n))
  {
    hide Value, ScaledInteger, IsZero, IsTimes, AcceptsSell, Available, Restricted, Components;
    UnitValues();
  }

  lemma UnitIsAdmissible(id: string)
    ensures IsParsedAdmissible(DerivedV1(UnitEnvelope(id)), 0, _ => 0)
  {
    UnitNumbers(id);
    UnitIsTimeless(id);
    hide *;
    UnitIsTimely(id);
    UnitIsPermitted(DerivedV1(UnitEnvelope(id)));
    AdmissibleParts(DerivedV1(UnitEnvelope(id)), 0, _ => 0);
  }

  lemma UnitIsTimely(id: string)
    ensures var env := DerivedV1(UnitEnvelope(id));
            env.asOf <= 0 && IsTimely(env, 0, _ => 0) && IsOpen(env.market) && env.order.side == Buy
  {
  }

  lemma UnitIsCaged(id: string)
    ensures ParseNumbers(DerivedV1(UnitEnvelope(id))).Ok? && IsParsedCaged(UnitEnvelope(id), ParseNumbers(DerivedV1(UnitEnvelope(id))).value)
  {
    UnitNumbers(id);
    UnitCage(id);
    UnitValues();
    UnitBoundary();
    assert IsInsideBoundary(Cage(UnitEnvelope(id)).value, Buy, Value(UNIT), 1, 1) by {
      hide Cage, ParseNumbers, Value, ClosedFormTicks;
    }
    hide Cage, ParseNumbers, Value, ClosedFormTicks, IsInsideBoundary, Components, ScaledInteger;
  }

  const HOME := Config(1, false, _ => 0)
  const CALM := Readings(0, 0, 0, false, false, Holds, Holds, Holds, Holds)

  function UnitLease(id: string): Order {
    Order(id, 1, "S", Buy, "LIMIT", CanonicalField("1"), CanonicalField("1"), "L", 9, 9, UnitEnvelope(id))
  }

  function UnitAck(id: string): Ack {
    Ack(true, Some(Echo(id, 1, "S", Buy, "LIMIT", CanonicalField("1"), CanonicalField("1"))))
  }

  lemma UnitField()
    ensures SameNumber(CanonicalField("1"), CanonicalField("1"))
  {
    UnitTexts();
    hide Value, WireDecimal;
  }

  lemma UnitLeaseIsBound(id: string)
    requires id != ""
    ensures Rewritten(UnitLease(id)) == UnitLease(id) && IsClearedAt(UnitLease(id), 0, HOME) && HasEnvelopeNumbers(UnitLease(id))
  {
    hide ValidateV2, CanonicalField, SameNumber, IsExactText, IsNumberOf, Number, NumberV2;
    UnitField();
    UnitTexts();
    CanonicalFieldIsExact("1");
    UnitEnvelopeIsAccepted(id);
  }

  lemma UnitLeasePasses(id: string)
    requires id != ""
    ensures ValidateBeforeSubmit(UnitLease(id), CALM, HOME, false) == Passed
  {
    hide ValidateBeforeSubmit, IsClearedAt, HasEnvelopeNumbers, Rewritten, UnitLease;
    UnitLeaseIsBound(id);
    PassesExactly(UnitLease(id), CALM, HOME, false);
  }

  lemma UnitAckIsAccepted(id: string)
    ensures CheckAck(UnitAck(id), UnitLease(id)) == Pass
  {
    hide CanonicalField, SameNumber, UnitEnvelope;
    UnitField();
  }

  /** The theorems about sent orders are not empty: under every nonempty id some order is sent in some run. */
  lemma SomeOrderIsSent(id: string) returns (s: State)
    requires id != ""
    ensures Reaches(HOME, s) && SentOrders(s.log) == [UnitLease(id)]
  {
    hide *;
    UnitLeasePasses(id);
    UnitLeaseIsBound(id);
    UnitAckIsAccepted(id);
    NotDry();
    s := ValidOrderIsSent(HOME, UnitLease(id), CALM, CALM, UnitAck(id), Raised);
  }

  lemma NotDry()
    ensures !HOME.dryRun
  {
  }
}
