/** The A-share execution constraints (v1): the checks of one envelope at two clocks, in the order of the source. */
module Constraints {
  import opened Outcomes
  import opened Decimals
  import opened DecimalText
  import opened PriceCage

  datatype OddLotMode = Forbid | SellableBalanceToZero | SellOddRemainderOnce

  datatype SessionState = SessionOpen | SessionClosed | SessionUnknown

  datatype SecurityState = Trading | Suspended | Delisted | SecurityUnknown

  datatype BoundaryMode = Limited | Unrestricted | BoundaryUnknown

  datatype Completeness = Complete | Incomplete | CompletenessUnknown

  /** Decimal fields carry their wire text; instants are integers. */
  datatype QuantityText = QuantityText(minimum: string, step: string, maximum: string)

  /** `contentHash` is the digest that came with the content, `canonicalHash` the one computed from it. */
  datatype RuleV1 = RuleV1(
    securityId: string, market: string, board: string,
    buyQuantity: QuantityText, sellQuantity: QuantityText,
    oddLotMode: OddLotMode, priceTick: string,
    observedAt: int, availableAt: int, effectiveFrom: int, validUntil: int,
    contentHash: string, canonicalHash: string)

  datatype MarketV1 = MarketV1(
    securityId: string, market: string, board: string, tradingDate: int,
    calendarObservedAt: int, calendarAvailableAt: int, calendarValidUntil: int,
    sessionOpenAt: int, sessionCloseAt: int,
    sessionState: SessionState, securityState: SecurityState,
    boundaryMode: BoundaryMode, lowerLimit: Option<string>, upperLimit: Option<string>, referencePrice: string,
    marketObservedAt: int, marketAvailableAt: int, marketValidUntil: int,
    contentHash: string, canonicalHash: string)

  datatype Position = Position(
    securityId: string, accountId: int,
    available: Option<string>, restricted: Option<string>, completeness: Completeness,
    observedAt: int, availableAt: int, validUntil: int)

  datatype ConstraintOrder = ConstraintOrder(
    orderId: string, accountId: int, securityId: string, side: Side,
    quantity: string, limitPrice: string, position: Option<Position>)

  datatype ServerDecision = ServerDecision(
    allowed: bool, reasonCodes: seq<string>, orderId: string, ruleHash: string, marketHash: string)

  datatype EnvelopeV1 = EnvelopeV1(asOf: int, rule: RuleV1, market: MarketV1, order: ConstraintOrder, decision: ServerDecision)

  /** The local date of an instant in the session's time zone. */
  type Zone = int -> int

  // ---------------------------------------------------------------- parsing

  /** `_decimal`: wire text as a positive number, or a nonnegative one where zero is allowed. */
  function Number(t: string, allowZero: bool): (r: Result<Decimal>)
    ensures r.Ok? ==> Value(r.value) >= 0.0 && !r.value.negative && (!allowZero ==> Value(r.value) > 0.0 && !IsZero(r.value))
    ensures r.Ok? ==> IsWireText(t) && |t| <= MAX_CANONICAL_DECIMAL_CHARS && r.value == ParseText(t)
  {
    BothParsersAgree(t, allowZero);
    var parsed := WireDecimalV1(t, allowZero);
    if parsed.None? then Err("DECIMAL_INVALID") else
    SignOfValue(parsed.value);
    Ok(parsed.value)
  }

  datatype QuantityRule = QuantityRule(minimum: Decimal, step: Decimal, maximum: Decimal) {
    predicate Sound() {
      && IsWholeNumber(minimum) && IsWholeNumber(step) && IsWholeNumber(maximum)
      && !minimum.negative && !step.negative && !maximum.negative
      && !IsZero(minimum) && !IsZero(step) && Value(minimum) <= Value(maximum)
    }
  }

  function ParseQuantityRule(q: QuantityText): (r: Result<QuantityRule>)
    ensures r.Ok? ==> r.value.Sound()
  {
    var minimum :- Number(q.minimum, false);
    var step :- Number(q.step, false);
    var maximum :- Number(q.maximum, false);
    if !IsWholeNumber(minimum) || !IsWholeNumber(step) || !IsWholeNumber(maximum) then Err("QUANTITY_CONSTRAINT_INVALID")
    else if Value(maximum) < Value(minimum) then Err("QUANTITY_CONSTRAINT_INVALID")
    else Ok(QuantityRule(minimum, step, maximum))
  }

  datatype Band = Band(lower: Decimal, upper: Decimal)

  function ParseBand(market: MarketV1): Result<Option<Band>> {
    if market.boundaryMode == Limited then
      if market.lowerLimit.None? || market.upperLimit.None? then Err("BOUNDARY_INVALID")
      else
        var lower :- Number(market.lowerLimit.value, false);
        var upper :- Number(market.upperLimit.value, false);
        if Value(lower) > Value(upper) then Err("BOUNDARY_INVALID") else Ok(Some(Band(lower, upper)))
    else if market.lowerLimit.Some? || market.upperLimit.Some? then Err("BOUNDARY_INVALID")
    else Ok(None)
  }

  function ParseShares(t: Option<string>): Check {
    if t.None? then Pass else
    match Number(t.value, true)
    case Err(code) => Reject(code)
    case Ok(d) => Need(IsWholeNumber(d), "POSITION_EVIDENCE_INVALID")
  }

  function CheckPosition(p: Position): Check {
    if p.accountId <= 0 then Reject("POSITION_EVIDENCE_INVALID") else
    :- Need(p.completeness == Complete ==> p.available.Some? && p.restricted.Some?, "POSITION_EVIDENCE_INVALID");
    :- ParseShares(p.available);
    :- ParseShares(p.restricted);
    Need(p.observedAt <= p.availableAt < p.validUntil, "EVIDENCE_WINDOW_INVALID")
  }

  /** The numbers of the rule and the market. */
  datatype Terms = Terms(buy: QuantityRule, sell: QuantityRule, tick: Decimal, reference: Decimal, band: Option<Band>)

  /** The numbers of an envelope. */
  datatype Numbers = Numbers(terms: Terms, quantity: Decimal, limitPrice: Decimal)

  function ParseTerms(rule: RuleV1, market: MarketV1): (r: Result<Terms>)
    ensures r.Ok? ==>
              && r.value.buy.Sound() && r.value.sell.Sound() && !IsZero(r.value.tick)
              && (rule.oddLotMode == SellOddRemainderOnce ==> Value(r.value.sell.minimum) == Value(r.value.sell.step))
  {
    var buy :- ParseQuantityRule(rule.buyQuantity);
    var sell :- ParseQuantityRule(rule.sellQuantity);
    if rule.oddLotMode == SellOddRemainderOnce && Value(sell.minimum) != Value(sell.step) then Err("RULE_INVALID") else
    var tick :- Number(rule.priceTick, false);
    if rule.effectiveFrom >= rule.validUntil then Err("RULE_WINDOW_INVALID") else
    if market.sessionOpenAt >= market.sessionCloseAt then Err("SESSION_INTERVAL_INVALID") else
    var reference :- Number(market.referencePrice, false);
    var band :- ParseBand(market);
    Ok(Terms(buy, sell, tick, reference, band))
  }

  function ParseNumbers(env: EnvelopeV1): (r: Result<Numbers>)
    ensures r.Ok? ==>
              && ParseTerms(env.rule, env.market) == Ok(r.value.terms)
              && IsWholeNumber(r.value.quantity) && !r.value.quantity.negative && !IsZero(r.value.quantity)
  {
    var terms :- ParseTerms(env.rule, env.market);
    if env.order.accountId <= 0 then Err("ORDER_INVALID") else
    var quantity :- Number(env.order.quantity, false);
    if !IsWholeNumber(quantity) then Err("QUANTITY_INVALID") else
    var limitPrice :- Number(env.order.limitPrice, false);
    Ok(Numbers(terms, quantity, limitPrice))
  }

  // ---------------------------------------------------------------- binding

  predicate Distinct(codes: seq<string>) {
    forall i, j :: 0 <= i < j < |codes| ==> codes[i] != codes[j]
  }

  function CheckOrderPosition(order: ConstraintOrder): Check {
    if order.position.None? then Pass else
    var p := order.position.value;
    :- CheckPosition(p);
    :- Need(order.side == Sell ==> p.securityId == order.securityId, "POSITION_SECURITY_MISMATCH");
    Need(order.side == Sell ==> p.accountId == order.accountId, "POSITION_ACCOUNT_MISMATCH")
  }

  function CheckBinding(env: EnvelopeV1): Check {
    var decision := env.decision;
    :- Need(Distinct(decision.reasonCodes), "DECISION_INVALID");
    :- Need(decision.allowed <==> decision.reasonCodes == [], "DECISION_INVALID");
    :- Need(env.rule.contentHash == env.rule.canonicalHash, "CONTENT_HASH_MISMATCH");
    :- Need(env.market.contentHash == env.market.canonicalHash, "CONTENT_HASH_MISMATCH");
    :- Need(decision.orderId == env.order.orderId && decision.ruleHash == env.rule.canonicalHash && decision.marketHash == env.market.canonicalHash,
            "DECISION_BINDING_MISMATCH");
    :- Need(decision.allowed, "SERVER_DECISION_DENIED");
    :- Need(env.order.side == Sell ==> env.order.position.Some?, "POSITION_EVIDENCE_MISSING");
    :- Need(env.order.side == Sell ==> env.order.position.value.completeness == Complete, "POSITION_EVIDENCE_INCOMPLETE");
    :- Need(env.rule.securityId == env.market.securityId == env.order.securityId, "SECURITY_MISMATCH");
    :- Need(env.rule.market == env.market.market, "RULE_MARKET_MISMATCH");
    Need(env.rule.board == env.market.board, "RULE_BOARD_MISMATCH")
  }

  // ---------------------------------------------------------------- clocks

  /** `_validate_evidence_window`. */
  function CheckWindow(observedAt: int, availableAt: int, validUntil: int, clock: int): Check {
    if observedAt > availableAt then Reject("EVIDENCE_WINDOW_INVALID") else
    :- Need(observedAt <= clock && availableAt <= clock, "EVIDENCE_NOT_AVAILABLE");
    Need(clock < validUntil, "EVIDENCE_EXPIRED")
  }

  /** The body of the loop over the two clocks. */
  function CheckClock(env: EnvelopeV1, clock: int, zone: Zone): Check {
    var rule, market := env.rule, env.market;
    :- CheckWindow(rule.observedAt, rule.availableAt, rule.validUntil, clock);
    :- Need(rule.effectiveFrom <= clock, "RULE_NOT_EFFECTIVE");
    :- CheckWindow(market.calendarObservedAt, market.calendarAvailableAt, market.calendarValidUntil, clock);
    :- CheckWindow(market.marketObservedAt, market.marketAvailableAt, market.marketValidUntil, clock);
    :- if env.order.side == Sell && env.order.position.Some? then
         var p := env.order.position.value; CheckWindow(p.observedAt, p.availableAt, p.validUntil, clock)
       else Pass;
    :- Need(zone(clock) == market.tradingDate, "OUTSIDE_TRADING_DATE");
    Need(market.sessionOpenAt <= clock < market.sessionCloseAt, "OUTSIDE_SESSION")
  }

  function CheckStates(market: MarketV1): Check {
    if market.sessionState != SessionOpen then Reject("SESSION_NOT_OPEN") else
    :- Need(market.securityState == Trading, "SECURITY_NOT_TRADING");
    Need(market.boundaryMode != BoundaryUnknown, "PRICE_BOUNDARY_UNKNOWN")
  }

  // ---------------------------------------------------------------- price and quantity

  predicate InBand(band: Option<Band>, price: Decimal) {
    band.Some? ==> Value(band.value.lower) <= Value(price) <= Value(band.value.upper)
  }

  function CheckPrices(terms: Terms, limitPrice: Decimal): Check
    requires !IsZero(terms.tick)
  {
    if !IsMultiple(terms.reference, terms.tick) then Reject("REFERENCE_PRICE_NOT_ON_TICK") else
    :- Need(IsMultiple(limitPrice, terms.tick), "LIMIT_PRICE_NOT_ON_TICK");
    :- Need(InBand(terms.band, terms.reference), "REFERENCE_PRICE_OUTSIDE_BOUNDARY");
    Need(InBand(terms.band, limitPrice), "LIMIT_PRICE_OUTSIDE_BOUNDARY")
  }

  /** The quantity rules of the side, with the odd-lot exceptions of a sell. */
  function CheckQuantity(side: Side, quantity: Decimal, rule: QuantityRule, mode: OddLotMode, available: Decimal, restricted: Decimal): Check
    requires rule.Sound() && IsWholeNumber(quantity) && IsWholeNumber(available)
  {
    if Value(quantity) > Value(rule.maximum) then Reject("QUANTITY_ABOVE_MAXIMUM") else
    :- Need(side == Sell ==> Value(quantity) <= Value(available), "QUANTITY_EXCEEDS_AVAILABLE");
    var onStep := IsMultiple(quantity, rule.step);
    var belowMinimum := Value(quantity) < Value(rule.minimum);
    if side == Sell && (!onStep || belowMinimum) then
      if mode == SellableBalanceToZero then
        :- Need(Value(restricted) == 0.0, "POSITION_HAS_RESTRICTED_BALANCE");
        Need(Value(quantity) == Value(available), "POSITION_NOT_FULL_BALANCE")
      else if mode == SellOddRemainderOnce && !onStep then
        :- Need(Value(restricted) == 0.0, "POSITION_HAS_RESTRICTED_BALANCE");
        Need((ScaledInteger(available, 0) - ScaledInteger(quantity, 0)) % ScaledInteger(rule.step, 0) == 0, "QUANTITY_NOT_ON_STEP")
      else Reject(if onStep then "QUANTITY_BELOW_MINIMUM" else "QUANTITY_NOT_ON_STEP")
    else if belowMinimum then Reject("QUANTITY_BELOW_MINIMUM")
    else Need(onStep, "QUANTITY_NOT_ON_STEP")
  }

  const ZERO: Decimal := DecimalTuple(false, [0], 0)

  /** The whole shares of a position field; a field that was not checked counts as none. */
  function PositionShares(t: Option<string>): (d: Decimal)
    ensures IsWholeNumber(d) && !d.negative
  {
    if t.Some? && Number(t.value, true).Ok? && IsWholeNumber(Number(t.value, true).value) then Number(t.value, true).value else ZERO
  }

  function Available(order: ConstraintOrder): (d: Decimal)
    ensures IsWholeNumber(d) && !d.negative
  {
    if order.position.Some? then PositionShares(order.position.value.available) else ZERO
  }

  function Restricted(order: ConstraintOrder): (d: Decimal)
    ensures IsWholeNumber(d) && !d.negative
  {
    if order.position.Some? then PositionShares(order.position.value.restricted) else ZERO
  }

  function CheckOrderQuantity(order: ConstraintOrder, mode: OddLotMode, terms: Terms, quantity: Decimal): Check
    requires terms.buy.Sound() && terms.sell.Sound() && IsWholeNumber(quantity)
  {
    CheckQuantity(order.side, quantity, if order.side == Buy then terms.buy else terms.sell, mode, Available(order), Restricted(order))
  }

  // ---------------------------------------------------------------- the validator

  /** All checks that do not read a clock. */
  function CheckTimeless(env: EnvelopeV1): Check {
    match ParseNumbers(env)
    case Err(code) => Reject(code)
    case Ok(n) =>
      :- CheckOrderPosition(env.order);
      CheckBinding(env)
  }

  function CheckMarket(env: EnvelopeV1): Check
    requires CheckTimeless(env) == Pass
  {
    var n := ParseNumbers(env).value;
    :- CheckStates(env.market);
    :- CheckPrices(n.terms, n.limitPrice);
    CheckOrderQuantity(env.order, env.rule.oddLotMode, n.terms, n.quantity)
  }

  /** What `validate_effective_constraints` answers. */
  function Validate(env: EnvelopeV1, localTime: int, zone: Zone): Check {
    if localTime < env.asOf then Reject("SUBMISSION_BEFORE_AS_OF") else
    if CheckTimeless(env).Reject? then CheckTimeless(env) else
    :- CheckClock(env, env.asOf, zone);
    :- CheckClock(env, localTime, zone);
    CheckMarket(env)
  }

  /** `validate_effective_constraints` as it runs, with its loop over the two clocks. */
  method ValidateEffectiveConstraints(env: EnvelopeV1, localTime: int, zone: Zone) returns (r: Check)
    ensures r == Validate(env, localTime, zone)
  {
    if localTime < env.asOf {
      return Reject("SUBMISSION_BEFORE_AS_OF");
    }
    r := CheckTimeless(env);
    if r.Reject? {
      return;
    }
    var clocks := [env.asOf, localTime];
    for i := 0 to |clocks|
      invariant forall j :: 0 <= j < i ==> CheckClock(env, clocks[j], zone) == Pass
    {
      var c := CheckClock(env, clocks[i], zone);
      if c.Reject? {
        assert i == 1 ==> CheckClock(env, clocks[0], zone) == Pass;
        return c;
      }
    }
    assert CheckClock(env, clocks[0], zone) == Pass && CheckClock(env, clocks[1], zone) == Pass;
    r := CheckMarket(env);
  }

  // ---------------------------------------------------------------- when a fixed envelope is accepted

  ghost predicate Monotone(zone: Zone) {
    forall a, b :: a <= b ==> zone(a) <= zone(b)
  }

  /** The least of the expiries and the session close. */
  function EvidenceEnd(env: EnvelopeV1): int {
    var p := env.order.position;
    var market := Min(Min(env.rule.validUntil, env.market.calendarValidUntil), Min(env.market.marketValidUntil, env.market.sessionCloseAt));
    if env.order.side == Sell && p.Some? then Min(market, p.value.validUntil) else market
  }

  lemma ClockInWindow(env: EnvelopeV1, clock: int, zone: Zone)
    requires env.asOf <= clock && CheckClock(env, env.asOf, zone) == Pass
    ensures CheckClock(env, clock, zone) == Pass <==> clock < EvidenceEnd(env) && zone(clock) == env.market.tradingDate
  {
  }

  /** Once an envelope is accepted at some clock, only the ends and the local date decide about any other clock. */
  lemma AcceptanceAtClock(env: EnvelopeV1, accepted: int, t: int, zone: Zone)
    requires Validate(env, accepted, zone) == Pass
    ensures zone(env.asOf) == env.market.tradingDate
    ensures Validate(env, t, zone) == Pass <==> env.asOf <= t < EvidenceEnd(env) && zone(t) == env.market.tradingDate
  {
    hide CheckClock, CheckTimeless, CheckMarket, EvidenceEnd;
    ClockInWindow(env, env.asOf, zone);
    if env.asOf <= t {
      ClockInWindow(env, t, zone);
    }
  }

  /** The first instant after the trading date, found between an instant on it and a later date. */
  ghost function DayEnd(zone: Zone, date: int, from: int, later: int): (end: int)
    requires from < later && zone(from) == date < zone(later) && Monotone(zone)
    ensures from < end <= later && forall t {:trigger zone(t)} :: zone(t) > date <==> t >= end
    decreases later - from
  {
    if zone(from + 1) > date then from + 1 else
    assert zone(from) <= zone(from + 1);
    DayEnd(zone, date, from + 1, later)
  }

  /** The times at which a fixed envelope is accepted are one half-open interval: from `asOf` to the least of the expiries, the session close and the end of the trading date. */
  lemma AcceptedTimesAreAnInterval(env: EnvelopeV1, accepted: int, later: int, zone: Zone)
    requires Monotone(zone) && Validate(env, accepted, zone) == Pass
    requires env.asOf < later && zone(later) > env.market.tradingDate
    ensures zone(env.asOf) == env.market.tradingDate
    ensures forall t :: Validate(env, t, zone) == Pass <==>
                          env.asOf <= t < Min(EvidenceEnd(env), DayEnd(zone, env.market.tradingDate, env.asOf, later))
  {
    hide Validate, EvidenceEnd, DayEnd;
    AcceptanceAtClock(env, accepted, env.asOf, zone);
    var dayEnd := DayEnd(zone, env.market.tradingDate, env.asOf, later);
    forall t
      ensures Validate(env, t, zone) == Pass <==> env.asOf <= t < Min(EvidenceEnd(env), dayEnd)
    {
      AcceptanceAtClock(env, accepted, t, zone);
      assert env.asOf <= t ==> zone(env.asOf) <= zone(t);
    }
  }

  /** Acceptance at two clocks implies acceptance at every instant between them; no later date is needed for that. */
  lemma AcceptedBetween(env: EnvelopeV1, first: int, t: int, last: int, zone: Zone)
    requires Monotone(zone) && first <= t <= last
    requires Validate(env, first, zone) == Pass && Validate(env, last, zone) == Pass
    ensures Validate(env, t, zone) == Pass
  {
    hide Validate, EvidenceEnd;
    AcceptanceAtClock(env, first, first, zone);
    AcceptanceAtClock(env, first, t, zone);
    AcceptanceAtClock(env, first, last, zone);
    assert zone(first) <= zone(t) <= zone(last);
  }

  // ---------------------------------------------------------------- which limit prices are accepted

  function WithLimitPrice(env: EnvelopeV1, text: string): EnvelopeV1 {
    env.(order := env.order.(limitPrice := text))
  }

  lemma NumbersWithPrice(env: EnvelopeV1, text: string)
    requires ParseNumbers(env).Ok?
    ensures ParseNumbers(WithLimitPrice(env, text)) ==
            if Number(text, false).Ok? then Ok(ParseNumbers(env).value.(limitPrice := Number(text, false).value)) else Err(Number(text, false).error)
  {
    hide Number, ParseTerms;
  }

  lemma BindingWithPrice(env: EnvelopeV1, text: string)
    ensures CheckBinding(WithLimitPrice(env, text)) == CheckBinding(env)
    ensures CheckOrderPosition(WithLimitPrice(env, text).order) == CheckOrderPosition(env.order)
  {
    hide CheckPosition;
  }

  lemma TimelessWithPrice(env: EnvelopeV1, text: string)
    requires CheckTimeless(env) == Pass
    ensures CheckTimeless(WithLimitPrice(env, text)) == Pass <==> Number(text, false).Ok?
  {
    hide ParseNumbers, Number, CheckOrderPosition, CheckBinding, WithLimitPrice;
    NumbersWithPrice(env, text);
    BindingWithPrice(env, text);
  }

  lemma ClockWithPrice(env: EnvelopeV1, text: string, clock: int, zone: Zone)
    ensures CheckClock(WithLimitPrice(env, text), clock, zone) == CheckClock(env, clock, zone)
  {
  }

  lemma MarketWithPrice(env: EnvelopeV1, text: string)
    requires CheckTimeless(env) == Pass && CheckMarket(env) == Pass && Number(text, false).Ok?
    ensures CheckTimeless(WithLimitPrice(env, text)) == Pass && ParseNumbers(env).Ok?
    ensures CheckMarket(WithLimitPrice(env, text)) == Pass <==>
              && IsMultiple(Number(text, false).value, ParseNumbers(env).value.terms.tick)
              && InBand(ParseNumbers(env).value.terms.band, Number(text, false).value)
  {
    hide *;
    TimelessWithPrice(env, text);
    TimelessMeansNumbers(env);
    NumbersWithPrice(env, text);
    QuantityWithPrice(env, text);
    MarketParts(env);
    MarketIsItsParts(env);
    MarketIsItsParts(WithLimitPrice(env, text));
    StatesWithPrice(env, text);
    PriceMatters(ParseNumbers(env).value.terms, ParseNumbers(env).value.limitPrice, Number(text, false).value);
  }

  lemma ParsedNumbers(env: EnvelopeV1)
    requires ParseNumbers(env).Ok?
    ensures Number(env.order.quantity, false) == Ok(ParseNumbers(env).value.quantity)
    ensures Number(env.order.limitPrice, false) == Ok(ParseNumbers(env).value.limitPrice)
  {
    hide ParseTerms, Number, IsWholeNumber;
  }

  lemma StatesWithPrice(env: EnvelopeV1, text: string)
    ensures WithLimitPrice(env, text).market == env.market && WithLimitPrice(env, text).rule == env.rule
  {
  }

  lemma PriceMatters(terms: Terms, accepted: Decimal, price: Decimal)
    requires !IsZero(terms.tick) && CheckPrices(terms, accepted) == Pass
    ensures CheckPrices(terms, price) == Pass <==> IsMultiple(price, terms.tick) && InBand(terms.band, price)
  {
    hide IsMultiple, InBand;
  }

  lemma MarketIsItsParts(env: EnvelopeV1)
    requires CheckTimeless(env) == Pass && ParseNumbers(env).Ok?
    ensures var n := ParseNumbers(env).value;
            CheckMarket(env) == Pass <==>
              && CheckStates(env.market) == Pass && CheckPrices(n.terms, n.limitPrice) == Pass
              && CheckOrderQuantity(env.order, env.rule.oddLotMode, n.terms, n.quantity) == Pass
  {
    hide ParseNumbers, CheckTimeless, CheckPrices, CheckOrderQuantity, CheckStates;
  }

  lemma QuantityWithPrice(env: EnvelopeV1, text: string)
    requires ParseNumbers(env).Ok?
    ensures var n := ParseNumbers(env).value;
            CheckOrderQuantity(WithLimitPrice(env, text).order, env.rule.oddLotMode, n.terms, n.quantity)
            == CheckOrderQuantity(env.order, env.rule.oddLotMode, n.terms, n.quantity)
  {
    hide ParseNumbers, CheckQuantity, PositionShares;
  }

  lemma ValidateParts(env: EnvelopeV1, localTime: int, zone: Zone)
    ensures Validate(env, localTime, zone) == Pass <==>
              && env.asOf <= localTime && CheckTimeless(env) == Pass
              && CheckClock(env, env.asOf, zone) == Pass && CheckClock(env, localTime, zone) == Pass
              && CheckMarket(env) == Pass
  {
    hide CheckTimeless, CheckClock, CheckMarket;
  }

  lemma MarketParts(env: EnvelopeV1)
    requires CheckTimeless(env) == Pass && CheckMarket(env) == Pass
    ensures ParseNumbers(env).Ok?
    ensures var n := ParseNumbers(env).value;
            CheckPrices(n.terms, n.limitPrice) == Pass && CheckOrderQuantity(env.order, env.rule.oddLotMode, n.terms, n.quantity) == Pass
  {
    TimelessMeansNumbers(env);
    hide ParseNumbers, CheckTimeless, CheckPrices, CheckOrderQuantity;
  }

  /** With all other fields of an accepted envelope fixed, a limit price is accepted exactly when it is a positive wire number on the tick and inside the band. */
  lemma AcceptedLimitPrices(env: EnvelopeV1, text: string, localTime: int, zone: Zone)
    requires Validate(env, localTime, zone) == Pass
    ensures ParseNumbers(env).Ok?
    ensures Validate(WithLimitPrice(env, text), localTime, zone) == Pass <==>
              && Number(text, false).Ok?
              && IsMultiple(Number(text, false).value, ParseNumbers(env).value.terms.tick)
              && InBand(ParseNumbers(env).value.terms.band, Number(text, false).value)
  {
    hide *;
    ValidateParts(env, localTime, zone);
    ValidateParts(WithLimitPrice(env, text), localTime, zone);
    TimelessMeansNumbers(env);
    TimelessWithPrice(env, text);
    ClockWithPrice(env, text, WithLimitPrice(env, text).asOf, zone);
    ClockWithPrice(env, text, localTime, zone);
    SameAsOf(env, text);
    if Number(text, false).Ok? {
      MarketWithPrice(env, text);
    }
  }

  lemma SameAsOf(env: EnvelopeV1, text: string)
    ensures WithLimitPrice(env, text).asOf == env.asOf
  {
  }

  lemma TimelessMeansNumbers(env: EnvelopeV1)
    ensures CheckTimeless(env) == Pass ==> ParseNumbers(env).Ok?
  {
  }
}
