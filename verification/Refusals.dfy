/** What a refusal says: each reject code of the two validators stands for a fact of the envelope that is as the code says. */
module Refusals {
  import opened Outcomes
  import opened Decimals
  import opened DecimalText
  import opened PriceCage
  import opened PriceAnswers
  import opened Constraints
  import opened OddLots
  import opened SubmissionV2
  import opened ParsedAcceptance
  import opened Acceptance
  import opened AcceptanceV2

  // ---------------------------------------------------------------- numbers

  ghost predicate QuantityFault(q: QuantityText, code: string) {
    || (code == "DECIMAL_INVALID" && !(IsPositiveText(q.minimum) && IsPositiveText(q.step) && IsPositiveText(q.maximum)))
    || (code == "QUANTITY_CONSTRAINT_INVALID" &&
          (|| !(IsWhole(TextValue(q.minimum)) && IsWhole(TextValue(q.step)) && IsWhole(TextValue(q.maximum)))
           || TextValue(q.maximum) < TextValue(q.minimum)))
  }

  lemma {:induction false} NumberRefusal(t: string, allowZero: bool)
    ensures Number(t, allowZero).Err? ==> Number(t, allowZero) == Err("DECIMAL_INVALID")
  {
    hide WireDecimalV1, Value;
  }

  lemma {:induction false} QuantityRefusal(q: QuantityText, code: string)
    requires ParseQuantityRule(q) == Err(code)
    ensures QuantityFault(q, code)
  {
    hide IsWireText, ParseText, Value, Number, IsWholeNumber, IsWhole, TextValue, TextShares, Shares, IsZero;
    NumberIsText(q.minimum);
    NumberIsText(q.step);
    NumberIsText(q.maximum);
    NumberRefusal(q.minimum, false);
    NumberRefusal(q.step, false);
    NumberRefusal(q.maximum, false);
    if IsPositiveText(q.minimum) && IsPositiveText(q.step) && IsPositiveText(q.maximum) {
      WholeIsText(q.minimum);
      WholeIsText(q.step);
      WholeIsText(q.maximum);
    }
  }

  predicate BandFault(market: MarketV1, code: string) {
    var lower, upper := market.lowerLimit, market.upperLimit;
    || (code == "BOUNDARY_INVALID" && market.boundaryMode != Limited && (lower.Some? || upper.Some?))
    || (code == "BOUNDARY_INVALID" && market.boundaryMode == Limited && (lower.None? || upper.None? || TextValue(lower.value) > TextValue(upper.value)))
    || (code == "DECIMAL_INVALID" && lower.Some? && upper.Some? && !(IsPositiveText(lower.value) && IsPositiveText(upper.value)))
  }

  lemma {:induction false} BandRefusal(market: MarketV1, code: string)
    requires ParseBand(market) == Err(code)
    ensures BandFault(market, code)
  {
    hide IsWireText, ParseText, Value, Number, TextValue;
    if market.lowerLimit.Some? && market.upperLimit.Some? {
      NumberIsText(market.lowerLimit.value);
      NumberIsText(market.upperLimit.value);
      NumberRefusal(market.lowerLimit.value, false);
      NumberRefusal(market.upperLimit.value, false);
    }
  }

  ghost predicate TermsFault(rule: RuleV1, market: MarketV1, code: string) {
    || QuantityFault(rule.buyQuantity, code) || QuantityFault(rule.sellQuantity, code) || BandFault(market, code)
    || (code == "RULE_INVALID" && rule.oddLotMode == SellOddRemainderOnce && TextValue(rule.sellQuantity.minimum) != TextValue(rule.sellQuantity.step))
    || (code == "DECIMAL_INVALID" && !(IsPositiveText(rule.priceTick) && IsPositiveText(market.referencePrice)))
    || (code == "RULE_WINDOW_INVALID" && rule.effectiveFrom >= rule.validUntil)
    || (code == "SESSION_INTERVAL_INVALID" && market.sessionOpenAt >= market.sessionCloseAt)
  }

  lemma {:induction false} TermsRefusal(rule: RuleV1, market: MarketV1, code: string)
    requires ParseTerms(rule, market) == Err(code)
    ensures TermsFault(rule, market, code)
  {
    hide IsWireText, ParseText, Value, Number, TextValue, ParseQuantityRule, ParseBand, QuantityFault, BandFault, IsWhole, QuantityRule.Sound, IsZero, IsWholeNumber;
    if ParseQuantityRule(rule.buyQuantity).Err? {
      QuantityRefusal(rule.buyQuantity, ParseQuantityRule(rule.buyQuantity).error);
    }
    if ParseQuantityRule(rule.sellQuantity).Err? {
      QuantityRefusal(rule.sellQuantity, ParseQuantityRule(rule.sellQuantity).error);
    } else {
      QuantityParses(rule.sellQuantity);
      NumberIsText(rule.sellQuantity.minimum);
      NumberIsText(rule.sellQuantity.step);
    }
    NumberIsText(rule.priceTick);
    NumberIsText(market.referencePrice);
    NumberRefusal(rule.priceTick, false);
    NumberRefusal(market.referencePrice, false);
    if ParseBand(market).Err? {
      BandRefusal(market, ParseBand(market).error);
    }
  }

  ghost predicate NumbersFault(env: EnvelopeV1, code: string) {
    || TermsFault(env.rule, env.market, code)
    || (code == "ORDER_INVALID" && env.order.accountId <= 0)
    || (code == "DECIMAL_INVALID" && !(IsPositiveText(env.order.quantity) && IsPositiveText(env.order.limitPrice)))
    || (code == "QUANTITY_INVALID" && !IsWhole(TextValue(env.order.quantity)))
  }

  lemma {:induction false} NumbersRefusal(env: EnvelopeV1, code: string)
    requires ParseNumbers(env) == Err(code)
    ensures NumbersFault(env, code)
  {
    hide IsWireText, ParseText, Value, Number, TextValue, ParseTerms, TermsFault, IsWhole, IsWholeNumber, TextShares, Shares;
    if ParseTerms(env.rule, env.market).Err? {
      TermsRefusal(env.rule, env.market, ParseTerms(env.rule, env.market).error);
    }
    NumberIsText(env.order.quantity);
    NumberIsText(env.order.limitPrice);
    NumberRefusal(env.order.quantity, false);
    NumberRefusal(env.order.limitPrice, false);
    if IsPositiveText(env.order.quantity) {
      WholeIsText(env.order.quantity);
    }
  }

  // ---------------------------------------------------------------- position and binding

  ghost predicate PositionFault(order: ConstraintOrder, code: string) {
    order.position.Some? &&
      var p := order.position.value;
      || (code == "POSITION_EVIDENCE_INVALID" &&
            (|| p.accountId <= 0 || (p.completeness == Complete && (p.available.None? || p.restricted.None?))
             || !IsShareField(p.available) || !IsShareField(p.restricted)))
      || (code == "DECIMAL_INVALID" && !(IsShareField(p.available) && IsShareField(p.restricted)))
      || (code == "EVIDENCE_WINDOW_INVALID" && !(p.observedAt <= p.availableAt < p.validUntil))
      || (code == "POSITION_SECURITY_MISMATCH" && order.side == Sell && p.securityId != order.securityId)
      || (code == "POSITION_ACCOUNT_MISMATCH" && order.side == Sell && p.accountId != order.accountId)
  }

  lemma {:induction false} SharesRefusal(t: Option<string>, code: string)
    requires ParseShares(t) == Reject(code)
    ensures !IsShareField(t) && (code == "POSITION_EVIDENCE_INVALID" || code == "DECIMAL_INVALID")
  {
    ShareFieldParses(t);
    if t.Some? {
      NumberRefusal(t.value, true);
    }
    hide Number, IsShareField, IsWholeNumber;
  }

  lemma {:induction false} PositionRefusal(order: ConstraintOrder, code: string)
    requires CheckOrderPosition(order) == Reject(code)
    ensures PositionFault(order, code)
  {
    hide ParseShares, IsShareField;
    var p := order.position.value;
    if ParseShares(p.available).Reject? {
      SharesRefusal(p.available, ParseShares(p.available).code);
    }
    if ParseShares(p.restricted).Reject? {
      SharesRefusal(p.restricted, ParseShares(p.restricted).code);
    }
  }

  predicate BindingFault(env: EnvelopeV1, code: string) {
    var d, rule, market, order := env.decision, env.rule, env.market, env.order;
    || (code == "DECISION_INVALID" && (!Distinct(d.reasonCodes) || d.allowed != (d.reasonCodes == [])))
    || (code == "CONTENT_HASH_MISMATCH" && (rule.contentHash != rule.canonicalHash || market.contentHash != market.canonicalHash))
    || (code == "DECISION_BINDING_MISMATCH" &&
          (d.orderId != order.orderId || d.ruleHash != rule.canonicalHash || d.marketHash != market.canonicalHash))
    || (code == "SERVER_DECISION_DENIED" && !d.allowed)
    || (code == "POSITION_EVIDENCE_MISSING" && order.side == Sell && order.position.None?)
    || (code == "POSITION_EVIDENCE_INCOMPLETE" && order.side == Sell && order.position.Some? && order.position.value.completeness != Complete)
    || (code == "SECURITY_MISMATCH" && (rule.securityId != market.securityId || market.securityId != order.securityId))
    || (code == "RULE_MARKET_MISMATCH" && rule.market != market.market)
    || (code == "RULE_BOARD_MISMATCH" && rule.board != market.board)
  }

  lemma {:induction false} BindingRefusal(env: EnvelopeV1, code: string)
    requires CheckBinding(env) == Reject(code)
    ensures BindingFault(env, code)
  {
    hide Distinct;
  }

  // ---------------------------------------------------------------- clocks

  predicate WindowFault(observedAt: int, availableAt: int, validUntil: int, clock: int, code: string) {
    || (code == "EVIDENCE_WINDOW_INVALID" && observedAt > availableAt)
    || (code == "EVIDENCE_NOT_AVAILABLE" && (observedAt > clock || availableAt > clock))
    || (code == "EVIDENCE_EXPIRED" && clock >= validUntil)
  }

  predicate ClockFault(env: EnvelopeV1, clock: int, zone: Zone, code: string) {
    var rule, market, p := env.rule, env.market, env.order.position;
    || WindowFault(rule.observedAt, rule.availableAt, rule.validUntil, clock, code)
    || WindowFault(market.calendarObservedAt, market.calendarAvailableAt, market.calendarValidUntil, clock, code)
    || WindowFault(market.marketObservedAt, market.marketAvailableAt, market.marketValidUntil, clock, code)
    || (env.order.side == Sell && p.Some? && WindowFault(p.value.observedAt, p.value.availableAt, p.value.validUntil, clock, code))
    || (code == "RULE_NOT_EFFECTIVE" && clock < rule.effectiveFrom)
    || (code == "OUTSIDE_TRADING_DATE" && zone(clock) != market.tradingDate)
    || (code == "OUTSIDE_SESSION" && (clock < market.sessionOpenAt || market.sessionCloseAt <= clock))
  }

  lemma {:induction false} WindowRefusal(observedAt: int, availableAt: int, validUntil: int, clock: int)
    ensures CheckWindow(observedAt, availableAt, validUntil, clock).Reject? ==>
              WindowFault(observedAt, availableAt, validUntil, clock, CheckWindow(observedAt, availableAt, validUntil, clock).code)
  {
  }

  lemma {:induction false} ClockRefusal(env: EnvelopeV1, clock: int, zone: Zone, code: string)
    requires CheckClock(env, clock, zone) == Reject(code)
    ensures ClockFault(env, clock, zone, code)
  {
    hide CheckWindow, WindowFault;
    var rule, market, p := env.rule, env.market, env.order.position;
    WindowRefusal(rule.observedAt, rule.availableAt, rule.validUntil, clock);
    WindowRefusal(market.calendarObservedAt, market.calendarAvailableAt, market.calendarValidUntil, clock);
    WindowRefusal(market.marketObservedAt, market.marketAvailableAt, market.marketValidUntil, clock);
    if env.order.side == Sell && p.Some? {
      WindowRefusal(p.value.observedAt, p.value.availableAt, p.value.validUntil, clock);
    }
  }

  // ---------------------------------------------------------------- market, prices, quantity

  predicate StateFault(market: MarketV1, code: string) {
    || (code == "SESSION_NOT_OPEN" && market.sessionState != SessionOpen)
    || (code == "SECURITY_NOT_TRADING" && market.securityState != Trading)
    || (code == "PRICE_BOUNDARY_UNKNOWN" && market.boundaryMode == BoundaryUnknown)
  }

  predicate IsOutside(band: Option<Band>, price: real) {
    band.Some? && (price < Value(band.value.lower) || Value(band.value.upper) < price)
  }

  ghost predicate PriceFault(terms: Terms, price: Decimal, code: string) {
    || (code == "REFERENCE_PRICE_NOT_ON_TICK" && forall k: int :: !IsTimes(k, Value(terms.reference), Value(terms.tick)))
    || (code == "LIMIT_PRICE_NOT_ON_TICK" && forall k: int :: !IsTimes(k, Value(price), Value(terms.tick)))
    || (code == "REFERENCE_PRICE_OUTSIDE_BOUNDARY" && IsOutside(terms.band, Value(terms.reference)))
    || (code == "LIMIT_PRICE_OUTSIDE_BOUNDARY" && IsOutside(terms.band, Value(price)))
  }

  lemma {:induction false} StateRefusal(market: MarketV1, code: string)
    requires CheckStates(market) == Reject(code)
    ensures StateFault(market, code)
  {
  }

  lemma {:induction false} PriceRefusal(terms: Terms, price: Decimal, code: string)
    requires !IsZero(terms.tick) && CheckPrices(terms, price) == Reject(code)
    ensures PriceFault(terms, price, code)
  {
    IsMultipleIsExact(terms.reference, terms.tick);
    IsMultipleIsExact(price, terms.tick);
    hide IsMultiple, Value, IsTimes, IsZero;
  }

  /** In share counts; an off-step sell that may be odd must have nothing restricted and leave whole steps, or everything. */
  predicate SharesFault(side: Side, q: nat, rule: SellRule, available: nat, restricted: nat, code: string)
    requires rule.step > 0
  {
    var odd := side == Sell && (q % rule.step != 0 || q < rule.minimum);
    || (code == "QUANTITY_ABOVE_MAXIMUM" && q > rule.maximum)
    || (code == "QUANTITY_EXCEEDS_AVAILABLE" && side == Sell && q > available)
    || (code == "QUANTITY_BELOW_MINIMUM" && q < rule.minimum)
    || (code == "QUANTITY_NOT_ON_STEP" && q % rule.step != 0)
    || (code == "POSITION_HAS_RESTRICTED_BALANCE" && odd && rule.mode != Forbid && restricted > 0)
    || (code == "POSITION_NOT_FULL_BALANCE" && odd && rule.mode == SellableBalanceToZero && q != available)
  }

  lemma {:induction false} SharesRefused(
    side: Side, quantity: Decimal, rule: QuantityRule, mode: OddLotMode, available: Decimal, restricted: Decimal, code: string)
    requires rule.Sound() && IsWholeNumber(quantity) && !quantity.negative
    requires IsWholeNumber(available) && !available.negative && IsWholeNumber(restricted) && !restricted.negative
    requires CheckQuantity(side, quantity, rule, mode, available, restricted) == Reject(code)
    ensures Shares(rule.step) > 0
    ensures SharesFault(side, Shares(quantity), SellRule(Shares(rule.minimum), Shares(rule.step), Shares(rule.maximum), mode),
                        Shares(available), Shares(restricted), code)
  {
    hide Value, IsMultiple, ScaledInteger;
    SharesValue(quantity);
    SharesValue(rule.minimum);
    SharesValue(rule.step);
    SharesValue(rule.maximum);
    SharesValue(available);
    SharesValue(restricted);
    StepDecides(quantity, rule.step);
  }

  // ---------------------------------------------------------------- v1

  predicate IsOutsideText(market: MarketV1, price: real) {
    && market.boundaryMode == Limited && market.lowerLimit.Some? && market.upperLimit.Some?
    && (price < TextValue(market.lowerLimit.value) || TextValue(market.upperLimit.value) < price)
  }

  ghost predicate ListingFault(env: EnvelopeV1, code: string) {
    var reference, price, tick := TextValue(env.market.referencePrice), TextValue(env.order.limitPrice), TextValue(env.rule.priceTick);
    || (code == "REFERENCE_PRICE_NOT_ON_TICK" && forall k: int :: !IsTimes(k, reference, tick))
    || (code == "LIMIT_PRICE_NOT_ON_TICK" && forall k: int :: !IsTimes(k, price, tick))
    || (code == "REFERENCE_PRICE_OUTSIDE_BOUNDARY" && IsOutsideText(env.market, reference))
    || (code == "LIMIT_PRICE_OUTSIDE_BOUNDARY" && IsOutsideText(env.market, price))
  }

  function SideRule(env: EnvelopeV1): SellRule {
    var q := if env.order.side == Buy then env.rule.buyQuantity else env.rule.sellQuantity;
    SellRule(TextShares(q.minimum), TextShares(q.step), TextShares(q.maximum), env.rule.oddLotMode)
  }

  predicate AmountFault(env: EnvelopeV1, code: string) {
    var p := env.order.position;
    && SideRule(env).step > 0
    && SharesFault(env.order.side, TextShares(env.order.quantity), SideRule(env), if p.Some? then FieldShares(p.value.available) else 0,
                   if p.Some? then FieldShares(p.value.restricted) else 0, code)
  }

  /** The code stands for a fact of the envelope, or of one of the two clocks. */
  ghost predicate Explains(env: EnvelopeV1, t: int, zone: Zone, code: string) {
    || (code == "SUBMISSION_BEFORE_AS_OF" && t < env.asOf)
    || NumbersFault(env, code) || PositionFault(env.order, code) || BindingFault(env, code)
    || ClockFault(env, env.asOf, zone, code) || ClockFault(env, t, zone, code)
    || StateFault(env.market, code) || ListingFault(env, code) || AmountFault(env, code)
  }

  lemma {:induction false} ListingRefusal(env: EnvelopeV1, code: string)
    requires HasNumbers(env) && ParseNumbers(env).Ok?
    requires CheckPrices(ParseNumbers(env).value.terms, ParseNumbers(env).value.limitPrice) == Reject(code)
    ensures ListingFault(env, code)
  {
    hide *;
    var n := ParseNumbers(env).value;
    NumbersOf(env);
    BandValues(env.market);
    LimitedHasBand(env.market);
    TickIsPositiveNumber(env);
    PriceRefusal(n.terms, n.limitPrice, code);
    ListingFrom(env, n, code);
  }

  lemma {:induction false} TickIsPositiveNumber(env: EnvelopeV1)
    requires ParseNumbers(env).Ok?
    ensures !IsZero(ParseNumbers(env).value.terms.tick)
  {
    hide ParseNumbers, IsZero, QuantityRule.Sound;
  }

  lemma {:induction false} ListingFrom(env: EnvelopeV1, n: Numbers, code: string)
    requires PriceFault(n.terms, n.limitPrice, code) && IsBandText(env.market) && n.terms.band == BandOf(env.market)
    requires Value(n.terms.tick) == TextValue(env.rule.priceTick) && Value(n.terms.reference) == TextValue(env.market.referencePrice)
    requires Value(n.limitPrice) == TextValue(env.order.limitPrice)
    requires env.market.boundaryMode == Limited <==> BandOf(env.market).Some?
    requires env.market.boundaryMode == Limited ==>
               && env.market.lowerLimit.Some? && env.market.upperLimit.Some?
               && Value(BandOf(env.market).value.lower) == TextValue(env.market.lowerLimit.value)
               && Value(BandOf(env.market).value.upper) == TextValue(env.market.upperLimit.value)
    ensures ListingFault(env, code)
  {
    hide Value, TextValue, IsTimes, BandOf, IsBandText;
  }

  lemma {:induction false} LimitedHasBand(market: MarketV1)
    requires IsBandText(market)
    ensures market.boundaryMode == Limited ==> market.lowerLimit.Some? && market.upperLimit.Some?
  {
    hide IsPositiveText, TextValue;
  }

  lemma {:induction false} PositionShareCounts(order: ConstraintOrder)
    requires IsPositioned(order)
    ensures Shares(Available(order)) == if order.position.Some? then FieldShares(order.position.value.available) else 0
    ensures Shares(Restricted(order)) == if order.position.Some? then FieldShares(order.position.value.restricted) else 0
  {
    if order.position.Some? {
      ShareFieldParses(order.position.value.available);
      ShareFieldParses(order.position.value.restricted);
    }
    NothingHasNoShares();
    hide IsShareField, TextShares, ParseText, Shares;
  }

  lemma {:induction false} NothingHasNoShares()
    ensures Shares(ZERO) == 0 && Shares(PositionShares(None)) == 0
  {
  }

  lemma {:induction false} AmountRefusal(env: EnvelopeV1, code: string)
    requires HasNumbers(env) && ParseNumbers(env).Ok? && IsPositioned(env.order)
    requires var n := ParseNumbers(env).value; CheckOrderQuantity(env.order, env.rule.oddLotMode, n.terms, n.quantity) == Reject(code)
    ensures AmountFault(env, code)
  {
    hide *;
    var n := ParseNumbers(env).value;
    SharesOf(env);
    ParsedQuantity(env);
    QuantityIsCheckedBySide(env, n);
    PositionShareCounts(env.order);
    DenotedShares(if env.order.side == Buy then env.rule.buyQuantity else env.rule.sellQuantity, env.order.quantity);
    SharesRefused(env.order.side, n.quantity, if env.order.side == Buy then n.terms.buy else n.terms.sell, env.rule.oddLotMode,
                  Available(env.order), Restricted(env.order), code);
    AmountFrom(env, n, code);
  }

  lemma {:induction false} ParsedQuantity(env: EnvelopeV1)
    requires ParseNumbers(env).Ok?
    ensures var n := ParseNumbers(env).value;
            n.terms.buy.Sound() && n.terms.sell.Sound() && IsWholeNumber(n.quantity) && !n.quantity.negative
  {
    hide ParseNumbers, IsWholeNumber, QuantityRule.Sound;
  }

  lemma {:induction false} QuantityIsCheckedBySide(env: EnvelopeV1, n: Numbers)
    requires n.terms.buy.Sound() && n.terms.sell.Sound() && IsWholeNumber(n.quantity)
    ensures CheckOrderQuantity(env.order, env.rule.oddLotMode, n.terms, n.quantity) ==
              CheckQuantity(env.order.side, n.quantity, if env.order.side == Buy then n.terms.buy else n.terms.sell,
                            env.rule.oddLotMode, Available(env.order), Restricted(env.order))
  {
    hide CheckQuantity, Available, Restricted, QuantityRule.Sound, IsWholeNumber;
  }

  lemma {:induction false} DenotedShares(q: QuantityText, quantity: string)
    requires QuantityDenotes(q) && DenotesShares(quantity)
    ensures DenotesShares(q.minimum) && DenotesShares(q.step) && DenotesShares(q.maximum) && TextShares(q.step) > 0
    ensures IsWireText(q.minimum) && IsWireText(q.step) && IsWireText(q.maximum) && IsWireText(quantity)
  {
    hide IsWireText, IsWholeNumber, ParseText, Shares, TextShares;
  }

  lemma {:induction false} AmountFrom(env: EnvelopeV1, n: Numbers, code: string)
    requires QuantityDenotes(env.rule.buyQuantity) && QuantityDenotes(env.rule.sellQuantity) && DenotesShares(env.order.quantity)
    requires IsWholeNumber(n.quantity) && n.terms.buy.Sound() && n.terms.sell.Sound() && n.quantity == ParseText(env.order.quantity)
    requires n.terms.buy == QuantityRule(ParseText(env.rule.buyQuantity.minimum), ParseText(env.rule.buyQuantity.step), ParseText(env.rule.buyQuantity.maximum))
    requires n.terms.sell == QuantityRule(ParseText(env.rule.sellQuantity.minimum), ParseText(env.rule.sellQuantity.step), ParseText(env.rule.sellQuantity.maximum))
    requires Shares(Available(env.order)) == if env.order.position.Some? then FieldShares(env.order.position.value.available) else 0
    requires Shares(Restricted(env.order)) == if env.order.position.Some? then FieldShares(env.order.position.value.restricted) else 0
    requires var rule := if env.order.side == Buy then n.terms.buy else n.terms.sell;
             && Shares(rule.step) > 0
             && SharesFault(env.order.side, Shares(n.quantity), SellRule(Shares(rule.minimum), Shares(rule.step), Shares(rule.maximum), env.rule.oddLotMode),
                            Shares(Available(env.order)), Shares(Restricted(env.order)), code)
    ensures AmountFault(env, code)
  {
    hide IsWireText, IsWholeNumber, ParseText, Shares, TextShares, SharesFault, Available, Restricted, FieldShares, QuantityRule.Sound;
  }

  /** Whatever the v1 validator refuses with is so. */
  lemma {:induction false} RefusalIsExplained(env: EnvelopeV1, t: int, zone: Zone, code: string)
    requires Validate(env, t, zone) == Reject(code)
    ensures Explains(env, t, zone, code)
  {
    hide *;
    ValidateCode(env, t, zone, code);
    if t < env.asOf {
      ExplainedBy(env, t, zone, code);
    } else if CheckTimeless(env) == Reject(code) {
      TimelessRefusal(env, code);
      ExplainedBy(env, t, zone, code);
    } else if CheckClock(env, env.asOf, zone) == Reject(code) {
      ClockRefusal(env, env.asOf, zone, code);
      ExplainedBy(env, t, zone, code);
    } else if CheckClock(env, t, zone) == Reject(code) {
      ClockRefusal(env, t, zone, code);
      ExplainedBy(env, t, zone, code);
    } else {
      MarketRefusal(env, code);
      ExplainedBy(env, t, zone, code);
    }
  }

  lemma {:induction false} ExplainedBy(env: EnvelopeV1, t: int, zone: Zone, code: string)
    requires || (code == "SUBMISSION_BEFORE_AS_OF" && t < env.asOf)
             || NumbersFault(env, code) || PositionFault(env.order, code) || BindingFault(env, code)
             || ClockFault(env, env.asOf, zone, code) || ClockFault(env, t, zone, code)
             || StateFault(env.market, code) || ListingFault(env, code) || AmountFault(env, code)
    ensures Explains(env, t, zone, code)
  {
    hide NumbersFault, PositionFault, BindingFault, ClockFault, StateFault, ListingFault, AmountFault;
  }

  lemma {:induction false} ValidateCode(env: EnvelopeV1, t: int, zone: Zone, code: string)
    requires Validate(env, t, zone) == Reject(code)
    ensures t < env.asOf ==> code == "SUBMISSION_BEFORE_AS_OF"
    ensures t < env.asOf || CheckTimeless(env) == Reject(code) || CheckClock(env, env.asOf, zone) == Reject(code) || CheckClock(env, t, zone) == Reject(code)
            || (CheckTimeless(env) == Pass && CheckMarket(env) == Reject(code))
  {
    hide CheckTimeless, CheckClock, CheckMarket;
  }

  lemma {:induction false} TimelessRefusal(env: EnvelopeV1, code: string)
    requires CheckTimeless(env) == Reject(code)
    ensures NumbersFault(env, code) || PositionFault(env.order, code) || BindingFault(env, code)
  {
    hide ParseNumbers, CheckOrderPosition, CheckBinding, NumbersFault, PositionFault, BindingFault;
    if ParseNumbers(env).Err? {
      NumbersRefusal(env, code);
    } else if CheckOrderPosition(env.order).Reject? {
      PositionRefusal(env.order, code);
    } else {
      BindingRefusal(env, code);
    }
  }

  lemma {:induction false} MarketRefusal(env: EnvelopeV1, code: string)
    requires CheckTimeless(env) == Pass && CheckMarket(env) == Reject(code)
    ensures StateFault(env.market, code) || ListingFault(env, code) || AmountFault(env, code)
  {
    hide *;
    MarketCode(env, code);
    TimelessIsWellFormed(env);
    WellFormedHasNumbers(env);
    WellFormedIsPositioned(env);
    var n := ParseNumbers(env).value;
    if CheckStates(env.market) == Reject(code) {
      StateRefusal(env.market, code);
    } else if CheckPrices(n.terms, n.limitPrice) == Reject(code) {
      ListingRefusal(env, code);
    } else {
      AmountRefusal(env, code);
    }
  }

  lemma {:induction false} WellFormedIsPositioned(env: EnvelopeV1)
    requires IsWellFormed(env)
    ensures IsPositioned(env.order)
  {
    hide HasNumbers, IsPositioned, IsBoundTogether;
  }

  lemma {:induction false} MarketCode(env: EnvelopeV1, code: string)
    requires CheckTimeless(env) == Pass && CheckMarket(env) == Reject(code)
    ensures ParseNumbers(env).Ok?
    ensures var n := ParseNumbers(env).value;
            || CheckStates(env.market) == Reject(code) || CheckPrices(n.terms, n.limitPrice) == Reject(code)
            || CheckOrderQuantity(env.order, env.rule.oddLotMode, n.terms, n.quantity) == Reject(code)
  {
    TimelessMeansNumbers(env);
    hide ParseNumbers, CheckTimeless, CheckPrices, CheckOrderQuantity, CheckStates;
  }

  // ---------------------------------------------------------------- v2

  predicate OuterFault(env: EnvelopeV2, code: string) {
    var d, rule, market := env.decision, env.rule, env.market;
    || (code == "CONTENT_HASH_MISMATCH" && (rule.contentHash != rule.canonicalHash || market.contentHash != market.canonicalHash))
    || (code == "DECISION_INVALID" && (!Distinct(d.reasonCodes) || d.allowed != (d.reasonCodes == [])))
    || (code == "DECISION_BINDING_MISMATCH" &&
          (d.orderId != env.order.orderId || d.ruleHash != rule.canonicalHash || d.marketHash != market.canonicalHash))
    || (code == "SERVER_DECISION_DENIED" && !d.allowed)
  }

  lemma {:induction false} OuterRefusal(env: EnvelopeV2, code: string)
    requires CheckOuterBinding(env) == Reject(code)
    ensures OuterFault(env, code)
  {
    hide Distinct;
  }

  predicate QuoteFault(q: QuoteText, code: string) {
    || (code == "DECIMAL_INVALID" && q.state == Present && (q.value.None? || !IsPositiveText(q.value.value)))
    || (code == "PRICE_CAGE_INVALID_QUOTE" && q.state != Present && q.value.Some?)
  }

  lemma {:induction false} QuoteRefusal(q: QuoteText)
    ensures ParseQuote(q).Err? ==> QuoteFault(q, ParseQuote(q).error)
  {
    hide NumberV2, IsWireText, ParseText, Value, TextValue, IsPositive;
    if q.value.Some? {
      NumberV2IsText(q.value.value);
      NumberV2Refusal(q.value.value, false);
      if IsPositiveText(q.value.value) {
        TextIsPrintable(q.value.value);
      }
    }
  }

  lemma {:induction false} NumberV2Refusal(t: string, allowZero: bool)
    ensures NumberV2(t, allowZero).Err? ==> NumberV2(t, allowZero) == Err("DECIMAL_INVALID")
  {
    hide WireDecimal;
  }

  predicate RangeTextFault(r: RangeRuleText, code: string) {
    || (code == "DECIMAL_INVALID" && !(IsPositiveText(r.priceTick) && IsNumberText(r.buyDeviationRatio) && IsNumberText(r.sellDeviationRatio)))
    || (code == "PRICE_CAGE_INVALID_RULE" && !IsRangeText(r))
  }

  lemma {:induction false} RangeRuleRefusal(r: RangeRuleText)
    ensures ParseRangeRule(r).Err? ==> RangeTextFault(r, ParseRangeRule(r).error)
  {
    RangeRuleParses(r);
    hide NumberV2, ValidRule, IsRangeText, IsNumberText, TextValue;
    NumberV2IsText(r.priceTick);
    NumberV2IsText(r.buyDeviationRatio);
    NumberV2IsText(r.sellDeviationRatio);
    NumberV2Refusal(r.priceTick, false);
    NumberV2Refusal(r.buyDeviationRatio, true);
    NumberV2Refusal(r.sellDeviationRatio, true);
  }

  /** The range cannot be calculated from valid quotes, for the reason that the code names. */
  ghost predicate RangeFault(rule: RangeRule, side: Side, quotes: Quotes, code: string) {
    || (code == "SUBMISSION_REFERENCE_QUOTE_MISSING" && AreAbsent(quotes))
    || (exists source :: IsUsed(quotes, side, source) &&
          (|| (code == "SUBMISSION_REFERENCE_QUOTE_UNKNOWN" && QuoteNamed(quotes, source).state == QuoteUnknown)
           || (&& code == "SUBMISSION_REFERENCE_PRICE_NOT_ON_TICK" && QuoteNamed(quotes, source).value.Some?
               && forall k: int :: !IsTimes(k, Value(QuoteNamed(quotes, source).value.value), Value(rule.priceTick)))
           || (&& code == "PRICE_CAGE_BOUNDARY_INVALID" && QuoteNamed(quotes, source).value.Some?
               && exists R: int :: IsTimes(R, Value(QuoteNamed(quotes, source).value.value), Value(rule.priceTick))
                    && !IsWritable(ClosedFormTicks(rule, side, R), Value(rule.priceTick)))))
  }

  lemma {:induction false} RangeRefusal(rule: RangeRule, side: Side, quotes: Quotes)
    requires ValidRule(rule) && ValidQuotes(quotes)
    ensures var d := Range(rule, side, Continuous, quotes);
            d.status != Calculated ==> RangeFault(rule, side, quotes, CageCode(d.reason))
  {
    hide *;
    var d := Range(rule, side, Continuous, quotes);
    if AreAbsent(quotes) {
      RangeWithout(rule, side, Continuous, quotes);
      ReasonsAreExact(rule, side, Continuous, quotes);
      CodeOfMissing(rule, side, quotes, d.reason);
    } else {
      var source := SomeIsUsed(quotes, side);
      RangeOnUsed(rule, side, quotes, source);
      if QuoteNamed(quotes, source).state == QuoteUnknown {
        CodeOfUnknown(rule, side, quotes, source);
      } else if d.status != Calculated {
        var reference := QuoteNamed(quotes, source).value.value;
        DecidedOn(rule, side, source, reference);
        CodeOfReference(rule, side, quotes, source, d.reason);
      }
    }
  }

  lemma {:induction false} CodeOfMissing(rule: RangeRule, side: Side, quotes: Quotes, reason: Option<RangeReason>)
    requires AreAbsent(quotes) && reason == Some(NoReferenceQuote)
    ensures RangeFault(rule, side, quotes, CageCode(reason))
  {
  }

  lemma {:induction false} CodeOfUnknown(rule: RangeRule, side: Side, quotes: Quotes, source: QuoteSource)
    requires IsUsed(quotes, side, source) && QuoteNamed(quotes, source).state == QuoteUnknown
    ensures RangeFault(rule, side, quotes, CageCode(Some(ReferenceQuoteUnknown)))
  {
    hide IsUsed;
  }

  lemma {:induction false} CodeOfReference(rule: RangeRule, side: Side, quotes: Quotes, source: QuoteSource, reason: Option<RangeReason>)
    requires ValidRule(rule) && IsUsed(quotes, side, source) && QuoteNamed(quotes, source).value.Some?
    requires IsPositive(QuoteNamed(quotes, source).value.value)
    requires var x, tick := Value(QuoteNamed(quotes, source).value.value), Value(rule.priceTick);
             && reason in {Some(ReferencePriceNotOnTick), Some(CalculatedBoundaryOutOfRange)}
             && (reason == Some(ReferencePriceNotOnTick) <==> forall k: int :: !IsTimes(k, x, tick))
             && (forall R: int :: IsTimes(R, x, tick) ==>
                   (reason.None? <==> Components(TickMultiple(ClosedFormTicks(rule, side, R), rule.priceTick), false).Ok?))
    ensures RangeFault(rule, side, quotes, CageCode(reason))
  {
    hide *;
    var reference := QuoteNamed(quotes, source).value.value;
    if reason == Some(ReferencePriceNotOnTick) {
      OffTickFault(rule, side, quotes, source);
    } else {
      var R: int :| IsTimes(R, Value(reference), Value(rule.priceTick));
      IsPositiveTick(rule);
      PositiveValue(rule.priceTick);
      PositiveValue(reference);
      PositiveQuotient(R, Value(reference), Value(rule.priceTick));
      PositiveClosedForm(rule, side, R);
      WritableIsPrintable(rule, ClosedFormTicks(rule, side, R));
      BoundaryFault(rule, side, quotes, source, R);
    }
  }

  lemma {:induction false} OffTickFault(rule: RangeRule, side: Side, quotes: Quotes, source: QuoteSource)
    requires IsUsed(quotes, side, source) && QuoteNamed(quotes, source).value.Some?
    requires forall k: int :: !IsTimes(k, Value(QuoteNamed(quotes, source).value.value), Value(rule.priceTick))
    ensures RangeFault(rule, side, quotes, CageCode(Some(ReferencePriceNotOnTick)))
  {
    hide IsUsed, Value, IsTimes, QuoteNamed;
  }

  lemma {:induction false} BoundaryFault(rule: RangeRule, side: Side, quotes: Quotes, source: QuoteSource, R: int)
    requires IsUsed(quotes, side, source) && QuoteNamed(quotes, source).value.Some?
    requires IsTimes(R, Value(QuoteNamed(quotes, source).value.value), Value(rule.priceTick))
    requires !IsWritable(ClosedFormTicks(rule, side, R), Value(rule.priceTick))
    ensures RangeFault(rule, side, quotes, CageCode(Some(CalculatedBoundaryOutOfRange)))
  {
    hide IsUsed, Value, IsTimes, QuoteNamed, IsWritable, ClosedFormTicks;
  }

  ghost predicate CageFault(env: EnvelopeV2, code: string) {
    var r, base, stages := env.rule.range, env.rule.base, env.rule.allowedStages;
    || RangeTextFault(r, code)
    || (code == "SUBMISSION_STAGE_INVALID" && (|stages| > 1 || exists stage <- stages :: stage != Continuous))
    || (code == "DECIMAL_INVALID" && !IsPositiveText(base.priceTick))
    || (code == "PRICE_CAGE_INVALID_RULE" && (r.market != base.market || r.board != base.board || TextValue(r.priceTick) != TextValue(base.priceTick)))
    || (code == "SUBMISSION_STAGE_NOT_ALLOWED" && (env.market.stage != Continuous || Continuous !in stages))
    || QuoteFault(env.market.ask, code) || QuoteFault(env.market.bid, code)
    || QuoteFault(env.market.latest, code) || QuoteFault(env.market.previousClose, code)
    || (IsRangeText(r) && AreQuoteTexts(env.market) && RangeFault(RangeRuleOf(r), env.order.side, ParsedQuotes(env.market), code))
  }

  lemma {:induction false} StageRefusal(stages: seq<Stage>)
    ensures CheckAllowedStages(stages).Reject? ==> |stages| > 1 || exists stage <- stages :: stage != Continuous
  {
  }

  lemma {:induction false} QuotesRefusal(market: MarketV2, code: string)
    requires ParseQuotes(market) == Err(code)
    ensures QuoteFault(market.ask, code) || QuoteFault(market.bid, code) || QuoteFault(market.latest, code) || QuoteFault(market.previousClose, code)
  {
    hide ParseQuote, QuoteFault;
    QuoteRefusal(market.ask);
    QuoteRefusal(market.bid);
    QuoteRefusal(market.latest);
    QuoteRefusal(market.previousClose);
  }

  lemma {:induction false} CageRefusal(env: EnvelopeV2, code: string)
    requires Cage(env) == Err(code)
    ensures CageFault(env, code)
  {
    hide IsRangeText, AreQuoteTexts, ParseRangeRule, ParseQuotes, NumberV2, TextValue, Value, Range, ValidDecision, CageCode, ValidRule, ValidQuotes,
      ParsedQuotes, IsPositiveText, CheckAllowedStages, ParseText, QuoteFault, RangeTextFault, RangeFault, IsWireText;
    RangeRuleRefusal(env.rule.range);
    RangeRuleParses(env.rule.range);
    StageRefusal(env.rule.allowedStages);
    NumberV2IsText(env.rule.base.priceTick);
    NumberV2Refusal(env.rule.base.priceTick, false);
    QuotesParse(env.market);
    if ParseQuotes(env.market).Err? {
      QuotesRefusal(env.market, ParseQuotes(env.market).error);
    }
    if IsRangeText(env.rule.range) {
      RangeTick(env.rule.range);
      PositiveTextIsNumber(env.rule.base.priceTick);
      if AreQuoteTexts(env.market) {
        var rule, quotes := RangeRuleOf(env.rule.range), ParsedQuotes(env.market);
        RangeRefusal(rule, env.order.side, quotes);
        DecisionsAreValid(rule, env.order.side, Continuous, quotes);
        if Range(rule, env.order.side, Continuous, quotes).status == Calculated {
          CalculatedHasPrices(Range(rule, env.order.side, Continuous, quotes));
        }
      }
    }
  }

  ghost predicate SubmissionFault(env: EnvelopeV2, code: string) {
    || CageFault(env, code) || BandFault(env.market.base, code)
    || (code == "DECIMAL_INVALID" && !IsPositiveText(env.order.limitPrice))
    || (Cage(env).Ok? && IsBandText(env.market.base) &&
          (|| (code == "SUBMISSION_REFERENCE_PRICE_OUTSIDE_BOUNDARY" && IsOutside(BandOf(env.market.base), Value(Cage(env).value.reference)))
           || (code == "LIMIT_PRICE_OUTSIDE_SUBMISSION_RANGE" &&
                 if env.order.side == Buy then TextValue(env.order.limitPrice) > Value(Cage(env).value.boundary)
                 else TextValue(env.order.limitPrice) < Value(Cage(env).value.boundary))))
  }

  lemma {:induction false} SubmissionRefusal(env: EnvelopeV2, code: string)
    requires CheckPriceSubmission(env) == Reject(code)
    ensures SubmissionFault(env, code)
  {
    hide Cage, ParseBand, NumberV2, TextValue, Value, IsBandText, BandOf, IsPositiveText, CageFault, BandFault, IsWireText, ParseText;
    if Cage(env).Err? {
      CageRefusal(env, code);
    } else if ParseBand(env.market.base).Err? {
      BandRefusal(env.market.base, code);
    } else {
      BandParses(env.market.base);
      NumberV2IsText(env.order.limitPrice);
      NumberV2Refusal(env.order.limitPrice, false);
      PositiveTextIsNumber(env.order.limitPrice);
    }
  }

  /** Whatever the v2 validator refuses with is so: of the outer binding, of the inner envelope, or of the price submission. */
  lemma {:induction false} RefusalIsExplainedV2(env: EnvelopeV2, t: int, zone: Zone, code: string)
    requires ValidateV2(env, t, zone) == Reject(code)
    ensures OuterFault(env, code) || Explains(DerivedV1(env), t, zone, code) || SubmissionFault(env, code)
  {
    hide CheckOuterBinding, Validate, CheckPriceSubmission, OuterFault, Explains, SubmissionFault;
    if CheckOuterBinding(env) == Reject(code) {
      OuterRefusal(env, code);
    } else if Validate(DerivedV1(env), t, zone) == Reject(code) {
      RefusalIsExplained(DerivedV1(env), t, zone, code);
    } else {
      SubmissionRefusal(env, code);
    }
  }
}
