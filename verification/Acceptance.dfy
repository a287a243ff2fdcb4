/** What the validators accept, stated on the fields as they come: texts and the exact numbers they denote, times, and share counts. */
module Acceptance {
  import opened Outcomes
  import opened Decimals
  import opened DecimalText
  import opened PriceCage
  import opened Constraints
  import opened OddLots
  import opened SubmissionV2
  import opened ParsedAcceptance

  // ---------------------------------------------------------------- texts

  predicate IsNumberText(t: string) {
    IsWireText(t) && |t| <= 257
  }

  /** The exact number that a text denotes. */
  function TextValue(t: string): (x: real)
    ensures x >= 0.0
  {
    if IsWireText(t) then WireTextIsNonnegative(t); Value(ParseText(t)) else 0.0
  }

  lemma {:induction false} WireTextIsNonnegative(t: string)
    requires IsWireText(t)
    ensures Value(ParseText(t)) >= 0.0
  {
    ParsedIsUnsigned(t);
    SignOfValue(ParseText(t));
    hide Value, ParseText;
  }

  predicate IsPositiveText(t: string) {
    IsNumberText(t) && TextValue(t) > 0.0
  }

  ghost predicate IsWhole(x: real) {
    exists k: int :: IsTimes(k, x, 1.0)
  }

  /** The share count that a text denotes. */
  function TextShares(t: string): nat {
    TextValue(t).Floor
  }

  lemma {:induction false} NumberIsText(t: string)
    ensures Number(t, false).Ok? <==> IsPositiveText(t)
    ensures Number(t, true).Ok? <==> IsNumberText(t)
    ensures Number(t, false).Ok? ==> Number(t, false) == Ok(ParseText(t))
    ensures Number(t, true).Ok? ==> Number(t, true) == Ok(ParseText(t))
    ensures IsWireText(t) ==> TextValue(t) == Value(ParseText(t))
  {
    NumbersAgree(t, true);
    NumbersAgree(t, false);
    if IsWireText(t) {
      SignOfValue(ParseText(t));
    }
    hide IsWireText, ParseText, Value, Number, IsZero;
  }

  lemma {:induction false} WholeIsText(t: string)
    requires IsWireText(t)
    ensures IsWholeNumber(ParseText(t)) <==> IsWhole(TextValue(t))
    ensures IsWholeNumber(ParseText(t)) ==> Shares(ParseText(t)) == TextShares(t)
  {
    WholeNumberIsExact(t);
    ParsedIsUnsigned(t);
    if IsWholeNumber(ParseText(t)) {
      SharesValue(ParseText(t));
    }
    hide IsWireText, ParseText, Value, Shares, IsTimes, IsWholeNumber;
  }

  // ---------------------------------------------------------------- well-formed envelopes

  ghost predicate IsShareText(t: string) {
    IsPositiveText(t) && IsWhole(TextValue(t))
  }

  ghost predicate IsQuantityText(q: QuantityText) {
    IsShareText(q.minimum) && IsShareText(q.step) && IsShareText(q.maximum) && TextValue(q.minimum) <= TextValue(q.maximum)
  }

  predicate IsBandText(market: MarketV1) {
    if market.boundaryMode == Limited then
      && market.lowerLimit.Some? && market.upperLimit.Some?
      && IsPositiveText(market.lowerLimit.value) && IsPositiveText(market.upperLimit.value)
      && TextValue(market.lowerLimit.value) <= TextValue(market.upperLimit.value)
    else market.lowerLimit.None? && market.upperLimit.None?
  }

  /** The rule and the market evidence write their numbers as such, and the numbers fit together. */
  ghost predicate HasTerms(rule: RuleV1, market: MarketV1) {
    && IsQuantityText(rule.buyQuantity) && IsQuantityText(rule.sellQuantity)
    && (rule.oddLotMode == SellOddRemainderOnce ==> TextValue(rule.sellQuantity.minimum) == TextValue(rule.sellQuantity.step))
    && IsPositiveText(rule.priceTick) && IsPositiveText(market.referencePrice) && IsBandText(market)
    && rule.effectiveFrom < rule.validUntil && market.sessionOpenAt < market.sessionCloseAt
  }

  ghost predicate HasNumbers(env: EnvelopeV1) {
    HasTerms(env.rule, env.market) && env.order.accountId > 0 && IsShareText(env.order.quantity) && IsPositiveText(env.order.limitPrice)
  }

  ghost predicate IsShareField(t: Option<string>) {
    t.Some? ==> IsNumberText(t.value) && IsWhole(TextValue(t.value))
  }

  /** A position, where there is one, is evidence in itself; that of a sell is of the order's security and account. */
  ghost predicate IsPositioned(order: ConstraintOrder) {
    order.position.Some? ==>
      var p := order.position.value;
      && p.accountId > 0 && (p.completeness == Complete ==> p.available.Some? && p.restricted.Some?)
      && IsShareField(p.available) && IsShareField(p.restricted)
      && p.observedAt <= p.availableAt < p.validUntil
      && (order.side == Sell ==> p.securityId == order.securityId && p.accountId == order.accountId)
  }

  /** The decision allows this order under this rule and this evidence, which are of one security, market and board; a sell has complete position evidence. */
  predicate IsBoundTogether(env: EnvelopeV1) {
    && env.decision.allowed && env.decision.reasonCodes == []
    && env.decision.orderId == env.order.orderId
    && env.decision.ruleHash == env.rule.contentHash == env.rule.canonicalHash
    && env.decision.marketHash == env.market.contentHash == env.market.canonicalHash
    && env.rule.securityId == env.market.securityId == env.order.securityId
    && env.rule.market == env.market.market && env.rule.board == env.market.board
    && (env.order.side == Sell ==> env.order.position.Some? && env.order.position.value.completeness == Complete)
  }

  ghost predicate IsWellFormed(env: EnvelopeV1) {
    HasNumbers(env) && IsPositioned(env.order) && IsBoundTogether(env)
  }

  lemma {:induction false} QuantityParses(q: QuantityText)
    ensures ParseQuantityRule(q).Ok? <==> IsQuantityText(q)
    ensures ParseQuantityRule(q).Ok? ==>
              ParseQuantityRule(q) == Ok(QuantityRule(ParseText(q.minimum), ParseText(q.step), ParseText(q.maximum)))
  {
    hide IsWireText, ParseText, Value, Number, IsWholeNumber, IsWhole, TextValue, TextShares, Shares, IsZero;
    NumberIsText(q.minimum);
    NumberIsText(q.step);
    NumberIsText(q.maximum);
    if IsPositiveText(q.minimum) && IsPositiveText(q.step) && IsPositiveText(q.maximum) {
      WholeIsText(q.minimum);
      WholeIsText(q.step);
      WholeIsText(q.maximum);
    }
  }

  function BandOf(market: MarketV1): Option<Band>
    requires IsBandText(market)
  {
    if market.boundaryMode == Limited then Some(Band(ParseText(market.lowerLimit.value), ParseText(market.upperLimit.value))) else None
  }

  lemma {:induction false} BandParses(market: MarketV1)
    ensures ParseBand(market).Ok? <==> IsBandText(market)
    ensures ParseBand(market).Ok? ==> ParseBand(market) == Ok(BandOf(market))
  {
    hide IsWireText, ParseText, Value, Number, TextValue;
    if market.lowerLimit.Some? && market.upperLimit.Some? {
      NumberIsText(market.lowerLimit.value);
      NumberIsText(market.upperLimit.value);
    }
  }

  function TermsOf(rule: RuleV1, market: MarketV1): Terms
    requires IsBandText(market)
    requires IsWireText(rule.buyQuantity.minimum) && IsWireText(rule.buyQuantity.step) && IsWireText(rule.buyQuantity.maximum)
    requires IsWireText(rule.sellQuantity.minimum) && IsWireText(rule.sellQuantity.step) && IsWireText(rule.sellQuantity.maximum)
    requires IsWireText(rule.priceTick) && IsWireText(market.referencePrice)
  {
    Terms(QuantityRule(ParseText(rule.buyQuantity.minimum), ParseText(rule.buyQuantity.step), ParseText(rule.buyQuantity.maximum)),
          QuantityRule(ParseText(rule.sellQuantity.minimum), ParseText(rule.sellQuantity.step), ParseText(rule.sellQuantity.maximum)),
          ParseText(rule.priceTick), ParseText(market.referencePrice), BandOf(market))
  }

  lemma {:induction false} TermsParse(rule: RuleV1, market: MarketV1)
    ensures ParseTerms(rule, market).Ok? <==> HasTerms(rule, market)
    ensures HasTerms(rule, market) ==> ParseTerms(rule, market) == Ok(TermsOf(rule, market))
  {
    hide IsWireText, ParseText, Value, Number, TextValue, ParseQuantityRule, ParseBand, IsBandText, BandOf, IsWhole, QuantityRule.Sound, IsZero;
    QuantityParses(rule.buyQuantity);
    QuantityParses(rule.sellQuantity);
    NumberIsText(rule.priceTick);
    NumberIsText(market.referencePrice);
    if IsQuantityText(rule.sellQuantity) {
      NumberIsText(rule.sellQuantity.minimum);
      NumberIsText(rule.sellQuantity.step);
    }
    BandParses(market);
  }

  lemma {:induction false} NumbersParse(env: EnvelopeV1)
    ensures ParseNumbers(env).Ok? <==> HasNumbers(env)
    ensures HasNumbers(env) ==>
              ParseNumbers(env) == Ok(Numbers(TermsOf(env.rule, env.market), ParseText(env.order.quantity), ParseText(env.order.limitPrice)))
  {
    hide IsWireText, ParseText, Value, Number, TextValue, ParseTerms, TermsOf, IsWhole, IsBandText, IsQuantityText, IsWholeNumber, TextShares, Shares;
    TermsParse(env.rule, env.market);
    NumberIsText(env.order.quantity);
    NumberIsText(env.order.limitPrice);
    if IsPositiveText(env.order.quantity) {
      WholeIsText(env.order.quantity);
    }
  }

  lemma {:induction false} ShareFieldParses(t: Option<string>)
    ensures ParseShares(t) == Pass <==> IsShareField(t)
    ensures IsShareField(t) && t.Some? ==> PositionShares(t) == ParseText(t.value) && Shares(PositionShares(t)) == TextShares(t.value)
  {
    if t.Some? {
      NumberIsText(t.value);
      if IsWireText(t.value) {
        WholeIsText(t.value);
      }
    }
    hide IsWireText, ParseText, Value, Number, TextValue, IsWholeNumber, IsWhole, TextShares, Shares;
  }

  lemma {:induction false} PositionParses(order: ConstraintOrder)
    ensures CheckOrderPosition(order) == Pass <==> IsPositioned(order)
  {
    hide IsShareField, ParseShares;
    if order.position.Some? {
      ShareFieldParses(order.position.value.available);
      ShareFieldParses(order.position.value.restricted);
    }
  }

  lemma {:induction false} BindingHolds(env: EnvelopeV1)
    ensures CheckBinding(env) == Pass <==> IsBoundTogether(env)
  {
  }

  lemma {:induction false} TimelessIsWellFormed(env: EnvelopeV1)
    ensures CheckTimeless(env) == Pass <==> IsWellFormed(env)
  {
    NumbersParse(env);
    PositionParses(env.order);
    BindingHolds(env);
    hide ParseNumbers, HasNumbers, CheckOrderPosition, IsPositioned, CheckBinding, IsBoundTogether, TermsOf;
  }

  // ---------------------------------------------------------------- v1

  /** A whole number of ticks, inside the daily band where prices are limited. */
  ghost predicate IsListedPrice(price: real, env: EnvelopeV1)
    requires IsBandText(env.market)
  {
    && (exists k: int :: IsTimes(k, price, TextValue(env.rule.priceTick)))
    && (env.market.boundaryMode == Limited ==> TextValue(env.market.lowerLimit.value) <= price <= TextValue(env.market.upperLimit.value))
  }

  function FieldShares(t: Option<string>): nat {
    if t.Some? then TextShares(t.value) else 0
  }

  function SellRuleOf(rule: RuleV1): SellRule {
    SellRule(TextShares(rule.sellQuantity.minimum), TextShares(rule.sellQuantity.step), TextShares(rule.sellQuantity.maximum), rule.oddLotMode)
  }

  /** The share counts satisfy the rule of the side. */
  predicate IsPermittedQuantity(env: EnvelopeV1) {
    var q, buy, p := TextShares(env.order.quantity), env.rule.buyQuantity, env.order.position;
    if env.order.side == Buy then
      TextShares(buy.step) > 0 && q % TextShares(buy.step) == 0 && TextShares(buy.minimum) <= q <= TextShares(buy.maximum)
    else
      && SellRuleOf(env.rule).Valid() && p.Some?
      && AcceptsSell(SellRuleOf(env.rule), FieldShares(p.value.available), FieldShares(p.value.restricted), q)
  }

  /** A well-formed envelope that is timely, of an open market, at prices and a quantity that its rule permits. */
  ghost predicate IsAdmissible(env: EnvelopeV1, t: int, zone: Zone) {
    && IsWellFormed(env) && IsTimely(env, t, zone) && IsOpen(env.market)
    && IsListedPrice(TextValue(env.market.referencePrice), env) && IsListedPrice(TextValue(env.order.limitPrice), env)
    && IsPermittedQuantity(env)
  }

  lemma {:induction false} BandValues(market: MarketV1)
    requires IsBandText(market)
    ensures market.boundaryMode == Limited <==> BandOf(market).Some?
    ensures market.boundaryMode == Limited ==>
              && Value(BandOf(market).value.lower) == TextValue(market.lowerLimit.value)
              && Value(BandOf(market).value.upper) == TextValue(market.upperLimit.value)
  {
    hide IsWireText, ParseText, Value;
  }

  /** The numbers of a well-formed envelope, under their texts. */
  lemma {:induction false} NumbersOf(env: EnvelopeV1)
    requires HasNumbers(env)
    ensures ParseNumbers(env).Ok? && IsBandText(env.market)
    ensures var n := ParseNumbers(env).value;
            && Value(n.terms.tick) == TextValue(env.rule.priceTick) && n.terms.band == BandOf(env.market)
            && Value(n.terms.reference) == TextValue(env.market.referencePrice)
            && Value(n.limitPrice) == TextValue(env.order.limitPrice)
  {
    hide ParseNumbers, IsWireText, ParseText, Value, IsQuantityText, IsBandText, BandOf, IsWhole;
    NumbersParse(env);
  }

  lemma {:induction false} PriceIsListed(env: EnvelopeV1, price: real, tick: real, band: Option<Band>)
    requires IsBandText(env.market) && tick == TextValue(env.rule.priceTick) && band == BandOf(env.market)
    ensures IsMarketPrice(price, tick, band) <==> IsListedPrice(price, env)
  {
    hide IsBandText, BandOf, Value, TextValue, IsTimes;
    BandValues(env.market);
  }

  /** The text is a share count, the same whether it is parsed first or read as a number. */
  predicate DenotesShares(t: string) {
    IsWireText(t) && IsWholeNumber(ParseText(t)) && Shares(ParseText(t)) == TextShares(t)
  }

  lemma {:induction false} ShareTextDenotes(t: string)
    requires IsShareText(t)
    ensures DenotesShares(t) && TextShares(t) > 0
  {
    hide IsWireText, ParseText, Value, Shares, IsWholeNumber, IsWhole, TextShares;
    NumberIsText(t);
    WholeIsText(t);
    SharesValue(ParseText(t));
    ParsedIsUnsigned(t);
  }

  predicate QuantityDenotes(q: QuantityText) {
    DenotesShares(q.minimum) && DenotesShares(q.step) && DenotesShares(q.maximum) && TextShares(q.step) > 0
  }

  lemma {:induction false} QuantityTextDenotes(q: QuantityText)
    requires IsQuantityText(q)
    ensures QuantityDenotes(q)
  {
    hide IsShareText, DenotesShares, TextShares, TextValue;
    ShareTextDenotes(q.minimum);
    ShareTextDenotes(q.step);
    ShareTextDenotes(q.maximum);
  }

  /** The parsed share counts of a well-formed envelope are those that its texts denote. */
  lemma {:induction false} SharesOf(env: EnvelopeV1)
    requires HasNumbers(env)
    ensures ParseNumbers(env).Ok? && QuantityDenotes(env.rule.buyQuantity) && QuantityDenotes(env.rule.sellQuantity) && DenotesShares(env.order.quantity)
    ensures var n := ParseNumbers(env).value;
            && n.quantity == ParseText(env.order.quantity)
            && n.terms.buy == QuantityRule(ParseText(env.rule.buyQuantity.minimum), ParseText(env.rule.buyQuantity.step), ParseText(env.rule.buyQuantity.maximum))
            && n.terms.sell == QuantityRule(ParseText(env.rule.sellQuantity.minimum), ParseText(env.rule.sellQuantity.step), ParseText(env.rule.sellQuantity.maximum))
  {
    hide ParseNumbers, IsShareText, IsWireText, IsWholeNumber, Shares, ParseText, TextShares, IsBandText, BandOf, TextValue, IsPositiveText;
    NumbersParse(env);
    QuantityTextDenotes(env.rule.buyQuantity);
    QuantityTextDenotes(env.rule.sellQuantity);
    ShareTextDenotes(env.order.quantity);
  }

  lemma {:induction false} PositionOf(env: EnvelopeV1)
    requires IsWellFormed(env) && env.order.side == Sell
    ensures env.order.position.Some?
    ensures Shares(Available(env.order)) == FieldShares(env.order.position.value.available)
    ensures Shares(Restricted(env.order)) == FieldShares(env.order.position.value.restricted)
  {
    hide HasNumbers, IsShareField, Shares, TextShares, PositionShares, ParseText;
    ShareFieldParses(env.order.position.value.available);
    ShareFieldParses(env.order.position.value.restricted);
  }

  lemma {:induction false} QuantityIsText(env: EnvelopeV1)
    requires IsWellFormed(env)
    ensures ParseNumbers(env).Ok?
    ensures IsParsedQuantity(env, ParseNumbers(env).value) <==> IsPermittedQuantity(env)
  {
    hide *;
    WellFormedHasNumbers(env);
    SharesOf(env);
    ParsedSound(env);
    if env.order.side == Sell {
      PositionOf(env);
    }
    SameQuantity(env, ParseNumbers(env).value);
  }

  lemma {:induction false} ParsedSound(env: EnvelopeV1)
    requires ParseNumbers(env).Ok?
    ensures var n := ParseNumbers(env).value; n.terms.buy.Sound() && n.terms.sell.Sound() && IsWholeNumber(n.quantity)
  {
    hide ParseNumbers, IsWholeNumber, QuantityRule.Sound;
  }

  lemma {:induction false} SameQuantity(env: EnvelopeV1, n: Numbers)
    requires n.terms.buy.Sound() && n.terms.sell.Sound() && IsWholeNumber(n.quantity)
    requires QuantityDenotes(env.rule.buyQuantity) && QuantityDenotes(env.rule.sellQuantity) && DenotesShares(env.order.quantity)
    requires n.quantity == ParseText(env.order.quantity)
    requires n.terms.buy == QuantityRule(ParseText(env.rule.buyQuantity.minimum), ParseText(env.rule.buyQuantity.step), ParseText(env.rule.buyQuantity.maximum))
    requires n.terms.sell == QuantityRule(ParseText(env.rule.sellQuantity.minimum), ParseText(env.rule.sellQuantity.step), ParseText(env.rule.sellQuantity.maximum))
    requires env.order.side == Sell ==>
               && env.order.position.Some?
               && Shares(Available(env.order)) == FieldShares(env.order.position.value.available)
               && Shares(Restricted(env.order)) == FieldShares(env.order.position.value.restricted)
    ensures IsParsedQuantity(env, n) <==> IsPermittedQuantity(env)
  {
    hide IsWireText, IsWholeNumber, ParseText, Shares, TextShares, AcceptsSell, Available, Restricted, FieldShares, SellRule.Valid, QuantityRule.Sound;
  }

  /** The v1 validator accepts exactly the admissible envelopes. */
  lemma {:induction false} AcceptsExactly(env: EnvelopeV1, t: int, zone: Zone)
    ensures Validate(env, t, zone) == Pass <==> IsAdmissible(env, t, zone)
  {
    hide *;
    AcceptsParsed(env, t, zone);
    AdmissibleParts(env, t, zone);
    TimelessIsWellFormed(env);
    Folded(env, t, zone);
    if IsWellFormed(env) {
      QuantityIsText(env);
      WellFormedHasNumbers(env);
      NumbersOf(env);
      var n := ParseNumbers(env).value;
      PriceIsListed(env, TextValue(env.market.referencePrice), Value(n.terms.tick), n.terms.band);
      PriceIsListed(env, TextValue(env.order.limitPrice), Value(n.terms.tick), n.terms.band);
    }
    TimelyIsOrdered(env, t, zone);
  }

  lemma {:induction false} WellFormedHasNumbers(env: EnvelopeV1)
    requires IsWellFormed(env)
    ensures HasNumbers(env) && IsBandText(env.market)
  {
    hide IsQuantityText, IsPositiveText, IsShareText, IsBandText;
  }

  lemma {:induction false} TimelyIsOrdered(env: EnvelopeV1, t: int, zone: Zone)
    ensures IsTimely(env, t, zone) ==> env.asOf <= t
  {
    hide IsOrdered, EvidenceStart, EvidenceEnd;
  }

  lemma {:induction false} Folded(env: EnvelopeV1, t: int, zone: Zone)
    ensures IsAdmissible(env, t, zone) <==>
              && IsWellFormed(env) && IsBandText(env.market) && IsTimely(env, t, zone) && IsOpen(env.market)
              && IsListedPrice(TextValue(env.market.referencePrice), env) && IsListedPrice(TextValue(env.order.limitPrice), env)
              && IsPermittedQuantity(env)
  {
    hide IsQuantityText, IsPositiveText, IsShareText, IsBandText, IsTimely, IsOpen, IsListedPrice, IsPermittedQuantity, IsPositioned, IsBoundTogether, TextValue;
  }
}
