/** What the validators accept, once the numbers are parsed: times as integers, prices as exact reals at whole ticks, quantities as share counts. */
module ParsedAcceptance {
  import opened Outcomes
  import opened Decimals
  import opened DecimalText
  import opened PriceCage
  import opened Constraints
  import opened OddLots
  import opened SubmissionV2

  /** The last of the instants from which the evidence can be used. */
  function EvidenceStart(env: EnvelopeV1): int {
    var r, m, p := env.rule, env.market, env.order.position;
    var start := Max(Max(Max(r.observedAt, r.availableAt), r.effectiveFrom),
                     Max(Max(Max(m.calendarObservedAt, m.calendarAvailableAt), Max(m.marketObservedAt, m.marketAvailableAt)), m.sessionOpenAt));
    if env.order.side == Sell && p.Some? then Max(start, Max(p.value.observedAt, p.value.availableAt)) else start
  }

  /** No evidence is available before it was observed. */
  predicate IsOrdered(env: EnvelopeV1) {
    && env.rule.observedAt <= env.rule.availableAt
    && env.market.calendarObservedAt <= env.market.calendarAvailableAt
    && env.market.marketObservedAt <= env.market.marketAvailableAt
    && (env.order.side == Sell && env.order.position.Some? ==> env.order.position.value.observedAt <= env.order.position.value.availableAt)
  }

  /** The evaluation and the submission lie, in this order, within all evidence, on the trading date and in the session. */
  predicate IsTimely(env: EnvelopeV1, t: int, zone: Zone) {
    && IsOrdered(env) && EvidenceStart(env) <= env.asOf <= t < EvidenceEnd(env)
    && zone(env.asOf) == env.market.tradingDate == zone(t)
  }

  predicate IsOpen(market: MarketV1) {
    market.sessionState == SessionOpen && market.securityState == Trading && market.boundaryMode != BoundaryUnknown
  }

  /** A whole number of ticks inside the daily band, where there is one. */
  ghost predicate IsMarketPrice(price: real, tick: real, band: Option<Band>) {
    && (exists k: int :: IsTimes(k, price, tick))
    && (band.Some? ==> Value(band.value.lower) <= price <= Value(band.value.upper))
  }

  function SharesRule(rule: QuantityRule, mode: OddLotMode): SellRule
    requires rule.Sound()
  {
    SellRule(Shares(rule.minimum), Shares(rule.step), Shares(rule.maximum), mode)
  }

  /** The share counts of the order satisfy the rule of its side. */
  predicate IsParsedQuantity(env: EnvelopeV1, n: Numbers)
    requires n.terms.buy.Sound() && n.terms.sell.Sound() && IsWholeNumber(n.quantity)
  {
    var q := Shares(n.quantity);
    if env.order.side == Buy then q % Shares(n.terms.buy.step) == 0 && Shares(n.terms.buy.minimum) <= q <= Shares(n.terms.buy.maximum)
    else
      var rule := SharesRule(n.terms.sell, env.rule.oddLotMode);
      rule.Valid() && AcceptsSell(rule, Shares(Available(env.order)), Shares(Restricted(env.order)), q)
  }

  /** A well-formed and well-bound envelope that is timely, of an open market, at prices and a quantity that its rule permits. */
  ghost predicate IsParsedAdmissible(env: EnvelopeV1, t: int, zone: Zone) {
    && CheckTimeless(env) == Pass && ParseNumbers(env).Ok?
    && IsTimely(env, t, zone) && IsOpen(env.market)
    && var n := ParseNumbers(env).value;
    && IsMarketPrice(Value(n.terms.reference), Value(n.terms.tick), n.terms.band)
    && IsMarketPrice(Value(n.limitPrice), Value(n.terms.tick), n.terms.band)
    && IsParsedQuantity(env, n)
  }

  lemma ClocksAreTimely(env: EnvelopeV1, t: int, zone: Zone)
    requires env.asOf <= t
    ensures CheckClock(env, env.asOf, zone) == Pass && CheckClock(env, t, zone) == Pass <==> IsTimely(env, t, zone)
  {
  }

  lemma StatesAreOpen(market: MarketV1)
    ensures CheckStates(market) == Pass <==> IsOpen(market)
  {
  }

  lemma PricesAreMarketPrices(terms: Terms, limitPrice: Decimal)
    requires !IsZero(terms.tick)
    ensures CheckPrices(terms, limitPrice) == Pass <==>
              && IsMarketPrice(Value(terms.reference), Value(terms.tick), terms.band)
              && IsMarketPrice(Value(limitPrice), Value(terms.tick), terms.band)
  {
    IsMultipleIsExact(terms.reference, terms.tick);
    IsMultipleIsExact(limitPrice, terms.tick);
    hide IsMultiple, Value, IsTimes;
  }

  lemma QuantityIsPermitted(env: EnvelopeV1, n: Numbers)
    requires ParseNumbers(env) == Ok(n)
    ensures CheckOrderQuantity(env.order, env.rule.oddLotMode, n.terms, n.quantity) == Pass <==> IsParsedQuantity(env, n)
  {
    hide *;
    QuantityIsChecked(env, n);
    BuyIsPermitted(n.quantity, n.terms.buy, env.rule.oddLotMode, Available(env.order), Restricted(env.order));
    if env.order.side == Sell {
      ModeIsBound(env, n);
      AcceptedQuantities(Sell, n.quantity, n.terms.sell, env.rule.oddLotMode, Available(env.order), Restricted(env.order));
    }
    PermittedBySide(env, n);
  }

  lemma ModeIsBound(env: EnvelopeV1, n: Numbers)
    requires ParseNumbers(env) == Ok(n)
    ensures env.rule.oddLotMode == SellOddRemainderOnce ==> Value(n.terms.sell.minimum) == Value(n.terms.sell.step)
  {
    hide ParseNumbers, Value, QuantityRule.Sound, IsWholeNumber, IsZero;
  }

  lemma QuantityIsChecked(env: EnvelopeV1, n: Numbers)
    requires ParseNumbers(env) == Ok(n)
    ensures n.terms.buy.Sound() && n.terms.sell.Sound() && IsWholeNumber(n.quantity) && !n.quantity.negative && !IsZero(n.quantity)
    ensures CheckOrderQuantity(env.order, env.rule.oddLotMode, n.terms, n.quantity) ==
              CheckQuantity(env.order.side, n.quantity, if env.order.side == Buy then n.terms.buy else n.terms.sell,
                            env.rule.oddLotMode, Available(env.order), Restricted(env.order))
  {
    hide ParseNumbers, CheckQuantity, Available, Restricted, QuantityRule.Sound, IsWholeNumber, IsZero, Value;
  }

  lemma BuyIsPermitted(quantity: Decimal, rule: QuantityRule, mode: OddLotMode, available: Decimal, restricted: Decimal)
    requires rule.Sound() && IsWholeNumber(quantity) && !quantity.negative && !IsZero(quantity)
    requires IsWholeNumber(available) && !available.negative && IsWholeNumber(restricted) && !restricted.negative
    ensures Shares(rule.step) > 0
    ensures CheckQuantity(Buy, quantity, rule, mode, available, restricted) == Pass <==>
              Shares(quantity) % Shares(rule.step) == 0 && Shares(rule.minimum) <= Shares(quantity) <= Shares(rule.maximum)
  {
    AcceptedQuantities(Buy, quantity, rule, Forbid, available, restricted);
    ModeMattersForSells(quantity, rule, mode, available, restricted);
    hide CheckQuantity, Shares, QuantityRule.Sound, IsWholeNumber, IsZero, Value;
  }

  lemma PermittedBySide(env: EnvelopeV1, n: Numbers)
    requires n.terms.buy.Sound() && n.terms.sell.Sound() && IsWholeNumber(n.quantity) && Shares(n.terms.buy.step) > 0
    ensures var q := Shares(n.quantity);
            var rule := SellRule(Shares(n.terms.sell.minimum), Shares(n.terms.sell.step), Shares(n.terms.sell.maximum), env.rule.oddLotMode);
            IsParsedQuantity(env, n) <==>
              if env.order.side == Buy then q % Shares(n.terms.buy.step) == 0 && Shares(n.terms.buy.minimum) <= q <= Shares(n.terms.buy.maximum)
              else rule.Valid() && AcceptsSell(rule, Shares(Available(env.order)), Shares(Restricted(env.order)), q)
  {
    hide Shares, AcceptsSell, Available, Restricted;
  }

  lemma ModeMattersForSells(quantity: Decimal, rule: QuantityRule, mode: OddLotMode, available: Decimal, restricted: Decimal)
    requires rule.Sound() && IsWholeNumber(quantity) && IsWholeNumber(available)
    ensures CheckQuantity(Buy, quantity, rule, mode, available, restricted) == CheckQuantity(Buy, quantity, rule, Forbid, available, restricted)
  {
    hide Value, IsMultiple;
  }

  /** The v1 validator accepts exactly the admissible envelopes. */
  lemma AcceptsParsed(env: EnvelopeV1, t: int, zone: Zone)
    ensures Validate(env, t, zone) == Pass <==> IsParsedAdmissible(env, t, zone)
  {
    hide *;
    ValidateParts(env, t, zone);
    TimelessMeansNumbers(env);
    if env.asOf <= t {
      ClocksAreTimely(env, t, zone);
    }
    if CheckTimeless(env) == Pass {
      MarketIsItsParts(env);
      var n := ParseNumbers(env).value;
      StatesAreOpen(env.market);
      PricesAreMarketPrices(n.terms, n.limitPrice);
      QuantityIsPermitted(env, n);
    }
    AdmissibleParts(env, t, zone);
  }

  lemma AdmissibleParts(env: EnvelopeV1, t: int, zone: Zone)
    ensures IsParsedAdmissible(env, t, zone) <==>
              && env.asOf <= t && CheckTimeless(env) == Pass && ParseNumbers(env).Ok? && IsTimely(env, t, zone) && IsOpen(env.market)
              && var n := ParseNumbers(env).value;
              && IsMarketPrice(Value(n.terms.reference), Value(n.terms.tick), n.terms.band)
              && IsMarketPrice(Value(n.limitPrice), Value(n.terms.tick), n.terms.band)
              && IsParsedQuantity(env, n)
  {
    hide CheckTimeless, ParseNumbers, IsOpen, IsMarketPrice, IsParsedQuantity;
  }

  // ---------------------------------------------------------------- v2

  /** The limit price is a whole number of ticks on the inner side of the closed-form boundary around the reference. */
  ghost predicate IsInsideBoundary(cage: PriceLimits, side: Side, price: real, R: int, k: int) {
    && R > 0 && IsTimes(R, Value(cage.reference), Value(cage.rule.priceTick)) && IsTimes(k, price, Value(cage.rule.priceTick))
    && if side == Buy then k <= ClosedFormTicks(cage.rule, side, R) else k >= ClosedFormTicks(cage.rule, side, R)
  }

  /** The cage can be calculated, its reference lies in the daily band, and the limit price is inside it. */
  ghost predicate IsParsedCaged(env: EnvelopeV2, n: Numbers) {
    && Cage(env).Ok?
    && InBand(n.terms.band, Cage(env).value.reference)
    && exists R: int, k: int :: IsInsideBoundary(Cage(env).value, env.order.side, Value(n.limitPrice), R, k)
  }

  lemma WithinIsInside(cage: PriceLimits, side: Side, price: Decimal, R: int, k: int)
    requires ValidRule(cage.rule) && R > 0 && IsTimes(R, Value(cage.reference), Value(cage.rule.priceTick))
    requires IsTimes(ClosedFormTicks(cage.rule, side, R), Value(cage.boundary), Value(cage.rule.priceTick))
    requires IsTimes(k, Value(price), Value(cage.rule.priceTick))
    ensures Within(side, price, cage.boundary) <==> exists R2: int, k2: int :: IsInsideBoundary(cage, side, Value(price), R2, k2)
  {
    var tick := Value(cage.rule.priceTick);
    PositiveValue(cage.rule.priceTick);
    TickOrder(k, ClosedFormTicks(cage.rule, side, R), Value(price), Value(cage.boundary), tick);
    if Within(side, price, cage.boundary) {
      assert IsInsideBoundary(cage, side, Value(price), R, k);
    }
    forall R2: int, k2: int | IsInsideBoundary(cage, side, Value(price), R2, k2)
      ensures R2 == R && k2 == k
    {
      TickOrder(R2, R, Value(cage.reference), Value(cage.reference), tick);
      TickOrder(k2, k, Value(price), Value(price), tick);
    }
    hide Value, ClosedFormTicks, IsTimes, ValidRule;
  }

  lemma SubmissionParts(env: EnvelopeV2, n: Numbers)
    requires ParseNumbers(DerivedV1(env)) == Ok(n)
    ensures CheckPriceSubmission(env) == Pass <==>
              Cage(env).Ok? && InBand(n.terms.band, Cage(env).value.reference) && Within(env.order.side, n.limitPrice, Cage(env).value.boundary)
  {
    TermsFields(env.rule.base, env.market.base);
    ParsedNumbers(DerivedV1(env));
    NumbersAgree(env.order.limitPrice, false);
    hide Cage, ParseNumbers, ParseBand, NumberV2, Number, InBand, Within;
  }

  lemma SameTick(env: EnvelopeV2, n: Numbers)
    requires ParseNumbers(DerivedV1(env)) == Ok(n) && Cage(env).Ok?
    ensures Value(Cage(env).value.rule.priceTick) == Value(n.terms.tick)
  {
    TermsFields(env.rule.base, env.market.base);
    NumbersAgree(env.rule.base.priceTick, false);
    CageComesFromRange(env, Cage(env).value);
    hide Cage, ParseNumbers, NumberV2, Number, Value, Range, ParseQuotes, ParseRangeRule;
  }

  lemma SubmissionIsCaged(env: EnvelopeV2, n: Numbers)
    requires ParseNumbers(DerivedV1(env)) == Ok(n)
    requires IsMarketPrice(Value(n.limitPrice), Value(n.terms.tick), n.terms.band)
    ensures CheckPriceSubmission(env) == Pass <==> IsParsedCaged(env, n)
  {
    hide Cage, ParseNumbers, InBand, Within, IsInsideBoundary, Value, ClosedFormTicks, IsTimes, ValidRule, CheckPriceSubmission;
    SubmissionParts(env, n);
    if Cage(env).Ok? {
      var cage := Cage(env).value;
      SameTick(env, n);
      var R := CageInTicks(env, cage);
      var k: int :| IsTimes(k, Value(n.limitPrice), Value(n.terms.tick));
      WithinIsInside(cage, env.order.side, n.limitPrice, R, k);
    }
  }

  /** The v2 validator accepts exactly the bound envelopes whose derived envelope is admissible and whose price is caged. */
  lemma AcceptsParsedV2(env: EnvelopeV2, t: int, zone: Zone)
    ensures ValidateV2(env, t, zone) == Pass <==>
              CheckOuterBinding(env) == Pass && IsParsedAdmissible(DerivedV1(env), t, zone) && IsParsedCaged(env, ParseNumbers(DerivedV1(env)).value)
  {
    AcceptsParsed(DerivedV1(env), t, zone);
    if IsParsedAdmissible(DerivedV1(env), t, zone) {
      SubmissionIsCaged(env, ParseNumbers(DerivedV1(env)).value);
    }
    hide Validate, CheckPriceSubmission, IsParsedCaged, IsTimely, IsOpen, IsMarketPrice, IsParsedQuantity, CheckTimeless, ParseNumbers, CheckOuterBinding;
  }
}
