/** The v2 submission envelope: its own binding, the derived v1 envelope, and the price cage on top. */
module SubmissionV2 {
  import opened Outcomes
  import opened Decimals
  import opened DecimalText
  import opened PriceCage
  import opened Constraints

  datatype RangeRuleText = RangeRuleText(
    market: string, board: string, priceTick: string, buyDeviationRatio: string, sellDeviationRatio: string,
    buyWideningTicks: int, sellWideningTicks: int, minimumDistanceTicks: int, lowerFloorTicks: int)

  datatype RuleV2 = RuleV2(
    base: RuleV1, range: RangeRuleText, allowedStages: seq<Stage>, contentHash: string, canonicalHash: string)

  datatype QuoteText = QuoteText(state: QuoteState, value: Option<string>)

  datatype MarketV2 = MarketV2(
    base: MarketV1, stage: Stage, ask: QuoteText, bid: QuoteText, latest: QuoteText, previousClose: QuoteText,
    contentHash: string, canonicalHash: string)

  datatype EnvelopeV2 = EnvelopeV2(asOf: int, rule: RuleV2, market: MarketV2, order: ConstraintOrder, decision: ServerDecision) {
    function WithPrice(text: string): EnvelopeV2 {
      this.(order := order.(limitPrice := text))
    }
  }

  // ---------------------------------------------------------------- binding and projection

  /** `_validate_decision_binding`, after both content hashes. */
  function CheckOuterBinding(env: EnvelopeV2): Check {
    var decision := env.decision;
    :- Need(env.rule.contentHash == env.rule.canonicalHash, "CONTENT_HASH_MISMATCH");
    :- Need(env.market.contentHash == env.market.canonicalHash, "CONTENT_HASH_MISMATCH");
    :- Need(Distinct(decision.reasonCodes), "DECISION_INVALID");
    :- Need(decision.allowed <==> decision.reasonCodes == [], "DECISION_INVALID");
    :- Need(decision.orderId == env.order.orderId && decision.ruleHash == env.rule.canonicalHash && decision.marketHash == env.market.canonicalHash,
            "DECISION_BINDING_MISMATCH");
    Need(decision.allowed, "SERVER_DECISION_DENIED")
  }

  /** The v1 envelope that is derived for the nested check; its decision is only structural. */
  function DerivedV1(env: EnvelopeV2): EnvelopeV1 {
    EnvelopeV1(env.asOf, env.rule.base, env.market.base, env.order,
               ServerDecision(true, [], env.order.orderId, env.rule.base.contentHash, env.market.base.contentHash))
  }

  // ---------------------------------------------------------------- the price cage of an envelope

  /** `_decimal` of this module. */
  function NumberV2(t: string, allowZero: bool): Result<Decimal> {
    match WireDecimal(t, allowZero)
    case None => Err("DECIMAL_INVALID")
    case Some(d) => Ok(d)
  }

  lemma NumbersAgree(t: string, allowZero: bool)
    ensures NumberV2(t, allowZero) == Number(t, allowZero)
  {
    BothParsersAgree(t, allowZero);
  }

  function ParseRangeRule(text: RangeRuleText): (r: Result<RangeRule>)
    ensures r.Ok? ==> ValidRule(r.value)
  {
    var tick :- NumberV2(text.priceTick, false);
    var buyRatio :- NumberV2(text.buyDeviationRatio, true);
    var sellRatio :- NumberV2(text.sellDeviationRatio, true);
    if text.buyWideningTicks < 0 || text.sellWideningTicks < 0 || text.minimumDistanceTicks < 0 || text.lowerFloorTicks <= 0 then
      Err("PRICE_CAGE_INVALID_RULE")
    else
      var rule := RangeRule(text.market, text.board, tick, buyRatio, sellRatio,
                            text.buyWideningTicks, text.sellWideningTicks, text.minimumDistanceTicks, text.lowerFloorTicks);
      if ValidRule(rule) then Ok(rule) else Err("PRICE_CAGE_INVALID_RULE")
  }

  function ParseQuote(text: QuoteText): Result<Quote> {
    if text.state == Present then
      if text.value.None? then Err("DECIMAL_INVALID") else
      var price :- NumberV2(text.value.value, false);
      if ValidQuote(Quote(Present, Some(price))) then Ok(Quote(Present, Some(price))) else Err("PRICE_CAGE_INVALID_QUOTE")
    else if text.value.Some? then Err("PRICE_CAGE_INVALID_QUOTE")
    else Ok(Quote(text.state, None))
  }

  function ParseQuotes(market: MarketV2): Result<Quotes> {
    var ask :- ParseQuote(market.ask);
    var bid :- ParseQuote(market.bid);
    var latest :- ParseQuote(market.latest);
    var previousClose :- ParseQuote(market.previousClose);
    Ok(Quotes(ask, bid, latest, previousClose))
  }

  function CheckAllowedStages(stages: seq<Stage>): Check {
    if |stages| > 1 then Reject("SUBMISSION_STAGE_INVALID") else
    Need(forall stage <- stages :: stage == Continuous, "SUBMISSION_STAGE_INVALID")
  }

  function CageCode(reason: Option<RangeReason>): string {
    match reason
    case Some(InvalidRule) => "PRICE_CAGE_INVALID_RULE"
    case Some(InvalidQuote) => "PRICE_CAGE_INVALID_QUOTE"
    case Some(ReferenceQuoteUnknown) => "SUBMISSION_REFERENCE_QUOTE_UNKNOWN"
    case Some(NoReferenceQuote) => "SUBMISSION_REFERENCE_QUOTE_MISSING"
    case Some(ReferencePriceNotOnTick) => "SUBMISSION_REFERENCE_PRICE_NOT_ON_TICK"
    case Some(CalculatedBoundaryOutOfRange) => "PRICE_CAGE_BOUNDARY_INVALID"
    case Some(PriceCageNotApplicable) => "SUBMISSION_STAGE_NOT_ALLOWED"
    case Some(StageIsUnknown) => "SUBMISSION_STAGE_NOT_ALLOWED"
    case None => "PRICE_CAGE_DENIED"
  }

  /** A usable cage: the parsed rule, the selected reference and the boundary. */
  datatype PriceLimits = PriceLimits(rule: RangeRule, reference: Decimal, boundary: Decimal)

  /** Everything `_validate_price_submission` checks before it reads a daily band or the limit price. */
  function Cage(env: EnvelopeV2): (r: Result<PriceLimits>) {
    var rule :- ParseRangeRule(env.rule.range);
    if CheckAllowedStages(env.rule.allowedStages).Reject? then Err("SUBMISSION_STAGE_INVALID") else
    var baseTick :- NumberV2(env.rule.base.priceTick, false);
    if rule.market != env.rule.base.market || rule.board != env.rule.base.board || Value(rule.priceTick) != Value(baseTick) then
      Err("PRICE_CAGE_INVALID_RULE")
    else if env.market.stage != Continuous || Continuous !in env.rule.allowedStages then Err("SUBMISSION_STAGE_NOT_ALLOWED")
    else
      var quotes :- ParseQuotes(env.market);
      var decision := Range(rule, env.order.side, env.market.stage, quotes);
      if decision.status != Calculated then Err(CageCode(decision.reason))
      else if decision.reference.None? || decision.boundary.None? then Err("PRICE_CAGE_RESULT_INVALID")
      else Ok(PriceLimits(rule, decision.reference.value, decision.boundary.value))
  }

  predicate Within(side: Side, price: Decimal, boundary: Decimal) {
    if side == Buy then Value(price) <= Value(boundary) else Value(price) >= Value(boundary)
  }

  /** `_validate_price_submission`. */
  function CheckPriceSubmission(env: EnvelopeV2): Check {
    match Cage(env)
    case Err(code) => Reject(code)
    case Ok(cage) =>
      match ParseBand(env.market.base)
      case Err(code) => Reject(code)
      case Ok(band) =>
        :- Need(InBand(band, cage.reference), "SUBMISSION_REFERENCE_PRICE_OUTSIDE_BOUNDARY");
        match NumberV2(env.order.limitPrice, false)
        case Err(code) => Reject(code)
        case Ok(price) => Need(Within(env.order.side, price, cage.boundary), "LIMIT_PRICE_OUTSIDE_SUBMISSION_RANGE")
  }

  /** What `validate_execution_submission_v2` answers. */
  function ValidateV2(env: EnvelopeV2, localTime: int, zone: Zone): Check {
    var outer := CheckOuterBinding(env);
    if outer.Reject? then outer else
    :- Validate(DerivedV1(env), localTime, zone);
    CheckPriceSubmission(env)
  }

  // ---------------------------------------------------------------- the accepted prices

  lemma CageComesFromRange(env: EnvelopeV2, cage: PriceLimits)
    requires Cage(env) == Ok(cage)
    ensures ParseQuotes(env.market).Ok? && ParseRangeRule(env.rule.range) == Ok(cage.rule)
    ensures var d := Range(cage.rule, env.order.side, env.market.stage, ParseQuotes(env.market).value);
            d.status == Calculated && d.reference == Some(cage.reference) && d.boundary == Some(cage.boundary)
    ensures NumberV2(env.rule.base.priceTick, false).Ok?
    ensures Value(cage.rule.priceTick) == Value(NumberV2(env.rule.base.priceTick, false).value)
    ensures cage.rule.market == env.rule.base.market && cage.rule.board == env.rule.base.board
  {
    hide Range, ParseQuotes, ParseRangeRule, NumberV2, Value;
  }

  /** A usable cage has its reference and boundary at whole ticks, the boundary at the closed form. */
  lemma CageInTicks(env: EnvelopeV2, cage: PriceLimits) returns (R: int)
    requires Cage(env) == Ok(cage)
    ensures ValidRule(cage.rule) && R > 0
    ensures IsTimes(R, Value(cage.reference), Value(cage.rule.priceTick))
    ensures IsTimes(ClosedFormTicks(cage.rule, env.order.side, R), Value(cage.boundary), Value(cage.rule.priceTick))
  {
    hide *;
    CageComesFromRange(env, cage);
    CalculatedRange(cage.rule, env.order.side, env.market.stage, ParseQuotes(env.market).value);
    R :| R > 0 && IsTimes(R, Value(cage.reference), Value(cage.rule.priceTick))
         && ClosedFormTicks(cage.rule, env.order.side, R) > 0
         && IsTimes(ClosedFormTicks(cage.rule, env.order.side, R), Value(cage.boundary), Value(cage.rule.priceTick));
  }

  ghost predicate IsTicksInside(price: real, side: Side, tick: real, boundary: int) {
    exists k: int :: k > 0 && IsTimes(k, price, tick) && if side == Buy then k <= boundary else k >= boundary
  }

  /** A text is a positive price at a whole number of ticks, on the inner side of the cage boundary, and inside the daily band. */
  ghost predicate IsPermittedPrice(text: string, side: Side, tick: real, boundary: int, band: Option<Band>) {
    && IsWireText(text) && |text| <= MAX_CANONICAL_DECIMAL_CHARS
    && IsTicksInside(Value(ParseText(text)), side, tick, boundary)
    && InBand(band, ParseText(text))
  }

  lemma NumberOfText(text: string)
    ensures Number(text, false).Ok? <==> IsWireText(text) && |text| <= MAX_CANONICAL_DECIMAL_CHARS && !IsZero(ParseText(text))
    ensures Number(text, false).Ok? ==> Number(text, false) == Ok(ParseText(text))
  {
    NumbersAgree(text, false);
  }

  /** The checks on a price are the tick-level description of it. */
  lemma PriceInTicks(text: string, side: Side, tick: Decimal, limit: Decimal, boundary: int, band: Option<Band>)
    requires !IsZero(tick) && Value(tick) > 0.0 && IsTimes(boundary, Value(limit), Value(tick))
    ensures IsPermittedPrice(text, side, Value(tick), boundary, band) <==>
              && Number(text, false).Ok?
              && IsMultiple(Number(text, false).value, tick)
              && InBand(band, Number(text, false).value)
              && Within(side, Number(text, false).value, limit)
  {
    NumberOfText(text);
    if IsWireText(text) && |text| <= MAX_CANONICAL_DECIMAL_CHARS {
      var price := ParseText(text);
      SignOfValue(price);
      IsMultipleIsExact(price, tick);
      forall k: int | IsTimes(k, Value(price), Value(tick))
        ensures k > 0 <==> Value(price) > 0.0
        ensures Within(side, price, limit) <==> if side == Buy then k <= boundary else k >= boundary
      {
        TickOrder(k, boundary, Value(price), Value(limit), Value(tick));
      }
      ParsedIsUnsigned(text);
      hide Number, IsMultiple, ParseText, Value, IsWireText, InBand, Within;
    }
  }

  lemma ParsedIsUnsigned(text: string)
    requires IsWireText(text)
    ensures !ParseText(text).negative
  {
  }

  lemma TickOrder(k: int, m: int, x: real, y: real, tick: real)
    requires tick > 0.0 && IsTimes(k, x, tick) && IsTimes(m, y, tick)
    ensures k > 0 <==> x > 0.0
    ensures k <= m <==> x <= y
    ensures k >= m <==> x >= y
  {
    ProductOrder(0.0, k as real, tick);
    ProductOrder(k as real, m as real, tick);
    ProductOrder(m as real, k as real, tick);
  }

  lemma CageIgnoresLimitPrice(env: EnvelopeV2, text: string)
    ensures Cage(env.WithPrice(text)) == Cage(env)
    ensures CheckOuterBinding(env.WithPrice(text)) == CheckOuterBinding(env)
    ensures DerivedV1(env.WithPrice(text)) == WithLimitPrice(DerivedV1(env), text)
  {
    hide Range, ParseRangeRule, ParseQuotes, NumberV2;
  }

  /** Acceptance by v2 implies acceptance of the derived envelope by v1 at the same clock, and a usable cage with its reference inside the band. */
  lemma AcceptedByBoth(env: EnvelopeV2, localTime: int, zone: Zone)
    requires ValidateV2(env, localTime, zone) == Pass
    ensures Validate(DerivedV1(env), localTime, zone) == Pass && ParseNumbers(DerivedV1(env)).Ok?
    ensures Cage(env).Ok? && ParseBand(env.market.base) == Ok(ParseNumbers(DerivedV1(env)).value.terms.band)
    ensures InBand(ParseNumbers(DerivedV1(env)).value.terms.band, Cage(env).value.reference)
    ensures Value(Cage(env).value.rule.priceTick) == Value(ParseNumbers(DerivedV1(env)).value.terms.tick) > 0.0
  {
    TimelessMeansNumbers(DerivedV1(env));
    TermsFields(env.rule.base, env.market.base);
    if Cage(env).Ok? {
      CageComesFromRange(env, Cage(env).value);
      NumbersAgree(env.rule.base.priceTick, false);
    }
    hide ParseNumbers, ParseBand, Cage, CheckTimeless, CheckClock, CheckMarket, NumberV2, Number, InBand, Value;
  }

  /** Acceptance by v2 at two clocks implies acceptance at every instant between them. */
  lemma {:induction false} AcceptedBetweenV2(env: EnvelopeV2, first: int, t: int, last: int, zone: Zone)
    requires Monotone(zone) && first <= t <= last
    requires ValidateV2(env, first, zone) == Pass && ValidateV2(env, last, zone) == Pass
    ensures ValidateV2(env, t, zone) == Pass
  {
    AcceptedByBoth(env, first, zone);
    AcceptedByBoth(env, last, zone);
    hide Validate, CheckOuterBinding, CheckPriceSubmission, Monotone, ParseNumbers, Cage, Value;
    AcceptedBetween(DerivedV1(env), first, t, last, zone);
  }

  /** The quantity and the limit price of an accepted envelope are positive wire numbers. */
  lemma AcceptedNumbers(env: EnvelopeV2, localTime: int, zone: Zone)
    requires ValidateV2(env, localTime, zone) == Pass
    ensures Number(env.order.quantity, false).Ok? && Number(env.order.limitPrice, false).Ok?
  {
    AcceptedByBoth(env, localTime, zone);
    ParsedNumbers(DerivedV1(env));
    hide ValidateV2, Validate, ParseNumbers, Number;
  }

  lemma TermsFields(rule: RuleV1, market: MarketV1)
    requires ParseTerms(rule, market).Ok?
    ensures ParseBand(market) == Ok(ParseTerms(rule, market).value.band)
    ensures Number(rule.priceTick, false) == Ok(ParseTerms(rule, market).value.tick)
  {
    hide Number, ParseBand, ParseQuantityRule;
  }

  lemma SubmissionWithPrice(env: EnvelopeV2, text: string)
    requires Cage(env).Ok? && ParseBand(env.market.base).Ok? && InBand(ParseBand(env.market.base).value, Cage(env).value.reference)
    ensures CheckPriceSubmission(env.WithPrice(text)) == Pass <==>
              Number(text, false).Ok? && Within(env.order.side, Number(text, false).value, Cage(env).value.boundary)
  {
    CageIgnoresLimitPrice(env, text);
    NumbersAgree(text, false);
    hide Cage, ParseBand, NumberV2, Number, InBand, Within;
  }

  /** With all other fields of an accepted envelope fixed, the accepted limit prices are exactly the positive tick multiples up to the cage boundary (down to it, for a sell) inside the daily band. */
  lemma AcceptedPrices(env: EnvelopeV2, text: string, localTime: int, zone: Zone) returns (cage: PriceLimits, R: int)
    requires ValidateV2(env, localTime, zone) == Pass
    ensures Cage(env) == Ok(cage) && R > 0 && IsTimes(R, Value(cage.reference), Value(cage.rule.priceTick))
    ensures ParseBand(env.market.base).Ok?
    ensures ValidateV2(env.WithPrice(text), localTime, zone) == Pass <==>
              IsPermittedPrice(text, env.order.side, Value(cage.rule.priceTick), ClosedFormTicks(cage.rule, env.order.side, R),
                               ParseBand(env.market.base).value)
  {
    AcceptedByBoth(env, localTime, zone);
    cage := Cage(env).value;
    R := CageInTicks(env, cage);
    var n := ParseNumbers(DerivedV1(env)).value;
    CageIgnoresLimitPrice(env, text);
    AcceptedLimitPrices(DerivedV1(env), text, localTime, zone);
    SubmissionWithPrice(env, text);
    PriceInTicks(text, env.order.side, n.terms.tick, cage.boundary, ClosedFormTicks(cage.rule, env.order.side, R), n.terms.band);
    hide Validate, Cage, CheckPriceSubmission, ParseNumbers, ParseBand, IsPermittedPrice, ClosedFormTicks, Value, InBand, IsMultiple, Number, Within, CheckOuterBinding;
  }

  /** The selected reference, as printed, is an accepted buy price; it is an accepted sell price exactly when the floor is not above it. */
  lemma ReferenceIsAccepted(env: EnvelopeV2, localTime: int, zone: Zone) returns (cage: PriceLimits, R: int)
    requires ValidateV2(env, localTime, zone) == Pass
    ensures Cage(env) == Ok(cage) && CanonicalText(cage.reference).Ok?
    ensures R > 0 && IsTimes(R, Value(cage.reference), Value(cage.rule.priceTick))
    ensures ValidateV2(env.WithPrice(CanonicalText(cage.reference).value), localTime, zone) == Pass
            <==> env.order.side == Buy || cage.rule.lowerFloorTicks <= R
  {
    hide *;
    AcceptedByBoth(env, localTime, zone);
    CageIsPrintable(env, Cage(env).value);
    var text := CanonicalText(Cage(env).value.reference).value;
    cage, R := AcceptedPrices(env, text, localTime, zone);
    PrintedReferenceIsPermitted(cage, R, env.order.side, ParseBand(env.market.base).value);
  }

  lemma CageIsPrintable(env: EnvelopeV2, cage: PriceLimits)
    requires Cage(env) == Ok(cage)
    ensures ValidRule(cage.rule) && IsPositive(cage.reference) && CanonicalText(cage.reference).Ok?
  {
    hide *;
    CageComesFromRange(env, cage);
    CalculatedRange(cage.rule, env.order.side, env.market.stage, ParseQuotes(env.market).value);
    DecisionsAreValid(cage.rule, env.order.side, env.market.stage, ParseQuotes(env.market).value);
    ValidReference(Range(cage.rule, env.order.side, env.market.stage, ParseQuotes(env.market).value));
    PositiveCanPrint(cage.reference);
  }

  lemma ValidReference(d: RangeDecision)
    requires ValidDecision(d) && d.reference.Some?
    ensures IsPositive(d.reference.value)
  {
  }

  lemma PositiveCanPrint(d: Decimal)
    requires IsPositive(d)
    ensures CanonicalText(d).Ok?
  {
  }

  lemma PrintedReferenceIsPermitted(cage: PriceLimits, R: int, side: Side, band: Option<Band>)
    requires ValidRule(cage.rule) && IsPositive(cage.reference) && CanonicalText(cage.reference).Ok?
    requires R > 0 && IsTimes(R, Value(cage.reference), Value(cage.rule.priceTick)) && InBand(band, cage.reference)
    ensures IsPermittedPrice(CanonicalText(cage.reference).value, side, Value(cage.rule.priceTick), ClosedFormTicks(cage.rule, side, R), band)
            <==> side == Buy || cage.rule.lowerFloorTicks <= R
  {
    hide *;
    PositiveValue(cage.rule.priceTick);
    IsPositiveTick(cage.rule);
    ReferenceIsInside(cage.rule, R);
    PrintedValue(cage.reference);
    OnlyTicks(CanonicalText(cage.reference).value, side, Value(cage.rule.priceTick), R, ClosedFormTicks(cage.rule, side, R), band, cage.reference);
  }

  lemma IsPositiveTick(rule: RangeRule)
    requires ValidRule(rule)
    ensures IsPositive(rule.priceTick)
  {
  }

  lemma PrintedValue(d: Decimal)
    requires IsPositive(d) && CanonicalText(d).Ok?
    ensures var t := CanonicalText(d).value;
            IsWireText(t) && |t| <= MAX_CANONICAL_DECIMAL_CHARS && Value(ParseText(t)) == Value(d)
  {
    PositiveValue(d);
    PrintThenParse(d);
    hide CanonicalText, Value, ParseText, IsWireText, IsPositive;
    WireTextIsUnsigned(CanonicalText(d).value);
  }

  lemma OnlyTicks(text: string, side: Side, tick: real, R: int, boundary: int, band: Option<Band>, price: Decimal)
    requires tick > 0.0 && R > 0 && IsWireText(text) && |text| <= MAX_CANONICAL_DECIMAL_CHARS
    requires IsTimes(R, Value(ParseText(text)), tick) && Value(ParseText(text)) == Value(price) && InBand(band, price)
    ensures IsPermittedPrice(text, side, tick, boundary, band) <==> if side == Buy then R <= boundary else R >= boundary
  {
    OneTickCount(Value(ParseText(text)), side, tick, R, boundary);
    hide Value, ParseText, IsWireText, IsTicksInside;
  }

  lemma OneTickCount(price: real, side: Side, tick: real, R: int, boundary: int)
    requires tick > 0.0 && R > 0 && IsTimes(R, price, tick)
    ensures IsTicksInside(price, side, tick, boundary) <==> if side == Buy then R <= boundary else R >= boundary
  {
    forall k: int | IsTimes(k, price, tick)
      ensures k == R
    {
      ProductOrder(k as real, R as real, tick);
    }
  }
}
