/** What the v2 validator accepts: the cage on top of v1, from the quotes and the rule as they come. */
module AcceptanceV2 {
  import opened Outcomes
  import opened Decimals
  import opened DecimalText
  import opened PriceCage
  import opened PriceAnswers
  import opened ConversionBound
  import opened Constraints
  import opened SubmissionV2
  import opened ParsedAcceptance
  import opened Acceptance

  // ---------------------------------------------------------------- the cage, on texts

  /** The rule of the price range is written in numbers, in their ranges. */
  predicate IsRangeText(r: RangeRuleText) {
    && IsPositiveText(r.priceTick) && IsNumberText(r.buyDeviationRatio)
    && IsNumberText(r.sellDeviationRatio) && TextValue(r.sellDeviationRatio) < 1.0
    && 0 <= r.buyWideningTicks < Pow10(257) && 0 <= r.sellWideningTicks < Pow10(257)
    && 0 <= r.minimumDistanceTicks < Pow10(257) && 0 < r.lowerFloorTicks < Pow10(257)
  }

  predicate IsQuoteText(q: QuoteText) {
    if q.state == Present then q.value.Some? && IsPositiveText(q.value.value) else q.value.None?
  }

  /** The range rule and the quotes are usable, for continuous trading and for the tick of the base rule. */
  predicate IsUsable(env: EnvelopeV2) {
    && IsRangeText(env.rule.range)
    && env.rule.range.market == env.rule.base.market && env.rule.range.board == env.rule.base.board
    && IsPositiveText(env.rule.base.priceTick) && TextValue(env.rule.range.priceTick) == TextValue(env.rule.base.priceTick)
    && env.rule.allowedStages == [Continuous] && env.market.stage == Continuous
    && IsQuoteText(env.market.ask) && IsQuoteText(env.market.bid) && IsQuoteText(env.market.latest) && IsQuoteText(env.market.previousClose)
  }

  /** The quote of the name is the reference of the side: for a buy the ask where it is present, else the bid, for a sell the bid, else the ask, then the latest price and the previous close; all that come before it are confirmed absent. */
  predicate IsSelected(env: EnvelopeV2, source: QuoteSource) {
    var m, buy := env.market, env.order.side == Buy;
    match source
    case Ask => m.ask.state == Present && (buy || m.bid.state == ConfirmedAbsent)
    case Bid => m.bid.state == Present && (!buy || m.ask.state == ConfirmedAbsent)
    case Latest => m.latest.state == Present && m.ask.state == ConfirmedAbsent && m.bid.state == ConfirmedAbsent
    case PreviousClose =>
      m.previousClose.state == Present && m.ask.state == ConfirmedAbsent && m.bid.state == ConfirmedAbsent && m.latest.state == ConfirmedAbsent
  }

  function SelectedText(env: EnvelopeV2, source: QuoteSource): string {
    var value := if source == Ask then env.market.ask.value
                 else if source == Bid then env.market.bid.value
                 else if source == Latest then env.market.latest.value
                 else env.market.previousClose.value;
    if value.Some? then value.value else ""
  }

  /** The Decimal that a number text is parsed to. */
  function NumberOf(t: string): Decimal {
    if IsWireText(t) then ParseText(t) else ZERO
  }

  /** The boundary in ticks, from the reference in ticks. */
  function BoundaryTicksOf(r: RangeRuleText, side: Side, R: int): int {
    if side == Buy then BuyTicks(R, TextValue(r.buyDeviationRatio), r.buyWideningTicks, r.minimumDistanceTicks)
    else SellTicks(R, TextValue(r.sellDeviationRatio), r.sellWideningTicks, r.minimumDistanceTicks, r.lowerFloorTicks)
  }

  /** Some text within the length bound denotes the price of so many ticks. */
  ghost predicate IsWritable(ticks: int, tick: real) {
    exists t: string :: IsNumberText(t) && IsTimes(ticks, TextValue(t), tick)
  }

  /** The selected quote is a positive whole number of ticks, and its boundary can be written. */
  ghost predicate IsReference(env: EnvelopeV2, source: QuoteSource, R: int) {
    && IsUsable(env) && IsSelected(env, source)
    && R > 0 && IsTimes(R, TextValue(SelectedText(env, source)), TextValue(env.rule.range.priceTick))
    && IsWritable(BoundaryTicksOf(env.rule.range, env.order.side, R), TextValue(env.rule.range.priceTick))
  }

  // ---------------------------------------------------------------- texts are the parsed numbers

  lemma {:induction false} TextIsPrintable(t: string)
    requires IsNumberText(t)
    ensures IsRatio(ParseText(t)) && Components(ParseText(t), true).Ok?
    ensures IsPositiveText(t) ==> IsPositive(ParseText(t))
  {
    ParseThenPrint(t);
    WireTextIsNonnegative(t);
    var d := ParseText(t);
    PrintableHasComponents(d);
    ComponentsKeepValue(d, true);
    CompareAtExponent(Components(d, true).value.0, 0, Components(d, true).value.1);
    ZeroIsZero(Components(d, true).value.1);
    SignOfValue(d);
    hide IsWireText, ParseText, Value, NormalValue, CanonicalText, Trim, RenderedLength;
  }

  lemma {:induction false} ZeroIsZero(e: int)
    ensures NormalValue(0, e) == 0.0
  {
  }

  lemma {:induction false} PrintableHasComponents(d: Decimal)
    requires CanonicalText(d).Ok?
    ensures Components(d, true).Ok?
  {
    hide Components;
  }

  lemma {:induction false} NumberV2IsText(t: string)
    ensures NumberV2(t, false).Ok? <==> IsPositiveText(t)
    ensures NumberV2(t, true).Ok? <==> IsNumberText(t)
    ensures IsNumberText(t) ==> NumberV2(t, true) == Ok(ParseText(t))
    ensures IsPositiveText(t) ==> NumberV2(t, false) == Ok(ParseText(t))
    ensures IsNumberText(t) ==> TextValue(t) == Value(ParseText(t))
  {
    NumberIsText(t);
    NumbersAgree(t, true);
    NumbersAgree(t, false);
    hide Number, NumberV2, IsWireText, ParseText, Value;
  }

  function RangeRuleOf(r: RangeRuleText): RangeRule
    requires IsRangeText(r)
  {
    RangeRule(r.market, r.board, ParseText(r.priceTick), ParseText(r.buyDeviationRatio), ParseText(r.sellDeviationRatio),
              r.buyWideningTicks, r.sellWideningTicks, r.minimumDistanceTicks, r.lowerFloorTicks)
  }

  /** At most 257 digits means below 10 to the power of 257. */
  lemma {:induction false} BoundedIsBelow(n: int, positive: bool)
    ensures IsBoundedInteger(n, positive) <==> 0 <= n < Pow10(257) && (positive ==> n > 0)
  {
    hide Pow10, NatDigits;
    if n >= 0 {
      if |NatDigits(n)| <= 257 {
        ShortNumber(n, 257);
      }
      if n < Pow10(257) {
        NumberBoundsDigits(n, 257);
      }
    }
  }

  lemma {:induction false} RangeRuleParses(r: RangeRuleText)
    ensures ParseRangeRule(r).Ok? <==> IsRangeText(r)
    ensures IsRangeText(r) ==> ParseRangeRule(r) == Ok(RangeRuleOf(r)) && ValidRule(RangeRuleOf(r))
  {
    hide NumberV2, IsWireText, ParseText, Value, TextValue, IsPositive, IsRatio, NatDigits, Pow10, IsBoundedInteger;
    BoundedIsBelow(r.buyWideningTicks, false);
    BoundedIsBelow(r.sellWideningTicks, false);
    BoundedIsBelow(r.minimumDistanceTicks, false);
    BoundedIsBelow(r.lowerFloorTicks, true);
    NumberV2IsText(r.priceTick);
    NumberV2IsText(r.buyDeviationRatio);
    NumberV2IsText(r.sellDeviationRatio);
    if IsPositiveText(r.priceTick) && IsNumberText(r.buyDeviationRatio) && IsNumberText(r.sellDeviationRatio) {
      TextIsPrintable(r.priceTick);
      TextIsPrintable(r.buyDeviationRatio);
      TextIsPrintable(r.sellDeviationRatio);
    }
  }

  function ParsedQuote(q: QuoteText): Quote
    requires IsQuoteText(q)
  {
    if q.state == Present then Quote(Present, Some(ParseText(q.value.value))) else Quote(q.state, None)
  }

  lemma {:induction false} QuoteParses(q: QuoteText)
    ensures ParseQuote(q).Ok? <==> IsQuoteText(q)
    ensures IsQuoteText(q) ==> ParseQuote(q) == Ok(ParsedQuote(q)) && ValidQuote(ParsedQuote(q))
  {
    hide NumberV2, IsWireText, ParseText, Value, TextValue, IsPositive;
    if q.value.Some? {
      NumberV2IsText(q.value.value);
      if IsPositiveText(q.value.value) {
        TextIsPrintable(q.value.value);
      }
    }
  }

  predicate AreQuoteTexts(market: MarketV2) {
    IsQuoteText(market.ask) && IsQuoteText(market.bid) && IsQuoteText(market.latest) && IsQuoteText(market.previousClose)
  }

  function ParsedQuotes(market: MarketV2): Quotes
    requires AreQuoteTexts(market)
  {
    Quotes(ParsedQuote(market.ask), ParsedQuote(market.bid), ParsedQuote(market.latest), ParsedQuote(market.previousClose))
  }

  lemma {:induction false} QuotesParse(market: MarketV2)
    ensures ParseQuotes(market).Ok? <==> AreQuoteTexts(market)
    ensures AreQuoteTexts(market) ==> ParseQuotes(market) == Ok(ParsedQuotes(market)) && ValidQuotes(ParsedQuotes(market))
  {
    hide IsQuoteText, ParseQuote, ParsedQuote, ValidQuote;
    QuoteParses(market.ask);
    QuoteParses(market.bid);
    QuoteParses(market.latest);
    QuoteParses(market.previousClose);
  }

  lemma {:induction false} StagesAreContinuous(stages: seq<Stage>)
    ensures CheckAllowedStages(stages) == Pass && Continuous in stages <==> stages == [Continuous]
  {
    if CheckAllowedStages(stages) == Pass && Continuous in stages {
      assert |stages| == 1 && stages[0] in stages;
    }
  }

  /** The decision of the range on the parsed texts. */
  function RangeOf(env: EnvelopeV2): RangeDecision
    requires IsUsable(env)
  {
    RangeRuleParses(env.rule.range);
    Range(RangeRuleOf(env.rule.range), env.order.side, Continuous, ParsedQuotes(env.market))
  }

  /** A cage needs exactly usable texts and a calculated range. */
  lemma {:induction false} CageParts(env: EnvelopeV2)
    ensures Cage(env).Ok? <==> IsUsable(env) && RangeOf(env).status == Calculated
    ensures Cage(env).Ok? ==>
              && RangeOf(env).reference.Some? && RangeOf(env).boundary.Some? && IsRangeText(env.rule.range)
              && Cage(env).value == PriceLimits(RangeRuleOf(env.rule.range), RangeOf(env).reference.value, RangeOf(env).boundary.value)
  {
    hide IsRangeText, IsQuoteText, ParseRangeRule, ParseQuotes, NumberV2, TextValue, Value, Range, ValidDecision, CageCode, ValidRule, ValidQuotes,
      ParsedQuotes, IsPositiveText, CheckAllowedStages, ParseText;
    RangeRuleParses(env.rule.range);
    QuotesParse(env.market);
    NumberV2IsText(env.rule.base.priceTick);
    StagesAreContinuous(env.rule.allowedStages);
    if IsRangeText(env.rule.range) {
      RangeTick(env.rule.range);
    }
    PositiveTextIsNumber(env.rule.base.priceTick);
    if IsUsable(env) {
      var rule, quotes := RangeRuleOf(env.rule.range), ParsedQuotes(env.market);
      DecisionsAreValid(rule, env.order.side, Continuous, quotes);
      if Range(rule, env.order.side, Continuous, quotes).status == Calculated {
        CalculatedHasPrices(Range(rule, env.order.side, Continuous, quotes));
      }
    }
  }

  lemma {:induction false} PositiveTextIsNumber(t: string)
    ensures IsPositiveText(t) ==> IsNumberText(t)
  {
    hide IsNumberText, TextValue;
  }

  lemma {:induction false} RangeTick(r: RangeRuleText)
    requires IsRangeText(r)
    ensures Value(RangeRuleOf(r).priceTick) == TextValue(r.priceTick)
    ensures Value(RangeRuleOf(r).buyDeviationRatio) == TextValue(r.buyDeviationRatio)
    ensures Value(RangeRuleOf(r).sellDeviationRatio) == TextValue(r.sellDeviationRatio)
  {
    hide Value, ParseText, IsWireText, NatDigits;
  }

  lemma {:induction false} CalculatedHasPrices(d: RangeDecision)
    requires ValidDecision(d) && d.status == Calculated
    ensures d.reference.Some? && d.boundary.Some?
  {
    hide IsPositive;
  }

  // ---------------------------------------------------------------- the decision of the range

  /** A boundary can be written exactly when the length bound lets its Decimal be printed. */
  lemma {:induction false} WritableIsPrintable(rule: RangeRule, ticks: int)
    requires ValidRule(rule) && ticks > 0
    ensures Components(rule.priceTick, false).Ok?
    ensures IsWritable(ticks, Value(rule.priceTick)) <==> Components(TickMultiple(ticks, rule.priceTick), false).Ok?
  {
    IsPositiveTick(rule);
    var d := TickMultiple(ticks, rule.priceTick);
    PositiveMultiple(ticks, rule.priceTick);
    TickMultipleIsExact(ticks, rule.priceTick);
    PrintingAPositive(d);
    hide Components, TickMultiple, Value, ValidRule, IsNumberText, TextValue, IsPositive;
    if Components(d, false).Ok? {
      var t :| IsNumberText(t) && TextValue(t) == Value(d);
      assert IsTimes(ticks, TextValue(t), Value(rule.priceTick));
    }
    if t: string :| IsNumberText(t) && IsTimes(ticks, TextValue(t), Value(rule.priceTick)) {
      SameTimes(ticks, TextValue(t), Value(d), Value(rule.priceTick));
    }
  }

  lemma {:induction false} SameTimes(k: int, x: real, y: real, tick: real)
    requires IsTimes(k, x, tick) && IsTimes(k, y, tick)
    ensures x == y
  {
  }

  lemma {:induction false} PrintingAPositive(d: Decimal)
    requires !IsZero(d) && !d.negative
    ensures Components(d, false).Ok? <==> exists t: string :: IsNumberText(t) && TextValue(t) == Value(d)
  {
    PrintsWhereItCan(d);
    if Components(d, false).Ok? {
      PrintedPositive(d);
    }
    if t: string :| IsNumberText(t) && TextValue(t) == Value(d) {
      TextIsPrintable(t);
      ComponentsDecideEquality(ParseText(t), d, true);
      hide Components, Value, ParseText, IsWireText;
    }
    hide Components, Value, ParseText, IsWireText, CanonicalText;
  }

  lemma {:induction false} PrintsWhereItCan(d: Decimal)
    requires !IsZero(d)
    ensures Components(d, false) == Components(d, true) && (Components(d, false).Ok? <==> CanonicalText(d).Ok?)
  {
    hide Trim, Coefficient, RenderedLength;
  }

  lemma {:induction false} PrintedPositive(d: Decimal)
    requires !IsZero(d) && !d.negative && Components(d, false).Ok?
    ensures CanonicalText(d).Ok? && IsNumberText(CanonicalText(d).value) && TextValue(CanonicalText(d).value) == Value(d)
  {
    PrintsWhereItCan(d);
    SignOfValue(d);
    PrintThenParse(d);
    var t := CanonicalText(d).value;
    UnsignedParse(t);
    hide CanonicalText, Components, Value, ParseText;
  }

  lemma {:induction false} UnsignedParse(t: string)
    requires IsWireText(t)
    ensures ParseSigned(t) == ParseText(t)
  {
    WireTextIsUnsigned(t);
    hide IsWireText, ParseText;
  }

  /** Some text within the length bound denotes the number. */
  ghost predicate CanBeWritten(x: real) {
    exists t: string :: IsNumberText(t) && TextValue(t) == x
  }

  lemma {:induction false} NumbersAreWritten(d: Decimal)
    ensures IsPositive(d) <==> Value(d) > 0.0 && CanBeWritten(Value(d))
    ensures IsRatio(d) <==> CanBeWritten(Value(d))
  {
    SignOfValue(d);
    SignsOfComponents(d);
    if !IsZero(d) && !d.negative {
      PrintingAPositive(d);
    } else if IsZero(d) {
      ParsePlain("0");
      assert TextValue("0") == 0.0 && IsNumberText("0");
    } else {
      assert forall t: string :: TextValue(t) >= 0.0;
    }
    hide Components, Value, IsNumberText, TextValue, IsZero;
  }

  lemma {:induction false} SignsOfComponents(d: Decimal)
    ensures IsZero(d) ==> IsRatio(d) && !IsPositive(d)
    ensures !IsZero(d) && d.negative ==> !IsRatio(d) && !IsPositive(d)
    ensures !IsZero(d) && !d.negative ==> (IsPositive(d) <==> Components(d, false).Ok?) && (IsRatio(d) <==> Components(d, false).Ok?)
  {
    SignOfValue(d);
    if !IsZero(d) {
      TrimmedCoefficient(d.digits);
    }
    hide Trim, Coefficient, RenderedLength;
  }

  /** What the calculation takes: a positive tick, ratios of which the sell's is below one, and allowances below 10 to the power of 257, the floor positive, all of which can be written; and quotes that hold a positive number that can be written where they are present, and none where they are not. */
  lemma {:induction false} UsableInputsExactly(rule: RangeRule, quote: Quote)
    ensures ValidRule(rule) <==>
              && Value(rule.priceTick) > 0.0 && CanBeWritten(Value(rule.priceTick))
              && CanBeWritten(Value(rule.buyDeviationRatio)) && CanBeWritten(Value(rule.sellDeviationRatio)) && Value(rule.sellDeviationRatio) < 1.0
              && 0 <= rule.buyWideningTicks < Pow10(257) && 0 <= rule.sellWideningTicks < Pow10(257)
              && 0 <= rule.minimumDistanceTicks < Pow10(257) && 0 < rule.lowerFloorTicks < Pow10(257)
    ensures ValidQuote(quote) <==>
              if quote.state == Present then quote.value.Some? && Value(quote.value.value) > 0.0 && CanBeWritten(Value(quote.value.value))
              else quote.value.None?
  {
    hide Value, CanBeWritten, Pow10, IsBoundedInteger, IsPositive, IsRatio;
    NumbersAreWritten(rule.priceTick);
    NumbersAreWritten(rule.buyDeviationRatio);
    NumbersAreWritten(rule.sellDeviationRatio);
    BoundedIsBelow(rule.buyWideningTicks, false);
    BoundedIsBelow(rule.sellWideningTicks, false);
    BoundedIsBelow(rule.minimumDistanceTicks, false);
    BoundedIsBelow(rule.lowerFloorTicks, true);
    if quote.value.Some? {
      NumbersAreWritten(quote.value.value);
    }
  }

  /** The range is calculated exactly from a selected reference at whole ticks whose boundary can be written. */
  lemma {:induction false} CalculatedExactly(env: EnvelopeV2)
    requires IsUsable(env)
    ensures RangeOf(env).status == Calculated <==> exists source: QuoteSource, R: int :: IsReference(env, source, R)
    ensures forall source: QuoteSource, R: int :: IsReference(env, source, R) ==> RangeOf(env).reference == Some(NumberOf(SelectedText(env, source)))
  {
    hide *;
    UsableParts(env);
    forall source: QuoteSource, R: int | IsReference(env, source, R)
      ensures RangeOf(env).status == Calculated && RangeOf(env).reference == Some(NumberOf(SelectedText(env, source)))
    {
      ReferenceIsCalculated(env, source, R);
    }
    if RangeOf(env).status == Calculated {
      var source, R := CalculatedHasReference(env);
    }
  }

  lemma {:induction false} UsableParts(env: EnvelopeV2)
    requires IsUsable(env)
    ensures IsRangeText(env.rule.range) && AreQuoteTexts(env.market) && ValidRule(RangeRuleOf(env.rule.range)) && ValidQuotes(ParsedQuotes(env.market))
  {
    RangeRuleParses(env.rule.range);
    QuotesParse(env.market);
    hide IsRangeText, IsQuoteText, ParsedQuotes, ValidRule, ValidQuotes, ParseRangeRule, ParseQuotes;
  }

  /** The closed form is the same on the parsed rule. */
  lemma {:induction false} SameBoundary(r: RangeRuleText, side: Side, R: int)
    requires IsRangeText(r)
    ensures ClosedFormTicks(RangeRuleOf(r), side, R) == BoundaryTicksOf(r, side, R)
  {
    RangeTick(r);
    hide IsRangeText, Value, TextValue, BuyTicks, SellTicks, ParseText;
  }

  lemma {:induction false} QuoteIsParsed(q: QuoteText)
    requires IsQuoteText(q)
    ensures ParsedQuote(q).state == q.state
    ensures q.state == Present ==> q.value.Some? && IsPositiveText(q.value.value) && ParsedQuote(q).value == Some(NumberOf(q.value.value))
  {
    hide ParseText, IsWireText, TextValue;
  }

  /** The selected text is the quote that the range uses. */
  lemma {:induction false} SelectedIsUsed(env: EnvelopeV2, source: QuoteSource)
    requires AreQuoteTexts(env.market)
    ensures var quotes := ParsedQuotes(env.market);
            && (IsSelected(env, source) <==> IsUsed(quotes, env.order.side, source) && QuoteNamed(quotes, source).state == Present)
            && (IsSelected(env, source) ==>
                 IsPositiveText(SelectedText(env, source)) && QuoteNamed(quotes, source).value == Some(NumberOf(SelectedText(env, source))))
  {
    hide IsQuoteText, ParsedQuote, IsPositiveText, NumberOf;
    QuoteIsParsed(env.market.ask);
    QuoteIsParsed(env.market.bid);
    QuoteIsParsed(env.market.latest);
    QuoteIsParsed(env.market.previousClose);
    match source {
      case Ask =>
      case Bid =>
      case Latest =>
      case PreviousClose =>
    }
  }

  lemma {:induction false} ReferenceIsCalculated(env: EnvelopeV2, source: QuoteSource, R: int)
    requires IsUsable(env) && IsReference(env, source, R)
    ensures RangeOf(env).status == Calculated && RangeOf(env).reference == Some(NumberOf(SelectedText(env, source)))
  {
    hide *;
    UsableParts(env);
    ReferenceParts(env, source, R);
    RangeOfParts(env);
    var rule, side, text := RangeRuleOf(env.rule.range), env.order.side, SelectedText(env, source);
    SelectedIsUsed(env, source);
    PositiveTextParses(text);
    RangeTick(env.rule.range);
    SameBoundary(env.rule.range, side, R);
    RangeOnUsed(rule, side, ParsedQuotes(env.market), source);
    DecidedOn(rule, side, source, NumberOf(text));
    ReferenceIsInside(rule, R);
    PositiveClosedForm(rule, side, R);
    WritableIsPrintable(rule, ClosedFormTicks(rule, side, R));
  }

  lemma {:induction false} PositiveClosedForm(rule: RangeRule, side: Side, R: int)
    requires ValidRule(rule) && R > 0
    ensures ClosedFormTicks(rule, side, R) > 0
  {
    ReferenceIsInside(rule, R);
    hide ClosedFormTicks, ValidRule;
  }

  lemma {:induction false} ReferenceParts(env: EnvelopeV2, source: QuoteSource, R: int)
    ensures IsReference(env, source, R) <==>
              && IsUsable(env) && IsSelected(env, source)
              && R > 0 && IsTimes(R, TextValue(SelectedText(env, source)), TextValue(env.rule.range.priceTick))
              && IsWritable(BoundaryTicksOf(env.rule.range, env.order.side, R), TextValue(env.rule.range.priceTick))
  {
    hide IsUsable, IsSelected, IsTimes, TextValue, SelectedText, IsWritable, BoundaryTicksOf;
  }

  lemma {:induction false} RangeOfParts(env: EnvelopeV2)
    requires IsUsable(env) && IsRangeText(env.rule.range) && AreQuoteTexts(env.market)
    ensures RangeOf(env) == Range(RangeRuleOf(env.rule.range), env.order.side, Continuous, ParsedQuotes(env.market))
  {
    hide IsUsable, IsRangeText, AreQuoteTexts, RangeRuleOf, ParsedQuotes, Range;
  }

  lemma {:induction false} PositiveTextParses(t: string)
    requires IsPositiveText(t)
    ensures IsWireText(t) && NumberOf(t) == ParseText(t) && IsPositive(NumberOf(t)) && Value(NumberOf(t)) == TextValue(t)
  {
    TextIsPrintable(t);
    hide IsWireText, ParseText, Value, IsPositive, IsRatio, Components;
  }

  lemma {:induction false} CalculatedHasReference(env: EnvelopeV2) returns (source: QuoteSource, R: int)
    requires IsUsable(env) && RangeOf(env).status == Calculated
    ensures IsReference(env, source, R)
  {
    hide *;
    UsableParts(env);
    RangeOfParts(env);
    var rule, side, quotes := RangeRuleOf(env.rule.range), env.order.side, ParsedQuotes(env.market);
    ReasonsAreExact(rule, side, Continuous, quotes);
    source :| IsUsed(quotes, side, source) && QuoteNamed(quotes, source).state == Present;
    SelectedIsUsed(env, source);
    var text := SelectedText(env, source);
    PositiveTextParses(text);
    RangeTick(env.rule.range);
    RangeOnUsed(rule, side, quotes, source);
    DecidedOn(rule, side, source, NumberOf(text));
    R :| IsTimes(R, Value(NumberOf(text)), Value(rule.priceTick));
    IsPositiveTick(rule);
    PositiveValue(rule.priceTick);
    PositiveValue(NumberOf(text));
    PositiveQuotient(R, Value(NumberOf(text)), Value(rule.priceTick));
    SameBoundary(env.rule.range, side, R);
    PositiveClosedForm(rule, side, R);
    WritableIsPrintable(rule, ClosedFormTicks(rule, side, R));
    ReferenceParts(env, source, R);
  }

  // ---------------------------------------------------------------- v2

  /** The decision allows this order under this rule and this evidence, by their outer hashes. */
  predicate IsOuterBound(env: EnvelopeV2) {
    && env.decision.allowed && env.decision.reasonCodes == [] && env.decision.orderId == env.order.orderId
    && env.decision.ruleHash == env.rule.contentHash == env.rule.canonicalHash
    && env.decision.marketHash == env.market.contentHash == env.market.canonicalHash
  }

  lemma {:induction false} OuterBindingHolds(env: EnvelopeV2)
    ensures CheckOuterBinding(env) == Pass <==> IsOuterBound(env)
  {
  }

  /** The reference lies in the daily band, and the limit price is so many ticks, on the inner side of the boundary. */
  ghost predicate IsCagedAt(env: EnvelopeV2, source: QuoteSource, R: int, k: int) {
    var market, boundary := env.market.base, BoundaryTicksOf(env.rule.range, env.order.side, R);
    && IsReference(env, source, R) && IsBandText(market)
    && IsInTextBand(market, TextValue(SelectedText(env, source)))
    && IsTimes(k, TextValue(env.order.limitPrice), TextValue(env.rule.range.priceTick))
    && if env.order.side == Buy then k <= boundary else k >= boundary
  }

  /** The price of the order is inside the cage around the selected reference. */
  ghost predicate IsCaged(env: EnvelopeV2) {
    exists source: QuoteSource, R: int, k: int :: IsCagedAt(env, source, R, k)
  }

  /** What a cage is, where there is one. */
  lemma {:induction false} CageOf(env: EnvelopeV2) returns (source: QuoteSource, R: int)
    requires Cage(env).Ok?
    ensures IsReference(env, source, R) && IsCageFrom(env, source)
  {
    hide *;
    CageParts(env);
    CalculatedExactly(env);
    source, R := CalculatedHasReference(env);
    FromReference(env, source, R);
  }

  /** The cage has the range rule and the selected reference of the texts. */
  predicate IsCageFrom(env: EnvelopeV2, source: QuoteSource) {
    && Cage(env).Ok? && IsRangeText(env.rule.range)
    && Cage(env).value.rule == RangeRuleOf(env.rule.range) && Cage(env).value.reference == NumberOf(SelectedText(env, source))
  }

  lemma {:induction false} FromReference(env: EnvelopeV2, source: QuoteSource, R: int)
    requires IsReference(env, source, R)
    ensures IsUsable(env) && IsCageFrom(env, source)
  {
    ReferenceIsUsable(env, source, R);
    hide IsReference, IsUsable, Cage, IsRangeText, RangeOf, RangeRuleOf, NumberOf, SelectedText;
    CageParts(env);
    CalculatedExactly(env);
  }

  lemma {:induction false} ReferenceIsUsable(env: EnvelopeV2, source: QuoteSource, R: int)
    requires IsReference(env, source, R)
    ensures IsUsable(env) && IsSelected(env, source) && R > 0 && IsTimes(R, TextValue(SelectedText(env, source)), TextValue(env.rule.range.priceTick))
  {
    hide *;
    ReferenceParts(env, source, R);
  }

  /** The numbers of a cage, under their texts. */
  lemma {:induction false} CageNumbers(env: EnvelopeV2, source: QuoteSource, R: int)
    requires IsReference(env, source, R) && IsCageFrom(env, source)
    ensures var cage, tick := Cage(env).value, TextValue(env.rule.range.priceTick);
            && tick > 0.0 && Value(cage.rule.priceTick) == tick && Value(cage.reference) == TextValue(SelectedText(env, source))
            && forall r :: ClosedFormTicks(cage.rule, env.order.side, r) == BoundaryTicksOf(env.rule.range, env.order.side, r)
  {
    ReferenceIsUsable(env, source, R);
    UsableParts(env);
    SelectedIsUsed(env, source);
    PositiveTextParses(SelectedText(env, source));
    RangeTick(env.rule.range);
    TickIsPositive(env.rule.range);
    forall r: int
      ensures ClosedFormTicks(RangeRuleOf(env.rule.range), env.order.side, r) == BoundaryTicksOf(env.rule.range, env.order.side, r)
    {
      SameBoundary(env.rule.range, env.order.side, r);
    }
    hide IsReference, IsUsable, Cage, IsRangeText, RangeRuleOf, NumberOf, SelectedText, TextValue, Value, ClosedFormTicks, BoundaryTicksOf, IsPositive,
      FirstNotAbsent, ParsedQuotes, AreQuoteTexts, ValidRule, ValidQuotes, SourceOrder, IsSelected, IsWireText, ParseText, IsTimes;
  }

  lemma {:induction false} TickIsPositive(r: RangeRuleText)
    requires IsRangeText(r)
    ensures TextValue(r.priceTick) > 0.0
  {
    hide TextValue, IsNumberText, NatDigits;
  }

  /** Inside the parsed cage is inside the cage of the texts, with the reference that was selected. */
  lemma {:induction false} InsideIsCaged(env: EnvelopeV2, n: Numbers, source: QuoteSource, R: int)
    requires IsReference(env, source, R) && IsCageFrom(env, source) && IsBandText(env.market.base)
    requires Value(n.limitPrice) == TextValue(env.order.limitPrice) && n.terms.band == BandOf(env.market.base)
    ensures forall r: int, k: int :: IsInsideBoundary(Cage(env).value, env.order.side, Value(n.limitPrice), r, k) ==> r == R
    ensures forall k: int ::
              (InBand(n.terms.band, Cage(env).value.reference) && IsInsideBoundary(Cage(env).value, env.order.side, Value(n.limitPrice), R, k))
              <==> IsCagedAt(env, source, R, k)
  {
    hide *;
    CageFromIsOk(env, source);
    CageNumbers(env, source, R);
    ReferenceIsUsable(env, source, R);
    BandIsText(env.market.base, Cage(env).value.reference, TextValue(SelectedText(env, source)));
    var cage := Cage(env).value;
    forall r: int, k: int | IsInsideBoundary(cage, env.order.side, Value(n.limitPrice), r, k)
      ensures r == R
    {
      InsideParts(cage, env.order.side, Value(n.limitPrice), r, k);
      TickOrder(r, R, Value(cage.reference), Value(cage.reference), TextValue(env.rule.range.priceTick));
    }
    forall k: int
      ensures (InBand(n.terms.band, cage.reference) && IsInsideBoundary(cage, env.order.side, Value(n.limitPrice), R, k)) <==> IsCagedAt(env, source, R, k)
    {
      InsideParts(cage, env.order.side, Value(n.limitPrice), R, k);
      CagedParts(env, source, R, k);
    }
  }

  lemma {:induction false} BandIsText(market: MarketV1, price: Decimal, x: real)
    requires IsBandText(market) && Value(price) == x
    ensures InBand(BandOf(market), price) <==> IsInTextBand(market, x)
  {
    BandValues(market);
    hide IsBandText, BandOf, Value, TextValue;
  }

  /** Inside the daily band, where prices are limited. */
  predicate IsInTextBand(market: MarketV1, x: real)
    requires IsBandText(market)
  {
    market.boundaryMode == Limited ==> TextValue(market.lowerLimit.value) <= x <= TextValue(market.upperLimit.value)
  }

  lemma {:induction false} InsideParts(cage: PriceLimits, side: Side, price: real, r: int, k: int)
    ensures IsInsideBoundary(cage, side, price, r, k) <==>
              && r > 0 && IsTimes(r, Value(cage.reference), Value(cage.rule.priceTick)) && IsTimes(k, price, Value(cage.rule.priceTick))
              && if side == Buy then k <= ClosedFormTicks(cage.rule, side, r) else k >= ClosedFormTicks(cage.rule, side, r)
  {
    hide Value, ClosedFormTicks, IsTimes;
  }

  lemma {:induction false} CagedParts(env: EnvelopeV2, source: QuoteSource, R: int, k: int)
    requires IsBandText(env.market.base)
    ensures IsCagedAt(env, source, R, k) <==>
              && IsReference(env, source, R) && IsInTextBand(env.market.base, TextValue(SelectedText(env, source)))
              && IsTimes(k, TextValue(env.order.limitPrice), TextValue(env.rule.range.priceTick))
              && if env.order.side == Buy then k <= BoundaryTicksOf(env.rule.range, env.order.side, R) else k >= BoundaryTicksOf(env.rule.range, env.order.side, R)
  {
    hide IsReference, IsBandText, TextValue, SelectedText, IsTimes, BoundaryTicksOf;
  }

  lemma {:induction false} CagedIsText(env: EnvelopeV2, n: Numbers)
    requires IsBandText(env.market.base) && Value(n.limitPrice) == TextValue(env.order.limitPrice) && n.terms.band == BandOf(env.market.base)
    ensures IsParsedCaged(env, n) <==> IsCaged(env)
  {
    hide IsReference, IsCageFrom, Cage, IsBandText, BandOf, Value, TextValue, IsInsideBoundary, InBand, IsCagedAt;
    if IsParsedCaged(env, n) {
      var source, R := CageOf(env);
      InsideIsCaged(env, n, source, R);
      var r: int, k: int :| IsInsideBoundary(Cage(env).value, env.order.side, Value(n.limitPrice), r, k);
      assert IsCagedAt(env, source, R, k);
    }
    if source: QuoteSource, R: int, k: int :| IsCagedAt(env, source, R, k) {
      CagedHasReference(env, source, R, k);
      FromReference(env, source, R);
      InsideIsCaged(env, n, source, R);
      CageFromIsOk(env, source);
      assert IsInsideBoundary(Cage(env).value, env.order.side, Value(n.limitPrice), R, k);
    }
  }

  lemma {:induction false} CagedHasReference(env: EnvelopeV2, source: QuoteSource, R: int, k: int)
    requires IsCagedAt(env, source, R, k)
    ensures IsReference(env, source, R)
  {
    hide IsReference, TextValue, IsTimes, SelectedText, BoundaryTicksOf;
  }

  lemma {:induction false} CageFromIsOk(env: EnvelopeV2, source: QuoteSource)
    requires IsCageFrom(env, source)
    ensures Cage(env).Ok?
  {
    hide Cage, IsRangeText, RangeRuleOf, NumberOf, SelectedText;
  }

  /** The v2 validator accepts exactly the bound envelopes whose inner envelope, of the base rule, the base evidence and the same order, is admissible, and whose price is caged. */
  lemma {:induction false} AcceptsExactlyV2(env: EnvelopeV2, inner: EnvelopeV1, t: int, zone: Zone)
    requires inner.asOf == env.asOf && inner.rule == env.rule.base && inner.market == env.market.base && inner.order == env.order
    requires inner.decision == ServerDecision(true, [], env.order.orderId, env.rule.base.contentHash, env.market.base.contentHash)
    ensures ValidateV2(env, t, zone) == Pass <==> IsOuterBound(env) && IsAdmissible(inner, t, zone) && IsCaged(env)
  {
    assert inner == DerivedV1(env);
    hide *;
    AcceptsParsedV2(env, t, zone);
    AcceptsParsed(DerivedV1(env), t, zone);
    AcceptsExactly(DerivedV1(env), t, zone);
    OuterBindingHolds(env);
    SameMarket(env);
    if IsAdmissible(DerivedV1(env), t, zone) {
      Folded(DerivedV1(env), t, zone);
      WellFormedHasNumbers(DerivedV1(env));
      NumbersOf(DerivedV1(env));
      CagedIsText(env, ParseNumbers(DerivedV1(env)).value);
    }
  }

  lemma {:induction false} SameMarket(env: EnvelopeV2)
    ensures DerivedV1(env).market == env.market.base && DerivedV1(env).order == env.order
  {
  }
}
