/** Every answer of the price range, on the quotes by name: which quote is the reference of which side, and what is denied for what reason. */
module PriceAnswers {
  import opened Outcomes
  import opened Decimals
  import opened PriceCage

  /** The first quote of the side that is not confirmed absent: a buy looks at the ask, then the bid, a sell at the bid, then the ask; both then look at the latest price and the previous close. */
  predicate IsUsed(quotes: Quotes, side: Side, source: QuoteSource) {
    match source
    case Ask => quotes.ask.state != ConfirmedAbsent && (side == Sell ==> quotes.bid.state == ConfirmedAbsent)
    case Bid => quotes.bid.state != ConfirmedAbsent && (side == Buy ==> quotes.ask.state == ConfirmedAbsent)
    case Latest =>
      quotes.latest.state != ConfirmedAbsent && quotes.ask.state == ConfirmedAbsent && quotes.bid.state == ConfirmedAbsent
    case PreviousClose =>
      && quotes.previousClose.state != ConfirmedAbsent
      && quotes.ask.state == ConfirmedAbsent && quotes.bid.state == ConfirmedAbsent && quotes.latest.state == ConfirmedAbsent
  }

  predicate AreAbsent(quotes: Quotes) {
    && quotes.ask.state == ConfirmedAbsent && quotes.bid.state == ConfirmedAbsent
    && quotes.latest.state == ConfirmedAbsent && quotes.previousClose.state == ConfirmedAbsent
  }

  /** The quote under the name. */
  function QuoteNamed(quotes: Quotes, source: QuoteSource): Quote {
    if source == Ask then quotes.ask
    else if source == Bid then quotes.bid
    else if source == Latest then quotes.latest
    else quotes.previousClose
  }

  lemma {:induction false} UnfoldFirst(quotes: Quotes, a: QuoteSource, b: QuoteSource, c: QuoteSource, d: QuoteSource)
    ensures FirstNotAbsent(quotes, [a, b, c, d]) ==
              if quotes.Of(a).state != ConfirmedAbsent then Some(a)
              else if quotes.Of(b).state != ConfirmedAbsent then Some(b)
              else if quotes.Of(c).state != ConfirmedAbsent then Some(c)
              else if quotes.Of(d).state != ConfirmedAbsent then Some(d)
              else None
  {
    FirstOf(quotes, d, []);
    FirstOf(quotes, c, [d]);
    FirstOf(quotes, b, [c, d]);
    FirstOf(quotes, a, [b, c, d]);
    assert FirstNotAbsent(quotes, []) == None;
    hide FirstNotAbsent;
    assert [a] + [b, c, d] == [a, b, c, d] && [b] + [c, d] == [b, c, d] && [c] + [d] == [c, d] && [d] + [] == [d];
  }

  lemma {:induction false} FirstOf(quotes: Quotes, a: QuoteSource, rest: seq<QuoteSource>)
    ensures FirstNotAbsent(quotes, [a] + rest) == if quotes.Of(a).state != ConfirmedAbsent then Some(a) else FirstNotAbsent(quotes, rest)
  {
    assert ([a] + rest)[0] == a && ([a] + rest)[1..] == rest;
  }

  lemma {:induction false} InvalidOf(quotes: Quotes, a: QuoteSource, rest: seq<QuoteSource>)
    ensures FirstInvalid(quotes, [a] + rest) == if !ValidQuote(quotes.Of(a)) then Some(a) else FirstInvalid(quotes, rest)
  {
    hide ValidQuote;
    assert ([a] + rest)[0] == a && ([a] + rest)[1..] == rest;
  }

  lemma {:induction false} FirstIsUsed(quotes: Quotes, side: Side, source: QuoteSource)
    ensures FirstNotAbsent(quotes, SourceOrder(side)) == Some(source) <==> IsUsed(quotes, side, source)
    ensures FirstNotAbsent(quotes, SourceOrder(side)).None? <==> AreAbsent(quotes)
    ensures quotes.Of(source) == QuoteNamed(quotes, source)
  {
    UnfoldFirst(quotes, Ask, Bid, Latest, PreviousClose);
    UnfoldFirst(quotes, Bid, Ask, Latest, PreviousClose);
    hide FirstNotAbsent;
  }

  lemma {:induction false} UnfoldInvalid(quotes: Quotes)
    ensures FirstInvalid(quotes, [Ask, Bid, Latest, PreviousClose]) ==
              if !ValidQuote(quotes.ask) then Some(Ask)
              else if !ValidQuote(quotes.bid) then Some(Bid)
              else if !ValidQuote(quotes.latest) then Some(Latest)
              else if !ValidQuote(quotes.previousClose) then Some(PreviousClose)
              else None
  {
    InvalidOf(quotes, PreviousClose, []);
    InvalidOf(quotes, Latest, [PreviousClose]);
    InvalidOf(quotes, Bid, [Latest, PreviousClose]);
    InvalidOf(quotes, Ask, [Bid, Latest, PreviousClose]);
    assert FirstInvalid(quotes, []) == None;
    hide ValidQuote, FirstInvalid;
    assert [Ask] + [Bid, Latest, PreviousClose] == [Ask, Bid, Latest, PreviousClose] && [Bid] + [Latest, PreviousClose] == [Bid, Latest, PreviousClose];
    assert [Latest] + [PreviousClose] == [Latest, PreviousClose] && [PreviousClose] + [] == [PreviousClose];
  }

  /** The range on valid input in continuous trading is decided on the used quote. */
  lemma {:induction false} RangeOnUsed(rule: RangeRule, side: Side, quotes: Quotes, source: QuoteSource)
    requires ValidRule(rule) && ValidQuotes(quotes) && IsUsed(quotes, side, source)
    ensures var quote, d := QuoteNamed(quotes, source), Range(rule, side, Continuous, quotes);
            if quote.state == QuoteUnknown then d == RangeDecision(Denied, side, Continuous, Some(source), None, None, Some(ReferenceQuoteUnknown))
            else quote.state == Present && quote.value.Some? && IsPositive(quote.value.value) && d == DecideOnReference(rule, side, source, quote.value.value)
  {
    hide *;
    UnfoldInvalid(quotes);
    FirstIsUsed(quotes, side, source);
    UsedIsValid(quotes, side, source);
    ValidByName(quotes);
    RangeFrom(rule, side, quotes, source);
    PresentIsPositive(QuoteNamed(quotes, source));
  }

  lemma {:induction false} PresentIsPositive(quote: Quote)
    requires ValidQuote(quote)
    ensures quote.state == Present ==> quote.value.Some? && IsPositive(quote.value.value)
  {
    hide IsPositive;
  }

  lemma {:induction false} ValidByName(quotes: Quotes)
    ensures ValidQuotes(quotes) <==> ValidQuote(quotes.ask) && ValidQuote(quotes.bid) && ValidQuote(quotes.latest) && ValidQuote(quotes.previousClose)
  {
    hide ValidQuote;
    assert quotes.Of(Ask) == quotes.ask && quotes.Of(Bid) == quotes.bid;
    assert quotes.Of(Latest) == quotes.latest && quotes.Of(PreviousClose) == quotes.previousClose;
    if ValidQuote(quotes.ask) && ValidQuote(quotes.bid) && ValidQuote(quotes.latest) && ValidQuote(quotes.previousClose) {
      forall source: QuoteSource
        ensures ValidQuote(quotes.Of(source))
      {
        match source {
          case Ask => assert ValidQuote(quotes.Of(Ask));
          case Bid => assert ValidQuote(quotes.Of(Bid));
          case Latest => assert ValidQuote(quotes.Of(Latest));
          case PreviousClose => assert ValidQuote(quotes.Of(PreviousClose));
        }
      }
    }
  }

  lemma {:induction false} RangeFrom(rule: RangeRule, side: Side, quotes: Quotes, source: QuoteSource)
    requires ValidRule(rule) && FirstInvalid(quotes, [Ask, Bid, Latest, PreviousClose]).None?
    requires FirstNotAbsent(quotes, SourceOrder(side)) == Some(source) && quotes.Of(source) == QuoteNamed(quotes, source)
    requires QuoteNamed(quotes, source).state != ConfirmedAbsent && ValidQuote(QuoteNamed(quotes, source))
    ensures var quote, d := QuoteNamed(quotes, source), Range(rule, side, Continuous, quotes);
            && (quote.state == QuoteUnknown ==> d == RangeDecision(Denied, side, Continuous, Some(source), None, None, Some(ReferenceQuoteUnknown)))
            && (quote.state == Present ==> quote.value.Some? && d == DecideOnReference(rule, side, source, quote.value.value))
            && (quote.state == QuoteUnknown || quote.state == Present)
  {
    hide ValidRule, FirstInvalid, FirstNotAbsent, SourceOrder, DecideOnReference, IsPositive, QuoteNamed;
  }

  lemma {:induction false} UsedIsValid(quotes: Quotes, side: Side, source: QuoteSource)
    requires ValidQuotes(quotes) && IsUsed(quotes, side, source)
    ensures ValidQuote(QuoteNamed(quotes, source)) && QuoteNamed(quotes, source).state != ConfirmedAbsent
  {
    ValidByName(quotes);
    hide ValidQuote, ValidQuotes;
  }

  lemma {:induction false} RangeWithout(rule: RangeRule, side: Side, stage: Stage, quotes: Quotes)
    requires !(ValidRule(rule) && ValidQuotes(quotes) && stage == Continuous && !AreAbsent(quotes))
    ensures var d := Range(rule, side, stage, quotes);
            d == if !ValidRule(rule) then RangeDecision(Denied, side, stage, None, None, None, Some(InvalidRule))
                 else if !ValidQuote(quotes.ask) then RangeDecision(Denied, side, stage, Some(Ask), None, None, Some(InvalidQuote))
                 else if !ValidQuote(quotes.bid) then RangeDecision(Denied, side, stage, Some(Bid), None, None, Some(InvalidQuote))
                 else if !ValidQuote(quotes.latest) then RangeDecision(Denied, side, stage, Some(Latest), None, None, Some(InvalidQuote))
                 else if !ValidQuote(quotes.previousClose) then RangeDecision(Denied, side, stage, Some(PreviousClose), None, None, Some(InvalidQuote))
                 else if stage == StageUnknown then RangeDecision(Denied, side, stage, None, None, None, Some(StageIsUnknown))
                 else if stage != Continuous then RangeDecision(NotApplicable, side, stage, None, None, None, Some(PriceCageNotApplicable))
                 else RangeDecision(Denied, side, stage, None, None, None, Some(NoReferenceQuote))
  {
    UnfoldInvalid(quotes);
    ValidByName(quotes);
    FirstIsUsed(quotes, side, Ask);
    hide FirstNotAbsent, FirstInvalid, SourceOrder, DecideOnReference, ValidRule, ValidQuote;
  }

  /** Some source is used unless all are absent. */
  lemma {:induction false} SomeIsUsed(quotes: Quotes, side: Side) returns (source: QuoteSource)
    requires !AreAbsent(quotes)
    ensures IsUsed(quotes, side, source)
  {
    var present := (q: Quote) => q.state != ConfirmedAbsent;
    source := if side == Buy && present(quotes.ask) then Ask
              else if present(quotes.bid) then Bid
              else if present(quotes.ask) then Ask
              else if present(quotes.latest) then Latest
              else PreviousClose;
  }

  /** A calculated sell takes the bid where it is present, the ask where the bid is confirmed absent, then the latest price and the previous close; a buy looks at the ask first. The reference is the value of that quote. */
  lemma {:induction false} ReferenceBySide(rule: RangeRule, side: Side, stage: Stage, quotes: Quotes)
    requires Range(rule, side, stage, quotes).status == Calculated
    ensures var d, ask, bid, latest, close := Range(rule, side, stage, quotes), quotes.ask, quotes.bid, quotes.latest, quotes.previousClose;
            && (side == Sell ==>
                 && (d.source == Some(Bid) <==> bid.state == Present)
                 && (d.source == Some(Ask) <==> bid.state == ConfirmedAbsent && ask.state == Present))
            && (side == Buy ==>
                 && (d.source == Some(Ask) <==> ask.state == Present)
                 && (d.source == Some(Bid) <==> ask.state == ConfirmedAbsent && bid.state == Present))
            && (d.source == Some(Latest) <==> ask.state == ConfirmedAbsent && bid.state == ConfirmedAbsent && latest.state == Present)
            && (d.source == Some(PreviousClose) <==>
                  ask.state == ConfirmedAbsent && bid.state == ConfirmedAbsent && latest.state == ConfirmedAbsent && close.state == Present)
            && d.source.Some?
            && d.reference == (match d.source.value case Ask => ask.value case Bid => bid.value case Latest => latest.value case PreviousClose => close.value)
  {
    hide ValidRule, ValidQuotes, ValidQuote, Range, DecideOnReference, IsPositive;
    CalculatedRange(rule, side, stage, quotes);
    assert !AreAbsent(quotes) by {
      if AreAbsent(quotes) {
        RangeWithout(rule, side, stage, quotes);
      }
    }
    var source := SomeIsUsed(quotes, side);
    RangeOnUsed(rule, side, quotes, source);
    DecidedOn(rule, side, source, QuoteNamed(quotes, source).value.value);
  }

  /** The decision on a reference names its side, source and reference, and is calculated, off the tick, or too long to write. */
  lemma {:induction false} DecidedOn(rule: RangeRule, side: Side, source: QuoteSource, reference: Decimal)
    requires ValidRule(rule) && IsPositive(reference)
    ensures var d := DecideOnReference(rule, side, source, reference);
            && d.side == side && d.stage == Continuous && d.source == Some(source) && d.reference == Some(reference)
            && (d.status == Calculated <==> d.reason.None?) && d.status != NotApplicable
            && d.reason in {None, Some(ReferencePriceNotOnTick), Some(CalculatedBoundaryOutOfRange)}
            && (d.reason == Some(ReferencePriceNotOnTick) <==> forall k: int :: !IsTimes(k, Value(reference), Value(rule.priceTick)))
            && (forall R: int :: IsTimes(R, Value(reference), Value(rule.priceTick)) ==>
                 (d.reason.None? <==> Components(TickMultiple(ClosedFormTicks(rule, side, R), rule.priceTick), false).Ok?))
  {
    DecisionOffTick(rule, side, source, reference);
    DecisionParts(rule, side, source, reference);
    forall R: int | IsTimes(R, Value(reference), Value(rule.priceTick))
      ensures DecideOnReference(rule, side, source, reference).reason.None? <==>
                Components(TickMultiple(ClosedFormTicks(rule, side, R), rule.priceTick), false).Ok?
    {
      DecisionOnTick(rule, side, source, reference, R);
    }
    hide DecideOnReference, Value, Components, TickMultiple, ClosedFormTicks, ValidRule, IsPositive, IsTimes;
  }

  lemma {:induction false} DecisionParts(rule: RangeRule, side: Side, source: QuoteSource, reference: Decimal)
    requires ValidRule(rule)
    ensures var d := DecideOnReference(rule, side, source, reference);
            && d.side == side && d.stage == Continuous && d.source == Some(source) && d.reference == Some(reference)
            && (d.status == Calculated <==> d.reason.None?) && d.status != NotApplicable
            && d.reason in {None, Some(ReferencePriceNotOnTick), Some(CalculatedBoundaryOutOfRange)}
  {
    hide Value, Components, TickMultiple, BoundaryTicks, OnTick;
  }

  /** Each reason stands for exactly one state of the input, in the order in which the input is looked at. */
  lemma {:induction false} ReasonsAreExact(rule: RangeRule, side: Side, stage: Stage, quotes: Quotes)
    ensures var d, valid := Range(rule, side, stage, quotes), ValidRule(rule) && ValidQuotes(quotes);
            && (d.reason == Some(InvalidRule) <==> !ValidRule(rule))
            && (d.reason == Some(InvalidQuote) <==> ValidRule(rule) && !ValidQuotes(quotes))
            && (d.reason == Some(StageIsUnknown) <==> valid && stage == StageUnknown)
            && (d.reason == Some(PriceCageNotApplicable) <==> valid && stage != StageUnknown && stage != Continuous)
            && (d.reason == Some(NoReferenceQuote) <==> valid && stage == Continuous && AreAbsent(quotes))
            && (d.reason == Some(ReferenceQuoteUnknown) <==>
                  valid && stage == Continuous && exists source :: IsUsed(quotes, side, source) && QuoteNamed(quotes, source).state == QuoteUnknown)
            && (d.reason in {None, Some(ReferencePriceNotOnTick), Some(CalculatedBoundaryOutOfRange)} <==>
                  valid && stage == Continuous && exists source :: IsUsed(quotes, side, source) && QuoteNamed(quotes, source).state == Present)
            && (d.status == Calculated <==> d.reason.None?) && (d.status == NotApplicable <==> d.reason == Some(PriceCageNotApplicable))
  {
    ValidByName(quotes);
    hide ValidRule, ValidQuote, ValidQuotes, Range, DecideOnReference, IsPositive, IsUsed;
    if !(ValidRule(rule) && ValidQuotes(quotes) && stage == Continuous && !AreAbsent(quotes)) {
      RangeWithout(rule, side, stage, quotes);
      NoneUsed(quotes, side);
    } else {
      var source := SomeIsUsed(quotes, side);
      RangeOnUsed(rule, side, quotes, source);
      forall other | IsUsed(quotes, side, other)
        ensures other == source
      {
        OnlyOneUsed(quotes, side, source, other);
      }
      if QuoteNamed(quotes, source).state == Present {
        DecidedOn(rule, side, source, QuoteNamed(quotes, source).value.value);
      }
    }
  }

  lemma {:induction false} NoneUsed(quotes: Quotes, side: Side)
    ensures AreAbsent(quotes) ==> forall source :: !IsUsed(quotes, side, source)
  {
  }

  lemma {:induction false} OnlyOneUsed(quotes: Quotes, side: Side, a: QuoteSource, b: QuoteSource)
    requires IsUsed(quotes, side, a) && IsUsed(quotes, side, b)
    ensures a == b
  {
  }

  /** An invalid quote is named: the first of ask, bid, latest price and previous close that is invalid. */
  lemma {:induction false} InvalidQuoteIsNamed(rule: RangeRule, side: Side, stage: Stage, quotes: Quotes)
    requires ValidRule(rule) && !ValidQuotes(quotes)
    ensures var d := Range(rule, side, stage, quotes);
            && (d.source == Some(Ask) <==> !ValidQuote(quotes.ask))
            && (d.source == Some(Bid) <==> ValidQuote(quotes.ask) && !ValidQuote(quotes.bid))
            && (d.source == Some(Latest) <==> ValidQuote(quotes.ask) && ValidQuote(quotes.bid) && !ValidQuote(quotes.latest))
            && d.source.Some? && d.reference.None?
  {
    RangeWithout(rule, side, stage, quotes);
    ValidByName(quotes);
    hide Range, ValidRule, ValidQuote, ValidQuotes;
  }
}
