/** The price-submission range: reference selection, exact boundary in ticks, and the decision built from them. */
module PriceCage {
  import opened Outcomes
  import opened Decimals

  datatype Side = Buy | Sell

  datatype QuoteState = Present | ConfirmedAbsent | QuoteUnknown

  datatype QuoteSource = Ask | Bid | Latest | PreviousClose

  datatype Stage = Continuous | OpeningAuction | ClosingAuction | Halted | StageUnknown

  datatype RangeStatus = Calculated | NotApplicable | Denied

  datatype RangeReason =
    | PriceCageNotApplicable
    | StageIsUnknown
    | InvalidRule
    | InvalidQuote
    | ReferenceQuoteUnknown
    | NoReferenceQuote
    | ReferencePriceNotOnTick
    | CalculatedBoundaryOutOfRange

  datatype Quote = Quote(state: QuoteState, value: Option<Decimal>)

  datatype Quotes = Quotes(ask: Quote, bid: Quote, latest: Quote, previousClose: Quote) {
    function Of(source: QuoteSource): Quote {
      match source
      case Ask => ask
      case Bid => bid
      case Latest => latest
      case PreviousClose => previousClose
    }
  }

  datatype RangeRule = RangeRule(
    market: string,
    board: string,
    priceTick: Decimal,
    buyDeviationRatio: Decimal,
    sellDeviationRatio: Decimal,
    buyWideningTicks: int,
    sellWideningTicks: int,
    minimumDistanceTicks: int,
    lowerFloorTicks: int)

  datatype RangeDecision = RangeDecision(
    status: RangeStatus,
    side: Side,
    stage: Stage,
    source: Option<QuoteSource>,
    reference: Option<Decimal>,
    boundary: Option<Decimal>,
    reason: Option<RangeReason>)

  // ---------------------------------------------------------------- validation

  predicate IsPositive(d: Decimal) {
    Components(d, false).Ok? && Components(d, false).value.0 > 0
  }

  predicate IsRatio(d: Decimal) {
    Components(d, true).Ok? && Components(d, true).value.0 >= 0
  }

  predicate IsBoundedInteger(n: int, positive: bool) {
    n >= 0 && (positive ==> n > 0) && |NatDigits(n)| <= MAX_CANONICAL_DECIMAL_CHARS
  }

  predicate ValidRule(rule: RangeRule) {
    && IsPositive(rule.priceTick)
    && IsRatio(rule.buyDeviationRatio)
    && IsRatio(rule.sellDeviationRatio) && Value(rule.sellDeviationRatio) < 1.0
    && IsBoundedInteger(rule.buyWideningTicks, false)
    && IsBoundedInteger(rule.sellWideningTicks, false)
    && IsBoundedInteger(rule.minimumDistanceTicks, false)
    && IsBoundedInteger(rule.lowerFloorTicks, true)
  }

  predicate ValidQuote(quote: Quote) {
    if quote.state == Present then quote.value.Some? && IsPositive(quote.value.value) else quote.value.None?
  }

  predicate ValidQuotes(quotes: Quotes) {
    forall source: QuoteSource :: ValidQuote(quotes.Of(source))
  }

  /** `_validate_decision` accepts the decision. */
  predicate ValidDecision(d: RangeDecision) {
    && (d.reference.Some? ==> IsPositive(d.reference.value))
    && (d.boundary.Some? ==> IsPositive(d.boundary.value))
    && match d.status
       case Calculated =>
         d.stage == Continuous && d.source.Some? && d.reference.Some? && d.boundary.Some? && d.reason.None?
       case NotApplicable =>
         && d.stage != Continuous && d.stage != StageUnknown
         && d.source.None? && d.reference.None? && d.boundary.None? && d.reason == Some(PriceCageNotApplicable)
       case Denied => d.reason.Some? && d.boundary.None?
  }

  lemma PositiveValue(d: Decimal)
    ensures IsPositive(d) ==> Value(d) > 0.0 && !IsZero(d) && !d.negative
    ensures IsRatio(d) ==> Value(d) >= 0.0
  {
    SignOfValue(d);
    if !IsZero(d) {
      TrimmedCoefficient(d.digits);
    }
  }

  // ---------------------------------------------------------------- rounding

  /** `_round_half_up` on an exact number: halves go away from zero, on both sides. */
  function RoundHalfUp(x: real): int {
    if x >= 0.0 then (x + 0.5).Floor else -((0.5 - x).Floor)
  }

  /** `_round_half_up` as it is written, on the numerator and denominator of a fraction. */
  function RoundHalfUpFraction(numerator: int, denominator: int): int
    requires denominator > 0
  {
    if numerator >= 0 then (2 * numerator + denominator) / (2 * denominator)
    else -((2 * -numerator + denominator) / (2 * denominator))
  }

  /** Integer division of the shifted numerator rounds the fraction itself, so any representation of the fraction gives the same result. */
  lemma RoundsTheFraction(numerator: int, denominator: int)
    requires denominator > 0
    ensures RoundHalfUpFraction(numerator, denominator) == RoundHalfUp(numerator as real / denominator as real)
  {
    var x := numerator as real / denominator as real;
    if numerator >= 0 {
      FloorOfHalf(numerator, denominator);
      assert x >= 0.0;
    } else {
      FloorOfHalf(-numerator, denominator);
      assert (-numerator) as real / denominator as real == -x;
    }
  }

  lemma FloorOfHalf(n: nat, d: int)
    requires d > 0
    ensures (n as real / d as real + 0.5).Floor == (2 * n + d) / (2 * d)
  {
    var q, x := (2 * n + d) / (2 * d), n as real / d as real;
    var r := (2 * n + d) % (2 * d);
    assert 2 * n + d == (2 * d) * q + r;
    assert (2 * d) * q == 2 * (d * q);
    assert x * d as real == n as real;
    CastProduct(q, d);
    FloorBounds(x, d, n, q, d * q, r);
  }

  lemma FloorBounds(x: real, d: int, n: int, q: int, dq: int, r: int)
    requires d > 0 && 0 <= r < 2 * d && 2 * n + d == 2 * dq + r
    requires x * d as real == n as real && q as real * d as real == dq as real
    ensures (x + 0.5).Floor == q
  {
    Distribute(x, q as real, d as real);
    UnitInterval(x + 0.5 - q as real, d as real, r as real / 2.0);
  }

  lemma CastProduct(q: int, d: int)
    ensures q as real * d as real == (d * q) as real
  {
  }

  lemma Distribute(x: real, q: real, z: real)
    ensures (x + 0.5 - q) * z == x * z + 0.5 * z - q * z
  {
  }

  lemma UnitInterval(y: real, d: real, yd: real)
    requires yd == y * d && 0.0 <= yd < d
    ensures 0.0 <= y < 1.0
  {
    ProductOrder(y, 0.0, d);
    ProductOrder(y, 1.0, d);
  }

  /** The rounded integer is the only nearest one; of two nearest ones it is the one further from zero. */
  lemma {:induction false} RoundHalfUpIsNearest(x: real, k: int)
    ensures k == RoundHalfUp(x) <==>
            -0.5 <= k as real - x <= 0.5 && (k as real - x == 0.5 ==> x >= 0.0) && (k as real - x == -0.5 ==> x < 0.0)
  {
  }

  lemma RoundIsMonotone(x: real, y: real)
    requires x <= y
    ensures RoundHalfUp(x) <= RoundHalfUp(y)
  {
  }

  lemma RoundOfInteger(k: int)
    ensures RoundHalfUp(k as real) == k
  {
  }

  // ---------------------------------------------------------------- the boundary in ticks

  function MaxReal(x: real, y: real): real {
    if x >= y then x else y
  }

  function MinReal(x: real, y: real): real {
    if x <= y then x else y
  }

  function Min(a: int, b: int): int {
    if a <= b then a else b
  }

  function ByRatio(reference: real, factor: real): real {
    reference * factor
  }

  function ByTicks(reference: real, ticks: int, tick: real): real {
    reference + ticks as real * tick
  }

  function BuyBoundaryTicks(reference: real, tick: real, R: int, factor: real, w: int, m: int): int
    requires tick > 0.0
  {
    var rounded := RoundHalfUp(MaxReal(ByRatio(reference, factor), ByTicks(reference, w, tick)) / tick);
    if rounded - R < m then R + m else rounded
  }

  function SellBoundaryTicks(reference: real, tick: real, R: int, factor: real, w: int, m: int, floor: int): int
    requires tick > 0.0
  {
    var rounded := RoundHalfUp(MinReal(ByRatio(reference, factor), ByTicks(reference, -w, tick)) / tick);
    Max(if R - rounded < m then R - m else rounded, floor)
  }

  /** `_calculate_boundary_ticks`, with `R` the reference in ticks. */
  function BoundaryTicks(rule: RangeRule, side: Side, reference: real, tick: real, R: int): int
    requires tick > 0.0
  {
    if side == Buy then
      BuyBoundaryTicks(reference, tick, R, 1.0 + Value(rule.buyDeviationRatio), rule.buyWideningTicks, rule.minimumDistanceTicks)
    else
      SellBoundaryTicks(reference, tick, R, 1.0 - Value(rule.sellDeviationRatio), rule.sellWideningTicks,
                        rule.minimumDistanceTicks, rule.lowerFloorTicks)
  }

  function RoundedProduct(R: int, factor: real): int {
    RoundHalfUp(ByRatio(R as real, factor))
  }

  /** The highest buy price in ticks: reference R, ratio r, widening w and distance m. */
  function BuyTicks(R: int, r: real, w: int, m: int): int {
    Max(RoundedProduct(R, 1.0 + r), Max(R + w, R + m))
  }

  /** The lowest sell price in ticks, never below the floor. */
  function SellTicks(R: int, r: real, w: int, m: int, floor: int): int {
    Max(floor, Min(RoundedProduct(R, 1.0 - r), Min(R - w, R - m)))
  }

  function ClosedFormTicks(rule: RangeRule, side: Side, R: int): int {
    if side == Buy then BuyTicks(R, Value(rule.buyDeviationRatio), rule.buyWideningTicks, rule.minimumDistanceTicks)
    else SellTicks(R, Value(rule.sellDeviationRatio), rule.sellWideningTicks, rule.minimumDistanceTicks, rule.lowerFloorTicks)
  }

  lemma QuotientOfProduct(reference: real, R: int, factor: real, tick: real)
    requires tick > 0.0 && reference == R as real * tick
    ensures ByRatio(reference, factor) / tick == ByRatio(R as real, factor)
  {
    assert reference * factor == (R as real * factor) * tick;
    DivideBack(R as real * factor, tick);
  }

  lemma DivideBack(x: real, tick: real)
    requires tick > 0.0
    ensures (x * tick) / tick == x
  {
  }

  lemma QuotientOrder(x: real, y: real, tick: real)
    requires tick > 0.0
    ensures x / tick <= y / tick <==> x <= y
    ensures x / tick == y / tick <==> x == y
  {
    var a, b := x / tick, y / tick;
    assert a * tick == x && b * tick == y;
    ProductOrder(a, b, tick);
  }

  lemma ShiftedReference(reference: real, R: int, w: int, tick: real)
    requires tick > 0.0 && reference == R as real * tick
    ensures ByTicks(reference, w, tick) / tick == (R + w) as real
  {
    assert reference + w as real * tick == (R + w) as real * tick;
    DivideBack((R + w) as real, tick);
  }

  lemma BuyClosedForm(reference: real, tick: real, R: int, factor: real, w: int, m: int)
    requires tick > 0.0 && reference == R as real * tick
    ensures BuyBoundaryTicks(reference, tick, R, factor, w, m) == Max(RoundedProduct(R, factor), Max(R + w, R + m))
  {
    hide RoundHalfUp, MaxReal, ByRatio, ByTicks;
    QuotientOfProduct(reference, R, factor, tick);
    ShiftedReference(reference, R, w, tick);
    RoundOfLarger(ByRatio(reference, factor), ByTicks(reference, w, tick), tick, ByRatio(R as real, factor), R + w);
  }

  lemma SellClosedForm(reference: real, tick: real, R: int, factor: real, w: int, m: int, floor: int)
    requires tick > 0.0 && reference == R as real * tick
    ensures SellBoundaryTicks(reference, tick, R, factor, w, m, floor)
            == Max(floor, Min(RoundedProduct(R, factor), Min(R - w, R - m)))
  {
    hide RoundHalfUp, MinReal, ByRatio, ByTicks;
    QuotientOfProduct(reference, R, factor, tick);
    ShiftedReference(reference, R, -w, tick);
    RoundOfSmaller(ByRatio(reference, factor), ByTicks(reference, -w, tick), tick, ByRatio(R as real, factor), R - w);
  }

  /** With the reference on a tick, the code's boundary in money and ticks is the closed form in ticks alone. */
  lemma BoundaryRefinesClosedForm(rule: RangeRule, side: Side, reference: real, tick: real, R: int)
    requires tick > 0.0 && reference == R as real * tick
    ensures BoundaryTicks(rule, side, reference, tick, R) == ClosedFormTicks(rule, side, R)
  {
    hide BuyBoundaryTicks, SellBoundaryTicks, RoundedProduct, Value;
    BuyClosedForm(reference, tick, R, 1.0 + Value(rule.buyDeviationRatio), rule.buyWideningTicks, rule.minimumDistanceTicks);
    SellClosedForm(reference, tick, R, 1.0 - Value(rule.sellDeviationRatio), rule.sellWideningTicks,
                   rule.minimumDistanceTicks, rule.lowerFloorTicks);
  }

  lemma RoundOfLarger(x: real, y: real, tick: real, q: real, k: int)
    requires tick > 0.0 && x / tick == q && y / tick == k as real
    ensures RoundHalfUp(MaxReal(x, y) / tick) == Max(RoundHalfUp(q), k)
  {
    RoundOfInteger(k);
    hide RoundHalfUp;
    QuotientOrder(x, y, tick);
    if x >= y {
      RoundIsMonotone(k as real, q);
    } else {
      RoundIsMonotone(q, k as real);
    }
  }

  lemma RoundOfSmaller(x: real, y: real, tick: real, q: real, k: int)
    requires tick > 0.0 && x / tick == q && y / tick == k as real
    ensures RoundHalfUp(MinReal(x, y) / tick) == Min(RoundHalfUp(q), k)
  {
    RoundOfInteger(k);
    hide RoundHalfUp;
    QuotientOrder(x, y, tick);
    if x <= y {
      RoundIsMonotone(q, k as real);
    } else {
      RoundIsMonotone(k as real, q);
    }
  }

  lemma RoundedProductIsMonotone(R1: int, f1: real, R2: int, f2: real)
    requires 0 <= R1 <= R2 && 0.0 <= f1 <= f2
    ensures RoundedProduct(R1, f1) <= RoundedProduct(R2, f2)
  {
    ProductMonotone(R1 as real, f1, R2 as real, f2);
    RoundIsMonotone(ByRatio(R1 as real, f1), ByRatio(R2 as real, f2));
  }

  lemma ProductMonotone(a: real, b: real, c: real, d: real)
    requires 0.0 <= a <= c && 0.0 <= b <= d
    ensures a * b <= c * d
  {
    assert a * b <= c * b;
    assert c * b <= c * d;
  }

  /** The buy boundary rises with the reference and with each of the three allowances. */
  lemma BuyBoundaryIsMonotone(R1: nat, r1: real, w1: int, m1: int, R2: int, r2: real, w2: int, m2: int)
    requires R1 <= R2 && 0.0 <= r1 <= r2 && w1 <= w2 && m1 <= m2
    ensures BuyTicks(R1, r1, w1, m1) <= BuyTicks(R2, r2, w2, m2)
  {
    hide RoundedProduct;
    RoundedProductIsMonotone(R1, 1.0 + r1, R2, 1.0 + r2);
  }

  /** The sell boundary rises with the reference and falls with each of the three allowances, down to the floor. */
  lemma SellBoundaryIsMonotone(R1: nat, r1: real, w1: int, m1: int, R2: int, r2: real, w2: int, m2: int, floor: int)
    requires R1 <= R2 && 0.0 <= r2 <= r1 <= 1.0 && w2 <= w1 && m2 <= m1
    ensures floor <= SellTicks(R1, r1, w1, m1, floor) <= SellTicks(R2, r2, w2, m2, floor)
  {
    hide RoundedProduct;
    RoundedProductIsMonotone(R1, 1.0 - r1, R2, 1.0 - r2);
  }

  /** The reference is never above the buy boundary, and not below the sell boundary exactly when the floor is not above it. */
  lemma {:induction false} ReferenceIsInside(rule: RangeRule, R: int)
    requires ValidRule(rule) && R > 0
    ensures R <= ClosedFormTicks(rule, Buy, R)
    ensures 0 < ClosedFormTicks(rule, Sell, R)
    ensures ClosedFormTicks(rule, Sell, R) <= R <==> rule.lowerFloorTicks <= R
  {
  }

  // ---------------------------------------------------------------- the boundary as a Decimal

  /** `_decimal_tick_multiple`. */
  function TickMultiple(count: int, tick: Decimal): Decimal
    requires Components(tick, false).Ok?
  {
    var (c, e) := Components(tick, false).value;
    DecimalTuple(count * c < 0, NatDigits(if count * c < 0 then -(count * c) else count * c), e)
  }

  /** The Decimal that is returned is exactly that many ticks. */
  lemma TickMultipleIsExact(count: int, tick: Decimal)
    requires Components(tick, false).Ok?
    ensures IsTimes(count, Value(TickMultiple(count, tick)), Value(tick))
  {
    ComponentsKeepValue(tick, false);
    var (c, e) := Components(tick, false).value;
    ScaledTimes(count, count * c, c, e);
  }

  lemma PositiveMultiple(count: int, tick: Decimal)
    requires IsPositive(tick) && count > 0
    ensures !IsZero(TickMultiple(count, tick)) && !TickMultiple(count, tick).negative
    ensures IsPositive(TickMultiple(count, tick)) <==> Components(TickMultiple(count, tick), false).Ok?
  {
    var (c, e) := Components(tick, false).value;
    var d := TickMultiple(count, tick);
    PositiveProduct(count, c);
    assert d.digits == NatDigits(count * c) && d.digits[0] != 0;
    SignOfValue(d);
    TrimmedCoefficient(d.digits);
  }

  lemma PositiveProduct(a: int, b: int)
    requires a > 0 && b > 0
    ensures a * b > 0
  {
  }

  // ---------------------------------------------------------------- the decision

  function SourceOrder(side: Side): (order: seq<QuoteSource>)
    ensures |order| == 4
  {
    if side == Buy then [Ask, Bid, Latest, PreviousClose] else [Bid, Ask, Latest, PreviousClose]
  }

  function Deny(side: Side, stage: Stage, reason: RangeReason, source: Option<QuoteSource>, reference: Option<Decimal>): RangeDecision {
    RangeDecision(Denied, side, stage, source, reference, None, Some(reason))
  }

  function FirstInvalid(quotes: Quotes, sources: seq<QuoteSource>): Option<QuoteSource> {
    if sources == [] then None
    else if !ValidQuote(quotes.Of(sources[0])) then Some(sources[0])
    else FirstInvalid(quotes, sources[1..])
  }

  /** The first source that is not confirmed absent. */
  function FirstNotAbsent(quotes: Quotes, sources: seq<QuoteSource>): Option<QuoteSource> {
    if sources == [] then None
    else if quotes.Of(sources[0]).state == ConfirmedAbsent then FirstNotAbsent(quotes, sources[1..])
    else Some(sources[0])
  }

  /** Whether an exact quotient of reference and tick is an integer. */
  predicate OnTick(reference: real, tick: real)
    requires tick > 0.0
  {
    (reference / tick).Floor as real == reference / tick
  }

  /** The decision on a valid rule and the chosen reference. */
  function DecideOnReference(rule: RangeRule, side: Side, source: QuoteSource, reference: Decimal): RangeDecision
    requires ValidRule(rule)
  {
    PositiveValue(rule.priceTick);
    var tick := Value(rule.priceTick);
    if !OnTick(Value(reference), tick) then
      Deny(side, Continuous, ReferencePriceNotOnTick, Some(source), Some(reference))
    else
      var ticks := BoundaryTicks(rule, side, Value(reference), tick, (Value(reference) / tick).Floor);
      var boundary := TickMultiple(ticks, rule.priceTick);
      if Components(boundary, false).Ok? then
        RangeDecision(Calculated, side, Continuous, Some(source), Some(reference), Some(boundary), None)
      else
        Deny(side, Continuous, CalculatedBoundaryOutOfRange, Some(source), Some(reference))
  }

  /** What `calculate_price_submission_range` answers. */
  function Range(rule: RangeRule, side: Side, stage: Stage, quotes: Quotes): RangeDecision {
    if !ValidRule(rule) then Deny(side, stage, InvalidRule, None, None)
    else if FirstInvalid(quotes, [Ask, Bid, Latest, PreviousClose]).Some? then
      Deny(side, stage, InvalidQuote, FirstInvalid(quotes, [Ask, Bid, Latest, PreviousClose]), None)
    else if stage == StageUnknown then Deny(side, stage, StageIsUnknown, None, None)
    else if stage != Continuous then RangeDecision(NotApplicable, side, stage, None, None, None, Some(PriceCageNotApplicable))
    else
      var first := FirstNotAbsent(quotes, SourceOrder(side));
      if first.None? then Deny(side, stage, NoReferenceQuote, None, None)
      else
        var quote := quotes.Of(first.value);
        if quote.state == QuoteUnknown then Deny(side, stage, ReferenceQuoteUnknown, first, None)
        else if quote.value.None? then Deny(side, stage, NoReferenceQuote, None, None)
        else DecideOnReference(rule, side, first.value, quote.value.value)
  }

  /** `calculate_price_submission_range` as it runs: one loop validates the quotes, one walks the sources of the side. */
  method CalculatePriceSubmissionRange(rule: RangeRule, side: Side, stage: Stage, quotes: Quotes) returns (decision: RangeDecision)
    ensures decision == Range(rule, side, stage, quotes)
  {
    if !ValidRule(rule) {
      return Deny(side, stage, InvalidRule, None, None);
    }
    var sources := [Ask, Bid, Latest, PreviousClose];
    var i := 0;
    while i < |sources|
      invariant i <= |sources|
      invariant FirstInvalid(quotes, sources) == FirstInvalid(quotes, sources[i..])
    {
      if !ValidQuote(quotes.Of(sources[i])) {
        return Deny(side, stage, InvalidQuote, Some(sources[i]), None);
      }
      i := i + 1;
    }
    if stage == StageUnknown {
      return Deny(side, stage, StageIsUnknown, None, None);
    }
    if stage != Continuous {
      return RangeDecision(NotApplicable, side, stage, None, None, None, Some(PriceCageNotApplicable));
    }
    var order := SourceOrder(side);
    var selected: Option<QuoteSource>, reference: Option<Decimal> := None, None;
    i := 0;
    while i < |order| && selected.None?
      invariant i <= |order|
      invariant selected.None? ==> FirstNotAbsent(quotes, order) == FirstNotAbsent(quotes, order[i..])
      invariant selected.Some? ==>
                  && FirstNotAbsent(quotes, order) == selected
                  && quotes.Of(selected.value).state == Present && reference == quotes.Of(selected.value).value
    {
      var quote := quotes.Of(order[i]);
      if quote.state == QuoteUnknown {
        return Deny(side, stage, ReferenceQuoteUnknown, Some(order[i]), None);
      }
      if quote.state == Present {
        selected, reference := Some(order[i]), quote.value;
      }
      i := i + 1;
    }
    if selected.None? || reference.None? {
      return Deny(side, stage, NoReferenceQuote, None, None);
    }
    decision := DecideOnReference(rule, side, selected.value, reference.value);
  }

  // ---------------------------------------------------------------- what the decision means

  lemma {:induction false} FirstInvalidFinds(quotes: Quotes, sources: seq<QuoteSource>)
    ensures FirstInvalid(quotes, sources).None? <==> forall source <- sources :: ValidQuote(quotes.Of(source))
  {
    if sources != [] {
      FirstInvalidFinds(quotes, sources[1..]);
      assert forall source :: source in sources <==> source == sources[0] || source in sources[1..];
    }
  }

  lemma QuotesAreValid(quotes: Quotes)
    ensures FirstInvalid(quotes, [Ask, Bid, Latest, PreviousClose]).None? <==> ValidQuotes(quotes)
  {
    var all := SourceOrder(Buy);
    FirstInvalidFinds(quotes, all);
    forall source: QuoteSource
      ensures source in all
    {
      assert all[match source case Ask => 0 case Bid => 1 case Latest => 2 case PreviousClose => 3] == source;
    }
  }

  /** A found source is at some place of the order, with only confirmed-absent sources before it; none is found when all are confirmed absent. */
  lemma {:induction false} FirstNotAbsentFinds(quotes: Quotes, sources: seq<QuoteSource>)
    ensures var first := FirstNotAbsent(quotes, sources);
            if first.None? then forall source <- sources :: quotes.Of(source).state == ConfirmedAbsent
            else exists i ::
                   && 0 <= i < |sources| && sources[i] == first.value && quotes.Of(sources[i]).state != ConfirmedAbsent
                   && forall j :: 0 <= j < i ==> quotes.Of(sources[j]).state == ConfirmedAbsent
  {
    if sources != [] {
      var rest := sources[1..];
      FirstNotAbsentFinds(quotes, rest);
      assert forall source :: source in sources ==> source == sources[0] || source in rest;
      if quotes.Of(sources[0]).state != ConfirmedAbsent {
        assert sources[0] == FirstNotAbsent(quotes, sources).value;
      } else if FirstNotAbsent(quotes, rest).Some? {
        var i :| 0 <= i < |rest| && rest[i] == FirstNotAbsent(quotes, rest).value && quotes.Of(rest[i]).state != ConfirmedAbsent
                 && forall j :: 0 <= j < i ==> quotes.Of(rest[j]).state == ConfirmedAbsent;
        assert sources[i + 1] == rest[i];
        assert forall j :: 0 < j < i + 1 ==> sources[j] == rest[j - 1];
      }
    }
  }

  lemma OnTickMeansMultiple(reference: real, tick: real)
    requires tick > 0.0
    ensures OnTick(reference, tick) <==> exists k: int :: IsTimes(k, reference, tick)
    ensures OnTick(reference, tick) ==> IsTimes((reference / tick).Floor, reference, tick)
  {
    var q := reference / tick;
    assert q * tick == reference;
    if OnTick(reference, tick) {
      assert IsTimes(q.Floor, reference, tick);
    }
    forall k: int | IsTimes(k, reference, tick)
      ensures q == k as real
    {
      ProductOrder(q, k as real, tick);
    }
  }

  /** The verdict on a chosen reference that is a multiple of the tick: calculated from the closed form, or too long to print. */
  lemma DecisionOnTick(rule: RangeRule, side: Side, source: QuoteSource, reference: Decimal, R: int)
    requires ValidRule(rule) && IsPositive(reference) && IsTimes(R, Value(reference), Value(rule.priceTick))
    ensures R > 0 && ClosedFormTicks(rule, side, R) > 0
    ensures var d, boundary := DecideOnReference(rule, side, source, reference), TickMultiple(ClosedFormTicks(rule, side, R), rule.priceTick);
            && IsTimes(ClosedFormTicks(rule, side, R), Value(boundary), Value(rule.priceTick))
            && d == (if Components(boundary, false).Ok? then RangeDecision(Calculated, side, Continuous, Some(source), Some(reference), Some(boundary), None)
                     else Deny(side, Continuous, CalculatedBoundaryOutOfRange, Some(source), Some(reference)))
            && ValidDecision(d)
  {
    hide BoundaryTicks, ClosedFormTicks, Value, TickMultiple, Components;
    PositiveValue(rule.priceTick);
    PositiveValue(reference);
    var tick := Value(rule.priceTick);
    OnTickMeansMultiple(Value(reference), tick);
    SameQuotient(R, Value(reference), tick);
    PositiveQuotient(R, Value(reference), tick);
    BoundaryRefinesClosedForm(rule, side, Value(reference), tick, R);
    ReferenceIsInside(rule, R);
    TickMultipleIsExact(ClosedFormTicks(rule, side, R), rule.priceTick);
    PositiveMultiple(ClosedFormTicks(rule, side, R), rule.priceTick);
  }

  lemma SameQuotient(R: int, reference: real, tick: real)
    requires tick > 0.0 && IsTimes(R, reference, tick)
    ensures (reference / tick).Floor == R
  {
    DivideBack(R as real, tick);
  }

  /** A chosen reference that is no multiple of the tick is denied for that reason, and only then. */
  lemma DecisionOffTick(rule: RangeRule, side: Side, source: QuoteSource, reference: Decimal)
    requires ValidRule(rule) && IsPositive(reference)
    ensures (forall k: int :: !IsTimes(k, Value(reference), Value(rule.priceTick)))
            <==> DecideOnReference(rule, side, source, reference).reason == Some(ReferencePriceNotOnTick)
    ensures ValidDecision(DecideOnReference(rule, side, source, reference))
  {
    hide BoundaryTicks, ClosedFormTicks, Value, TickMultiple;
    PositiveValue(rule.priceTick);
    OnTickMeansMultiple(Value(reference), Value(rule.priceTick));
    if OnTick(Value(reference), Value(rule.priceTick)) {
      DecisionOnTick(rule, side, source, reference, (Value(reference) / Value(rule.priceTick)).Floor);
    }
  }

  lemma PositiveQuotient(R: int, reference: real, tick: real)
    requires tick > 0.0 && reference > 0.0 && IsTimes(R, reference, tick)
    ensures R > 0
  {
    if R <= 0 {
      ProductOrder(0.0, R as real, tick);
    }
  }

  /** Every decision that is built passes its own validation, for every rule, side, stage and quotes. */
  lemma DecisionsAreValid(rule: RangeRule, side: Side, stage: Stage, quotes: Quotes)
    ensures ValidDecision(Range(rule, side, stage, quotes))
    ensures Range(rule, side, stage, quotes).side == side && Range(rule, side, stage, quotes).stage == stage
  {
    QuotesAreValid(quotes);
    var first := FirstNotAbsent(quotes, SourceOrder(side));
    FirstNotAbsentFinds(quotes, SourceOrder(side));
    if ValidRule(rule) && ValidQuotes(quotes) && stage == Continuous && first.Some? && quotes.Of(first.value).state == Present {
      DecisionOffTick(rule, side, first.value, quotes.Of(first.value).value.value);
    }
  }

  /** A calculated range comes from the first present quote in the order of its side, with only confirmed-absent quotes before it, and its boundary is the closed form in ticks. */
  lemma CalculatedRange(rule: RangeRule, side: Side, stage: Stage, quotes: Quotes)
    requires Range(rule, side, stage, quotes).status == Calculated
    ensures ValidRule(rule) && ValidQuotes(quotes) && stage == Continuous
    ensures var d, order := Range(rule, side, stage, quotes), SourceOrder(side);
            && (exists i ::
                  && 0 <= i < |order| && d.source == Some(order[i])
                  && quotes.Of(order[i]) == Quote(Present, d.reference)
                  && forall j :: 0 <= j < i ==> quotes.Of(order[j]).state == ConfirmedAbsent)
            && (exists R: int ::
                  && R > 0 && IsTimes(R, Value(d.reference.value), Value(rule.priceTick))
                  && ClosedFormTicks(rule, side, R) > 0
                  && IsTimes(ClosedFormTicks(rule, side, R), Value(d.boundary.value), Value(rule.priceTick)))
  {
    QuotesAreValid(quotes);
    FirstNotAbsentFinds(quotes, SourceOrder(side));
    var first := FirstNotAbsent(quotes, SourceOrder(side));
    var reference := quotes.Of(first.value).value.value;
    DecisionOffTick(rule, side, first.value, reference);
    var R: int :| IsTimes(R, Value(reference), Value(rule.priceTick));
    DecisionOnTick(rule, side, first.value, reference, R);
  }

  lemma {:induction false} FirstNotAbsentIgnoresLater(a: Quotes, b: Quotes, sources: seq<QuoteSource>, i: nat)
    requires i < |sources| && a.Of(sources[i]).state != ConfirmedAbsent
    requires forall j :: 0 <= j <= i ==> a.Of(sources[j]) == b.Of(sources[j])
    ensures FirstNotAbsent(a, sources) == FirstNotAbsent(b, sources)
    ensures FirstNotAbsent(a, sources).Some? && a.Of(FirstNotAbsent(a, sources).value) == b.Of(FirstNotAbsent(a, sources).value)
  {
    assert a.Of(sources[0]) == b.Of(sources[0]);
    if a.Of(sources[0]).state == ConfirmedAbsent {
      assert forall j :: 0 <= j <= i - 1 ==> sources[1..][j] == sources[j + 1];
      FirstNotAbsentIgnoresLater(a, b, sources[1..], i - 1);
    }
  }

  /** Valid quotes after the one that decides do not change the decision, whether it is present or unknown. */
  lemma LaterQuotesDoNotMatter(rule: RangeRule, side: Side, stage: Stage, a: Quotes, b: Quotes, i: nat)
    requires ValidQuotes(a) && ValidQuotes(b)
    requires i < 4 && a.Of(SourceOrder(side)[i]).state != ConfirmedAbsent
    requires forall j :: 0 <= j <= i ==> a.Of(SourceOrder(side)[j]) == b.Of(SourceOrder(side)[j])
    ensures Range(rule, side, stage, a) == Range(rule, side, stage, b)
  {
    QuotesAreValid(a);
    QuotesAreValid(b);
    FirstNotAbsentIgnoresLater(a, b, SourceOrder(side), i);
  }
}
