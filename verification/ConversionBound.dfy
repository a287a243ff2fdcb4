/** How long a calculated boundary can be: the conversion of its coefficient to text stays far below the interpreter's limit of 4300 digits. */
module ConversionBound {
  import opened Decimals
  import opened PriceCage

  const MAX_CONVERTED_DIGITS := 4300

  // ---------------------------------------------------------------- digits and powers

  lemma {:induction false} PowersGrow(m: nat, n: nat)
    requires m <= n
    ensures Pow10(m) <= Pow10(n)
  {
    if m < n {
      PowersGrow(m, n - 1);
    }
  }

  lemma {:induction false} DigitsBoundCoefficient(ds: seq<Digit>)
    ensures Coefficient(ds) < Pow10(|ds|)
  {
    if ds != [] {
      DigitsBoundCoefficient(ds[..|ds| - 1]);
    }
  }

  lemma {:induction false} NumberBoundsDigits(n: nat, k: nat)
    requires k > 0 && n < Pow10(k)
    ensures |NatDigits(n)| <= k
  {
    assert Pow10(0) == 1 && Pow10(k) == 10 * Pow10(k - 1);
    if n >= 10 {
      NumberBoundsDigits(n / 10, k - 1);
    }
  }

  lemma ShortNumber(n: nat, k: nat)
    requires |NatDigits(n)| <= k
    ensures n < Pow10(k)
  {
    DigitsBoundCoefficient(NatDigits(n));
    PowersGrow(|NatDigits(n)|, k);
  }

  lemma ProductBound(x: int, a: nat, y: int, b: nat)
    requires 0 <= x < Pow10(a) && 0 <= y < Pow10(b)
    ensures x * y < Pow10(a + b)
  {
    Pow10Add(a, b);
    StrictProduct(x, Pow10(a), y, Pow10(b));
  }

  lemma StrictProduct(x: int, p: int, y: int, q: int)
    requires 0 <= x < p && 0 <= y < q
    ensures 0 <= x * y < p * q
  {
    assert x * y <= x * q;
    assert x * q < p * q;
    assert 0 <= x * y;
  }

  // ---------------------------------------------------------------- bounded numbers

  /** Coefficient and exponent of a number within the length bound. */
  lemma ComponentsAreBounded(d: Decimal)
    requires Components(d, true).Ok?
    ensures var (c, e) := Components(d, true).value;
            -Pow10(257) < c < Pow10(257) && -256 <= e <= 256
  {
    hide Pow10, Coefficient;
    if !IsZero(d) {
      SignOfValue(d);
      DigitsBoundCoefficient(Trim(d.digits));
      PowersGrow(|Trim(d.digits)|, 257);
    } else {
      PowersGrow(0, 257);
    }
  }

  /** Every exponent within the bound can be moved to -256, where the coefficient is an integer below 10^769. */
  lemma AtLeastExponent(d: Decimal) returns (n: int)
    requires Components(d, true).Ok?
    ensures Value(d) == NormalValue(n, -256) && -Pow10(769) < n < Pow10(769)
    ensures !IsZero(d) && !d.negative ==> n > 0
  {
    var (c, e) := Components(d, true).value;
    ComponentsAreBounded(d);
    ComponentsKeepValue(d, true);
    SignOfValue(d);
    ShiftExponent(c, -256, e + 256);
    n := c * Pow10(e + 256);
    ShiftedBound(c, e + 256);
    CompareAtExponent(n, 0, -256);
    hide Pow10, NormalValue, Components, Value;
    ZeroValue(-256);
  }

  lemma ZeroValue(e: int)
    ensures NormalValue(0, e) == 0.0
  {
  }

  lemma ShiftedBound(c: int, k: nat)
    requires -Pow10(257) < c < Pow10(257) && k <= 512
    ensures -Pow10(769) < c * Pow10(k) < Pow10(769)
  {
    hide Pow10;
    PowersGrow(k, 512);
    Pow10Add(257, 512);
    if c >= 0 {
      MonotoneProduct(c, Pow10(k), Pow10(512), Pow10(257));
    } else {
      MonotoneProduct(-c, Pow10(k), Pow10(512), Pow10(257));
      assert c * Pow10(k) == -(-c * Pow10(k));
    }
  }

  lemma MonotoneProduct(c: int, p: int, q: int, bound: int)
    requires 0 <= c < bound && 1 <= p <= q
    ensures 0 <= c * p < bound * q
  {
    assert c * p <= c * q;
    assert c * q < bound * q;
  }

  lemma {:induction false} SmallScale(n: nat)
    ensures Scale(0 - n) <= 1.0
  {
    if n > 0 {
      SmallScale(n - 1);
    }
  }

  lemma ValueBound(d: Decimal, p: int)
    requires Components(d, true).Ok? && p == Pow10(769)
    ensures Value(d) <= (p - 1) as real
  {
    hide Pow10, Components, Scale, Value;
    var n := AtLeastExponent(d);
    SmallScale(256);
    ScaledDown(n, Scale(-256), p);
  }

  lemma ScaledDown(n: int, s: real, p: int)
    requires 0.0 < s <= 1.0 && n < p && p > 0
    ensures n as real * s <= (p - 1) as real
  {
    if n > 0 {
      assert n as real * s <= n as real * 1.0;
    } else {
      assert n as real * s <= 0.0;
    }
  }

  // ---------------------------------------------------------------- the boundary

  lemma TicksBound(reference: Decimal, tick: Decimal, R: int)
    requires IsPositive(reference) && IsPositive(tick) && IsTimes(R, Value(reference), Value(tick))
    ensures 0 < R < Pow10(769)
  {
    PositiveValue(reference);
    PositiveValue(tick);
    PositiveQuotient(R, Value(reference), Value(tick));
    hide Pow10, Value, NormalValue;
    var a := AtLeastExponent(reference);
    var b := AtLeastExponent(tick);
    ScaledTimes(R, a, b, -256);
    FactorBelow(R, b, a);
  }

  lemma FactorBelow(R: int, b: int, a: int)
    requires R > 0 && b >= 1 && a == R * b
    ensures R <= a
  {
  }

  lemma RoundedBound(R: int, factor: real, p: int)
    requires 0 < R && 0.0 <= factor <= p as real
    ensures RoundedProduct(R, factor) <= R * p
  {
    ProductMonotone(R as real, factor, R as real, p as real);
    assert R as real * p as real == (R * p) as real;
    RoundIsMonotone(R as real * factor, (R * p) as real);
    RoundOfInteger(R * p);
    hide RoundHalfUp;
  }

  lemma BoundaryBound(rule: RangeRule, side: Side, R: int)
    requires ValidRule(rule) && 0 < R < Pow10(769)
    ensures ClosedFormTicks(rule, side, R) < Pow10(1538)
  {
    hide *;
    RuleIsBounded(rule, Pow10(769));
    RatioTermsBound(rule, R, Pow10(769));
    TimesPower(R, Pow10(769));
    TwiceBelow(769, 1538);
    BelowAllBounds(rule, side, R, R * Pow10(769), Pow10(1538));
  }

  lemma TwiceBelow(k: nat, n: nat)
    requires k < n
    ensures 2 * Pow10(k) <= Pow10(n)
  {
    PowersGrow(k + 1, n);
  }

  lemma RatioTermsBound(rule: RangeRule, R: int, p: int)
    requires R > 0
    requires 0.0 <= 1.0 + Value(rule.buyDeviationRatio) <= p as real && 0.0 <= 1.0 - Value(rule.sellDeviationRatio) <= p as real
    ensures RoundedProduct(R, 1.0 + Value(rule.buyDeviationRatio)) <= R * p
    ensures RoundedProduct(R, 1.0 - Value(rule.sellDeviationRatio)) <= R * p
  {
    hide *;
    RoundedBound(R, 1.0 + Value(rule.buyDeviationRatio), p);
    RoundedBound(R, 1.0 - Value(rule.sellDeviationRatio), p);
  }

  lemma RuleIsBounded(rule: RangeRule, p: int)
    requires ValidRule(rule) && p == Pow10(769)
    ensures 0 <= rule.buyWideningTicks < p && 0 <= rule.sellWideningTicks && 0 <= rule.minimumDistanceTicks < p && 0 <= rule.lowerFloorTicks < p
    ensures 0.0 <= 1.0 + Value(rule.buyDeviationRatio) <= p as real
    ensures 0.0 <= 1.0 - Value(rule.sellDeviationRatio) <= p as real
  {
    PositiveValue(rule.buyDeviationRatio);
    PositiveValue(rule.sellDeviationRatio);
    hide Pow10, NatDigits, Value, Components;
    ShortNumber(rule.buyWideningTicks, 257);
    ShortNumber(rule.minimumDistanceTicks, 257);
    ShortNumber(rule.lowerFloorTicks, 257);
    PowersGrow(257, 769);
    ValueBound(rule.buyDeviationRatio, p);
  }

  lemma BelowAllBounds(rule: RangeRule, side: Side, R: int, product: int, bound: int)
    requires RoundedProduct(R, 1.0 + Value(rule.buyDeviationRatio)) <= product < bound
    requires RoundedProduct(R, 1.0 - Value(rule.sellDeviationRatio)) <= product
    requires R + rule.buyWideningTicks < bound && R + rule.minimumDistanceTicks < bound && rule.lowerFloorTicks < bound
    ensures ClosedFormTicks(rule, side, R) < bound
  {
    hide RoundedProduct, Value;
  }

  lemma TimesPower(R: int, p: int)
    requires 0 < R < p && p == Pow10(769)
    ensures R * p < Pow10(1538)
  {
    hide Pow10;
    Pow10Add(769, 769);
    assert R * p < p * p;
  }

  /** The coefficient of every boundary that is calculated from a valid rule and an on-tick reference has fewer than 4300 digits, so its conversion to text never raises. */
  lemma BoundaryIsConvertible(rule: RangeRule, side: Side, reference: Decimal, R: int)
    requires ValidRule(rule) && IsPositive(reference) && IsTimes(R, Value(reference), Value(rule.priceTick))
    ensures |TickMultiple(ClosedFormTicks(rule, side, R), rule.priceTick).digits| < MAX_CONVERTED_DIGITS
  {
    hide *;
    TickIsBounded(rule);
    ClosedFormIsPositive(rule, side, reference, R);
    TicksBound(reference, rule.priceTick, R);
    BoundaryBound(rule, side, R);
    ShortMultiple(ClosedFormTicks(rule, side, R), rule.priceTick);
  }

  lemma ShortMultiple(count: int, tick: Decimal)
    requires Components(tick, false).Ok? && 0 < Components(tick, false).value.0 < Pow10(257) && 0 < count < Pow10(1538)
    ensures |TickMultiple(count, tick).digits| < MAX_CONVERTED_DIGITS
  {
    ShortProduct(count, Components(tick, false).value.0);
    hide Components, NatDigits, Pow10;
  }

  lemma ShortProduct(a: int, b: int)
    requires 0 < a < Pow10(1538) && 0 < b < Pow10(257)
    ensures a * b > 0 && |NatDigits(a * b)| <= 1795
  {
    hide *;
    ProductBound(a, 1538, b, 257);
    PositiveProduct(a, b);
    NumberBoundsDigits(a * b, 1795);
  }

  lemma TickIsBounded(rule: RangeRule)
    requires ValidRule(rule)
    ensures IsPositive(rule.priceTick) && Components(rule.priceTick, false).Ok?
    ensures 0 < Components(rule.priceTick, false).value.0 < Pow10(257)
  {
    ComponentsAreBounded(rule.priceTick);
    hide Pow10;
  }

  lemma ClosedFormIsPositive(rule: RangeRule, side: Side, reference: Decimal, R: int)
    requires ValidRule(rule) && IsPositive(reference) && IsTimes(R, Value(reference), Value(rule.priceTick))
    ensures ClosedFormTicks(rule, side, R) > 0
  {
    PositiveValue(reference);
    PositiveValue(rule.priceTick);
    PositiveQuotient(R, Value(reference), Value(rule.priceTick));
    ReferenceIsInside(rule, R);
    hide ClosedFormTicks, Value;
  }
}
