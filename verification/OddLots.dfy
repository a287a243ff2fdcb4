/** What the quantity rules allow over whole sequences of sells: odd remainders, full balances, and liquidation. */
module OddLots {
  import opened Outcomes
  import opened Decimals
  import opened PriceCage
  import opened Constraints

  // ---------------------------------------------------------------- the accepted quantities

  /** The sell rule in share counts. */
  datatype SellRule = SellRule(minimum: nat, step: nat, maximum: nat, mode: OddLotMode) {
    predicate Valid() {
      0 < step && 0 < minimum <= maximum && (mode == SellOddRemainderOnce ==> minimum == step)
    }
  }

  function Shares(d: Decimal): nat
    requires IsWholeNumber(d)
  {
    ScaledInteger(d, 0)
  }

  predicate OnStep(rule: SellRule, quantity: nat)
    requires rule.step > 0
  {
    quantity % rule.step == 0
  }

  /** A regular quantity needs no odd-lot exception. */
  predicate Regular(rule: SellRule, quantity: nat)
    requires rule.step > 0
  {
    OnStep(rule, quantity) && rule.minimum <= quantity
  }

  predicate AcceptsSell(rule: SellRule, available: nat, restricted: nat, quantity: nat)
    requires rule.Valid()
  {
    && 0 < quantity <= available && quantity <= rule.maximum
    && (|| Regular(rule, quantity)
        || (rule.mode == SellableBalanceToZero && restricted == 0 && quantity == available)
        || (rule.mode == SellOddRemainderOnce && !OnStep(rule, quantity) && restricted == 0 && (available - quantity) % rule.step == 0))
  }

  lemma SharesValue(d: Decimal)
    requires IsWholeNumber(d) && !d.negative
    ensures Value(d) == Shares(d) as real
  {
    ScaledIntegerValue(d, 0);
  }

  lemma StepDecides(quantity: Decimal, step: Decimal)
    requires IsWholeNumber(quantity) && IsWholeNumber(step) && !IsZero(step)
    ensures IsMultiple(quantity, step) <==> Shares(quantity) % Shares(step) == 0
  {
  }

  /** On whole numbers the quantity checks accept exactly these share counts; the integer remainder of the odd-lot branch is exact. */
  lemma AcceptedQuantities(side: Side, quantity: Decimal, rule: QuantityRule, mode: OddLotMode, available: Decimal, restricted: Decimal)
    requires rule.Sound() && IsWholeNumber(quantity) && !quantity.negative && !IsZero(quantity)
    requires IsWholeNumber(available) && !available.negative && IsWholeNumber(restricted) && !restricted.negative
    requires mode == SellOddRemainderOnce ==> Value(rule.minimum) == Value(rule.step)
    ensures var shares := SellRule(Shares(rule.minimum), Shares(rule.step), Shares(rule.maximum), mode);
            && shares.Valid()
            && (CheckQuantity(side, quantity, rule, mode, available, restricted) == Pass <==>
                if side == Buy then Regular(shares, Shares(quantity)) && Shares(quantity) <= shares.maximum
                else AcceptsSell(shares, Shares(available), Shares(restricted), Shares(quantity)))
  {
    hide Value, IsMultiple, ScaledInteger;
    SharesValue(quantity);
    SharesValue(rule.minimum);
    SharesValue(rule.step);
    SharesValue(rule.maximum);
    SharesValue(available);
    SharesValue(restricted);
    StepDecides(quantity, rule.step);
  }

  /** Every accepted sell envelope satisfies the share-count rules, so the results about sequences below speak of accepted envelopes. */
  lemma AcceptedEnvelopeSells(env: EnvelopeV1, localTime: int, zone: Zone)
    requires env.order.side == Sell && Validate(env, localTime, zone) == Pass
    ensures ParseNumbers(env).Ok?
    ensures var n := ParseNumbers(env).value;
            var rule := SellRule(Shares(n.terms.sell.minimum), Shares(n.terms.sell.step), Shares(n.terms.sell.maximum), env.rule.oddLotMode);
            rule.Valid() && AcceptsSell(rule, Shares(Available(env.order)), Shares(Restricted(env.order)), Shares(n.quantity))
  {
    hide *;
    ValidateParts(env, localTime, zone);
    MarketParts(env);
    var n := ParseNumbers(env).value;
    QuantityIsChecked(env.order, env.rule.oddLotMode, n.terms, n.quantity);
    AcceptedQuantities(Sell, n.quantity, n.terms.sell, env.rule.oddLotMode, Available(env.order), Restricted(env.order));
  }

  lemma QuantityIsChecked(order: ConstraintOrder, mode: OddLotMode, terms: Terms, quantity: Decimal)
    requires terms.buy.Sound() && terms.sell.Sound() && IsWholeNumber(quantity)
    requires order.side == Sell && CheckOrderQuantity(order, mode, terms, quantity) == Pass
    ensures CheckQuantity(Sell, quantity, terms.sell, mode, Available(order), Restricted(order)) == Pass
  {
    hide CheckQuantity, Available, Restricted;
  }

  // ---------------------------------------------------------------- sequences of filled sells

  /** A sell that was accepted and filled, with the restricted quantity of its evidence. */
  datatype FilledSell = FilledSell(quantity: nat, restricted: nat)

  function BalanceAfter(balance: int, sells: seq<FilledSell>): int
    decreases sells
  {
    if sells == [] then balance else BalanceAfter(balance - sells[0].quantity, sells[1..])
  }

  /** Each sell is accepted at its turn, on the balance that the sells before it left. */
  predicate AcceptedRun(rule: SellRule, balance: nat, sells: seq<FilledSell>)
    requires rule.Valid()
  {
    sells == [] ||
    (&& AcceptsSell(rule, balance, sells[0].restricted, sells[0].quantity)
     && AcceptedRun(rule, balance - sells[0].quantity, sells[1..]))
  }

  lemma {:induction false} RunFrom(rule: SellRule, balance: nat, sells: seq<FilledSell>, i: nat)
    requires rule.Valid() && AcceptedRun(rule, balance, sells) && i <= |sells|
    ensures 0 <= BalanceAfter(balance, sells[..i]) && AcceptedRun(rule, BalanceAfter(balance, sells[..i]), sells[i..])
  {
    if i == 0 {
      assert sells[..0] == [] && sells[0..] == sells;
    } else {
      RunFrom(rule, balance - sells[0].quantity, sells[1..], i - 1);
      assert sells[..i][1..] == sells[1..][..i - 1] && sells[i..] == sells[1..][i - 1..];
    }
  }

  lemma {:induction false} BalanceSplits(balance: int, a: seq<FilledSell>, b: seq<FilledSell>)
    ensures BalanceAfter(balance, a + b) == BalanceAfter(BalanceAfter(balance, a), b)
    decreases a
  {
    if a == [] {
      assert a + b == b;
    } else {
      BalanceSplits(balance - a[0].quantity, a[1..], b);
      assert (a + b)[1..] == a[1..] + b;
    }
  }

  lemma DifferenceOnStep(a: int, b: int, step: int)
    requires step > 0 && a % step == 0 && b % step == 0
    ensures (a - b) % step == 0
  {
    DivideExactly(a - b, step, a / step - b / step);
  }

  lemma SumOnStep(a: int, b: int, step: int)
    requires step > 0 && a % step == 0 && b % step == 0
    ensures (a + b) % step == 0
  {
    DivideExactly(a + b, step, a / step + b / step);
  }

  lemma SameRemainder(a: int, q: int, step: int)
    requires step > 0 && q % step == 0
    ensures (a - q) % step == a % step
  {
    var k := a / step - q / step;
    assert a - q == k * step + a % step;
    DivideWithRemainder(a - q, step, k, a % step);
  }

  lemma DivideWithRemainder(a: int, b: int, k: int, r: int)
    requires b > 0 && a == k * b + r && 0 <= r < b
    ensures a % b == r
  {
    var x := k - a / b;
    assert x * b == a % b - r;
    assert x == 0;
  }

  /** From a balance on the step, no sell can leave it. */
  lemma {:induction false} OnStepStays(rule: SellRule, balance: nat, sells: seq<FilledSell>, i: nat)
    requires rule.Valid() && rule.mode == SellOddRemainderOnce && AcceptedRun(rule, balance, sells)
    requires balance % rule.step == 0 && i <= |sells|
    ensures BalanceAfter(balance, sells[..i]) % rule.step == 0
    ensures i < |sells| ==> OnStep(rule, sells[i].quantity)
  {
    if sells != [] {
      var q := sells[0].quantity;
      if (balance - q) % rule.step == 0 {
        DifferenceOnStep(balance, balance - q, rule.step);
        assert balance - (balance - q) == q;
      }
      DifferenceOnStep(balance, q, rule.step);
      if i > 0 {
        OnStepStays(rule, balance - q, sells[1..], i - 1);
        assert sells[..i][1..] == sells[1..][..i - 1];
      }
    }
  }

  /** The odd remainder is sold at most once: two off-step sells never both occur, and from an off-step sell on every balance is a multiple of the step. */
  lemma OddRemainderOnce(rule: SellRule, balance: nat, sells: seq<FilledSell>, odd: nat, k: nat)
    requires rule.Valid() && rule.mode == SellOddRemainderOnce && AcceptedRun(rule, balance, sells)
    requires odd < |sells| && !OnStep(rule, sells[odd].quantity)
    ensures k < |sells| && k != odd ==> OnStep(rule, sells[k].quantity)
    ensures odd < k <= |sells| ==> BalanceAfter(balance, sells[..k]) % rule.step == 0
  {
    if odd < k <= |sells| {
      AfterOddRemainder(rule, balance, sells, odd, k);
    } else if k < odd && !OnStep(rule, sells[k].quantity) {
      AfterOddRemainder(rule, balance, sells, k, odd);
    }
  }

  lemma AfterOddRemainder(rule: SellRule, balance: nat, sells: seq<FilledSell>, odd: nat, k: nat)
    requires rule.Valid() && rule.mode == SellOddRemainderOnce && AcceptedRun(rule, balance, sells)
    requires odd < k <= |sells| && !OnStep(rule, sells[odd].quantity)
    ensures BalanceAfter(balance, sells[..k]) % rule.step == 0
    ensures k < |sells| ==> OnStep(rule, sells[k].quantity)
  {
    RunFrom(rule, balance, sells, odd);
    var before, rest := BalanceAfter(balance, sells[..odd]), sells[odd..];
    OnStepStays(rule, before - rest[0].quantity, rest[1..], k - odd - 1);
    assert sells[..k] == sells[..odd] + rest[..k - odd];
    BalanceSplits(balance, sells[..odd], rest[..k - odd]);
    assert rest[..k - odd][1..] == rest[1..][..k - odd - 1];
  }

  /** Where only the full balance may be odd, an exceptional sell is the last one and leaves nothing. */
  lemma FullBalanceIsLast(rule: SellRule, balance: nat, sells: seq<FilledSell>, i: nat)
    requires rule.Valid() && rule.mode == SellableBalanceToZero && AcceptedRun(rule, balance, sells)
    requires i < |sells| && !Regular(rule, sells[i].quantity)
    ensures i == |sells| - 1 && BalanceAfter(balance, sells) == 0
  {
    RunFrom(rule, balance, sells, i);
    var before, rest := BalanceAfter(balance, sells[..i]), sells[i..];
    assert AcceptedRun(rule, 0, rest[1..]);
    assert rest == [rest[0]];
    assert sells == sells[..i] + rest;
    BalanceSplits(balance, sells[..i], rest);
  }

  /** Where odd lots are forbidden, every sell is regular and no sell changes the balance modulo the step. */
  lemma {:induction false} ForbiddenKeepsRemainder(rule: SellRule, balance: nat, sells: seq<FilledSell>, i: nat)
    requires rule.Valid() && rule.mode == Forbid && AcceptedRun(rule, balance, sells) && i <= |sells|
    ensures BalanceAfter(balance, sells[..i]) % rule.step == balance % rule.step
    ensures i < |sells| ==> Regular(rule, sells[i].quantity)
  {
    if i > 0 {
      ForbiddenKeepsRemainder(rule, balance - sells[0].quantity, sells[1..], i - 1);
      SameRemainder(balance, sells[0].quantity, rule.step);
      assert sells[..i][1..] == sells[1..][..i - 1];
    }
  }

  // ---------------------------------------------------------------- liquidation

  /** Some accepted run without restricted shares brings the balance to zero. */
  ghost predicate Liquidates(rule: SellRule, balance: nat)
    requires rule.Valid()
  {
    exists sells :: AcceptedRun(rule, balance, sells) && BalanceAfter(balance, sells) == 0 && Unrestricted(sells)
  }

  predicate Unrestricted(sells: seq<FilledSell>) {
    forall sell <- sells :: sell.restricted == 0
  }

  lemma LiquidatesOneMore(rule: SellRule, balance: nat, quantity: nat)
    requires rule.Valid() && AcceptsSell(rule, balance, 0, quantity) && Liquidates(rule, balance - quantity)
    ensures Liquidates(rule, balance)
  {
    var sells :| AcceptedRun(rule, balance - quantity, sells) && BalanceAfter(balance - quantity, sells) == 0 && Unrestricted(sells);
    var all := [FilledSell(quantity, 0)] + sells;
    assert all[1..] == sells;
    assert AcceptedRun(rule, balance, all) && BalanceAfter(balance, all) == 0 && Unrestricted(all);
  }

  lemma LiquidatesNothing(rule: SellRule)
    requires rule.Valid()
    ensures Liquidates(rule, 0)
  {
    assert AcceptedRun(rule, 0, []) && BalanceAfter(0, []) == 0 && Unrestricted([]);
  }

  /** No shares are stranded where the odd remainder may be sold once: every balance can be brought to zero by accepted sells. */
  lemma {:induction false} NoSharesStranded(rule: SellRule, balance: nat)
    requires rule.Valid() && rule.mode == SellOddRemainderOnce
    ensures Liquidates(rule, balance)
  {
    if balance == 0 {
      LiquidatesNothing(rule);
    } else {
      var r := balance % rule.step;
      var quantity := if r == 0 then rule.step else r;
      if r == 0 {
        OneStep(balance, rule.step);
      } else {
        WithoutRemainder(balance, rule.step);
      }
      NoSharesStranded(rule, balance - quantity);
      LiquidatesOneMore(rule, balance, quantity);
    }
  }

  lemma OneStep(balance: int, step: int)
    requires step > 0 && balance > 0 && balance % step == 0
    ensures step <= balance && step % step == 0
  {
    if balance < step {
      DivideWithRemainder(balance, step, 0, balance);
    }
    DivideExactly(step, step, 1);
  }

  lemma WithoutRemainder(balance: nat, step: int)
    requires step > 0 && balance % step != 0
    ensures 0 < balance % step <= balance && (balance % step) % step != 0 && (balance - balance % step) % step == 0
  {
    var r := balance % step;
    DivideExactly(balance - r, step, balance / step);
    DivideWithRemainder(r, step, 0, r);
    if balance < step {
      DivideWithRemainder(balance, step, 0, balance);
    } else {
      assert r < step <= balance;
    }
  }

  /** The smallest multiple of the step that reaches the minimum. */
  function LeastRegular(rule: SellRule): (u: nat)
    requires rule.Valid()
    ensures Regular(rule, u) && u > 0
    ensures forall q: nat :: Regular(rule, q) ==> u <= q
  {
    var k := (rule.minimum + rule.step - 1) / rule.step;
    LeastMultiple(rule.minimum, rule.step);
    assert forall q: nat :: Regular(rule, q) ==> k * rule.step <= q;
    k * rule.step
  }

  lemma LeastMultiple(minimum: nat, step: nat)
    requires step > 0
    ensures var u := ((minimum + step - 1) / step) * step;
            u >= minimum && u % step == 0 && forall q: nat :: q % step == 0 && minimum <= q ==> u <= q
  {
    var k := (minimum + step - 1) / step;
    DivideExactly(k * step, step, k);
    assert minimum + step - 1 == k * step + (minimum + step - 1) % step;
    forall q: nat | q % step == 0 && minimum <= q
      ensures k * step <= q
    {
      var m := q / step;
      assert q == m * step;
      MultipleOrder(k, m, step, minimum);
    }
  }

  lemma MultipleOrder(k: int, m: int, step: int, minimum: int)
    requires step > 0 && k * step < minimum + step && minimum <= m * step
    ensures k <= m && k * step <= m * step
  {
    var x := m - k + 1;
    assert x * step == m * step - k * step + step;
    assert x > 0;
  }

  /** Where only the full balance may be odd, a balance can be brought to zero exactly when one order can hold it or some multiple of the step lies between minimum and maximum. */
  lemma FullBalanceLiquidatesExactly(rule: SellRule, balance: nat)
    requires rule.Valid() && rule.mode == SellableBalanceToZero
    ensures Liquidates(rule, balance) <==> balance <= rule.maximum || LeastRegular(rule) <= rule.maximum
  {
    LiquidatesNothing(rule);
    if LeastRegular(rule) <= rule.maximum {
      LiquidateByRegular(rule, balance);
    } else if 0 < balance <= rule.maximum {
      LiquidatesOneMore(rule, balance, balance);
    } else if balance > rule.maximum {
      forall sell: FilledSell
        ensures !AcceptsSell(rule, balance, sell.restricted, sell.quantity)
      {
        NothingRegularFits(rule, balance, sell);
      }
      assert !Liquidates(rule, balance);
    }
  }

  lemma NothingRegularFits(rule: SellRule, balance: nat, sell: FilledSell)
    requires rule.Valid() && rule.mode == SellableBalanceToZero && rule.maximum < LeastRegular(rule) && rule.maximum < balance
    ensures !AcceptsSell(rule, balance, sell.restricted, sell.quantity)
  {
    assert Regular(rule, sell.quantity) ==> LeastRegular(rule) <= sell.quantity;
  }

  lemma {:induction false} LiquidateByRegular(rule: SellRule, balance: nat)
    requires rule.Valid() && rule.mode == SellableBalanceToZero && LeastRegular(rule) <= rule.maximum
    ensures Liquidates(rule, balance)
  {
    var u := LeastRegular(rule);
    LiquidatesNothing(rule);
    if balance >= u {
      LiquidateByRegular(rule, balance - u);
      LiquidatesOneMore(rule, balance, u);
    } else if balance > 0 {
      LiquidatesOneMore(rule, balance, balance);
    }
  }

  /** The greatest multiple of the step within the maximum. */
  function GreatestOnStep(rule: SellRule): (u: nat)
    requires rule.Valid()
    ensures OnStep(rule, u) && u <= rule.maximum
    ensures forall q: nat :: OnStep(rule, q) && q <= rule.maximum ==> q <= u
  {
    var r := rule.maximum % rule.step;
    DivideExactly(rule.maximum - r, rule.step, rule.maximum / rule.step);
    forall q: nat | OnStep(rule, q) && q <= rule.maximum
      ensures q <= rule.maximum - r
    {
      SameRemainder(rule.maximum, q, rule.step);
      RemainderFits(rule.maximum - q, rule.step);
    }
    rule.maximum - r
  }

  lemma RemainderFits(n: nat, step: int)
    requires step > 0
    ensures n % step <= n
  {
  }

  function Times(n: nat, q: nat): nat {
    n * q
  }

  lemma TimesNext(n: nat, q: nat)
    ensures Times(n + 1, q) == Times(n, q) + q
    ensures Times(0, q) == 0
  {
  }

  lemma TimesOnStep(n: nat, q: nat, step: int)
    requires step > 0 && q % step == 0
    ensures Times(n, q) % step == 0
  {
    if n > 0 {
      TimesOnStep(n - 1, q, step);
      TimesNext(n - 1, q);
      SumOnStep(Times(n - 1, q), q, step);
    }
  }

  /** The balance is a multiple of the step that fits into `n` regular orders. */
  predicate SplitsInto(rule: SellRule, balance: nat, n: nat)
    requires rule.Valid()
  {
    balance % rule.step == 0 && Times(n, LeastRegular(rule)) <= balance <= Times(n, GreatestOnStep(rule))
  }

  /** The fewest orders that can hold the balance: its quotient by the greatest order, rounded up. */
  function OrdersNeeded(rule: SellRule, balance: nat): nat
    requires rule.Valid()
  {
    var hi := GreatestOnStep(rule);
    if hi == 0 then 0 else (balance + hi - 1) / hi
  }

  lemma {:induction false} RoundedUp(balance: nat, hi: nat, n: nat)
    requires hi > 0
    ensures Times((balance + hi - 1) / hi, hi) >= balance
    ensures Times(n, hi) >= balance ==> (balance + hi - 1) / hi <= n
  {
    var q, r := (balance + hi - 1) / hi, (balance + hi - 1) % hi;
    assert q * hi + r == balance + hi - 1 && r < hi;
    if n < q {
      TimesMonotone(n, q - 1, hi);
      TimesNext(q - 1, hi);
    }
  }

  lemma {:induction false} TimesMonotone(n: nat, m: nat, q: nat)
    requires n <= m
    ensures Times(n, q) <= Times(m, q)
  {
    if n < m {
      TimesMonotone(n, m - 1, q);
      TimesNext(m - 1, q);
    }
    hide Times;
  }

  /** A balance that splits into some number of orders splits into the fewest that can hold it. */
  lemma {:induction false} FewestOrdersDo(rule: SellRule, balance: nat, n: nat)
    requires rule.Valid() && SplitsInto(rule, balance, n)
    ensures SplitsInto(rule, balance, OrdersNeeded(rule, balance))
  {
    hide Times, LeastRegular, GreatestOnStep;
    var lo, hi := LeastRegular(rule), GreatestOnStep(rule);
    TimesNext(0, lo);
    TimesNext(0, hi);
    if hi == 0 {
      TimesOfNothing(n);
    } else {
      RoundedUp(balance, hi, n);
      TimesMonotone(OrdersNeeded(rule, balance), n, lo);
    }
  }

  lemma {:induction false} TimesOfNothing(n: nat)
    ensures Times(n, 0) == 0
  {
  }

  /** Where odd lots are forbidden, a balance can be brought to zero exactly when it is a multiple of the step and not below the least total of the fewest orders that can hold it; any other balance strands shares. */
  lemma {:induction false} ForbiddenLiquidatesExactly(rule: SellRule, balance: nat)
    requires rule.Valid() && rule.mode == Forbid
    ensures Liquidates(rule, balance) <==>
              && balance % rule.step == 0
              && Times(OrdersNeeded(rule, balance), LeastRegular(rule)) <= balance <= Times(OrdersNeeded(rule, balance), GreatestOnStep(rule))
  {
    hide Regular, LeastRegular, GreatestOnStep, OrdersNeeded, Times;
    if Liquidates(rule, balance) {
      var sells :| AcceptedRun(rule, balance, sells) && BalanceAfter(balance, sells) == 0 && Unrestricted(sells);
      LiquidatedSplits(rule, balance, sells);
      FewestOrdersDo(rule, balance, |sells|);
    }
    if SplitsInto(rule, balance, OrdersNeeded(rule, balance)) {
      SplitLiquidates(rule, balance, OrdersNeeded(rule, balance));
    }
  }

  lemma {:induction false} LiquidatedSplits(rule: SellRule, balance: nat, sells: seq<FilledSell>)
    requires rule.Valid() && rule.mode == Forbid && AcceptedRun(rule, balance, sells) && BalanceAfter(balance, sells) == 0
    ensures SplitsInto(rule, balance, |sells|)
  {
    hide Times;
    if sells == [] {
      TimesNext(0, LeastRegular(rule));
      TimesNext(0, GreatestOnStep(rule));
    } else {
      var q := sells[0].quantity;
      LiquidatedSplits(rule, balance - q, sells[1..]);
      TimesNext(|sells| - 1, LeastRegular(rule));
      TimesNext(|sells| - 1, GreatestOnStep(rule));
      SumOnStep(balance - q, q, rule.step);
    }
  }

  lemma {:induction false} SplitLiquidates(rule: SellRule, balance: nat, n: nat)
    requires rule.Valid() && rule.mode == Forbid && SplitsInto(rule, balance, n)
    ensures Liquidates(rule, balance)
  {
    hide Times, LeastRegular, GreatestOnStep;
    var lo, hi := LeastRegular(rule), GreatestOnStep(rule);
    TimesNext(0, lo);
    TimesNext(0, hi);
    if n == 0 {
      LiquidatesNothing(rule);
    } else {
      TimesNext(n - 1, lo);
      TimesNext(n - 1, hi);
      TimesOnStep(n - 1, hi, rule.step);
      DifferenceOnStep(balance, Times(n - 1, hi), rule.step);
      TimesOrder(n, lo, hi);
      var q := if Times(n - 1, hi) + lo <= balance then balance - Times(n - 1, hi) else lo;
      DifferenceOnStep(balance, q, rule.step);
      SplitLiquidates(rule, balance - q, n - 1);
      LiquidatesOneMore(rule, balance, q);
    }
  }

  lemma {:induction false} TimesGrow(n: nat, a: nat, b: nat)
    requires a < b
    ensures Times(n, a) <= Times(n, b) && (n > 0 ==> Times(n, a) < Times(n, b))
  {
    TimesNext(0, a);
    TimesNext(0, b);
    if n > 0 {
      TimesGrow(n - 1, a, b);
      TimesNext(n - 1, a);
      TimesNext(n - 1, b);
    }
    hide Times;
  }

  lemma TimesOrder(n: nat, a: nat, b: nat)
    requires n > 0 && Times(n, a) <= Times(n, b)
    ensures a <= b && Times(n - 1, a) <= Times(n - 1, b)
  {
    hide Times;
    if b < a {
      TimesGrow(n, b, a);
    } else if a < b {
      TimesGrow(n - 1, a, b);
    }
  }
}
