/** Exact decimal numbers as `Decimal.as_tuple()` shows them, and their normal form. */
module Decimals {
  import opened Outcomes

  type Digit = d: int | 0 <= d <= 9

  /** A finite Decimal: sign, digits and exponent. The constructor of the source drops leading zeros. */
  datatype DecimalTuple = DecimalTuple(negative: bool, digits: seq<Digit>, exponent: int) {
    predicate WellFormed() {
      |digits| > 0 && (|digits| > 1 ==> digits[0] != 0)
    }
  }

  type Decimal = d: DecimalTuple | d.WellFormed() witness DecimalTuple(false, [0], 0)

  const MAX_CANONICAL_DECIMAL_CHARS := 257

  // ---------------------------------------------------------------- powers of ten

  function Pow10(n: nat): (p: int)
    ensures p >= 1
  {
    if n == 0 then 1 else 10 * Pow10(n - 1)
  }

  /** Ten to a possibly negative power. */
  function Scale(e: int): (s: real)
    ensures s > 0.0
    decreases if e < 0 then -e else e
  {
    if e == 0 then 1.0 else if e > 0 then 10.0 * Scale(e - 1) else Scale(e + 1) / 10.0
  }

  /** The number that a coefficient and exponent stand for. */
  function NormalValue(c: int, e: int): real {
    c as real * Scale(e)
  }

  lemma MoveFactor(c: int, p: int, s: real)
    ensures (c * p) as real * s == c as real * (p as real * s)
  {
  }

  lemma {:induction false} ScaleAdd(e: int, n: nat)
    ensures Scale(e + n) == Pow10(n) as real * Scale(e)
  {
    if n > 0 {
      ScaleAdd(e, n - 1);
      MoveFactor(10, Pow10(n - 1), Scale(e));
    }
  }

  /** Ten times the coefficient is the same number as one more in the exponent. */
  lemma ShiftExponent(c: int, e: int, n: nat)
    ensures NormalValue(c * Pow10(n), e) == NormalValue(c, e + n)
  {
    ScaleAdd(e, n);
    MoveFactor(c, Pow10(n), Scale(e));
  }

  lemma ProductOrder(x: real, y: real, s: real)
    requires s > 0.0
    ensures x * s < y * s <==> x < y
    ensures x * s == y * s <==> x == y
  {
  }

  /** At one exponent, numbers compare as their coefficients do. */
  lemma CompareAtExponent(c1: int, c2: int, e: int)
    ensures NormalValue(c1, e) < NormalValue(c2, e) <==> c1 < c2
    ensures NormalValue(c1, e) == NormalValue(c2, e) <==> c1 == c2
  {
    ProductOrder(c1 as real, c2 as real, Scale(e));
  }

  lemma {:induction false} Pow10Add(m: nat, n: nat)
    ensures Pow10(m + n) == Pow10(m) * Pow10(n)
  {
    if m > 0 {
      Pow10Add(m - 1, n);
      assert Pow10(m) * Pow10(n) == 10 * (Pow10(m - 1) * Pow10(n));
    }
  }

  // ---------------------------------------------------------------- digits and coefficients

  function Coefficient(ds: seq<Digit>): (c: nat)
    ensures ds != [] && ds[0] != 0 ==> c > 0
  {
    if ds == [] then 0
    else
      10 * Coefficient(ds[..|ds| - 1]) + ds[|ds| - 1]
  }

  function Zeros(n: nat): (z: seq<Digit>)
    ensures |z| == n && forall i :: 0 <= i < n ==> z[i] == 0
  {
    seq(n, _ => 0)
  }

  /** The digits of `str(n)`. */
  function NatDigits(n: nat): (ds: seq<Digit>)
    ensures |ds| > 0 && (|ds| > 1 ==> ds[0] != 0)
    ensures n > 0 ==> ds[0] != 0
    ensures Coefficient(ds) == n
  {
    if n < 10 then [n] else
    var ds := NatDigits(n / 10) + [n % 10];
    assert ds[..|ds| - 1] == NatDigits(n / 10);
    ds
  }

  lemma {:induction false} CoefficientAppend(a: seq<Digit>, b: seq<Digit>)
    ensures Coefficient(a + b) == Coefficient(a) * Pow10(|b|) + Coefficient(b)
  {
    if b == [] {
      assert a + b == a;
    } else {
      var b' := b[..|b| - 1];
      CoefficientAppend(a, b');
      assert (a + b)[..|a + b| - 1] == a + b';
      TenTimes(Coefficient(a), Pow10(|b'|));
    }
  }

  lemma TenTimes(x: int, p: int)
    ensures x * (10 * p) == 10 * (x * p)
  {
  }

  lemma {:induction false} CoefficientZeros(n: nat)
    ensures Coefficient(Zeros(n)) == 0
  {
    if n > 0 {
      CoefficientZeros(n - 1);
      assert Zeros(n)[..n - 1] == Zeros(n - 1);
    }
  }

  /** A positive number has one list of digits that does not start with zero. */
  lemma {:induction false} DigitsOfCoefficient(ds: seq<Digit>)
    requires |ds| > 0 && ds[0] != 0
    ensures NatDigits(Coefficient(ds)) == ds
  {
    var front, last := ds[..|ds| - 1], ds[|ds| - 1];
    assert Coefficient(ds) == 10 * Coefficient(front) + last;
    if front != [] {
      DigitsOfCoefficient(front);
      assert Coefficient(ds) / 10 == Coefficient(front);
      assert ds == front + [last];
    }
  }

  /** The digits without trailing zeros; one digit always stays. */
  function Trim(ds: seq<Digit>): (t: seq<Digit>)
    ensures |t| <= |ds| && t == ds[..|t|]
    ensures forall i :: |t| <= i < |ds| ==> ds[i] == 0
    ensures |t| > 1 ==> t[|t| - 1] != 0
    ensures ds != [] ==> t != []
  {
    if |ds| > 1 && ds[|ds| - 1] == 0 then Trim(ds[..|ds| - 1]) else ds
  }

  // ---------------------------------------------------------------- value

  function Signed(negative: bool, c: int): int {
    if negative then -c else c
  }

  /** The exact number that a Decimal stands for. */
  function Value(d: Decimal): real {
    NormalValue(Signed(d.negative, Coefficient(d.digits)), d.exponent)
  }

  function IsZero(d: Decimal): bool {
    Coefficient(d.digits) == 0
  }

  lemma SignOfValue(d: Decimal)
    ensures Value(d) == 0.0 <==> IsZero(d)
    ensures Value(d) < 0.0 <==> !IsZero(d) && d.negative
    ensures IsZero(d) <==> d.digits == [0]
    ensures !IsZero(d) <==> d.digits[0] != 0
  {
    CompareAtExponent(Signed(d.negative, Coefficient(d.digits)), 0, d.exponent);
    assert NormalValue(0, d.exponent) == 0.0;
    assert Coefficient([0]) == 0;
    if d.digits[0] == 0 {
      assert d.digits == [0];
    }
  }

  // ---------------------------------------------------------------- normal form

  function RenderedLength(negative: bool, digitCount: nat, exponent: int): int {
    var position := digitCount + exponent;
    (if exponent >= 0 then digitCount + exponent
     else if position > 0 then digitCount + 1
     else 2 - position + digitCount) + if negative then 1 else 0
  }

  /** What `_decimal_components` answers. */
  function Components(d: Decimal, allowZero: bool): Result<(int, int)> {
    if IsZero(d) then
      if allowZero then Ok((0, 0)) else Err("must be positive")
    else
      var ds := Trim(d.digits);
      var e := d.exponent + |d.digits| - |ds|;
      if RenderedLength(d.negative, |ds|, e) > MAX_CANONICAL_DECIMAL_CHARS then Err("wire-text length bound")
      else Ok((Signed(d.negative, Coefficient(ds)), e))
  }

  /** `_decimal_components` as it runs: two loops drop trailing zeros and accumulate the coefficient. */
  method DecimalComponents(value: Decimal, allowZero: bool) returns (r: Result<(int, int)>)
    ensures r == Components(value, allowZero)
  {
    if IsZero(value) {
      return if allowZero then Ok((0, 0)) else Err("must be positive");
    }
    var end := TrailingZerosDropped(value.digits);
    var exponent := value.exponent + |value.digits| - end;
    if RenderedLength(value.negative, end, exponent) > MAX_CANONICAL_DECIMAL_CHARS {
      return Err("wire-text length bound");
    }
    var coefficient := Accumulated(value.digits[..end]);
    r := Ok((if value.negative then -coefficient else coefficient, exponent));
  }

  method TrailingZerosDropped(digits: seq<Digit>) returns (end: nat)
    requires digits != []
    ensures end <= |digits| && digits[..end] == Trim(digits)
  {
    end := |digits|;
    assert digits[..end] == digits;
    while end > 1 && digits[end - 1] == 0
      invariant 1 <= end <= |digits|
      invariant Trim(digits[..end]) == Trim(digits)
    {
      assert digits[..end][..end - 1] == digits[..end - 1];
      end := end - 1;
    }
  }

  method Accumulated(digits: seq<Digit>) returns (coefficient: int)
    ensures coefficient == Coefficient(digits)
  {
    coefficient := 0;
    for i := 0 to |digits|
      invariant coefficient == Coefficient(digits[..i])
    {
      assert digits[..i + 1][..i] == digits[..i];
      coefficient := coefficient * 10 + (digits[i] as int);
    }
    assert digits[..|digits|] == digits;
  }

  lemma TrimmedCoefficient(ds: seq<Digit>)
    requires ds != [] && ds[0] != 0
    ensures Trim(ds)[0] != 0 && Trim(ds)[|Trim(ds)| - 1] != 0
    ensures Coefficient(Trim(ds)) > 0 && Coefficient(Trim(ds)) % 10 != 0
    ensures Coefficient(ds) == Coefficient(Trim(ds)) * Pow10(|ds| - |Trim(ds)|)
  {
    var t, z := Trim(ds), Zeros(|ds| - |Trim(ds)|);
    assert ds == t + z;
    CoefficientAppend(t, z);
    CoefficientZeros(|z|);
    LastDigit(t);
  }

  /** The coefficient and exponent that `_decimal_components` computes for a nonzero number. */
  function TrimmedForm(d: Decimal): (int, int) {
    var t := Trim(d.digits);
    (Signed(d.negative, Coefficient(t)), d.exponent + |d.digits| - |t|)
  }

  lemma TrimmedValue(d: Decimal)
    requires !IsZero(d)
    ensures TrimmedForm(d).0 % 10 != 0
    ensures Value(d) == NormalValue(TrimmedForm(d).0, TrimmedForm(d).1)
  {
    hide NormalValue;
    SignOfValue(d);
    TrimmedCoefficient(d.digits);
    var (c, e) := TrimmedForm(d);
    var z := |d.digits| - |Trim(d.digits)|;
    ShiftExponent(c, d.exponent, z);
    SignedProduct(d.negative, Coefficient(Trim(d.digits)), Pow10(z));
  }

  lemma SignedProduct(negative: bool, c: int, p: int)
    ensures Signed(negative, c) * p == Signed(negative, c * p)
  {
  }

  lemma LastDigit(ds: seq<Digit>)
    requires ds != [] && ds[|ds| - 1] != 0
    ensures Coefficient(ds) % 10 == ds[|ds| - 1]
  {
  }

  /** Two coefficients without a trailing zero that stand for the same number are the same, and so are the exponents. */
  lemma NormalFormIsUnique(c1: int, e1: int, c2: int, e2: int)
    requires c1 % 10 != 0 && c2 % 10 != 0
    requires NormalValue(c1, e1) == NormalValue(c2, e2)
    ensures c1 == c2 && e1 == e2
  {
    if e1 <= e2 {
      SmallerExponentLoses(c1, e1, c2, e2 - e1);
    } else {
      SmallerExponentLoses(c2, e2, c1, e1 - e2);
    }
  }

  lemma SmallerExponentLoses(c1: int, e: int, c2: int, n: nat)
    requires c1 % 10 != 0
    requires NormalValue(c1, e) == NormalValue(c2, e + n)
    ensures n == 0 && c1 == c2
  {
    ShiftExponent(c2, e, n);
    CompareAtExponent(c1, c2 * Pow10(n), e);
    if n > 0 {
      TenDivides(c2, Pow10(n - 1));
    }
  }

  lemma TenDivides(c: int, p: int)
    ensures (c * (10 * p)) % 10 == 0
  {
    TenTimes(c, p);
  }

  /** Equal nonzero numbers have the same sign, trimmed digits and exponent. */
  lemma EqualValuesTrimAlike(a: Decimal, b: Decimal)
    requires Value(a) == Value(b) && !IsZero(a)
    ensures !IsZero(b) && a.negative == b.negative && Trim(a.digits) == Trim(b.digits) && TrimmedForm(a) == TrimmedForm(b)
  {
    SignOfValue(a);
    SignOfValue(b);
    TrimmedValue(a);
    TrimmedValue(b);
    NormalFormIsUnique(TrimmedForm(a).0, TrimmedForm(a).1, TrimmedForm(b).0, TrimmedForm(b).1);
    TrimmedCoefficient(a.digits);
    TrimmedCoefficient(b.digits);
    DigitsOfCoefficient(Trim(a.digits));
    DigitsOfCoefficient(Trim(b.digits));
  }

  /** `_decimal_components` keeps the value and answers zero as (0, 0) or a coefficient without trailing zero. */
  lemma ComponentsKeepValue(d: Decimal, allowZero: bool)
    requires Components(d, allowZero).Ok?
    ensures var (c, e) := Components(d, allowZero).value;
            NormalValue(c, e) == Value(d) && ((c == 0 && e == 0) || c % 10 != 0)
  {
    SignOfValue(d);
    if !IsZero(d) {
      TrimmedValue(d);
    }
  }

  /** `_decimal_components` depends on nothing but the value: the normal form is unique, and so is the length verdict. */
  lemma ComponentsDecideEquality(a: Decimal, b: Decimal, allowZero: bool)
    ensures Value(a) == Value(b) ==> Components(a, allowZero) == Components(b, allowZero)
    ensures Components(a, allowZero).Ok? && Components(a, allowZero) == Components(b, allowZero) ==> Value(a) == Value(b)
  {
    if Value(a) == Value(b) {
      SignOfValue(a);
      SignOfValue(b);
      if !IsZero(a) {
        EqualValuesTrimAlike(a, b);
      }
    }
    if Components(a, allowZero).Ok? && Components(b, allowZero).Ok? {
      ComponentsKeepValue(a, allowZero);
      ComponentsKeepValue(b, allowZero);
    }
  }

  // ---------------------------------------------------------------- multiples and whole numbers

  /** `_scaled_integer`: the coefficient shifted by the exponent plus `scale`; the sign is not read. */
  function ScaledInteger(d: Decimal, scale: int): (n: nat)
    requires d.exponent + scale >= 0
    ensures n > 0 <==> !IsZero(d)
  {
    var c, p := Coefficient(d.digits), Pow10(d.exponent + scale);
    assert c * p >= 0 && (c > 0 ==> c * p > 0);
    c * p
  }

  /** `_is_multiple`; a zero step divides by zero in the source. */
  function IsMultiple(v: Decimal, step: Decimal): bool
    requires !IsZero(step)
  {
    var scale := Max(0, Max(-v.exponent, -step.exponent));
    ScaledInteger(v, scale) % ScaledInteger(step, scale) == 0
  }

  function Max(a: int, b: int): int {
    if a >= b then a else b
  }

  function IsWholeNumber(d: Decimal): bool {
    d.exponent >= 0
  }

  lemma ScaledIntegerValue(d: Decimal, scale: int)
    requires d.exponent + scale >= 0
    ensures Value(d) == NormalValue(Signed(d.negative, ScaledInteger(d, scale)), -scale)
  {
    var c := Signed(d.negative, Coefficient(d.digits));
    ShiftExponent(c, -scale, d.exponent + scale);
    assert c * Pow10(d.exponent + scale) == Signed(d.negative, ScaledInteger(d, scale));
  }

  /** One number is the integer `k` times the other. */
  predicate IsTimes(k: int, x: real, y: real) {
    x == k as real * y
  }

  /** `_is_multiple` decides exactly whether the first number is an integer times the second, whatever the exponents and signs. */
  lemma IsMultipleIsExact(v: Decimal, step: Decimal)
    requires !IsZero(step)
    ensures IsMultiple(v, step) <==> exists k: int :: IsTimes(k, Value(v), Value(step))
  {
    var scale := Max(0, Max(-v.exponent, -step.exponent));
    var a, b := ScaledInteger(v, scale), ScaledInteger(step, scale);
    ScaledIntegerValue(v, scale);
    ScaledIntegerValue(step, scale);
    var sa, sb := Signed(v.negative, a), Signed(step.negative, b);
    SignedMultiple(a, b, v.negative, step.negative);
    if a % b == 0 {
      var q: int := a / b;
      ScaledTimes(Signed(v.negative != step.negative, q), sa, sb, -scale);
    }
    forall k: int | IsTimes(k, Value(v), Value(step))
      ensures a % b == 0
    {
      ScaledTimes(k, sa, sb, -scale);
    }
  }

  lemma ScaledTimes(k: int, a: int, b: int, e: int)
    ensures IsTimes(k, NormalValue(a, e), NormalValue(b, e)) <==> a == k * b
  {
    MoveFactor(k, b, Scale(e));
    CompareAtExponent(a, k * b, e);
  }

  /** Divisibility does not see signs. */
  lemma SignedMultiple(a: int, b: int, n: bool, m: bool)
    requires b > 0
    ensures a % b == 0 ==> Signed(n, a) == Signed(n != m, a / b) * Signed(m, b)
    ensures forall k: int :: Signed(n, a) == k * Signed(m, b) ==> a % b == 0
  {
    forall k: int | Signed(n, a) == k * Signed(m, b)
      ensures a % b == 0
    {
      DivideExactly(a, b, if n == m then k else -k);
    }
  }

  lemma DivideExactly(a: int, b: int, k: int)
    requires b > 0 && a == k * b
    ensures a % b == 0 && a / b == k
  {
    var x := k - a / b;
    assert x * b == a % b;
    assert x == 0;
  }
}
