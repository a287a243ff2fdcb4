/** Canonical decimal text: the printers, the wire grammars and the parsers, and why they are inverse. */
module DecimalText {
  import opened Outcomes
  import opened Decimals

  // ---------------------------------------------------------------- characters

  function DigitChar(d: Digit): char {
    (48 + d) as char
  }

  predicate IsDigitChar(c: char) {
    '0' <= c <= '9'
  }

  predicate AllDigits(t: string) {
    forall i :: 0 <= i < |t| ==> IsDigitChar(t[i])
  }

  function CharDigit(c: char): Digit
    requires IsDigitChar(c)
  {
    c as int - 48
  }

  function Text(ds: seq<Digit>): (t: string)
    ensures |t| == |ds| && AllDigits(t)
    ensures forall i :: 0 <= i < |ds| ==> t[i] == DigitChar(ds[i])
  {
    seq(|ds|, i requires 0 <= i < |ds| => DigitChar(ds[i]))
  }

  function TextDigits(t: string): (ds: seq<Digit>)
    requires AllDigits(t)
    ensures |ds| == |t|
    ensures forall i :: 0 <= i < |t| ==> ds[i] == CharDigit(t[i])
  {
    seq(|t|, i requires 0 <= i < |t| => CharDigit(t[i]))
  }

  lemma TextEnds(ds: seq<Digit>)
    requires ds != []
    ensures ds[|ds| - 1] != 0 ==> IsFractionText(Text(ds))
    ensures (|ds| > 1 ==> ds[0] != 0) ==> IsIntegerText(Text(ds))
  {
  }

  lemma DigitsOfText(ds: seq<Digit>)
    ensures TextDigits(Text(ds)) == ds
  {
  }

  lemma TextOfDigits(t: string)
    requires AllDigits(t)
    ensures Text(TextDigits(t)) == t
  {
  }

  // ---------------------------------------------------------------- printing

  function Render(negative: bool, ds: seq<Digit>, exponent: int): string {
    (if negative then "-" else "") + RenderUnsigned(ds, exponent)
  }

  function RenderUnsigned(ds: seq<Digit>, exponent: int): string {
    var position := |ds| + exponent;
    if exponent >= 0 then Text(ds + Zeros(exponent))
    else if position > 0 then Text(ds[..position]) + "." + Text(ds[position..])
    else "0." + Text(Zeros(-position) + ds)
  }

  /** `_canonical_decimal_text`. */
  function CanonicalText(v: Decimal): Result<string> {
    var (c, e) :- Components(v, true);
    if c == 0 then Ok("0")
    else Ok(Render(c < 0, NatDigits(if c < 0 then -c else c), e))
  }

  /** The printed text of a nonzero number shows its sign, its trimmed digits and its trimmed exponent. */
  lemma PrintedForm(v: Decimal)
    requires !IsZero(v) && CanonicalText(v).Ok?
    ensures CanonicalText(v) == Ok(Render(v.negative, Trim(v.digits), TrimmedForm(v).1))
    ensures Trim(v.digits) != [] && Trim(v.digits)[0] != 0 && Trim(v.digits)[|Trim(v.digits)| - 1] != 0
  {
    SignOfValue(v);
    TrimmedCoefficient(v.digits);
    DigitsOfCoefficient(Trim(v.digits));
  }

  /** The length that `_decimal_components` predicts before rendering is the length of the text. */
  lemma PredictedLengthIsReal(v: Decimal)
    requires !IsZero(v)
    ensures var predicted := RenderedLength(v.negative, |Trim(v.digits)|, TrimmedForm(v).1);
            && (CanonicalText(v).Ok? <==> predicted <= 257)
            && (CanonicalText(v).Ok? ==> |CanonicalText(v).value| == predicted)
  {
    if CanonicalText(v).Ok? {
      PrintedForm(v);
    }
  }

  // ---------------------------------------------------------------- the wire grammar

  function PointIndex(t: string): (p: nat)
    ensures p <= |t| && (p < |t| ==> t[p] == '.')
    ensures forall i :: 0 <= i < p ==> t[i] != '.'
  {
    if t == "" || t[0] == '.' then 0 else 1 + PointIndex(t[1..])
  }

  /** `0|[1-9][0-9]*` */
  predicate IsIntegerText(t: string) {
    t != "" && AllDigits(t) && (|t| > 1 ==> t[0] != '0')
  }

  /** `[0-9]*[1-9]` */
  predicate IsFractionText(t: string) {
    t != "" && AllDigits(t) && t[|t| - 1] != '0'
  }

  /** The v2 pattern: an integer part and perhaps a point and a fraction. */
  predicate IsWireText(t: string) {
    var p := PointIndex(t);
    IsIntegerText(t[..p]) && (p < |t| ==> IsFractionText(t[p + 1..]))
  }

  /** The v1 pattern: the v2 pattern, or a minus sign before a text of it that does not start with zero. */
  predicate IsWireTextV1(t: string) {
    IsWireText(t) || (|t| > 1 && t[0] == '-' && t[1] != '0' && IsWireText(t[1..]))
  }

  function DropLeadingZeros(ds: seq<Digit>): (r: seq<Digit>)
    requires ds != []
    ensures r != [] && (|r| > 1 ==> r[0] != 0)
    ensures |r| <= |ds| && r == ds[|ds| - |r|..]
    ensures forall i :: 0 <= i < |ds| - |r| ==> ds[i] == 0
  {
    if |ds| > 1 && ds[0] == 0 then DropLeadingZeros(ds[1..]) else ds
  }

  /** What the Decimal constructor makes of wire text; it keeps every digit, and drops leading zeros. */
  function ParseText(t: string): Decimal
    requires IsWireText(t)
  {
    var p := PointIndex(t);
    if p == |t| then DecimalTuple(false, DropLeadingZeros(TextDigits(t[..p])), 0)
    else
      var fraction := TextDigits(t[p + 1..]);
      DecimalTuple(false, DropLeadingZeros(TextDigits(t[..p]) + fraction), -|fraction|)
  }

  function Negate(d: Decimal): Decimal {
    DecimalTuple(!d.negative, d.digits, d.exponent)
  }

  function ParseSigned(t: string): Decimal
    requires IsWireTextV1(t) || (|t| > 1 && t[0] == '-' && IsWireText(t[1..]))
  {
    if t[0] == '-' then Negate(ParseText(t[1..])) else ParseText(t)
  }

  /** `_decimal` of the v2 validator. */
  function WireDecimal(t: string, allowZero: bool): Option<Decimal> {
    if |t| > MAX_CANONICAL_DECIMAL_CHARS || !IsWireText(t) then None
    else if IsZero(ParseText(t)) && !allowZero then None
    else Some(ParseText(t))
  }

  /** `_decimal` of the v1 validator: a wider pattern, then a sign test. */
  function WireDecimalV1(t: string, allowZero: bool): Option<Decimal> {
    if |t| > MAX_CANONICAL_DECIMAL_CHARS || !IsWireTextV1(t) then None
    else
      var parsed := ParseSigned(t);
      if Value(parsed) < 0.0 || (Value(parsed) == 0.0 && !allowZero) then None else Some(parsed)
  }

  // ---------------------------------------------------------------- printing, then parsing

  lemma PointAfterDigits(a: string, b: string)
    requires AllDigits(a)
    ensures PointIndex(a + "." + b) == |a|
    ensures PointIndex(a) == |a|
  {
    var t := a + "." + b;
    assert t[|a|] == '.';
    assert forall i :: 0 <= i < |a| ==> t[i] == a[i];
  }

  lemma ParsePlain(t: string)
    requires IsIntegerText(t)
    ensures IsWireText(t) && t[0] != '-'
    ensures ParseText(t) == DecimalTuple(false, DropLeadingZeros(TextDigits(t)), 0)
  {
    PointAfterDigits(t, "");
    assert t[..|t|] == t;
  }

  lemma ParsePointed(whole: string, fraction: string)
    requires IsIntegerText(whole) && IsFractionText(fraction)
    ensures var t := whole + "." + fraction;
            && IsWireText(t) && t[0] != '-'
            && ParseText(t) == DecimalTuple(false, DropLeadingZeros(TextDigits(whole) + TextDigits(fraction)), -|fraction|)
  {
    var t := whole + "." + fraction;
    PointAfterDigits(whole, fraction);
    assert t[..|whole|] == whole && t[|whole| + 1..] == fraction;
  }

  /** Wire text is an integer text, or an integer text, a point and a fraction text. */
  lemma SplitWireText(t: string) returns (whole: string, fraction: string)
    requires IsWireText(t)
    ensures IsIntegerText(whole)
    ensures fraction == "" ==> t == whole
    ensures fraction != "" ==> IsFractionText(fraction) && t == whole + "." + fraction
  {
    var p := PointIndex(t);
    whole, fraction := t[..p], if p < |t| then t[p + 1..] else "";
    if p == |t| {
      assert t[..p] == t;
    }
  }

  /** Unsigned rendering of trimmed digits is wire text, and parsing it gives the digits back. */
  lemma ParseRendered(ds: seq<Digit>, e: int)
    requires ds != [] && ds[0] != 0 && ds[|ds| - 1] != 0
    ensures IsWireText(RenderUnsigned(ds, e)) && RenderUnsigned(ds, e)[0] != '-'
    ensures ParseText(RenderUnsigned(ds, e)) == if e >= 0 then DecimalTuple(false, ds + Zeros(e), 0) else DecimalTuple(false, ds, e)
  {
    hide Text, TextDigits, Zeros, Coefficient;
    if e >= 0 {
      TextEnds(ds + Zeros(e));
      ParsePlain(Text(ds + Zeros(e)));
      DigitsOfText(ds + Zeros(e));
    } else if |ds| + e > 0 {
      ParseSplitDigits(ds, |ds| + e);
    } else {
      ParseSmallDigits(ds, -(|ds| + e));
    }
  }

  lemma ParseSplitDigits(ds: seq<Digit>, position: nat)
    requires 0 < position < |ds| && ds[0] != 0 && ds[|ds| - 1] != 0
    ensures var t := Text(ds[..position]) + "." + Text(ds[position..]);
            IsWireText(t) && t[0] != '-' && ParseText(t) == DecimalTuple(false, ds, position - |ds|)
  {
    hide *;
    TextEnds(ds[..position]);
    TextEnds(ds[position..]);
    ParsePointed(Text(ds[..position]), Text(ds[position..]));
    DigitsOfText(ds[..position]);
    DigitsOfText(ds[position..]);
    assert ds[..position] + ds[position..] == ds;
  }

  lemma ParseSmallDigits(ds: seq<Digit>, zeros: nat)
    requires ds != [] && ds[0] != 0 && ds[|ds| - 1] != 0
    ensures var t := "0." + Text(Zeros(zeros) + ds);
            IsWireText(t) && t[0] != '-' && ParseText(t) == DecimalTuple(false, ds, 0 - zeros - |ds|)
  {
    hide *;
    var f := Zeros(zeros) + ds;
    assert "0." == "0" + ".";
    FractionText(zeros, ds);
    ZeroText();
    ParsePointed("0", Text(f));
    ZeroBefore(zeros, ds);
    DigitsOfText(f);
  }

  lemma FractionText(zeros: nat, ds: seq<Digit>)
    requires ds != [] && ds[|ds| - 1] != 0
    ensures IsFractionText(Text(Zeros(zeros) + ds))
  {
    TextEnds(Zeros(zeros) + ds);
  }

  lemma ZeroText()
    ensures IsIntegerText("0") && TextDigits("0") == [0] && Text([0]) == "0"
  {
  }

  lemma ZeroBefore(zeros: nat, ds: seq<Digit>)
    requires ds != [] && ds[0] != 0
    ensures DropLeadingZeros([0] + (Zeros(zeros) + ds)) == ds
  {
    assert [0] + (Zeros(zeros) + ds) == Zeros(zeros + 1) + ds;
    LeadingZerosGo(zeros + 1, ds);
  }

  lemma {:induction false} LeadingZerosGo(zeros: nat, ds: seq<Digit>)
    requires ds != [] && ds[0] != 0
    ensures DropLeadingZeros(Zeros(zeros) + ds) == ds
  {
    var all := Zeros(zeros) + ds;
    if zeros == 0 {
      assert all == ds;
    } else {
      assert all[0] == 0 && all[1..] == Zeros(zeros - 1) + ds;
      LeadingZerosGo(zeros - 1, ds);
    }
  }

  lemma ShiftedDigitsValue(ds: seq<Digit>, e: nat)
    requires ds != [] && ds[0] != 0
    ensures Value(DecimalTuple(false, ds + Zeros(e), 0)) == NormalValue(Coefficient(ds), e)
  {
    CoefficientAppend(ds, Zeros(e));
    CoefficientZeros(e);
    ShiftExponent(Coefficient(ds), 0, e);
  }

  lemma NegatedValue(c: int, e: int)
    ensures NormalValue(-c, e) == -NormalValue(c, e)
  {
  }

  lemma ValueOfNegation(d: Decimal)
    ensures Value(Negate(d)) == -Value(d)
  {
    NegatedValue(Coefficient(d.digits), d.exponent);
  }

  /** Printing and then parsing gives the same number back, for every number that can be printed. */
  lemma PrintThenParse(v: Decimal)
    requires CanonicalText(v).Ok?
    ensures var t := CanonicalText(v).value;
            && |t| <= MAX_CANONICAL_DECIMAL_CHARS
            && (Value(v) >= 0.0 ==> IsWireText(t))
            && (Value(v) < 0.0 ==> |t| > 1 && t[0] == '-' && IsWireText(t[1..]))
            && Value(ParseSigned(t)) == Value(v)
  {
    SignOfValue(v);
    if IsZero(v) {
      ParsePlain("0");
      SignOfValue(ParseText("0"));
    } else {
      PredictedLengthIsReal(v);
      PrintThenParseNonzero(v);
    }
  }

  lemma PrintThenParseNonzero(v: Decimal)
    requires CanonicalText(v).Ok? && !IsZero(v)
    ensures var t := CanonicalText(v).value;
            && (if v.negative then |t| > 1 && t[0] == '-' && IsWireText(t[1..]) else IsWireText(t) && t[0] != '-')
            && Value(ParseSigned(t)) == Value(v)
  {
    hide *;
    PrintedForm(v);
    TrimmedValue(v);
    RenderedValue(Trim(v.digits), TrimmedForm(v).1);
    ParseSign(v.negative, Trim(v.digits), TrimmedForm(v).1);
    TrimmedSign(v);
  }

  /** The sign of the printed text is read back as the sign of the number. */
  lemma ParseSign(negative: bool, ds: seq<Digit>, e: int)
    requires IsWireText(RenderUnsigned(ds, e)) && RenderUnsigned(ds, e)[0] != '-'
    ensures var t, u := Render(negative, ds, e), ParseText(RenderUnsigned(ds, e));
            && (if negative then |t| > 1 && t[0] == '-' && IsWireText(t[1..]) else IsWireText(t) && t[0] != '-')
            && Value(ParseSigned(t)) == if negative then -Value(u) else Value(u)
  {
    hide Value, ParseText, RenderUnsigned;
    var u, t := RenderUnsigned(ds, e), Render(negative, ds, e);
    if negative {
      assert t[1..] == u;
      ValueOfNegation(ParseText(u));
    } else {
      assert t == u;
    }
  }

  lemma TrimmedSign(v: Decimal)
    ensures NormalValue(TrimmedForm(v).0, TrimmedForm(v).1)
            == if v.negative then -NormalValue(Coefficient(Trim(v.digits)), TrimmedForm(v).1)
               else NormalValue(Coefficient(Trim(v.digits)), TrimmedForm(v).1)
  {
    NegatedValue(Coefficient(Trim(v.digits)), TrimmedForm(v).1);
  }

  lemma RenderedValue(ds: seq<Digit>, e: int)
    requires ds != [] && ds[0] != 0 && ds[|ds| - 1] != 0
    ensures IsWireText(RenderUnsigned(ds, e)) && RenderUnsigned(ds, e)[0] != '-'
    ensures Value(ParseText(RenderUnsigned(ds, e))) == NormalValue(Coefficient(ds), e)
  {
    ParseRendered(ds, e);
    if e >= 0 {
      ShiftedDigitsValue(ds, e);
    }
  }

  // ---------------------------------------------------------------- parsing, then printing

  /** Every wire text but "0" is the rendering of digits without a zero at either end. */
  lemma WireTextShape(t: string) returns (ds: seq<Digit>, e: int)
    requires IsWireText(t) && t != "0"
    ensures ds != [] && ds[0] != 0 && ds[|ds| - 1] != 0
    ensures t == RenderUnsigned(ds, e)
  {
    hide *;
    var whole, fraction := SplitWireText(t);
    if fraction == "" {
      ds, e := IntegerTextShape(t);
    } else if whole == "0" {
      ds, e := SmallTextShape(fraction);
    } else {
      ds, e := PointedTextShape(whole, fraction);
    }
  }

  lemma IntegerTextShape(t: string) returns (ds: seq<Digit>, e: int)
    requires IsIntegerText(t) && t != "0"
    ensures ds != [] && ds[0] != 0 && ds[|ds| - 1] != 0
    ensures t == RenderUnsigned(ds, e)
  {
    hide Text, TextDigits, Zeros, Coefficient;
    var all := TextDigits(t);
    TextOfDigits(t);
    assert t[0] != '0';
    TrimmedCoefficient(all);
    ds, e := Trim(all), |all| - |Trim(all)|;
    assert all == ds + Zeros(e);
  }

  lemma SmallTextShape(fraction: string) returns (ds: seq<Digit>, e: int)
    requires IsFractionText(fraction)
    ensures ds != [] && ds[0] != 0 && ds[|ds| - 1] != 0
    ensures "0" + "." + fraction == RenderUnsigned(ds, e)
  {
    hide Text, TextDigits, Zeros, RenderUnsigned, DropLeadingZeros;
    var f := TextDigits(fraction);
    TextOfDigits(fraction);
    ds, e := DropLeadingZeros(f), -|f|;
    var zeros := |f| - |ds|;
    assert f == Zeros(zeros) + ds;
    RenderSmall(ds, zeros);
    assert Text(Zeros(zeros) + ds) == fraction;
  }

  lemma RenderSmall(ds: seq<Digit>, zeros: nat)
    requires ds != []
    ensures RenderUnsigned(ds, 0 - |ds| - zeros) == "0" + "." + Text(Zeros(zeros) + ds)
  {
    hide Text, Zeros;
    assert "0." == "0" + ".";
  }

  lemma PointedTextShape(whole: string, fraction: string) returns (ds: seq<Digit>, e: int)
    requires IsIntegerText(whole) && whole != "0" && IsFractionText(fraction)
    ensures ds != [] && ds[0] != 0 && ds[|ds| - 1] != 0
    ensures whole + "." + fraction == RenderUnsigned(ds, e)
  {
    hide Text, TextDigits, Zeros;
    var w, f := TextDigits(whole), TextDigits(fraction);
    TextOfDigits(whole);
    TextOfDigits(fraction);
    ds, e := w + f, -|f|;
    assert whole[0] != '0';
    assert ds[..|w|] == w && ds[|w|..] == f;
  }

  /** Parsing wire text and printing the number gives the same text back. */
  lemma ParseThenPrint(t: string)
    requires IsWireText(t) && |t| <= MAX_CANONICAL_DECIMAL_CHARS
    ensures CanonicalText(ParseText(t)) == Ok(t)
  {
    if t == "0" {
      ZeroText();
      ParsePlain("0");
      SignOfValue(ParseText("0"));
    } else {
      var ds, e := WireTextShape(t);
      PrintRendered(ds, e);
    }
  }

  lemma PrintRendered(ds: seq<Digit>, e: int)
    requires ds != [] && ds[0] != 0 && ds[|ds| - 1] != 0
    requires |RenderUnsigned(ds, e)| <= MAX_CANONICAL_DECIMAL_CHARS
    ensures IsWireText(RenderUnsigned(ds, e))
    ensures CanonicalText(ParseText(RenderUnsigned(ds, e))) == Ok(RenderUnsigned(ds, e))
  {
    hide RenderUnsigned, ParseText, CanonicalText, IsWireText, Zeros, Coefficient;
    ParseRendered(ds, e);
    var v := ParseText(RenderUnsigned(ds, e));
    SignOfValue(v);
    TrimPadding(ds, if e >= 0 then e else 0);
    assert ds + Zeros(0) == ds;
    PrintsAs(v, RenderUnsigned(ds, e));
  }

  lemma {:induction false} TrimPadding(ds: seq<Digit>, zeros: nat)
    requires ds != [] && ds[|ds| - 1] != 0
    ensures Trim(ds + Zeros(zeros)) == ds
  {
    hide Zeros;
    var all := ds + Zeros(zeros);
    if zeros == 0 {
      assert all == ds;
    } else {
      assert all[..|all| - 1] == ds + Zeros(zeros - 1);
      TrimPadding(ds, zeros - 1);
    }
  }

  /** A number whose trimmed digits render as a short enough text prints as that text. */
  lemma PrintsAs(v: Decimal, t: string)
    requires !IsZero(v) && !v.negative && |t| <= MAX_CANONICAL_DECIMAL_CHARS
    requires t == RenderUnsigned(Trim(v.digits), TrimmedForm(v).1)
    ensures CanonicalText(v) == Ok(t)
  {
    hide Text, TextDigits, Zeros, Coefficient;
    PredictedLengthIsReal(v);
    assert |t| == RenderedLength(v.negative, |Trim(v.digits)|, TrimmedForm(v).1);
    PrintedForm(v);
    assert "" + t == t;
  }

  // ---------------------------------------------------------------- the bijection

  /** Two printable numbers have the same text exactly when they are equal, whatever their exponents; if one is too long, so is the other. */
  lemma PrintingDecidesEquality(a: Decimal, b: Decimal)
    ensures Value(a) == Value(b) ==> CanonicalText(a) == CanonicalText(b)
    ensures CanonicalText(a).Ok? && CanonicalText(a) == CanonicalText(b) ==> Value(a) == Value(b)
  {
    ComponentsDecideEquality(a, b, true);
    if CanonicalText(a).Ok? && CanonicalText(a) == CanonicalText(b) {
      PrintThenParse(a);
      PrintThenParse(b);
    }
  }

  /** The texts that the wire pattern and the length bound accept are exactly the prints of nonnegative numbers. */
  lemma WireTextsAreThePrints(t: string)
    ensures IsWireText(t) && |t| <= 257
            <==> exists v: Decimal :: Value(v) >= 0.0 && CanonicalText(v) == Ok(t)
  {
    if IsWireText(t) && |t| <= MAX_CANONICAL_DECIMAL_CHARS {
      ParseThenPrint(t);
      SignOfValue(ParseText(t));
    }
    forall v: Decimal | Value(v) >= 0.0 && CanonicalText(v) == Ok(t)
      ensures IsWireText(t) && |t| <= MAX_CANONICAL_DECIMAL_CHARS
    {
      PrintThenParse(v);
    }
  }

  lemma WireTextIsUnsigned(t: string)
    requires IsWireText(t)
    ensures t != "" && t[0] != '-'
  {
    assert PointIndex(t) > 0;
    assert IsDigitChar(t[..PointIndex(t)][0]);
  }

  /** The wider v1 pattern admits no further number: both `_decimal` functions accept the same texts with the same results. */
  lemma BothParsersAgree(t: string, allowZero: bool)
    ensures WireDecimalV1(t, allowZero) == WireDecimal(t, allowZero)
  {
    if IsWireText(t) {
      WireTextIsUnsigned(t);
      SignOfValue(ParseText(t));
    } else if IsWireTextV1(t) {
      var u := ParseText(t[1..]);
      SignOfValue(u);
      ValueOfNegation(u);
      NonzeroStart(t[1..]);
    }
  }

  lemma NonzeroStart(t: string)
    requires IsWireText(t) && t[0] != '0'
    ensures !IsZero(ParseText(t))
  {
    var p, v := PointIndex(t), ParseText(t);
    SignOfValue(v);
    assert t[..p][0] == t[0];
    var w := TextDigits(t[..p]);
    assert w[0] != 0;
    if p < |t| {
      assert (w + TextDigits(t[p + 1..]))[0] == w[0];
    }
  }

  /** On wire text, a nonnegative exponent decides exactly whether the number is whole. */
  lemma WholeNumberIsExact(t: string)
    requires IsWireText(t)
    ensures IsWholeNumber(ParseText(t)) <==> exists k: int :: IsTimes(k, Value(ParseText(t)), 1.0)
  {
    hide Value, Scale, Coefficient, Text, TextDigits, DropLeadingZeros, ParseText, IsWireText;
    var whole, fraction := SplitWireText(t);
    var v := ParseText(t);
    if fraction == "" {
      ParsePlain(t);
      IntegerIsWhole(v);
    } else {
      ParsePointed(whole, fraction);
      LastWrittenDigit(TextDigits(whole), TextDigits(fraction));
      forall k: int
        ensures !IsTimes(k, Value(v), 1.0)
      {
        FractionIsNotWhole(v, k);
      }
    }
  }

  lemma LastWrittenDigit(w: seq<Digit>, f: seq<Digit>)
    requires f != []
    ensures var ds := DropLeadingZeros(w + f); ds[|ds| - 1] == f[|f| - 1]
  {
  }

  lemma IntegerIsWhole(v: Decimal)
    requires v.exponent == 0 && !v.negative
    ensures IsTimes(Coefficient(v.digits), Value(v), 1.0)
  {
    ScaleZero();
  }

  lemma ScaleZero()
    ensures Scale(0) == 1.0
  {
  }

  lemma FractionIsNotWhole(v: Decimal, k: int)
    requires v.exponent < 0 && v.digits[|v.digits| - 1] != 0 && !v.negative
    ensures !IsTimes(k, Value(v), 1.0)
  {
    LastDigit(v.digits);
    hide Scale, Coefficient;
    ScaleZero();
    if IsTimes(k, Value(v), 1.0) {
      assert NormalValue(k, v.exponent + -v.exponent) == k as real * 1.0 == Value(v);
      SmallerExponentLoses(Coefficient(v.digits), v.exponent, k, -v.exponent);
    }
  }

  // ---------------------------------------------------------------- the adapter's printer

  function StripRight(t: string, c: char): (r: string)
    ensures r <= t && (r != "" ==> r[|r| - 1] != c)
    ensures forall i :: |r| <= i < |t| ==> t[i] == c
  {
    if t != "" && t[|t| - 1] == c then StripRight(t[..|t| - 1], c) else t
  }

  /** `format(value, "f")` text without the zeros that end its fraction. */
  function FixedPlain(text: string): string {
    if '.' in text then StripRight(StripRight(text, '0'), '.') else text
  }

  /** `_plain_decimal_text`: a length estimate on the digits as they are, then fixed text without its trailing zeros. */
  function PlainText(d: Decimal): Option<string> {
    if IsZero(d) then Some("0")
    else if RenderedLength(d.negative, |d.digits|, d.exponent) > MAX_CANONICAL_DECIMAL_CHARS then None
    else
      Some(FixedPlain((if d.negative then "-" else "") + RenderUnsigned(d.digits, d.exponent)))
  }

  lemma {:induction false} StripRightIs(t: string, r: string, c: char)
    requires r <= t && (r != "" ==> r[|r| - 1] != c)
    requires forall i :: |r| <= i < |t| ==> t[i] == c
    ensures StripRight(t, c) == r
  {
    if |r| < |t| {
      StripRightIs(t[..|t| - 1], r, c);
    }
  }

  /** Without a point nothing is stripped; with a point the zeros of the fraction go, and the point goes with the last of them. */
  lemma StrippedFixedText(sign: string, ds: seq<Digit>, e: int)
    requires ds != [] && ds[0] != 0 && sign in ["", "-"]
    ensures FixedPlain(sign + RenderUnsigned(ds, e)) == sign + RenderUnsigned(Trim(ds), e + |ds| - |Trim(ds)|)
  {
    hide RenderUnsigned, StripRight, Text, Zeros, Coefficient, Trim;
    TrimmedCoefficient(ds);
    PointWhenNegative(sign, ds, e);
    if e >= 0 {
      TrimWholeNumber(ds, e);
    } else if e + |ds| - |Trim(ds)| < 0 {
      StripFractionZeros(sign, ds, e);
    } else {
      StripWholeFraction(sign, ds, e);
    }
  }

  lemma TrimWholeNumber(ds: seq<Digit>, e: nat)
    ensures RenderUnsigned(ds, e) == RenderUnsigned(Trim(ds), e + |ds| - |Trim(ds)|)
  {
    assert ds + Zeros(e) == Trim(ds) + Zeros(e + |ds| - |Trim(ds)|);
  }

  lemma PointWhenNegative(sign: string, ds: seq<Digit>, e: int)
    requires ds != [] && sign in ["", "-"]
    ensures '.' in sign + RenderUnsigned(ds, e) <==> e < 0
  {
    hide Text, Zeros;
    var text := sign + RenderUnsigned(ds, e);
    if e >= 0 {
      assert forall i :: 0 <= i < |text| ==> text[i] != '.';
    } else {
      assert text[|sign| + if |ds| + e > 0 then |ds| + e else 1] == '.';
    }
  }

  lemma TextAppend(a: seq<Digit>, b: seq<Digit>)
    ensures Text(a + b) == Text(a) + Text(b)
  {
  }

  lemma NonzeroDigitText(d: Digit)
    ensures d != 0 ==> DigitChar(d) != '0'
    ensures DigitChar(d) != '.'
  {
  }

  lemma ZerosText(z: nat)
    ensures |Text(Zeros(z))| == z && forall i :: 0 <= i < z ==> Text(Zeros(z))[i] == '0'
  {
  }

  lemma FractionZerosText(ds: seq<Digit>, e: int)
    requires ds != [] && e + |ds| - |Trim(ds)| < 0
    ensures var t, z := Trim(ds), |ds| - |Trim(ds)|;
            var plain := RenderUnsigned(t, e + z);
            RenderUnsigned(ds, e) == plain + Text(Zeros(z)) && plain != "" && plain[|plain| - 1] == DigitChar(t[|t| - 1])
  {
    hide Text, Zeros, Trim;
    var t, z, position := Trim(ds), |ds| - |Trim(ds)|, |ds| + e;
    assert ds == t + Zeros(z);
    if position > 0 {
      assert ds[..position] == t[..position] && ds[position..] == t[position..] + Zeros(z);
      TextAppend(t[position..], Zeros(z));
    } else {
      assert Zeros(-position) + ds == (Zeros(-position) + t) + Zeros(z);
      TextAppend(Zeros(-position) + t, Zeros(z));
    }
  }

  lemma StripFractionZeros(sign: string, ds: seq<Digit>, e: int)
    requires ds != [] && Trim(ds)[|Trim(ds)| - 1] != 0 && e + |ds| - |Trim(ds)| < 0
    ensures StripRight(StripRight(sign + RenderUnsigned(ds, e), '0'), '.') == sign + RenderUnsigned(Trim(ds), e + |ds| - |Trim(ds)|)
  {
    hide *;
    hide RenderUnsigned;
    var t, z := Trim(ds), |ds| - |Trim(ds)|;
    var plain := sign + RenderUnsigned(t, e + z);
    FractionZerosText(ds, e);
    NonzeroDigitText(t[|t| - 1]);
    assert plain[|plain| - 1] == RenderUnsigned(t, e + z)[|RenderUnsigned(t, e + z)| - 1];
    assert sign + RenderUnsigned(ds, e) == plain + Text(Zeros(z));
    ZerosText(z);
    StripRightIs(sign + RenderUnsigned(ds, e), plain, '0');
    StripRightIs(plain, plain, '.');
  }

  lemma StripWholeFraction(sign: string, ds: seq<Digit>, e: int)
    requires ds != [] && ds[0] != 0 && e < 0 && e + |ds| - |Trim(ds)| >= 0
    ensures StripRight(StripRight(sign + RenderUnsigned(ds, e), '0'), '.') == sign + RenderUnsigned(Trim(ds), e + |ds| - |Trim(ds)|)
  {
    hide *;
    WholeFractionTexts(sign, ds, e);
    var plain := sign + RenderUnsigned(Trim(ds), e + |ds| - |Trim(ds)|);
    var pointed := plain + ".";
    assert pointed[..|plain|] == plain && pointed[|plain|] == '.';
    StripRightIs(sign + RenderUnsigned(ds, e), pointed, '0');
    DigitIsNotPoint(plain[|plain| - 1]);
    StripRightIs(pointed, plain, '.');
  }

  lemma DigitIsNotPoint(c: char)
    requires IsDigitChar(c)
    ensures c != '.'
  {
  }

  lemma WholeFractionTexts(sign: string, ds: seq<Digit>, e: int)
    requires ds != [] && ds[0] != 0 && e < 0 && e + |ds| - |Trim(ds)| >= 0
    ensures var text, plain := sign + RenderUnsigned(ds, e), sign + RenderUnsigned(Trim(ds), e + |ds| - |Trim(ds)|);
            && plain != "" && IsDigitChar(plain[|plain| - 1])
            && plain + "." <= text && (forall i :: |plain + "."| <= i < |text| ==> text[i] == '0')
  {
    hide Text, Zeros, Coefficient, Trim;
    var t, z, position := Trim(ds), |ds| - |Trim(ds)|, |ds| + e;
    assert ds[..position] == t + Zeros(e + z);
    var whole, fraction := Text(t + Zeros(e + z)), Text(ds[position..]);
    assert RenderUnsigned(ds, e) == whole + "." + fraction && RenderUnsigned(t, e + z) == whole;
    hide RenderUnsigned;
    assert forall i :: 0 <= i < |fraction| ==> fraction[i] == '0';
    assert sign + RenderUnsigned(ds, e) == (sign + whole + ".") + fraction;
    assert (sign + whole)[|sign + whole| - 1] == whole[|whole| - 1];
  }

  /** Where the adapter prints a number, it prints the canonical text; it gives up exactly when its estimate on the untrimmed digits passes the bound. */
  lemma AdapterTextIsCanonical(d: Decimal)
    ensures PlainText(d).Some? ==> CanonicalText(d) == Ok(PlainText(d).value)
    ensures PlainText(d).None? <==>
              !IsZero(d) && RenderedLength(d.negative, |d.digits|, d.exponent) > 257
    ensures !IsZero(d) ==> RenderedLength(d.negative, |Trim(d.digits)|, TrimmedForm(d).1)
                           <= RenderedLength(d.negative, |d.digits|, d.exponent)
  {
    hide Scale, Coefficient, Text, RenderUnsigned, FixedPlain;
    if !IsZero(d) && PlainText(d).Some? {
      PredictedLengthIsReal(d);
      PrintedForm(d);
      SignOfValue(d);
      StrippedFixedText(if d.negative then "-" else "", d.digits, d.exponent);
    }
  }

  /** The estimate can refuse a number that has a canonical text: here one, written with any long run of zeros in its fraction. */
  lemma AdapterRefusesPaddedNumber(zeros: nat)
    requires zeros >= MAX_CANONICAL_DECIMAL_CHARS - 1
    ensures var padded: Decimal := DecimalTuple(false, [1] + Zeros(zeros), 0 - zeros);
            PlainText(padded) == None && CanonicalText(padded) == Ok("1")
  {
    var padded: Decimal := DecimalTuple(false, [1] + Zeros(zeros), 0 - zeros);
    SignOfValue(padded);
    TrimPadding([1], zeros);
    assert Text([1] + Zeros(0)) == "1";
    PrintsAs(padded, "1");
  }
}
