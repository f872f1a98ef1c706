/** `round_sf`: rounding a float to a number of significant figures.

    The source reads the number of digits off the float's decimal text: a
    whole value is rounded to zeros, `digits - sig_figs` of them, where
    `digits` is the length of the whole text; a fractional value is rounded
    at the scale `10^(fraction digits - digits + sig_figs)`, where `digits`
    adds the length of the text before the point (unless that text is
    exactly "0") to the number of fraction digits.

    The float is given here as the canonical numeral its `to_string`
    writes. A debug build panics on the integer overflows the function can
    hit; `Overflow` stands for that panic.
 */
module SignificantFigures {
  import opened Powers
  import opened Policies
  import opened DecimalText
  import FloatRounding

  datatype SfResult = Rounded(value: real) | Overflow

  /** How many digits `round_sf` takes to lie before the point: the whole
      text for a whole value, otherwise the text before the point unless it
      is "0". The `-` sign is counted in both branches. */
  function CountedWholeDigits(d: Decimal): (n: nat)
    ensures d.fraction == [] || d.whole != "0" ==> n == |d.whole| + (if d.negative then 1 else 0)
    ensures d.fraction != [] && d.whole == "0" ==> n == (if d.negative then 2 else 0)
  {
    if d.fraction == [] then |Text(d)|
    else if SignedWhole(d) != "0" then |SignedWhole(d)|
    else 0
  }

  /** `round_sf(number, sig_figs)` for the float whose text is `Text(d)`.
      Both branches round to the nearest multiple of
      10^(CountedWholeDigits(d) - sig_figs), ties away from zero; a whole
      value with more significant figures asked than its text has
      characters underflows the `u32` subtraction, and an `as i32` that
      wraps `sig_figs` to a large negative exponent overflows the `i32`
      sum. */
  function RoundSf(d: Decimal, sigFigs: nat): (r: SfResult)
    requires Canonical(d) && sigFigs < U32Limit && |Text(d)| <= MaxPrecision
    ensures r.Overflow? <==>
      || (d.fraction == [] && sigFigs > |Text(d)|)
      || (d.fraction != [] && AsI32(sigFigs) - CountedWholeDigits(d) < -0x8000_0000)
    ensures r.Rounded? ==>
      r.value == FloatRounding.ApplyRound(Value(d), Pow10Real(AsI32(sigFigs) - CountedWholeDigits(d)))
  {
    var x, s := Value(d), Text(d);
    WholeIffNoFraction(d);
    if IsWhole(x) then
      var digits := |s|;
      if sigFigs > digits then Overflow
      else Rounded(FloatRounding.RoundZeros(x, digits - sigFigs))
    else
      SplitAtPoint(d);
      var sides := Split(s, '.');
      var digits := (if sides[0] != "0" then |sides[0]| else 0) + |sides[1]|;
      var e := |sides[1]| - digits + AsI32(sigFigs);
      if e < -0x8000_0000 then Overflow
      else Rounded(FloatRounding.ApplyRound(x, Pow10Real(e)))
  }

  /** The library's own examples: 123456 to four figures, 123.456 to two
      and to three. */
  lemma RoundSfWholeCase()
    ensures RoundSf(Decimal(false, "123456", ""), 4) == Rounded(123500.0)
  {
    var d := Decimal(false, "123456", "");
    Digits123456();
    assert Value(d) == 123456.0;
    assert CountedWholeDigits(d) == 6;
    assert Pow10Real(-2) == 0.01;
    FloatRounding.ApplyRoundAt(123456.0, 0.01, 1235);
  }

  lemma RoundSfFractionTwo()
    ensures RoundSf(Decimal(false, "123", "456"), 2) == Rounded(120.0)
  {
    var d := Decimal(false, "123", "456");
    Value123456Thousandths(d);
    assert CountedWholeDigits(d) == 3;
    assert Pow10Real(-1) == 0.1;
    FloatRounding.ApplyRoundAt(123.456, 0.1, 12);
  }

  lemma RoundSfFractionThree()
    ensures RoundSf(Decimal(false, "123", "456"), 3) == Rounded(123.0)
  {
    var d := Decimal(false, "123", "456");
    Value123456Thousandths(d);
    assert CountedWholeDigits(d) == 3;
    FloatRounding.ApplyRoundAt(123.456, 1.0, 123);
  }

  lemma Value123456Thousandths(d: Decimal)
    requires d == Decimal(false, "123", "456")
    ensures Canonical(d) && Value(d) == 123.456
  {
    Digits123And456();
    assert Pow10Real(3) == 1000.0;
  }

  /** The position of the leading significant digit: the m with
      10^(m-1) <= |x| < 10^m, counted on the text without its sign and
      without the zeros that open a fraction below one. Zero counts as one
      digit, as its text "0" does. */
  function Magnitude(d: Decimal): int {
    if d.whole != "0" || d.fraction == [] then |d.whole| else -(LeadingZeros(d.fraction) as int)
  }

  /** Rounding to `sig_figs` significant figures as the function's name and
      documentation promise: the nearest multiple of
      10^(Magnitude(d) - sig_figs), ties away from zero, for every input. */
  function RoundSfCorrected(d: Decimal, sigFigs: nat): (r: real)
    requires Canonical(d)
    ensures OnGrid(r, Pow10Real(sigFigs - Magnitude(d)))
    ensures Value(d) - 0.5 / Pow10Real(sigFigs - Magnitude(d)) <= r
    ensures r <= Value(d) + 0.5 / Pow10Real(sigFigs - Magnitude(d))
    ensures r == Value(d) + 0.5 / Pow10Real(sigFigs - Magnitude(d)) ==> Value(d) > 0.0
    ensures r == Value(d) - 0.5 / Pow10Real(sigFigs - Magnitude(d)) ==> Value(d) < 0.0
  {
    FloatRounding.ApplyRound(Value(d), Pow10Real(sigFigs - Magnitude(d)))
  }

  function Abs(x: real): real {
    if x < 0.0 then -x else x
  }

  /** `Magnitude` does locate the leading significant digit. */
  lemma MagnitudeBounds(d: Decimal)
    requires Canonical(d) && Value(d) != 0.0
    ensures Pow10Real(Magnitude(d) - 1) <= Abs(Value(d)) < Pow10Real(Magnitude(d))
  {
    var w, t := DigitsValue(d.whole), FractionValue(d.fraction);
    assert Abs(Value(d)) == w as real + t;
    if d.whole != "0" {
      var n := |d.whole|;
      Pow10RealOfNat(n - 1);
      Pow10RealOfNat(n);
    } else {
      FractionMagnitude(d.fraction);
    }
  }

  /** A fraction below one whose first significant digit follows z zeros
      lies in [10^-(z+1), 10^-z). */
  lemma FractionMagnitude(f: string)
    requires AllDigits(f) && |f| > 0 && f[|f| - 1] != '0'
    ensures Pow10Real(-(LeadingZeros(f) as int) - 1) <= FractionValue(f) < Pow10Real(-(LeadingZeros(f) as int))
  {
    var z := LeadingZeros(f);
    var v, r := LeadingDigitBounds(f);
    FractionOverPower(f);
    ScaledDigitsBounds(v, r, z, |f|);
    NegativePow10(z);
    NegativePow10(z + 1);
  }

  /** v with r digits, over 10^(r+z), lies in [10^-(z+1), 10^-z). */
  lemma ScaledDigitsBounds(v: nat, r: nat, z: nat, n: nat)
    requires n == r + z && r >= 1 && Pow10(r - 1) <= v < Pow10(r)
    ensures 1.0 / Pow10(z + 1) as real <= v as real / Pow10(n) as real < 1.0 / Pow10(z) as real
  {
    Pow10Add(r, z);
    Pow10Add(r - 1, z + 1);
    FractionBounds(v, Pow10(r - 1), Pow10(r), Pow10(z), Pow10(z + 1), Pow10(n));
  }

  /** Past its leading zeros a fraction has r significant digits. */
  lemma LeadingDigitBounds(f: string) returns (v: nat, r: nat)
    requires AllDigits(f) && |f| > 0 && f[|f| - 1] != '0'
    ensures v == DigitsValue(f) && r >= 1 && r + LeadingZeros(f) == |f|
    ensures Pow10(r - 1) <= v < Pow10(r)
  {
    var z := LeadingZeros(f);
    var rest := f[z..];
    assert rest[0] != '0';
    LeadingZeroDigits(f, z);
    v, r := DigitsValue(f), |rest|;
  }

  lemma FractionOverPower(f: string)
    requires AllDigits(f)
    ensures FractionValue(f) == DigitsValue(f) as real / Pow10(|f|) as real
  {
    Pow10RealOfNat(|f|);
  }

  lemma NegativePow10(z: nat)
    ensures Pow10Real(-(z as int)) == 1.0 / Pow10(z) as real
  {
    Pow10RealReciprocal(z);
    Pow10RealOfNat(z);
  }

  /** For 10^(r-1) <= v < 10^r and 10^n = 10^r * 10^z = 10^(r-1) * 10^(z+1),
      v / 10^n lies in [1/10^(z+1), 1/10^z). */
  lemma FractionBounds(v: nat, low: nat, high: nat, scale: nat, lowScale: nat, all: nat)
    requires 0 < low <= v < high && scale > 0 && lowScale > 0
    requires all == high * scale && all == low * lowScale
    ensures 1.0 / lowScale as real <= v as real / all as real < 1.0 / scale as real
  {
    CastProduct(high, scale);
    CastProduct(low, lowScale);
    DivideBelow(v as real, high as real, scale as real);
    DivideAbove(v as real, low as real, lowScale as real);
  }

  lemma CastProduct(a: nat, b: nat)
    ensures (a * b) as real == a as real * b as real
  {
  }

  lemma DivideBelow(v: real, h: real, s: real)
    requires 0.0 <= v < h && s > 0.0
    ensures v / (h * s) < 1.0 / s
  {
    assert v / (h * s) == (v / h) / s;
  }

  lemma DivideAbove(v: real, l: real, s: real)
    requires 0.0 < l <= v && s > 0.0
    ensures 1.0 / s <= v / (l * s)
  {
    assert v / (l * s) == (v / l) / s;
  }

  /** The numeral with the opposite sign. */
  function Negated(d: Decimal): Decimal {
    d.(negative := !d.negative)
  }

  /** The corrected rounding commutes with negation, as rounding half away
      from zero should. */
  lemma CorrectedSignSymmetric(d: Decimal, sigFigs: nat)
    requires Canonical(d) && Value(d) != 0.0
    ensures Canonical(Negated(d)) && Value(Negated(d)) == -Value(d)
    ensures RoundSfCorrected(Negated(d), sigFigs) == -RoundSfCorrected(d, sigFigs)
  {
    FloatRounding.ApplySymmetry(Value(d), Pow10Real(sigFigs - Magnitude(d)));
  }

  /** A whole value with no more digits than the figures asked for is
      returned as it is. */
  lemma CorrectedKeepsShortWhole(d: Decimal, sigFigs: nat)
    requires Canonical(d) && IsWhole(Value(d)) && sigFigs >= Magnitude(d)
    ensures RoundSfCorrected(d, sigFigs) == Value(d)
  {
    WholeIffNoFraction(d);
    var e: nat := sigFigs - Magnitude(d);
    Pow10RealOfNat(e);
    var w: int := if d.negative then -(DigitsValue(d.whole) as int) else DigitsValue(d.whole);
    assert Value(d) == w as real;
    FloatRounding.IntegerOnWholeGrid(w, Pow10(e), Pow10Real(e));
    FloatRounding.ApplyFixesGrid(Value(d), Pow10Real(e));
  }

  /** On non-negative values whose first significant digit the source
      counts correctly, and without the overflow, the source's result is
      the corrected one. */
  lemma CorrectedAgreesWithSource(d: Decimal, sigFigs: nat)
    requires Canonical(d) && !d.negative && (d.whole != "0" || LeadingZeros(d.fraction) == 0)
    requires sigFigs <= MaxPrecision && |Text(d)| <= MaxPrecision
    requires d.fraction == [] ==> sigFigs <= |d.whole|
    ensures RoundSf(d, sigFigs) == Rounded(RoundSfCorrected(d, sigFigs))
  {
    assert SignedWhole(d) == d.whole;
    assert CountedWholeDigits(d) == Magnitude(d);
  }

  lemma Digits123456()
    ensures DigitsValue("123456") == 123456
  {
    assert "123456"[..5] == "12345" && "12345"[..4] == "1234" && "1234"[..3] == "123";
    assert "123"[..2] == "12" && "12"[..1] == "1" && "1"[..0] == "";
  }

  lemma Digits123And456()
    ensures DigitsValue("123") == 123 && DigitsValue("456") == 456
  {
    assert "123"[..2] == "12" && "12"[..1] == "1" && "1"[..0] == "";
    assert "456"[..2] == "45" && "45"[..1] == "4" && "4"[..0] == "";
  }

  lemma Value00123(d: Decimal)
    requires d == Decimal(false, "0", "00123")
    ensures Canonical(d) && Value(d) == 0.00123 && LeadingZeros(d.fraction) == 2
  {
    assert "00123"[..4] == "0012" && "0012"[..3] == "001" && "001"[..2] == "00";
    assert "00"[..1] == "0" && "0"[..0] == "";
    assert "00123"[1..][1..] == "123";
    assert DigitsValue("0") == 0;
    assert Pow10Real(5) == 100000.0;
  }

  /** The `-` sign is counted as a digit: -123456 to two figures gives
      -100000 where 123456 gives 120000 ... */
  lemma SignCountedPositiveWhole()
    ensures RoundSf(Decimal(false, "123456", ""), 2) == Rounded(120000.0)
  {
    var d := Decimal(false, "123456", "");
    Digits123456();
    assert Value(d) == 123456.0;
    assert CountedWholeDigits(d) == 6;
    assert Pow10Real(-4) == 0.0001;
    FloatRounding.ApplyRoundAt(123456.0, 0.0001, 12);
  }

  lemma SignCountedNegativeWhole()
    ensures RoundSf(Decimal(true, "123456", ""), 2) == Rounded(-100000.0)
  {
    var d := Decimal(true, "123456", "");
    Digits123456();
    assert Value(d) == -123456.0;
    assert Text(d) == "-123456";
    assert CountedWholeDigits(d) == 7;
    assert Pow10Real(-5) == 0.00001;
    FloatRounding.ApplyRoundAt(-123456.0, 0.00001, -1);
  }

  /** ... and -123.456 gives -100 where 123.456 gives 120. */
  lemma SignCountedNegativeFraction()
    ensures RoundSf(Decimal(true, "123", "456"), 2) == Rounded(-100.0)
  {
    var d := Decimal(true, "123", "456");
    Value123456Thousandths(Negated(d));
    assert Value(d) == -123.456;
    assert SignedWhole(d) == "-123";
    assert CountedWholeDigits(d) == 4;
    assert Pow10Real(-2) == 0.01;
    FloatRounding.ApplyRoundAt(-123.456, 0.01, -1);
  }

  /** Zeros that open a fraction below one are counted as figures: 0.00123
      to two figures gives 0. */
  lemma LeadingFractionZerosCounted()
    ensures RoundSf(Decimal(false, "0", "00123"), 2) == Rounded(0.0)
  {
    var d := Decimal(false, "0", "00123");
    Value00123(d);
    assert SignedWhole(d) == "0";
    assert CountedWholeDigits(d) == 0;
    assert Pow10Real(2) == 100.0;
    FloatRounding.ApplyRoundAt(0.00123, 100.0, 0);
  }

  /** A whole value with fewer characters than the figures asked for
      underflows `digits - sig_figs`: 5 to two figures panics. */
  lemma ShortWholeOverflows()
    ensures RoundSf(Decimal(false, "5", ""), 2) == Overflow
  {
    assert Text(Decimal(false, "5", "")) == "5";
  }

  /** The corrected rounding on the same inputs. */
  lemma CorrectedNegativeWhole()
    ensures RoundSfCorrected(Decimal(true, "123456", ""), 2) == -120000.0
  {
    var d := Decimal(true, "123456", "");
    Digits123456();
    assert Value(d) == -123456.0;
    assert Magnitude(d) == 6;
    assert Pow10Real(-4) == 0.0001;
    FloatRounding.ApplyRoundAt(-123456.0, 0.0001, -12);
  }

  lemma CorrectedLeadingFractionZeros()
    ensures RoundSfCorrected(Decimal(false, "0", "00123"), 2) == 0.0012
  {
    var d := Decimal(false, "0", "00123");
    Value00123(d);
    assert Magnitude(d) == -2;
    assert Pow10Real(4) == 10000.0;
    FloatRounding.ApplyRoundAt(0.00123, 10000.0, 12);
  }

  lemma CorrectedShortWhole()
    ensures RoundSfCorrected(Decimal(false, "5", ""), 2) == 5.0
  {
    var d := Decimal(false, "5", "");
    assert DigitsValue("5") == 5;
    assert Value(d) == 5.0;
    assert Magnitude(d) == 1;
    assert Pow10Real(1) == 10.0;
    FloatRounding.ApplyRoundAt(5.0, 10.0, 50);
  }

  /** Zero, whose text "0" has one character, survives one significant
      figure but underflows the subtraction for two or more. */
  lemma ZeroAsWritten(sigFigs: nat)
    requires sigFigs < U32Limit
    ensures sigFigs <= 1 ==> RoundSf(Decimal(false, "0", ""), sigFigs) == Rounded(0.0)
    ensures sigFigs >= 2 ==> RoundSf(Decimal(false, "0", ""), sigFigs) == Overflow
  {
    var d := Decimal(false, "0", "");
    assert DigitsValue("0") == 0;
    assert Value(d) == 0.0 && Text(d) == "0";
    if sigFigs <= 1 {
      FloatRounding.ApplyRoundAt(0.0, Pow10Real(sigFigs - 1), 0);
    }
  }

  /** The corrected rounding keeps zero for every number of figures. */
  lemma CorrectedZero(sigFigs: nat)
    ensures RoundSfCorrected(Decimal(false, "0", ""), sigFigs) == 0.0
  {
    var d := Decimal(false, "0", "");
    assert DigitsValue("0") == 0;
    assert Value(d) == 0.0;
    FloatRounding.ApplyRoundAt(0.0, Pow10Real(sigFigs - Magnitude(d)), 0);
  }
}
