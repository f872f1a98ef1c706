/** The library's own tests of the decimal-places and zeros forms, stated on
    the model (its `round_sf` tests are stated in `SignificantFigures`),
    followed by two integer cases those tests leave out: one where the final
    cast saturates and one at the lower bound of a signed type. */
module SourceTests {
  import opened Powers
  import opened FloatRounding
  import IntegerRounding
  import opened Multiples

  lemma FloatRoundCases()
    ensures Round(123.456, 2) == 123.46
    ensures Round(123.456, 0) == 123.0
    ensures Round(-123.456, 1) == -123.5
    ensures Round(123.0, 2) == 123.0
  {
    assert Pow10Real(2) == 100.0;
    assert Pow10Real(1) == 10.0;
  }

  lemma FloatCeilCases()
    ensures Ceil(123.454, 2) == 123.46
    ensures Ceil(123.456, 0) == 124.0
    ensures Ceil(-123.456, 1) == -123.4
    ensures Ceil(123.0, 2) == 123.0
  {
    assert Pow10Real(2) == 100.0;
    assert Pow10Real(1) == 10.0;
  }

  lemma FloatFloorCases()
    ensures Floor(123.456, 2) == 123.45
    ensures Floor(123.456, 0) == 123.0
    ensures Floor(123.454, 2) == 123.45
    ensures Floor(-123.426, 1) == -123.5
    ensures Floor(123.0, 2) == 123.0
  {
    assert Pow10Real(2) == 100.0;
    assert Pow10Real(1) == 10.0;
  }

  lemma FloatZerosCases()
    ensures RoundZeros(123.456, 1) == 120.0
    ensures RoundZeros(123.456, 0) == 123.0
    ensures CeilZeros(123.456, 1) == 130.0
    ensures CeilZeros(123.456, 0) == 124.0
    ensures FloorZeros(123.456, 1) == 120.0
    ensures FloorZeros(123.654, 0) == 123.0
  {
    assert ZerosPower(1) == 0.1;
    assert ZerosPower(0) == 1.0;
  }

  lemma IntegerRoundZerosCases()
    ensures IntegerRounding.RoundZeros(IntegerRounding.I32, 123, 2) == 100
    ensures IntegerRounding.RoundZeros(IntegerRounding.U64, 12345, 1) == 12350
  {
    assert Pow10(2) == 100 && Pow10(1) == 10;
    IntegerRounding.RoundZerosIsNearest(IntegerRounding.I32, 123, 2);
    IntegerRounding.RoundZerosIsNearest(IntegerRounding.U64, 12345, 1);
  }

  lemma IntegerCeilZerosCases()
    ensures IntegerRounding.CeilZeros(IntegerRounding.I32, 123, 2) == 200
    ensures IntegerRounding.CeilZeros(IntegerRounding.U64, 123453789, 4) == 123460000
    ensures IntegerRounding.CeilZeros(IntegerRounding.U32, 12345, 0) == 12345
    ensures IntegerRounding.CeilZeros(IntegerRounding.I32, -12645, 3) == -12000
  {
    assert Pow10(2) == 100 && Pow10(3) == 1000 && Pow10(4) == 10000;
    IntegerRounding.CeilZerosIsCeilMultiple(IntegerRounding.I32, 123, 2);
    IntegerRounding.CeilZerosIsCeilMultiple(IntegerRounding.U64, 123453789, 4);
    IntegerRounding.ZeroZerosKeepValue(IntegerRounding.U32, 12345);
    IntegerRounding.CeilZerosIsCeilMultiple(IntegerRounding.I32, -12645, 3);
  }

  lemma IntegerFloorZerosCases()
    ensures IntegerRounding.FloorZeros(IntegerRounding.I32, 156, 2) == 100
    ensures IntegerRounding.FloorZeros(IntegerRounding.I64, -12345, 3) == -13000
  {
    assert Pow10(2) == 100 && Pow10(3) == 1000;
    IntegerRounding.FloorZerosIsFloorMultiple(IntegerRounding.I32, 156, 2);
    IntegerRounding.FloorZerosIsFloorMultiple(IntegerRounding.I64, -12345, 3);
  }

  /** The final `as` saturates: 250_u8 rounded up to hundreds is 300, which
      u8 cannot hold, so the result is u8::MAX. */
  lemma IntegerSaturationCase()
    ensures IntegerRounding.CeilZeros(IntegerRounding.U8, 250, 2) == 255
  {
    assert Pow10(2) == 100;
    IntegerRounding.CeilZerosIsCeilMultiple(IntegerRounding.U8, 250, 2);
  }

  /** i8::MIN rounds to the nearest hundred without reaching a bound:
      -128 is nearer to -100 than to -200. */
  lemma IntegerLowerBoundCase()
    ensures IntegerRounding.RoundZeros(IntegerRounding.I8, -128, 2) == -100
  {
    assert Pow10(2) == 100;
    IntegerRounding.RoundZerosIsNearest(IntegerRounding.I8, -128, 2);
  }
}
