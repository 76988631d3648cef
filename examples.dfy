/** The behaviour Tests/Unit/DecimalTest.php checks, stated on the model: the texts the
    parser refuses and accepts, the exponent forms, the collapse of negative zero, the
    integer exponents, the error cases, and the arithmetic vectors. The vectors are stated
    on values: FromScaled(q, e) is the decimal of q / 10^e, whose canonical text is the
    literal the test writes. */
module Examples {
  import opened Outcomes
  import opened Arith
  import opened Digits
  import opened BcMath
  import opened Grammar
  import opened Canonical
  import opened Parser
  import opened DecimalModel

  /** A digit run followed by a tail the pattern cannot continue with is refused. */
  lemma RefusedTail(left: string, u: string)
    requires |left| >= 1 && AllDigits(left) && (u == [] || !IsDigit(u[0]))
    requires FractionTail(u).None?
    ensures Recognise(left + u).None?
  {
    SignPieces(false, left, u);
    assert RenderSign(false) + (left + u) == left + u;
  }

  /** A text that does not start with a digit (after an optional '-') is refused. */
  lemma RejectsNoLeadingDigit(scale: nat)
    ensures Parse("asfoq3t", scale) == Failure(InvalidFormat)
    ensures Parse(".12412", scale) == Failure(InvalidFormat)
  {
    assert DigitRun("asfoq3t") == 0;
    assert DigitRun(".12412") == 0;
  }

  /** A point must be followed by at least one digit. */
  lemma RejectsBarePoint(scale: nat)
    ensures Parse("123.", scale) == Failure(InvalidFormat)
  {
    assert "123." == "123" + ".";
    assert DigitRun("") == 0;
    RefusedTail("123", ".");
  }

  /** Letters after the point are refused. */
  lemma RejectsLettersAfterPoint(scale: nat)
    ensures Parse("28230.kysdfl", scale) == Failure(InvalidFormat)
  {
    assert "28230.kysdfl" == "28230" + ".kysdfl";
    assert ".kysdfl"[1..] == "kysdfl";
    assert DigitRun("kysdfl") == 0;
    RefusedTail("28230", ".kysdfl");
  }

  /** Letters after the digits that are not an exponent are refused. */
  lemma RejectsTrailingLetters(scale: nat)
    ensures Parse("2124asd", scale) == Failure(InvalidFormat)
  {
    assert "2124asd" == "2124" + "asd";
    assert ExponentTail("asd").None?;
    RefusedTail("2124", "asd");
  }

  /** `$` also matches before a final newline, so "12\n" is accepted and reads as "12". */
  lemma AcceptsFinalNewline(scale: nat)
    ensures Parse("12\n", scale) == Parse("12", scale) == Success(Dec(false, "12", ""))
  {
    var m := Match(false, "12", None, None, true);
    assert Render(m) == "12\n";
    RecogniseComplete(m);
    assert TrimLeadingZeros("12") == "12";
    assert Canonicalise(false, "12", None) == Dec(false, "12", "");
    var d: Decimal := Dec(false, "12", "");
    assert ToString(d) == "12";
    ParseToString(d, scale);
  }

  /** Texts of the tests, named so that the verifier does not evaluate the parser on them. */
  const NegativeZeroFraction := "-000.000"
  const NegativeZeroExponent := "-0e5"
  const LowerCaseExponent := "7.325e2"
  const UpperCasePlusExponent := "7.325E+2"
  const LowerCaseMinusExponent := "3.445e-10"
  const UpperCaseMinusExponent := "3.445E-10"
  const IntegralFractionText := "2.0"
  const ExponentIntegerText := "1e2"

  /** A matched text whose digits are all zeros, with an exponent bcpow accepts, is the
      unsigned zero. */
  lemma ZeroMatch(m: Match, scale: nat)
    requires WellFormed(m) && ExponentFits(m) && TextNum(m.minus, m.left, m.right).m == 0
    ensures Parse(Render(m), scale) == Success(Zero)
  {
    RecogniseComplete(m);
    ParseZero(Render(m), scale);
  }

  /** "-0" is the unsigned zero, whose text is "0". */
  lemma NegativeZero(scale: nat)
    ensures Parse("-0", scale) == Success(Zero) && ToString(Zero) == "0"
  {
    var m := Match(true, "0", None, None, false);
    assert Render(m) == "-0";
    ValueOfDigit('0');
    assert "0" + FracText(None) == "0";
    ZeroMatch(m, scale);
  }

  /** "-000.000" is the unsigned zero. */
  lemma NegativeZeroWithFraction(scale: nat)
    ensures Parse(NegativeZeroFraction, scale) == Success(Zero)
  {
    var m := Match(true, "000", Some("000"), None, false);
    assert Render(m) == NegativeZeroFraction;
    assert "000" + FracText(Some("000")) == Zeros(6);
    ValueOfZeros(6);
    ZeroMatch(m, scale);
  }

  /** "-0e5" is the unsigned zero. */
  lemma NegativeZeroWithExponent(scale: nat)
    ensures Parse(NegativeZeroExponent, scale) == Success(Zero)
  {
    var m := Match(true, "0", None, Some(Exponent('e', "", "5")), false);
    assert Render(m) == NegativeZeroExponent;
    ValueOfDigit('0');
    ValueOfDigit('5');
    assert "0" + FracText(None) == "0";
    ZeroMatch(m, scale);
  }

  /** The decimal that a text with an exponent, matched as m, parses to is d, once d is
      canonical, fits the scale, and denotes what m denotes. */
  lemma ParsesTo(text: string, m: Match, d: Dec, scale: nat)
    requires WellFormed(m) && Render(m) == text && m.exponent.Some? && ExponentFits(m)
    requires IsCanonical(d) && |d.fracPart| <= scale && SameValue(ToNum(d), Denoted(m))
    ensures Parse(text, scale) == Success(d)
  {
    RecogniseComplete(m);
    ParseValue(text, scale);
    TruncSameValue(ToNum(d), Denoted(m), scale);
    CanonicalUnique(Parse(text, scale).value, d, scale);
  }

  /** What "7.325" with the exponent 2 denotes. */
  lemma SevenPointThreeTwoFiveDenotes(m: Match)
    requires m.minus == false && m.left == "7" && m.right == Some("325") && m.exponent.Some?
    requires ExponentWellFormed(m.exponent.value) && m.exponent.value.sign != "-" && m.exponent.value.power == "2"
    ensures WellFormed(m) && Denoted(m) == Num(ValueOf("7325") * 100, 3)
  {
    ValueOfDigit('2');
    assert ValueOf("2") == 2;
    assert Pow10(2) == 100;
    assert TextNum(false, "7", Some("325")) == Num(ValueOf("7325"), 3) by {
      assert "7" + FracText(Some("325")) == "7325";
    }
  }

  /** 7.325 times ten squared is 732.5, whichever exponent marker and '+' sign is written. */
  lemma SevenPointThreeTwoFive(m: Match, scale: nat)
    requires m.minus == false && m.left == "7" && m.right == Some("325") && m.exponent.Some? && !m.newline
    requires ExponentWellFormed(m.exponent.value) && m.exponent.value.sign != "-" && m.exponent.value.power == "2"
    requires scale >= 1
    ensures WellFormed(m) && Parse(Render(m), scale) == Success(Dec(false, "732", "5"))
  {
    var d := Dec(false, "732", "5");
    SevenPointThreeTwoFiveDenotes(m);
    SevenThreeTwoPointFive(d);
    assert Pow10(3) == 100 * Pow10(1);
    ValueOfDigit('2');
    ParsesTo(Render(m), m, d, scale);
  }

  lemma SevenThreeTwoPointFive(d: Dec)
    requires d == Dec(false, "732", "5")
    ensures IsCanonical(d) && ToNum(d) == Num(ValueOf("7325"), 1)
  {
    assert "732" + FracText(Some("5")) == "7325";
  }

  /** "7.325e2" is 732.5. */
  lemma PositiveExponent(scale: nat)
    requires scale >= 1
    ensures Parse(LowerCaseExponent, scale) == Success(Dec(false, "732", "5"))
  {
    var m := Match(false, "7", Some("325"), Some(Exponent('e', "", "2")), false);
    assert Render(m) == LowerCaseExponent;
    SevenPointThreeTwoFive(m, scale);
  }

  /** "7.325E+2" is 732.5. */
  lemma PositiveExponentUpperCase(scale: nat)
    requires scale >= 1
    ensures Parse(UpperCasePlusExponent, scale) == Success(Dec(false, "732", "5"))
  {
    var m := Match(false, "7", Some("325"), Some(Exponent('E', "+", "2")), false);
    assert Render(m) == UpperCasePlusExponent;
    SevenPointThreeTwoFive(m, scale);
  }

  /** "10" reads as ten. */
  lemma ValueOfTen()
    ensures ValueOf("10") == 10
  {
    ValueOfDigit('1');
    ValueOfDigit('0');
    ValueOfAppend("1", "0");
    assert "1" + "0" == "10";
  }

  /** What "3.445" with the exponent -10 denotes. */
  lemma ThreePointFourFourFiveDenotes(m: Match)
    requires m.minus == false && m.left == "3" && m.right == Some("445") && m.exponent.Some?
    requires ExponentWellFormed(m.exponent.value) && m.exponent.value.sign == "-" && m.exponent.value.power == "10"
    ensures WellFormed(m) && Denoted(m) == Num(ValueOf("3445"), 13)
  {
    ValueOfTen();
    assert TextNum(false, "3", Some("445")) == Num(ValueOf("3445"), 3) by {
      assert "3" + FracText(Some("445")) == "3445";
    }
  }

  /** 3.445 over ten to the tenth is 0.0000000003445, whichever exponent marker is written. */
  lemma ThreePointFourFourFive(m: Match, scale: nat)
    requires m.minus == false && m.left == "3" && m.right == Some("445") && m.exponent.Some? && !m.newline
    requires ExponentWellFormed(m.exponent.value) && m.exponent.value.sign == "-" && m.exponent.value.power == "10"
    requires scale >= 13
    ensures WellFormed(m) && Parse(Render(m), scale) == Success(Dec(false, "0", "0000000003445"))
  {
    var d := Dec(false, "0", "0000000003445");
    ThreePointFourFourFiveDenotes(m);
    TenBillionthsValue(d);
    ValueOfTen();
    ParsesTo(Render(m), m, d, scale);
  }

  lemma TenBillionthsValue(d: Dec)
    requires d == Dec(false, "0", "0000000003445")
    ensures IsCanonical(d) && ToNum(d) == Num(ValueOf("3445"), 13)
  {
    assert "0" + FracText(Some("0000000003445")) == Zeros(10) + "3445";
    ValueOfZeros(10);
    ValueOfAppend(Zeros(10), "3445");
  }

  /** "3.445e-10" is 0.0000000003445. */
  lemma NegativeExponent(scale: nat)
    requires scale >= 13
    ensures Parse(LowerCaseMinusExponent, scale) == Success(Dec(false, "0", "0000000003445"))
  {
    var m := Match(false, "3", Some("445"), Some(Exponent('e', "-", "10")), false);
    assert Render(m) == LowerCaseMinusExponent;
    ThreePointFourFourFive(m, scale);
  }

  /** "3.445E-10" is 0.0000000003445. */
  lemma NegativeExponentUpperCase(scale: nat)
    requires scale >= 13
    ensures Parse(UpperCaseMinusExponent, scale) == Success(Dec(false, "0", "0000000003445"))
  {
    var m := Match(false, "3", Some("445"), Some(Exponent('E', "-", "10")), false);
    assert Render(m) == UpperCaseMinusExponent;
    ThreePointFourFourFive(m, scale);
  }

  /** "1e" followed by a power above PHP_INT_MAX matches the pattern, but bcpow cannot read
      the power, so the parser fails with bcmath's error. */
  lemma ExponentBeyondLong(power: string, scale: nat)
    requires |power| >= 1 && AllDigits(power) && ValueOf(power) > LongMax
    ensures Parse("1e" + power, scale) == Failure(BcmathError)
  {
    var m := Match(false, "1", None, Some(Exponent('e', "", power)), false);
    assert Render(m) == "1e" + power;
    RecogniseComplete(m);
  }

  /** 10^19, written "10000000000000000000", is such a power. */
  lemma TenToTheNineteenBeyondLong()
    ensures var power := "1" + Zeros(19); AllDigits(power) && ValueOf(power) > LongMax
  {
    ValueOfZeros(19);
    ValueOfDigit('1');
    ValueOfAppend("1", Zeros(19));
    Pow10Add(10, 9);
    assert Pow10(10) == 10000000000 && Pow10(9) == 1000000000;
  }

  /** power("10000000000000000000") and power("-10000000000000000000") fail inside bcpow. */
  lemma PowerBeyondLong(self: Decimal, scale: nat, floatPower: string)
    ensures Power(self, "1" + Zeros(19), scale, floatPower) == Failure(BcmathError)
    ensures Power(self, "-" + ("1" + Zeros(19)), scale, floatPower) == Failure(BcmathError)
  {
    TenToTheNineteenBeyondLong();
    PowerTooLarge(self, "1" + Zeros(19), scale, floatPower);
  }

  /** The canonical texts of the two exponent results. */
  lemma ExponentResultTexts()
    ensures ToString(Dec(false, "732", "5")) == "732.5"
    ensures ToString(Dec(false, "0", "0000000003445")) == "0.0000000003445"
  {
  }

  /** A fixed-point literal of the tests: `digits` with the point `places` digits from the
      right, so Fixed(-65314, 2) is "-653.14". */
  datatype Fixed = Fixed(digits: int, places: nat)

  /** The decimal a fixed-point literal parses to. */
  function Of(f: Fixed): Dec {
    FromScaled(f.digits, f.places)
  }

  /** The literal in units of 10^-s. */
  function Units(f: Fixed, s: nat): int
    requires f.places <= s
  {
    f.digits * Pow10(s - f.places)
  }

  /** One line of the tests: the receiver, the argument, and the expected result. */
  datatype Vector = Vector(left: Fixed, right: Fixed, result: Fixed)

  const AddPositive := Vector(Fixed(587165321478924, 9), Fixed(80100000287463, 11), Fixed(58796632148179863, 11))
  const AddMixedSigns := Vector(Fixed(85430150136984, 5), Fixed(-47829385237145, 4), Fixed(-392863702234466, 5))
  const SubstractPositive := Vector(Fixed(21436, 0), Fixed(2341286582738234324, 15), Fixed(19094713417261765676, 15))
  const SubstractNegative := Vector(Fixed(7236582124, 3), Fixed(-82029384736273823, 9), Fixed(89265966860273823, 9))
  const MultiplyPositive := Vector(Fixed(12420000351, 8), Fixed(9235, 3), Fixed(114698703241485, 11))
  const MultiplyNegative := Vector(Fixed(8237562536, 4), Fixed(-3809764, 5), Fixed(-31383169197401504, 9))
  const DividePositiveByNegative := Vector(Fixed(4939615589674, 7), Fixed(-65314, 2), Fixed(-75628741, 5))
  const DivideNegativeByNegative := Vector(Fixed(-9531021557129, 7), Fixed(-95215, 2), Fixed(1001000006, 6))
  const Square := Vector(Fixed(58885571254, 4), Fixed(2, 0), Fixed(3467510501909911132516, 8))

  /** The decimal of a literal, seen at a scale s at least its places. */
  lemma OfAt(f: Fixed, s: nat)
    requires f.places <= s
    ensures var d := Of(f);
      && IsCanonical(d) && |d.fracPart| <= f.places
      && SameValue(ToNum(d), Num(f.digits, f.places))
      && Trunc(ToNum(d), s) == Units(f, s)
  {
    var q, e := f.digits, f.places;
    var d := Of(f);
    FromScaledValue(q, e);
    TruncSameValue(ToNum(d), Num(q, e), s);
    Pow10Add(s - e, e);
    MulAssoc(q, Pow10(s - e), Pow10(e));
    TruncDivExact(q * Pow10(s - e), Pow10(e));
  }

  /** add: when the literals add up in units of 10^-s, the sum is the expected decimal. */
  lemma SumVector(v: Vector, s: nat)
    requires v.left.places <= s && v.right.places <= s && v.result.places <= s
    requires Units(v.left, s) + Units(v.right, s) == Units(v.result, s)
    ensures IsCanonical(Of(v.left))
    ensures Add(Of(v.left), ToString(Of(v.right)), s) == Success(Of(v.result))
  {
    OfAt(v.left, s);
    var a: Decimal := Of(v.left);
    var b: Decimal := Of(v.right);
    var r := Add(a, ToString(b), s);
    assert r.Success? && Trunc(ToNum(r.value), s) == Units(v.result, s) by {
      OfAt(v.right, s);
      ParseToString(b, s);
      TruncSum(ToNum(a), ToNum(b), s);
    }
    OfAt(v.result, s);
    CanonicalUnique(r.value, Of(v.result), s);
  }

  /** substract: when the literals differ by the result in units of 10^-s, the difference
      is the expected decimal. */
  lemma DifferenceVector(v: Vector, s: nat)
    requires v.left.places <= s && v.right.places <= s && v.result.places <= s
    requires Units(v.left, s) - Units(v.right, s) == Units(v.result, s)
    ensures IsCanonical(Of(v.left))
    ensures Substract(Of(v.left), ToString(Of(v.right)), s) == Success(Of(v.result))
  {
    OfAt(v.left, s);
    var a: Decimal := Of(v.left);
    var b: Decimal := Of(v.right);
    var r := Substract(a, ToString(b), s);
    assert r.Success? && Trunc(ToNum(r.value), s) == Units(v.result, s) by {
      OfAt(v.right, s);
      ParseToString(b, s);
      TruncSum(ToNum(a), Negate(ToNum(b)), s);
      TruncNegate(ToNum(b), s);
    }
    OfAt(v.result, s);
    CanonicalUnique(r.value, Of(v.result), s);
  }

  /** multiplyBy: when the product of the digits, with the places added, is the result,
      the product is the expected decimal. */
  lemma ProductVector(v: Vector, s: nat)
    requires v.left.places + v.right.places <= s && v.result.places <= s
    requires v.left.digits * v.right.digits * Pow10(s - (v.left.places + v.right.places)) == Units(v.result, s)
    ensures IsCanonical(Of(v.left))
    ensures MultiplyBy(Of(v.left), ToString(Of(v.right)), s) == Success(Of(v.result))
  {
    var a: Decimal := Of(v.left);
    var b: Decimal := Of(v.right);
    var t := Trunc(Product(ToNum(a), ToNum(b)), s);
    assert t == Units(v.result, s) by {
      FromScaledValue(v.left.digits, v.left.places);
      FromScaledValue(v.right.digits, v.right.places);
      TruncProduct(ToNum(a), Num(v.left.digits, v.left.places), ToNum(b), Num(v.right.digits, v.right.places),
        s, Units(v.result, s));
    }
    OfAt(v.result, s);
    FromScaledValue(v.left.digits, v.left.places);
    ParseToString(b, s);
    var r := MultiplyBy(a, ToString(b), s);
    assert r.Success? && Trunc(ToNum(r.value), s) == t;
    CanonicalUnique(r.value, Of(v.result), s);
  }

  /** The truncated product depends only on the values of the factors. */
  lemma TruncProduct(x: Num, x': Num, y: Num, y': Num, s: nat, v: int)
    requires SameValue(x, x') && SameValue(y, y') && x'.e + y'.e <= s
    requires x'.m * y'.m * Pow10(s - (x'.e + y'.e)) == v
    ensures Trunc(Product(x, y), s) == v
  {
    ProductSameValue(x, x', y);
    ProductSameValueRight(x', y, y');
    SameValueTransitive(Product(x, y), Product(x', y), Product(x', y'));
    TruncSameValue(Product(x, y), Product(x', y'), s);
    TruncExact(Product(x', y'), s);
  }

  /** divideBy: when left / right is exactly the result, cross-multiplied, the quotient is
      the expected decimal. */
  lemma QuotientVector(v: Vector, s: nat)
    requires v.left.places <= s && v.right.places <= s && v.result.places <= s && v.right.digits != 0
    requires v.left.digits * Pow10(v.right.places) * Pow10(v.result.places)
      == v.result.digits * v.right.digits * Pow10(v.left.places)
    ensures IsCanonical(Of(v.left))
    ensures DivideBy(Of(v.left), ToString(Of(v.right)), s) == Success(Of(v.result))
  {
    OfAt(v.left, s);
    OfAt(v.right, s);
    OfAt(v.result, s);
    var a: Decimal := Of(v.left);
    var b: Decimal := Of(v.right);
    var x, y := Num(v.left.digits, v.left.places), Num(v.right.digits, v.right.places);
    ParseToString(b, s);
    assert ToNum(b).m != 0 by {
      if ToNum(b).m == 0 {
        ZeroOfSameValue(y, ToNum(b));
        assert false;
      }
    }
    BcDivSameValue(ToNum(a), x, ToNum(b), s);
    BcDivSameValueRight(x, ToNum(b), y, s);
    ExactQuotient(x, y, v.result.digits, v.result.places, s);
    CanonicalUnique(DivideBy(a, ToString(b), s).value, Of(v.result), s);
  }

  /** 587165.321478924 + 801.00000287463 = 587966.32148179863. */
  lemma AddVectorPositive(s: nat)
    requires s >= 11
    ensures IsCanonical(Of(AddPositive.left))
    ensures Add(Of(AddPositive.left), ToString(Of(AddPositive.right)), s) == Success(Of(AddPositive.result))
  {
    Pow10Add(s - 11, 2);
    assert Pow10(2) == 100;
    SumVector(AddPositive, s);
  }

  /** 854301501.36984 + -4782938523.7145 = -3928637022.34466. */
  lemma AddVectorMixedSigns(s: nat)
    requires s >= 5
    ensures IsCanonical(Of(AddMixedSigns.left))
    ensures Add(Of(AddMixedSigns.left), ToString(Of(AddMixedSigns.right)), s) == Success(Of(AddMixedSigns.result))
  {
    Pow10Add(s - 5, 1);
    assert Pow10(1) == 10;
    SumVector(AddMixedSigns, s);
  }

  /** 21436 - 2341.286582738234324 = 19094.713417261765676. */
  lemma SubstractVectorPositive(s: nat)
    requires s >= 15
    ensures IsCanonical(Of(SubstractPositive.left))
    ensures Substract(Of(SubstractPositive.left), ToString(Of(SubstractPositive.right)), s)
      == Success(Of(SubstractPositive.result))
  {
    Pow10Add(s - 15, 15);
    assert Pow10(15) == 1000000000000000;
    DifferenceVector(SubstractPositive, s);
  }

  /** 7236582.124 - -82029384.736273823 = 89265966.860273823. */
  lemma SubstractVectorNegative(s: nat)
    requires s >= 9
    ensures IsCanonical(Of(SubstractNegative.left))
    ensures Substract(Of(SubstractNegative.left), ToString(Of(SubstractNegative.right)), s)
      == Success(Of(SubstractNegative.result))
  {
    Pow10Add(s - 9, 6);
    assert Pow10(6) == 1000000;
    DifferenceVector(SubstractNegative, s);
  }

  /** 124.20000351 * 9.235 = 1146.98703241485. */
  lemma MultiplyVectorPositive(s: nat)
    requires s >= 11
    ensures IsCanonical(Of(MultiplyPositive.left))
    ensures MultiplyBy(Of(MultiplyPositive.left), ToString(Of(MultiplyPositive.right)), s)
      == Success(Of(MultiplyPositive.result))
  {
    ProductVector(MultiplyPositive, s);
  }

  /** 823756.2536 * -38.09764 = -31383169.197401504. */
  lemma MultiplyVectorNegative(s: nat)
    requires s >= 9
    ensures IsCanonical(Of(MultiplyNegative.left))
    ensures MultiplyBy(Of(MultiplyNegative.left), ToString(Of(MultiplyNegative.right)), s)
      == Success(Of(MultiplyNegative.result))
  {
    ProductVector(MultiplyNegative, s);
  }

  /** 493961.5589674 / -653.14 = -756.28741. */
  lemma DivideVectorPositiveByNegative(s: nat)
    requires s >= 7
    ensures IsCanonical(Of(DividePositiveByNegative.left))
    ensures DivideBy(Of(DividePositiveByNegative.left), ToString(Of(DividePositiveByNegative.right)), s)
      == Success(Of(DividePositiveByNegative.result))
  {
    assert Pow10(2) == 100 && Pow10(5) == 100000 && Pow10(7) == 10000000;
    QuotientVector(DividePositiveByNegative, s);
  }

  /** -953102.1557129 / -952.15 = 1001.000006. */
  lemma DivideVectorNegativeByNegative(s: nat)
    requires s >= 7
    ensures IsCanonical(Of(DivideNegativeByNegative.left))
    ensures DivideBy(Of(DivideNegativeByNegative.left), ToString(Of(DivideNegativeByNegative.right)), s)
      == Success(Of(DivideNegativeByNegative.result))
  {
    assert Pow10(2) == 100 && Pow10(6) == 1000000 && Pow10(7) == 10000000;
    QuotientVector(DivideNegativeByNegative, s);
  }

  /** 5888557.1254 to the power "2" is 34675105019099.11132516, through bcpow. */
  lemma PowerVectorSquare(s: nat, floatPower: string)
    requires s >= 8
    ensures IsCanonical(Of(Square.left))
    ensures Power(Of(Square.left), "2", s, floatPower) == Success(Of(Square.result))
  {
    var v := Vector(Square.left, Square.left, Square.result);
    ProductVector(v, s);
    PowerTwoIsSquare(Of(Square.left), s, floatPower);
  }

  /** The exponent "2.0" has no point once canonical: it is the integer exponent 2. */
  lemma IntegerExponentWithFraction(self: Decimal, scale: nat, floatPower: string)
    ensures Parse(IntegralFractionText, scale) == Parse("2", scale) == Success(Dec(false, "2", ""))
    ensures IsInt(ToString(Dec(false, "2", "")))
    ensures Power(self, IntegralFractionText, scale, floatPower) == Power(self, "2", scale, floatPower)
  {
    TwoParses(scale);
    var two := SmallInteger(2, scale);
    assert [DigitChar(2)] == "2";
  }

  /** "2.0" and "2" parse to the same decimal. */
  lemma TwoParses(scale: nat)
    ensures Parse(IntegralFractionText, scale) == Parse("2", scale) == Success(Dec(false, "2", ""))
  {
    assert Parse(IntegralFractionText, scale) == Success(Dec(false, "2", "")) by {
      var m := Match(false, "2", Some("0"), None, false);
      assert Render(m) == IntegralFractionText;
      RecogniseComplete(m);
      assert TrimLeadingZeros("2") == "2";
      assert TrimTrailingZeros("0") == "";
    }
    var two := SmallInteger(2, scale);
    assert [DigitChar(2)] == "2";
  }

  /** The exponent "1e2" is the integer 100. */
  lemma IntegerExponentWithExponent(self: Decimal, scale: nat, floatPower: string)
    ensures Parse(ExponentIntegerText, scale) == Parse("100", scale) == Success(Dec(false, "100", ""))
    ensures IsInt(ToString(Dec(false, "100", "")))
    ensures Power(self, ExponentIntegerText, scale, floatPower) == Power(self, "100", scale, floatPower)
  {
    HundredParses(scale);
    HundredText();
  }

  /** "1e2" and "100" parse to the same decimal. */
  lemma HundredParses(scale: nat)
    ensures Parse(ExponentIntegerText, scale) == Parse("100", scale) == Success(Dec(false, "100", ""))
  {
    var d: Decimal := Dec(false, "100", "");
    assert Parse(ExponentIntegerText, scale) == Success(d) by {
      var m := Match(false, "1", None, Some(Exponent('e', "", "2")), false);
      assert Render(m) == ExponentIntegerText;
      OneHundred(m, scale);
    }
    HundredText();
    ParseToString(d, scale);
  }

  lemma HundredText()
    ensures IsCanonical(Dec(false, "100", "")) && ToString(Dec(false, "100", "")) == "100"
  {
  }

  /** "1" with the exponent 2 is 100. */
  lemma OneHundred(m: Match, scale: nat)
    requires m == Match(false, "1", None, Some(Exponent('e', "", "2")), false)
    ensures Parse(Render(m), scale) == Success(Dec(false, "100", ""))
  {
    var d := Dec(false, "100", "");
    ValueOfDigit('1');
    ValueOfDigit('2');
    assert Pow10(2) == 100;
    assert TextNum(false, "1", None) == Num(1, 0) by {
      assert "1" + FracText(None) == "1";
    }
    assert ToNum(d) == Num(100, 0) by {
      assert "100" + FracText(Some("")) == "1" + Zeros(2);
      ValueOfZeros(2);
      ValueOfAppend("1", Zeros(2));
    }
    assert IsCanonical(d) && WellFormed(m) && SameValue(ToNum(d), Denoted(m));
    ParsesTo(Render(m), m, d, scale);
  }

  /** toInt() of 6.5 is refused. */
  lemma ToIntOfFraction(scale: nat)
    ensures Parse("6.5", scale) == Success(Dec(false, "6", "5"))
    ensures ToInt(Dec(false, "6", "5")) == Failure(NonInteger)
  {
    var d: Decimal := Dec(false, "6", "5");
    assert ToString(d) == "6.5";
    ParseToString(d, scale);
  }

  /** toInt() of an integer is that integer: 2342352362. */
  lemma ToIntOfInteger(f: Fixed)
    requires f == Fixed(2342352362, 0)
    ensures IsCanonical(Of(f)) && ToInt(Of(f)) == Success(f.digits)
  {
    OfAt(f, 0);
    var r := ToInt(Of(f));
    assert r.Success? && ToNum(Of(f)) == Num(r.value, 0);
  }

  /** Dividing by "0" is refused, whatever the receiver. */
  lemma DivideByZeroText(self: Decimal, scale: nat)
    ensures DivideBy(self, "0", scale) == Failure(DivisionByZero)
  {
    var zero := SmallInteger(0, scale);
    assert [DigitChar(0)] == "0";
  }

  /** The square root of -1 is refused, as written and as intended. */
  lemma SquareRootOfMinusOne(scale: nat)
    ensures IsCanonical(Dec(true, "1", ""))
    ensures SquareRoot(Dec(true, "1", ""), scale) == Failure(NegativeRadicand)
    ensures SquareRootAsWritten(Dec(true, "1", ""), scale) == Failure(NegativeRadicand)
  {
    var d: Decimal := Dec(true, "1", "");
    ValueOfDigit('1');
    assert ToNum(d) == Num(-1, 0) by {
      assert "1" + FracText(Some("")) == "1";
    }
    SquareRootAgrees(d, scale);
  }

  /** Squaring is strictly increasing on the naturals. */
  lemma SquareLess(a: nat, b: nat)
    requires a < b
    ensures a * a < b * b
  {
    MulLe(a, b, a);
    MulLtScale(a, b, b);
  }

  /** squareRoot() of the square of a literal is that literal, at a scale that holds it. */
  lemma SquareRootVector(root: Fixed, s: nat)
    requires root.digits >= 0 && root.places <= s
    ensures IsCanonical(Of(Fixed(root.digits * root.digits, 2 * root.places)))
    ensures SquareRoot(Of(Fixed(root.digits * root.digits, 2 * root.places)), s) == Success(Of(root))
  {
    var r, p := root.digits, root.places;
    var square := Fixed(r * r, 2 * p);
    var a: Decimal := Of(square);
    var x := ToNum(a);
    assert x.m * Pow10(2 * p) == r * r * Pow10(x.e) by {
      OfAt(square, 2 * p);
    }
    SquareBracket(x.m, x.e, root, s);
    OfAt(root, s);
    SquareRootIs(a, s, Of(root));
  }

  /** When m / 10^e is (r / 10^p)^2, the root in units of 10^-s brackets m at twice the scale. */
  lemma SquareBracket(m: int, e: nat, root: Fixed, s: nat)
    requires root.digits >= 0 && root.places <= s
    requires m * Pow10(2 * root.places) == root.digits * root.digits * Pow10(e)
    ensures m >= 0 && Units(root, s) >= 0
    ensures var t := Units(root, s);
      && t * t * Pow10(e) <= m * Pow10(2 * s)
      && m * Pow10(2 * s) < (t + 1) * (t + 1) * Pow10(e)
  {
    var r, p := root.digits, root.places;
    SquareSign(m, Pow10(2 * p), r, Pow10(e));
    var t := Units(root, s);
    assert t * t * Pow10(e) == m * Pow10(2 * s) && t >= 0 by {
      SquaredUnits(r, p, s, m, e);
      SignOfProduct(r, Pow10(s - p));
    }
    assert m * Pow10(2 * s) < (t + 1) * (t + 1) * Pow10(e) by {
      SquareLess(t, t + 1);
      MulLtScale(t * t, (t + 1) * (t + 1), Pow10(e));
    }
  }

  /** squareRoot() gives the canonical decimal whose truncation brackets the square root. */
  lemma SquareRootIs(a: Decimal, s: nat, d: Decimal)
    requires ToNum(a).m >= 0 && |d.fracPart| <= s && Trunc(ToNum(d), s) >= 0
    requires var x, t := ToNum(a), Trunc(ToNum(d), s);
      && t * t * Pow10(x.e) <= x.m * Pow10(2 * s)
      && x.m * Pow10(2 * s) < (t + 1) * (t + 1) * Pow10(x.e)
    ensures SquareRoot(a, s) == Success(d)
  {
    SquareRootIsBcSqrt(a, s);
    BcSqrtOfBracket(a, s, d);
    FromScaledOfCanonical(d, s);
  }

  /** squareRoot() formats and re-reads the result of bcsqrt. */
  lemma SquareRootIsBcSqrt(a: Decimal, s: nat)
    requires ToNum(a).m >= 0
    ensures SquareRoot(a, s) == Success(FromScaled(BcSqrt(ToNum(a), s), s))
  {
    ParseFormatValue(BcSqrt(ToNum(a), s), s);
  }

  /** bcsqrt is the only natural whose square brackets the operand at twice the scale. */
  lemma BcSqrtOfBracket(a: Decimal, s: nat, d: Decimal)
    requires ToNum(a).m >= 0 && Trunc(ToNum(d), s) >= 0
    requires var x, t := ToNum(a), Trunc(ToNum(d), s);
      && t * t * Pow10(x.e) <= x.m * Pow10(2 * s)
      && x.m * Pow10(2 * s) < (t + 1) * (t + 1) * Pow10(x.e)
    ensures BcSqrt(ToNum(a), s) == Trunc(ToNum(d), s)
  {
    var x := ToNum(a);
    BracketUnique(BcSqrt(x, s), Trunc(ToNum(d), s), x.m * Pow10(2 * s), Pow10(x.e));
  }

  /** Two naturals whose squares, scaled by e, bracket the same n are equal. */
  lemma BracketUnique(q: int, t: int, n: int, e: nat)
    requires q >= 0 && t >= 0 && e > 0
    requires q * q * e <= n < (q + 1) * (q + 1) * e
    requires t * t * e <= n < (t + 1) * (t + 1) * e
    ensures q == t
  {
    assert q * q < (t + 1) * (t + 1) by {
      MulLtCancel(q * q, (t + 1) * (t + 1), e);
    }
    assert t * t < (q + 1) * (q + 1) by {
      MulLtCancel(t * t, (q + 1) * (q + 1), e);
    }
    if q < t {
      SquareLess(q + 1, t + 1);
      if q + 1 < t {
        SquareLess(q + 1, t);
      }
    } else if q > t {
      if t + 1 < q {
        SquareLess(t + 1, q);
      }
    }
  }

  /** m * a == r * r * b with a, b positive leaves m non-negative. */
  lemma SquareSign(m: int, a: nat, r: int, b: nat)
    requires a > 0 && b > 0 && m * a == r * r * b
    ensures m >= 0
  {
    SignOfProduct(r, r);
    SignOfProduct(r * r, b);
    SignOfProduct(m, a);
  }

  /** The square of r / 10^p in units of 10^-s, against a number equal to r^2 / 10^(2p). */
  lemma SquaredUnits(r: int, p: nat, s: nat, m: int, e: nat)
    requires p <= s && m * Pow10(2 * p) == r * r * Pow10(e)
    ensures m * Pow10(2 * s) == (r * Pow10(s - p)) * (r * Pow10(s - p)) * Pow10(e)
  {
    var a, k, pe := Pow10(2 * p), Pow10(s - p), Pow10(e);
    assert Pow10(2 * s) == a * (k * k) by {
      Pow10Add(2 * p, 2 * (s - p));
      Pow10Add(s - p, s - p);
      assert 2 * p + 2 * (s - p) == 2 * s && (s - p) + (s - p) == 2 * (s - p);
    }
    assert m * (a * (k * k)) == (m * a) * (k * k) by {
      MulAssoc(m, a, k * k);
    }
    SquareRegroup(r, k, pe);
  }

  /** (r * r * e) * (k * k) == (r * k) * (r * k) * e. */
  lemma SquareRegroup(r: int, k: int, e: int)
    ensures (r * r * e) * (k * k) == (r * k) * (r * k) * e
  {
    MulSwap(r, r, k, k);
    MulAssoc(r * r, e, k * k);
    MulAssoc(r * r, k * k, e);
    MulSwap(r * r, e, k * k, 1);
  }

  /** 34675105019099.11132516 has the square root 5888557.1254. */
  lemma SquareRootVectorExample(s: nat)
    requires s >= 4
    ensures IsCanonical(Of(Square.result))
    ensures SquareRoot(Of(Square.result), s) == Success(Of(Square.left))
  {
    assert Square.result == Fixed(Square.left.digits * Square.left.digits, 2 * Square.left.places);
    SquareRootVector(Square.left, s);
  }

  /** The receivers of the comparison tests, 8734.23785 and -342.0001, and their arguments. */
  const CompareDecimal := Fixed(873423785, 5)
  const CompareNegative := Fixed(-3420001, 4)
  const SmallerInteger := Fixed(1241, 0)
  const MoreNegative := Fixed(-2736512412, 5)
  const NegativeInteger := Fixed(-30000, 0)
  const JustAbove := Fixed(873423785000000000000000001, 23)
  const LessNegative := Fixed(-199235, 3)
  const LongNegative := Fixed(-100012312124124, 12)
  const TrailingZerosText := "8734.237850000000000000000000000000000000"

  /** The six comparisons of a literal against the canonical text of another are those of
      their values in units of 10^-p, for any p from their places up to the scale. */
  lemma CompareVector(a: Fixed, b: Fixed, p: nat, s: nat)
    requires a.places <= p && b.places <= p && p <= s
    ensures IsCanonical(Of(a)) && IsCanonical(Of(b))
    ensures var x, y, text := Units(a, p), Units(b, p), ToString(Of(b));
      && LessThan(Of(a), text, s) == Success(x < y)
      && LessThanOrEquals(Of(a), text, s) == Success(x <= y)
      && Equals(Of(a), text, s) == Success(x == y)
      && NotEquals(Of(a), text, s) == Success(x != y)
      && MoreThanOrEquals(Of(a), text, s) == Success(x >= y)
      && MoreThan(Of(a), text, s) == Success(x > y)
  {
    OfAt(a, s);
    OfAt(b, s);
    CompareTruncated(Of(a), Of(b), s);
    ParseToString(Of(b), s);
    ComparePredicates(Of(a), ToString(Of(b)), s);
    UnitsOrder(a, b, p, s);
  }

  /** lessThan of two literals whose values in units of 10^-p are in order. */
  lemma CompareLess(a: Fixed, b: Fixed, p: nat, s: nat)
    requires a.places <= p && b.places <= p && p <= s
    requires Units(a, p) < Units(b, p)
    ensures LessThan(Of(a), ToString(Of(b)), s) == Success(true)
  {
    CompareVector(a, b, p, s);
  }

  /** Rescaling both literals from units of 10^-p to units of 10^-s keeps their order. */
  lemma UnitsOrder(a: Fixed, b: Fixed, p: nat, s: nat)
    requires a.places <= p && b.places <= p && p <= s
    ensures Units(a, s) < Units(b, s) <==> Units(a, p) < Units(b, p)
    ensures Units(a, s) == Units(b, s) <==> Units(a, p) == Units(b, p)
  {
    UnitsRescale(a, p, s);
    UnitsRescale(b, p, s);
    OrderScaled(Units(a, p), Units(b, p), Pow10(s - p));
  }

  lemma UnitsRescale(f: Fixed, p: nat, s: nat)
    requires f.places <= p <= s
    ensures Units(f, s) == Units(f, p) * Pow10(s - p)
  {
    Pow10Add(p - f.places, s - p);
    assert (p - f.places) + (s - p) == s - f.places;
    MulAssoc(f.digits, Pow10(p - f.places), Pow10(s - p));
  }

  /** 8734.23785 is more than 1241. */
  lemma CompareMoreThanInteger(s: nat)
    requires s >= 5
    ensures MoreThan(Of(CompareDecimal), ToString(Of(SmallerInteger)), s) == Success(true)
  {
    assert Units(CompareDecimal, 5) > Units(SmallerInteger, 5) by {
      assert Pow10(5) == 100000;
    }
    CompareVector(CompareDecimal, SmallerInteger, 5, s);
  }

  /** -342.0001 is more than -27365.12412. */
  lemma CompareMoreThanNegative(s: nat)
    requires s >= 5
    ensures MoreThan(Of(CompareNegative), ToString(Of(MoreNegative)), s) == Success(true)
  {
    assert Units(CompareNegative, 5) > Units(MoreNegative, 5) by {
      assert Pow10(1) == 10;
    }
    CompareVector(CompareNegative, MoreNegative, 5, s);
  }

  /** 8734.23785 is at least 8734.23785. */
  lemma CompareMoreThanOrEqualsItself(s: nat)
    requires s >= 5
    ensures MoreThanOrEquals(Of(CompareDecimal), ToString(Of(CompareDecimal)), s) == Success(true)
  {
    CompareVector(CompareDecimal, CompareDecimal, 5, s);
  }

  /** -342.0001 is at least -30000. */
  lemma CompareMoreThanOrEqualsNegative(s: nat)
    requires s >= 4
    ensures MoreThanOrEquals(Of(CompareNegative), ToString(Of(NegativeInteger)), s) == Success(true)
  {
    assert Units(CompareNegative, 4) > Units(NegativeInteger, 4) by {
      assert Pow10(4) == 10000;
    }
    CompareVector(CompareNegative, NegativeInteger, 4, s);
  }

  /** 8734.23785 is less than 8734.23785000000000000000001. */
  lemma CompareLessThanLonger(s: nat)
    requires s >= 23
    ensures LessThan(Of(CompareDecimal), ToString(Of(JustAbove)), s) == Success(true)
  {
    JustAboveUnits();
    CompareLess(CompareDecimal, JustAbove, 23, s);
  }

  lemma JustAboveUnits()
    ensures Units(CompareDecimal, 23) < Units(JustAbove, 23)
  {
    Pow10Add(9, 9);
    assert Pow10(9) == 1000000000;
  }

  /** -342.0001 is less than -199.235. */
  lemma CompareLessThanNegative(s: nat)
    requires s >= 4
    ensures LessThan(Of(CompareNegative), ToString(Of(LessNegative)), s) == Success(true)
  {
    assert Units(CompareNegative, 4) < Units(LessNegative, 4) by {
      assert Pow10(1) == 10;
    }
    CompareVector(CompareNegative, LessNegative, 4, s);
  }

  /** 8734.23785 is at most the same number written with 31 more zeros: the argument is read
      without its trailing zeros, so the two compare equal. */
  lemma CompareLessThanOrEqualsPadded(s: nat)
    ensures IsCanonical(Dec(false, "8734", "23785"))
    ensures Parse(TrailingZerosText, s) == Success(Dec(false, "8734", "23785"))
    ensures LessThanOrEquals(Dec(false, "8734", "23785"), TrailingZerosText, s) == Success(true)
  {
    var m := Match(false, "8734", Some("23785" + Zeros(31)), None, false);
    PaddedRender(m);
    TrailingZerosParse(m, s);
  }

  lemma PaddedRender(m: Match)
    requires m == Match(false, "8734", Some("23785" + Zeros(31)), None, false)
    ensures Render(m) == TrailingZerosText
  {
    var r := "8734.23785" + Zeros(31);
    assert Render(m) == r;
    assert |r| == |TrailingZerosText|;
    forall i | 0 <= i < |r|
      ensures r[i] == TrailingZerosText[i]
    {
      if i >= 10 {
        assert r[i] == Zeros(31)[i - 10];
      }
    }
  }

  /** A fraction followed by zeros reads as the fraction alone. */
  lemma TrailingZerosParse(m: Match, s: nat)
    requires m == Match(false, "8734", Some("23785" + Zeros(31)), None, false)
    ensures Parse(Render(m), s) == Success(Dec(false, "8734", "23785"))
  {
    RecogniseComplete(m);
    TrimTrailingZerosPadded("23785", 31);
    assert TrimLeadingZeros("8734") == "8734";
  }

  /** -342.0001 is at most -100.012312124124. */
  lemma CompareLessThanOrEqualsNegative(s: nat)
    requires s >= 12
    ensures LessThanOrEquals(Of(CompareNegative), ToString(Of(LongNegative)), s) == Success(true)
  {
    assert Units(CompareNegative, 12) < Units(LongNegative, 12) by {
      Pow10Add(4, 4);
      assert Pow10(4) == 10000;
    }
    CompareVector(CompareNegative, LongNegative, 12, s);
  }

  /** 8734.23785 equals itself: equals is true and notEquals false. */
  lemma CompareEqualsItself(s: nat)
    requires s >= 5
    ensures Equals(Of(CompareDecimal), ToString(Of(CompareDecimal)), s) == Success(true)
    ensures NotEquals(Of(CompareDecimal), ToString(Of(CompareDecimal)), s) == Success(false)
  {
    CompareVector(CompareDecimal, CompareDecimal, 5, s);
  }

  /** 8734.23785 does not equal -342.0001: equals is false and notEquals true. */
  lemma CompareEqualsNegative(s: nat)
    requires s >= 5
    ensures Equals(Of(CompareDecimal), ToString(Of(CompareNegative)), s) == Success(false)
    ensures NotEquals(Of(CompareDecimal), ToString(Of(CompareNegative)), s) == Success(true)
  {
    assert Units(CompareDecimal, 5) != Units(CompareNegative, 5) by {
      assert Pow10(1) == 10;
    }
    CompareVector(CompareDecimal, CompareNegative, 5, s);
  }
}
