/** The operations of the Decimal class. A Decimal is an immutable value: every operation
    parses its argument, asks bcmath for the result at the scale, and builds a new Decimal
    from bcmath's answer with construct, which parses it again. The receiver, a Dafny
    value, is never changed. */
module DecimalModel {
  import opened Outcomes
  import opened Arith
  import opened Digits
  import opened BcMath
  import opened Grammar
  import opened Canonical
  import opened Parser

  /** The results of bccomp the predicates test for. */
  const LessThanResult: int := -1
  const EqualsResult: int := 0
  const MoreThanResult: int := 1

  /** The decimal one, the value of "1". */
  const One: Decimal := Dec(false, "1", "")

  /** add($value): the exact sum, truncated to the scale. */
  function Add(self: Decimal, value: string, scale: nat): (r: Result<Decimal, Error>)
    ensures r.Success? <==> Accepts(value)
    ensures r == Failure(InvalidFormat) <==> Recognise(value).None?
    ensures r == Failure(BcmathError) <==> Recognise(value).Some? && !Accepts(value)
    ensures r.Success? ==> var v := Parse(value, scale).value;
      && Trunc(ToNum(r.value), scale) == Trunc(Sum(ToNum(self), ToNum(v)), scale)
      && |r.value.fracPart| <= scale
  {
    match Parse(value, scale)
    case Failure(e) => Failure(e)
    case Success(v) =>
      var q := BcAdd(ToNum(self), ToNum(v), scale);
      ParseFormatValue(q, scale);
      Parse(BcFormat(q, scale), scale)
  }

  /** substract($value): the exact difference, truncated to the scale. */
  function Substract(self: Decimal, value: string, scale: nat): (r: Result<Decimal, Error>)
    ensures r.Success? <==> Accepts(value)
    ensures r == Failure(InvalidFormat) <==> Recognise(value).None?
    ensures r == Failure(BcmathError) <==> Recognise(value).Some? && !Accepts(value)
    ensures r.Success? ==> var v := Parse(value, scale).value;
      && Trunc(ToNum(r.value), scale) == Trunc(Sum(ToNum(self), Negate(ToNum(v))), scale)
      && |r.value.fracPart| <= scale
  {
    match Parse(value, scale)
    case Failure(e) => Failure(e)
    case Success(v) =>
      var q := BcSub(ToNum(self), ToNum(v), scale);
      ParseFormatValue(q, scale);
      Parse(BcFormat(q, scale), scale)
  }

  /** multiplyBy($value): the exact product, truncated to the scale. */
  function MultiplyBy(self: Decimal, value: string, scale: nat): (r: Result<Decimal, Error>)
    ensures r.Success? <==> Accepts(value)
    ensures r == Failure(InvalidFormat) <==> Recognise(value).None?
    ensures r == Failure(BcmathError) <==> Recognise(value).Some? && !Accepts(value)
    ensures r.Success? ==> var v := Parse(value, scale).value;
      && Trunc(ToNum(r.value), scale) == Trunc(Product(ToNum(self), ToNum(v)), scale)
      && |r.value.fracPart| <= scale
  {
    match Parse(value, scale)
    case Failure(e) => Failure(e)
    case Success(v) =>
      var q := BcMul(ToNum(self), ToNum(v), scale);
      ParseFormatValue(q, scale);
      Parse(BcFormat(q, scale), scale)
  }

  /** divideBy($value): refused when the divisor's canonical text is "0", which is exactly
      when it denotes zero; otherwise the quotient truncated to the scale. */
  function DivideBy(self: Decimal, value: string, scale: nat): (r: Result<Decimal, Error>)
    ensures r == Failure(InvalidFormat) <==> Recognise(value).None?
    ensures r == Failure(BcmathError) <==> Recognise(value).Some? && !Accepts(value)
    ensures r == Failure(DivisionByZero) <==> Accepts(value) && ToNum(Parse(value, scale).value).m == 0
    ensures r.Success? <==> Accepts(value) && ToNum(Parse(value, scale).value).m != 0
    ensures r.Success? ==> var y := ToNum(Parse(value, scale).value);
      && y.m != 0
      && Trunc(ToNum(r.value), scale) == BcDiv(ToNum(self), y, scale)
      && |r.value.fracPart| <= scale
  {
    match Parse(value, scale)
    case Failure(e) => Failure(e)
    case Success(v) =>
      ZeroText(v);
      if ToString(v) == "0" then
        Failure(DivisionByZero)
      else
        var q := BcDiv(ToNum(self), ToNum(v), scale);
        ParseFormatValue(q, scale);
        Parse(BcFormat(q, scale), scale)
  }

  /** isInt($value): the text has no point. */
  function IsInt(text: string): bool {
    '.' !in text
  }

  /** A canonical text has a point exactly when its decimal has fractional digits. */
  lemma IsIntCanonical(d: Decimal)
    ensures IsInt(ToString(d)) <==> d.fracPart == []
  {
    assert '.' !in RenderSign(d.neg);
    assert '.' !in d.intPart;
    if d.fracPart != [] {
      assert ToString(d) == RenderSign(d.neg) + (d.intPart + ("." + d.fracPart));
      assert ("." + d.fracPart)[0] == '.';
    } else {
      assert ToString(d) == RenderSign(d.neg) + d.intPart;
    }
  }

  /** The integer a canonical integer text stands for, as PHP's (int) cast reads it. */
  function IntegerOf(d: Decimal): int {
    (if d.neg then -1 else 1) * ValueOf(d.intPart)
  }

  /** A decimal without fractional digits denotes its integer. */
  lemma IntegerOfValue(d: Decimal)
    requires d.fracPart == []
    ensures ToNum(d) == Num(IntegerOf(d), 0)
  {
    assert d.intPart + d.fracPart == d.intPart;
  }

  /** toInt(): refused exactly when the canonical text has a point; otherwise the integer
      the decimal denotes. */
  function ToInt(self: Decimal): (r: Result<int, Error>)
    ensures r.Failure? <==> self.fracPart != []
    ensures r.Failure? ==> r.error == NonInteger
    ensures r.Success? ==> ToNum(self) == Num(r.value, 0)
  {
    IsIntCanonical(self);
    if !IsInt(ToString(self)) then
      Failure(NonInteger)
    else
      IntegerOfValue(self);
      Success(IntegerOf(self))
  }

  /** power($exponent). An exponent whose canonical text has no point is an integer and goes
      to bcpow; any other exponent takes the floating-point path. */
  function Power(self: Decimal, exponent: string, scale: nat, floatPower: string): (r: Result<Decimal, Error>)
    ensures Recognise(exponent).None? ==> r == Failure(InvalidFormat)
    ensures Recognise(exponent).Some? && !Accepts(exponent) ==> r == Failure(BcmathError)
    ensures Accepts(exponent) ==> r == PowerOf(self, Parse(exponent, scale).value, scale, floatPower)
  {
    match Parse(exponent, scale)
    case Failure(e) => Failure(e)
    case Success(n) => PowerOf(self, n, scale, floatPower)
  }

  /** Lines 100-106 for the parsed exponent n: bcpow when n's text has no point, where bcmath
      itself fails on an exponent beyond a native integer and on zero to a negative power;
      otherwise the floating-point path, whose text, PHP's rendering of
      pow($this->toFloat(), (float)$exponent), is the parameter `floatPower`. */
  function PowerOf(self: Decimal, n: Decimal, scale: nat, floatPower: string): Result<Decimal, Error> {
    if IsInt(ToString(n)) then
      var k := IntegerOf(n);
      if !FitsLong(k) then
        Failure(BcmathError)
      else if k < 0 && ToNum(self).m == 0 then
        Failure(BcmathError)
      else
        Parse(BcFormat(BcPow(ToNum(self), k, scale), scale), scale)
    else
      Parse(floatPower, scale)
  }

  /** The integer a digit string parses to, with or without a leading minus. */
  lemma ParsedInteger(t: string, minus: bool, scale: nat)
    requires |t| >= 1 && AllDigits(t) && ValueOf(t) > 0
    ensures var r := Parse(RenderSign(minus) + t, scale);
      && r.Success? && r.value.fracPart == []
      && IntegerOf(r.value) == (if minus then -1 else 1) * ValueOf(t)
  {
    var m := Match(minus, t, None, None, false);
    assert Render(m) == RenderSign(minus) + t;
    RecogniseComplete(m);
    var d := Canonicalise(minus, t, None);
    assert Parse(Render(m), scale) == Success(d);
    CanonicaliseValue(minus, t, None);
    assert t + FracText(None) == t;
    assert d.intPart + d.fracPart == d.intPart;
    assert Pow10(0) == 1;
  }

  /** An integer exponent text beyond a native integer, such as "9223372036854775808" or
      its negation: it parses, has no point, and bcpow refuses it. */
  lemma PowerTooLarge(self: Decimal, t: string, scale: nat, floatPower: string)
    requires |t| >= 1 && AllDigits(t) && ValueOf(t) > LongMax
    ensures Power(self, t, scale, floatPower) == Failure(BcmathError)
    ensures Power(self, "-" + t, scale, floatPower) == Failure(BcmathError)
  {
    SignedPowerTooLarge(self, t, false, scale, floatPower);
    assert RenderSign(false) + t == t;
    SignedPowerTooLarge(self, t, true, scale, floatPower);
  }

  lemma SignedPowerTooLarge(self: Decimal, t: string, minus: bool, scale: nat, floatPower: string)
    requires |t| >= 1 && AllDigits(t) && ValueOf(t) > LongMax
    ensures Power(self, RenderSign(minus) + t, scale, floatPower) == Failure(BcmathError)
  {
    var text := RenderSign(minus) + t;
    ParsedInteger(t, minus, scale);
    var n := Parse(text, scale).value;
    IsIntCanonical(n);
    assert !FitsLong(IntegerOf(n));
    assert PowerOf(self, n, scale, floatPower) == Failure(BcmathError);
  }

  /** An integer exponent bcpow accepts reaches bcpow, whose answer construct parses. */
  lemma PowerOfInteger(self: Decimal, n: Decimal, scale: nat, floatPower: string)
    requires n.fracPart == [] && FitsLong(IntegerOf(n))
    requires IntegerOf(n) < 0 ==> ToNum(self).m != 0
    ensures PowerOf(self, n, scale, floatPower)
      == Parse(BcFormat(BcPow(ToNum(self), IntegerOf(n), scale), scale), scale)
  {
    IsIntCanonical(n);
  }

  /** An integer exponent 0 <= k <= PHP_INT_MAX: x^k truncated to the scale. */
  lemma PowerNonNegative(self: Decimal, n: Decimal, scale: nat, floatPower: string)
    requires n.fracPart == [] && 0 <= IntegerOf(n) <= LongMax
    ensures var r := PowerOf(self, n, scale, floatPower);
      && r.Success? && |r.value.fracPart| <= scale
      && Trunc(ToNum(r.value), scale) == Trunc(PowNum(ToNum(self), IntegerOf(n)), scale)
  {
    PowerOfInteger(self, n, scale, floatPower);
    ParseFormatValue(BcPow(ToNum(self), IntegerOf(n), scale), scale);
  }

  /** An integer exponent -PHP_INT_MAX <= k < 0: bcpow's reciprocal power (BcMath.BcPowNegative
      bounds it), and a bcmath failure when x is zero. */
  lemma PowerNegative(self: Decimal, n: Decimal, scale: nat, floatPower: string)
    requires n.fracPart == [] && FitsLong(IntegerOf(n)) && IntegerOf(n) < 0
    ensures ToNum(self).m == 0 ==> PowerOf(self, n, scale, floatPower) == Failure(BcmathError)
    ensures ToNum(self).m != 0 ==> var r := PowerOf(self, n, scale, floatPower);
      && r.Success? && |r.value.fracPart| <= scale
      && Trunc(ToNum(r.value), scale) == BcPow(ToNum(self), IntegerOf(n), scale)
  {
    var x := ToNum(self);
    if x.m != 0 {
      PowerOfInteger(self, n, scale, floatPower);
      ParseFormatValue(BcPow(x, IntegerOf(n), scale), scale);
    } else {
      IsIntCanonical(n);
    }
  }

  /** An exponent with fractional digits takes the floating-point path. */
  lemma PowerFractional(self: Decimal, n: Decimal, scale: nat, floatPower: string)
    requires n.fracPart != []
    ensures PowerOf(self, n, scale, floatPower) == Parse(floatPower, scale)
  {
    IsIntCanonical(n);
  }

  /** Raising to the power "2" is multiplying a decimal by itself. */
  lemma PowerTwoIsSquare(self: Decimal, scale: nat, floatPower: string)
    ensures Power(self, "2", scale, floatPower) == MultiplyBy(self, ToString(self), scale)
  {
    var two := SmallInteger(2, scale);
    ParseToString(self, scale);
    IsIntCanonical(two);
    BcPowTwo(ToNum(self), scale);
  }

  /** Every decimal to the power "0" is one, zero included. */
  lemma PowerZeroIsOne(self: Decimal, scale: nat, floatPower: string)
    ensures Power(self, "0", scale, floatPower) == Success(One)
  {
    var zero := SmallInteger(0, scale);
    IsIntCanonical(zero);
    PowerNonNegative(self, zero, scale, floatPower);
    var r := PowerOf(self, zero, scale, floatPower).value;
    var one := SmallInteger(1, scale);
    assert PowNum(ToNum(self), 0) == ToNum(one);
    TruncExact(ToNum(one), scale);
    CanonicalUnique(r, one, scale);
  }

  /** The one-digit texts "0" to "9" parse to the decimal of that integer. */
  lemma SmallInteger(k: nat, scale: nat) returns (d: Decimal)
    requires k < 10
    ensures d == Dec(false, [DigitChar(k)], "") && ToString(d) == [DigitChar(k)]
    ensures Parse([DigitChar(k)], scale) == Success(d)
    ensures IntegerOf(d) == k && ToNum(d) == Num(k, 0)
  {
    d := Dec(false, [DigitChar(k)], "");
    assert ToString(d) == [DigitChar(k)];
    ParseToString(d, scale);
    ValueOfDigit(DigitChar(k));
    assert d.intPart + d.fracPart == d.intPart;
  }

  /** squareRoot(), as intended: refused exactly when the decimal is negative; otherwise the
      square root truncated to the scale, that is, the largest q with (q / 10^scale)^2 at
      most the decimal. */
  function SquareRoot(self: Decimal, scale: nat): (r: Result<Decimal, Error>)
    ensures r.Failure? <==> ToNum(self).m < 0
    ensures r.Failure? ==> r.error == NegativeRadicand
    ensures r.Success? ==> var x := ToNum(self); var q := Trunc(ToNum(r.value), scale);
      && q >= 0 && |r.value.fracPart| <= scale
      && q * q * Pow10(x.e) <= x.m * Pow10(2 * scale)
      && x.m * Pow10(2 * scale) < (q + 1) * (q + 1) * Pow10(x.e)
  {
    if ToNum(self).m < 0 then
      Failure(NegativeRadicand)
    else
      var q := BcSqrt(ToNum(self), scale);
      ParseFormatValue(q, scale);
      Parse(BcFormat(q, scale), scale)
  }

  /** squareRoot() as written: the guard is lessThan(0), which compares at the scale, and a
      negative decimal that truncates to zero gets past it to bcsqrt, which rejects it. */
  function SquareRootAsWritten(self: Decimal, scale: nat): (r: Result<Decimal, Error>)
    ensures r == Failure(NegativeRadicand) <==> Trunc(ToNum(self), scale) < 0
    ensures r == Failure(BcmathError) <==> ToNum(self).m < 0 && Trunc(ToNum(self), scale) == 0
  {
    LessThanZero(self, scale);
    TruncBounds(ToNum(self), scale);
    if LessThan(self, "0", scale) == Success(true) then
      Failure(NegativeRadicand)
    else if ToNum(self).m < 0 then
      Failure(BcmathError)
    else
      SquareRoot(self, scale)
  }

  /** lessThan(0) holds exactly when the decimal is negative at the scale. */
  lemma LessThanZero(self: Decimal, scale: nat)
    ensures LessThan(self, "0", scale) == Success(Trunc(ToNum(self), scale) < 0)
  {
    ParseToString(Zero, scale);
    assert ToString(Zero) == "0";
    ZeroText(Zero);
    TruncExact(ToNum(Zero), scale);
  }

  /** The guard of squareRoot as written lets through a negative decimal: -10^-(scale+1). */
  lemma SquareRootGuardGap(scale: nat)
    ensures var d := Dec(true, "0", Zeros(scale) + "1");
      && IsCanonical(d) && ToNum(d).m < 0
      && SquareRootAsWritten(d, scale) == Failure(BcmathError)
      && SquareRoot(d, scale) == Failure(NegativeRadicand)
  {
    var frac := Zeros(scale) + "1";
    var d := Dec(true, "0", frac);
    ValueOfZeros(scale);
    assert ValueOf("1") == 1 by {
      assert "1"[..0] == [];
    }
    ValueOfAppend(Zeros(scale), "1");
    assert ValueOf(frac) == 1;
    ValueOfAppend("0", frac);
    assert ValueOf("0") == 0 by {
      assert "0"[..0] == [];
    }
    assert ToNum(d) == Num(-1, scale + 1);
    TinyTruncatesToZero(scale);
  }

  /** -10^-(s+1) truncates to zero at scale s. */
  lemma TinyTruncatesToZero(s: nat)
    ensures Trunc(Num(-1, s + 1), s) == 0
  {
    var x := Num(-1, s + 1);
    TruncBounds(x, s);
    assert Pow10(s + 1) == 10 * Pow10(s);
    if Trunc(x, s) != 0 {
      MulAtLeast(Pow10(s + 1), Abs(Trunc(x, s)));
    }
  }

  /** For a decimal with at most `scale` fractional digits, squareRoot as written and as
      intended agree. */
  lemma SquareRootAgrees(self: Decimal, scale: nat)
    requires |self.fracPart| <= scale
    ensures SquareRootAsWritten(self, scale) == SquareRoot(self, scale)
  {
    TruncOfCanonical(self, scale);
    CanonicalSign(self);
  }

  /** compare($value, $validResults): whether bccomp at the scale is one of the results. */
  function Compare(self: Decimal, value: string, validResults: set<int>, scale: nat): (r: Result<bool, Error>)
    ensures r.Success? <==> Accepts(value)
    ensures r == Failure(InvalidFormat) <==> Recognise(value).None?
    ensures r == Failure(BcmathError) <==> Recognise(value).Some? && !Accepts(value)
  {
    match Parse(value, scale)
    case Failure(e) => Failure(e)
    case Success(v) => Success(BcComp(ToNum(self), ToNum(v), scale) in validResults)
  }

  function MoreThan(self: Decimal, value: string, scale: nat): Result<bool, Error> {
    Compare(self, value, {MoreThanResult}, scale)
  }

  function MoreThanOrEquals(self: Decimal, value: string, scale: nat): Result<bool, Error> {
    Compare(self, value, {EqualsResult, MoreThanResult}, scale)
  }

  function LessThan(self: Decimal, value: string, scale: nat): Result<bool, Error> {
    Compare(self, value, {LessThanResult}, scale)
  }

  function LessThanOrEquals(self: Decimal, value: string, scale: nat): Result<bool, Error> {
    Compare(self, value, {LessThanResult, EqualsResult}, scale)
  }

  function Equals(self: Decimal, value: string, scale: nat): Result<bool, Error> {
    Compare(self, value, {EqualsResult}, scale)
  }

  function NotEquals(self: Decimal, value: string, scale: nat): Result<bool, Error> {
    match Equals(self, value, scale)
    case Success(b) => Success(!b)
    case Failure(e) => Failure(e)
  }

  /** The six predicates agree with each other: exactly one of less, equal and more holds,
      the "or equals" forms are the disjunctions, and notEquals negates equals. */
  lemma ComparePredicates(self: Decimal, value: string, scale: nat)
    requires Accepts(value)
    ensures var lt, eq, gt := LessThan(self, value, scale), Equals(self, value, scale), MoreThan(self, value, scale);
      && lt.Success? && eq.Success? && gt.Success?
      && (if lt.value then 1 else 0) + (if eq.value then 1 else 0) + (if gt.value then 1 else 0) == 1
      && MoreThanOrEquals(self, value, scale) == Success(gt.value || eq.value)
      && LessThanOrEquals(self, value, scale) == Success(lt.value || eq.value)
      && NotEquals(self, value, scale) == Success(!eq.value)
  {
    var v := Parse(value, scale).value;
    var c := BcComp(ToNum(self), ToNum(v), scale);
    assert c in {-1, 0, 1};
  }

  /** Comparison looks only at the two decimals truncated to the scale. */
  lemma CompareTruncated(a: Decimal, b: Decimal, scale: nat)
    ensures var x, y := Trunc(ToNum(a), scale), Trunc(ToNum(b), scale);
      && LessThan(a, ToString(b), scale) == Success(x < y)
      && Equals(a, ToString(b), scale) == Success(x == y)
      && MoreThan(a, ToString(b), scale) == Success(x > y)
  {
    ParseToString(b, scale);
  }

  /** For decimals with at most `scale` fractional digits nothing is truncated away, and the
      comparison is that of the numbers themselves. */
  lemma CompareExact(a: Decimal, b: Decimal, scale: nat)
    requires |a.fracPart| <= scale && |b.fracPart| <= scale
    ensures var x, y := ToNum(a), ToNum(b);
      && LessThan(a, ToString(b), scale) == Success(x.m * Pow10(y.e) < y.m * Pow10(x.e))
      && Equals(a, ToString(b), scale) == Success(x.m * Pow10(y.e) == y.m * Pow10(x.e))
  {
    CompareTruncated(a, b, scale);
    TruncOrder(ToNum(a), ToNum(b), scale);
  }

  /** Two numbers that need no more than s digits truncate to s digits in the order of their
      cross products. */
  lemma TruncOrder(x: Num, y: Num, s: nat)
    requires x.e <= s && y.e <= s
    ensures Trunc(x, s) < Trunc(y, s) <==> x.m * Pow10(y.e) < y.m * Pow10(x.e)
    ensures Trunc(x, s) == Trunc(y, s) <==> x.m * Pow10(y.e) == y.m * Pow10(x.e)
  {
    TruncExact(x, s);
    TruncExact(y, s);
    ExactOrder(x.m, y.m, x.e, y.e, s);
  }

  /** a / 10^i against b / 10^j, both scaled up to 10^s, orders like the cross products. */
  lemma ExactOrder(a: int, b: int, i: nat, j: nat, s: nat)
    requires i <= s && j <= s
    ensures a * Pow10(s - i) < b * Pow10(s - j) <==> a * Pow10(j) < b * Pow10(i)
    ensures a * Pow10(s - i) == b * Pow10(s - j) <==> a * Pow10(j) == b * Pow10(i)
  {
    var p := Pow10(i) * Pow10(j);
    ShiftToScale(a, i, j, s);
    ShiftToScale(b, j, i, s);
    MulComm(Pow10(j), Pow10(i));
    OrderScaled(a * Pow10(s - i), b * Pow10(s - j), p);
    OrderScaled(a * Pow10(j), b * Pow10(i), Pow10(s));
  }

  /** a * 10^(s-i), multiplied by 10^i * 10^j, is a * 10^j * 10^s. */
  lemma ShiftToScale(a: int, i: nat, j: nat, s: nat)
    requires i <= s
    ensures (a * Pow10(s - i)) * (Pow10(i) * Pow10(j)) == (a * Pow10(j)) * Pow10(s)
  {
    var u, pi, pj := Pow10(s - i), Pow10(i), Pow10(j);
    Pow10Add(s - i, i);
    assert u * pi == Pow10(s);
    MulAssoc(a, u, pi * pj);
    MulAssoc(u, pi, pj);
    MulAssoc(a, u * pi, pj);
    MulAssoc(a, pj, u * pi);
  }

  /** Multiplying by a positive factor keeps order and equality. */
  lemma OrderScaled(u: int, v: int, p: nat)
    requires p >= 1
    ensures u < v <==> u * p < v * p
    ensures u == v <==> u * p == v * p
  {
    if u < v {
      MulLtScale(u, v, p);
    } else if v < u {
      MulLtScale(v, u, p);
    }
  }

  /** Two decimals with at most `scale` fractional digits are equal at the scale exactly when
      they are the same decimal. */
  lemma EqualsSameDecimal(a: Decimal, b: Decimal, scale: nat)
    requires |a.fracPart| <= scale && |b.fracPart| <= scale
    ensures Equals(a, ToString(b), scale) == Success(a == b)
  {
    CompareTruncated(a, b, scale);
    if Trunc(ToNum(a), scale) == Trunc(ToNum(b), scale) {
      CanonicalUnique(a, b, scale);
    }
  }

  /** a is more than b exactly when b is less than a. */
  lemma CompareAntisymmetric(a: Decimal, b: Decimal, scale: nat)
    ensures MoreThan(a, ToString(b), scale) == LessThan(b, ToString(a), scale)
  {
    CompareTruncated(a, b, scale);
    CompareTruncated(b, a, scale);
  }

  /** lessThan is transitive. */
  lemma LessThanTransitive(a: Decimal, b: Decimal, c: Decimal, scale: nat)
    requires LessThan(a, ToString(b), scale) == Success(true)
    requires LessThan(b, ToString(c), scale) == Success(true)
    ensures LessThan(a, ToString(c), scale) == Success(true)
  {
    CompareTruncated(a, b, scale);
    CompareTruncated(b, c, scale);
    CompareTruncated(a, c, scale);
  }

  /** A result known at the scale and with at most `scale` fractional digits is exactly the
      number it was computed from, when that number needs no more than `scale` digits. */
  lemma ExactWithinScale(r: Decimal, x: Num, scale: nat)
    requires x.e <= scale && |r.fracPart| <= scale
    requires Trunc(ToNum(r), scale) == Trunc(x, scale)
    ensures SameValue(ToNum(r), x)
  {
    var q := Trunc(x, scale);
    assert SameValue(ToNum(r), Num(q, scale)) by {
      FromScaledValue(q, scale);
      FromScaledOfCanonical(r, scale);
    }
    assert SameValue(Num(q, scale), x) by {
      TruncExact(x, scale);
      SameValueScaled(x.m, x.e, scale - x.e);
      SameValueSymmetric(x, Num(q, scale));
    }
    SameValueTransitive(ToNum(r), Num(q, scale), x);
  }

  lemma SameValueSymmetric(x: Num, y: Num)
    requires SameValue(x, y)
    ensures SameValue(y, x)
  {
  }

  /** Adding two decimals that fit the scale loses nothing: the sum is exact. */
  lemma AddExact(a: Decimal, b: Decimal, scale: nat)
    requires |a.fracPart| <= scale && |b.fracPart| <= scale
    ensures Add(a, ToString(b), scale).Success?
    ensures SameValue(ToNum(Add(a, ToString(b), scale).value), Sum(ToNum(a), ToNum(b)))
  {
    ParseToString(b, scale);
    CanonicalMatchRenders(b);
    RecogniseComplete(CanonicalMatch(b));
    ExactWithinScale(Add(a, ToString(b), scale).value, Sum(ToNum(a), ToNum(b)), scale);
  }

  /** Multiplying two decimals whose fractional digits together fit the scale loses
      nothing: the product is exact. */
  lemma MultiplyExact(a: Decimal, b: Decimal, scale: nat)
    requires |a.fracPart| + |b.fracPart| <= scale
    ensures MultiplyBy(a, ToString(b), scale).Success?
    ensures SameValue(ToNum(MultiplyBy(a, ToString(b), scale).value), Product(ToNum(a), ToNum(b)))
  {
    ParseToString(b, scale);
    CanonicalMatchRenders(b);
    RecogniseComplete(CanonicalMatch(b));
    ExactWithinScale(MultiplyBy(a, ToString(b), scale).value, Product(ToNum(a), ToNum(b)), scale);
  }

  /** Addition does not depend on the order of its operands. */
  lemma AddCommutative(a: Decimal, b: Decimal, scale: nat)
    ensures Add(a, ToString(b), scale) == Add(b, ToString(a), scale)
  {
    ParseToString(a, scale);
    ParseToString(b, scale);
    SumCommutes(ToNum(a), ToNum(b));
  }

  /** Multiplication does not depend on the order of its operands. */
  lemma MultiplyCommutative(a: Decimal, b: Decimal, scale: nat)
    ensures MultiplyBy(a, ToString(b), scale) == MultiplyBy(b, ToString(a), scale)
  {
    ParseToString(a, scale);
    ParseToString(b, scale);
    MulComm(ToNum(a).m, ToNum(b).m);
    assert Product(ToNum(a), ToNum(b)) == Product(ToNum(b), ToNum(a));
  }

  /** A decimal minus itself is zero. */
  lemma SubstractSelf(a: Decimal, scale: nat)
    ensures Substract(a, ToString(a), scale) == Success(Zero)
  {
    ParseToString(a, scale);
    var x := ToNum(a);
    var r := Substract(a, ToString(a), scale);
    DifferenceOfSelf(x);
    ZeroOfTrunc(r.value, Sum(x, Negate(x)), scale);
    CanonicalSign(r.value);
  }

  lemma DifferenceOfSelf(x: Num)
    ensures Sum(x, Negate(x)).m == 0
  {
    assert Pow10(0) == 1;
  }

  /** Multiplying by "1" gives back a decimal that fits the scale. */
  lemma MultiplyByOne(a: Decimal, scale: nat)
    requires |a.fracPart| <= scale
    ensures MultiplyBy(a, "1", scale) == Success(a)
  {
    var one := SmallInteger(1, scale);
    var x := ToNum(a);
    assert Product(x, Num(1, 0)) == x;
    CanonicalUnique(MultiplyBy(a, "1", scale).value, a, scale);
  }

  /** Dividing by "1" gives back a decimal that fits the scale. */
  lemma DivideByOne(a: Decimal, scale: nat)
    requires |a.fracPart| <= scale
    ensures DivideBy(a, "1", scale) == Success(a)
  {
    var one := SmallInteger(1, scale);
    var x := ToNum(a);
    BcDivPow10(x, 0, scale);
    assert Num(x.m, x.e + 0) == x;
    CanonicalUnique(DivideBy(a, "1", scale).value, a, scale);
  }
}
