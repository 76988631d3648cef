/** The parser of src/Decimal.php: match the text against the pattern, canonicalise the
    captures, and, when there is an exponent, scale the canonical mantissa by a power of
    ten with bcmul or bcdiv at the scale and parse bcmath's answer again.

    The static SCALE of the class is the parameter `scale` throughout (200 by default). */
module Parser {
  import opened Outcomes
  import opened Arith
  import opened Digits
  import opened BcMath
  import opened Grammar
  import opened Canonical

  const DefaultScale: nat := 200

  /** The exceptions of the class, and bcmath's own failures. */
  datatype Error =
    | InvalidFormat     // InvalidArgumentException from the parser
    | DivisionByZero    // InvalidArgumentException from divideBy
    | NegativeRadicand  // LogicException from squareRoot
    | NonInteger        // RuntimeException from toInt
    | BcmathError       // bcmath's own ValueError (exponent too large) or DivisionByZeroError

  /** bcpow('10', power): ten to the exponent's digits, an integer (the parser calls it only
      once ExponentFits holds). */
  function TenTo(x: Exponent): Num
    requires ExponentWellFormed(x)
  {
    Num(Pow10(ValueOf(x.power)), 0)
  }

  /** Lines 53-62: bcmul by 10^k, or bcdiv by 10^k when the exponent sign is '-', at the scale. */
  function ApplyExponent(mantissa: Num, x: Exponent, scale: nat): int
    requires ExponentWellFormed(x)
  {
    if x.sign == "-" then BcDiv(mantissa, TenTo(x), scale) else BcMul(mantissa, TenTo(x), scale)
  }

  /** Line 59: bcpow('10', power) accepts the exponent's digits only when their value fits
      a native integer. */
  predicate ExponentFits(m: Match)
    requires WellFormed(m)
  {
    m.exponent.None? || FitsLong(ValueOf(m.exponent.value.power))
  }

  /** The texts parse turns into a decimal: matched by the pattern, with an exponent bcpow
      accepts. */
  predicate Accepts(s: string) {
    Recognise(s).Some? && ExponentFits(Recognise(s).value)
  }

  /** parse($value): the canonical decimal of a text; InvalidFormat when the pattern does not
      match, and bcmath's failure when bcpow refuses the exponent. */
  function Parse(s: string, scale: nat): (r: Result<Decimal, Error>)
    ensures r.Success? <==> Accepts(s)
    ensures r == Failure(InvalidFormat) <==> Recognise(s).None?
    ensures r == Failure(BcmathError) <==> Recognise(s).Some? && !Accepts(s)
    decreases if 'e' in s || 'E' in s then 1 else 0
  {
    match Recognise(s)
    case None => Failure(InvalidFormat)
    case Some(m) =>
      var d: Decimal := Canonicalise(m.minus, m.left, m.right);
      if m.exponent.None? then
        Success(d)
      else if !ExponentFits(m) then
        Failure(BcmathError)
      else
        var q := ApplyExponent(ToNum(d), m.exponent.value, scale);
        ExponentMarkerInText(m);
        FormatRecognised(q, scale);
        Parse(BcFormat(q, scale), scale)
  }

  /** The captures bcmath's answer for q at scale s is read back as. */
  function FormatMatch(q: int, s: nat): Match {
    Match(q < 0, FormatLeft(q, s), FormatRight(q, s), None, false)
  }

  /** bcmath's answer matches the pattern, as itself, and carries no exponent marker. */
  lemma FormatRecognised(q: int, s: nat)
    ensures Recognise(BcFormat(q, s)) == Some(FormatMatch(q, s))
    ensures 'e' !in BcFormat(q, s) && 'E' !in BcFormat(q, s)
  {
    var m := FormatMatch(q, s);
    var left := FormatLeft(q, s);
    var tail := if s == 0 then "" else "." + Width(Abs(q), s);
    assert Render(m) == BcFormat(q, s) by {
      assert BcFormat(q, s) == RenderSign(q < 0) + (left + tail);
      assert RenderAfterFraction(None, false) == [];
      assert RenderTail(m.right, None, false) == tail;
    }
    assert Recognise(Render(m)) == Some(m) by {
      assert WellFormed(m);
      RecogniseComplete(m);
    }
    assert 'e' !in left && 'E' !in left;
    assert 'e' !in tail && 'E' !in tail by {
      if s > 0 {
        var w := Width(Abs(q), s);
        assert 'e' !in w && 'E' !in w;
      }
    }
  }

  /** construct(bcmath's answer): parsing bcmath's text for q gives FromScaled(q, s). */
  lemma ParseFormat(q: int, s: nat)
    ensures IsCanonical(FromScaled(q, s))
    ensures Parse(BcFormat(q, s), s) == Success(FromScaled(q, s))
  {
    FormatRecognised(q, s);
  }

  /** construct(bcmath's answer) succeeds with a canonical decimal that denotes q at scale s. */
  lemma ParseFormatValue(q: int, s: nat)
    ensures Parse(BcFormat(q, s), s).Success?
    ensures var d := Parse(BcFormat(q, s), s).value;
      && d == FromScaled(q, s) && SameValue(ToNum(d), Num(q, s))
      && Trunc(ToNum(d), s) == q && |d.fracPart| <= s
  {
    ParseFormat(q, s);
    FromScaledValue(q, s);
  }

  /** The number an exponent turns a mantissa into: times 10^k, or over 10^k for '-'. */
  function Scaled(x: Num, exponent: Option<Exponent>): Num
    requires exponent.Some? ==> ExponentWellFormed(exponent.value)
  {
    match exponent
    case None => x
    case Some(e) =>
      var k := ValueOf(e.power);
      if e.sign == "-" then Num(x.m, x.e + k) else Num(x.m * Pow10(k), x.e)
  }

  /** The number a matched text denotes. */
  function Denoted(m: Match): Num
    requires WellFormed(m)
  {
    Scaled(TextNum(m.minus, m.left, m.right), m.exponent)
  }

  /** Multiplying or dividing by 10^k at the scale is the scaled number truncated to the
      scale, for any mantissa of the same value. */
  lemma ApplyExponentValue(mantissa: Num, mantissa': Num, x: Exponent, scale: nat)
    requires ExponentWellFormed(x) && SameValue(mantissa, mantissa')
    ensures ApplyExponent(mantissa, x, scale) == Trunc(Scaled(mantissa', Some(x)), scale)
  {
    var ten := TenTo(x);
    if x.sign == "-" {
      BcDivSameValue(mantissa, mantissa', ten, scale);
      BcDivPow10(mantissa', ValueOf(x.power), scale);
    } else {
      ProductSameValue(mantissa, mantissa', ten);
      TruncSameValue(Product(mantissa, ten), Product(mantissa', ten), scale);
    }
  }

  /** What the parser returns. Without an exponent: exactly the number the text denotes,
      with no more fractional digits than the text. With one: that number truncated to the
      scale, with at most `scale` fractional digits. */
  lemma ParseValue(s: string, scale: nat)
    requires Accepts(s)
    ensures var m := Recognise(s).value;
      var d := Parse(s, scale).value;
      && (m.exponent.None? ==> SameValue(ToNum(d), Denoted(m)) && |d.fracPart| <= |FracText(m.right)|)
      && (m.exponent.Some? ==> Trunc(ToNum(d), scale) == Trunc(Denoted(m), scale) && |d.fracPart| <= scale)
  {
    var m := Recognise(s).value;
    var c := Canonicalise(m.minus, m.left, m.right);
    CanonicaliseValue(m.minus, m.left, m.right);
    if m.exponent.Some? {
      var q := ApplyExponent(ToNum(c), m.exponent.value, scale);
      ExponentMarkerInText(m);
      ParseFormat(q, scale);
      FromScaledValue(q, scale);
      ApplyExponentValue(ToNum(c), TextNum(m.minus, m.left, m.right), m.exponent.value, scale);
    }
  }

  /** Parsing the canonical text of a decimal gives the decimal back, at every scale. */
  lemma ParseToString(d: Decimal, scale: nat)
    ensures Parse(ToString(d), scale) == Success(d)
  {
    var m := CanonicalMatch(d);
    CanonicalMatchRenders(d);
    RecogniseComplete(m);
    CanonicaliseCanonical(d);
  }

  /** Canonicalisation is idempotent: parsing the parser's own output changes nothing. */
  lemma ParseIdempotent(s: string, scale: nat)
    requires Parse(s, scale).Success?
    ensures Parse(ToString(Parse(s, scale).value), scale) == Parse(s, scale)
  {
    ParseToString(Parse(s, scale).value, scale);
  }

  /** An accepted text whose digits are all zeros parses to the unsigned "0", whatever its
      sign and exponent: there is no negative zero. */
  lemma ParseZero(s: string, scale: nat)
    requires Accepts(s)
    requires var m := Recognise(s).value; TextNum(m.minus, m.left, m.right).m == 0
    ensures Parse(s, scale) == Success(Zero)
    ensures ToString(Parse(s, scale).value) == "0"
  {
    ParseValue(s, scale);
    ParsedZero(Parse(s, scale).value, Recognise(s).value, scale);
  }

  /** The decimal the parser returns for a match that denotes zero is the canonical zero. */
  lemma ParsedZero(d: Dec, m: Match, scale: nat)
    requires IsCanonical(d) && WellFormed(m) && TextNum(m.minus, m.left, m.right).m == 0
    requires m.exponent.None? ==> SameValue(ToNum(d), Denoted(m))
    requires m.exponent.Some? ==> Trunc(ToNum(d), scale) == Trunc(Denoted(m), scale) && |d.fracPart| <= scale
    ensures d == Zero
  {
    var x := TextNum(m.minus, m.left, m.right);
    if m.exponent.None? {
      ZeroOfSameValue(ToNum(d), x);
    } else {
      var k := ValueOf(m.exponent.value.power);
      ZeroTimes(x.m, Pow10(k));
      ZeroOfTrunc(d, Denoted(m), scale);
    }
    CanonicalSign(d);
  }

  /** Only zero has the value of zero. */
  lemma ZeroOfSameValue(y: Num, x: Num)
    requires SameValue(y, x) && x.m == 0
    ensures y.m == 0
  {
    ZeroTimes(x.m, Pow10(y.e));
    SignOfProduct(y.m, Pow10(x.e));
  }

  /** A canonical decimal within the scale that truncates like zero is zero. */
  lemma ZeroOfTrunc(d: Dec, x: Num, scale: nat)
    requires IsCanonical(d) && |d.fracPart| <= scale
    requires x.m == 0 && Trunc(ToNum(d), scale) == Trunc(x, scale)
    ensures ToNum(d).m == 0
  {
    ZeroTimes(x.m, Pow10(scale));
    TruncBounds(x, scale);
    ZeroFactor(Abs(Trunc(x, scale)), Pow10(x.e));
    TruncOfCanonical(d, scale);
    ZeroFactor(ValueOf(d.intPart + d.fracPart), Pow10(scale - |d.fracPart|));
  }

  /** A product of a natural number and a positive one is zero only when the first is. */
  lemma ZeroFactor(a: nat, p: nat)
    requires p >= 1 && a * p == 0
    ensures a == 0
  {
    MulAtLeast(a, p);
  }

  /** Every parsed decimal is negative exactly when it denotes a negative number. */
  lemma ParseSign(s: string, scale: nat)
    requires Parse(s, scale).Success?
    ensures var d := Parse(s, scale).value;
      && (d.neg <==> ToNum(d).m < 0)
      && (ToString(d) == "0" <==> ToNum(d).m == 0)
  {
    var d := Parse(s, scale).value;
    CanonicalSign(d);
    ZeroText(d);
  }
}
