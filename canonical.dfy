/** The canonical text every Decimal holds: an optional minus sign, integer digits with
    no superfluous leading zero, and fractional digits with no trailing zero (absent when
    there are none); zero is unsigned. Canonicalise is steps 2 to 5 of the parser. */
module Canonical {
  import opened Outcomes
  import opened Arith
  import opened Digits
  import opened BcMath
  import opened Grammar

  datatype Dec = Dec(neg: bool, intPart: string, fracPart: string)

  predicate IsCanonical(d: Dec) {
    && |d.intPart| >= 1 && AllDigits(d.intPart) && AllDigits(d.fracPart)
    && (d.intPart[0] != '0' || d.intPart == "0")
    && (d.fracPart == [] || d.fracPart[|d.fracPart| - 1] != '0')
    && !(d.neg && d.intPart == "0" && d.fracPart == [])
  }

  const Zero := Dec(false, "0", "")

  /** The value a Decimal holds: always canonical, since only the parser produces it. */
  type Decimal = d: Dec | IsCanonical(d) witness Zero

  /** The canonical text: sign, integer digits, and a point only before a non-empty fraction. */
  function ToString(d: Dec): string {
    RenderSign(d.neg) + (d.intPart + (if d.fracPart == [] then "" else "." + d.fracPart))
  }

  /** The digits of the fraction capture, or none when the capture is absent. */
  function FracText(right: Option<string>): string {
    if right.Some? then right.value else ""
  }

  /** The number a sign, integer digits and fraction digits denote (the exponent aside). */
  function TextNum(minus: bool, left: string, right: Option<string>): Num
    requires AllDigits(left) && AllDigits(FracText(right))
  {
    Num((if minus then -1 else 1) * ValueOf(left + FracText(right)), |FracText(right)|)
  }

  function ToNum(d: Dec): Num
    requires AllDigits(d.intPart) && AllDigits(d.fracPart)
  {
    TextNum(d.neg, d.intPart, Some(d.fracPart))
  }

  /** Lines 29-46 of the parser: strip leading zeros from the integer part ("0" if nothing
      is left), strip trailing zeros from the fraction, and drop the sign of a zero. */
  function Canonicalise(minus: bool, left: string, right: Option<string>): (d: Dec)
    requires AllDigits(left) && AllDigits(FracText(right))
    ensures IsCanonical(d)
    ensures |d.fracPart| <= |FracText(right)|
  {
    var l := TrimLeadingZeros(left);
    var leftPart := if |l| > 0 then l else "0";
    var rightPart := if right.Some? then TrimTrailingZeros(right.value) else "";
    var neg := if leftPart == "0" && rightPart == "" then false else minus;
    TrimmedDigits(left);
    TrimmedDigits(FracText(right));
    Dec(neg, leftPart, rightPart)
  }

  /** Canonicalisation keeps the number the text denotes. */
  lemma CanonicaliseValue(minus: bool, left: string, right: Option<string>)
    requires AllDigits(left) && AllDigits(FracText(right))
    ensures SameValue(ToNum(Canonicalise(minus, left, right)), TextNum(minus, left, right))
  {
    var d := Canonicalise(minus, left, right);
    var r := FracText(right);
    TrimLeadingZerosValue(left);
    TrimTrailingZerosValue(r);
    assert d.fracPart == TrimTrailingZeros(r) by {
      if right.None? {
        assert r == [];
      }
    }
    assert ValueOf("0") == 0 by {
      assert "0"[..0] == [];
    }
    ShiftedValue(left, d.intPart, r, d.fracPart);
    var w := ValueOf(d.intPart + d.fracPart);
    assert d.neg != minus ==> w == 0 by {
      if d.neg != minus {
        assert d.intPart + d.fracPart == "0";
      }
    }
    SignedShift(ValueOf(left + r), w, minus, d.neg, |r|, |d.fracPart|);
  }

  /** The arithmetic of CanonicaliseValue: a value and the same value with n - k more
      digits, each with its sign, cross-multiplied. */
  lemma SignedShift(v: int, w: int, minus: bool, neg: bool, n: nat, k: nat)
    requires k <= n && v == w * Pow10(n - k) && (neg != minus ==> w == 0)
    ensures ((if neg then -1 else 1) * w) * Pow10(n) == ((if minus then -1 else 1) * v) * Pow10(k)
  {
    var sgn: int := if minus then -1 else 1;
    Pow10Add(k, n - k);
    if w != 0 {
      MulAssoc(sgn * w, Pow10(k), Pow10(n - k));
      MulAssoc(sgn, w, Pow10(n - k));
    }
  }

  /** Reading integer and fraction digits together, before and after trimming. */
  lemma ShiftedValue(left: string, leftPart: string, r: string, rightPart: string)
    requires AllDigits(left) && AllDigits(leftPart) && AllDigits(r) && AllDigits(rightPart)
    requires ValueOf(left) == ValueOf(leftPart) && |rightPart| <= |r|
    requires ValueOf(r) == ValueOf(rightPart) * Pow10(|r| - |rightPart|)
    ensures AllDigits(left + r) && AllDigits(leftPart + rightPart)
    ensures ValueOf(left + r) == ValueOf(leftPart + rightPart) * Pow10(|r| - |rightPart|)
  {
    ValueOfAppend(left, r);
    ValueOfAppend(leftPart, rightPart);
    ShiftedInts(ValueOf(left + r), ValueOf(left), ValueOf(leftPart), ValueOf(r), ValueOf(rightPart),
      ValueOf(leftPart + rightPart), |r|, |rightPart|);
  }

  /** The arithmetic of ShiftedValue, on the values alone. */
  lemma ShiftedInts(v: int, a: int, a': int, c: int, b: int, w: int, n: nat, k: nat)
    requires k <= n && a == a'
    requires v == a * Pow10(n) + c && c == b * Pow10(n - k) && w == a' * Pow10(k) + b
    ensures v == w * Pow10(n - k)
  {
    Pow10Add(k, n - k);
    Regroup(v, a, Pow10(n), c, w, a', b, Pow10(k), Pow10(n - k));
  }

  /** The canonical result for a bcmath result q at scale s: what the parser makes of
      BcFormat(q, s). */
  function FromScaled(q: int, s: nat): (d: Dec)
    ensures IsCanonical(d)
  {
    Canonicalise(q < 0, FormatLeft(q, s), FormatRight(q, s))
  }

  /** The integer digits bcmath writes for q at scale s. */
  function FormatLeft(q: int, s: nat): string {
    DivBounds(Abs(q), Pow10(s));
    IntDigits(Abs(q) / Pow10(s))
  }

  /** The fraction digits bcmath writes for q at scale s: exactly s of them, none at scale 0. */
  function FormatRight(q: int, s: nat): Option<string> {
    if s == 0 then None else Some(Width(Abs(q), s))
  }

  /** The digits of bcmath's output text read as q at scale s. */
  lemma FormatTextValue(q: int, s: nat)
    ensures TextNum(q < 0, FormatLeft(q, s), FormatRight(q, s)) == Num(q, s)
  {
    var p := Pow10(s);
    DivBounds(Abs(q), p);
    var hi := FormatLeft(q, s);
    var lo := FracText(FormatRight(q, s));
    var whole, part := Abs(q) / p, Abs(q) % p;
    assert ValueOf(hi) == whole;
    assert |lo| == s && ValueOf(lo) == part by {
      if s == 0 {
        assert lo == [];
      }
    }
    ValueOfAppend(hi, lo);
    assert ValueOf(hi + lo) == whole * p + part;
    assert ValueOf(hi + lo) == Abs(q);
    assert (if q < 0 then -1 else 1) * Abs(q) == q;
  }

  /** The canonical result denotes q / 10^s exactly and has at most s fractional digits. */
  lemma FromScaledValue(q: int, s: nat)
    ensures IsCanonical(FromScaled(q, s))
    ensures |FromScaled(q, s).fracPart| <= s
    ensures Trunc(ToNum(FromScaled(q, s)), s) == q
    ensures SameValue(ToNum(FromScaled(q, s)), Num(q, s))
  {
    FormatTextValue(q, s);
    CanonicaliseValue(q < 0, FormatLeft(q, s), FormatRight(q, s));
    TruncOfScaled(ToNum(FromScaled(q, s)), q, s);
  }

  /** Only the canonical zero denotes zero. */
  lemma ZeroCanonical(d: Dec)
    requires IsCanonical(d) && ToNum(d).m == 0
    ensures d == Zero
  {
    ValueOfAppend(d.intPart, d.fracPart);
    MulAtLeast(ValueOf(d.intPart), Pow10(|d.fracPart|));
    ValueOfZeroIsZeros(d.intPart);
    ValueOfZeroIsZeros(d.fracPart);
  }

  /** A canonical text is "0" exactly when it denotes zero. */
  lemma ZeroText(d: Dec)
    requires IsCanonical(d)
    ensures ToString(d) == "0" <==> ToNum(d).m == 0
  {
    var tail := if d.fracPart == [] then "" else "." + d.fracPart;
    assert ToString(d) == RenderSign(d.neg) + (d.intPart + tail);
    if ToNum(d).m == 0 {
      ZeroCanonical(d);
    }
    if ToString(d) == "0" {
      assert |RenderSign(d.neg)| + |d.intPart| + |tail| == 1;
      assert d.intPart == "0" && d.fracPart == [];
      assert d.intPart + d.fracPart == "0";
      assert ValueOf("0") == 0 by {
        assert "0"[..0] == [];
      }
    }
  }

  /** The match the parser makes of a canonical text. */
  function CanonicalMatch(d: Dec): Match {
    Match(d.neg, d.intPart, if d.fracPart == [] then None else Some(d.fracPart), None, false)
  }

  lemma CanonicalMatchRenders(d: Dec)
    requires IsCanonical(d)
    ensures WellFormed(CanonicalMatch(d)) && Render(CanonicalMatch(d)) == ToString(d)
  {
    var m := CanonicalMatch(d);
    assert RenderAfterFraction(None, false) == [];
    assert RenderTail(m.right, None, false) == (if d.fracPart == [] then "" else "." + d.fracPart);
  }

  /** Canonicalising the parts of a canonical text changes nothing. */
  lemma CanonicaliseCanonical(d: Dec)
    requires IsCanonical(d)
    ensures Canonicalise(d.neg, d.intPart, CanonicalMatch(d).right) == d
  {
    var right := CanonicalMatch(d).right;
    LeadingCanonical(d.intPart);
    TrailingCanonical(d.fracPart);
    assert (if right.Some? then TrimTrailingZeros(right.value) else "") == d.fracPart;
  }

  /** Integer digits without a superfluous leading zero survive ltrim and the "0" default. */
  lemma LeadingCanonical(s: string)
    requires |s| >= 1 && (s[0] != '0' || s == "0")
    ensures var l := TrimLeadingZeros(s); (if |l| > 0 then l else "0") == s
  {
    if s == "0" {
      assert TrimLeadingZeros(s) == TrimLeadingZeros(s[1..]);
      assert s[1..] == [];
    }
  }

  /** Fraction digits without a trailing zero survive rtrim. */
  lemma TrailingCanonical(s: string)
    requires s == [] || s[|s| - 1] != '0'
    ensures TrimTrailingZeros(s) == s
  {
  }

  /** The scaled integer of a canonical decimal with at most s fractional digits: its
      integer part above 10^s and its fraction, padded, below. */
  lemma ScaledOfCanonical(d: Dec, s: nat)
    requires IsCanonical(d) && |d.fracPart| <= s
    ensures var q := Trunc(ToNum(d), s);
      var pad := d.fracPart + Zeros(s - |d.fracPart|);
      && AllDigits(pad) && |pad| == s
      && Abs(q) / Pow10(s) == ValueOf(d.intPart)
      && Abs(q) % Pow10(s) == ValueOf(pad)
      && (q < 0 <==> d.neg)
  {
    TruncOfCanonical(d, s);
    ValueOfAppend(d.intPart, d.fracPart);
    PaddedValue(d.fracPart, s);
    ValueOfBound(d.fracPart);
    ScaledInts(Trunc(ToNum(d), s), ValueOf(d.intPart + d.fracPart), ValueOf(d.intPart),
      ValueOf(d.fracPart), |d.fracPart|, s);
  }

  /** The arithmetic of ScaledOfCanonical: hi * 10^f + lo, shifted by s - f digits, splits
      at 10^s into hi and lo * 10^(s - f). */
  lemma ScaledInts(q: int, mag: nat, hi: nat, lo: nat, f: nat, s: nat)
    requires f <= s && lo < Pow10(f) && mag == hi * Pow10(f) + lo
    requires Abs(q) == mag * Pow10(s - f)
    ensures Abs(q) / Pow10(s) == hi && Abs(q) % Pow10(s) == lo * Pow10(s - f)
  {
    Pow10Add(f, s - f);
    SplitScaled(hi, lo, Pow10(f), Pow10(s - f));
  }

  /** The scaled integer of a canonical decimal with at most s fractional digits: its
      digits followed by zeros, with its sign. */
  lemma TruncOfCanonical(d: Dec, s: nat)
    requires IsCanonical(d) && |d.fracPart| <= s
    ensures var q := Trunc(ToNum(d), s);
      && Abs(q) == ValueOf(d.intPart + d.fracPart) * Pow10(s - |d.fracPart|)
      && (q < 0 <==> d.neg)
  {
    var mag := ValueOf(d.intPart + d.fracPart);
    if mag == 0 {
      ZeroCanonical(d);
    }
    TruncOfSigned(d.neg, mag, |d.fracPart|, s);
  }

  /** A fraction padded with zeros to s digits reads as the fraction times 10^(s - |frac|). */
  lemma PaddedValue(frac: string, s: nat)
    requires AllDigits(frac) && |frac| <= s
    ensures var pad := frac + Zeros(s - |frac|);
      AllDigits(pad) && |pad| == s && ValueOf(pad) == ValueOf(frac) * Pow10(s - |frac|)
  {
    ValueOfZeros(s - |frac|);
    ValueOfAppend(frac, Zeros(s - |frac|));
  }

  /** Going from a canonical text to its value at scale s and back gives the same text. */
  lemma FromScaledOfCanonical(d: Dec, s: nat)
    requires IsCanonical(d) && |d.fracPart| <= s
    ensures FromScaled(Trunc(ToNum(d), s), s) == d
  {
    var q := Trunc(ToNum(d), s);
    var pad := d.fracPart + Zeros(s - |d.fracPart|);
    ScaledOfCanonical(d, s);
    IntDigitsOfValue(d.intPart);
    assert FormatLeft(q, s) == d.intPart;
    if s > 0 {
      SameWidthSameValue(Width(Abs(q), s), pad);
      TrimTrailingZerosPadded(d.fracPart, s - |d.fracPart|);
    }
    CanonicaliseCanonical(d);
    CanonicalisePadded(d, FormatRight(q, s));
  }

  /** Padding the fraction of a canonical decimal with zeros does not change what
      Canonicalise makes of it. */
  lemma CanonicalisePadded(d: Dec, right: Option<string>)
    requires IsCanonical(d)
    requires AllDigits(FracText(right))
    requires right.Some? ==> TrimTrailingZeros(right.value) == d.fracPart
    requires right.None? ==> d.fracPart == []
    ensures Canonicalise(d.neg, d.intPart, right) == Canonicalise(d.neg, d.intPart, CanonicalMatch(d).right)
  {
    if d.fracPart == [] {
      assert TrimTrailingZeros([]) == [];
    }
  }

  /** Two canonical decimals with at most s fractional digits and the same value at scale s
      are the same decimal. */
  lemma CanonicalUnique(a: Dec, b: Dec, s: nat)
    requires IsCanonical(a) && IsCanonical(b)
    requires |a.fracPart| <= s && |b.fracPart| <= s
    requires Trunc(ToNum(a), s) == Trunc(ToNum(b), s)
    ensures a == b
  {
    FromScaledOfCanonical(a, s);
    FromScaledOfCanonical(b, s);
  }

  /** A canonical decimal is negative exactly when it denotes a negative number, and it is
      the canonical zero exactly when it denotes zero: there is no negative zero. */
  lemma CanonicalSign(d: Dec)
    requires IsCanonical(d)
    ensures d.neg <==> ToNum(d).m < 0
    ensures d == Zero <==> ToNum(d).m == 0
  {
    var mag := ValueOf(d.intPart + d.fracPart);
    if mag == 0 {
      ZeroCanonical(d);
    }
    if d == Zero {
      assert d.intPart + d.fracPart == "0";
      assert ValueOf("0") == 0 by {
        assert "0"[..0] == [];
      }
    }
  }
}
