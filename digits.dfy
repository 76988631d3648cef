/** Decimal digit strings: reading and writing them, powers of ten, and the two
    zero-trimming steps (`ltrim` and `rtrim` with '0') that canonicalisation uses. */
module Digits {
  import opened Arith

  predicate IsDigit(c: char) { '0' <= c <= '9' }

  predicate AllDigits(s: string) { forall i :: 0 <= i < |s| ==> IsDigit(s[i]) }

  /** A run of '0' characters of the given length. */
  function Zeros(n: nat): (z: string)
    ensures |z| == n && forall i :: 0 <= i < n ==> z[i] == '0'
  {
    seq(n, _ => '0')
  }

  function DigitValue(c: char): (d: nat)
    requires IsDigit(c)
    ensures d < 10
  {
    c as int - '0' as int
  }

  function DigitChar(d: nat): (c: char)
    requires d < 10
    ensures IsDigit(c) && DigitValue(c) == d
  {
    ('0' as int + d) as char
  }

  function Pow10(n: nat): (p: nat)
    ensures p >= 1
  {
    if n == 0 then 1 else 10 * Pow10(n - 1)
  }

  lemma {:induction false} Pow10Add(a: nat, b: nat)
    ensures Pow10(a + b) == Pow10(a) * Pow10(b)
  {
    if b > 0 {
      Pow10Add(a, b - 1);
      calc {
        Pow10(a + b);
        10 * Pow10(a + b - 1);
        10 * (Pow10(a) * Pow10(b - 1));
        Pow10(a) * (10 * Pow10(b - 1));
      }
    }
  }

  lemma Pow10Monotone(a: nat, b: nat)
    requires a <= b
    ensures Pow10(a) <= Pow10(b)
  {
    Pow10Add(a, b - a);
    MulAtLeast(Pow10(a), Pow10(b - a));
  }

  /** Value of a digit string read in base 10, most significant digit first. */
  function ValueOf(s: string): nat
    requires AllDigits(s)
  {
    if s == [] then 0 else 10 * ValueOf(s[..|s| - 1]) + DigitValue(s[|s| - 1])
  }

  /** A single digit reads as its own value. */
  lemma ValueOfDigit(c: char)
    requires IsDigit(c)
    ensures ValueOf([c]) == DigitValue(c)
  {
    assert [c][..0] == [];
  }

  lemma {:induction false} ValueOfBound(s: string)
    requires AllDigits(s)
    ensures ValueOf(s) < Pow10(|s|)
  {
    if s != [] {
      ValueOfBound(s[..|s| - 1]);
    }
  }

  /** Reading a concatenation: the left part is shifted by the length of the right part. */
  lemma {:induction false} ValueOfAppend(a: string, b: string)
    requires AllDigits(a) && AllDigits(b)
    ensures AllDigits(a + b)
    ensures ValueOf(a + b) == ValueOf(a) * Pow10(|b|) + ValueOf(b)
  {
    if b == [] {
      assert a + b == a;
    } else {
      var b' := b[..|b| - 1];
      var ab := a + b;
      assert AllDigits(ab);
      assert ab[..|ab| - 1] == a + b';
      assert ab[|ab| - 1] == b[|b| - 1];
      ValueOfAppend(a, b');
      var va, p, vb, d := ValueOf(a), Pow10(|b'|), ValueOf(b'), DigitValue(b[|b| - 1]);
      assert ValueOf(ab) == 10 * ValueOf(a + b') + d;
      assert ValueOf(a + b') == va * p + vb;
      assert Pow10(|b|) == 10 * p;
      MulAssoc(va, 10, p);
      assert ValueOf(b) == 10 * vb + d;
    }
  }

  lemma {:induction false} ValueOfZeros(n: nat)
    ensures AllDigits(Zeros(n)) && ValueOf(Zeros(n)) == 0
  {
    if n > 0 {
      assert Zeros(n)[..n - 1] == Zeros(n - 1);
      ValueOfZeros(n - 1);
    }
  }

  /** Only a text of zeros reads as zero. */
  lemma {:induction false} ValueOfZeroIsZeros(s: string)
    requires AllDigits(s) && ValueOf(s) == 0
    ensures forall i :: 0 <= i < |s| ==> s[i] == '0'
  {
    if s != [] {
      var t := s[..|s| - 1];
      ValueOfZeroIsZeros(t);
      forall i | 0 <= i < |s|
        ensures s[i] == '0'
      {
        if i < |s| - 1 {
          assert s[i] == t[i];
        }
      }
    }
  }

  /** The shortest decimal text of n: "0" for zero, otherwise without a leading zero. */
  function IntDigits(n: nat): (s: string)
    ensures AllDigits(s) && |s| >= 1
    ensures s[0] == '0' <==> n == 0
    ensures s == "0" <==> n == 0
    ensures ValueOf(s) == n
  {
    if n < 10 then
      [DigitChar(n)]
    else
      var t := IntDigits(n / 10);
      assert (t + [DigitChar(n % 10)])[..|t|] == t;
      t + [DigitChar(n % 10)]
  }

  /** The last k decimal digits of n, padded with leading zeros to exactly k characters. */
  function Width(n: nat, k: nat): (s: string)
    ensures |s| == k && AllDigits(s)
    ensures ValueOf(s) == n % Pow10(k)
  {
    if k == 0 then
      []
    else
      var t := Width(n / 10, k - 1);
      assert (t + [DigitChar(n % 10)])[..|t|] == t;
      ModSplit(n, 10, Pow10(k - 1));
      t + [DigitChar(n % 10)]
  }

  /** The only text without a superfluous leading zero that reads as ValueOf(s) is s itself. */
  lemma {:induction false} IntDigitsOfValue(s: string)
    requires AllDigits(s) && |s| >= 1 && (s[0] != '0' || s == "0")
    ensures IntDigits(ValueOf(s)) == s
  {
    var n := ValueOf(s);
    if |s| == 1 {
      assert s[..0] == [];
      assert ValueOf(s[..0]) == 0;
      assert n == DigitValue(s[0]);
      assert IntDigits(n) == [DigitChar(n)];
    } else {
      var t := s[..|s| - 1];
      var d := DigitValue(s[|s| - 1]);
      assert t[0] == s[0];
      IntDigitsOfValue(t);
      ValueOfAppend([s[0]], t[1..]);
      assert [s[0]] + t[1..] == t;
      assert [s[0]][..0] == [];
      MulAtLeast(DigitValue(s[0]), Pow10(|t| - 1));
      assert ValueOf(t) >= 1;
      DivModUnique(n, 10, ValueOf(t), d);
      assert DigitChar(d) == s[|s| - 1];
      assert IntDigits(n) == IntDigits(ValueOf(t)) + [DigitChar(d)];
      assert t + [s[|s| - 1]] == s;
    }
  }

  /** Reading a fixed-width text and writing it back at the same width gives it back. */
  lemma {:induction false} WidthOfValue(s: string)
    requires AllDigits(s)
    ensures Width(ValueOf(s), |s|) == s
  {
    if s != [] {
      var t := s[..|s| - 1];
      var d := DigitValue(s[|s| - 1]);
      WidthOfValue(t);
      DivModUnique(ValueOf(s), 10, ValueOf(t), d);
      assert DigitChar(d) == s[|s| - 1];
      assert t + [s[|s| - 1]] == s;
    }
  }

  /** Two digit texts of the same length that read the same are the same text. */
  lemma SameWidthSameValue(a: string, b: string)
    requires AllDigits(a) && AllDigits(b) && |a| == |b| && ValueOf(a) == ValueOf(b)
    ensures a == b
  {
    WidthOfValue(a);
    WidthOfValue(b);
  }

  /** PHP's ltrim($s, '0'). */
  function TrimLeadingZeros(s: string): (r: string)
    ensures |r| <= |s|
    ensures r == [] || r[0] != '0'
  {
    if |s| > 0 && s[0] == '0' then TrimLeadingZeros(s[1..]) else s
  }

  /** PHP's rtrim($s, '0'). */
  function TrimTrailingZeros(s: string): (r: string)
    ensures |r| <= |s|
    ensures r == [] || r[|r| - 1] != '0'
  {
    if |s| > 0 && s[|s| - 1] == '0' then TrimTrailingZeros(s[..|s| - 1]) else s
  }

  /** ltrim removes exactly the leading zeros: what it keeps is a suffix, what it drops is zeros. */
  lemma {:induction false} TrimLeadingZerosShape(s: string)
    ensures var r := TrimLeadingZeros(s);
      && r == s[|s| - |r|..]
      && forall i :: 0 <= i < |s| - |r| ==> s[i] == '0'
  {
    if |s| > 0 && s[0] == '0' {
      TrimLeadingZerosShape(s[1..]);
      var r := TrimLeadingZeros(s);
      forall i | 0 <= i < |s| - |r|
        ensures s[i] == '0'
      {
        if i > 0 {
          assert s[i] == s[1..][i - 1];
        }
      }
    }
  }

  /** rtrim removes exactly the trailing zeros: what it keeps is a prefix, what it drops is zeros. */
  lemma {:induction false} TrimTrailingZerosShape(s: string)
    ensures var r := TrimTrailingZeros(s);
      && r == s[..|r|]
      && forall i :: |r| <= i < |s| ==> s[i] == '0'
  {
    if |s| > 0 && s[|s| - 1] == '0' {
      var t := s[..|s| - 1];
      TrimTrailingZerosShape(t);
      var r := TrimTrailingZeros(s);
      forall i | |r| <= i < |s|
        ensures s[i] == '0'
      {
        if i < |s| - 1 {
          assert s[i] == t[i];
        }
      }
    }
  }

  /** Leading zeros do not change the value read. */
  lemma TrimLeadingZerosValue(s: string)
    requires AllDigits(s)
    ensures AllDigits(TrimLeadingZeros(s))
    ensures ValueOf(TrimLeadingZeros(s)) == ValueOf(s)
  {
    var r := TrimLeadingZeros(s);
    var k := |s| - |r|;
    TrimLeadingZerosShape(s);
    var z := s[..k];
    assert s == z + r;
    assert z == Zeros(k);
    assert AllDigits(r);
    ValueOfZeros(k);
    ValueOfAppend(z, r);
    ZeroTimes(ValueOf(z), Pow10(|r|));
  }

  /** Dropping t trailing zeros divides the value read by 10^t. */
  lemma TrimTrailingZerosValue(s: string)
    requires AllDigits(s)
    ensures AllDigits(TrimTrailingZeros(s))
    ensures ValueOf(s) == ValueOf(TrimTrailingZeros(s)) * Pow10(|s| - |TrimTrailingZeros(s)|)
  {
    var r := TrimTrailingZeros(s);
    var k := |s| - |r|;
    TrimTrailingZerosShape(s);
    assert s == r + s[|r|..];
    assert s[|r|..] == Zeros(k);
    ValueOfZeros(k);
    ValueOfAppend(r, s[|r|..]);
  }

  /** The trimmed texts of digit texts are digit texts. */
  lemma TrimmedDigits(s: string)
    requires AllDigits(s)
    ensures AllDigits(TrimLeadingZeros(s)) && AllDigits(TrimTrailingZeros(s))
  {
    TrimLeadingZerosShape(s);
    TrimTrailingZerosShape(s);
    var l := TrimLeadingZeros(s);
    forall i | 0 <= i < |l|
      ensures IsDigit(l[i])
    {
      assert l[i] == s[|s| - |l| + i];
    }
  }

  /** A text that already ends in a non-zero digit, followed by zeros, trims back to itself. */
  lemma {:induction false} TrimTrailingZerosPadded(s: string, k: nat)
    requires s == [] || s[|s| - 1] != '0'
    ensures TrimTrailingZeros(s + Zeros(k)) == s
  {
    if k > 0 {
      var t := s + Zeros(k - 1);
      TrimTrailingZerosPadded(s, k - 1);
      assert TrimTrailingZeros(t + "0") == s by {
        assert (t + "0")[..|t|] == t;
      }
      assert s + Zeros(k) == t + "0" by {
        assert Zeros(k) == Zeros(k - 1) + "0";
      }
    } else {
      assert s + Zeros(0) == s;
    }
  }

}
