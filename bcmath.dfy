/** The bcmath primitives the decimal type delegates to (bcadd, bcsub, bcmul, bcdiv,
    bcpow, bcsqrt, bccomp), specified on exact decimal numbers.

    A number is Num(m, e), denoting m / 10^e. bcmath works on sign-and-magnitude
    decimal text and drops every digit beyond `scale` fractional digits, that is, it
    truncates toward zero. A result at scale s is therefore an integer q denoting
    q / 10^s, and BcFormat gives the text bcmath returns for it. */
module BcMath {
  import opened Arith
  import opened Digits

  datatype Num = Num(m: int, e: nat)

  /** The three-way sign, as bccomp reports it. */
  function Sign(x: int): (r: int)
    ensures r in {-1, 0, 1}
    ensures r == -1 <==> x < 0
    ensures r == 1 <==> x > 0
  {
    if x < 0 then -1 else if x == 0 then 0 else 1
  }

  /** x and y denote the same rational number. */
  predicate SameValue(x: Num, y: Num) {
    x.m * Pow10(y.e) == y.m * Pow10(x.e)
  }

  /** a / b truncated toward zero, the division bcmath performs. */
  function TruncDiv(a: int, b: int): (q: int)
    requires b != 0
    ensures Abs(q) * Abs(b) <= Abs(a) < (Abs(q) + 1) * Abs(b)
    ensures q == 0 || (q > 0 <==> (a > 0 <==> b > 0))
  {
    DivBounds(Abs(a), Abs(b));
    var q := Abs(a) / Abs(b);
    if (a < 0) == (b < 0) then q else -q
  }

  /** The bounds of TruncDiv's contract determine its result. */
  lemma TruncDivUnique(a: int, b: int, q: int)
    requires b != 0
    requires Abs(q) * Abs(b) <= Abs(a) < (Abs(q) + 1) * Abs(b)
    requires q == 0 || (q > 0 <==> (a > 0 <==> b > 0))
    ensures q == TruncDiv(a, b)
  {
    MulSucc(Abs(q), Abs(b));
    DivModUnique(Abs(a), Abs(b), Abs(q), Abs(a) - Abs(q) * Abs(b));
  }

  /** Equal fractions a/b and c/d truncate to the same quotient. */
  lemma TruncDivCross(a: int, b: int, c: int, d: int)
    requires b != 0 && d != 0 && a * d == c * b
    ensures TruncDiv(a, b) == TruncDiv(c, d)
  {
    var q := TruncDiv(a, b);
    var aq, ab, ad := Abs(q), Abs(b), Abs(d);
    assert Abs(a) * ad == Abs(c) * ab by {
      AbsMul(a, d);
      AbsMul(c, b);
    }
    // lower bound: aq * ad * ab <= |a| * ad == |c| * ab
    assert aq * ad <= Abs(c) by {
      MulLe(aq * ab, Abs(a), ad);
      MulAssoc(aq, ab, ad);
      MulLeCancel(aq * ad, Abs(c), ab);
    }
    // upper bound: |c| * ab == |a| * ad < (aq + 1) * ab * ad
    assert Abs(c) < (aq + 1) * ad by {
      MulLe(Abs(a) + 1, (aq + 1) * ab, ad);
      MulSucc(Abs(a), ad);
      MulAssoc(aq + 1, ab, ad);
      MulLtCancel(Abs(c), (aq + 1) * ad, ab);
    }
    assert q == 0 || (q > 0 <==> (c > 0 <==> d > 0)) by {
      SignOfProduct(a, d);
      SignOfProduct(c, b);
    }
    TruncDivUnique(c, d, q);
  }

  /** x truncated toward zero to s fractional digits, in units of 10^-s. */
  function Trunc(x: Num, s: nat): int {
    TruncDiv(x.m * Pow10(s), Pow10(x.e))
  }

  /** Truncation is toward zero and loses less than one unit of 10^-s. */
  lemma TruncBounds(x: Num, s: nat)
    ensures Abs(Trunc(x, s)) * Pow10(x.e) <= Abs(x.m) * Pow10(s) < (Abs(Trunc(x, s)) + 1) * Pow10(x.e)
    ensures Trunc(x, s) == 0 || (Trunc(x, s) > 0 <==> x.m > 0)
  {
    AbsMul(x.m, Pow10(s));
    SignOfProduct(x.m, Pow10(s));
  }

  /** A number with at most s fractional digits is not changed by truncating to s digits. */
  lemma TruncExact(x: Num, s: nat)
    requires x.e <= s
    ensures Trunc(x, s) == x.m * Pow10(s - x.e)
  {
    var p, r := Pow10(x.e), Pow10(s - x.e);
    var q := x.m * r;
    Pow10Add(s - x.e, x.e);
    MulAssoc(x.m, r, p);
    assert x.m * Pow10(s) == q * p;
    AbsMul(q, p);
    MulSucc(Abs(q), p);
    SignOfProduct(x.m, r);
    SignOfProduct(q, p);
    TruncDivUnique(x.m * Pow10(s), p, q);
  }

  /** Appending t zeros to the digits and t to the exponent keeps the number. */
  lemma SameValueScaled(a: int, e: nat, t: nat)
    ensures SameValue(Num(a, e), Num(a * Pow10(t), e + t))
  {
    Pow10Add(e, t);
    MulAssoc(a, Pow10(e), Pow10(t));
    MulAssoc(a, Pow10(t), Pow10(e));
  }

  /** A number equal to q / 10^s truncates at scale s to q. */
  lemma TruncOfScaled(x: Num, q: int, s: nat)
    requires SameValue(x, Num(q, s))
    ensures Trunc(x, s) == q
  {
    TruncSameValue(x, Num(q, s), s);
    TruncExact(Num(q, s), s);
  }

  /** A signed magnitude with f fractional digits, at scale s >= f: the magnitude followed
      by s - f zeros, with its sign. */
  lemma TruncOfSigned(neg: bool, mag: nat, f: nat, s: nat)
    requires f <= s && (neg ==> mag > 0)
    ensures var q := Trunc(Num((if neg then -1 else 1) * mag, f), s);
      Abs(q) == mag * Pow10(s - f) && (q < 0 <==> neg)
  {
    var sgn: int := if neg then -1 else 1;
    var t := Pow10(s - f);
    TruncExact(Num(sgn * mag, f), s);
    AbsMul(sgn * mag, t);
    AbsMul(sgn, mag);
    SignOfProduct(sgn, mag);
    SignOfProduct(sgn * mag, t);
  }

  /** Truncation depends only on the number denoted. */
  lemma TruncSameValue(x: Num, y: Num, s: nat)
    requires SameValue(x, y)
    ensures Trunc(x, s) == Trunc(y, s)
  {
    var ps := Pow10(s);
    MulAssoc(x.m, ps, Pow10(y.e));
    MulAssoc(y.m, ps, Pow10(x.e));
    TruncDivCross(x.m * ps, Pow10(x.e), y.m * ps, Pow10(y.e));
  }

  /** Exact sum (bcadd before truncation): both operands aligned to the longer fraction. */
  function Sum(x: Num, y: Num): (r: Num)
    ensures r.m * Pow10(x.e) * Pow10(y.e) == (x.m * Pow10(y.e) + y.m * Pow10(x.e)) * Pow10(r.e)
  {
    if x.e <= y.e then
      AlignedSum(x.m, x.e, y.m, y.e);
      Num(x.m * Pow10(y.e - x.e) + y.m, y.e)
    else
      AlignedSum(y.m, y.e, x.m, x.e);
      Num(y.m * Pow10(x.e - y.e) + x.m, x.e)
  }

  /** a/10^i + b/10^j == (a * 10^(j-i) + b) / 10^j when i <= j, cross-multiplied. */
  lemma AlignedSum(a: int, i: nat, b: int, j: nat)
    requires i <= j
    ensures (a * Pow10(j - i) + b) * Pow10(i) * Pow10(j) == (a * Pow10(j) + b * Pow10(i)) * Pow10(j)
    ensures (a * Pow10(j - i) + b) * Pow10(j) * Pow10(i) == (b * Pow10(i) + a * Pow10(j)) * Pow10(j)
  {
    var pd, pi, pj := Pow10(j - i), Pow10(i), Pow10(j);
    Pow10Add(j - i, i);
    MulAssoc(a, pd, pi);
    assert (a * pd + b) * pi == a * pj + b * pi;
    MulAssoc(a * pd + b, pi, pj);
  }

  /** The exact sum does not depend on the order of its operands. */
  lemma SumCommutes(x: Num, y: Num)
    ensures Sum(x, y) == Sum(y, x)
  {
    if x.e == y.e {
      assert Pow10(0) == 1;
    }
  }

  /** Having the same value is transitive. */
  lemma SameValueTransitive(x: Num, y: Num, z: Num)
    requires SameValue(x, y) && SameValue(y, z)
    ensures SameValue(x, z)
  {
    CrossTransitive(x.m, y.m, z.m, Pow10(x.e), Pow10(y.e), Pow10(z.e));
  }

  /** a/pa == b/pb and b/pb == c/pc give a/pa == c/pc, all cross-multiplied. */
  lemma CrossTransitive(a: int, b: int, c: int, pa: nat, pb: nat, pc: nat)
    requires pb > 0 && a * pb == b * pa && b * pc == c * pb
    ensures a * pc == c * pa
  {
    calc {
      (a * pc) * pb;
      { MulAssoc(a, pc, pb); }
      (a * pb) * pc;
      (b * pa) * pc;
      { MulAssoc(b, pa, pc); }
      (b * pc) * pa;
      (c * pb) * pa;
      { MulAssoc(c, pb, pa); }
      (c * pa) * pb;
    }
    if a * pc < c * pa {
      MulLtScale(a * pc, c * pa, pb);
    } else if a * pc > c * pa {
      MulLtScale(c * pa, a * pc, pb);
    }
  }

  function Negate(x: Num): Num { Num(-x.m, x.e) }

  /** Truncation toward zero commutes with negation. */
  lemma TruncNegate(x: Num, s: nat)
    ensures Trunc(Negate(x), s) == -Trunc(x, s)
  {
    var a := x.m * Pow10(s);
    assert -x.m * Pow10(s) == -a;
    TruncDivNegate(a, Pow10(x.e));
  }

  lemma TruncDivNegate(a: int, b: nat)
    requires b > 0
    ensures TruncDiv(-a, b) == -TruncDiv(a, b)
  {
    assert Abs(-a) == Abs(a);
  }

  /** Exact product (bcmul before truncation). */
  function Product(x: Num, y: Num): Num { Num(x.m * y.m, x.e + y.e) }

  lemma ProductSameValue(x: Num, x': Num, y: Num)
    requires SameValue(x, x')
    ensures SameValue(Product(x, y), Product(x', y))
  {
    Pow10Add(x'.e, y.e);
    Pow10Add(x.e, y.e);
    MulSwap(x.m, y.m, Pow10(x'.e), Pow10(y.e));
    MulSwap(x'.m, y.m, Pow10(x.e), Pow10(y.e));
  }

  /** bcadd(x, y, s), bcsub(x, y, s) and bcmul(x, y, s): the exact result truncated to s digits. */
  function BcAdd(x: Num, y: Num, s: nat): int { Trunc(Sum(x, y), s) }

  function BcSub(x: Num, y: Num, s: nat): int { Trunc(Sum(x, Negate(y)), s) }

  function BcMul(x: Num, y: Num, s: nat): int { Trunc(Product(x, y), s) }

  /** bcdiv(x, y, s): the quotient x / y truncated toward zero to s digits. */
  function BcDiv(x: Num, y: Num, s: nat): (q: int)
    requires y.m != 0
    ensures Abs(q) * Abs(y.m) * Pow10(x.e) <= Abs(x.m) * Pow10(y.e) * Pow10(s)
    ensures Abs(x.m) * Pow10(y.e) * Pow10(s) < (Abs(q) + 1) * Abs(y.m) * Pow10(x.e)
    ensures q == 0 || (q > 0 <==> (x.m > 0 <==> y.m > 0))
  {
    QuotientBounds(x, y, s);
    TruncDiv(x.m * Pow10(y.e + s), y.m * Pow10(x.e))
  }

  lemma QuotientBounds(x: Num, y: Num, s: nat)
    requires y.m != 0
    ensures var q := TruncDiv(x.m * Pow10(y.e + s), y.m * Pow10(x.e));
      && Abs(q) * Abs(y.m) * Pow10(x.e) <= Abs(x.m) * Pow10(y.e) * Pow10(s)
      && Abs(x.m) * Pow10(y.e) * Pow10(s) < (Abs(q) + 1) * Abs(y.m) * Pow10(x.e)
      && (q == 0 || (q > 0 <==> (x.m > 0 <==> y.m > 0)))
  {
    var pe, px := Pow10(y.e), Pow10(x.e);
    Pow10Add(y.e, s);
    AbsMul(x.m, Pow10(y.e + s));
    AbsMul(y.m, px);
    var q := TruncDiv(x.m * Pow10(y.e + s), y.m * px);
    MulAssoc(Abs(q), Abs(y.m), px);
    MulAssoc(Abs(q) + 1, Abs(y.m), px);
    MulAssoc(Abs(x.m), pe, Pow10(s));
    SignOfProduct(x.m, Pow10(y.e + s));
    SignOfProduct(y.m, px);
  }

  lemma BcDivSameValue(x: Num, x': Num, y: Num, s: nat)
    requires y.m != 0 && SameValue(x, x')
    ensures BcDiv(x, y, s) == BcDiv(x', y, s)
  {
    var ps := Pow10(y.e + s);
    var a, b := x.m * ps, y.m * Pow10(x.e);
    var c, d := x'.m * ps, y.m * Pow10(x'.e);
    MulSwap(x.m, ps, y.m, Pow10(x'.e));
    MulSwap(x'.m, ps, y.m, Pow10(x.e));
    MulSwap(x.m, y.m, Pow10(x'.e), ps);
    MulSwap(x'.m, y.m, Pow10(x.e), ps);
    SignOfProduct(y.m, Pow10(x.e));
    SignOfProduct(y.m, Pow10(x'.e));
    TruncDivCross(a, b, c, d);
  }

  /** Dividing by 10^k moves the point k places: it adds k to the exponent. */
  lemma BcDivPow10(x: Num, k: nat, s: nat)
    ensures BcDiv(x, Num(Pow10(k), 0), s) == Trunc(Num(x.m, x.e + k), s)
  {
    var a, b := x.m * Pow10(s), Pow10(k) * Pow10(x.e);
    assert b == Pow10(x.e + k) by {
      Pow10Add(x.e, k);
      MulComm(Pow10(k), Pow10(x.e));
    }
    assert BcDiv(x, Num(Pow10(k), 0), s) == TruncDiv(a, b);
  }

  /** A quotient that divides exactly is found exactly. */
  lemma TruncDivExact(q: int, b: int)
    requires b != 0
    ensures TruncDiv(q * b, b) == q
  {
    AbsMul(q, b);
    MulSucc(Abs(q), Abs(b));
    SignOfProduct(q, b);
    TruncDivUnique(q * b, b, q);
  }

  /** When x / y is exactly c / 10^k, bcdiv at scale s >= k returns it unchanged. */
  lemma ExactQuotient(x: Num, y: Num, c: int, k: nat, s: nat)
    requires y.m != 0 && k <= s
    requires x.m * Pow10(y.e) * Pow10(k) == c * y.m * Pow10(x.e)
    ensures BcDiv(x, y, s) == c * Pow10(s - k)
  {
    var t := Pow10(s - k);
    var b := y.m * Pow10(x.e);
    assert x.m * Pow10(y.e + s) == (c * t) * b by {
      Pow10Add(y.e, s);
      Pow10Add(k, s - k);
      MulAssoc(x.m * Pow10(y.e), Pow10(k), t);
      MulAssoc(x.m, Pow10(y.e), Pow10(s));
      MulAssoc(c * y.m, Pow10(x.e), t);
      MulAssoc(c, y.m, Pow10(x.e));
      MulSwap(c, t, y.m, Pow10(x.e));
      MulAssoc(c, y.m * Pow10(x.e), t);
      MulComm(c * t, b);
    }
    assert SignOfB: b != 0 by {
      SignOfProduct(y.m, Pow10(x.e));
    }
    TruncDivExact(c * t, b);
  }

  /** The product respects equal values in its second operand as well. */
  lemma ProductSameValueRight(x: Num, y: Num, y': Num)
    requires SameValue(y, y')
    ensures SameValue(Product(x, y), Product(x, y'))
  {
    ProductSameValue(y, y', x);
    MulComm(x.m, y.m);
    MulComm(x.m, y'.m);
    assert Product(x, y) == Product(y, x);
    assert Product(x, y') == Product(y', x);
  }

  /** bcdiv respects equal values in its divisor. */
  lemma BcDivSameValueRight(x: Num, y: Num, y': Num, s: nat)
    requires y.m != 0 && y'.m != 0 && SameValue(y, y')
    ensures BcDiv(x, y, s) == BcDiv(x, y', s)
  {
    var xs := x.m * Pow10(s);
    var a, b := x.m * Pow10(y.e + s), y.m * Pow10(x.e);
    var c, d := x.m * Pow10(y'.e + s), y'.m * Pow10(x.e);
    assert a == xs * Pow10(y.e) by {
      Pow10Add(y.e, s);
      MulAssoc(x.m, Pow10(y.e), Pow10(s));
      MulAssoc(x.m, Pow10(s), Pow10(y.e));
    }
    assert c == xs * Pow10(y'.e) by {
      Pow10Add(y'.e, s);
      MulAssoc(x.m, Pow10(y'.e), Pow10(s));
      MulAssoc(x.m, Pow10(s), Pow10(y'.e));
    }
    CrossScaled(xs, Pow10(y.e), Pow10(y'.e), y.m, y'.m, Pow10(x.e));
    SignOfProduct(y.m, Pow10(x.e));
    SignOfProduct(y'.m, Pow10(x.e));
    TruncDivCross(a, b, c, d);
  }

  /** The cross-multiplication behind BcDivSameValueRight. */
  lemma CrossScaled(k: int, p: int, q: int, u: int, v: int, t: int)
    requires u * q == v * p
    ensures (k * p) * (v * t) == (k * q) * (u * t)
  {
    MulSwap(k, p, v, t);
    MulSwap(k, q, u, t);
    MulComm(p, v);
    MulComm(q, u);
  }

  /** Truncating an exact sum of numbers within the scale adds their truncations. */
  lemma TruncSum(x: Num, y: Num, s: nat)
    requires x.e <= s && y.e <= s
    ensures Trunc(Sum(x, y), s) == Trunc(x, s) + Trunc(y, s)
  {
    TruncExact(x, s);
    TruncExact(y, s);
    if x.e <= y.e {
      TruncExact(Sum(x, y), s);
      AlignedTrunc(x.m, y.m, x.e, y.e, s);
    } else {
      TruncExact(Sum(x, y), s);
      AlignedTrunc(y.m, x.m, y.e, x.e, s);
    }
  }

  /** (a * 10^(j-i) + b) * 10^(s-j) == a * 10^(s-i) + b * 10^(s-j). */
  lemma AlignedTrunc(a: int, b: int, i: nat, j: nat, s: nat)
    requires i <= j <= s
    ensures (a * Pow10(j - i) + b) * Pow10(s - j) == a * Pow10(s - i) + b * Pow10(s - j)
  {
    var u, v := Pow10(j - i), Pow10(s - j);
    Pow10Add(j - i, s - j);
    assert u * v == Pow10(s - i);
    FactorOut(a, b, u, v);
    MulAssoc(a, u, v);
  }

  /** PHP_INT_MAX of a 64-bit build. bcpow reads its exponent with bc_num2long, which
      gives up on a magnitude above it, and bcpow then fails. */
  const LongMax: int := 0x7FFF_FFFF_FFFF_FFFF

  /** An exponent bcpow accepts. */
  predicate FitsLong(n: int) { -LongMax <= n <= LongMax }

  function PowInt(b: int, k: nat): int {
    if k == 0 then 1 else b * PowInt(b, k - 1)
  }

  lemma {:induction false} PowIntNonZero(b: int, k: nat)
    requires b != 0
    ensures PowInt(b, k) != 0
  {
    if k > 0 {
      PowIntNonZero(b, k - 1);
      SignOfProduct(b, PowInt(b, k - 1));
    }
  }

  /** x to a non-negative integer power, exactly. */
  function PowNum(x: Num, k: nat): Num { Num(PowInt(x.m, k), x.e * k) }

  /** The law of exponents: x^(a+b) = x^a * x^b, digit for digit. */
  lemma {:induction false} PowNumAdd(x: Num, a: nat, b: nat)
    ensures PowNum(x, a + b) == Product(PowNum(x, a), PowNum(x, b))
  {
    if b > 0 {
      PowNumAdd(x, a, b - 1);
      calc {
        PowInt(x.m, a + b);
        x.m * PowInt(x.m, a + b - 1);
        x.m * (PowInt(x.m, a) * PowInt(x.m, b - 1));
        PowInt(x.m, a) * (x.m * PowInt(x.m, b - 1));
      }
      assert x.e * (a + b) == x.e * a + x.e * b;
    }
  }

  /** bcpow(x, n, s) for an integer exponent n: x^n truncated to s digits; for a negative
      exponent, 1 / x^(-n) truncated to s digits (bcmath fails when x is zero). */
  function BcPow(x: Num, n: int, s: nat): int
    requires n < 0 ==> x.m != 0
  {
    if n >= 0 then
      Trunc(PowNum(x, n), s)
    else
      PowIntNonZero(x.m, -n);
      BcDiv(Num(1, 0), PowNum(x, -n), s)
  }

  /** A negative power of a non-zero number is the reciprocal of the positive power,
      truncated toward zero: with k = -n, the result q in units of 10^-s is the quotient of
      10^(e*k + s) by m^k, rounded toward zero, and carries the sign of m^k. */
  lemma BcPowNegative(x: Num, n: int, s: nat)
    requires n < 0 && x.m != 0
    ensures var k, q := -n, BcPow(x, n, s);
      && PowInt(x.m, k) != 0
      && Abs(q) * Abs(PowInt(x.m, k)) <= Pow10(x.e * k + s)
      && Pow10(x.e * k + s) < (Abs(q) + 1) * Abs(PowInt(x.m, k))
      && (q == 0 || (q > 0 <==> PowInt(x.m, k) > 0))
  {
    var k := -n;
    PowIntNonZero(x.m, k);
    var y := PowNum(x, k);
    var q := BcDiv(Num(1, 0), y, s);
    assert BcPow(x, n, s) == q;
    Pow10Add(y.e, s);
    assert Pow10(0) == 1;
  }

  /** The square is the product of a number with itself. */
  lemma BcPowTwo(x: Num, s: nat)
    ensures BcPow(x, 2, s) == BcMul(x, x, s)
  {
    PowNumAdd(x, 1, 1);
    assert PowInt(x.m, 1) == x.m;
    assert PowNum(x, 1) == x;
  }

  /** The integer square root: the largest r with r * r <= n. */
  function ISqrt(n: nat): (r: nat)
    ensures r * r <= n < (r + 1) * (r + 1)
  {
    if n < 4 then
      if n == 0 then 0 else 1
    else
      var r0 := ISqrt(n / 4);
      ISqrtStep(n, r0);
      var h := 2 * r0;
      if (h + 1) * (h + 1) <= n then h + 1 else h
  }

  /** Doubling the root of n / 4 brackets the root of n within one. */
  lemma ISqrtStep(n: nat, r0: nat)
    requires r0 * r0 <= n / 4 < (r0 + 1) * (r0 + 1)
    ensures (2 * r0) * (2 * r0) <= n < (2 * r0 + 2) * (2 * r0 + 2)
  {
    assert (2 * r0) * (2 * r0) == 4 * (r0 * r0);
    assert (2 * r0 + 2) * (2 * r0 + 2) == 4 * ((r0 + 1) * (r0 + 1));
    DivBounds(n, 4);
  }

  /** bcsqrt(x, s) for x >= 0: the square root truncated to s digits, that is, the largest
      r such that (r / 10^s)^2 <= x. */
  function BcSqrt(x: Num, s: nat): (r: nat)
    requires x.m >= 0
    ensures r * r * Pow10(x.e) <= x.m * Pow10(2 * s)
    ensures x.m * Pow10(2 * s) < (r + 1) * (r + 1) * Pow10(x.e)
  {
    TruncBounds(x, 2 * s);
    var t := Trunc(x, 2 * s);
    assert t >= 0;
    var r := ISqrt(t);
    MulLe(r * r, t, Pow10(x.e));
    MulLe(t + 1, (r + 1) * (r + 1), Pow10(x.e));
    r
  }

  /** bccomp(x, y, s): both operands are first truncated to s digits, then compared. */
  function BcComp(x: Num, y: Num, s: nat): int {
    Sign(Trunc(x, s) - Trunc(y, s))
  }

  /** The text bcmath returns for the result q at scale s: an optional minus sign, the
      integer digits without leading zeros, and, when s > 0, a point and exactly s
      fractional digits. */
  function BcFormat(q: int, s: nat): string {
    DivBounds(Abs(q), Pow10(s));
    (if q < 0 then "-" else "")
    + IntDigits(Abs(q) / Pow10(s))
    + (if s == 0 then "" else "." + Width(Abs(q), s))
  }
}
