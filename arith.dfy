/** Small facts of integer arithmetic, each stated on plain integers so that the solver
    meets products one at a time. */
module Arith {

  function Abs(x: int): nat { if x < 0 then -x else x }

  lemma AbsMul(a: int, b: int)
    ensures Abs(a * b) == Abs(a) * Abs(b)
  {
    if a < 0 && b >= 0 {
      assert a * b == -((-a) * b);
    } else if a >= 0 && b < 0 {
      assert a * b == -(a * (-b));
    } else if a < 0 && b < 0 {
      assert a * b == (-a) * (-b);
    }
  }

  lemma ZeroTimes(x: int, y: int)
    requires x == 0
    ensures x * y == 0
  {
  }

  lemma MulAtLeast(x: nat, y: nat)
    requires y >= 1
    ensures x * y >= x
  {
  }

  lemma MulLe(a: int, b: int, c: nat)
    requires a <= b
    ensures a * c <= b * c
  {
    assert b * c - a * c == (b - a) * c;
  }

  lemma MulLeCancel(a: int, b: int, c: nat)
    requires c > 0 && a * c <= b * c
    ensures a <= b
  {
    if a > b {
      MulLe(b + 1, a, c);
    }
  }

  lemma MulLtCancel(a: int, b: int, c: nat)
    requires c > 0 && a * c < b * c
    ensures a < b
  {
    if a >= b {
      MulLe(b, a, c);
    }
  }

  lemma MulComm(a: int, b: int)
    ensures a * b == b * a
  {
  }

  lemma MulSucc(x: int, y: int)
    ensures (x + 1) * y == x * y + y
  {
  }

  lemma MulAssoc(a: int, b: int, c: int)
    ensures a * (b * c) == (a * b) * c
    ensures a * b * c == a * c * b
  {
  }

  lemma MulSwap(a: int, b: int, c: int, d: int)
    ensures (a * b) * (c * d) == (a * c) * (b * d)
  {
    MulAssoc(a, b, c * d);
    MulAssoc(b, c, d);
    MulAssoc(c, b, d);
    MulAssoc(a, c, b * d);
  }

  /** The sign of a product. */
  lemma SignOfProduct(a: int, b: int)
    ensures a * b == 0 <==> (a == 0 || b == 0)
    ensures a * b > 0 <==> (a > 0 && b > 0) || (a < 0 && b < 0)
  {
    AbsMul(a, b);
    if a != 0 && b != 0 {
      MulAtLeast(Abs(a), Abs(b));
    }
    if a > 0 && b < 0 {
      assert a * b == -(a * (-b));
    } else if a < 0 && b > 0 {
      assert a * b == -((-a) * b);
    } else if a < 0 && b < 0 {
      assert a * b == (-a) * (-b);
    }
  }

  /** Division and remainder are determined by the defining equation. */
  lemma DivModUnique(n: int, d: int, q: int, r: int)
    requires d > 0 && 0 <= r < d && n == d * q + r
    ensures n / d == q && n % d == r
  {
    var q0, r0 := n / d, n % d;
    assert d * q - d * q0 == r0 - r;
    assert d * (q - q0) == r0 - r;
    if q > q0 {
      MulAtLeast(d, q - q0);
    } else if q < q0 {
      MulAtLeast(d, q0 - q);
    }
  }

  lemma DivBounds(n: nat, d: nat)
    requires d > 0
    ensures n / d >= 0
    ensures (n / d) * d <= n < (n / d + 1) * d
    ensures n == (n / d) * d + n % d && 0 <= n % d < d
  {
    MulSucc(n / d, d);
  }

  /** n mod (a * b) splits into its last-a part and the next-b part. */
  lemma ModSplit(n: nat, a: nat, b: nat)
    requires a > 0 && b > 0
    ensures n / (a * b) == (n / a) / b
    ensures n % (a * b) == a * ((n / a) % b) + n % a
  {
    var q1, r1 := n / a, n % a;
    var q2, r2 := q1 / b, q1 % b;
    assert q1 == b * q2 + r2;
    assert n == a * q1 + r1;
    assert a * q1 == a * (b * q2) + a * r2;
    MulAssoc(a, b, q2);
    assert n == (a * b) * q2 + (a * r2 + r1);
    MulLe(r2, b - 1, a);
    assert a * r2 + r1 < a * b;
    DivModUnique(n, a * b, q2, a * r2 + r1);
  }

  /** A common factor t taken out of a sum. */
  lemma FactorOut(a: int, b: int, p: int, t: int)
    ensures a * (p * t) + b * t == (a * p + b) * t
  {
    MulAssoc(a, p, t);
  }

  /** Regrouping a*x + c as (a*p + b)*t once x = p*t and c = b*t. */
  lemma Regroup(v: int, a: int, x: int, c: int, w: int, a': int, b: int, p: int, t: int)
    requires v == a * x + c && x == p * t && c == b * t
    requires a == a' && w == a' * p + b
    ensures v == w * t
  {
    FactorOut(a, b, p, t);
  }

  /** Scaling both sides of a strict bound by a positive factor. */
  lemma MulLtScale(v: int, p: int, t: nat)
    requires v < p && t >= 1
    ensures v * t < p * t
  {
    MulLe(v + 1, p, t);
    MulSucc(v, t);
  }

  /** A number written as an upper part times p plus a lower part below p, and scaled by
      t, splits at p * t into the same two parts. */
  lemma SplitScaled(hi: nat, lo: nat, p: nat, t: nat)
    requires lo < p && t >= 1
    ensures (hi * p + lo) * t / (p * t) == hi
    ensures (hi * p + lo) * t % (p * t) == lo * t
  {
    FactorOut(hi, lo, p, t);
    MulLtScale(lo, p, t);
    DivModUnique((hi * p + lo) * t, p * t, hi, lo * t);
  }
}
