/** The text the parser accepts, the anchored pattern

      ^(?<minus>-?)(?<leftPart>\d+)(\.(?<rightPart>\d+))?([eE](?<exponentSign>[-+])?(?<exponentPower>\d+))?$

    written out as a recogniser that returns the named captures. As in PCRE without the
    D modifier, `$` also matches just before one final "\n", so a single trailing newline
    is accepted and belongs to no capture. `\d` is an ASCII digit. */
module Grammar {
  import opened Outcomes
  import opened Digits

  /** The exponent group: its marker ('e' or 'E'), its sign ("", "+" or "-") and its digits. */
  datatype Exponent = Exponent(marker: char, sign: string, power: string)

  /** The captures of a successful match, and whether `$` matched before a final "\n". */
  datatype Match = Match(minus: bool, left: string, right: Option<string>, exponent: Option<Exponent>, newline: bool)

  predicate ExponentWellFormed(x: Exponent) {
    && (x.marker == 'e' || x.marker == 'E')
    && (x.sign == "" || x.sign == "+" || x.sign == "-")
    && |x.power| >= 1 && AllDigits(x.power)
  }

  predicate WellFormed(m: Match) {
    && |m.left| >= 1 && AllDigits(m.left)
    && (m.right.Some? ==> |m.right.value| >= 1 && AllDigits(m.right.value))
    && (m.exponent.Some? ==> ExponentWellFormed(m.exponent.value))
  }

  function RenderExponent(exponent: Option<Exponent>): string {
    match exponent
    case None => ""
    case Some(x) => [x.marker] + x.sign + x.power
  }

  function RenderEnd(newline: bool): string {
    if newline then "\n" else ""
  }

  function RenderSign(minus: bool): string {
    if minus then "-" else ""
  }

  /** The text after the fraction: the exponent, then a newline if `$` matched before one. */
  function RenderAfterFraction(exponent: Option<Exponent>, newline: bool): string {
    RenderExponent(exponent) + RenderEnd(newline)
  }

  /** The text after the integer part. */
  function RenderTail(right: Option<string>, exponent: Option<Exponent>, newline: bool): string {
    match right
    case None => RenderAfterFraction(exponent, newline)
    case Some(r) => "." + (r + RenderAfterFraction(exponent, newline))
  }

  /** The text a match was made from. */
  function Render(m: Match): string {
    RenderSign(m.minus) + (m.left + RenderTail(m.right, m.exponent, m.newline))
  }

  /** Length of the longest run of digits at the start of s. */
  function DigitRun(s: string): (n: nat)
    ensures n <= |s| && AllDigits(s[..n])
    ensures n < |s| ==> !IsDigit(s[n])
  {
    if |s| > 0 && IsDigit(s[0]) then
      var n := DigitRun(s[1..]);
      assert s[..n + 1] == [s[0]] + s[1..][..n];
      n + 1
    else
      0
  }

  /** The anchor `$`: the end of the text, or just before a final "\n". */
  function End(r: string): (res: Option<bool>)
    ensures res.Some? ==> RenderEnd(res.value) == r
  {
    if r == [] then Some(false) else if r == "\n" then Some(true) else None
  }

  /** `([eE]([-+])?(\d+))?$` on what follows the integer and fraction parts. */
  function ExponentTail(r: string): (res: Option<(Option<Exponent>, bool)>)
    ensures res.Some? ==> var (x, nl) := res.value;
      && (x.Some? ==> ExponentWellFormed(x.value))
      && RenderAfterFraction(x, nl) == r
  {
    if |r| > 0 && (r[0] == 'e' || r[0] == 'E') then
      var signLength := if |r| > 1 && (r[1] == '+' || r[1] == '-') then 1 else 0;
      var rest := r[1 + signLength..];
      var n := DigitRun(rest);
      if n == 0 then
        None
      else
        match End(rest[n..])
        case None => None
        case Some(nl) =>
          var x := Exponent(r[0], r[1..1 + signLength], rest[..n]);
          ExponentSplit(r, signLength, n);
          Some((Some(x), nl))
    else
      match End(r)
      case None => None
      case Some(nl) => Some((None, nl))
  }

  /** r cut after its first character, after k more, and after n more. */
  lemma ExponentSplit(r: string, k: nat, n: nat)
    requires 1 + k + n <= |r|
    ensures r == ([r[0]] + r[1..1 + k] + r[1 + k..][..n]) + r[1 + k..][n..]
  {
    var rest := r[1 + k..];
    assert rest[..n] + rest[n..] == rest;
    assert r == [r[0]] + r[1..1 + k] + rest;
  }

  /** `(\.(\d+))?` followed by the exponent and the anchor. */
  function FractionTail(u: string): (res: Option<(Option<string>, Option<Exponent>, bool)>)
    ensures res.Some? ==>
      && (res.value.0.Some? ==> |res.value.0.value| >= 1 && AllDigits(res.value.0.value))
      && (res.value.1.Some? ==> ExponentWellFormed(res.value.1.value))
      && RenderTail(res.value.0, res.value.1, res.value.2) == u
  {
    if |u| > 0 && u[0] == '.' then
      var k := DigitRun(u[1..]);
      if k == 0 then
        None
      else
        var after := ExponentTail(u[1..][k..]);
        if after.None? then
          None
        else
          PointSplit(u, k);
          Some((Some(u[1..][..k]), after.value.0, after.value.1))
    else
      var after := ExponentTail(u);
      if after.None? then None else Some((None, after.value.0, after.value.1))
  }

  lemma PointSplit(u: string, k: nat)
    requires |u| > 0 && u[0] == '.' && k <= |u| - 1
    ensures u == "." + (u[1..][..k] + u[1..][k..])
  {
    assert u[1..] == u[1..][..k] + u[1..][k..];
  }

  /** preg_match against the pattern: the captures when the whole text matches. */
  function Recognise(s: string): (r: Option<Match>)
    ensures r.Some? ==> WellFormed(r.value) && Render(r.value) == s
  {
    var minus := |s| > 0 && s[0] == '-';
    var t := if minus then s[1..] else s;
    var n := DigitRun(t);
    if n == 0 then
      None
    else
      var tail := FractionTail(t[n..]);
      if tail.None? then
        None
      else
        var m := Match(minus, t[..n], tail.value.0, tail.value.1, tail.value.2);
        RecogniseAssembles(s, minus, t, n, m);
        Some(m)
  }

  /** The pieces Recognise finds put back together give the text it was given. */
  lemma RecogniseAssembles(s: string, minus: bool, t: string, n: nat, m: Match)
    requires minus == (|s| > 0 && s[0] == '-') && t == (if minus then s[1..] else s)
    requires 1 <= n <= |t| && m.minus == minus && m.left == t[..n] && AllDigits(m.left)
    requires m.right.Some? ==> |m.right.value| >= 1 && AllDigits(m.right.value)
    requires m.exponent.Some? ==> ExponentWellFormed(m.exponent.value)
    requires RenderTail(m.right, m.exponent, m.newline) == t[n..]
    ensures WellFormed(m) && Render(m) == s
  {
    assert t == t[..n] + t[n..];
    assert s == RenderSign(minus) + t;
  }

  lemma DigitRunOf(a: string, b: string)
    requires AllDigits(a) && (b == [] || !IsDigit(b[0]))
    ensures DigitRun(a + b) == |a|
  {
    if a != [] {
      assert (a + b)[1..] == a[1..] + b;
      DigitRunOf(a[1..], b);
    } else {
      assert a + b == b;
    }
  }

  lemma ExponentTailComplete(x: Option<Exponent>, nl: bool)
    requires x.Some? ==> ExponentWellFormed(x.value)
    ensures ExponentTail(RenderAfterFraction(x, nl)) == Some((x, nl))
  {
    if x.Some? {
      var e := x.value;
      var r := RenderAfterFraction(x, nl);
      var rest := e.power + RenderEnd(nl);
      var n := |e.power|;
      assert |r| > 1 && r[0] == e.marker && r[1..1 + |e.sign|] == e.sign by {
        ExponentPieces(e, nl);
      }
      assert (if r[1] == '+' || r[1] == '-' then 1 else 0) == |e.sign| && r[1 + |e.sign|..] == rest by {
        ExponentPieces(e, nl);
      }
      assert DigitRun(rest) == n by {
        DigitRunOf(e.power, RenderEnd(nl));
      }
      assert rest[..n] == e.power && End(rest[n..]) == Some(nl) by {
        assert rest[n..] == RenderEnd(nl);
      }
    } else {
      assert RenderAfterFraction(x, nl) == RenderEnd(nl);
    }
  }

  /** How a rendered exponent group splits into marker, sign and the rest. */
  lemma ExponentPieces(e: Exponent, nl: bool)
    requires ExponentWellFormed(e)
    ensures var r := RenderAfterFraction(Some(e), nl);
      && |r| > 1 && r[0] == e.marker
      && (if r[1] == '+' || r[1] == '-' then 1 else 0) == |e.sign|
      && r[1..1 + |e.sign|] == e.sign
      && r[1 + |e.sign|..] == e.power + RenderEnd(nl)
  {
    var rest := e.power + RenderEnd(nl);
    assert RenderAfterFraction(Some(e), nl) == [e.marker] + (e.sign + rest);
    assert IsDigit(rest[0]);
    SignedPieces(e.marker, e.sign, rest);
  }

  lemma SignedPieces(c: char, sign: string, rest: string)
    requires sign == "" || sign == "+" || sign == "-"
    requires |rest| >= 1 && IsDigit(rest[0])
    ensures var r := [c] + (sign + rest);
      && |r| > 1 && r[0] == c
      && (if r[1] == '+' || r[1] == '-' then 1 else 0) == |sign|
      && r[1..1 + |sign|] == sign
      && r[1 + |sign|..] == rest
  {
    var r := [c] + (sign + rest);
    if sign == "" {
      assert r[1] == rest[0];
    } else {
      assert r[1] == sign[0];
    }
    assert r[1..] == sign + rest;
  }

  /** What follows a digit run in a rendered text never starts with a digit, and what
      follows the fraction never starts with a point. */
  lemma TailStartsWithNonDigit(right: Option<string>, x: Option<Exponent>, nl: bool)
    requires x.Some? ==> ExponentWellFormed(x.value)
    ensures var u := RenderTail(right, x, nl); u == [] || !IsDigit(u[0])
    ensures var v := RenderAfterFraction(x, nl); v == [] || (!IsDigit(v[0]) && v[0] != '.')
  {
    var v := RenderAfterFraction(x, nl);
    if x.Some? {
      ExponentPieces(x.value, nl);
    } else {
      assert v == RenderEnd(nl);
    }
    if right.Some? {
      assert RenderTail(right, x, nl) == "." + (right.value + v);
    } else {
      assert RenderTail(right, x, nl) == v;
    }
  }

  lemma FractionTailComplete(right: Option<string>, x: Option<Exponent>, nl: bool)
    requires right.Some? ==> |right.value| >= 1 && AllDigits(right.value)
    requires x.Some? ==> ExponentWellFormed(x.value)
    ensures FractionTail(RenderTail(right, x, nl)) == Some((right, x, nl))
  {
    var tail := RenderAfterFraction(x, nl);
    ExponentTailComplete(x, nl);
    TailStartsWithNonDigit(right, x, nl);
    if right.Some? {
      FractionTailWithFraction(right.value, tail, x, nl);
    } else {
      FractionTailWithout(tail, x, nl);
    }
  }

  /** A tail that does not start with a point has no fraction. */
  lemma FractionTailWithout(tail: string, x: Option<Exponent>, nl: bool)
    requires tail == [] || tail[0] != '.'
    requires ExponentTail(tail) == Some((x, nl))
    ensures FractionTail(tail) == Some((None, x, nl))
  {
  }

  /** A point, a digit run and a tail that starts with no digit: the run is the fraction. */
  lemma FractionTailWithFraction(r: string, tail: string, x: Option<Exponent>, nl: bool)
    requires |r| >= 1 && AllDigits(r) && (tail == [] || !IsDigit(tail[0]))
    requires ExponentTail(tail) == Some((x, nl))
    ensures FractionTail("." + (r + tail)) == Some((Some(r), x, nl))
  {
    var u := "." + (r + tail);
    assert u[1..] == r + tail;
    DigitRunOf(r, tail);
    assert u[1..][..|r|] == r;
    assert u[1..][|r|..] == tail;
  }

  /** Every well-formed match is found again, unchanged, in the text it renders to. */
  lemma RecogniseComplete(m: Match)
    requires WellFormed(m)
    ensures Recognise(Render(m)) == Some(m)
  {
    var u := RenderTail(m.right, m.exponent, m.newline);
    FractionTailComplete(m.right, m.exponent, m.newline);
    TailStartsWithNonDigit(m.right, m.exponent, m.newline);
    SignPieces(m.minus, m.left, u);
  }

  /** A sign, a digit run and a tail that starts with no digit: how Recognise splits them. */
  lemma SignPieces(minus: bool, left: string, u: string)
    requires |left| >= 1 && AllDigits(left) && (u == [] || !IsDigit(u[0]))
    ensures var s := RenderSign(minus) + (left + u);
      var t := left + u;
      && minus == (|s| > 0 && s[0] == '-')
      && t == (if minus then s[1..] else s)
      && DigitRun(t) == |left| && t[..|left|] == left && t[|left|..] == u
  {
    var s := RenderSign(minus) + (left + u);
    var t := left + u;
    assert IsDigit(left[0]) && t[0] == left[0];
    if minus {
      assert s == "-" + t;
    } else {
      assert s == t;
    }
    DigitRunOf(left, u);
  }

  /** The parser accepts exactly the texts of the grammar. */
  lemma RecogniseExactly(s: string)
    ensures Recognise(s).Some? <==> exists m :: WellFormed(m) && Render(m) == s
  {
    if exists m :: WellFormed(m) && Render(m) == s {
      var m :| WellFormed(m) && Render(m) == s;
      RecogniseComplete(m);
    }
  }

  /** A rendered exponent leaves its marker in the text. */
  lemma ExponentMarkerInText(m: Match)
    requires WellFormed(m) && m.exponent.Some?
    ensures 'e' in Render(m) || 'E' in Render(m)
  {
    var x := m.exponent.value;
    var after := RenderAfterFraction(m.exponent, m.newline);
    ExponentPieces(x, m.newline);
    assert x.marker in after;
    var tail := RenderTail(m.right, m.exponent, m.newline);
    if m.right.Some? {
      InSuffix(m.right.value, after, x.marker);
      InSuffix(".", m.right.value + after, x.marker);
    }
    InSuffix(m.left, tail, x.marker);
    InSuffix(RenderSign(m.minus), m.left + tail, x.marker);
  }

  lemma InSuffix(a: string, b: string, c: char)
    requires c in b
    ensures c in a + b
  {
    var i :| 0 <= i < |b| && b[i] == c;
    assert (a + b)[|a| + i] == c;
  }
}
