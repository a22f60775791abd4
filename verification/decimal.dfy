/**
 * The numeric conversion behind `float(value)` and `int(float(value))`,
 * restricted to plain decimal literals `[+|-] digits [. digits]` (either side
 * of the point may be empty, not both). Values are exact reals: binary
 * floating-point rounding is not modelled.
 */
module Decimal {
  import opened Options
  import Text

  datatype Sign = Unsigned | Plus | Minus

  /** A decimal literal split into its parts: `-12.70` is `Literal(Minus, "12", true, "70")`. */
  datatype Literal = Literal(sign: Sign, whole: string, point: bool, fraction: string)

  predicate IsDigit(c: char)
  {
    '0' <= c <= '9'
  }

  predicate AllDigits(s: string)
  {
    forall i :: 0 <= i < |s| ==> IsDigit(s[i])
  }

  /** The literals `float()` accepts in this model: digits on at least one side of an optional point. */
  predicate WellFormed(l: Literal)
  {
    && AllDigits(l.whole)
    && AllDigits(l.fraction)
    && (l.point || l.fraction == "")
    && |l.whole| + |l.fraction| > 0
  }

  function SignText(s: Sign): string
  {
    match s
    case Unsigned => ""
    case Plus => "+"
    case Minus => "-"
  }

  /** The text of a literal. */
  function Render(l: Literal): string
  {
    SignText(l.sign) + l.whole + (if l.point then "." + l.fraction else "")
  }

  /** The sign a literal's text starts with. */
  function SignOf(s: string): Sign
  {
    if |s| > 0 && s[0] == '+' then Plus else if |s| > 0 && s[0] == '-' then Minus else Unsigned
  }

  /** The text after the sign. */
  function AfterSign(s: string): string
  {
    if SignOf(s) == Unsigned then s else s[1..]
  }

  /** Reads the unsigned part of a literal. */
  function LexDigits(sign: Sign, body: string): (r: Option<Literal>)
    ensures r.Some? ==> WellFormed(r.value) && r.value.sign == sign && Digits(r.value) == body
  {
    var k := Text.IndexOf(body, '.');
    if k == |body| then
      if |body| > 0 && AllDigits(body) then Some(Literal(sign, body, false, "")) else None
    else
      var whole, fraction := body[..k], body[k + 1..];
      assert body == whole + "." + fraction;
      if AllDigits(whole) && AllDigits(fraction) && |whole| + |fraction| > 0
      then Some(Literal(sign, whole, true, fraction))
      else None
  }

  /** Reads a literal, or `None` where `float()` raises `ValueError`. */
  function Lex(s: string): (r: Option<Literal>)
    ensures r.Some? ==> WellFormed(r.value) && Render(r.value) == s
  {
    SignSplit(s);
    LexDigits(SignOf(s), AfterSign(s))
  }

  /** The sign and the text after it make up the whole text. */
  lemma SignSplit(s: string)
    ensures SignText(SignOf(s)) + AfterSign(s) == s
  {
    if SignOf(s) != Unsigned {
      assert s == [s[0]] + s[1..];
    }
  }

  /** A rendered literal starts with the text of its sign, followed by its digits. */
  lemma RenderSplit(l: Literal)
    ensures Render(l) == SignText(l.sign) + Digits(l)
  {
  }

  /** The text after the sign of a rendered literal. */
  function Digits(l: Literal): string
  {
    l.whole + (if l.point then "." + l.fraction else "")
  }

  lemma LexUnsigned(l: Literal)
    requires WellFormed(l)
    ensures var body := Digits(l);
      && |body| > 0 && body[0] != '+' && body[0] != '-'
      && (l.point ==> Text.IndexOf(body, '.') == |l.whole| && body[..|l.whole|] == l.whole && body[|l.whole| + 1..] == l.fraction)
      && (!l.point ==> Text.IndexOf(body, '.') == |body| && body == l.whole)
  {
    var body := Digits(l);
    if l.point {
      Text.IndexOfDelimited(l.whole, '.', l.fraction);
      assert body == l.whole + ['.'] + l.fraction;
      assert body[..|l.whole|] == l.whole;
      assert body[|l.whole| + 1..] == l.fraction;
      if |l.whole| > 0 {
        assert body[0] == l.whole[0];
      }
    } else {
      assert forall i :: 0 <= i < |body| ==> body[i] != '.';
    }
  }

  /** A rendered literal's sign is read back, and what follows it is its digits. */
  lemma SignOfRender(l: Literal)
    requires WellFormed(l)
    ensures SignOf(Render(l)) == l.sign && AfterSign(Render(l)) == Digits(l)
  {
    var body := Digits(l);
    LexUnsigned(l);
    RenderSplit(l);
    if l.sign != Unsigned {
      assert Render(l)[1..] == body;
    }
  }

  /** The digits of a well-formed literal are read back as that literal. */
  lemma LexDigitsRender(l: Literal)
    requires WellFormed(l)
    ensures LexDigits(l.sign, Digits(l)) == Some(l)
  {
    LexUnsigned(l);
  }

  /** Reading the text of a well-formed literal gives the literal back. */
  lemma LexRender(l: Literal)
    requires WellFormed(l)
    ensures Lex(Render(l)) == Some(l)
  {
    SignOfRender(l);
    LexDigitsRender(l);
  }

  function Pow10(n: nat): (r: nat)
    ensures r >= 1
  {
    if n == 0 then 1 else 10 * Pow10(n - 1)
  }

  /** The number a digit string denotes; it has fewer digits than `10^|s|` can hold. */
  function DigitsValue(s: string): (r: nat)
    requires AllDigits(s)
    ensures r < Pow10(|s|)
  {
    if |s| == 0 then 0
    else 10 * DigitsValue(s[..|s| - 1]) + (s[|s| - 1] as int - '0' as int)
  }

  lemma QuotientBelowOne(d: real, p: real)
    requires 0.0 <= d < p
    ensures 0.0 <= d / p < 1.0
  {
    var q := d / p;
    assert q * p == d;
  }

  /** The fractional digits contribute less than one. */
  function FractionValue(s: string): (r: real)
    requires AllDigits(s)
    ensures 0.0 <= r < 1.0
  {
    var d, p := DigitsValue(s) as real, Pow10(|s|) as real;
    QuotientBelowOne(d, p);
    d / p
  }

  /** The exact number a well-formed literal denotes. */
  function ValueOf(l: Literal): real
    requires WellFormed(l)
  {
    var magnitude := DigitsValue(l.whole) as real + FractionValue(l.fraction);
    if l.sign == Minus then -magnitude else magnitude
  }

  /** The literal's whole-number part with its sign: what `int(float(text))` keeps. */
  function WholePart(l: Literal): int
    requires WellFormed(l)
  {
    var w: int := DigitsValue(l.whole);
    if l.sign == Minus then -w else w
  }

  /** Python's `float(s)` on the decimal grammar: `None` where it raises `ValueError`. */
  function ParseReal(s: string): (r: Option<real>)
    ensures r.Some? <==> Lex(s).Some?
  {
    match Lex(s)
    case None => None
    case Some(l) => Some(ValueOf(l))
  }

  /** Python's `int(x)` on a float: truncation toward zero. */
  function Truncate(x: real): (r: int)
    ensures x >= 0.0 ==> r as real <= x < r as real + 1.0
    ensures x < 0.0 ==> r as real - 1.0 < x <= r as real
  {
    if x >= 0.0 then x.Floor else -((-x).Floor)
  }

  /** Truncating a literal's value keeps exactly its signed whole-number part. */
  lemma TruncateIsWholePart(l: Literal)
    requires WellFormed(l)
    ensures Truncate(ValueOf(l)) == WholePart(l)
  {
    var w := DigitsValue(l.whole);
    var f := FractionValue(l.fraction);
    var t := Truncate(ValueOf(l));
    if l.sign == Minus {
      if f == 0.0 {
        assert ValueOf(l) == -(w as real);
      } else {
        assert -(w as real) - 1.0 < ValueOf(l) < -(w as real);
      }
    } else {
      assert w as real <= ValueOf(l) < w as real + 1.0;
    }
  }

}
