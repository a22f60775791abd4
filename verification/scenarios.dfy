/**
 * Worked examples of decoding: single tokens with decimal commas and the
 * `@gcd` integer marker, a section response with a failed read, and a
 * response whose token count does not match the section.
 */
module Scenarios {
  import opened Options
  import Text
  import Decimal
  import opened Decoder
  import opened DecoderProperties

  /** An unsigned literal with one fractional digit is its whole number plus that digit in tenths. */
  lemma OneDecimal(l: Decimal.Literal)
    requires Decimal.WellFormed(l) && l.sign == Decimal.Unsigned && |l.fraction| == 1
    ensures Decimal.ValueOf(l) == Decimal.DigitsValue(l.whole) as real + (l.fraction[0] as int - '0' as int) as real / 10.0
  {
    assert l.fraction[..0] == [];
    assert Decimal.DigitsValue(l.fraction) == l.fraction[0] as int - '0' as int;
    assert Decimal.Pow10(1) == 10;
  }

  /** The digits `21` denote twenty-one. */
  lemma TwentyOne()
    ensures Decimal.DigitsValue("21") == 21
  {
    assert "21"[..1] == "2" && "2"[..0] == "";
  }

  /** Text that renders a well-formed literal reads as that literal's value. */
  lemma ReadsAs(s: string, l: Decimal.Literal)
    requires Decimal.WellFormed(l) && Decimal.Render(l) == s
    ensures Decimal.ParseReal(s) == Some(Decimal.ValueOf(l))
  {
    Decimal.LexRender(l);
  }

  /** `21.d` is the literal twenty-one and `d` tenths. */
  lemma TwentyOnePoint(d: char)
    requires Decimal.IsDigit(d)
    ensures var l := Decimal.Literal(Decimal.Unsigned, "21", true, [d]);
      && Decimal.WellFormed(l)
      && Decimal.Render(l) == "21." + [d]
      && Decimal.ValueOf(l) == 21.0 + (d as int - '0' as int) as real / 10.0
  {
    var l := Decimal.Literal(Decimal.Unsigned, "21", true, [d]);
    OneDecimal(l);
    TwentyOne();
  }

  /** `21.5` reads as twenty-one and a half. */
  lemma TwentyOneAndAHalf(s: string)
    requires s == "21.5"
    ensures Decimal.ParseReal(s) == Some(21.5)
  {
    TwentyOnePoint('5');
    assert "21." + ['5'] == s;
    ReadsAs(s, Decimal.Literal(Decimal.Unsigned, "21", true, ['5']));
  }

  /** An unmarked token that reads as `x` decodes to the float `x`. */
  lemma PlainDecode(raw: string, fragment: string, x: real)
    requires !Text.Contains(fragment, IntegerMarker)
    requires !IsSentinel(raw) && Decimal.ParseReal(Normalize(Text.Trim(raw))) == Some(x)
    ensures DecodeToken(raw, fragment) == Some(Float(x))
  {
  }

  /** The fragment `q1` carries no `@gcd` marker. */
  lemma UnmarkedFragment()
    ensures !Text.Contains("q1", IntegerMarker)
  {
  }

  /** A token written with a decimal point decodes to that float. */
  lemma DecimalPointToken()
    ensures DecodeToken("21.5", "q1") == Some(Float(21.5))
  {
    Text.StripUnchanged("21.5", Text.Whitespace);
    assert Normalize("21.5") == "21.5";
    TwentyOneAndAHalf("21.5");
    UnmarkedFragment();
    PlainDecode("21.5", "q1", 21.5);
  }

  /** The same token written with a decimal comma decodes to the same float. */
  lemma DecimalCommaToken()
    ensures DecodeToken("21,5", "q1") == Some(Float(21.5))
  {
    Text.StripUnchanged("21,5", Text.Whitespace);
    assert Normalize("21,5") == "21.5";
    TwentyOneAndAHalf("21.5");
    UnmarkedFragment();
    PlainDecode("21,5", "q1", 21.5);
  }

  /** The fragment `q2@gcd` carries the `@gcd` marker. */
  lemma MarkedFragment()
    ensures Text.Contains("q2@gcd", IntegerMarker)
  {
    assert Text.OccursAt("q2@gcd", IntegerMarker, 2);
  }

  /** `12.7` and `-12.7` read as literals whose whole parts are 12 and -12. */
  lemma TwelvePointSeven(sign: Decimal.Sign)
    requires sign != Decimal.Plus
    ensures var l := Decimal.Literal(sign, "12", true, "7");
      && Decimal.Lex(Decimal.SignText(sign) + "12.7") == Some(l)
      && Decimal.WholePart(l) == if sign == Decimal.Minus then -12 else 12
  {
    var l := Decimal.Literal(sign, "12", true, "7");
    Decimal.LexRender(l);
    assert Decimal.Render(l) == Decimal.SignText(sign) + "12.7";
    assert Decimal.DigitsValue("12") == 12;
  }

  /** A marked token that reads as literal `l` decodes to `l`'s whole part. */
  lemma MarkedDecode(raw: string, fragment: string, l: Decimal.Literal)
    requires Text.Contains(fragment, IntegerMarker)
    requires !IsSentinel(raw) && Decimal.Lex(Normalize(Text.Trim(raw))) == Some(l)
    ensures DecodeToken(raw, fragment) == Some(Int(Decimal.WholePart(l)))
  {
  }

  /** With the `@gcd` marker in the fragment the value is truncated to its whole part. */
  lemma IntegerMarkerToken()
    ensures DecodeToken("12.7", "q2@gcd") == Some(Int(12))
  {
    var l := Decimal.Literal(Decimal.Unsigned, "12", true, "7");
    assert !IsSentinel("12.7") && Decimal.Lex(Normalize(Text.Trim("12.7"))) == Some(l) && Decimal.WholePart(l) == 12 by {
      Text.NumeralNotWhitespace('1');
      Text.NumeralNotWhitespace('7');
      Text.StripUnchanged("12.7", Text.Whitespace);
      assert Normalize("12.7") == "12.7";
      TwelvePointSeven(Decimal.Unsigned);
      assert Decimal.SignText(Decimal.Unsigned) + "12.7" == "12.7";
    }
    MarkedFragment();
    MarkedDecode("12.7", "q2@gcd", l);
  }

  /** Truncation goes toward zero for negative values too. */
  lemma NegativeIntegerMarkerToken()
    ensures DecodeToken("-12.7", "q2@gcd") == Some(Int(-12))
  {
    var l := Decimal.Literal(Decimal.Minus, "12", true, "7");
    assert !IsSentinel("-12.7") && Decimal.Lex(Normalize(Text.Trim("-12.7"))) == Some(l) && Decimal.WholePart(l) == -12 by {
      Text.NumeralNotWhitespace('-');
      Text.NumeralNotWhitespace('7');
      Text.StripUnchanged("-12.7", Text.Whitespace);
      assert Normalize("-12.7") == "-12.7";
      TwelvePointSeven(Decimal.Minus);
      assert Decimal.SignText(Decimal.Minus) + "12.7" == "-12.7";
    }
    MarkedFragment();
    MarkedDecode("-12.7", "q2@gcd", l);
  }

  /** The read-failure sentinel is recognised with surrounding whitespace and yields no value. */
  lemma PaddedSentinelToken()
    ensures IsSentinel(" er ")
    ensures DecodeToken(" er ", "q1") == None
  {
    assert " er "[0] == ' ' && " er "[1..] == "er ";
    assert "er "[2] == ' ' && "er "[..2] == "er";
    assert Text.StripLeft("er ", Text.Whitespace) == "er ";
    assert Text.StripLeft(" er ", Text.Whitespace) == "er ";
    assert Text.StripRight("er ", Text.Whitespace) == "er";
  }

  /** `21.3` reads as twenty-one point three. */
  lemma TwentyOnePointThree(s: string)
    requires s == "21.3"
    ensures Decimal.ParseReal(s) == Some(21.3)
  {
    TwentyOnePoint('3');
    assert "21." + ['3'] == s;
    ReadsAs(s, Decimal.Literal(Decimal.Unsigned, "21", true, ['3']));
  }

  /** `21,3` decodes to the float 21.3 under an unmarked fragment. */
  lemma CommaToken()
    ensures DecodeToken("21,3", "q1") == Some(Float(21.3))
  {
    Text.StripUnchanged("21,3", Text.Whitespace);
    assert Normalize("21,3") == "21.3";
    TwentyOnePointThree("21.3");
    UnmarkedFragment();
    PlainDecode("21,3", "q1", 21.3);
  }

  /** The bare sentinel yields no value. */
  lemma SentinelToken()
    ensures IsSentinel("er") && DecodeToken("er", "q2@gcd") == None
  {
    Text.StripUnchanged("er", Text.Whitespace);
  }

  /** The response of a two-variable section is cut into its two positional tokens. */
  lemma TwoTokens()
    ensures Tokens("`21,3`er`") == ["21,3", "er"]
  {
    var values := ["21,3", "er"];
    assert Text.Join(values, Delimiter) == "21,3`er";
    assert Encode(values) == "`21,3`er`";
    assert Delimiter !in values[0] && Delimiter !in values[1];
    TokensDecodeEncode(values);
  }

  /** Once the token count matches, `ParseResponse` is the decoding loop with an empty mapping turned into `None`. */
  lemma MatchedResponse(c: Counters, text: string, vs: seq<Variable>)
    requires DistinctNames(vs) && Declared(vs, c)
    requires |Tokens(text)| == |vs|
    ensures var d := DecodeAll(c, vs, Tokens(text));
      ParseResponse(c, text, vs) == Parsed(if d.data == map[] then None else Some(d.data), d.counters)
  {
  }

  /** Decoding two tokens of which only the first gives a value. */
  lemma FirstOfTwo(c: Counters, a: Variable, b: Variable, t0: string, t1: string, v: Number)
    requires a.name != b.name && a.name in c && b.name in c
    requires DecodeToken(t0, a.fragment) == Some(v)
    requires DecodeToken(t1, b.fragment) == None
    ensures var d := DecodeAll(c, [a, b], [t0, t1]);
      && d.data == map[a.name := v]
      && d.counters == c[a.name := 0][b.name := NextCount(c[b.name], t1)]
  {
    var vs, tokens := [a, b], [t0, t1];
    assert vs[..1] == [a] && tokens[..1] == [t0];
    assert [a][..0] == [] && [t0][..0] == [];
    DecodeStep(c, [a], [t0]);
    DecodeStep(c, vs, tokens);
  }

  /** Resetting `t1` and bumping `t2` from all-zero counters. */
  lemma StartingCounters()
    ensures var c: Counters := map["t1" := 0, "t2" := 0];
      c["t1" := 0]["t2" := 1] == map["t1" := 0, "t2" := 1]
  {
  }

  /** The decoding loop on the section's two tokens. */
  lemma PartialDecode(c: Counters, vs: seq<Variable>, tokens: seq<string>)
    requires c == map["t1" := 0, "t2" := 0]
    requires vs == [Variable("t1", "q1"), Variable("t2", "q2@gcd")] && tokens == ["21,3", "er"]
    ensures DecodeAll(c, vs, tokens) == Decoding(map["t1" := Float(21.3)], map["t1" := 0, "t2" := 1])
  {
    assert vs[0].name != vs[1].name by {
      assert vs[0].name[1] != vs[1].name[1];
    }
    assert DecodeToken(tokens[0], vs[0].fragment) == Some(Float(21.3)) by {
      CommaToken();
    }
    assert DecodeToken(tokens[1], vs[1].fragment) == None && NextCount(0, tokens[1]) == 1 by {
      SentinelToken();
    }
    FirstOfTwo(c, vs[0], vs[1], tokens[0], tokens[1], Float(21.3));
    StartingCounters();
  }

  /** The example section has distinct names, each with a counter. */
  lemma TwoVariables(c: Counters, vs: seq<Variable>)
    requires c == map["t1" := 0, "t2" := 0]
    requires vs == [Variable("t1", "q1"), Variable("t2", "q2@gcd")]
    ensures DistinctNames(vs) && Declared(vs, c)
  {
    assert vs[0].name[1] != vs[1].name[1];
  }

  /**
   * A section `t1 = q1`, `t2 = q2@gcd` answered with a value for `t1` and the
   * sentinel for `t2`: only `t1` is published, and only `t2`'s counter moves.
   */
  lemma PartialSection(c: Counters, text: string, vs: seq<Variable>)
    requires c == map["t1" := 0, "t2" := 0] && text == "`21,3`er`"
    requires vs == [Variable("t1", "q1"), Variable("t2", "q2@gcd")]
    ensures ParseResponse(c, text, vs).data == Some(map["t1" := Float(21.3)])
    ensures ParseResponse(c, text, vs).counters == map["t1" := 0, "t2" := 1]
  {
    TwoTokens();
    TwoVariables(c, vs);
    MatchedResponse(c, text, vs);
    PartialDecode(c, vs, Tokens(text));
  }

  /** A response with one token too many is dropped whole and moves no counter. */
  lemma MismatchedResponse()
    ensures var vs := [Variable("t1", "q1"), Variable("t2", "q2@gcd")];
      var c := map["t1" := 4, "t2" := 0];
      ParseResponse(c, "`1`2`3`", vs) == Parsed(None, c)
  {
    var values := ["1", "2", "3"];
    assert Text.Join(values, Delimiter) == "1`2`3";
    assert Encode(values) == "`1`2`3`";
    assert Delimiter !in values[0] && Delimiter !in values[1] && Delimiter !in values[2];
    TokensDecodeEncode(values);
  }
}
