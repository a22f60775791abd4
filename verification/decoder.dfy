/**
 * Query construction and response decoding of `SterboxClient`
 * (`_build_combined_query`, `_process_value`, `_parse_response`) together
 * with the per-variable consecutive-error counters they maintain.
 */
module Decoder {
  import opened Options
  import Text
  import Decimal

  /** One configured variable: its name and the query fragment appended to the device URL. */
  datatype Variable = Variable(name: string, fragment: string)

  /** A named group of variables polled with one request, in declaration order. */
  datatype Section = Section(name: string, vars: seq<Variable>)

  /** A decoded value: `int` for fragments marked `@gcd`, `float` otherwise. */
  datatype Number = Int(i: int) | Float(r: real)

  /** What `_process_value` logs for a failed token: "attempt N of 3" or "skipping". */
  datatype Notice = Attempt(n: nat) | Skipping

  /** The consecutive-failure count of every variable. */
  type Counters = map<string, nat>

  const MaxRetries: nat := 3
  const ErrorSentinel: string := "er"
  const IntegerMarker: string := "@gcd"
  const Delimiter: char := '`'

  /** Section variables come from a dict, so their names are distinct. */
  predicate DistinctNames(vs: seq<Variable>)
  {
    forall i, j :: 0 <= i < j < |vs| ==> vs[i].name != vs[j].name
  }

  /** Every variable of the section has a counter. */
  predicate Declared(vs: seq<Variable>, c: Counters)
  {
    forall i :: 0 <= i < |vs| ==> vs[i].name in c
  }

  function Names(vs: seq<Variable>): set<string>
  {
    set i | 0 <= i < |vs| :: vs[i].name
  }

  /** Every variable of every section. */
  function AllNames(sections: seq<Section>): set<string>
  {
    set i, j | 0 <= i < |sections| && 0 <= j < |sections[i].vars| :: sections[i].vars[j].name
  }

  // ---------------------------------------------------------------- query

  /** `_build_combined_query`: the section's fragments joined in declaration order. */
  function BuildQuery(vs: seq<Variable>): string
  {
    if |vs| == 0 then "" else vs[0].fragment + BuildQuery(vs[1..])
  }

  /** Where fragment `i` starts in the combined query. */
  function Offset(vs: seq<Variable>, i: nat): nat
    requires i <= |vs|
  {
    |BuildQuery(vs[..i])|
  }

  lemma {:induction false} BuildQueryAppend(a: seq<Variable>, b: seq<Variable>)
    ensures BuildQuery(a + b) == BuildQuery(a) + BuildQuery(b)
    decreases |a|
  {
    if |a| == 0 {
      assert a + b == b;
    } else {
      assert (a + b)[0] == a[0];
      assert (a + b)[1..] == a[1..] + b;
      BuildQueryAppend(a[1..], b);
    }
  }

  lemma MiddleSlice(a: string, b: string, c: string)
    ensures |a| + |b| <= |a + b + c|
    ensures (a + b + c)[|a|..|a| + |b|] == b
  {
  }

  /** The combined query holds fragment `i` right after fragments `0..i`, so the device's `i`th answer belongs to variable `i`. */
  lemma BuildQueryPositional(vs: seq<Variable>, i: nat)
    requires i < |vs|
    ensures Offset(vs, i) + |vs[i].fragment| <= |BuildQuery(vs)|
    ensures BuildQuery(vs)[Offset(vs, i)..Offset(vs, i) + |vs[i].fragment|] == vs[i].fragment
    ensures BuildQuery(vs) == BuildQuery(vs[..i]) + vs[i].fragment + BuildQuery(vs[i + 1..])
  {
    var before, after := vs[..i], vs[i + 1..];
    var tail := [vs[i]] + after;
    assert vs == before + tail;
    BuildQueryAppend(before, tail);
    assert tail[0] == vs[i] && tail[1..] == after;
    assert BuildQuery(tail) == vs[i].fragment + BuildQuery(after);
    var q := BuildQuery(vs);
    assert q == BuildQuery(before) + vs[i].fragment + BuildQuery(after);
    assert Offset(vs, i) == |BuildQuery(before)|;
    MiddleSlice(BuildQuery(before), vs[i].fragment, BuildQuery(after));
  }

  /** The error counters as `__init__` sets them: 0 for every declared variable. */
  function InitCounters(sections: seq<Section>): (c: Counters)
    ensures c.Keys == AllNames(sections)
    ensures forall i, j :: 0 <= i < |sections| && 0 <= j < |sections[i].vars| ==> c[sections[i].vars[j].name] == 0
  {
    map n | n in AllNames(sections) :: 0
  }

  // ---------------------------------------------------------------- one token

  /** Decimal-comma normalisation: `value.replace(',', '.')`. */
  function Normalize(t: string): string
  {
    Text.Replace(t, ',', '.')
  }

  /** The trimmed token is the device's read-failure sentinel. */
  predicate IsSentinel(raw: string)
  {
    Text.Trim(raw) == ErrorSentinel
  }

  /** A non-sentinel token that `float()` accepts after comma normalisation. */
  predicate Parses(raw: string)
  {
    !IsSentinel(raw) && Decimal.Lex(Normalize(Text.Trim(raw))).Some?
  }

  /** The value a token yields, independent of any counter. */
  function DecodeToken(raw: string, fragment: string): (r: Option<Number>)
    ensures r.Some? <==> Parses(raw)
    ensures r.Some? ==>
      var l := Decimal.Lex(Normalize(Text.Trim(raw))).value;
      r.value == if Text.Contains(fragment, IntegerMarker) then Int(Decimal.WholePart(l)) else Float(Decimal.ValueOf(l))
  {
    var value := Text.Trim(raw);
    if value == ErrorSentinel then None
    else
      match Decimal.ParseReal(Normalize(value))
      case None => None
      case Some(x) =>
        if Text.Contains(fragment, IntegerMarker) then
          Decimal.TruncateIsWholePart(Decimal.Lex(Normalize(value)).value);
          Some(Int(Decimal.Truncate(x)))
        else Some(Float(x))
  }

  /** The counter after one token: +1 on the sentinel, 0 on a value, and 1 on a malformed token whatever came before. */
  function NextCount(previous: nat, raw: string): nat
  {
    if IsSentinel(raw) then previous + 1 else if Parses(raw) then 0 else 1
  }

  /** The log line of a failed token, given the incremented counter. */
  function NoticeFor(count: nat): Notice
  {
    if count <= MaxRetries then Attempt(count) else Skipping
  }

  datatype Processed = Processed(value: Option<Number>, counters: Counters, notice: Option<Notice>)

  /** The failure branches of `_process_value`: one more consecutive failure, no value. */
  function Failure(c: Counters, name: string): (r: Processed)
    requires name in c
    ensures r.value == None && r.counters == c[name := c[name] + 1]
  {
    var bumped := c[name := c[name] + 1];
    Processed(None, bumped, Some(NoticeFor(bumped[name])))
  }

  /** `_process_value`: decodes one token and updates that variable's counter, resetting it before parsing. */
  function ProcessValue(c: Counters, raw: string, fragment: string, name: string): (r: Processed)
    requires name in c
    ensures r.counters == c[name := NextCount(c[name], raw)]
    ensures r.value == DecodeToken(raw, fragment)
    ensures r.notice == if r.value.None? then Some(NoticeFor(r.counters[name])) else None
  {
    if IsSentinel(raw) then Failure(c, name)
    else
      var reset := c[name := 0];
      var decoded := DecodeToken(raw, fragment);
      if decoded.Some? then Processed(decoded, reset, None)
      else
        assert reset[name := reset[name] + 1] == c[name := 1];
        Failure(reset, name)
  }

  // ---------------------------------------------------------------- one response

  datatype Decoding = Decoding(data: map<string, Number>, counters: Counters)

  /** The loop of `_parse_response`: token `i` goes to variable `i`, in order. */
  function DecodeAll(c: Counters, vs: seq<Variable>, tokens: seq<string>): (r: Decoding)
    requires |vs| == |tokens|
    requires Declared(vs, c)
    ensures r.counters.Keys == c.Keys
    decreases |vs|
  {
    if |vs| == 0 then Decoding(map[], c)
    else
      var n := |vs| - 1;
      var prev := DecodeAll(c, vs[..n], tokens[..n]);
      var p := ProcessValue(prev.counters, tokens[n], vs[n].fragment, vs[n].name);
      Decoding(if p.value.Some? then prev.data[vs[n].name := p.value.value] else prev.data, p.counters)
  }

  lemma NamesPrefix(vs: seq<Variable>)
    requires |vs| > 0
    ensures Names(vs) == Names(vs[..|vs| - 1]) + {vs[|vs| - 1].name}
  {
    var n := |vs| - 1;
    forall k | k in Names(vs)
      ensures k in Names(vs[..n]) + {vs[n].name}
    {
      var i :| 0 <= i < |vs| && vs[i].name == k;
      if i < n {
        assert vs[..n][i] == vs[i];
      }
    }
    forall k | k in Names(vs[..n])
      ensures k in Names(vs)
    {
      var i :| 0 <= i < n && vs[..n][i].name == k;
      assert vs[i] == vs[..n][i];
    }
  }

  /** One turn of the decoding loop. */
  lemma DecodeStep(c: Counters, vs: seq<Variable>, tokens: seq<string>)
    requires |vs| == |tokens| > 0
    requires Declared(vs, c)
    ensures var n := |vs| - 1;
      var prev := DecodeAll(c, vs[..n], tokens[..n]);
      var r := DecodeAll(c, vs, tokens);
      var name := vs[n].name;
      var value := DecodeToken(tokens[n], vs[n].fragment);
      && r.counters == prev.counters[name := NextCount(prev.counters[name], tokens[n])]
      && r.data == if value.Some? then prev.data[name := value.value] else prev.data
  {
  }

  /** The last variable of a section with distinct names is not among the earlier ones. */
  lemma LastNameFresh(vs: seq<Variable>)
    requires |vs| > 0 && DistinctNames(vs)
    ensures vs[|vs| - 1].name !in Names(vs[..|vs| - 1])
    ensures DistinctNames(vs[..|vs| - 1])
  {
    var n := |vs| - 1;
    assert forall i :: 0 <= i < n ==> vs[..n][i] == vs[i];
  }

  /** Each variable's counter moves according to its own positional token, and no other counter moves. */
  lemma {:induction false} DecodeCounters(c: Counters, vs: seq<Variable>, tokens: seq<string>)
    requires |vs| == |tokens|
    requires DistinctNames(vs)
    requires Declared(vs, c)
    ensures var r := DecodeAll(c, vs, tokens);
      && (forall k :: k in c && k !in Names(vs) ==> r.counters[k] == c[k])
      && (forall i :: 0 <= i < |vs| ==> r.counters[vs[i].name] == NextCount(c[vs[i].name], tokens[i]))
    decreases |vs|
  {
    if |vs| > 0 {
      var n := |vs| - 1;
      var vs', tokens' := vs[..n], tokens[..n];
      NamesPrefix(vs);
      LastNameFresh(vs);
      DecodeCounters(c, vs', tokens');
      DecodeStep(c, vs, tokens);
      var prev := DecodeAll(c, vs', tokens');
      var r := DecodeAll(c, vs, tokens);
      var name := vs[n].name;
      assert prev.counters[name] == c[name];
      forall i | 0 <= i < n
        ensures r.counters[vs[i].name] == NextCount(c[vs[i].name], tokens[i])
      {
        assert vs[i] == vs'[i] && tokens[i] == tokens'[i];
        assert vs[i].name != name;
      }
    }
  }

  /** A variable is in the decoded mapping exactly when its positional token decodes, with that value; nothing else is. */
  lemma {:induction false} DecodeData(c: Counters, vs: seq<Variable>, tokens: seq<string>)
    requires |vs| == |tokens|
    requires DistinctNames(vs)
    requires Declared(vs, c)
    ensures var r := DecodeAll(c, vs, tokens);
      && r.data.Keys <= Names(vs)
      && (forall i :: 0 <= i < |vs| ==> (vs[i].name in r.data <==> DecodeToken(tokens[i], vs[i].fragment).Some?))
      && (forall i :: 0 <= i < |vs| && vs[i].name in r.data ==> r.data[vs[i].name] == DecodeToken(tokens[i], vs[i].fragment).value)
    decreases |vs|
  {
    if |vs| > 0 {
      var n := |vs| - 1;
      var vs', tokens' := vs[..n], tokens[..n];
      NamesPrefix(vs);
      LastNameFresh(vs);
      DecodeData(c, vs', tokens');
      DecodeStep(c, vs, tokens);
      var r := DecodeAll(c, vs, tokens);
      forall i | 0 <= i < n
        ensures vs[i].name in r.data <==> DecodeToken(tokens[i], vs[i].fragment).Some?
        ensures vs[i].name in r.data ==> r.data[vs[i].name] == DecodeToken(tokens[i], vs[i].fragment).value
      {
        assert vs[i] == vs'[i] && tokens[i] == tokens'[i];
        assert vs[i].name != vs[n].name;
      }
    }
  }

  /** The response split into positional tokens: outer back-ticks stripped, then split on back-tick. */
  function Tokens(text: string): (r: seq<string>)
    ensures |r| == multiset(Text.Strip(text, {Delimiter}))[Delimiter] + 1
  {
    var clean := Text.Strip(text, {Delimiter});
    Text.SplitCount(clean, Delimiter);
    Text.Split(clean, Delimiter)
  }

  datatype Parsed = Parsed(data: Option<map<string, Number>>, counters: Counters)

  /** `_parse_response`: the whole section or nothing, never an empty mapping. */
  function ParseResponse(c: Counters, text: string, vs: seq<Variable>): (r: Parsed)
    requires DistinctNames(vs)
    requires Declared(vs, c)
    ensures |Tokens(text)| != |vs| ==> r.data.None? && r.counters == c
    ensures r.counters.Keys == c.Keys
    ensures forall k :: k in c && k !in Names(vs) ==> r.counters[k] == c[k]
    ensures r.data.Some? ==> r.data.value != map[] && r.data.value.Keys <= Names(vs)
    ensures |Tokens(text)| == |vs| ==>
      var tokens := Tokens(text);
      && (r.data.None? <==> forall i :: 0 <= i < |vs| ==> DecodeToken(tokens[i], vs[i].fragment).None?)
      && (forall i :: 0 <= i < |vs| ==> r.counters[vs[i].name] == NextCount(c[vs[i].name], tokens[i]))
      && (forall i :: 0 <= i < |vs| && r.data.Some? ==>
            (vs[i].name in r.data.value <==> DecodeToken(tokens[i], vs[i].fragment).Some?))
      && (forall i :: 0 <= i < |vs| && r.data.Some? && vs[i].name in r.data.value ==>
            r.data.value[vs[i].name] == DecodeToken(tokens[i], vs[i].fragment).value)
  {
    var tokens := Tokens(text);
    if |tokens| != |vs| then Parsed(None, c)
    else
      var d := DecodeAll(c, vs, tokens);
      DecodeCounters(c, vs, tokens);
      DecodeData(c, vs, tokens);
      if d.data == map[] then
        Parsed(None, d.counters)
      else
        Parsed(Some(d.data), d.counters)
  }

}
