/**
 * Properties of the value decoder that relate several calls: comma
 * normalisation, the behaviour of the counters over a history of tokens,
 * the device's response encoding, and positional decoding.
 */
module DecoderProperties {
  import opened Options
  import Text
  import Decimal
  import opened Decoder

  // ---------------------------------------------------------------- decimal comma

  lemma NormalizeKeepsSentinel(t: string)
    ensures Normalize(t) == ErrorSentinel <==> t == ErrorSentinel
  {
    Text.ReplaceSpec(t, ',', '.');
    var n := Normalize(t);
    if n == ErrorSentinel {
      assert t[0] == n[0] && t[1] == n[1];
    }
  }

  /** Tokens that differ only in using `,` or `.` as the decimal separator decode identically. */
  lemma CommaIsDecimalPoint(a: string, b: string, fragment: string)
    requires Normalize(a) == Normalize(b)
    ensures DecodeToken(a, fragment) == DecodeToken(b, fragment)
  {
    Text.StripReplace(a, Text.Whitespace, ',', '.');
    Text.StripReplace(b, Text.Whitespace, ',', '.');
    assert Normalize(Text.Trim(a)) == Normalize(Text.Trim(b));
    NormalizeKeepsSentinel(Text.Trim(a));
    NormalizeKeepsSentinel(Text.Trim(b));
  }

  // ---------------------------------------------------------------- counter history

  datatype History = History(counters: Counters, values: seq<Option<Number>>, notices: seq<Option<Notice>>)

  /** Successive `_process_value` calls for one variable, one per cycle. */
  function Replay(c: Counters, raws: seq<string>, fragment: string, name: string): (h: History)
    requires name in c
    ensures h.counters.Keys == c.Keys
    ensures |h.values| == |raws| && |h.notices| == |raws|
    decreases |raws|
  {
    if |raws| == 0 then History(c, [], [])
    else
      var n := |raws| - 1;
      var prev := Replay(c, raws[..n], fragment, name);
      var p := ProcessValue(prev.counters, raws[n], fragment, name);
      History(p.counters, prev.values + [p.value], prev.notices + [p.notice])
  }

  /**
   * A run of read-failure sentinels keeps every value out and the counter
   * counts every one of them, so past `MaxRetries` the notice is `Skipping`.
   */
  lemma {:induction false} SentinelsAccumulate(c: Counters, raws: seq<string>, fragment: string, name: string)
    requires name in c
    requires forall i :: 0 <= i < |raws| ==> IsSentinel(raws[i])
    ensures var h := Replay(c, raws, fragment, name);
      && h.counters[name] == c[name] + |raws|
      && (forall i :: 0 <= i < |raws| ==> h.values[i] == None)
      && (forall i :: 0 <= i < |raws| ==> h.notices[i] == Some(NoticeFor(c[name] + i + 1)))
    decreases |raws|
  {
    if |raws| > 0 {
      var n := |raws| - 1;
      forall i | 0 <= i < n
        ensures IsSentinel(raws[..n][i])
      {
        assert raws[..n][i] == raws[i];
      }
      SentinelsAccumulate(c, raws[..n], fragment, name);
      var prev := Replay(c, raws[..n], fragment, name);
      var h := Replay(c, raws, fragment, name);
      ReplayLast(c, raws, fragment, name);
      forall i | 0 <= i < n
        ensures h.values[i] == None && h.notices[i] == Some(NoticeFor(c[name] + i + 1))
      {
        assert h.values[..n][i] == prev.values[i] && h.notices[..n][i] == prev.notices[i];
      }
    }
  }

  /** The last call of a replay decides the final counter, value and notice, and leaves the earlier ones alone. */
  lemma ReplayLast(c: Counters, raws: seq<string>, fragment: string, name: string)
    requires name in c && |raws| > 0
    ensures var n := |raws| - 1;
      var prev := Replay(c, raws[..n], fragment, name);
      var h := Replay(c, raws, fragment, name);
      var p := ProcessValue(prev.counters, raws[n], fragment, name);
      && h.counters == p.counters && h.values[n] == p.value && h.notices[n] == p.notice
      && h.values[..n] == prev.values && h.notices[..n] == prev.notices
  {
    var n := |raws| - 1;
    var prev := Replay(c, raws[..n], fragment, name);
    assert (prev.values + [ProcessValue(prev.counters, raws[n], fragment, name).value])[..n] == prev.values;
    assert (prev.notices + [ProcessValue(prev.counters, raws[n], fragment, name).notice])[..n] == prev.notices;
  }

  /**
   * A malformed token resets the counter before it fails, so a run of them
   * keeps the counter at 1 and never reaches the `Skipping` notice.
   */
  lemma {:induction false} MalformedNeverSkips(c: Counters, raws: seq<string>, fragment: string, name: string)
    requires name in c && |raws| > 0
    requires forall i :: 0 <= i < |raws| ==> !IsSentinel(raws[i]) && !Parses(raws[i])
    ensures var h := Replay(c, raws, fragment, name);
      && h.counters[name] == 1
      && (forall i :: 0 <= i < |raws| ==> h.values[i] == None && h.notices[i] == Some(Attempt(1)))
    decreases |raws|
  {
    var n := |raws| - 1;
    var prev := Replay(c, raws[..n], fragment, name);
    var h := Replay(c, raws, fragment, name);
    ReplayLast(c, raws, fragment, name);
    if n > 0 {
      forall i | 0 <= i < n
        ensures !IsSentinel(raws[..n][i]) && !Parses(raws[..n][i])
      {
        assert raws[..n][i] == raws[i];
      }
      MalformedNeverSkips(c, raws[..n], fragment, name);
      forall i | 0 <= i < n
        ensures h.values[i] == None && h.notices[i] == Some(Attempt(1))
      {
        assert h.values[..n][i] == prev.values[i] && h.notices[..n][i] == prev.notices[i];
      }
    }
  }

  /**
   * One value after any history of failures clears the counter, so the next
   * failure, an `er` sentinel or a malformed token alike, is attempt 1 again.
   */
  lemma ValueResetsHistory(c: Counters, raws: seq<string>, good: string, bad: string, fragment: string, name: string)
    requires name in c
    requires Parses(good) && !Parses(bad)
    ensures var h := Replay(c, raws + [good, bad], fragment, name);
      && h.counters[name] == 1
      && h.notices[|raws| + 1] == Some(Attempt(1))
      && h.values[|raws|].Some?
  {
    var all := raws + [good, bad];
    assert all[..|raws| + 1] == raws + [good];
    assert (raws + [good])[..|raws|] == raws;
  }

  // ---------------------------------------------------------------- response encoding

  /** How the device frames its answer: the values joined by back-ticks, with a back-tick at each end. */
  function Encode(values: seq<string>): string
    requires |values| >= 1
  {
    [Delimiter] + Text.Join(values, Delimiter) + [Delimiter]
  }

  /** Back-tick-free values whose first and last are non-empty come back from `Tokens` as sent. */
  lemma {:induction false} TokensDecodeEncode(values: seq<string>)
    requires |values| >= 1
    requires forall i :: 0 <= i < |values| ==> Delimiter !in values[i]
    requires |values[0]| > 0 && |values[|values| - 1]| > 0
    ensures Tokens(Encode(values)) == values
  {
    var body := Text.Join(values, Delimiter);
    JoinEndsWithLast(values);
    var last := values[|values| - 1];
    assert body[|body| - 1] == body[|body| - |last|..][|last| - 1];
    assert |values| > 1 ==> body[..|values[0]|] == values[0];
    assert body[0] == values[0][0];
    var s := Encode(values);
    assert s[1..] == body + [Delimiter];
    assert Text.StripLeft(body + [Delimiter], {Delimiter}) == body + [Delimiter];
    assert Text.StripLeft(s, {Delimiter}) == body + [Delimiter];
    assert (body + [Delimiter])[..|body|] == body;
    assert Text.StripRight(body + [Delimiter], {Delimiter}) == body;
    Text.SplitJoin(values, Delimiter);
  }

  /**
   * An empty first value is swallowed by the framing: `strip` eats its
   * back-tick together with the leading one, so two values come back as a
   * single token and the count check rejects the whole section.
   */
  lemma EmptyFirstValueLost(v: string)
    requires |v| > 0 && Delimiter !in v
    ensures Tokens(Encode(["", v])) == [v]
    ensures |Tokens(Encode(["", v]))| < 2
  {
    var s := Encode(["", v]);
    assert Text.Join(["", v], Delimiter) == [Delimiter] + v by {
      assert ["", v][1..] == [v];
    }
    assert s == [Delimiter, Delimiter] + v + [Delimiter];
    assert s[1..][1..] == v + [Delimiter];
    assert Text.StripLeft(s, {Delimiter}) == v + [Delimiter] by {
      assert s[0] == Delimiter && s[1..][0] == Delimiter;
      assert Text.StripLeft(s, {Delimiter}) == Text.StripLeft(s[1..], {Delimiter});
      assert Text.StripLeft(s[1..], {Delimiter}) == Text.StripLeft(v + [Delimiter], {Delimiter});
      assert (v + [Delimiter])[0] == v[0] && v[0] != Delimiter;
    }
    assert (v + [Delimiter])[..|v|] == v;
    assert Text.StripRight(v + [Delimiter], {Delimiter}) == v by {
      assert v[|v| - 1] !in {Delimiter};
    }
    Text.SplitJoin([v], Delimiter);
  }

  /** A join ends with its last part. */
  lemma {:induction false} JoinEndsWithLast(values: seq<string>)
    requires |values| >= 1
    ensures var j := Text.Join(values, Delimiter);
      |values[|values| - 1]| <= |j| && j[|j| - |values[|values| - 1]|..] == values[|values| - 1]
    decreases |values|
  {
    if |values| > 1 {
      JoinEndsWithLast(values[1..]);
    }
  }

  // ---------------------------------------------------------------- positional decoding

  function Pairs(vs: seq<Variable>, tokens: seq<string>): (r: seq<(Variable, string)>)
    requires |vs| == |tokens|
    ensures |r| == |vs| && forall i :: 0 <= i < |vs| ==> r[i] == (vs[i], tokens[i])
  {
    seq(|vs|, i requires 0 <= i < |vs| => (vs[i], tokens[i]))
  }

  lemma PairFound(vs: seq<Variable>, tokens: seq<string>, vs': seq<Variable>, tokens': seq<string>, i: int)
    returns (j: int)
    requires |vs| == |tokens| && |vs'| == |tokens'|
    requires multiset(Pairs(vs, tokens)) == multiset(Pairs(vs', tokens'))
    requires 0 <= i < |vs|
    ensures 0 <= j < |vs'| && vs'[j] == vs[i] && tokens'[j] == tokens[i]
  {
    var p := Pairs(vs, tokens)[i];
    assert p in multiset(Pairs(vs', tokens'));
    j :| 0 <= j < |vs'| && Pairs(vs', tokens')[j] == p;
  }

  /** Two orderings of the same (variable, token) pairs declare the same variables. */
  lemma SameNames(vs: seq<Variable>, tokens: seq<string>, vs': seq<Variable>, tokens': seq<string>)
    requires |vs| == |tokens| && |vs'| == |tokens'|
    requires multiset(Pairs(vs, tokens)) == multiset(Pairs(vs', tokens'))
    ensures Names(vs) == Names(vs')
  {
    forall k | k in Names(vs)
      ensures k in Names(vs')
    {
      var i :| 0 <= i < |vs| && vs[i].name == k;
      var j := PairFound(vs, tokens, vs', tokens', i);
    }
    forall k | k in Names(vs')
      ensures k in Names(vs)
    {
      var j :| 0 <= j < |vs'| && vs'[j].name == k;
      var i := PairFound(vs', tokens', vs, tokens, j);
    }
  }

  /** A declared variable's counter is decided by its own (variable, token) pair. */
  lemma CounterOfPair(c: Counters, vs: seq<Variable>, tokens: seq<string>, vs': seq<Variable>, tokens': seq<string>, k: string)
    requires |vs| == |tokens| && |vs'| == |tokens'|
    requires DistinctNames(vs) && DistinctNames(vs')
    requires Declared(vs, c) && Declared(vs', c)
    requires multiset(Pairs(vs, tokens)) == multiset(Pairs(vs', tokens'))
    requires k in Names(vs)
    ensures DecodeAll(c, vs, tokens).counters[k] == DecodeAll(c, vs', tokens').counters[k]
  {
    var i :| 0 <= i < |vs| && vs[i].name == k;
    var j := PairFound(vs, tokens, vs', tokens', i);
    DecodeCounters(c, vs, tokens);
    DecodeCounters(c, vs', tokens');
  }

  /**
   * Decoding is purely positional: reordering the declared variables and the
   * response tokens together changes neither the counters nor the decoded mapping.
   */
  lemma PositionalCounters(c: Counters, vs: seq<Variable>, tokens: seq<string>, vs': seq<Variable>, tokens': seq<string>)
    requires |vs| == |tokens| && |vs'| == |tokens'|
    requires DistinctNames(vs) && DistinctNames(vs')
    requires Declared(vs, c) && Declared(vs', c)
    requires multiset(Pairs(vs, tokens)) == multiset(Pairs(vs', tokens'))
    ensures DecodeAll(c, vs, tokens).counters == DecodeAll(c, vs', tokens').counters
  {
    var r, r' := DecodeAll(c, vs, tokens), DecodeAll(c, vs', tokens');
    SameNames(vs, tokens, vs', tokens');
    DecodeCounters(c, vs, tokens);
    DecodeCounters(c, vs', tokens');
    forall k | k in c
      ensures r.counters[k] == r'.counters[k]
    {
      if k in Names(vs) {
        CounterOfPair(c, vs, tokens, vs', tokens', k);
      }
    }
    assert r.counters.Keys == r'.counters.Keys;
  }

  lemma PositionalData(c: Counters, vs: seq<Variable>, tokens: seq<string>, vs': seq<Variable>, tokens': seq<string>)
    requires |vs| == |tokens| && |vs'| == |tokens'|
    requires DistinctNames(vs) && DistinctNames(vs')
    requires Declared(vs, c) && Declared(vs', c)
    requires multiset(Pairs(vs, tokens)) == multiset(Pairs(vs', tokens'))
    ensures DecodeAll(c, vs, tokens).data == DecodeAll(c, vs', tokens').data
  {
    var r, r' := DecodeAll(c, vs, tokens), DecodeAll(c, vs', tokens');
    SameNames(vs, tokens, vs', tokens');
    DecodeData(c, vs, tokens);
    DecodeData(c, vs', tokens');
    forall k | k in Names(vs)
      ensures k in r.data <==> k in r'.data
      ensures k in r.data ==> r.data[k] == r'.data[k]
    {
      var i :| 0 <= i < |vs| && vs[i].name == k;
      var j := PairFound(vs, tokens, vs', tokens', i);
    }
    assert r.data.Keys == r'.data.Keys;
  }

}
