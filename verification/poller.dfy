/**
 * One round of `SterboxClient.run`: every section is queried in order
 * (`_query_section`), non-empty results are merged into the combined data,
 * the data is published once the interval has elapsed, and the pause before
 * the next round is computed. Time is an integer number of ticks.
 */
module Poller {
  import opened Options
  import Decoder
  import Session

  type Data = map<string, Decoder.Number>

  /** What the device and the transport answer during one section query. */
  datatype Exchange = Exchange(reply: Session.Http, probe: Session.Http, auth: Session.Http)

  /** The `sterbox` settings the loop reads. `rest_delay` is never negative, since `time.sleep` refuses that. */
  datatype Config = Config(maxConnectionRetries: int, interval: int, restDelay: nat)

  /** The client's mutable state between rounds. */
  datatype Client = Client(counters: Decoder.Counters, link: Session.Link, combined: Data, lastPublish: int)

  /** What the configuration guarantees of the sections: dict keys are distinct. */
  predicate WellFormedSections(sections: seq<Decoder.Section>)
  {
    forall i :: 0 <= i < |sections| ==> Decoder.DistinctNames(sections[i].vars)
  }

  /** Every variable of every section has a counter. */
  predicate Covers(sections: seq<Decoder.Section>, c: Decoder.Counters)
  {
    forall i :: 0 <= i < |sections| ==> Decoder.Declared(sections[i].vars, c)
  }

  /** The state `__init__` and `run` set up before the first round. */
  function Start(sections: seq<Decoder.Section>, now: int): (cl: Client)
    ensures Covers(sections, cl.counters)
    ensures cl.counters.Keys == Decoder.AllNames(sections)
    ensures forall k :: k in cl.counters ==> cl.counters[k] == 0
    ensures cl.link.retries == 0 && cl.combined == map[] && cl.lastPublish == now
  {
    var c := Decoder.InitCounters(sections);
    assert Covers(sections, c) by {
      forall i, j | 0 <= i < |sections| && 0 <= j < |sections[i].vars|
        ensures sections[i].vars[j].name in c
      {
        assert sections[i].vars[j].name in Decoder.AllNames(sections);
      }
    }
    Client(c, Session.Fresh, map[], now)
  }

  // ---------------------------------------------------------------- one section

  datatype Queried = Queried(result: Option<Data>, counters: Decoder.Counters, link: Session.Link)

  /** `_query_section`: the parsed data on HTTP 200, `None` on every other path. */
  function QuerySection(c: Decoder.Counters, l: Session.Link, max: int, section: Decoder.Section, ex: Exchange): (r: Queried)
    requires Decoder.DistinctNames(section.vars)
    requires Decoder.Declared(section.vars, c)
    ensures r.result.Some? ==> Session.IsOk(ex.reply) && r.result.value != map[] && r.result.value.Keys <= Decoder.Names(section.vars)
    ensures Session.IsOk(ex.reply) ==>
      var parsed := Decoder.ParseResponse(c, ex.reply.body, section.vars);
      r.result == parsed.data && r.counters == parsed.counters && r.link == l
    ensures !Session.IsOk(ex.reply) ==> r.result.None? && r.counters == c
    ensures ex.reply.Reply? && !Session.IsOk(ex.reply) ==> r.link == Session.WaitForAuthentication(l)
    ensures (ex.reply.ProtocolFault? || ex.reply.RequestFault?) ==> r.link == Session.CheckConnection(l, max, ex.probe, ex.auth).link
    ensures ex.reply.OtherFault? ==> r.link == l
    ensures r.counters.Keys == c.Keys
    ensures Session.Bounded(l, max) ==> Session.Bounded(r.link, max)
  {
    match ex.reply
    case Reply(status, body) =>
      if status != 200 then Queried(None, c, Session.WaitForAuthentication(l))
      else
        var parsed := Decoder.ParseResponse(c, body, section.vars);
        Queried(parsed.data, parsed.counters, l)
    case ProtocolFault => Queried(None, c, Session.CheckConnection(l, max, ex.probe, ex.auth).link)
    case RequestFault => Queried(None, c, Session.CheckConnection(l, max, ex.probe, ex.auth).link)
    case OtherFault => Queried(None, c, l)
  }

  // ---------------------------------------------------------------- merging

  /** `combined_data.update(section_result)` when the result is non-empty. */
  function Merge(combined: Data, result: Option<Data>): (r: Data)
    ensures r.Keys == combined.Keys + (if result.Some? then result.value.Keys else {})
    ensures result.Some? ==> forall k :: k in result.value ==> r[k] == result.value[k]
    ensures forall k :: k in combined && (result.None? || k !in result.value) ==> r[k] == combined[k]
  {
    if result.Some? && result.value != map[] then combined + result.value else combined
  }

  /** The combined data after merging the section results of a round in order. */
  function MergeAll(combined: Data, results: seq<Option<Data>>): Data
  {
    if |results| == 0 then combined
    else Merge(MergeAll(combined, results[..|results| - 1]), results[|results| - 1])
  }

  /** Result `j` carries key `k`. */
  predicate Holds(results: seq<Option<Data>>, j: int, k: string)
  {
    0 <= j < |results| && results[j].Some? && k in results[j].value
  }

  /** No result after `j` carries key `k`. */
  predicate LastHolder(results: seq<Option<Data>>, j: int, k: string)
  {
    Holds(results, j, k) && forall j' :: j < j' < |results| ==> !Holds(results, j', k)
  }

  /** A key is in the merged data exactly when it was there before or some result carries it. */
  lemma {:induction false} MergeAllKeys(combined: Data, results: seq<Option<Data>>)
    ensures forall k :: k in MergeAll(combined, results) <==> k in combined || exists j :: Holds(results, j, k)
    decreases |results|
  {
    if |results| > 0 {
      var n := |results| - 1;
      var front := results[..n];
      MergeAllKeys(combined, front);
      var prev := MergeAll(combined, front);
      var r := MergeAll(combined, results);
      forall k | k in r
        ensures k in combined || exists j :: Holds(results, j, k)
      {
        if !Holds(results, n, k) {
          assert k in prev;
          if k !in combined {
            var j :| Holds(front, j, k);
            assert front[j] == results[j];
            assert Holds(results, j, k);
          }
        }
      }
      forall k | k in combined || exists j :: Holds(results, j, k)
        ensures k in r
      {
        if k !in combined {
          var j :| Holds(results, j, k);
          if j < n {
            assert front[j] == results[j];
            assert Holds(front, j, k);
          }
        }
      }
    }
  }

  /** The latest result carrying a key decides its merged value. */
  lemma {:induction false} MergeAllLatest(combined: Data, results: seq<Option<Data>>)
    ensures forall j, k :: LastHolder(results, j, k) ==>
      k in MergeAll(combined, results) && MergeAll(combined, results)[k] == results[j].value[k]
    decreases |results|
  {
    if |results| > 0 {
      var n := |results| - 1;
      var front := results[..n];
      MergeAllLatest(combined, front);
      var r := MergeAll(combined, results);
      forall j, k | LastHolder(results, j, k)
        ensures k in r && r[k] == results[j].value[k]
      {
        if j < n {
          assert !Holds(results, n, k);
          forall j' | j < j' < n
            ensures !Holds(front, j', k)
          {
            assert front[j'] == results[j'] && !Holds(results, j', k);
          }
          assert front[j] == results[j];
          assert LastHolder(front, j, k);
        }
      }
    }
  }

  /** A key that no result carries keeps its earlier value. */
  lemma {:induction false} MergeAllUntouched(combined: Data, results: seq<Option<Data>>)
    ensures forall k :: k in combined && (forall j :: !Holds(results, j, k)) ==>
      k in MergeAll(combined, results) && MergeAll(combined, results)[k] == combined[k]
    decreases |results|
  {
    if |results| > 0 {
      var n := |results| - 1;
      var front := results[..n];
      MergeAllUntouched(combined, front);
      forall k | k in combined && (forall j :: !Holds(results, j, k))
        ensures k in MergeAll(combined, results) && MergeAll(combined, results)[k] == combined[k]
      {
        assert !Holds(results, n, k);
        forall j | 0 <= j < n
          ensures !Holds(front, j, k)
        {
          assert front[j] == results[j] && !Holds(results, j, k);
        }
      }
    }
  }

  /** Merging two rounds without a publish in between is merging their results as one run. */
  lemma {:induction false} MergeAllAppend(combined: Data, first: seq<Option<Data>>, second: seq<Option<Data>>)
    ensures MergeAll(combined, first + second) == MergeAll(MergeAll(combined, first), second)
    decreases |second|
  {
    if |second| == 0 {
      assert first + second == first;
    } else {
      var n := |second| - 1;
      assert (first + second)[..|first + second| - 1] == first + second[..n];
      assert (first + second)[|first + second| - 1] == second[n];
      MergeAllAppend(combined, first, second[..n]);
    }
  }

  // ---------------------------------------------------------------- one round

  datatype Polled = Polled(client: Client, results: seq<Option<Data>>)

  /** The `for` loop of `run`: every section queried once, in order, with state threaded through. */
  function PollSections(cl: Client, cfg: Config, sections: seq<Decoder.Section>, exchanges: seq<Exchange>): (r: Polled)
    requires |exchanges| == |sections|
    requires WellFormedSections(sections)
    requires Covers(sections, cl.counters)
    ensures |r.results| == |sections|
    ensures r.client.counters.Keys == cl.counters.Keys
    ensures r.client.lastPublish == cl.lastPublish
    ensures Session.Bounded(cl.link, cfg.maxConnectionRetries) ==> Session.Bounded(r.client.link, cfg.maxConnectionRetries)
    decreases |sections|
  {
    if |sections| == 0 then Polled(cl, [])
    else
      var n := |sections| - 1;
      var prev := PollSections(cl, cfg, sections[..n], exchanges[..n]);
      var last := prev.client;
      assert Decoder.Declared(sections[n].vars, last.counters) by {
        assert Decoder.Declared(sections[n].vars, cl.counters);
      }
      var q := QuerySection(last.counters, last.link, cfg.maxConnectionRetries, sections[n], exchanges[n]);
      var results := prev.results + [q.result];
      assert results[..n] == prev.results && results[n] == q.result;
      Polled(Client(q.counters, q.link, Merge(last.combined, q.result), last.lastPublish), results)
  }

  /** The data a round leaves behind is the previous data with the section results merged in order, later results winning. */
  lemma {:induction false} PollSectionsMerges(cl: Client, cfg: Config, sections: seq<Decoder.Section>, exchanges: seq<Exchange>)
    requires |exchanges| == |sections|
    requires WellFormedSections(sections)
    requires Covers(sections, cl.counters)
    ensures var r := PollSections(cl, cfg, sections, exchanges);
      r.client.combined == MergeAll(cl.combined, r.results)
    decreases |sections|
  {
    if |sections| > 0 {
      var n := |sections| - 1;
      PollSectionsMerges(cl, cfg, sections[..n], exchanges[..n]);
      var r := PollSections(cl, cfg, sections, exchanges);
      var prev := PollSections(cl, cfg, sections[..n], exchanges[..n]);
      assert r.results[..n] == prev.results;
    }
  }

  /** One step of the round's schedule: a section query, or the `rest_delay` pause between two. */
  datatype Step = Poll(section: string) | Rest(ticks: nat)

  /** The order of queries and pauses in a round: `rest_delay` separates sections and never follows the last. */
  function Schedule(sections: seq<Decoder.Section>, restDelay: nat): (r: seq<Step>)
    ensures |r| == |sections| + (if restDelay > 0 && |sections| > 0 then |sections| - 1 else 0)
    ensures |sections| > 0 ==> r[|r| - 1] == Poll(sections[|sections| - 1].name)
    ensures forall i :: 0 <= i < |r| && r[i].Rest? ==>
      0 < i < |r| - 1 && r[i - 1].Poll? && r[i + 1].Poll? && r[i].ticks == restDelay
    ensures restDelay == 0 ==> forall i :: 0 <= i < |r| ==> r[i] == Poll(sections[i].name)
    ensures restDelay > 0 ==> forall i :: 0 <= i < |sections| ==>
      r[2 * i] == Poll(sections[i].name) && (i < |sections| - 1 ==> r[2 * i + 1] == Rest(restDelay))
    decreases |sections|
  {
    if |sections| == 0 then []
    else
      var n := |sections| - 1;
      var prev := Schedule(sections[..n], restDelay);
      var pause := if n > 0 && restDelay > 0 then [Rest(restDelay)] else [];
      var r := prev + pause + [Poll(sections[n].name)];
      if restDelay > 0 then ScheduleAlternates(sections, restDelay, prev, r); r else r
  }

  /** Appending one section to an alternating schedule keeps it alternating. */
  lemma ScheduleAlternates(sections: seq<Decoder.Section>, restDelay: nat, prev: seq<Step>, r: seq<Step>)
    requires restDelay > 0 && |sections| > 0
    requires var n := |sections| - 1;
      && |prev| == (if n > 0 then 2 * n - 1 else 0)
      && (forall i :: 0 <= i < n ==> prev[2 * i] == Poll(sections[..n][i].name) && (i < n - 1 ==> prev[2 * i + 1] == Rest(restDelay)))
      && r == prev + (if n > 0 then [Rest(restDelay)] else []) + [Poll(sections[n].name)]
    ensures forall i :: 0 <= i < |sections| ==>
      r[2 * i] == Poll(sections[i].name) && (i < |sections| - 1 ==> r[2 * i + 1] == Rest(restDelay))
  {
    var n := |sections| - 1;
    forall i | 0 <= i < |sections|
      ensures r[2 * i] == Poll(sections[i].name) && (i < |sections| - 1 ==> r[2 * i + 1] == Rest(restDelay))
    {
      if i < n {
        assert r[2 * i] == prev[2 * i] && sections[..n][i] == sections[i];
        if i < n - 1 {
          assert r[2 * i + 1] == prev[2 * i + 1];
        } else {
          assert r[2 * i + 1] == Rest(restDelay);
        }
      }
    }
  }

  datatype Published = Published(sent: Option<Data>, combined: Data, lastPublish: int)

  /** The publish decision of `run`: only once the interval has elapsed, and only non-empty data. */
  function PublishStep(combined: Data, lastPublish: int, now: int, interval: int): (r: Published)
    ensures r.sent.Some? <==> now - lastPublish >= interval && combined != map[]
    ensures r.sent.Some? ==> r.sent.value == combined && r.combined == map[] && r.lastPublish == now
    ensures r.sent.None? ==> r.combined == combined && r.lastPublish == lastPublish
  {
    if now - lastPublish >= interval && combined != map[] then Published(Some(combined), map[], now)
    else Published(None, combined, lastPublish)
  }

  function Max(a: int, b: int): int
  {
    if a >= b then a else b
  }

  /** The pause at the end of a round: never negative, at most `rest_delay`, never past the next publish time. */
  function Pause(interval: int, lastPublish: int, now: int, restDelay: nat): (d: nat)
    ensures d <= restDelay
    ensures d <= Max(0, interval - (now - lastPublish))
    ensures d == restDelay || d == Max(0, interval - (now - lastPublish))
  {
    var remaining := Max(0, interval - (now - lastPublish));
    if remaining > 0 then (if remaining <= restDelay then remaining else restDelay) else 0
  }

  datatype Outcome = Outcome(client: Client, sent: Option<Data>, pause: nat)

  /**
   * One iteration of the `while True` loop of `run`: `now` is the clock read
   * before the publish decision and `later` the one read for the pause.
   */
  function Round(cl: Client, cfg: Config, sections: seq<Decoder.Section>, exchanges: seq<Exchange>, now: int, later: int): (r: Outcome)
    requires |exchanges| == |sections|
    requires WellFormedSections(sections)
    requires Covers(sections, cl.counters)
    ensures var polled := PollSections(cl, cfg, sections, exchanges);
      var merged := MergeAll(cl.combined, polled.results);
      && (r.sent.Some? <==> now - cl.lastPublish >= cfg.interval && merged != map[])
      && (r.sent.Some? ==> r.sent.value == merged && r.client.combined == map[] && r.client.lastPublish == now)
      && (r.sent.None? ==> r.client.combined == merged && r.client.lastPublish == cl.lastPublish)
      && r.client.counters == polled.client.counters
      && r.client.link == polled.client.link
    ensures Covers(sections, r.client.counters)
    ensures Session.Bounded(cl.link, cfg.maxConnectionRetries) ==> Session.Bounded(r.client.link, cfg.maxConnectionRetries)
    ensures r.pause == Pause(cfg.interval, r.client.lastPublish, later, cfg.restDelay)
    ensures r.pause <= cfg.restDelay
    ensures r.pause <= Max(0, cfg.interval - (later - r.client.lastPublish))
  {
    var polled := PollSections(cl, cfg, sections, exchanges);
    PollSectionsMerges(cl, cfg, sections, exchanges);
    var p := PublishStep(polled.client.combined, polled.client.lastPublish, now, cfg.interval);
    var next := polled.client.(combined := p.combined, lastPublish := p.lastPublish);
    Outcome(next, p.sent, Pause(cfg.interval, next.lastPublish, later, cfg.restDelay))
  }

  /**
   * Rounds that do not publish accumulate: after two of them the combined
   * data is the original data with both rounds' section results merged in
   * order.
   */
  lemma RoundsAccumulate(cl: Client, cfg: Config, sections: seq<Decoder.Section>, first: seq<Exchange>, second: seq<Exchange>, now: int, later: int, now': int, later': int)
    requires |first| == |second| == |sections|
    requires WellFormedSections(sections)
    requires Covers(sections, cl.counters)
    requires Round(cl, cfg, sections, first, now, later).sent.None?
    requires Round(Round(cl, cfg, sections, first, now, later).client, cfg, sections, second, now', later').sent.None?
    ensures var mid := Round(cl, cfg, sections, first, now, later).client;
      Round(mid, cfg, sections, second, now', later').client.combined
        == MergeAll(cl.combined, PollSections(cl, cfg, sections, first).results + PollSections(mid, cfg, sections, second).results)
  {
    var mid := Round(cl, cfg, sections, first, now, later).client;
    MergeAllAppend(cl.combined, PollSections(cl, cfg, sections, first).results, PollSections(mid, cfg, sections, second).results);
  }

}
