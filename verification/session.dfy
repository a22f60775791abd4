/**
 * The connection bookkeeping of `SterboxClient`: `_authenticate`,
 * `_check_connection` and the `connection_retry_count` they share. HTTP
 * outcomes are inputs; the transport session is represented by a generation
 * number that `_reset_session` advances.
 */
module Session {

  /** The outcome of one `session.get`: a response, or the exception it raised. */
  datatype Http = Reply(status: int, body: string) | ProtocolFault | RequestFault | OtherFault

  predicate IsOk(h: Http)
  {
    h.Reply? && h.status == 200
  }

  /** `connection_retry_count`, and which transport session is live. */
  datatype Link = Link(retries: nat, session: nat)

  datatype Checked = Checked(ok: bool, link: Link)

  const Fresh: Link := Link(0, 0)

  /** The retry count never passes the configured maximum (it stays 0 when the maximum is not positive). */
  predicate Bounded(l: Link, max: int)
  {
    l.retries == 0 || l.retries <= max
  }

  /** `_authenticate`: succeeds exactly on status 200, which also clears the retry count. */
  function Authenticate(l: Link, auth: Http): (r: Checked)
    ensures r.ok <==> IsOk(auth)
    ensures r.link.session == l.session
    ensures r.ok ==> r.link.retries == 0
    ensures !r.ok ==> r.link == l
  {
    match auth
    case Reply(status, _) =>
      if status == 200 then Checked(true, l.(retries := 0)) else Checked(false, l)
    case _ => Checked(false, l)
  }

  /** `_reset_session`: a new transport replaces the old one. */
  function ResetSession(l: Link): (r: Link)
    ensures r.session != l.session && r.retries == l.retries
  {
    l.(session := l.session + 1)
  }

  /** `_check_connection` given the probe's and the re-authentication's outcomes. */
  function CheckConnection(l: Link, max: int, probe: Http, auth: Http): (r: Checked)
    ensures IsOk(probe) ==> r.ok && r.link == l.(retries := 0)
    ensures !IsOk(probe) && l.retries < max ==>
      && r.ok == IsOk(auth)
      && r.link.session == l.session + 1
      && r.link.retries == (if r.ok then 0 else l.retries + 1)
    ensures !IsOk(probe) && l.retries >= max ==> !r.ok && r.link == l
    ensures Bounded(l, max) ==> Bounded(r.link, max)
  {
    if IsOk(probe) then Checked(true, l.(retries := 0))
    else if l.retries < max then
      var counted := ResetSession(l.(retries := l.retries + 1));
      Authenticate(counted, auth)
    else Checked(false, l)
  }

  /** `_wait_for_authentication` returns only once `_authenticate` has succeeded, so on return the count is clear. */
  function WaitForAuthentication(l: Link): (r: Link)
    ensures r.retries == 0 && r.session == l.session
  {
    Authenticate(l, Reply(200, "")).link
  }

  /** Successive connection checks, one per (probe, re-authentication) pair. */
  function CheckRepeatedly(l: Link, max: int, attempts: seq<(Http, Http)>): Link
    decreases |attempts|
  {
    if |attempts| == 0 then l
    else CheckRepeatedly(CheckConnection(l, max, attempts[0].0, attempts[0].1).link, max, attempts[1..])
  }

  function Min(a: int, b: int): int
  {
    if a <= b then a else b
  }

  /**
   * While the device stays unreachable, every check below the maximum counts
   * one attempt and replaces the session; once the maximum is reached,
   * nothing changes any more.
   */
  lemma {:induction false} PersistentFailureSaturates(l: Link, max: int, attempts: seq<(Http, Http)>)
    requires l.retries <= max
    requires forall i :: 0 <= i < |attempts| ==> !IsOk(attempts[i].0) && !IsOk(attempts[i].1)
    ensures CheckRepeatedly(l, max, attempts).retries == Min(l.retries + |attempts|, max)
    ensures CheckRepeatedly(l, max, attempts).session == l.session + Min(l.retries + |attempts|, max) - l.retries
    decreases |attempts|
  {
    if |attempts| > 0 {
      var next := CheckConnection(l, max, attempts[0].0, attempts[0].1).link;
      assert forall i :: 0 <= i < |attempts| - 1 ==> attempts[1..][i] == attempts[i + 1];
      PersistentFailureSaturates(next, max, attempts[1..]);
    }
  }

  /** A run of checks keeps the retry count within the maximum. */
  lemma {:induction false} CheckRepeatedlyBounded(l: Link, max: int, attempts: seq<(Http, Http)>)
    requires Bounded(l, max)
    ensures Bounded(CheckRepeatedly(l, max, attempts), max)
    decreases |attempts|
  {
    if |attempts| > 0 {
      CheckRepeatedlyBounded(CheckConnection(l, max, attempts[0].0, attempts[0].1).link, max, attempts[1..]);
    }
  }

}
