/** Browser sessions (internal/auth/sessions.go): opening one, checking one, and the idle
    expiry that slides forward but is written only now and then.

    The rows live in the service's map, as in the store; what a request does to one row is
    the function `Visit`, and the theorems compare whole runs of it with exact sliding
    expiry. */
module Sessions {
  import opened Clock
  import opened Seqs

  datatype Options = Options(idle: nat, absolute: nat)

  datatype User = User(id: string, disabled: bool, support: bool)

  datatype Session = Session(userId: string, created: Time, expires: Time, lastSeen: Time)

  /** The stored consent of the admins to the hoster's support. */
  datatype Consent = Refused | Always | Until(end: Time)

  /** `SupportAccess`: an expired consent reads as none. */
  function Read(stored: Consent, now: Time): Consent {
    if stored.Until? && now >= stored.end then Refused else stored
  }

  predicate Active(c: Consent, at: Time) {
    c.Always? || (c.Until? && at < c.end)
  }

  /** The row is not written again before this much time has passed. */
  function Grace(o: Options): (g: nat)
    ensures g <= MINUTE && 4 * g <= o.idle
  {
    Min(MINUTE, o.idle / 4)
  }

  function Started(o: Options, userId: string, ts: Time): Session {
    Session(userId, ts, ts + o.idle, ts)
  }

  predicate Live(o: Options, s: Session, ts: Time) {
    ts <= s.expires && ts <= s.created + o.absolute
  }

  predicate TouchDue(o: Options, s: Session, ts: Time) {
    ts - s.lastSeen > Grace(o)
  }

  /** One request with the session at `at`. `admitted` is what the user's account says,
      `saved` whether a due write of the row succeeds; a failed one is only logged. */
  datatype Request = Request(at: Time, admitted: bool, saved: bool)

  /** What is left of the row; it is deleted when the request is refused. */
  function Visit(o: Options, row: Option<Session>, r: Request): Option<Session> {
    match row
    case None => None
    case Some(s) =>
      if !Live(o, s, r.at) || !r.admitted then None
      else if TouchDue(o, s, r.at) && r.saved then Some(s.(lastSeen := r.at, expires := r.at + o.idle))
      else row
  }

  /** Which requests of a run are accepted. */
  function Accepted(o: Options, row: Option<Session>, requests: seq<Request>): (answers: seq<bool>)
    ensures |answers| == |requests|
    decreases |requests|
  {
    if requests == [] then []
    else
      var next := Visit(o, row, requests[0]);
      [next.Some?] + Accepted(o, next, requests[1..])
  }

  // ---- The service ----

  predicate Admitted(users: map<string, User>, consent: Consent, userId: string, ts: Time, read: Time) {
    && userId in users
    && !users[userId].disabled
    && (users[userId].support ==> Active(Read(consent, read), ts))
  }

  /** An enabled user who has just signed in is let in at once, the hoster's support under a
      consent that holds, and the row stays as it is. */
  lemma NewSessionLetsIn(o: Options, users: map<string, User>, consent: Consent, user: User, ts: Time, read: Time, saved: bool)
    requires user.id in users && users[user.id] == user && !user.disabled
    requires user.support ==> consent.Always? || (consent.Until? && ts < consent.end && read < consent.end)
    ensures var row := Started(o, user.id, ts);
      Visit(o, Some(row), Request(ts, Admitted(users, consent, row.userId, ts, read), saved)) == Some(row)
  {
  }

  class Service {
    const opts: Options
    var sessions: map<string, Session>
    var users: map<string, User>
    var consent: Consent

    constructor (o: Options)
      ensures opts == o && sessions == map[] && users == map[] && consent == Refused
    {
      opts := o;
      sessions := map[];
      users := map[];
      consent := Refused;
    }

    /** `id` is the hash of the fresh random token. */
    method StartSession(user: User, id: string, ts: Time) returns (ok: bool)
      modifies this`sessions
      ensures ok <==> !user.disabled
      ensures sessions == if ok then old(sessions)[id := Started(opts, user.id, ts)] else old(sessions)
      ensures ok ==> id in sessions && sessions[id] == Session(user.id, ts, ts + opts.idle, ts)
    {
      if user.disabled {
        return false;
      }
      sessions := sessions[id := Session(user.id, ts, ts + opts.idle, ts)];
      return true;
    }

    /** `ts` is the time the check starts, `read` the later time at which it reads the
        consent of a support session. */
    method ValidateSession(id: string, ts: Time, read: Time, saved: bool) returns (ok: bool)
      modifies this`sessions
      ensures var before := old(sessions);
        var row := if id != "" && id in before then Some(before[id]) else None;
        var r := Request(ts, row.Some? && Admitted(users, consent, row.value.userId, ts, read), saved);
        var after := Visit(opts, row, r);
        && (ok <==> after.Some?)
        && sessions == if row.None? then before else if ok then before[id := after.value] else before - {id}
      // Let in: the row is within both timeouts, and its user is there, not disabled and, for
      // the hoster's support, under a consent that holds.
      ensures ok <==>
        (id != "" && id in old(sessions) &&
         var s := old(sessions)[id];
         && ts <= s.expires && ts <= s.created + opts.absolute
         && s.userId in users && !users[s.userId].disabled
         && (users[s.userId].support ==>
               consent == Always || (consent.Until? && ts < consent.end && read < consent.end)))
      ensures ok ==>
        var s := old(sessions)[id];
        var due := ts > s.lastSeen && (ts - s.lastSeen > 60 * SECOND || 4 * (ts - s.lastSeen) > opts.idle);
        sessions[id] == if due && saved then Session(s.userId, s.created, ts + opts.idle, ts) else s
    {
      if id == "" || id !in sessions {
        return false;
      }
      var sess := sessions[id];
      if ts > sess.expires || ts > sess.created + opts.absolute {
        sessions := sessions - {id};
        return false;
      }
      if sess.userId !in users {
        sessions := sessions - {id};
        return false;
      }
      var user := users[sess.userId];
      if user.disabled {
        sessions := sessions - {id};
        return false;
      }
      if user.support {
        var a := Read(consent, read);
        if !Active(a, ts) {
          sessions := sessions - {id};
          return false;
        }
      }
      if ts - sess.lastSeen > Min(MINUTE, opts.idle / 4) && saved {
        sessions := sessions[id := sess.(lastSeen := ts, expires := ts + opts.idle)];
      }
      assert sessions == old(sessions)[id := sessions[id]];
      return true;
    }
  }

  // ---- Sliding expiry, within a bound ----

  predicate Ordered(from: Time, requests: seq<Request>) {
    && (forall i :: 0 <= i < |requests| ==> from <= requests[i].at)
    && (forall i, j :: 0 <= i < j < |requests| ==> requests[i].at <= requests[j].at)
  }

  /** What every row looks like: the expiry follows the last write. */
  predicate Regular(o: Options, s: Session) {
    s.created <= s.lastSeen && s.expires == s.lastSeen + o.idle
  }

  /** An accepted request leaves the expiry at most `Grace` short of exact sliding expiry,
      unless a due write failed. */
  lemma ExpiryWithinGrace(o: Options, s: Session, r: Request)
    requires Regular(o, s) && s.lastSeen <= r.at
    requires Visit(o, Some(s), r).Some?
    ensures var s' := Visit(o, Some(s), r).value;
      && Regular(o, s') && s'.lastSeen <= r.at && s'.created == s.created
      && s'.expires <= r.at + o.idle
      && (s'.expires >= r.at + o.idle - Grace(o) <==> (TouchDue(o, s, r.at) ==> r.saved))
  {
  }

  /** Exact sliding expiry: a request is accepted within `allowance` of the last accepted
      one and within the absolute timeout; `last` is None once the session is gone. */
  function AcceptedExactly(allowance: int, end: Time, last: Option<Time>, requests: seq<Request>): (answers: seq<bool>)
    ensures |answers| == |requests|
    decreases |requests|
  {
    if requests == [] then []
    else
      var at := requests[0].at;
      var ok := last.Some? && at <= last.value + allowance && at <= end && requests[0].admitted;
      [ok] + AcceptedExactly(allowance, end, if ok then Some(at) else None, requests[1..])
  }

  ghost predicate Implies(a: seq<bool>, b: seq<bool>) {
    |a| == |b| && forall i :: 0 <= i < |a| && a[i] ==> b[i]
  }

  ghost predicate NoneTrue(a: seq<bool>) {
    forall i :: 0 <= i < |a| ==> !a[i]
  }

  lemma {:induction false} GoneStaysGone(o: Options, requests: seq<Request>)
    ensures NoneTrue(Accepted(o, None, requests))
    decreases |requests|
  {
    if requests != [] {
      GoneStaysGone(o, requests[1..]);
    }
  }

  lemma {:induction false} GoneExactly(allowance: int, end: Time, requests: seq<Request>)
    ensures NoneTrue(AcceptedExactly(allowance, end, None, requests))
    decreases |requests|
  {
    if requests != [] {
      GoneExactly(allowance, end, requests[1..]);
    }
  }

  /** No request is accepted that exact sliding expiry would refuse, whatever writes fail. */
  lemma {:induction false} NeverLonger(o: Options, s: Session, last: Time, requests: seq<Request>)
    requires Regular(o, s) && s.lastSeen <= last && Ordered(last, requests)
    ensures Implies(Accepted(o, Some(s), requests), AcceptedExactly(o.idle, s.created + o.absolute, Some(last), requests))
    decreases |requests|
  {
    if requests != [] {
      var r := requests[0];
      var next := Visit(o, Some(s), r);
      if next.Some? {
        ExpiryWithinGrace(o, s, r);
        NeverLonger(o, next.value, r.at, requests[1..]);
      } else {
        GoneStaysGone(o, requests[1..]);
      }
    }
  }

  predicate AllSaved(requests: seq<Request>) {
    forall i :: 0 <= i < |requests| ==> requests[i].saved
  }

  /** While writes succeed, no request is refused that exact sliding expiry with the
      allowance shortened by `Grace` would accept. */
  lemma {:induction false} AtMostGraceShorter(o: Options, s: Session, last: Time, requests: seq<Request>)
    requires Regular(o, s) && s.lastSeen <= last && Ordered(last, requests) && AllSaved(requests)
    requires s.expires >= last + o.idle - Grace(o)
    ensures Implies(AcceptedExactly(o.idle - Grace(o), s.created + o.absolute, Some(last), requests),
                    Accepted(o, Some(s), requests))
    decreases |requests|
  {
    if requests != [] {
      var r := requests[0];
      var next := Visit(o, Some(s), r);
      if next.Some? {
        ExpiryWithinGrace(o, s, r);
        var end := s.created + o.absolute;
        if r.at <= last + o.idle - Grace(o) {
          AtMostGraceShorter(o, next.value, r.at, requests[1..]);
        } else {
          GoneExactly(o.idle - Grace(o), end, requests[1..]);
        }
      } else {
        GoneExactly(o.idle - Grace(o), s.created + o.absolute, requests[1..]);
      }
    }
  }

  /** Over every run of a new session, the source lies between exact sliding expiry and the
      same with the idle time shortened by min(1 min, idle/4). */
  lemma SlidingWithinBound(o: Options, userId: string, ts: Time, requests: seq<Request>)
    requires Ordered(ts, requests) && AllSaved(requests)
    ensures var answers := Accepted(o, Some(Started(o, userId, ts)), requests);
      && Implies(AcceptedExactly(o.idle - Grace(o), ts + o.absolute, Some(ts), requests), answers)
      && Implies(answers, AcceptedExactly(o.idle, ts + o.absolute, Some(ts), requests))
  {
    AtMostGraceShorter(o, Started(o, userId, ts), ts, requests);
    NeverLonger(o, Started(o, userId, ts), ts, requests);
  }

  ghost predicate Spaced(last: Time, requests: seq<Request>, gap: int) {
    && (requests != [] ==> requests[0].at <= last + gap)
    && (forall i, j :: 0 <= i && j == i + 1 && j < |requests| ==> requests[j].at <= requests[i].at + gap)
  }

  /** Requests no further apart than idle - min(1 min, idle/4) are never timed out before
      the absolute timeout. */
  lemma {:induction false} BusySessionKept(o: Options, s: Session, last: Time, requests: seq<Request>)
    requires Regular(o, s) && s.lastSeen <= last && Ordered(last, requests) && AllSaved(requests)
    requires s.expires >= last + o.idle - Grace(o)
    requires forall i :: 0 <= i < |requests| ==> requests[i].admitted
    requires Spaced(last, requests, o.idle - Grace(o))
    ensures forall i :: 0 <= i < |requests| ==>
      (Accepted(o, Some(s), requests)[i] <==> requests[i].at <= s.created + o.absolute)
    decreases |requests|
  {
    if requests != [] {
      var r := requests[0];
      var next := Visit(o, Some(s), r);
      if next.Some? {
        ExpiryWithinGrace(o, s, r);
        BusySessionKept(o, next.value, r.at, requests[1..]);
      } else {
        assert requests[0].admitted && r.at > s.created + o.absolute;
        assert forall i :: 0 <= i < |requests| ==> requests[0].at <= requests[i].at;
        GoneStaysGone(o, requests[1..]);
      }
    }
  }

  /** With a failing store the lower bound is lost: the session below, whose idle time is a
      minute, is timed out ten seconds after an accepted request. */
  lemma FailedWriteTimesOutBusySession()
    ensures var o := Options(MINUTE, 100 * MINUTE);
      var s := Started(o, "u", 0);
      forall r: Request :: r.at == 70 * SECOND ==>
        Visit(o, Visit(o, Some(s), Request(60 * SECOND, true, false)), r) == None
  {
  }

  function AsAdmitted(requests: seq<Request>): (r: seq<Request>)
    ensures |r| == |requests|
    ensures forall i :: 0 <= i < |requests| ==> r[i] == Request(requests[i].at, true, requests[i].saved)
  {
    seq(|requests|, i requires 0 <= i < |requests| => requests[i].(admitted := true))
  }

  /** The account and the consent are looked at only when a request comes: a request is
      accepted exactly when no earlier request found the user locked out and the timeouts
      alone accept it. What happened between the requests leaves no trace. */
  lemma {:induction false} AdmissionOnlySampled(o: Options, row: Option<Session>, requests: seq<Request>, n: nat)
    requires n < |requests|
    ensures Accepted(o, row, requests)[n] <==>
      (forall i :: 0 <= i <= n ==> requests[i].admitted) && Accepted(o, row, AsAdmitted(requests))[n]
    decreases |requests|
  {
    var r := requests[0];
    var next := Visit(o, row, r);
    assert AsAdmitted(requests)[1..] == AsAdmitted(requests[1..]);
    if r.admitted {
      if n > 0 {
        AdmissionOnlySampled(o, next, requests[1..], n - 1);
        if forall i :: 0 <= i <= n - 1 ==> requests[1..][i].admitted {
          assert forall i :: 0 < i <= n ==> requests[i] == requests[1..][i - 1];
        } else {
          var i :| 0 <= i <= n - 1 && !requests[1..][i].admitted;
          assert !requests[i + 1].admitted;
        }
      }
    } else {
      GoneStaysGone(o, requests[1..]);
      assert !requests[0].admitted;
    }
  }
}
