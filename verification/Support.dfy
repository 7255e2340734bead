/** The hoster's support access (internal/auth/support.go): the admins' consent, the one-time
    login tickets, and the sessions they open.

    `Desk` holds the tickets and the consent and updates them as the source does. The
    theorems are about every interleaving of calls: an asking, a redeeming and a checking
    call are each cut where the source gives up its lock or goes back to the store. */
module Support {
  import opened Clock
  import opened Seqs
  import opened Sessions

  type Token = nat

  const TICKET_TTL: nat := 2 * MINUTE
  const MAX_TICKETS: nat := 5
  const MAX_HOSTER: nat := 100

  datatype Ticket = Ticket(hoster: string, expires: Time)

  type Tickets = map<Token, Ticket>

  /** The consent a request stores: "until" is kept in whole seconds, and zero means until
      revoked. None when the end already lies in the past. */
  function Requested(allowed: bool, until: Time, now: Time): (c: Option<Consent>)
    ensures c == None <==> allowed && 0 < until <= now
    ensures c == Some(Refused) <==> !allowed
    ensures c == Some(Always) <==> allowed && until == 0
    ensures c.Some? && c.value.Until? ==> until - SECOND < c.value.end <= until && c.value.end % SECOND == 0
  {
    if !allowed then Some(Refused)
    else if until == 0 then Some(Always)
    else if now >= until then None
    else Some(Until(until - until % SECOND))
  }

  function Shorten(hoster: string): string {
    if |hoster| > MAX_HOSTER then hoster[..MAX_HOSTER] else hoster
  }

  /** The tickets that have not expired. */
  function Unexpired(tickets: Tickets, now: Time): Tickets {
    map t | t in tickets && now <= tickets[t].expires :: tickets[t]
  }

  /** Asking for a link drops the expired ones first, and fails with five left. */
  function Inserted(tickets: Tickets, token: Token, hoster: string, now: Time): Tickets {
    var open := Unexpired(tickets, now);
    if |open| >= MAX_TICKETS then open
    else open[token := Ticket(Shorten(hoster), now + TICKET_TTL)]
  }

  /** The other tickets stay for their two minutes; with fewer than five of them a new one
      comes, for two minutes and for a name of at most a hundred characters. */
  lemma InsertedExactly(tickets: Tickets, token: Token, hoster: string, now: Time)
    requires token !in tickets
    ensures var n := Inserted(tickets, token, hoster, now);
      && (forall t :: t in tickets ==> (t in n <==> now <= tickets[t].expires) && (t in n ==> n[t] == tickets[t]))
      && (forall t :: t in n ==> t in tickets || t == token)
      && (token in n <==> |set t | t in tickets && now <= tickets[t].expires| < 5)
      && (token in n ==> n[token] == Ticket(if |hoster| < 100 then hoster else hoster[..100], now + 120 * SECOND))
  {
    var open := Unexpired(tickets, now);
    assert open.Keys == set t | t in tickets && now <= tickets[t].expires;
    assert |open| == |open.Keys|;
  }

  datatype Redeemed = NoTicket | NotAllowed | Opened(hoster: string)

  class Desk {
    var consent: Consent
    var tickets: Tickets
    /** The ids of the support user's sessions. */
    var sessions: set<string>

    constructor ()
      ensures consent == Refused && tickets == map[] && sessions == {}
    {
      consent, tickets, sessions := Refused, map[], {};
    }

    method SetSupportAccess(allowed: bool, until: Time, now: Time) returns (ok: bool)
      modifies this`consent, this`sessions
      ensures var c := Requested(allowed, until, now);
        && (ok <==> c.Some?)
        && consent == (if ok then c.value else old(consent))
        && sessions == if c == Some(Refused) then {} else old(sessions)
    {
      var v := Refused;
      if allowed && until == 0 {
        v := Always;
      } else if allowed {
        if now >= until {
          return false;
        }
        v := Until(until - until % SECOND);
      }
      consent := v;
      if v == Refused {
        sessions := {};
      }
      return true;
    }

    /** `token` is fresh and random; `asked` is when the consent is read, `now` when the
        lock is held. */
    method IssueSupportLogin(hoster: string, token: Token, asked: Time, now: Time) returns (ok: bool)
      modifies this`tickets
      ensures var allowed := Active(Read(consent, asked), asked);
        && tickets == (if allowed then Inserted(old(tickets), token, hoster, now) else old(tickets))
        && (ok <==> allowed && |Unexpired(old(tickets), now)| < MAX_TICKETS)
    {
      var a := Read(consent, asked);
      if !Active(a, asked) {
        return false;
      }
      var rest := tickets.Keys;
      while rest != {}
        invariant rest <= old(tickets).Keys
        invariant tickets == map t | t in old(tickets) && (t in rest || now <= old(tickets)[t].expires) :: old(tickets)[t]
        decreases rest
      {
        var k :| k in rest;
        if now > tickets[k].expires {
          tickets := tickets - {k};
        }
        rest := rest - {k};
      }
      assert tickets == Unexpired(old(tickets), now);
      if |tickets| >= MAX_TICKETS {
        return false;
      }
      tickets := tickets[token := Ticket(Shorten(hoster), now + TICKET_TTL)];
      return true;
    }

    method RedeemSupportLogin(token: Token, id: string, now: Time) returns (r: Redeemed)
      modifies this`tickets, this`sessions
      ensures tickets == old(tickets) - {token}
      ensures r == if token !in old(tickets) || now > old(tickets)[token].expires then NoTicket
                   else if !Active(Read(consent, now), now) then NotAllowed
                   else Opened(old(tickets)[token].hoster)
      ensures sessions == if r.Opened? then old(sessions) + {id} else old(sessions)
    {
      var known := token in tickets;
      var t := if known then tickets[token] else Ticket("", 0);
      tickets := tickets - {token};
      if !known || now > t.expires {
        return NoTicket;
      }
      var a := Read(consent, now);
      if !Active(a, now) {
        return NotAllowed;
      }
      sessions := sessions + {id};
      return Opened(t.hoster);
    }
  }

  // ---- Interleaved calls ----

  /** Where a call stands between two of its steps. */
  datatype Call =
    | Issuing(token: Token)
    | Taken(token: Token, ticket: Ticket)
    | Valid(token: Token)
    | Cleared(token: Token)
    | Checking(sid: nat, ts: Time, row: Sessions.Session)

  /** What happened, in order. */
  datatype Entry =
    | Consented(consent: Consent)
    | TicketIssued(token: Token, at: Time)
    | TicketRedeemed(token: Token, at: Time)
    | SessionStarted(sid: nat, token: Token)
    | RequestAccepted(sid: nat, ts: Time, at: Time)

  /** Whose turn it is with a token, for the bookkeeping of the proof. */
  datatype Stage = Waiting(call: nat) | Open(expires: Time) | Held(call: nat, expires: Time) | Proven(call: nat) | Spent

  datatype State = State(
    now: Time,
    consent: Consent,
    tickets: Tickets,
    nextToken: Token,
    sessions: map<nat, Sessions.Session>,
    nextSession: nat,
    calls: map<nat, Call>,
    stages: map<Token, Stage>,
    log: seq<Entry>)

  datatype Event =
    | Tick(d: nat)
    | StoreConsent(allowed: bool, until: Time)
    | EndSessions
    | IssueCheck(call: nat)
    | IssueInsert(call: nat, hoster: string)
    | Take(call: nat, token: Token)
    | CheckExpiry(call: nat)
    | CheckConsent(call: nat)
    | Start(call: nat)
    | SeeSession(call: nat, sid: nat)
    | Decide(call: nat, saved: bool)

  function Initial(now: Time, consent: Consent): State {
    State(now, consent, map[], 0, map[], 0, map[], map[], [Consented(consent)])
  }

  predicate ConsentNow(s: State) {
    Active(Read(s.consent, s.now), s.now)
  }

  function Done(s: State, c: nat): State {
    s.(calls := s.calls - {c})
  }

  function StoreStep(s: State, allowed: bool, until: Time): State {
    var c := Requested(allowed, until, s.now);
    if c.None? then s else s.(consent := c.value, log := s.log + [Consented(c.value)])
  }

  function IssueCheckStep(s: State, c: nat): State {
    if c in s.calls || !ConsentNow(s) then s
    else s.(calls := s.calls[c := Issuing(s.nextToken)], nextToken := s.nextToken + 1,
            stages := s.stages[s.nextToken := Waiting(c)])
  }

  function IssueInsertStep(s: State, c: nat, hoster: string): State {
    if c !in s.calls || !s.calls[c].Issuing? then s
    else
      var t := s.calls[c].token;
      var added := |Unexpired(s.tickets, s.now)| < MAX_TICKETS;
      Done(s, c).(
        tickets := Inserted(s.tickets, t, hoster, s.now),
        stages := if added then s.stages[t := Open(s.now + TICKET_TTL)] else s.stages,
        log := if added then s.log + [TicketIssued(t, s.now)] else s.log)
  }

  function TakeStep(s: State, c: nat, t: Token): State {
    if c in s.calls || t !in s.tickets then s
    else
      s.(tickets := s.tickets - {t}, calls := s.calls[c := Taken(t, s.tickets[t])],
         stages := s.stages[t := Held(c, s.tickets[t].expires)])
  }

  function CheckExpiryStep(s: State, c: nat): State {
    if c !in s.calls || !s.calls[c].Taken? then s
    else if s.now > s.calls[c].ticket.expires then Done(s, c)
    else
      var t := s.calls[c].token;
      s.(calls := s.calls[c := Valid(t)], stages := s.stages[t := Proven(c)], log := s.log + [TicketRedeemed(t, s.now)])
  }

  function CheckConsentStep(s: State, c: nat): State {
    if c !in s.calls || !s.calls[c].Valid? then s
    else if !ConsentNow(s) then Done(s, c)
    else s.(calls := s.calls[c := Cleared(s.calls[c].token)])
  }

  function StartStep(o: Options, s: State, c: nat): State {
    if c !in s.calls || !s.calls[c].Cleared? then s
    else
      var t := s.calls[c].token;
      Done(s, c).(
        sessions := s.sessions[s.nextSession := Started(o, "support", s.now)], nextSession := s.nextSession + 1,
        stages := s.stages[t := Spent], log := s.log + [SessionStarted(s.nextSession, t)])
  }

  function SeeStep(o: Options, s: State, c: nat, sid: nat): State {
    if c in s.calls || sid !in s.sessions then s
    else if !Live(o, s.sessions[sid], s.now) then s.(sessions := s.sessions - {sid})
    else s.(calls := s.calls[c := Checking(sid, s.now, s.sessions[sid])])
  }

  function DecideStep(o: Options, s: State, c: nat, saved: bool): State {
    if c !in s.calls || !s.calls[c].Checking? then s
    else
      var k := s.calls[c];
      var d := Done(s, c);
      if !Active(Read(s.consent, s.now), k.ts) then d.(sessions := s.sessions - {k.sid})
      else
        var touch := saved && TouchDue(o, k.row, k.ts) && k.sid in s.sessions;
        d.(sessions := if touch then s.sessions[k.sid := s.sessions[k.sid].(lastSeen := k.ts, expires := k.ts + o.idle)] else s.sessions,
           log := s.log + [RequestAccepted(k.sid, k.ts, s.now)])
  }

  function Step(o: Options, s: State, e: Event): (n: State)
    ensures n.now == s.now + if e.Tick? then e.d else 0
  {
    match e
    case Tick(d) => s.(now := s.now + d)
    case StoreConsent(allowed, until) => StoreStep(s, allowed, until)
    case EndSessions => s.(sessions := map[])
    case IssueCheck(c) => IssueCheckStep(s, c)
    case IssueInsert(c, hoster) => IssueInsertStep(s, c, hoster)
    case Take(c, t) => TakeStep(s, c, t)
    case CheckExpiry(c) => CheckExpiryStep(s, c)
    case CheckConsent(c) => CheckConsentStep(s, c)
    case Start(c) => StartStep(o, s, c)
    case SeeSession(c, sid) => SeeStep(o, s, c, sid)
    case Decide(c, saved) => DecideStep(o, s, c, saved)
  }

  function Run(o: Options, s: State, events: seq<Event>): State
    decreases |events|
  {
    if events == [] then s else Run(o, Step(o, s, events[0]), events[1..])
  }

  // ---- A call that no other one interrupts ----

  /** The steps of an asking call together are `IssueSupportLogin`. */
  lemma AloneIsIssue(s: State, c: nat, hoster: string)
    requires c !in s.calls
    ensures var n := IssueInsertStep(IssueCheckStep(s, c), c, hoster);
      && n.tickets == (if Active(Read(s.consent, s.now), s.now) then Inserted(s.tickets, s.nextToken, hoster, s.now) else s.tickets)
      && n.calls == s.calls && n.sessions == s.sessions
  {
    assert IssueCheckStep(s, c).calls - {c} == s.calls;
  }

  lemma TakenThenChecked(s: State, c: nat, t: Token)
    requires c !in s.calls && t in s.tickets
    ensures var n := CheckConsentStep(CheckExpiryStep(TakeStep(s, c, t), c), c);
      && n.tickets == s.tickets - {t} && n.sessions == s.sessions && n.nextSession == s.nextSession && n.now == s.now
      && n.calls == if s.now <= s.tickets[t].expires && Active(Read(s.consent, s.now), s.now)
                    then s.calls[c := Cleared(t)] else s.calls
  {
    assert s.calls[c := Taken(t, s.tickets[t])] - {c} == s.calls;
    assert s.calls[c := Taken(t, s.tickets[t])][c := Valid(t)] - {c} == s.calls;
  }

  /** The steps of a redeeming call together are `RedeemSupportLogin`. */
  lemma AloneIsRedeem(o: Options, s: State, c: nat, t: Token)
    requires c !in s.calls && t in s.tickets
    ensures var n := StartStep(o, CheckConsentStep(CheckExpiryStep(TakeStep(s, c, t), c), c), c);
      && n.tickets == s.tickets - {t} && n.calls == s.calls
      && n.sessions == if s.now <= s.tickets[t].expires && Active(Read(s.consent, s.now), s.now)
                       then s.sessions[s.nextSession := Started(o, "support", s.now)] else s.sessions
  {
    TakenThenChecked(s, c, t);
    assert s.calls[c := Cleared(t)] - {c} == s.calls;
  }

  /** The steps of a check together are the check of a session in one step. */
  lemma AloneIsVisit(o: Options, s: State, c: nat, sid: nat, saved: bool)
    requires c !in s.calls && sid in s.sessions
    ensures var n := DecideStep(o, SeeStep(o, s, c, sid), c, saved);
      var after := Visit(o, Some(s.sessions[sid]), Request(s.now, Active(Read(s.consent, s.now), s.now), saved));
      && n.sessions == (if after.Some? then s.sessions[sid := after.value] else s.sessions - {sid})
      && n.calls == s.calls
      && n.log == (if after.Some? then s.log + [RequestAccepted(sid, s.now, s.now)] else s.log)
  {
    assert s.calls[c := Checking(sid, s.now, s.sessions[sid])] - {c} == s.calls;
    assert s.sessions[sid := s.sessions[sid]] == s.sessions;
  }

  // ---- What the log must look like ----

  /** The consent in force after the entries so far. */
  function ConsentAfter(log: seq<Entry>): Consent {
    if log == [] then Refused
    else if log[|log| - 1].Consented? then log[|log| - 1].consent
    else ConsentAfter(log[..|log| - 1])
  }

  /** Issued before, for two minutes from then on. */
  ghost predicate IssuedUntil(log: seq<Entry>, token: Token, expires: Time) {
    exists j :: 0 <= j < |log| && log[j].TicketIssued? && log[j].token == token && log[j].at + TICKET_TTL == expires
  }

  /** Redeemed once, and at most two minutes after it was issued. */
  ghost predicate RedeemedInTime(log: seq<Entry>, i: nat)
    requires i < |log|
  {
    log[i].TicketRedeemed? ==>
      && (forall j :: 0 <= j < i && log[j].TicketRedeemed? ==> log[j].token != log[i].token)
      && exists j :: 0 <= j < i && log[j].TicketIssued? && log[j].token == log[i].token
           && log[i].at <= log[j].at + TICKET_TTL
  }

  ghost predicate StartedFromTicket(log: seq<Entry>, i: nat)
    requires i < |log|
  {
    log[i].SessionStarted? ==>
      && (forall j :: 0 <= j < i && log[j].SessionStarted? ==> log[j].token != log[i].token && log[j].sid != log[i].sid)
      && exists j :: 0 <= j < i && log[j].TicketRedeemed? && log[j].token == log[i].token
  }

  /** The consent stored when the request was decided held both then and when the request's
      check began. */
  ghost predicate AcceptedUnderConsent(log: seq<Entry>, i: nat)
    requires i < |log|
  {
    log[i].RequestAccepted? ==>
      && log[i].ts <= log[i].at
      && Active(ConsentAfter(log[..i]), log[i].ts) && Active(ConsentAfter(log[..i]), log[i].at)
  }

  ghost predicate Orderly(log: seq<Entry>) {
    forall i :: 0 <= i < |log| ==> RedeemedInTime(log, i) && StartedFromTicket(log, i) && AcceptedUnderConsent(log, i)
  }

  // ---- The invariant ----

  ghost predicate TicketsTracked(s: State) {
    forall t :: t in s.tickets ==> t in s.stages && s.stages[t] == Open(s.tickets[t].expires)
  }

  ghost predicate CallTracked(s: State, c: nat)
    requires c in s.calls
  {
    match s.calls[c]
    case Issuing(t) => t in s.stages && s.stages[t] == Waiting(c)
    case Taken(t, k) => t in s.stages && s.stages[t] == Held(c, k.expires)
    case Valid(t) => t in s.stages && s.stages[t] == Proven(c)
    case Cleared(t) => t in s.stages && s.stages[t] == Proven(c)
    case Checking(sid, ts, row) => ts <= s.now
  }

  ghost predicate CallsTracked(s: State) {
    forall c :: c in s.calls ==> CallTracked(s, c)
  }

  ghost predicate RedeemedBefore(log: seq<Entry>, t: Token) {
    exists j :: 0 <= j < |log| && log[j].TicketRedeemed? && log[j].token == t
  }

  ghost predicate StageLogged(log: seq<Entry>, t: Token, stage: Stage) {
    match stage
    case Open(expires) => IssuedUntil(log, t, expires)
    case Held(c, expires) => IssuedUntil(log, t, expires)
    case Proven(c) => RedeemedBefore(log, t)
    case _ => true
  }

  ghost predicate StagesLogged(s: State) {
    forall t :: t in s.stages ==> t < s.nextToken && StageLogged(s.log, t, s.stages[t])
  }

  ghost predicate EntryTracked(s: State, e: Entry) {
    match e
    case TicketRedeemed(t, at) => t in s.stages && (s.stages[t].Proven? || s.stages[t].Spent?)
    case SessionStarted(sid, t) => t in s.stages && s.stages[t].Spent? && sid < s.nextSession
    case _ => true
  }

  ghost predicate LogTracked(s: State) {
    && ConsentAfter(s.log) == s.consent
    && Orderly(s.log)
    && forall i :: 0 <= i < |s.log| ==> EntryTracked(s, s.log[i])
  }

  ghost predicate Inv(s: State) {
    && |s.tickets| <= MAX_TICKETS
    && TicketsTracked(s) && CallsTracked(s) && StagesLogged(s) && LogTracked(s)
  }

  // ---- Preservation ----

  /** Appending an entry that is itself in order keeps the log in order. */
  lemma OrderlyAppend(log: seq<Entry>, e: Entry)
    requires Orderly(log)
    requires var l := log + [e]; RedeemedInTime(l, |log|) && StartedFromTicket(l, |log|) && AcceptedUnderConsent(l, |log|)
    ensures Orderly(log + [e])
    ensures ConsentAfter(log + [e]) == if e.Consented? then e.consent else ConsentAfter(log)
  {
    var l := log + [e];
    assert l[..|l| - 1] == log;
    forall i | 0 <= i < |log|
      ensures RedeemedInTime(l, i) && StartedFromTicket(l, i) && AcceptedUnderConsent(l, i)
    {
      assert RedeemedInTime(log, i) && StartedFromTicket(log, i) && AcceptedUnderConsent(log, i);
      assert l[..i] == log[..i] && l[i] == log[i];
    }
  }

  /** A token's stage moves on only through the call that has it. */
  ghost predicate StagesMove(s: State, n: State, c: nat) {
    forall t :: t in s.stages ==> (t in n.stages && StageMoves(s.stages[t], n.stages[t], c))
  }

  ghost predicate StageMoves(x: Stage, y: Stage, c: nat) {
    y == x ||
    match x
    case Waiting(k) => k == c
    case Open(_) => true
    case Held(k, _) => k == c
    case Proven(k) => k == c && (y.Proven? || y.Spent?)
    case Spent => false
  }

  /** The calls other than `c` are where they were. */
  lemma OthersTracked(s: State, n: State, c: nat)
    requires CallsTracked(s) && StagesMove(s, n, c) && n.now >= s.now
    requires forall k :: k in n.calls && k != c ==> k in s.calls && n.calls[k] == s.calls[k]
    requires c in n.calls ==> CallTracked(n, c)
    ensures CallsTracked(n)
  {
    forall k | k in n.calls ensures CallTracked(n, k) {
      if k != c { assert CallTracked(s, k); }
    }
  }

  /** The log is as before. */
  lemma SameLogTracked(s: State, n: State, c: nat)
    requires LogTracked(s) && StagesMove(s, n, c)
    requires n.log == s.log && n.consent == s.consent && n.nextSession == s.nextSession
    ensures LogTracked(n)
  {
    forall i | 0 <= i < |n.log| ensures EntryTracked(n, n.log[i]) {
      assert EntryTracked(s, s.log[i]);
    }
  }

  /** The log has one more entry. */
  lemma LongerLogTracked(s: State, n: State, c: nat, e: Entry)
    requires LogTracked(s) && StagesMove(s, n, c)
    requires n.log == s.log + [e] && n.nextSession >= s.nextSession
    requires n.consent == if e.Consented? then e.consent else s.consent
    requires RedeemedInTime(n.log, |s.log|) && StartedFromTicket(n.log, |s.log|) && AcceptedUnderConsent(n.log, |s.log|)
    requires EntryTracked(n, e)
    ensures LogTracked(n)
  {
    OrderlyAppend(s.log, e);
    forall i | 0 <= i < |n.log| ensures EntryTracked(n, n.log[i]) {
      if i < |s.log| { assert EntryTracked(s, s.log[i]); }
    }
  }

  lemma StageLoggedAppend(log: seq<Entry>, e: Entry, t: Token, stage: Stage)
    requires StageLogged(log, t, stage)
    ensures StageLogged(log + [e], t, stage)
  {
    var l := log + [e];
    match stage
    case Open(x) =>
      var j :| 0 <= j < |log| && log[j].TicketIssued? && log[j].token == t && log[j].at + TICKET_TTL == x;
      assert l[j] == log[j];
    case Held(c, x) =>
      var j :| 0 <= j < |log| && log[j].TicketIssued? && log[j].token == t && log[j].at + TICKET_TTL == x;
      assert l[j] == log[j];
    case Proven(c) =>
      var j :| 0 <= j < |log| && log[j].TicketRedeemed? && log[j].token == t;
      assert l[j] == log[j];
    case _ =>
  }

  /** The stages that did not change are still logged, with one more entry. */
  lemma LongerStagesLogged(s: State, n: State, e: Entry)
    requires StagesLogged(s) && n.log == s.log + [e] && n.nextToken == s.nextToken
    requires forall t :: t in n.stages && (t !in s.stages || n.stages[t] != s.stages[t]) ==>
      t < n.nextToken && StageLogged(n.log, t, n.stages[t])
    ensures StagesLogged(n)
  {
    forall t | t in n.stages ensures t < n.nextToken && StageLogged(n.log, t, n.stages[t]) {
      if t in s.stages && n.stages[t] == s.stages[t] { StageLoggedAppend(s.log, e, t, s.stages[t]); }
    }
  }

  lemma UnexpiredFewer(tickets: Tickets, now: Time)
    ensures |Unexpired(tickets, now)| <= |tickets|
  {
    var open := Unexpired(tickets, now);
    assert open.Keys <= tickets.Keys;
    CardinalitySubset(open.Keys, tickets.Keys);
    assert |open| == |open.Keys| && |tickets| == |tickets.Keys|;
  }

  lemma {:induction false} CardinalitySubset<T>(a: set<T>, b: set<T>)
    requires a <= b
    ensures |a| <= |b|
    decreases a
  {
    if a != {} {
      var x :| x in a;
      CardinalitySubset(a - {x}, b - {x});
    }
  }

  lemma StoreKeeps(s: State, allowed: bool, until: Time)
    requires Inv(s)
    ensures Inv(StoreStep(s, allowed, until))
  {
    var c := Requested(allowed, until, s.now);
    if c.Some? {
      var n, e := StoreStep(s, allowed, until), Consented(c.value);
      OthersTracked(s, n, 0) by { CallsStay(s, n); }
      LongerStagesLogged(s, n, e);
      LongerLogTracked(s, n, 0, e);
    }
  }

  lemma IssueCheckKeeps(s: State, c: nat)
    requires Inv(s)
    ensures Inv(IssueCheckStep(s, c))
  {
    var n := IssueCheckStep(s, c);
    if n != s {
      assert s.nextToken !in s.stages;
      OthersTracked(s, n, c);
      SameLogTracked(s, n, c);
    }
  }

  lemma IssueFullKeeps(s: State, c: nat, hoster: string)
    requires Inv(s) && c in s.calls && s.calls[c].Issuing?
    requires |Unexpired(s.tickets, s.now)| >= MAX_TICKETS
    ensures Inv(IssueInsertStep(s, c, hoster))
  {
    var n := IssueInsertStep(s, c, hoster);
    UnexpiredFewer(s.tickets, s.now);
    OthersTracked(s, n, c);
    SameLogTracked(s, n, c);
  }

  lemma OneMore<K, V>(m: map<K, V>, k: K, v: V)
    ensures |m[k := v]| <= |m| + 1
  {
    assert m[k := v].Keys == m.Keys + {k};
    assert |m[k := v].Keys| == |m[k := v]| && |m.Keys| == |m|;
  }

  /** One token's stage moves. */
  lemma OneStageMoves(s: State, n: State, c: nat, t: Token, y: Stage)
    requires n.stages == s.stages[t := y] && t in s.stages && StageMoves(s.stages[t], y, c)
    ensures StagesMove(s, n, c)
  {
  }

  lemma IssueAddedTickets(s: State, c: nat, hoster: string)
    requires TicketsTracked(s) && c in s.calls && s.calls[c].Issuing? && CallTracked(s, c)
    requires |Unexpired(s.tickets, s.now)| < MAX_TICKETS
    ensures |IssueInsertStep(s, c, hoster).tickets| <= MAX_TICKETS
    ensures TicketsTracked(IssueInsertStep(s, c, hoster))
  {
    var t := s.calls[c].token;
    assert t !in s.tickets;
    OneMore(Unexpired(s.tickets, s.now), t, Ticket(Shorten(hoster), s.now + TICKET_TTL));
  }

  lemma IssueAddedCalls(s: State, c: nat, hoster: string)
    requires CallsTracked(s) && c in s.calls && s.calls[c].Issuing?
    requires |Unexpired(s.tickets, s.now)| < MAX_TICKETS
    ensures var n := IssueInsertStep(s, c, hoster);
      StagesMove(s, n, c) && CallsTracked(n)
  {
    var n := IssueInsertStep(s, c, hoster);
    assert CallTracked(s, c);
    OneStageMoves(s, n, c, s.calls[c].token, Open(s.now + TICKET_TTL));
    OthersTracked(s, n, c);
  }

  lemma IssueAddedLog(s: State, c: nat, hoster: string)
    requires StagesLogged(s) && LogTracked(s) && c in s.calls && s.calls[c].Issuing? && CallTracked(s, c)
    requires |Unexpired(s.tickets, s.now)| < MAX_TICKETS
    requires StagesMove(s, IssueInsertStep(s, c, hoster), c)
    ensures StagesLogged(IssueInsertStep(s, c, hoster)) && LogTracked(IssueInsertStep(s, c, hoster))
  {
    var n := IssueInsertStep(s, c, hoster);
    var t := s.calls[c].token;
    var e := TicketIssued(t, s.now);
    assert IssuedUntil(n.log, t, s.now + TICKET_TTL) by {
      assert n.log[|s.log|] == e;
    }
    LongerStagesLogged(s, n, e);
    PlainEntryInOrder(s.log, e);
    LongerLogTracked(s, n, c, e);
  }

  lemma IssueAddedKeeps(s: State, c: nat, hoster: string)
    requires Inv(s) && c in s.calls && s.calls[c].Issuing?
    requires |Unexpired(s.tickets, s.now)| < MAX_TICKETS
    ensures Inv(IssueInsertStep(s, c, hoster))
  {
    assert CallTracked(s, c);
    IssueAddedCalls(s, c, hoster);
    IssueAddedLog(s, c, hoster);
    IssueAddedTickets(s, c, hoster);
  }

  lemma PlainEntryInOrder(log: seq<Entry>, e: Entry)
    requires e.Consented? || e.TicketIssued?
    ensures var l := log + [e];
      RedeemedInTime(l, |log|) && StartedFromTicket(l, |log|) && AcceptedUnderConsent(l, |log|)
  {
  }

  lemma IssueInsertKeeps(s: State, c: nat, hoster: string)
    requires Inv(s)
    ensures Inv(IssueInsertStep(s, c, hoster))
  {
    if c in s.calls && s.calls[c].Issuing? {
      if |Unexpired(s.tickets, s.now)| < MAX_TICKETS {
        IssueAddedKeeps(s, c, hoster);
      } else {
        IssueFullKeeps(s, c, hoster);
      }
    }
  }

  lemma FewerTickets(tickets: Tickets, t: Token)
    ensures |tickets - {t}| <= |tickets|
  {
    CardinalitySubset((tickets - {t}).Keys, tickets.Keys);
    assert |tickets - {t}| == |(tickets - {t}).Keys| && |tickets| == |tickets.Keys|;
  }

  lemma TakeCalls(s: State, c: nat, t: Token)
    requires CallsTracked(s) && TicketsTracked(s) && c !in s.calls && t in s.tickets
    ensures var n := TakeStep(s, c, t);
      StagesMove(s, n, c) && CallsTracked(n) && TicketsTracked(n)
  {
    var n := TakeStep(s, c, t);
    OneStageMoves(s, n, c, t, Held(c, s.tickets[t].expires));
    OthersTracked(s, n, c);
  }

  lemma TakeLog(s: State, c: nat, t: Token)
    requires TicketsTracked(s) && StagesLogged(s) && LogTracked(s) && c !in s.calls && t in s.tickets
    requires StagesMove(s, TakeStep(s, c, t), c)
    ensures StagesLogged(TakeStep(s, c, t)) && LogTracked(TakeStep(s, c, t))
  {
    SameLogTracked(s, TakeStep(s, c, t), c);
  }

  lemma TakeKeeps(s: State, c: nat, t: Token)
    requires Inv(s)
    ensures Inv(TakeStep(s, c, t))
  {
    if c !in s.calls && t in s.tickets {
      FewerTickets(s.tickets, t);
      TakeCalls(s, c, t);
      TakeLog(s, c, t);
    }
  }

  lemma ProvenCalls(s: State, c: nat)
    requires CallsTracked(s) && c in s.calls && s.calls[c].Taken? && s.now <= s.calls[c].ticket.expires
    ensures var n := CheckExpiryStep(s, c);
      StagesMove(s, n, c) && CallsTracked(n)
  {
    var n := CheckExpiryStep(s, c);
    assert CallTracked(s, c);
    OneStageMoves(s, n, c, s.calls[c].token, Proven(c));
    OthersTracked(s, n, c);
  }

  lemma ProvenLog(s: State, c: nat)
    requires StagesLogged(s) && LogTracked(s)
    requires c in s.calls && s.calls[c].Taken? && s.now <= s.calls[c].ticket.expires && CallTracked(s, c)
    requires StagesMove(s, CheckExpiryStep(s, c), c)
    requires RedeemedInTime(s.log + [TicketRedeemed(s.calls[c].token, s.now)], |s.log|)
    ensures StagesLogged(CheckExpiryStep(s, c)) && LogTracked(CheckExpiryStep(s, c))
  {
    var n := CheckExpiryStep(s, c);
    var e := TicketRedeemed(s.calls[c].token, s.now);
    assert n.log[|s.log|] == e;
    assert RedeemedBefore(n.log, s.calls[c].token);
    LongerStagesLogged(s, n, e);
    LongerLogTracked(s, n, c, e);
  }

  lemma ProvenKeeps(s: State, c: nat)
    requires Inv(s) && c in s.calls && s.calls[c].Taken? && s.now <= s.calls[c].ticket.expires
    ensures Inv(CheckExpiryStep(s, c))
  {
    assert CallTracked(s, c);
    ProvenCalls(s, c);
    RedeemInTime(s, c);
    ProvenLog(s, c);
  }

  lemma CheckExpiryKeeps(s: State, c: nat)
    requires Inv(s)
    ensures Inv(CheckExpiryStep(s, c))
  {
    if c in s.calls && s.calls[c].Taken? {
      if s.now > s.calls[c].ticket.expires {
        var n := CheckExpiryStep(s, c);
        OthersTracked(s, n, c);
        SameLogTracked(s, n, c);
      } else {
        ProvenKeeps(s, c);
      }
    }
  }

  lemma RedeemInTime(s: State, c: nat)
    requires Inv(s) && c in s.calls && s.calls[c].Taken? && s.now <= s.calls[c].ticket.expires
    ensures RedeemedInTime(s.log + [TicketRedeemed(s.calls[c].token, s.now)], |s.log|)
  {
    var t, k := s.calls[c].token, s.calls[c].ticket;
    var l := s.log + [TicketRedeemed(t, s.now)];
    assert CallTracked(s, c);
    forall j | 0 <= j < |s.log| && s.log[j].TicketRedeemed? ensures l[j].token != t {
      assert EntryTracked(s, s.log[j]);
    }
    var j :| 0 <= j < |s.log| && s.log[j].TicketIssued? && s.log[j].token == t && s.log[j].at + TICKET_TTL == k.expires;
    assert l[j] == s.log[j];
  }

  lemma CheckConsentKeeps(s: State, c: nat)
    requires Inv(s)
    ensures Inv(CheckConsentStep(s, c))
  {
    if c in s.calls && s.calls[c].Valid? {
      var n := CheckConsentStep(s, c);
      assert CallTracked(s, c);
      OthersTracked(s, n, c);
      SameLogTracked(s, n, c);
    }
  }

  lemma StartCalls(o: Options, s: State, c: nat)
    requires CallsTracked(s) && c in s.calls && s.calls[c].Cleared?
    ensures var n := StartStep(o, s, c);
      StagesMove(s, n, c) && CallsTracked(n)
  {
    var n := StartStep(o, s, c);
    assert CallTracked(s, c);
    OneStageMoves(s, n, c, s.calls[c].token, Spent);
    OthersTracked(s, n, c);
  }

  lemma StartKeeps(o: Options, s: State, c: nat)
    requires Inv(s)
    ensures Inv(StartStep(o, s, c))
  {
    if c in s.calls && s.calls[c].Cleared? {
      var n := StartStep(o, s, c);
      var e := SessionStarted(s.nextSession, s.calls[c].token);
      assert CallTracked(s, c);
      StartCalls(o, s, c);
      StartFromTicket(s, c);
      LongerStagesLogged(s, n, e);
      LongerLogTracked(s, n, c, e);
    }
  }

  lemma StartFromTicket(s: State, c: nat)
    requires Inv(s) && c in s.calls && s.calls[c].Cleared?
    ensures StartedFromTicket(s.log + [SessionStarted(s.nextSession, s.calls[c].token)], |s.log|)
  {
    var t := s.calls[c].token;
    var l := s.log + [SessionStarted(s.nextSession, t)];
    assert CallTracked(s, c);
    forall j | 0 <= j < |s.log| && s.log[j].SessionStarted? ensures l[j].token != t && l[j].sid != s.nextSession {
      assert EntryTracked(s, s.log[j]);
    }
    var j :| 0 <= j < |s.log| && s.log[j].TicketRedeemed? && s.log[j].token == t;
    assert l[j] == s.log[j];
  }

  lemma SeeCalls(o: Options, s: State, c: nat, sid: nat)
    requires CallsTracked(s)
    ensures CallsTracked(SeeStep(o, s, c, sid))
  {
    var n := SeeStep(o, s, c, sid);
    OthersTracked(s, n, c) by { CallsStay(s, s); }
  }

  lemma SeeKeeps(o: Options, s: State, c: nat, sid: nat)
    requires Inv(s)
    ensures Inv(SeeStep(o, s, c, sid))
  {
    SeeCalls(o, s, c, sid);
    SameLogTracked(s, SeeStep(o, s, c, sid), c);
  }

  lemma DecideKeeps(o: Options, s: State, c: nat, saved: bool)
    requires Inv(s)
    ensures Inv(DecideStep(o, s, c, saved))
  {
    if c in s.calls && s.calls[c].Checking? {
      var n := DecideStep(o, s, c, saved);
      var k := s.calls[c];
      assert CallTracked(s, c);
      OthersTracked(s, n, c);
      if !Active(Read(s.consent, s.now), k.ts) {
        SameLogTracked(s, n, c);
      } else {
        var e := RequestAccepted(k.sid, k.ts, s.now);
        assert n.log[..|s.log|] == s.log;
        LongerStagesLogged(s, n, e);
        LongerLogTracked(s, n, c, e);
      }
    }
  }

  lemma CallsStay(s: State, n: State)
    requires CallsTracked(s) && n.calls == s.calls && n.stages == s.stages && n.now >= s.now
    ensures forall k :: k in n.calls ==> CallTracked(n, k)
  {
    forall k | k in n.calls ensures CallTracked(n, k) { assert CallTracked(s, k); }
  }

  lemma QuietKeeps(s: State, n: State)
    requires Inv(s) && n.now >= s.now && n == s.(now := n.now, sessions := n.sessions)
    ensures Inv(n)
  {
    CallsStay(s, n);
    SameLogTracked(s, n, 0);
  }

  /** The steps of an asking call, of a redeeming one up to its session, and of a check. */
  predicate OfIssue(e: Event) {
    e.IssueCheck? || e.IssueInsert?
  }

  predicate OfRedeem(e: Event) {
    e.Take? || e.CheckExpiry? || e.CheckConsent?
  }

  predicate OfSession(e: Event) {
    e.Start? || e.SeeSession? || e.Decide?
  }

  lemma IssueStepKeeps(o: Options, s: State, e: Event)
    requires Inv(s) && OfIssue(e)
    ensures Inv(Step(o, s, e))
  {
    var n := Step(o, s, e);
    match e
    case IssueCheck(c) =>
      assert n == IssueCheckStep(s, c);
      IssueCheckKeeps(s, c);
    case IssueInsert(c, hoster) =>
      assert n == IssueInsertStep(s, c, hoster);
      IssueInsertKeeps(s, c, hoster);
  }

  lemma RedeemStepKeeps(o: Options, s: State, e: Event)
    requires Inv(s) && OfRedeem(e)
    ensures Inv(Step(o, s, e))
  {
    var n := Step(o, s, e);
    match e
    case Take(c, t) =>
      assert n == TakeStep(s, c, t);
      TakeKeeps(s, c, t);
    case CheckExpiry(c) =>
      assert n == CheckExpiryStep(s, c);
      CheckExpiryKeeps(s, c);
    case CheckConsent(c) =>
      assert n == CheckConsentStep(s, c);
      CheckConsentKeeps(s, c);
  }

  lemma SessionStepKeeps(o: Options, s: State, e: Event)
    requires Inv(s) && OfSession(e)
    ensures Inv(Step(o, s, e))
  {
    var n := Step(o, s, e);
    match e
    case Start(c) =>
      assert n == StartStep(o, s, c);
      StartKeeps(o, s, c);
    case SeeSession(c, sid) =>
      assert n == SeeStep(o, s, c, sid);
      SeeKeeps(o, s, c, sid);
    case Decide(c, saved) =>
      assert n == DecideStep(o, s, c, saved);
      DecideKeeps(o, s, c, saved);
  }

  lemma OtherStepKeeps(o: Options, s: State, e: Event)
    requires Inv(s) && !OfIssue(e) && !OfRedeem(e) && !OfSession(e)
    ensures Inv(Step(o, s, e))
  {
    match e
    case Tick(d) => QuietKeeps(s, Step(o, s, e));
    case StoreConsent(allowed, until) => StoreKeeps(s, allowed, until);
    case EndSessions => QuietKeeps(s, Step(o, s, e));
  }

  lemma StepKeeps(o: Options, s: State, e: Event)
    requires Inv(s)
    ensures Inv(Step(o, s, e))
  {
    if OfIssue(e) {
      IssueStepKeeps(o, s, e);
    } else if OfRedeem(e) {
      RedeemStepKeeps(o, s, e);
    } else if OfSession(e) {
      SessionStepKeeps(o, s, e);
    } else {
      OtherStepKeeps(o, s, e);
    }
  }

  lemma {:induction false} RunKeeps(o: Options, s: State, events: seq<Event>)
    requires Inv(s)
    ensures Inv(Run(o, s, events))
    decreases |events|
  {
    if events != [] {
      StepKeeps(o, s, events[0]);
      RunKeeps(o, Step(o, s, events[0]), events[1..]);
    }
  }

  /** In every interleaving: at most five tickets are open, each is redeemed at most once and
      within two minutes, every session comes from a ticket of its own, and no request of a
      support session is accepted without the admins' consent at that moment. */
  lemma {:induction false} SupportOnlyWithConsent(o: Options, now: Time, consent: Consent, events: seq<Event>)
    ensures var s := Run(o, Initial(now, consent), events);
      |s.tickets| <= MAX_TICKETS && ConsentAfter(s.log) == s.consent && Orderly(s.log)
  {
    var s0 := Initial(now, consent);
    assert ConsentAfter(s0.log) == consent;
    RunKeeps(o, s0, events);
  }

  // ---- What the consent does not end ----

  /** A consent with an end is stored in whole seconds: one accepted by the check holds from
      the start exactly when it does not end within the current second. */
  lemma StoredConsentHolds(until: Time, now: Time)
    requires now < until
    ensures var c := Requested(true, until, now);
      c.Some? && (Active(Read(c.value, now), now) <==> now < until - until % SECOND)
  {
  }

  /** What is stored when a consent until `lapse` is given again, without an end, at `again`. */
  function GivenAgain(lapse: Time, again: Time, at: Time): Consent {
    if at < again then Until(lapse) else Always
  }

  /** A consent that runs out by itself ends no session that is not used meanwhile: over a run
      of requests, each is accepted exactly when no request so far came in the gap between the
      lapse and the renewal, and the timeouts alone accept it. */
  lemma {:induction false} LapsedSessionGoesOn(o: Options, row: Option<Sessions.Session>, requests: seq<Request>, lapse: Time, again: Time, n: nat)
    requires n < |requests|
    requires forall i :: 0 <= i < |requests| ==>
      var at := requests[i].at;
      requests[i].admitted == Active(Read(GivenAgain(lapse, again, at), at), at)
    ensures Accepted(o, row, requests)[n] <==>
      (forall i :: 0 <= i <= n ==> !(lapse <= requests[i].at < again)) && Accepted(o, row, AsAdmitted(requests))[n]
  {
    AdmissionOnlySampled(o, row, requests, n);
    assert forall i :: 0 <= i < |requests| ==> (requests[i].admitted <==> !(lapse <= requests[i].at < again));
  }

  // ---- What taking the consent back ends ----

  ghost predicate NoGrant(events: seq<Event>) {
    forall i :: 0 <= i < |events| ==> !(events[i].StoreConsent? && events[i].allowed)
  }

  /** A redeem has passed its consent check and not started its session yet. */
  predicate AboutToStart(s: State) {
    exists c :: c in s.calls && s.calls[c].Cleared?
  }

  predicate Ended(s: State) {
    s.consent == Refused && s.sessions == map[] && !AboutToStart(s)
  }

  lemma StepEnded(o: Options, s: State, e: Event)
    requires Ended(s) && !(e.StoreConsent? && e.allowed)
    ensures Ended(Step(o, s, e))
  {
    var n := Step(o, s, e);
    forall c | c in n.calls ensures !n.calls[c].Cleared? {
      assert c in s.calls ==> !s.calls[c].Cleared?;
    }
  }

  lemma {:induction false} RunEnded(o: Options, s: State, events: seq<Event>)
    requires Ended(s) && NoGrant(events)
    ensures Ended(Run(o, s, events))
    decreases |events|
  {
    if events != [] {
      assert !(events[0].StoreConsent? && events[0].allowed);
      StepEnded(o, s, events[0]);
      RunEnded(o, Step(o, s, events[0]), events[1..]);
    }
  }

  /** After the consent was taken back and the sessions deleted, some run without a new consent
      has a session if and only if a redeem was past its consent check. */
  lemma {:induction false} RevocationEndsExactly(o: Options, s: State)
    requires s.consent == Refused && s.sessions == map[]
    ensures (exists events :: NoGrant(events) && Run(o, s, events).sessions != map[]) <==> AboutToStart(s)
  {
    if AboutToStart(s) {
      var c :| c in s.calls && s.calls[c].Cleared?;
      var start := [Start(c)];
      var n := Step(o, s, Start(c));
      assert start[1..] == [];
      assert Run(o, s, start) == Run(o, n, []) == n;
      assert s.nextSession in n.sessions;
      assert NoGrant(start);
    } else {
      forall events | NoGrant(events) ensures Run(o, s, events).sessions == map[] {
        RunEnded(o, s, events);
      }
    }
  }

  lemma {:induction false} RunTogether(o: Options, s: State, first: seq<Event>, second: seq<Event>)
    ensures Run(o, s, first + second) == Run(o, Run(o, s, first), second)
    decreases |first|
  {
    if first == [] {
      assert first + second == second;
    } else {
      assert (first + second)[1..] == first[1..] + second;
      RunTogether(o, Step(o, s, first[0]), first[1..], second);
    }
  }

  ghost predicate Reachable(o: Options, from: State, s: State) {
    exists events :: Run(o, from, events) == s
  }

  lemma OneMoreEvent(o: Options, from: State, s: State, e: Event)
    requires Reachable(o, from, s)
    ensures Reachable(o, from, Step(o, s, e))
  {
    var events :| Run(o, from, events) == s;
    RunTogether(o, from, events, [e]);
    assert [e][1..] == [];
    assert Run(o, s, [e]) == Run(o, Step(o, s, e), []);
  }

  /** A call asks for a link and gets it. */
  lemma IssueSteps(s: State)
    requires s.calls == map[] && s.tickets == map[] && ConsentNow(s)
    ensures var n := IssueInsertStep(IssueCheckStep(s, 0), 0, "");
      n.calls == map[] && s.nextToken in n.tickets && n.tickets[s.nextToken].expires == s.now + TICKET_TTL
      && n.now == s.now && n.consent == s.consent
  {
    assert Unexpired(map[], s.now) == map[];
  }

  /** Another redeems it, up to its consent check. */
  lemma RedeemSteps(s: State, t: Token)
    requires s.calls == map[] && t in s.tickets && s.now <= s.tickets[t].expires && ConsentNow(s)
    ensures AboutToStart(CheckConsentStep(CheckExpiryStep(TakeStep(s, 1, t), 1), 1))
  {
    assert CheckConsentStep(CheckExpiryStep(TakeStep(s, 1, t), 1), 1).calls[1] == Cleared(t);
  }

  lemma IssueReached(o: Options, from: State, s: State)
    requires Reachable(o, from, s)
    ensures Reachable(o, from, IssueInsertStep(IssueCheckStep(s, 0), 0, ""))
  {
    OneMoreEvent(o, from, s, IssueCheck(0));
    OneMoreEvent(o, from, IssueCheckStep(s, 0), IssueInsert(0, ""));
  }

  lemma RedeemReached(o: Options, from: State, s: State, t: Token)
    requires Reachable(o, from, s)
    ensures Reachable(o, from, CheckConsentStep(CheckExpiryStep(TakeStep(s, 1, t), 1), 1))
  {
    OneMoreEvent(o, from, s, Take(1, t));
    OneMoreEvent(o, from, TakeStep(s, 1, t), CheckExpiry(1));
    OneMoreEvent(o, from, CheckExpiryStep(TakeStep(s, 1, t), 1), CheckConsent(1));
  }

  /** A redeem gets past its consent check in some run from every start with consent. */
  lemma {:induction false} RedeemCanBeAboutToStart(o: Options, now: Time, consent: Consent)
    requires Active(Read(consent, now), now)
    ensures exists s :: Reachable(o, Initial(now, consent), s) && AboutToStart(s)
  {
    var s := Initial(now, consent);
    assert Run(o, s, []) == s;
    IssueSteps(s);
    IssueReached(o, s, s);
    var issued := IssueInsertStep(IssueCheckStep(s, 0), 0, "");
    RedeemSteps(issued, 0);
    RedeemReached(o, s, issued, 0);
  }

  /** The session such a redeem opens after a revocation is refused until the consent is given
      again, and then works. */
  lemma RevokedRedeemStillOpens(o: Options, s: State, c: nat, k: nat)
    requires c in s.calls && s.calls[c].Cleared? && k !in s.calls && s.nextSession !in s.sessions
    ensures var revoked := Step(o, Step(o, s, StoreConsent(false, 0)), EndSessions);
      var begun := Step(o, revoked, Start(c));
      && revoked.sessions == map[] && begun.consent == Refused && begun.sessions.Keys == {s.nextSession}
      && var again := Step(o, begun, StoreConsent(true, 0));
         var used := Step(o, Step(o, again, SeeSession(k, s.nextSession)), Decide(k, true));
         used.log == again.log + [RequestAccepted(s.nextSession, s.now, s.now)]
  {
  }
}
