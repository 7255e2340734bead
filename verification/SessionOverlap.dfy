/** Overlapping requests of one session (internal/auth/sessions.go): each reads the row, takes
    the time and judges what it read, and writes or deletes the row in a later step, without
    looking at it again. A slow request can so move the expiry back; the theorems say by how
    much, over every interleaving. */
module SessionOverlap {
  import opened Clock
  import opened Seqs
  import opened Sessions

  /** A request between two of its steps. `latest` is the latest accepted request at the moment
      the row was read. */
  datatype Check =
    | Found(began: Time, row: Session, latest: Time)
    | Passing(began: Time, ts: Time, row: Session)
    | Refusing

  /** `latest` is the time of the latest request accepted so far, or of the sign-in; `refused`
      says whether one was refused. */
  datatype State = State(now: Time, row: Option<Session>, checks: map<nat, Check>, latest: Time, refused: bool)

  datatype Event =
    | Tick(d: nat)
    | Find(check: nat)
    | Judge(check: nat)
    | Finish(check: nat, admitted: bool, saved: bool)
    | Delete(check: nat)

  function Initial(o: Options, userId: string, ts: Time): (s: State)
    ensures !s.refused && s.checks == map[] && s.latest == ts && s.row == Some(Session(userId, ts, ts + o.idle, ts))
  {
    State(ts, Some(Started(o, userId, ts)), map[], ts, false)
  }

  function FindStep(s: State, c: nat): State {
    if c in s.checks || s.row.None? then s
    else s.(checks := s.checks[c := Found(s.now, s.row.value, s.latest)])
  }

  function JudgeStep(o: Options, s: State, c: nat): State {
    if c !in s.checks || !s.checks[c].Found? then s
    else
      var k := s.checks[c];
      if Live(o, k.row, s.now) then s.(checks := s.checks[c := Passing(k.began, s.now, k.row)])
      else s.(checks := s.checks[c := Refusing], refused := true)
  }

  function Later(a: Time, b: Time): Time {
    if a < b then b else a
  }

  function FinishStep(o: Options, s: State, c: nat, admitted: bool, saved: bool): State {
    if c !in s.checks || !s.checks[c].Passing? then s
    else if !admitted then s.(checks := s.checks[c := Refusing], refused := true)
    else
      var k := s.checks[c];
      var touch := saved && TouchDue(o, k.row, k.ts) && s.row.Some?;
      s.(row := if touch then Some(s.row.value.(lastSeen := k.ts, expires := k.ts + o.idle)) else s.row,
         checks := s.checks - {c}, latest := Later(s.latest, k.ts))
  }

  function DeleteStep(s: State, c: nat): State {
    if c !in s.checks || !s.checks[c].Refusing? then s
    else s.(row := None, checks := s.checks - {c})
  }

  function Step(o: Options, s: State, e: Event): State {
    match e
    case Tick(d) => s.(now := s.now + d)
    case Find(c) => FindStep(s, c)
    case Judge(c) => JudgeStep(o, s, c)
    case Finish(c, admitted, saved) => FinishStep(o, s, c, admitted, saved)
    case Delete(c) => DeleteStep(s, c)
  }

  function Run(o: Options, s: State, events: seq<Event>): State
    decreases |events|
  {
    if events == [] then s else Run(o, Step(o, s, events[0]), events[1..])
  }

  // ---- How far the expiry can be off ----

  /** No check takes longer than `d` from reading the row to its end, and writes succeed. */
  predicate Prompt(s: State, e: Event, d: nat) {
    e.Finish? && e.check in s.checks && s.checks[e.check].Passing? ==> e.saved && s.now <= s.checks[e.check].began + d
  }

  predicate AllPrompt(o: Options, s: State, events: seq<Event>, d: nat)
    decreases |events|
  {
    events == [] || (Prompt(s, events[0], d) && AllPrompt(o, Step(o, s, events[0]), events[1..], d))
  }

  /** By how much the expiry may fall short when checks take up to `d`. */
  function Slack(o: Options, d: nat): (m: nat)
    ensures m >= Grace(o) && m >= d
    ensures d == 0 ==> m == Grace(o)
  {
    var late := d + Min(d, Grace(o));
    if late < Grace(o) then Grace(o) else late
  }

  /** What a check holds is the row as it once was, whose expiry follows its last write. */
  predicate CheckSound(o: Options, created: Time, s: State, k: Check) {
    match k
    case Found(began, row, latest) =>
      Regular(o, row) && row.created == created && row.lastSeen <= latest <= s.latest && row.lastSeen <= began <= s.now
    case Passing(began, ts, row) =>
      Regular(o, row) && row.created == created && row.lastSeen <= began <= ts <= s.now
    case Refusing => s.refused
  }

  ghost predicate Sound(o: Options, created: Time, s: State) {
    && s.latest <= s.now
    && (s.row.Some? ==> Regular(o, s.row.value) && s.row.value.created == created && s.row.value.lastSeen <= s.latest)
    && (s.row.None? ==> s.refused)
    && forall c :: c in s.checks ==> CheckSound(o, created, s, s.checks[c])
  }

  lemma FinishSound(o: Options, created: Time, s: State, c: nat, admitted: bool, saved: bool)
    requires Sound(o, created, s)
    ensures Sound(o, created, FinishStep(o, s, c, admitted, saved))
  {
    var n := FinishStep(o, s, c, admitted, saved);
    assert c in s.checks ==> CheckSound(o, created, s, s.checks[c]);
    forall i | i in n.checks ensures CheckSound(o, created, n, n.checks[i]) {
      assert CheckSound(o, created, s, s.checks[i]);
    }
  }

  lemma StepSound(o: Options, created: Time, s: State, e: Event)
    requires Sound(o, created, s)
    ensures Sound(o, created, Step(o, s, e))
  {
    if e.Finish? {
      FinishSound(o, created, s, e.check, e.admitted, e.saved);
    } else {
      OtherSound(o, created, s, e);
    }
  }

  lemma OtherSound(o: Options, created: Time, s: State, e: Event)
    requires Sound(o, created, s) && !e.Finish?
    ensures Sound(o, created, Step(o, s, e))
  {
    var n := Step(o, s, e);
    if !e.Tick? && e.check in s.checks {
      assert CheckSound(o, created, s, s.checks[e.check]);
    }
    forall c | c in n.checks ensures CheckSound(o, created, n, n.checks[c]) {
      if c in s.checks {
        assert CheckSound(o, created, s, s.checks[c]);
      }
    }
  }

  lemma {:induction false} RunSound(o: Options, created: Time, s: State, events: seq<Event>)
    requires Sound(o, created, s)
    ensures Sound(o, created, Run(o, s, events))
    decreases |events|
  {
    if events != [] {
      StepSound(o, created, s, events[0]);
      RunSound(o, created, Step(o, s, events[0]), events[1..]);
    }
  }

  /** Since the check read the row it was not moved back, or only by a check that had begun at
      most `d` earlier; and what it read was within the slack. */
  predicate CheckClose(o: Options, d: nat, s: State, k: Check) {
    && (k.Found? ==> k.latest <= k.row.lastSeen + Slack(o, d))
    && (!k.Refusing? && s.row.Some? ==> k.row.lastSeen <= s.row.value.lastSeen || k.began <= s.row.value.lastSeen + d)
  }

  ghost predicate Close(o: Options, d: nat, s: State) {
    && (s.row.Some? ==> s.latest <= s.row.value.lastSeen + Slack(o, d))
    && forall c :: c in s.checks ==> CheckClose(o, d, s, s.checks[c])
  }

  lemma FinishClose(o: Options, created: Time, s: State, c: nat, d: nat)
    requires Sound(o, created, s) && Close(o, d, s) && Prompt(s, Finish(c, true, true), d)
    ensures Close(o, d, FinishStep(o, s, c, true, true))
  {
    var n := FinishStep(o, s, c, true, true);
    if c in s.checks && s.checks[c].Passing? {
      assert CheckSound(o, created, s, s.checks[c]) && CheckClose(o, d, s, s.checks[c]);
      forall i | i in n.checks ensures CheckClose(o, d, n, n.checks[i]) {
        assert CheckSound(o, created, s, s.checks[i]) && CheckClose(o, d, s, s.checks[i]);
      }
    }
  }

  lemma StepClose(o: Options, created: Time, s: State, e: Event, d: nat)
    requires Sound(o, created, s) && Close(o, d, s) && Prompt(s, e, d)
    ensures Close(o, d, Step(o, s, e))
  {
    var n := Step(o, s, e);
    if e.Finish? && e.admitted && e.check in s.checks && s.checks[e.check].Passing? {
      FinishClose(o, created, s, e.check, d);
    } else {
      forall c | c in n.checks ensures CheckClose(o, d, n, n.checks[c]) {
        assert c in s.checks ==> CheckClose(o, d, s, s.checks[c]);
      }
    }
  }

  lemma {:induction false} RunClose(o: Options, created: Time, s: State, events: seq<Event>, d: nat)
    requires Sound(o, created, s) && Close(o, d, s) && AllPrompt(o, s, events, d)
    ensures Close(o, d, Run(o, s, events))
    decreases |events|
  {
    if events != [] {
      StepSound(o, created, s, events[0]);
      StepClose(o, created, s, events[0], d);
      RunClose(o, created, Step(o, s, events[0]), events[1..], d);
    }
  }

  /** Over every interleaving, whatever writes fail: the row never expires later than the idle
      time after the latest accepted request, it is only gone after a refusal, and a request
      that passes the timeouts comes within the idle time of the latest one accepted before
      it read the row, and before the absolute timeout. */
  lemma {:induction false} OverlappingNeverLonger(o: Options, userId: string, ts: Time, events: seq<Event>, c: nat)
    ensures var n := Run(o, Initial(o, userId, ts), events);
      && (n.row.Some? ==> n.row.value.expires <= n.latest + o.idle)
      && (n.row.None? ==> n.refused)
      && (c in n.checks && n.checks[c].Found? && JudgeStep(o, n, c).checks[c].Passing? ==>
            n.now <= n.checks[c].latest + o.idle && n.now <= ts + o.absolute)
  {
    RunSound(o, ts, Initial(o, userId, ts), events);
    var n := Run(o, Initial(o, userId, ts), events);
    assert c in n.checks ==> CheckSound(o, ts, n, n.checks[c]);
  }

  /** While writes succeed and no check takes longer than `d`: the row expires no earlier than
      the idle time after the latest accepted request, less the slack, and no request is
      timed out within that of the latest one accepted before it read the row, but by the
      absolute timeout. */
  lemma {:induction false} OverlappingAtMostSlackShorter(o: Options, userId: string, ts: Time, events: seq<Event>, d: nat, c: nat)
    requires AllPrompt(o, Initial(o, userId, ts), events, d)
    ensures var n := Run(o, Initial(o, userId, ts), events);
      && (n.row.Some? ==> n.latest + o.idle <= n.row.value.expires + Slack(o, d))
      && (c in n.checks && n.checks[c].Found? && JudgeStep(o, n, c).checks[c].Refusing? ==>
            n.now + Slack(o, d) > n.checks[c].latest + o.idle || n.now > ts + o.absolute)
  {
    var s := Initial(o, userId, ts);
    RunSound(o, ts, s, events);
    RunClose(o, ts, s, events, d);
    var n := Run(o, s, events);
    assert c in n.checks ==> CheckSound(o, ts, n, n.checks[c]) && CheckClose(o, d, n, n.checks[c]);
  }

  /** A request that no other one overlaps does what the check of the row in one step does. */
  lemma {:induction false} AloneIsVisit(o: Options, s: State, c: nat, admitted: bool, saved: bool)
    requires c !in s.checks && s.row.Some?
    ensures var n := Step(o, Step(o, Step(o, Step(o, s, Find(c)), Judge(c)), Finish(c, admitted, saved)), Delete(c));
      && n.row == Visit(o, s.row, Request(s.now, admitted, saved))
      && n.checks == s.checks
      && n.latest == (if n.row.Some? then Later(s.latest, s.now) else s.latest)
      && (n.refused <==> s.refused || n.row.None?)
  {
    var found := FindStep(s, c);
    var judged := JudgeStep(o, found, c);
    assert judged.checks - {c} == s.checks;
    var finished := FinishStep(o, judged, c, admitted, saved);
    assert judged.checks[c].Passing? && admitted ==> finished.checks == s.checks;
    assert finished.checks - {c} == s.checks;
  }

  /** The length of a check matters: one that takes `d`, as long as the row was due for a write
      and lives, moves the expiry back by `d` against the latest accepted request, however
      short the grace is. */
  lemma SlowCheckMovesBack(o: Options, s: State, d: nat)
    requires s.checks == map[] && s.row.Some?
    requires TouchDue(o, s.row.value, s.now) && Live(o, s.row.value, s.now + d) && s.latest <= s.now
    ensures var begun := Step(o, Step(o, s, Find(0)), Judge(0));
      var other := Step(o, Step(o, Step(o, Step(o, begun, Tick(d)), Find(1)), Judge(1)), Finish(1, true, true));
      var n := Step(o, other, Finish(0, true, true));
      && Prompt(other, Finish(0, true, true), d)
      && n.latest == s.now + d && n.row.Some? && n.row.value.expires + d == n.latest + o.idle
  {
    var k := Passing(s.now, s.now, s.row.value);
    BegunCheck(o, s, 0);
    var t := s.(checks := map[0 := k], now := s.now + d);
    BegunCheck(o, t, 1);
    var judged := t.(checks := t.checks[1 := Passing(t.now, t.now, s.row.value)]);
    var other := FinishStep(o, judged, 1, true, true);
    assert other.checks == map[0 := k];
  }

  /** A check reads the row and judges it in the same moment. */
  lemma BegunCheck(o: Options, s: State, c: nat)
    requires c !in s.checks && s.row.Some? && Live(o, s.row.value, s.now)
    ensures Step(o, Step(o, s, Find(c)), Judge(c)) == s.(checks := s.checks[c := Passing(s.now, s.now, s.row.value)])
  {
  }
}
