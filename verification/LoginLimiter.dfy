/** The in-memory brute-force limiter of the sign-in (internal/auth/sessions.go).

    The map of counters is updated by a class, as in the source; every method is tied to a
    function on the map, and the laws over whole runs are about those functions: the
    garbage collector never changes an answer, and ten failures of one key that were all
    let through span more than the fifteen-minute window. */
module LoginLimiter {
  import opened Clock
  import opened Seqs

  const MAX_FAILURES: nat := 5
  const WINDOW: nat := 900 * SECOND
  const BASE_BLOCK: nat := 30 * SECOND
  const MAX_BLOCK: nat := 900 * SECOND
  const GC_FROM: nat := 1000

  datatype Entry = Entry(failures: nat, blocked: Time, last: Time)

  type Entries = map<string, Entry>

  /** The names of the counters that a sign-in concerns. */
  function Keys(ip: string, user: string): (keys: seq<string>)
    ensures 1 <= |keys| <= 2
  {
    if ip == "" then ["user:" + user]
    else if user == "" then ["ip:" + ip]
    else ["ip:" + ip, "user:" + user]
  }

  predicate CountsUser(ip: string, user: string) {
    ip == "" || user != ""
  }

  /** Two attempts share a counter exactly when they share an address or a counted account:
      an address and an account never collide, whatever they are called. */
  lemma SharedCounter(ip: string, user: string, ip': string, user': string)
    ensures (exists k :: k in Keys(ip, user) && k in Keys(ip', user')) <==>
      (ip == ip' && ip != "") || (user == user' && CountsUser(ip, user) && CountsUser(ip', user'))
  {
    assert ("ip:" + ip)[0] == 'i' && ("ip:" + ip')[0] == 'i';
    assert ("user:" + user)[0] == 'u' && ("user:" + user')[0] == 'u';
    assert ("ip:" + ip)[3..] == ip && ("ip:" + ip')[3..] == ip';
    assert ("user:" + user)[5..] == user && ("user:" + user')[5..] == user';
    if ip == ip' && ip != "" {
      assert "ip:" + ip in Keys(ip, user) && "ip:" + ip in Keys(ip', user');
    } else if user == user' && CountsUser(ip, user) && CountsUser(ip', user') {
      assert "user:" + user in Keys(ip, user) && "user:" + user in Keys(ip', user');
    }
  }

  function Doubled(n: nat): (p: nat)
    ensures p >= 1
  {
    if n == 0 then 1 else 2 * Doubled(n - 1)
  }

  /** How long the key is blocked after that many failures in a row. */
  function Block(failures: nat): (d: nat)
    ensures failures < MAX_FAILURES ==> d == 0
    ensures failures >= MAX_FAILURES ==> BASE_BLOCK <= d <= MAX_BLOCK
  {
    if failures < MAX_FAILURES then 0
    else Min(BASE_BLOCK * Doubled(Min(failures - MAX_FAILURES, 5)), MAX_BLOCK)
  }

  /** The block times the source documents by its constants. */
  lemma BlockTimes()
    ensures Block(5) == 30 * SECOND && Block(6) == 60 * SECOND && Block(7) == 120 * SECOND
    ensures Block(8) == 240 * SECOND && Block(9) == 480 * SECOND
    ensures forall n :: n >= 10 ==> Block(n) == 900 * SECOND
  {
    assert Doubled(0) == 1;
    assert Doubled(1) == 2;
    assert Doubled(2) == 4;
    assert Doubled(3) == 8;
    assert Doubled(4) == 16;
    assert Doubled(5) == 32;
  }

  /** Waiting never gets shorter with more failures. */
  lemma BlockMonotone(m: nat, n: nat)
    requires m <= n
    ensures Block(m) <= Block(n)
  {
    BlockTimes();
    assert m < 5 || m == 5 || m == 6 || m == 7 || m == 8 || m == 9 || m >= 10;
    assert n < 5 || n == 5 || n == 6 || n == 7 || n == 8 || n == 9 || n >= 10;
  }

  // ---- The operations as functions on the map ----

  predicate BlockedKey(m: Entries, key: string, ts: Time) {
    key in m && ts < m[key].blocked
  }

  predicate Allowed(m: Entries, keys: seq<string>, ts: Time) {
    forall i :: 0 <= i < |keys| ==> !BlockedKey(m, keys[i], ts)
  }

  /** A key's counter after one more failure: a pause longer than the window starts over. */
  function Failed(m: Entries, key: string, ts: Time): (e: Entry)
    ensures e.last == ts && e.failures >= 1
  {
    var e := if key !in m || ts - m[key].last > WINDOW then Entry(0, 0, 0) else m[key];
    var n := e.failures + 1;
    Entry(n, if n >= MAX_FAILURES then ts + Block(n) else e.blocked, ts)
  }

  function AfterFail(m: Entries, keys: seq<string>, ts: Time): Entries
    decreases keys
  {
    if keys == [] then m else AfterFail(m[keys[0] := Failed(m, keys[0], ts)], keys[1..], ts)
  }

  function AfterReset(m: Entries, keys: seq<string>): Entries
    decreases keys
  {
    if keys == [] then m else AfterReset(m - {keys[0]}, keys[1..])
  }

  /** A counter nothing depends on any more. */
  predicate Dead(e: Entry, ts: Time) {
    ts - e.last > WINDOW && ts > e.blocked
  }

  /** `m` without those of `victims` that are dead. */
  function Pruned(m: Entries, victims: set<string>, ts: Time): Entries {
    map k | k in m && !(k in victims && Dead(m[k], ts)) :: m[k]
  }

  /** What the collector leaves: it only starts with a thousand counters. */
  function Collected(m: Entries, ts: Time): Entries {
    if |m| < GC_FROM then m else Pruned(m, m.Keys, ts)
  }

  lemma {:induction false} ResetForgets(m: Entries, keys: seq<string>)
    ensures forall k :: k in AfterReset(m, keys) <==> k in m && k !in keys
    ensures forall k :: k in AfterReset(m, keys) ==> AfterReset(m, keys)[k] == m[k]
    decreases keys
  {
    if keys != [] {
      ResetForgets(m - {keys[0]}, keys[1..]);
    }
  }

  /** After a successful sign-in the same address and account are let through at any time,
      and no other counter has changed. */
  lemma ResetUnblocks(m: Entries, ip: string, user: string, ts: Time)
    ensures var n := AfterReset(m, Keys(ip, user));
      && Allowed(n, Keys(ip, user), ts)
      && forall k :: k !in Keys(ip, user) ==> (k in n <==> k in m) && (k in n ==> n[k] == m[k])
  {
    ResetForgets(m, Keys(ip, user));
  }

  // ---- The limiter ----

  class Limiter {
    var entries: Entries

    constructor ()
      ensures entries == map[]
    {
      entries := map[];
    }

    method Allow(ip: string, user: string, ts: Time) returns (ok: bool)
      modifies this
      ensures entries == Collected(old(entries), ts)
      ensures ok <==> Allowed(Collected(old(entries), ts), Keys(ip, user), ts)
    {
      Gc(ts);
      var keys := Keys(ip, user);
      for i := 0 to |keys|
        invariant entries == Collected(old(entries), ts)
        invariant forall j :: 0 <= j < i ==> !BlockedKey(entries, keys[j], ts)
      {
        if keys[i] in entries && ts < entries[keys[i]].blocked {
          assert BlockedKey(entries, keys[i], ts);
          return false;
        }
      }
      return true;
    }

    method Fail(ip: string, user: string, ts: Time)
      modifies this
      ensures entries == AfterFail(old(entries), Keys(ip, user), ts)
    {
      var keys := Keys(ip, user);
      var i := 0;
      while i < |keys|
        invariant 0 <= i <= |keys|
        invariant AfterFail(entries, keys[i..], ts) == AfterFail(old(entries), keys, ts)
      {
        var k := keys[i];
        var e := if k in entries then entries[k] else Entry(0, 0, 0);
        if k !in entries || ts - e.last > WINDOW {
          e := Entry(0, 0, 0);
        }
        e := e.(failures := e.failures + 1, last := ts);
        if e.failures >= MAX_FAILURES {
          var block := BASE_BLOCK * Doubled(Min(e.failures - MAX_FAILURES, 5));
          if block > MAX_BLOCK {
            block := MAX_BLOCK;
          }
          e := e.(blocked := ts + block);
        }
        assert e == Failed(entries, k, ts);
        assert keys[i..][1..] == keys[i + 1..];
        entries := entries[k := e];
        i := i + 1;
      }
    }

    method Reset(ip: string, user: string)
      modifies this
      ensures entries == AfterReset(old(entries), Keys(ip, user))
    {
      var keys := Keys(ip, user);
      var i := 0;
      while i < |keys|
        invariant 0 <= i <= |keys|
        invariant AfterReset(entries, keys[i..]) == AfterReset(old(entries), keys)
      {
        assert keys[i..][1..] == keys[i + 1..];
        entries := entries - {keys[i]};
        i := i + 1;
      }
    }

    method Gc(ts: Time)
      modifies this
      ensures entries == Collected(old(entries), ts)
    {
      if |entries| < GC_FROM {
        return;
      }
      var rest := entries.Keys;
      while rest != {}
        invariant rest <= old(entries).Keys
        invariant entries == Pruned(old(entries), old(entries).Keys - rest, ts)
        decreases rest
      {
        var k :| k in rest;
        assert k in entries && entries[k] == old(entries)[k];
        if ts - entries[k].last > WINDOW && ts > entries[k].blocked {
          entries := entries - {k};
        }
        rest := rest - {k};
      }
      assert old(entries).Keys - {} == old(entries).Keys;
    }
  }

  // ---- Collecting is invisible ----

  datatype Call = Allow(ip: string, user: string) | Fail(ip: string, user: string) | Reset(ip: string, user: string)

  datatype Event = Event(call: Call, ts: Time)

  predicate Ordered(events: seq<Event>) {
    forall i, j :: 0 <= i < j < |events| ==> events[i].ts <= events[j].ts
  }

  function After(m: Entries, e: Event): Entries {
    match e.call
    case Allow(ip, user) => m
    case Fail(ip, user) => AfterFail(m, Keys(ip, user), e.ts)
    case Reset(ip, user) => AfterReset(m, Keys(ip, user))
  }

  function Answer(m: Entries, e: Event): (a: seq<bool>)
    ensures e.call.Allow? ==> a == [Allowed(m, Keys(e.call.ip, e.call.user), e.ts)]
    ensures !e.call.Allow? ==> a == []
  {
    if e.call.Allow? then [Allowed(m, Keys(e.call.ip, e.call.user), e.ts)] else []
  }

  /** The `allow` answers of a limiter that never collects. */
  function Answers(m: Entries, events: seq<Event>): seq<bool>
    decreases |events|
  {
    if events == [] then [] else Answer(m, events[0]) + Answers(After(m, events[0]), events[1..])
  }

  /** The same with any dead counters dropped before every call. */
  function AnswersCollecting(m: Entries, events: seq<Event>, victims: seq<set<string>>): seq<bool>
    requires |victims| == |events|
    decreases |events|
  {
    if events == [] then []
    else
      var n := Pruned(m, victims[0], events[0].ts);
      Answer(n, events[0]) + AnswersCollecting(After(n, events[0]), events[1..], victims[1..])
  }

  /** The source: `allow` collects first, once there are a thousand counters. */
  function AnswersOfLimiter(m: Entries, events: seq<Event>): seq<bool>
    decreases |events|
  {
    if events == [] then []
    else
      var n := if events[0].call.Allow? then Collected(m, events[0].ts) else m;
      Answer(n, events[0]) + AnswersOfLimiter(After(n, events[0]), events[1..])
  }

  /** `n` is `m` without some counters that are dead at `ts`. */
  ghost predicate Thinned(m: Entries, n: Entries, ts: Time) {
    && (forall k :: k in n ==> k in m && n[k] == m[k])
    && (forall k :: k in m && k !in n ==> Dead(m[k], ts))
  }

  lemma {:induction false} FailThinned(m: Entries, n: Entries, keys: seq<string>, ts: Time)
    requires Thinned(m, n, ts)
    ensures Thinned(AfterFail(m, keys, ts), AfterFail(n, keys, ts), ts)
    decreases keys
  {
    if keys != [] {
      assert Failed(m, keys[0], ts) == Failed(n, keys[0], ts);
      FailThinned(m[keys[0] := Failed(m, keys[0], ts)], n[keys[0] := Failed(n, keys[0], ts)], keys[1..], ts);
    }
  }

  lemma {:induction false} ResetThinned(m: Entries, n: Entries, keys: seq<string>, ts: Time)
    requires Thinned(m, n, ts)
    ensures Thinned(AfterReset(m, keys), AfterReset(n, keys), ts)
    decreases keys
  {
    if keys != [] {
      ResetThinned(m - {keys[0]}, n - {keys[0]}, keys[1..], ts);
    }
  }

  lemma AnswerThinned(m: Entries, n: Entries, e: Event)
    requires Thinned(m, n, e.ts)
    ensures Answer(m, e) == Answer(n, e)
    ensures Thinned(After(m, e), After(n, e), e.ts)
  {
    match e.call
    case Allow(ip, user) =>
      var keys := Keys(ip, user);
      assert forall k :: BlockedKey(m, k, e.ts) <==> BlockedKey(n, k, e.ts);
    case Fail(ip, user) => FailThinned(m, n, Keys(ip, user), e.ts);
    case Reset(ip, user) => ResetThinned(m, n, Keys(ip, user), e.ts);
  }

  lemma {:induction false} CollectingFrom(m: Entries, n: Entries, events: seq<Event>, victims: seq<set<string>>, now: Time)
    requires |victims| == |events| && Ordered(events)
    requires events != [] ==> now <= events[0].ts
    requires Thinned(m, n, now)
    ensures AnswersCollecting(n, events, victims) == Answers(m, events)
    decreases |events|
  {
    if events != [] {
      var e := events[0];
      var n' := Pruned(n, victims[0], e.ts);
      assert Thinned(m, n', e.ts);
      AnswerThinned(m, n', e);
      CollectingFrom(After(m, e), After(n', e), events[1..], victims[1..], e.ts);
    }
  }

  /** Dropping any dead counters at any points changes no answer of any run. */
  lemma CollectingInvisible(m: Entries, events: seq<Event>, victims: seq<set<string>>)
    requires |victims| == |events| && Ordered(events)
    ensures AnswersCollecting(m, events, victims) == Answers(m, events)
  {
    CollectingFrom(m, m, events, victims, 0);
  }

  /** What the source collects is one such choice of victims. */
  lemma {:induction false} LimiterCollects(m: Entries, events: seq<Event>) returns (victims: seq<set<string>>)
    ensures |victims| == |events|
    ensures AnswersOfLimiter(m, events) == AnswersCollecting(m, events, victims)
    decreases |events|
  {
    if events == [] {
      victims := [];
    } else {
      var e := events[0];
      var v := if e.call.Allow? && |m| >= GC_FROM then m.Keys else {};
      assert Pruned(m, {}, e.ts) == m;
      var n := Pruned(m, v, e.ts);
      var rest := LimiterCollects(After(n, e), events[1..]);
      victims := [v] + rest;
      assert victims[1..] == rest;
    }
  }

  /** The limiter answers as if it never collected. */
  lemma LimiterGcInvisible(m: Entries, events: seq<Event>)
    requires Ordered(events)
    ensures AnswersOfLimiter(m, events) == Answers(m, events)
  {
    var victims := LimiterCollects(m, events);
    CollectingInvisible(m, events, victims);
  }

  // ---- The rate bound ----

  /** What a sign-in did after `allow` let it through. */
  datatype Outcome = Wrong | Right | Gone

  /** One sign-in: it asks at `asked` and, if let through, ends at `ended`. */
  datatype Attempt = Attempt(ip: string, user: string, asked: Time, outcome: Outcome, ended: Time)

  /** Attempts one after another. */
  predicate Serialised(attempts: seq<Attempt>) {
    && (forall i :: 0 <= i < |attempts| ==> attempts[i].asked <= attempts[i].ended)
    && (forall i, j :: 0 <= i < j < |attempts| ==> attempts[i].ended <= attempts[j].asked)
  }

  predicate ResetsKey(a: Attempt, key: string) {
    a.outcome.Right? && key in Keys(a.ip, a.user)
  }

  /** The counters after an attempt, and whether it counted as a failure of `key`. */
  function AfterAttempt(m: Entries, a: Attempt): Entries {
    var n := Collected(m, a.asked);
    var keys := Keys(a.ip, a.user);
    if !Allowed(n, keys, a.asked) || a.outcome.Gone? then n
    else if a.outcome.Wrong? then AfterFail(n, keys, a.ended)
    else AfterReset(n, keys)
  }

  predicate Fails(m: Entries, a: Attempt, key: string) {
    && Allowed(Collected(m, a.asked), Keys(a.ip, a.user), a.asked)
    && a.outcome.Wrong? && key in Keys(a.ip, a.user)
  }

  /** The times at which `key` failed, in order, after those in `before`. */
  function Failures(m: Entries, attempts: seq<Attempt>, key: string, before: seq<Time>): seq<Time>
    decreases |attempts|
  {
    if attempts == [] then before
    else
      var f := if Fails(m, attempts[0], key) then before + [attempts[0].ended] else before;
      Failures(AfterAttempt(m, attempts[0]), attempts[1..], key, f)
  }

  /** The least time `n` failures in a row of a fresh counter take before the next one. */
  function Waits(n: nat): nat {
    if n == 0 then 0 else Waits(n - 1) + Block(n)
  }

  lemma NineWaits()
    ensures Waits(9) == 930 * SECOND
    ensures Waits(8) == 450 * SECOND
  {
    BlockTimes();
    assert Waits(4) == Waits(3) + Block(4) && Waits(2) == Waits(1) + Block(2);
    assert Waits(5) == 30 * SECOND;
    assert Waits(7) == 210 * SECOND;
  }

  ghost predicate Spread(f: seq<Time>) {
    forall i :: 0 <= i && i + 9 < |f| ==> f[i + 9] - f[i] > WINDOW
  }

  ghost predicate Rising(f: seq<Time>) {
    forall i, j :: 0 <= i <= j < |f| ==> f[i] <= f[j]
  }

  /** How the counter of a key relates to its failures so far: either it remembers them all
      since the last pause longer than the window, or such a pause is going on. */
  ghost predicate Remembers(m: Entries, key: string, f: seq<Time>, now: Time) {
    && Rising(f)
    && (f == [] || (f[|f| - 1] <= now &&
        if key !in m then now - f[|f| - 1] > WINDOW
        else
          var e := m[key];
          && e.last == f[|f| - 1]
          && e.failures >= 1
          && (e.failures >= MAX_FAILURES ==> e.blocked == e.last + Block(e.failures))
          && forall i :: 0 <= i < |f| ==>
               e.last - f[i] > WINDOW || (e.failures >= |f| - i && e.last - f[i] >= Waits(|f| - 1 - i))))
  }

  lemma {:induction false} FailAt(m: Entries, keys: seq<string>, ts: Time, key: string)
    requires forall i, j :: 0 <= i < j < |keys| ==> keys[i] != keys[j]
    ensures key in keys ==> key in AfterFail(m, keys, ts) && AfterFail(m, keys, ts)[key] == Failed(m, key, ts)
    ensures key !in keys ==> (key in AfterFail(m, keys, ts) <==> key in m)
    ensures key !in keys && key in m ==> AfterFail(m, keys, ts)[key] == m[key]
    decreases keys
  {
    if keys != [] {
      FailAt(m[keys[0] := Failed(m, keys[0], ts)], keys[1..], ts, key);
    }
  }

  lemma {:induction false} ResetAt(m: Entries, keys: seq<string>, key: string)
    requires key !in keys
    ensures key in AfterReset(m, keys) <==> key in m
    ensures key in m ==> AfterReset(m, keys)[key] == m[key]
    decreases keys
  {
    if keys != [] {
      ResetAt(m - {keys[0]}, keys[1..], key);
    }
  }

  lemma KeysDistinct(ip: string, user: string)
    ensures forall i, j :: 0 <= i < j < |Keys(ip, user)| ==> Keys(ip, user)[i] != Keys(ip, user)[j]
  {
    assert ("ip:" + ip)[0] == 'i' && ("user:" + user)[0] == 'u';
  }

  /** One more failure after a wait the counter imposed. */
  /** A failure that the counter remembers, or that is older than the window, with one more. */
  lemma OneMoreWait(e: Entry, ago: nat, behind: nat, ts: Time)
    requires ago > 0 && behind <= e.last <= ts
    requires e.failures >= MAX_FAILURES ==> e.blocked == e.last + Block(e.failures) && e.blocked <= ts
    requires e.last - behind > WINDOW || (e.failures >= ago && e.last - behind >= Waits(ago - 1))
    ensures ts - behind > WINDOW || (e.failures + 1 >= ago + 1 && ts - behind >= Waits(ago))
  {
    if e.last - behind <= WINDOW {
      BlockMonotone(ago, e.failures);
    }
  }

  /** Nine waits are longer than the window. */
  lemma OneMoreSpread(f: seq<Time>, ts: Time)
    requires Spread(f)
    requires forall i :: 0 <= i < |f| ==> ts - f[i] > WINDOW || ts - f[i] >= Waits(|f| - i)
    ensures Spread(f + [ts])
  {
    NineWaits();
    var f' := f + [ts];
    forall i | 0 <= i && i + 9 < |f'| ensures f'[i + 9] - f'[i] > WINDOW {
      if i + 9 == |f| {
        assert |f| - i == 9 && ts - f[i] > WINDOW;
      } else {
        assert f[i + 9] - f[i] > WINDOW;
      }
    }
  }

  lemma FailureWaits(m: Entries, key: string, f: seq<Time>, ts: Time, i: nat)
    requires Remembers(m, key, f, ts) && !BlockedKey(m, key, ts) && i < |f|
    ensures ts - f[i] > WINDOW || (Failed(m, key, ts).failures >= |f| + 1 - i && ts - f[i] >= Waits(|f| - i))
  {
    if key in m && ts - m[key].last <= WINDOW {
      OneMoreWait(m[key], |f| - i, f[i], ts);
    }
  }

  lemma OneMoreRising(f: seq<Time>, ts: Time)
    requires Rising(f) && (f == [] || f[|f| - 1] <= ts)
    ensures Rising(f + [ts])
  {
  }

  /** A counter just written remembers what its failures and waits say. */
  lemma FreshRemembered(e: Entry, key: string, f: seq<Time>)
    requires Rising(f) && f != [] && e.last == f[|f| - 1] && e.failures >= 1
    requires e.failures >= MAX_FAILURES ==> e.blocked == e.last + Block(e.failures)
    requires forall i :: 0 <= i < |f| ==>
      e.last - f[i] > WINDOW || (e.failures >= |f| - i && e.last - f[i] >= Waits(|f| - 1 - i))
    ensures Remembers(map[key := e], key, f, e.last)
  {
  }

  lemma FailureRemembered(m: Entries, key: string, f: seq<Time>, ts: Time)
    requires Remembers(m, key, f, ts) && Spread(f)
    requires !BlockedKey(m, key, ts)
    ensures Remembers(map[key := Failed(m, key, ts)], key, f + [ts], ts) && Spread(f + [ts])
  {
    var f' := f + [ts];
    var e' := Failed(m, key, ts);
    forall i | 0 <= i < |f'|
      ensures ts - f'[i] > WINDOW || (e'.failures >= |f'| - i && ts - f'[i] >= Waits(|f'| - 1 - i))
    {
      if i < |f| {
        FailureWaits(m, key, f, ts, i);
      }
    }
    assert forall i :: 0 <= i < |f| ==> f[i] == f'[i];
    OneMoreSpread(f, ts);
    OneMoreRising(f, ts);
    FreshRemembered(e', key, f');
  }

  /** Letting time pass, collecting, and touching other keys keep the relation. */
  lemma StillRemembered(m: Entries, n: Entries, key: string, f: seq<Time>, now: Time, later: Time)
    requires Remembers(m, key, f, now) && now <= later
    requires key in n ==> key in m && n[key] == m[key]
    requires key in m && key !in n ==> Dead(m[key], later)
    ensures Remembers(n, key, f, later)
  {
  }

  lemma UnblockedKey(n: Entries, keys: seq<string>, key: string, asked: Time, ended: Time)
    requires Allowed(n, keys, asked) && key in keys && asked <= ended
    ensures !BlockedKey(n, key, ended)
  {
    var i :| 0 <= i < |keys| && keys[i] == key;
    assert !BlockedKey(n, keys[i], asked);
  }

  /** What one attempt does to the counter of a key. */
  lemma AttemptRemembered(m: Entries, a: Attempt, key: string, f: seq<Time>, now: Time)
    requires Remembers(m, key, f, now) && Spread(f)
    requires now <= a.asked <= a.ended && !ResetsKey(a, key)
    ensures var f' := if Fails(m, a, key) then f + [a.ended] else f;
      Remembers(AfterAttempt(m, a), key, f', a.ended) && Spread(f')
  {
    var n := Collected(m, a.asked);
    var keys := Keys(a.ip, a.user);
    StillRemembered(m, n, key, f, now, a.ended);
    if Fails(m, a, key) {
      KeysDistinct(a.ip, a.user);
      FailAt(n, keys, a.ended, key);
      UnblockedKey(n, keys, key, a.asked, a.ended);
      FailureRemembered(n, key, f, a.ended);
      var one := map[key := Failed(n, key, a.ended)];
      StillRemembered(one, AfterFail(n, keys, a.ended), key, f + [a.ended], a.ended, a.ended);
    } else if Allowed(n, keys, a.asked) && a.outcome.Wrong? {
      KeysDistinct(a.ip, a.user);
      FailAt(n, keys, a.ended, key);
      StillRemembered(n, AfterFail(n, keys, a.ended), key, f, a.ended, a.ended);
    } else if Allowed(n, keys, a.asked) && a.outcome.Right? {
      ResetAt(n, keys, key);
      StillRemembered(n, AfterReset(n, keys), key, f, a.ended, a.ended);
    }
  }

  lemma {:induction false} RunSpread(m: Entries, attempts: seq<Attempt>, key: string, f: seq<Time>, now: Time)
    requires Serialised(attempts) && (attempts != [] ==> now <= attempts[0].asked)
    requires forall i :: 0 <= i < |attempts| ==> !ResetsKey(attempts[i], key)
    requires Remembers(m, key, f, now) && Spread(f)
    ensures Spread(Failures(m, attempts, key, f))
    decreases |attempts|
  {
    if attempts != [] {
      var a := attempts[0];
      assert !ResetsKey(attempts[0], key);
      AttemptRemembered(m, a, key, f, now);
      var f' := if Fails(m, a, key) then f + [a.ended] else f;
      RunSpread(AfterAttempt(m, a), attempts[1..], key, f', a.ended);
    }
  }

  /** Whatever the counters were before, ten failures in a row of a key that is not reset
      span more than the window, in every serialised run. */
  lemma TenFailuresExceedWindow(m: Entries, attempts: seq<Attempt>, key: string)
    requires Serialised(attempts)
    requires forall i :: 0 <= i < |attempts| ==> !ResetsKey(attempts[i], key)
    ensures var f := Failures(m, attempts, key, []);
      forall i :: 0 <= i && i + 9 < |f| ==> f[i + 9] - f[i] > WINDOW
  {
    RunSpread(m, attempts, key, [], 0);
  }

  // ---- The bound cannot be improved ----

  /** The earliest times at which one address can fail for the first, second, ... time. */
  function Fastest(i: nat): Time {
    if i == 0 then 0 else Fastest(i - 1) + Block(i - 1)
  }

  function FastRun(i: nat, n: nat): seq<Attempt>
    decreases n - i
  {
    if i >= n then []
    else [FastAttempt(i + 1)] + FastRun(i + 1, n)
  }

  function FastCounter(i: nat): Entries {
    if i == 0 then map[]
    else map["ip:a" := Entry(i, if i >= MAX_FAILURES then Fastest(i + 1) else 0, Fastest(i))]
  }

  function FastAttempt(i: nat): Attempt {
    Attempt("a", "", Fastest(i), Wrong, Fastest(i))
  }

  lemma FastFailed(i: nat)
    requires i < 10
    ensures Failed(FastCounter(i), "ip:a", Fastest(i + 1)) == FastCounter(i + 1)["ip:a"]
    ensures !BlockedKey(FastCounter(i), "ip:a", Fastest(i + 1))
  {
    BlockTimes();
    assert i < 5 || i == 5 || i == 6 || i == 7 || i == 8 || i == 9;
    assert Fastest(i + 1) == Fastest(i) + Block(i);
    assert Fastest(i + 2) == Fastest(i + 1) + Block(i + 1);
  }

  lemma FastStep(i: nat)
    requires i < 10
    ensures AfterAttempt(FastCounter(i), FastAttempt(i + 1)) == FastCounter(i + 1)
    ensures Fails(FastCounter(i), FastAttempt(i + 1), "ip:a")
  {
    var t := Fastest(i + 1);
    var m := FastCounter(i);
    var keys := Keys("a", "");
    assert "ip:" + "a" == "ip:a";
    assert keys == ["ip:a"];
    FastFailed(i);
    assert keys[0] == "ip:a" && Allowed(m, keys, t);
    var m' := m["ip:a" := Failed(m, "ip:a", t)];
    assert m' == FastCounter(i + 1);
    assert keys[1..] == [];
    assert AfterFail(m, keys, t) == AfterFail(m', [], t) == m';
  }

  lemma {:induction false} FastFrom(i: nat, n: nat, f: seq<Time>)
    requires i <= n <= 10 && |f| == i && forall j :: 0 <= j < i ==> f[j] == Fastest(j + 1)
    ensures var g := Failures(FastCounter(i), FastRun(i, n), "ip:a", f);
      |g| == n && forall j :: 0 <= j < n ==> g[j] == Fastest(j + 1)
    decreases n - i
  {
    if i < n {
      FastStep(i);
      FastFrom(i + 1, n, f + [Fastest(i + 1)]);
    }
  }

  lemma FastestTimes()
    ensures Fastest(1) == 0 && Fastest(9) == 450 * SECOND && Fastest(10) == 930 * SECOND
  {
    BlockTimes();
    assert Fastest(1) == Fastest(0) + Block(0);
    assert Fastest(3) == Fastest(2) + Block(2);
    assert Fastest(5) == 0;
    assert Fastest(7) == 90 * SECOND;
    assert Fastest(9) == 450 * SECOND;
  }

  /** Nine failures fit into 450 seconds and ten into 930, so neither the number nor the
      span of the bound is slack. */
  lemma BoundIsTight(n: nat)
    requires n <= 10
    ensures var f := Failures(map[], FastRun(0, n), "ip:a", []);
      |f| == n && (n >= 9 ==> f[8] == f[0] + 450 * SECOND) && (n == 10 ==> f[9] == f[0] + 930 * SECOND)
  {
    FastFrom(0, n, []);
    FastestTimes();
  }

  // ---- Failures in a row, spelled out ----

  function Failing(m: Entries, ip: string, user: string, times: seq<Time>): Entries {
    if times == [] then m
    else
      var n := |times| - 1;
      var before := Failing(m, ip, user, times[..n]);
      AfterFail(before, Keys(ip, user), times[n])
  }

  /** How many seconds a key is blocked after that many failures in a row. */
  function BlockSeconds(failures: nat): nat {
    if failures < 5 then 0
    else if failures == 5 then 30
    else if failures == 6 then 60
    else if failures == 7 then 120
    else if failures == 8 then 240
    else if failures == 9 then 480
    else 900
  }

  /** The pauses between the failures are at most 15 minutes long. */
  ghost predicate InARow(times: seq<Time>) {
    forall i, j :: 0 <= i && j == i + 1 && j < |times| ==> times[i] <= times[j] <= times[i] + 15 * MINUTE
  }

  /** The key has no counter, or its last failure was more than 15 minutes ago. */
  predicate Forgotten(m: Entries, key: string, ts: Time) {
    key in m ==> ts > m[key].last + 15 * MINUTE
  }

  lemma {:induction false} CounterInARow(m: Entries, ip: string, user: string, times: seq<Time>, key: string)
    requires key in Keys(ip, user) && times != [] && InARow(times) && Forgotten(m, key, times[0])
    ensures var n := Failing(m, ip, user, times);
      && key in n && n[key].failures == |times| && n[key].last == times[|times| - 1]
      && n[key].blocked == if |times| < 5 then 0 else n[key].last + BlockSeconds(|times|) * SECOND
    decreases |times|
  {
    var k := |times| - 1;
    var before := Failing(m, ip, user, times[..k]);
    KeysDistinct(ip, user);
    FailAt(before, Keys(ip, user), times[k], key);
    BlockTimes();
    if k > 0 {
      assert times[k - 1] <= times[k] <= times[k - 1] + 15 * MINUTE;
      CounterInARow(m, ip, user, times[..k], key);
    } else {
      assert before == m;
    }
  }

  /** After failures in a row, each of the attempt's keys is blocked from the fifth on: for
      30, 60, 120, 240, 480 and then 900 seconds after the last. A longer pause starts over. */
  lemma {:induction false} FailuresInARowBlock(m: Entries, ip: string, user: string, times: seq<Time>, key: string, ts: Time)
    requires key in Keys(ip, user) && times != [] && InARow(times) && Forgotten(m, key, times[0])
    requires ts >= times[|times| - 1]
    ensures BlockedKey(Failing(m, ip, user, times), key, ts) <==>
      ts < times[|times| - 1] + BlockSeconds(|times|) * SECOND
  {
    CounterInARow(m, ip, user, times, key);
  }

  /** Below a thousand counters all stay. From then on exactly those go whose last failure is
      more than 15 minutes ago and whose block is over. */
  lemma CollectedExactly(m: Entries, ts: Time, key: string)
    ensures var n := Collected(m, ts);
      && (key in n <==> key in m && (|m| < 1000 || ts <= m[key].last + 15 * MINUTE || ts <= m[key].blocked))
      && (key in n ==> n[key] == m[key])
  {
  }
}
