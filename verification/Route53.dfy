/** The challenge records in a Route 53 zone (internal/acme/dns_route53.go): a TXT set is read,
    edited and written back whole.

    `Zone` is the hosted zone as the API answers for it; `Present` and `Cleanup` edit it as
    the source does. The theorems are about any sequence of them. */
module Route53 {
  import opened Seqs
  import opened Hostnames

  datatype RecordSet = RecordSet(ttl: nat, records: seq<string>)

  /** The TXT sets by their lower-case name with its final dot. */
  type Sets = map<string, RecordSet>

  const QUOTE := '"'
  const BACKSLASH := '\\'
  const NEWLINE := '\n'

  function Escaped(v: string): string {
    if v == "" then ""
    else (if v[0] == QUOTE || v[0] == BACKSLASH then [BACKSLASH, v[0]] else [v[0]]) + Escaped(v[1..])
  }

  /** A TXT value as Route 53 takes it. */
  function QuoteTxt(v: string): string {
    [QUOTE] + Escaped(v) + [QUOTE]
  }

  /** The first escaped character tells the first character and the rest. */
  lemma EscapedFirst(v: string)
    requires v != ""
    ensures var e := Escaped(v);
      var n := if e != "" && e[0] == BACKSLASH then 2 else 1;
      |e| >= n && e[n - 1] == v[0] && e[n..] == Escaped(v[1..])
  {
    var e := Escaped(v);
    if v[0] == QUOTE || v[0] == BACKSLASH {
      assert e == [BACKSLASH, v[0]] + Escaped(v[1..]);
      assert e[2..] == Escaped(v[1..]);
    } else {
      assert e == [v[0]] + Escaped(v[1..]);
      assert e[1..] == Escaped(v[1..]);
    }
  }

  lemma {:induction false} EscapedInjective(v: string, w: string)
    requires Escaped(v) == Escaped(w)
    ensures v == w
    decreases |v|
  {
    if v != "" && w != "" {
      EscapedFirst(v);
      EscapedFirst(w);
      assert v[0] == w[0];
      EscapedInjective(v[1..], w[1..]);
      assert v == [v[0]] + v[1..] && w == [w[0]] + w[1..];
    }
  }

  lemma QuoteInjective(v: string, w: string)
    requires QuoteTxt(v) == QuoteTxt(w)
    ensures v == w
  {
    assert QuoteTxt(v)[1..|QuoteTxt(v)| - 1] == Escaped(v);
    assert QuoteTxt(w)[1..|QuoteTxt(w)| - 1] == Escaped(w);
    EscapedInjective(v, w);
  }

  /** The name under which Route 53 knows the set. */
  function SetName(fqdn: string): string {
    Lower(TrimSuffix(fqdn, ".") + ".")
  }

  function Without(records: seq<string>, v: string): seq<string> {
    if records == [] then []
    else (if records[0] == v then [] else [records[0]]) + Without(records[1..], v)
  }

  function At(sets: Sets, name: string): Option<RecordSet> {
    if name in sets then Some(sets[name]) else None
  }

  function Put(sets: Sets, name: string, r: Option<RecordSet>): Sets {
    if r.Some? then sets[name := r.value] else sets - {name}
  }

  /** The set, or an empty one to be. */
  function Current(r: Option<RecordSet>): RecordSet {
    if r.Some? then r.value else RecordSet(60, [])
  }

  function AfterPresent(r: Option<RecordSet>, value: string): RecordSet {
    var current, v := Current(r), QuoteTxt(value);
    if v in current.records then current else current.(records := current.records + [v])
  }

  function AfterCleanup(r: Option<RecordSet>, value: string): Option<RecordSet> {
    var rest := Without(Current(r).records, QuoteTxt(value));
    if |rest| == |Current(r).records| then r
    else if rest == [] then None
    else Some(Current(r).(records := rest))
  }

  function Presented(sets: Sets, fqdn: string, value: string): Sets {
    Put(sets, SetName(fqdn), Some(AfterPresent(At(sets, SetName(fqdn)), value)))
  }

  function Cleaned(sets: Sets, fqdn: string, value: string): Sets {
    Put(sets, SetName(fqdn), AfterCleanup(At(sets, SetName(fqdn)), value))
  }

  function Handle(zone: string, fqdn: string, value: string): string {
    Join([zone, fqdn, value], NEWLINE)
  }

  /** strings.SplitN(handle, "\n", 3): the first two lines and all the rest. */
  function SplitHandle(handle: string): Option<(string, string, string)> {
    var i := IndexOf(handle, NEWLINE);
    if i == |handle| then None
    else
      var rest := handle[i + 1..];
      var j := IndexOf(rest, NEWLINE);
      if j == |rest| then None else Some((handle[..i], rest[..j], rest[j + 1..]))
  }

  class Zone {
    const id: string
    var sets: Sets

    constructor (id: string, sets: Sets)
      ensures this.id == id && this.sets == sets
    {
      this.id := id;
      this.sets := sets;
    }

    method Change(upsert: bool, fqdn: string, s: RecordSet)
      modifies this
      ensures sets == if upsert then old(sets)[SetName(fqdn) := s] else old(sets) - {SetName(fqdn)}
    {
      if upsert {
        sets := sets[SetName(fqdn) := s];
      } else {
        sets := sets - {SetName(fqdn)};
      }
    }

    method Present(fqdn: string, value: string) returns (handle: string)
      modifies this
      ensures sets == Presented(old(sets), fqdn, value)
      ensures handle == Handle(id, fqdn, value)
    {
      var s := Current(At(sets, SetName(fqdn)));
      var v := QuoteTxt(value);
      if v !in s.records {
        s := s.(records := s.records + [v]);
      }
      Change(true, fqdn, s);
      handle := Join([id, fqdn, value], NEWLINE);
    }

    method Cleanup(handle: string) returns (ok: bool)
      modifies this
      ensures ok <==> SplitHandle(handle).Some?
      ensures sets == match SplitHandle(handle)
                      case None => old(sets)
                      case Some(parts) => Cleaned(old(sets), parts.1, parts.2)
    {
      var parts := SplitHandle(handle);
      if parts.None? {
        return false;
      }
      var fqdn := parts.value.1;
      var s := Current(At(sets, SetName(fqdn)));
      var rest := Without(s.records, QuoteTxt(parts.value.2));
      if |rest| == |s.records| {
        return true;
      }
      if |rest| == 0 {
        Change(false, fqdn, s);
      } else {
        Change(true, fqdn, s.(records := rest));
      }
      return true;
    }
  }

  /** A handle is read back as its zone, name and value exactly when zone and name hold no
      newline. */
  lemma HandleRoundTrip(zone: string, fqdn: string, value: string)
    ensures SplitHandle(Handle(zone, fqdn, value)) == Some((zone, fqdn, value)) <==>
      NEWLINE !in zone && NEWLINE !in fqdn
  {
    var h := Handle(zone, fqdn, value);
    var tail := fqdn + [NEWLINE] + value;
    assert [zone, fqdn, value][1..] == [fqdn, value] && [fqdn, value][1..] == [value];
    assert Join([fqdn, value], NEWLINE) == tail;
    assert h == zone + [NEWLINE] + tail;
    if NEWLINE !in zone {
      FirstNewline(zone, tail);
      if NEWLINE !in fqdn {
        FirstNewline(fqdn, value);
      }
    }
  }

  lemma FirstNewline(line: string, rest: string)
    requires NEWLINE !in line
    ensures var s := line + [NEWLINE] + rest;
      IndexOf(s, NEWLINE) == |line| && s[..|line|] == line && s[|line| + 1..] == rest
  {
    var s := line + [NEWLINE] + rest;
    assert s[|line|] == NEWLINE;
    assert forall i :: 0 <= i < |line| ==> s[i] == line[i];
  }

  // ---- Presenting and cleaning up, in any order ----

  datatype Event = Present(fqdn: string, value: string) | Cleanup(handle: string)

  function Step(sets: Sets, e: Event): Sets {
    match e
    case Present(fqdn, v) => Presented(sets, fqdn, v)
    case Cleanup(h) =>
      match SplitHandle(h)
      case None => sets
      case Some(parts) => Cleaned(sets, parts.1, parts.2)
  }

  function Run(sets: Sets, events: seq<Event>): Sets
    decreases |events|
  {
    if events == [] then sets else Run(Step(sets, events[0]), events[1..])
  }

  /** The set and the value an event is about. */
  function Target(e: Event): Option<(string, string)> {
    match e
    case Present(fqdn, v) => Some((SetName(fqdn), v))
    case Cleanup(h) =>
      var parts := SplitHandle(h);
      if parts.None? then None else Some((SetName(parts.value.1), parts.value.2))
  }

  function OpenStep(open: seq<string>, name: string, e: Event): seq<string> {
    var t := Target(e);
    if t.None? || t.value.0 != name then open
    else if e.Cleanup? then Without(open, t.value.1)
    else if t.value.1 in open then open
    else open + [t.value.1]
  }

  /** The values presented in a set and not cleaned up since, in the order of presenting. */
  function Open(open: seq<string>, name: string, events: seq<Event>): seq<string>
    decreases |events|
  {
    if events == [] then open else Open(OpenStep(open, name, events[0]), name, events[1..])
  }

  function QuotedAll(values: seq<string>): (q: seq<string>)
    ensures |q| == |values|
    ensures forall i :: 0 <= i < |values| ==> q[i] == QuoteTxt(values[i])
  {
    seq(|values|, i requires 0 <= i < |values| => QuoteTxt(values[i]))
  }

  /** The set with the open values after the original ones. */
  function WithOpen(r: Option<RecordSet>, open: seq<string>): Option<RecordSet> {
    if open == [] then r else Some(Current(r).(records := Current(r).records + QuotedAll(open)))
  }

  lemma {:induction false} WithoutAppend(a: seq<string>, b: seq<string>, v: string)
    ensures Without(a + b, v) == Without(a, v) + Without(b, v)
  {
    if a == [] {
      assert a + b == b;
    } else {
      assert (a + b)[1..] == a[1..] + b;
      WithoutAppend(a[1..], b, v);
    }
  }

  lemma {:induction false} WithoutSame(a: seq<string>, v: string)
    requires forall i :: 0 <= i < |a| ==> a[i] != v
    ensures Without(a, v) == a
  {
    if a != [] {
      WithoutSame(a[1..], v);
    }
  }

  lemma {:induction false} WithoutBound(a: seq<string>, v: string)
    ensures |Without(a, v)| <= |a|
  {
    if a != [] {
      WithoutBound(a[1..], v);
    }
  }

  lemma {:induction false} WithoutShorter(a: seq<string>, v: string, i: nat)
    requires i < |a| && a[i] == v
    ensures |Without(a, v)| < |a|
    decreases i
  {
    if i == 0 {
      WithoutBound(a[1..], v);
    } else {
      WithoutShorter(a[1..], v, i - 1);
    }
  }

  lemma WithoutAbsent(a: seq<string>, v: string)
    ensures v !in a ==> Without(a, v) == a
    ensures v in a ==> |Without(a, v)| < |a|
  {
    if v in a {
      var i :| 0 <= i < |a| && a[i] == v;
      WithoutShorter(a, v, i);
    } else {
      WithoutSame(a, v);
    }
  }

  lemma {:induction false} WithoutQuoted(open: seq<string>, v: string)
    ensures Without(QuotedAll(open), QuoteTxt(v)) == QuotedAll(Without(open, v))
  {
    if open != [] {
      WithoutQuoted(open[1..], v);
      assert QuotedAll(open)[1..] == QuotedAll(open[1..]);
      if QuoteTxt(open[0]) == QuoteTxt(v) { QuoteInjective(open[0], v); }
    }
  }

  lemma QuotedIn(open: seq<string>, v: string)
    ensures QuoteTxt(v) in QuotedAll(open) <==> v in open
  {
    if QuoteTxt(v) in QuotedAll(open) {
      var i :| 0 <= i < |open| && QuotedAll(open)[i] == QuoteTxt(v);
      QuoteInjective(open[i], v);
    }
    if v in open {
      var i :| 0 <= i < |open| && open[i] == v;
      assert QuotedAll(open)[i] == QuoteTxt(v);
    }
  }

  lemma {:induction false} WithoutIn(a: seq<string>, v: string, w: string)
    ensures w in Without(a, v) <==> w in a && w != v
  {
    if a != [] {
      WithoutIn(a[1..], v, w);
      assert a == [a[0]] + a[1..];
    }
  }

  // ---- One set ----

  predicate Foreign(r: Option<RecordSet>, value: string) {
    QuoteTxt(value) in Current(r).records
  }

  lemma OpenRecords(r: Option<RecordSet>, open: seq<string>)
    ensures Current(WithOpen(r, open)) == Current(r).(records := Current(r).records + QuotedAll(open))
  {
    assert QuotedAll([]) == [];
    assert Current(r).records + [] == Current(r).records;
  }

  lemma PresentOpens(r: Option<RecordSet>, open: seq<string>, v: string)
    requires !Foreign(r, v)
    ensures Some(AfterPresent(WithOpen(r, open), v)) == WithOpen(r, if v in open then open else open + [v])
  {
    var original := Current(r).records;
    OpenRecords(r, open);
    QuotedIn(open, v);
    if v !in open {
      assert QuotedAll(open + [v]) == QuotedAll(open) + [QuoteTxt(v)];
      assert original + QuotedAll(open + [v]) == original + QuotedAll(open) + [QuoteTxt(v)];
    }
  }

  /** What cleaning up leaves of the records. */
  lemma RecordsLeft(original: seq<string>, open: seq<string>, v: string)
    requires QuoteTxt(v) !in original
    ensures Without(original + QuotedAll(open), QuoteTxt(v)) == original + QuotedAll(Without(open, v))
    ensures v in open ==> |Without(open, v)| < |open|
    ensures v !in open ==> Without(open, v) == open
  {
    WithoutAppend(original, QuotedAll(open), QuoteTxt(v));
    WithoutAbsent(original, QuoteTxt(v));
    WithoutQuoted(open, v);
    WithoutAbsent(open, v);
  }

  /** A set in the zone has records, as in Route 53. */
  predicate Proper(r: Option<RecordSet>) {
    r.Some? ==> r.value.records != []
  }

  lemma CleanupCloses(r: Option<RecordSet>, open: seq<string>, v: string)
    requires Proper(r) && !Foreign(r, v)
    ensures AfterCleanup(WithOpen(r, open), v) == WithOpen(r, Without(open, v))
  {
    var original := Current(r).records;
    OpenRecords(r, open);
    RecordsLeft(original, open, v);
    if v in open && Without(open, v) == [] {
      assert QuotedAll([]) == [] && original + [] == original;
    }
  }

  // ---- The zone ----

  /** Every set has records, and no event is about a value that was there before. */
  ghost predicate OnlyNew(sets: Sets, events: seq<Event>) {
    && (forall name :: Proper(At(sets, name)))
    && (forall i :: 0 <= i < |events| ==> NotForeign(sets, events[i]))
  }

  predicate NotForeign(sets: Sets, e: Event) {
    Target(e).Some? ==> !Foreign(At(sets, Target(e).value.0), Target(e).value.1)
  }

  lemma PresentAt(original: Option<RecordSet>, sets: Sets, name: string, open: seq<string>, fqdn: string, v: string)
    requires Proper(original) && At(sets, name) == WithOpen(original, open)
    requires SetName(fqdn) == name ==> !Foreign(original, v)
    ensures At(Presented(sets, fqdn, v), name) ==
      WithOpen(original, if SetName(fqdn) != name || v in open then open else open + [v])
  {
    if SetName(fqdn) == name {
      PresentOpens(original, open, v);
    }
  }

  lemma CleanupAt(original: Option<RecordSet>, sets: Sets, name: string, open: seq<string>, fqdn: string, v: string)
    requires Proper(original) && At(sets, name) == WithOpen(original, open)
    requires SetName(fqdn) == name ==> !Foreign(original, v)
    ensures At(Cleaned(sets, fqdn, v), name) == WithOpen(original, if SetName(fqdn) != name then open else Without(open, v))
  {
    if SetName(fqdn) == name {
      CleanupCloses(original, open, v);
    }
  }

  lemma StepAt(original: Option<RecordSet>, sets: Sets, name: string, open: seq<string>, e: Event)
    requires Proper(original) && At(sets, name) == WithOpen(original, open)
    requires Target(e).Some? && Target(e).value.0 == name ==> !Foreign(original, Target(e).value.1)
    ensures At(Step(sets, e), name) == WithOpen(original, OpenStep(open, name, e))
  {
    match e
    case Present(fqdn, v) => PresentAt(original, sets, name, open, fqdn, v);
    case Cleanup(h) =>
      var parts := SplitHandle(h);
      if parts.Some? {
        CleanupAt(original, sets, name, open, parts.value.1, parts.value.2);
      }
  }

  lemma {:induction false} RunAt(start: Sets, sets: Sets, name: string, open: seq<string>, events: seq<Event>)
    requires OnlyNew(start, events) && At(sets, name) == WithOpen(At(start, name), open)
    ensures At(Run(sets, events), name) == WithOpen(At(start, name), Open(open, name, events))
    decreases |events|
  {
    if events != [] {
      assert NotForeign(start, events[0]);
      assert OnlyNew(start, events[1..]) by {
        assert forall i :: 0 <= i < |events[1..]| ==> events[1..][i] == events[i + 1];
      }
      StepAt(At(start, name), sets, name, open, events[0]);
      RunAt(start, Step(sets, events[0]), name, OpenStep(open, name, events[0]), events[1..]);
    }
  }

  /** For any sequence of presenting and cleaning up, in any sets of the zone, values that
      were not there before: every set is what it was plus the values presented in it and not
      yet cleaned up. */
  lemma {:induction false} SetConserved(sets: Sets, events: seq<Event>, name: string)
    requires OnlyNew(sets, events)
    ensures At(Run(sets, events), name) == WithOpen(At(sets, name), Open([], name, events))
  {
    RunAt(sets, sets, name, [], events);
  }

  predicate CleansUp(e: Event, name: string, v: string) {
    e.Cleanup? && Target(e) == Some((name, v))
  }

  predicate NeverCleaned(events: seq<Event>, name: string, v: string) {
    forall j :: 0 <= j < |events| ==> !CleansUp(events[j], name, v)
  }

  /** Presented, and not cleaned up later. */
  predicate LeftOpen(events: seq<Event>, i: nat)
    requires i < |events| && events[i].Present?
  {
    NeverCleaned(events[i + 1..], SetName(events[i].fqdn), events[i].value)
  }

  predicate LeavesOpen(events: seq<Event>, name: string, v: string) {
    exists i :: 0 <= i < |events| && events[i].Present? && Target(events[i]) == Some((name, v)) && LeftOpen(events, i)
  }

  lemma LeftOpenCons(events: seq<Event>, i: nat)
    requires 0 < i < |events| && events[i].Present?
    ensures LeftOpen(events, i) <==> LeftOpen(events[1..], i - 1)
  {
    assert events[1..][i..] == events[i + 1..];
  }

  lemma LeavesOpenFirst(events: seq<Event>, name: string, v: string)
    requires LeavesOpen(events, name, v)
    ensures (events[0].Present? && Target(events[0]) == Some((name, v)) && NeverCleaned(events[1..], name, v))
      || LeavesOpen(events[1..], name, v)
  {
    var i :| 0 <= i < |events| && events[i].Present? && Target(events[i]) == Some((name, v)) && LeftOpen(events, i);
    if i > 0 {
      LeftOpenCons(events, i);
      assert events[1..][i - 1] == events[i];
    }
  }

  lemma LeavesOpenLater(events: seq<Event>, name: string, v: string)
    requires events != [] && LeavesOpen(events[1..], name, v)
    ensures LeavesOpen(events, name, v)
  {
    var rest := events[1..];
    var i :| 0 <= i < |rest| && rest[i].Present? && Target(rest[i]) == Some((name, v)) && LeftOpen(rest, i);
    assert events[i + 1] == rest[i];
    LeftOpenCons(events, i + 1);
  }

  lemma LeavesOpenCons(events: seq<Event>, name: string, v: string)
    requires events != []
    ensures LeavesOpen(events, name, v) <==>
      (events[0].Present? && Target(events[0]) == Some((name, v)) && NeverCleaned(events[1..], name, v))
      || LeavesOpen(events[1..], name, v)
  {
    if LeavesOpen(events, name, v) {
      LeavesOpenFirst(events, name, v);
    }
    if LeavesOpen(events[1..], name, v) {
      LeavesOpenLater(events, name, v);
    } else if events[0].Present? && Target(events[0]) == Some((name, v)) && NeverCleaned(events[1..], name, v) {
      assert LeftOpen(events, 0);
    }
  }

  lemma NeverCleanedCons(events: seq<Event>, name: string, v: string)
    requires events != []
    ensures NeverCleaned(events, name, v) <==> !CleansUp(events[0], name, v) && NeverCleaned(events[1..], name, v)
  {
    assert forall j :: 1 <= j < |events| ==> events[j] == events[1..][j - 1];
  }

  /** The open values are those presented and not cleaned up later. */
  lemma {:induction false} OpenExactly(open: seq<string>, name: string, events: seq<Event>, v: string)
    ensures v in Open(open, name, events) <==>
      (v in open && NeverCleaned(events, name, v)) || LeavesOpen(events, name, v)
    decreases |events|
  {
    if events != [] {
      var e := events[0];
      var next := OpenStep(open, name, e);
      OpenExactly(next, name, events[1..], v);
      LeavesOpenCons(events, name, v);
      NeverCleanedCons(events, name, v);
      if Target(e).Some? {
        WithoutIn(open, Target(e).value.1, v);
      }
    }
  }

  /** The zone is again what it was exactly when everything presented was cleaned up later,
      whatever the order and however many names. */
  lemma {:induction false} ZoneRestoredExactly(sets: Sets, events: seq<Event>)
    requires OnlyNew(sets, events)
    ensures Run(sets, events) == sets <==> forall i :: 0 <= i < |events| && events[i].Present? ==> !LeftOpen(events, i)
  {
    var n := Run(sets, events);
    if i :| 0 <= i < |events| && events[i].Present? && LeftOpen(events, i) {
      var name, v := SetName(events[i].fqdn), events[i].value;
      assert Target(events[i]) == Some((name, v));
      assert LeavesOpen(events, name, v);
      OpenExactly([], name, events, v);
      SetConserved(sets, events, name);
      OpenRecords(At(sets, name), Open([], name, events));
      assert At(n, name) != At(sets, name);
    } else {
      forall name ensures At(n, name) == At(sets, name) {
        NothingOpen(name, events);
        SetConserved(sets, events, name);
      }
      SameEverywhere(n, sets);
    }
  }

  lemma NothingOpen(name: string, events: seq<Event>)
    requires forall i :: 0 <= i < |events| && events[i].Present? ==> !LeftOpen(events, i)
    ensures Open([], name, events) == []
  {
    var open := Open([], name, events);
    if open != [] {
      OpenExactly([], name, events, open[0]);
    }
  }

  lemma SameEverywhere(a: Sets, b: Sets)
    requires forall name :: At(a, name) == At(b, name)
    ensures a == b
  {
    forall name ensures name in a <==> name in b {
      assert At(a, name) == At(b, name);
    }
    forall name | name in a ensures a[name] == b[name] {
      assert At(a, name) == At(b, name);
    }
  }

  /** Cleans up by the handle that presenting `p` returned. */
  predicate CleansUpHandle(e: Event, zone: string, p: Event)
    requires p.Present?
  {
    e == Cleanup(Handle(zone, p.fqdn, p.value))
  }

  /** What an issuance does: it cleans up later, in any order, by every handle it was given.
      The zone is then what it was, in all its sets. */
  lemma {:induction false} HandlesRestoreZone(zone: string, sets: Sets, events: seq<Event>)
    requires OnlyNew(sets, events) && NEWLINE !in zone
    requires forall i :: 0 <= i < |events| && events[i].Present? ==> NEWLINE !in events[i].fqdn
    requires forall i :: 0 <= i < |events| && events[i].Present? ==>
      exists j :: i < j < |events| && CleansUpHandle(events[j], zone, events[i])
    ensures Run(sets, events) == sets
  {
    forall i | 0 <= i < |events| && events[i].Present? ensures !LeftOpen(events, i) {
      var p := events[i];
      var j :| i < j < |events| && CleansUpHandle(events[j], zone, p);
      HandleRoundTrip(zone, p.fqdn, p.value);
      assert events[i + 1..][j - i - 1] == events[j];
      assert CleansUp(events[i + 1..][j - i - 1], SetName(p.fqdn), p.value);
    }
    ZoneRestoredExactly(sets, events);
  }

  /** What one event does to a value in a set. */
  lemma StepRecord(sets: Sets, name: string, e: Event, v: string)
    ensures Foreign(At(Step(sets, e), name), v) <==>
      (Foreign(At(sets, name), v) && !CleansUp(e, name, v)) || (e.Present? && Target(e) == Some((name, v)))
  {
    if Target(e).Some? && Target(e).value.0 == name {
      var w := Target(e).value.1;
      var records := Current(At(sets, name)).records;
      if QuoteTxt(w) == QuoteTxt(v) {
        QuoteInjective(w, v);
      }
      if e.Cleanup? {
        WithoutIn(records, QuoteTxt(w), QuoteTxt(v));
        WithoutAbsent(records, QuoteTxt(w));
      }
    }
  }

  /** For any zone and any sequence, values that were there before included: a value is in a
      set afterwards exactly when it was there and was never cleaned up, or was presented and
      not cleaned up later. So cleaning up removes a value whoever put it there. */
  lemma {:induction false} RecordExactly(sets: Sets, events: seq<Event>, name: string, v: string)
    ensures Foreign(At(Run(sets, events), name), v) <==>
      (Foreign(At(sets, name), v) && NeverCleaned(events, name, v)) || LeavesOpen(events, name, v)
    decreases |events|
  {
    if events != [] {
      StepRecord(sets, name, events[0], v);
      RecordExactly(Step(sets, events[0]), events[1..], name, v);
      LeavesOpenCons(events, name, v);
      NeverCleanedCons(events, name, v);
    }
  }

  /** Presenting a value and cleaning it up restores the zone exactly when the value was not
      there before; otherwise the foreign value goes. */
  lemma {:induction false} RestoresUnlessThere(sets: Sets, fqdn: string, value: string)
    requires Proper(At(sets, SetName(fqdn)))
    ensures Cleaned(Presented(sets, fqdn, value), fqdn, value) == sets <==> !Foreign(At(sets, SetName(fqdn)), value)
  {
    var name := SetName(fqdn);
    var r := At(sets, name);
    var n := Presented(sets, fqdn, value);
    if !Foreign(r, value) {
      PresentOpens(r, [], value);
      assert [] + [value] == [value] && [value][1..] == [];
      CleanupCloses(r, [value], value);
      assert At(n, name) == WithOpen(r, [value]);
      assert Put(n, name, r) == sets;
    } else {
      WithoutAbsent(Current(r).records, QuoteTxt(value));
      assert n == sets;
      assert At(Cleaned(sets, fqdn, value), name) != r;
    }
  }

  // ---- Names, values and handles spelled out ----

  /** The set's name is the lower-case one with one final dot, given with it or without. */
  lemma SetNameExactly(x: string)
    requires x == "" || x[|x| - 1] != '.'
    ensures SetName(x) == Lower(x) + "." && SetName(x + ".") == Lower(x) + "."
  {
    assert Lower(x + ".") == Lower(x) + ".";
    assert (x + ".")[..|x|] == x && (x + ".")[|x|..] == ".";
  }

  /** Reading a value between its quotes; a backslash stands before the character meant. */
  function Unquoted(s: string): Option<string>
    decreases |s|
  {
    if s == "" then None
    else if s[0] == '"' then (if |s| == 1 then Some("") else None)
    else if s[0] == '\\' then
      if |s| == 1 then None
      else
        var rest := Unquoted(s[2..]);
        if rest.None? then None else Some([s[1]] + rest.value)
    else
      var rest := Unquoted(s[1..]);
      if rest.None? then None else Some([s[0]] + rest.value)
  }

  lemma {:induction false} EscapedReadsBack(v: string)
    ensures Unquoted(Escaped(v) + ['"']) == Some(v)
    decreases |v|
  {
    if v == "" {
      assert Escaped(v) + ['"'] == ['"'];
    } else {
      var s := Escaped(v) + ['"'];
      var tail := Escaped(v[1..]) + ['"'];
      assert s == (if v[0] == QUOTE || v[0] == BACKSLASH then [BACKSLASH, v[0]] else [v[0]]) + tail;
      EscapedReadsBack(v[1..]);
      assert v == [v[0]] + v[1..];
      if v[0] == QUOTE || v[0] == BACKSLASH {
        assert s[2..] == tail;
      } else {
        assert s[1..] == tail;
      }
    }
  }

  /** A quoted value begins with a quote and is read back as the value. */
  lemma QuoteReadsBack(v: string)
    ensures QuoteTxt(v)[0] == '"' && Unquoted(QuoteTxt(v)[1..]) == Some(v)
  {
    EscapedReadsBack(v);
    assert QuoteTxt(v)[1..] == Escaped(v) + ['"'];
  }

  /** A new set lives for a minute; one that is there keeps its time and its records, in
      their order. */
  lemma PresentExactly(sets: Sets, fqdn: string, value: string)
    ensures var name := SetName(fqdn);
      var n := Presented(sets, fqdn, value);
      && name in n
      && (name !in sets ==> n[name] == RecordSet(60, [QuoteTxt(value)]))
      && (name in sets ==>
            n[name] == sets[name].(records := sets[name].records + if QuoteTxt(value) in sets[name].records then [] else [QuoteTxt(value)]))
  {
    assert [] + [QuoteTxt(value)] == [QuoteTxt(value)];
    assert SetName(fqdn) in sets ==> sets[SetName(fqdn)].records + [] == sets[SetName(fqdn)].records;
  }

  lemma LaterNewline(s: string, i: nat)
    requires i == IndexOf(s, NEWLINE) && i < |s|
    ensures NEWLINE in s[i + 1..] <==> exists a, b :: 0 <= a < b < |s| && s[a] == NEWLINE && s[b] == NEWLINE
  {
    var rest := s[i + 1..];
    if NEWLINE in rest {
      var j :| 0 <= j < |rest| && rest[j] == NEWLINE;
      assert s[i + 1 + j] == NEWLINE && s[i] == NEWLINE;
    }
    if a, b :| 0 <= a < b < |s| && s[a] == NEWLINE && s[b] == NEWLINE {
      assert rest[b - i - 1] == NEWLINE;
    }
  }

  /** Cleaning up fails exactly for a handle with fewer than two newlines. */
  lemma BadHandle(handle: string)
    ensures SplitHandle(handle).Some? <==>
      exists a, b :: 0 <= a < b < |handle| && handle[a] == '\n' && handle[b] == '\n'
  {
    var i := IndexOf(handle, NEWLINE);
    if i < |handle| {
      LaterNewline(handle, i);
    }
  }

  /** A handle is its first line, its second line and the rest, each after a newline. */
  lemma HandleInThree(handle: string)
    requires SplitHandle(handle).Some?
    ensures var (zone, fqdn, value) := SplitHandle(handle).value;
      '\n' !in zone && '\n' !in fqdn && handle == zone + ['\n'] + (fqdn + ['\n'] + value)
  {
    var i := IndexOf(handle, NEWLINE);
    var rest := handle[i + 1..];
    AroundIndex(handle, i);
    AroundIndex(rest, IndexOf(rest, NEWLINE));
  }
}
