/** The base domain of an instance whose plan may fix it (internal/api/system.go).

    The store is an object with the settings the code reads and rewrites; every method is
    tied to a function on their values. While the plan fixes a usable domain the instance
    uses it, and otherwise the own last choice, unless another one is stored meanwhile without
    asking the plan, or the own one is not normal. When the plan fixes an unusable one the own
    choice can be lost. For all of it the exact condition is proved. */
module BaseDomain {
  import opened Seqs
  import opened Hostnames

  const DEFAULT_BASE_DOMAIN := "test"

  /** The value a plan fixes for the base domain: a JSON text, null, or something else. */
  datatype Fixed = Text(v: string) | Null | NotText

  /** The settings: the base domain ("" while unset), the pair kept from before the plan, and
      what the plan fixes now. */
  datatype Settings = Settings(base: string, before: string, plan: string, fixed: Option<Fixed>)

  function Base(s: Settings): (r: string)
    ensures s.base == "" ==> r == "test"
    ensures s.base != "" ==> r == s.base
  {
    if s.base != "" then s.base else DEFAULT_BASE_DOMAIN
  }

  /** SetBaseDomain: what is stored is the normal form, if it is a host name. */
  function WithBase(s: Settings, v: string): Settings {
    if Valid(Normalize(v)) then s.(base := Normalize(v)) else s
  }

  function FixedText(f: Fixed): string {
    if f.Text? then f.v else ""
  }

  function Kept(s: Settings): Settings {
    match s.fixed
    case Some(f) =>
      if f.NotText? then s
      else s.(before := if s.before == "" then Base(s) else s.before, plan := Normalize(FixedText(f)))
    case None =>
      if s.before == "" then s
      else if Base(s) == s.plan && s.before != s.plan then
        if Valid(Normalize(s.before)) then WithBase(s, s.before).(before := "", plan := "") else s
      else s.(before := "", plan := "")
  }

  /** ApplyPlanSettings, after the plan has changed to fix `fixed`. */
  function Planned(s: Settings, fixed: Option<Fixed>): Settings {
    var k := Kept(s.(fixed := fixed));
    if fixed.Some? && fixed.value.Text? then WithBase(k, fixed.value.v) else k
  }

  /** The admin's change: what the plan fixes can only be sent unchanged. */
  function Changed(s: Settings, v: string): Settings {
    if s.fixed.Some? && s.fixed.value != Text(v) then s else WithBase(s, v)
  }

  class Store {
    var base: string
    var before: string
    var plan: string
    var fixed: Option<Fixed>

    constructor (base: string)
      ensures State() == Settings(base, "", "", None)
    {
      this.base, before, plan, fixed := base, "", "", None;
    }

    function State(): Settings
      reads this
    {
      Settings(base, before, plan, fixed)
    }

    method SetBaseDomain(v: string) returns (ok: bool)
      modifies this`base
      ensures State() == WithBase(old(State()), v)
      ensures ok <==> Valid(Normalize(v))
    {
      var n := Normalize(v);
      if !Valid(n) {
        return false;
      }
      if base != n {
        base := n;
      }
      return true;
    }

    method KeepBaseDomainBeforePlan()
      modifies this
      ensures State() == Kept(old(State()))
      ensures fixed.None? && base != old(base) ==> before == "" && plan == ""
      ensures fixed.None? && old(Base(State())) != old(plan) ==> old(before) == "" || (before == "" && plan == "")
    {
      if fixed.Some? {
        if fixed.value.NotText? {
          return;
        }
        if before == "" {
          before := Base(State());
        }
        plan := Normalize(FixedText(fixed.value));
        return;
      }
      if before == "" {
        return;
      }
      if Base(State()) == plan && before != plan {
        var ok := SetBaseDomain(before);
        if !ok {
          return;
        }
      }
      before := "";
      plan := "";
    }

    method ApplyPlanSettings(f: Option<Fixed>)
      modifies this
      ensures State() == Planned(old(State()), f)
    {
      fixed := f;
      KeepBaseDomainBeforePlan();
      if f.Some? && f.value.Text? {
        var _ := SetBaseDomain(f.value.v);
      }
    }

    method UpdateSettings(v: string) returns (refused: bool)
      modifies this`base
      ensures State() == Changed(old(State()), v)
      ensures refused <==> fixed.Some? && fixed.value != Text(v)
    {
      if fixed.Some? && fixed.value != Text(v) {
        return true;
      }
      var _ := SetBaseDomain(v);
      return false;
    }
  }

  // ---- The plan's domain while it is fixed, the own one otherwise ----

  /** `Admin` asks the plan and stores at once. `Unasked` stores without asking the plan now:
      the domain of a new certificate configuration, or what an admin sent who asked before
      the plan changed. */
  datatype Event = Plan(fixed: Option<Fixed>) | Admin(v: string) | Unasked(v: string)

  function Step(s: Settings, e: Event): Settings {
    match e
    case Plan(f) => Planned(s, f)
    case Admin(v) => Changed(s, v)
    case Unasked(v) => WithBase(s, v)
  }

  function Run(s: Settings, events: seq<Event>): Settings
    decreases |events|
  {
    if events == [] then s else Run(Step(s, events[0]), events[1..])
  }

  /** What the instance is meant to use: the fixed domain, else the admin's own choice. */
  datatype Spec = Spec(own: string, fixed: Option<string>)

  function Intended(x: Spec): string {
    if x.fixed.Some? then x.fixed.value else x.own
  }

  function Chosen(x: Spec, v: string): Spec {
    if x.fixed.None? && Valid(Normalize(v)) then x.(own := Normalize(v)) else x
  }

  function SpecStep(x: Spec, e: Event): Spec {
    match e
    case Plan(Some(f)) => x.(fixed := Some(Normalize(FixedText(f))))
    case Plan(None) => x.(fixed := None)
    case Admin(v) => Chosen(x, v)
    case Unasked(v) => Chosen(x, v)
  }

  function SpecRun(x: Spec, events: seq<Event>): Spec
    decreases |events|
  {
    if events == [] then x else SpecRun(SpecStep(x, events[0]), events[1..])
  }

  /** The plan fixes host names. */
  predicate Usable(e: Event) {
    e.Plan? && e.fixed.Some? ==> e.fixed.value.Text? && Valid(Normalize(e.fixed.value.v))
  }

  /** During a lock nothing but the fixed domain is stored without asking, and at its end the
      own domain is the fixed one or normal. */
  predicate Respects(x: Spec, e: Event) {
    match e
    case Plan(f) => f.None? && x.fixed.Some? ==> x.fixed.value == x.own || Normalize(x.own) == x.own
    case Admin(_) => true
    case Unasked(v) => x.fixed.Some? && Valid(Normalize(v)) ==> Normalize(v) == x.fixed.value
  }

  predicate AllRespect(x: Spec, events: seq<Event>)
    decreases |events|
  {
    events == [] || (Respects(x, events[0]) && AllRespect(SpecStep(x, events[0]), events[1..]))
  }

  ghost predicate Refines(s: Settings, x: Spec) {
    && Valid(x.own)
    && Base(s) == Intended(x)
    && match s.fixed
       case None => x.fixed.None? && s.before == ""
       case Some(f) =>
         && f.Text? && Valid(Normalize(f.v)) && x.fixed == Some(Normalize(f.v))
         && s.before == x.own && s.plan == Normalize(f.v)
  }

  lemma NormalizedNotEmpty(v: string)
    requires Valid(Normalize(v))
    ensures Normalize(v) != ""
  {
  }

  lemma StepRefines(s: Settings, x: Spec, e: Event)
    requires Refines(s, x) && Usable(e) && Respects(x, e)
    ensures Refines(Step(s, e), SpecStep(x, e))
  {
    WellFormedIsNormal(Normalize(x.own));
    assert x.own != "";
    if e.Admin? && Valid(Normalize(e.v)) {
      NormalizedNotEmpty(e.v);
    } else if e.Unasked? && Valid(Normalize(e.v)) {
      NormalizedNotEmpty(e.v);
    } else if e.Plan? && e.fixed.Some? {
      NormalizedNotEmpty(e.fixed.value.v);
    }
  }

  lemma StepFails(s: Settings, x: Spec, e: Event)
    requires Refines(s, x) && !Respects(x, e)
    ensures Base(Step(s, e)) != Intended(SpecStep(x, e))
  {
    if e.Unasked? {
      NormalizedNotEmpty(e.v);
    } else {
      WellFormedIsNormal(Normalize(x.own));
      assert x.own != "";
    }
  }

  /** The domain in force is the intended one after each of the events. */
  ghost predicate AsIntended(s: Settings, x: Spec, events: seq<Event>) {
    forall k :: 0 <= k <= |events| ==> Base(Run(s, events[..k])) == Intended(SpecRun(x, events[..k]))
  }

  lemma AsIntendedCons(s: Settings, x: Spec, events: seq<Event>)
    requires events != [] && Base(s) == Intended(x)
    ensures AsIntended(s, x, events) <==> AsIntended(Step(s, events[0]), SpecStep(x, events[0]), events[1..])
  {
    var s', x', rest := Step(s, events[0]), SpecStep(x, events[0]), events[1..];
    forall k | 0 < k <= |events|
      ensures Run(s, events[..k]) == Run(s', rest[..k - 1]) && SpecRun(x, events[..k]) == SpecRun(x', rest[..k - 1])
    {
      assert events[..k][1..] == rest[..k - 1];
    }
    if AsIntended(s, x, events) {
      forall k | 0 <= k <= |rest| ensures Base(Run(s', rest[..k])) == Intended(SpecRun(x', rest[..k])) {
        assert Base(Run(s, events[..k + 1])) == Intended(SpecRun(x, events[..k + 1]));
      }
    }
  }

  lemma {:induction false} RunIntended(s: Settings, x: Spec, events: seq<Event>)
    requires Refines(s, x) && forall i :: 0 <= i < |events| ==> Usable(events[i])
    ensures AsIntended(s, x, events) <==> AllRespect(x, events)
    decreases |events|
  {
    if events != [] {
      var e := events[0];
      assert Usable(events[0]);
      AsIntendedCons(s, x, events);
      if Respects(x, e) {
        StepRefines(s, x, e);
        RunIntended(Step(s, e), SpecStep(x, e), events[1..]);
      } else {
        StepFails(s, x, e);
        assert events[1..][..0] == [];
      }
    }
  }

  /** Over every run of usable plans and of changes that ask the plan or do not: the fixed
      domain is used while there is one, and the own last choice otherwise, exactly when every
      domain stored during a lock without asking is the fixed one, and every own domain that
      is not the fixed one is normal when the lock ends. */
  lemma {:induction false} FixedElseOwn(s: Settings, events: seq<Event>)
    requires s.fixed.None? && s.before == "" && Valid(Base(s))
    requires forall i :: 0 <= i < |events| ==> Usable(events[i])
    ensures AsIntended(s, Spec(Base(s), None), events) <==> AllRespect(Spec(Base(s), None), events)
  {
    RunIntended(s, Spec(Base(s), None), events);
  }

  // ---- When the own domain comes back ----

  /** What matters at the release: the domain in force, the value noted last as the plan's
      (None while every one was no text), the own domain of before the first noted value, and
      what the plan fixes now. */
  datatype Track = Track(forced: string, noted: Option<string>, own: string, fixed: Option<Fixed>)

  function Named(x: Track, v: string): Track {
    if !Valid(Normalize(v)) then x
    else x.(forced := Normalize(v), own := if x.noted.None? then Normalize(v) else x.own)
  }

  function TrackStep(x: Track, e: Event): Track {
    match e
    case Plan(None) => x
    case Plan(Some(f)) =>
      Track(if f.Text? && Valid(Normalize(f.v)) then Normalize(f.v) else x.forced,
            if f.NotText? then x.noted else Some(Normalize(FixedText(f))),
            x.own, Some(f))
    case Admin(v) => if x.fixed.None? || x.fixed == Some(Text(v)) then Named(x, v) else x
    case Unasked(v) => Named(x, v)
  }

  function TrackRun(x: Track, events: seq<Event>): Track
    decreases |events|
  {
    if events == [] then x else TrackRun(TrackStep(x, events[0]), events[1..])
  }

  function Unlocked(s: Settings): Track {
    Track(Base(s), None, Base(s), None)
  }

  ghost predicate Tracked(s: Settings, x: Track) {
    && s.fixed == x.fixed && Base(s) == x.forced && Valid(x.own)
    && (x.fixed.None? ==> x.noted.None?)
    && if x.noted.None? then s.before == "" && x.forced == x.own && (x.fixed.Some? ==> x.fixed.value.NotText?)
       else s.before == x.own && s.plan == x.noted.value
  }

  /** The plan fixes something, or goes on doing so. */
  predicate NoRelease(events: seq<Event>) {
    forall i :: 0 <= i < |events| ==> events[i] != Plan(None)
  }

  lemma StepTracked(s: Settings, x: Track, e: Event)
    requires Tracked(s, x) && e != Plan(None)
    ensures Tracked(Step(s, e), TrackStep(x, e))
  {
    assert x.own != "";
    match e
    case Plan(f) =>
      if f.value.Text? && Valid(Normalize(f.value.v)) {
        NormalizedNotEmpty(f.value.v);
      }
    case Admin(v) =>
      if Valid(Normalize(v)) {
        NormalizedNotEmpty(v);
      }
    case Unasked(v) =>
      if Valid(Normalize(v)) {
        NormalizedNotEmpty(v);
      }
  }

  lemma {:induction false} RunTracked(s: Settings, x: Track, events: seq<Event>)
    requires Tracked(s, x) && NoRelease(events)
    ensures Tracked(Run(s, events), TrackRun(x, events))
    decreases |events|
  {
    if events != [] {
      assert events[0] != Plan(None);
      StepTracked(s, x, events[0]);
      RunTracked(Step(s, events[0]), TrackStep(x, events[0]), events[1..]);
    }
  }

  lemma Released(s: Settings, x: Track)
    requires Tracked(s, x)
    ensures Base(Planned(s, None)) == if x.noted == Some(x.forced) && x.own != x.forced then Normalize(x.own) else x.forced
  {
    WellFormedIsNormal(Normalize(x.own));
  }

  /** Whatever the plan fixed, one value after another, and whatever was stored meanwhile,
      asking the plan or not: releasing brings back the own domain exactly when the
      domain in force is the own one, or is the one noted as the plan's and the own one is
      normal. Else it brings back the normal form, if the noted one is in force, or leaves
      the domain in force. */
  lemma {:induction false} OwnComesBack(s: Settings, events: seq<Event>)
    requires s.fixed.None? && s.before == "" && Valid(Base(s)) && NoRelease(events)
    ensures var x := TrackRun(Unlocked(s), events);
      var after := Base(Planned(Run(s, events), None));
      && (after == x.own <==> x.forced == x.own || (x.noted == Some(x.forced) && Normalize(x.own) == x.own))
      && (after != x.own ==> after == if x.noted == Some(x.forced) then Normalize(x.own) else x.forced)
  {
    RunTracked(s, Unlocked(s), events);
    Released(Run(s, events), TrackRun(Unlocked(s), events));
  }

  /** The failing family: a usable domain, then an unusable text. */
  lemma UnusableFixKeepsOldDomain(s: Settings, v: string, w: string)
    requires s.before == "" && Valid(Normalize(v)) && !Valid(Normalize(w))
    ensures Base(Planned(Planned(Planned(s, Some(Text(v))), Some(Text(w))), None)) == Normalize(v)
  {
    NormalizedNotEmpty(v);
    FixedOnce(s, v);
    var n := Planned(s, Some(Text(v)));
    FixedAgain(n, w);
    ReleaseStays(Planned(n, Some(Text(w))));
  }

  lemma FixedOnce(s: Settings, v: string)
    requires s.before == "" && Valid(Normalize(v))
    ensures Planned(s, Some(Text(v))) == Settings(Normalize(v), Base(s), Normalize(v), Some(Text(v)))
  {
  }

  lemma FixedAgain(s: Settings, w: string)
    requires s.before != "" && !Valid(Normalize(w))
    ensures Planned(s, Some(Text(w))) == s.(plan := Normalize(w), fixed := Some(Text(w)))
  {
  }

  lemma ReleaseStays(s: Settings)
    requires s.before != "" && Base(s) != s.plan
    ensures Base(Planned(s, None)) == Base(s)
  {
  }

  /** Fixing and releasing gives the own domain back in its normal form. */
  lemma ReleaseNormalizes(s: Settings, v: string)
    requires s.before == "" && Valid(Base(s)) && Valid(Normalize(v)) && Normalize(v) != Base(s)
    ensures Base(Planned(Planned(s, Some(Text(v))), None)) == Normalize(Base(s))
  {
    NormalizedNotEmpty(v);
    WellFormedIsNormal(Normalize(Base(s)));
    FixedOnce(s, v);
    ReleaseRestores(Planned(s, Some(Text(v))));
  }

  lemma ReleaseRestores(s: Settings)
    requires s.before != "" && Base(s) == s.plan && s.before != s.plan
    requires Valid(Normalize(s.before)) && Normalize(s.before) != ""
    ensures Base(Planned(s, None)) == Normalize(s.before)
  {
  }

  /** A domain entered with two trailing dots is stored with one, and comes back without. */
  lemma DoubledDotComesBackWithout(s: Settings, h: string, v: string)
    requires s.fixed.None? && s.before == "" && WellFormed(h)
    requires Valid(Normalize(v)) && Normalize(v) != h + [DOT]
    ensures var n := Changed(s, h + [DOT] + [DOT]);
      Base(n) == h + [DOT] && Base(Planned(Planned(n, Some(Text(v))), None)) == h
  {
    WellFormedIsNormal(h);
    DotNormalized(h);
    DotNormalized(h + [DOT]);
    var n := s.(base := h + [DOT]);
    assert n == Changed(s, h + [DOT] + [DOT]);
    ReleaseNormalizes(n, v);
  }

  /** The family that breaks the lock: another domain stored without asking is in force at
      once, and stays after the release. */
  lemma UnaskedDomainOutlivesPlan(s: Settings, v: string, d: string)
    requires s.before == "" && Valid(Normalize(v)) && Valid(Normalize(d)) && Normalize(d) != Normalize(v)
    ensures var n := Step(Planned(s, Some(Text(v))), Unasked(d));
      n.fixed == Some(Text(v)) && Base(n) == Normalize(d) && Base(Planned(n, None)) == Normalize(d)
  {
    NormalizedNotEmpty(v);
    NormalizedNotEmpty(d);
    FixedOnce(s, v);
    ReleaseStays(WithBase(Planned(s, Some(Text(v))), d));
  }
}
