/** Let's Encrypt against the hoster's certificate (internal/acme/acme.go).

    `Manager` holds the fields the source guards with its mutex; each method is one section
    under the lock, so an issuance is the three sections `Begin`, `Obtain` and `End`. The
    theorems are about every interleaving of these sections with the changes of the
    hoster's certificate, the configuration and an own certificate. The handlers of the last
    two (internal/api) ask for the hoster in one step and act in another, and clearing looks
    at the certificate in one step and removes it in another. Domain names are lower-case, as
    they are stored. */
module Acme {
  import opened Clock
  import opened Seqs

  const RENEW_BEFORE: nat := 30 * DAY

  datatype Owner = Hoster | LetsEncrypt | Own

  datatype Cert = Cert(owner: Owner, names: seq<string>, notAfter: Time)

  type HosterCert = c: Cert | c.owner == Hoster witness Cert(Hoster, [], 0)

  type OwnCert = c: Cert | c.owner == Own witness Cert(Own, [], 0)

  /** An empty provider means not configured. */
  datatype Config = Config(provider: string, domain: string)

  const NO_CONFIG := Config("", "")

  /** A configuration that passes the validation names its provider and domain. */
  type ValidConfig = c: Config | c.provider != "" && c.domain != "" witness Config("p", "d")

  predicate CoversDomain(names: seq<string>, domain: string) {
    domain in names && "*." + domain in names
  }

  datatype Error = InProgress | NotConfigured | HosterProvides | Failed

  /** What the mutex guards, and the custom certificate of the TLS store. */
  datatype Fields = Fields(
    cfg: Config,
    issuing: bool,
    hoster: Option<Cert>,
    wake: bool,
    lastError: bool,
    custom: Option<Cert>)

  /** No certificate for the configured domain. */
  predicate Missing(f: Fields) {
    f.cfg.provider != "" && f.hoster.None? && (f.custom.None? || !CoversDomain(f.custom.value.names, f.cfg.domain))
  }

  predicate NeedsIssue(f: Fields, now: Time) {
    && f.cfg.provider != "" && f.hoster.None?
    && (f.custom.None? || !CoversDomain(f.custom.value.names, f.cfg.domain) || now + RENEW_BEFORE > f.custom.value.notAfter)
  }

  // ---- The sections under the lock ----

  /** `stored` is whether the TLS store takes the certificate. */
  function AfterSetHoster(f: Fields, c: Option<Cert>, stored: bool): Fields {
    if c.None? then
      if f.hoster.None? then f else f.(hoster := None, custom := None, wake := true)
    else if !stored then f
    else f.(custom := c, hoster := c)
  }

  function AfterSetConfig(f: Fields, cfg: Config): Fields {
    f.(cfg := cfg, lastError := false, wake := true)
  }

  predicate Covered(f: Fields) {
    f.cfg.domain != "" && f.custom.Some? && CoversDomain(f.custom.value.names, f.cfg.domain)
  }

  /** `remove` is whether the certificate covered the domain when it was looked at. */
  function AfterLook(f: Fields, remove: bool): Fields {
    f.(cfg := NO_CONFIG, lastError := false, custom := if remove then None else f.custom)
  }

  function AfterClear(f: Fields): Fields {
    AfterLook(f, Covered(f))
  }

  function BeginError(f: Fields): Option<Error> {
    if f.issuing then Some(InProgress)
    else if f.cfg.provider == "" then Some(NotConfigured)
    else if f.hoster.Some? then Some(HosterProvides)
    else None
  }

  function AfterBegin(f: Fields): Fields {
    if BeginError(f).None? then f.(issuing := true) else f
  }

  function Obtained(cfg: Config, notAfter: Time): Cert {
    Cert(LetsEncrypt, [cfg.domain, "*." + cfg.domain], notAfter)
  }

  function ObtainError(f: Fields, stored: bool): Option<Error> {
    if f.hoster.Some? then Some(HosterProvides) else if !stored then Some(Failed) else None
  }

  function AfterObtain(f: Fields, cfg: Config, notAfter: Time, stored: bool): Fields {
    if ObtainError(f, stored).None? then f.(custom := Some(Obtained(cfg, notAfter))) else f
  }

  function AfterEnd(f: Fields, err: Option<Error>): Fields {
    if err == Some(HosterProvides) then f.(issuing := false)
    else f.(issuing := false, lastError := err.Some?)
  }

  class Manager {
    var cfg: Config
    var issuing: bool
    var hoster: Option<Cert>
    /** A kick is waiting in the channel, which holds one. */
    var wake: bool
    var lastError: bool
    /** The custom certificate of the TLS store. */
    var custom: Option<Cert>

    constructor (cfg: Config, custom: Option<Cert>)
      ensures State() == Fields(cfg, false, None, false, false, custom)
    {
      this.cfg, issuing, hoster, wake, lastError := cfg, false, None, false, false;
      this.custom := custom;
    }

    function State(): Fields
      reads this
    {
      Fields(cfg, issuing, hoster, wake, lastError, custom)
    }

    method Kick()
      modifies this`wake
      ensures State() == old(State()).(wake := true)
    {
      if !wake {
        wake := true;
      }
    }

    method SetHoster(c: Option<Cert>, stored: bool) returns (ok: bool)
      modifies this
      ensures State() == AfterSetHoster(old(State()), c, stored)
      ensures ok <==> c.None? || stored
    {
      if c.None? {
        if hoster.None? {
          return true;
        }
        hoster := None;
        custom := None;
        Kick();
        return true;
      }
      if !stored {
        return false;
      }
      custom := c;
      hoster := c;
      return true;
    }

    method SetConfig(c: Config)
      modifies this
      ensures State() == AfterSetConfig(old(State()), c)
      ensures cfg == c && !lastError && wake
    {
      cfg := c;
      lastError := false;
      Kick();
    }

    method Clear()
      modifies this
      ensures State() == AfterClear(old(State()))
      ensures cfg == Config("", "") && !lastError && hoster == old(hoster) && wake == old(wake)
    {
      if cfg.domain != "" {
        if custom.Some? && CoversDomain(custom.value.names, cfg.domain) {
          custom := None;
        }
      }
      cfg := NO_CONFIG;
      lastError := false;
    }

    method Begin() returns (r: Option<Error>, taken: Config)
      modifies this
      ensures r == BeginError(old(State())) && State() == AfterBegin(old(State())) && taken == old(cfg)
      ensures r.None? <==> !old(issuing) && cfg.provider != "" && hoster.None?
      ensures old(issuing) ==> r == Some(InProgress)
      ensures !old(issuing) && cfg.provider == "" ==> r == Some(NotConfigured)
      ensures !old(issuing) && cfg.provider != "" && hoster.Some? ==> r == Some(HosterProvides)
    {
      taken := cfg;
      if issuing {
        return Some(InProgress), taken;
      }
      if taken.provider == "" {
        return Some(NotConfigured), taken;
      }
      if hoster.Some? {
        return Some(HosterProvides), taken;
      }
      issuing := true;
      r := None;
    }

    method Obtain(taken: Config, notAfter: Time, stored: bool) returns (r: Option<Error>)
      modifies this
      ensures r == ObtainError(old(State()), stored) && State() == AfterObtain(old(State()), taken, notAfter, stored)
    {
      if hoster.Some? {
        return Some(HosterProvides);
      }
      if !stored {
        return Some(Failed);
      }
      custom := Some(Obtained(taken, notAfter));
      return None;
    }

    method End(err: Option<Error>)
      modifies this
      ensures State() == AfterEnd(old(State()), err)
      ensures lastError <==> if err == Some(HosterProvides) then old(lastError) else err.Some?
    {
      issuing := false;
      if err == Some(HosterProvides) {
        return;
      }
      lastError := err.Some?;
    }

    method CheckNeedsIssue(now: Time) returns (needs: bool)
      ensures needs <==> NeedsIssue(State(), now)
    {
      if cfg.provider == "" || hoster.Some? {
        return false;
      }
      if custom.None? {
        return true;
      }
      var covered := CheckCovers(custom.value.names, cfg.domain);
      if !covered {
        return true;
      }
      return now + RENEW_BEFORE > custom.value.notAfter;
    }
  }

  /** `covers`: a scan for the domain and its wildcard. */
  method CheckCovers(names: seq<string>, domain: string) returns (r: bool)
    ensures r <==> CoversDomain(names, domain)
  {
    var base, wild := false, false;
    for i := 0 to |names|
      invariant base <==> domain in names[..i]
      invariant wild <==> "*." + domain in names[..i]
    {
      assert names[..i + 1] == names[..i] + [names[i]];
      base := base || names[i] == domain;
      wild := wild || names[i] == "*." + domain;
    }
    assert names[..|names|] == names;
    return base && wild;
  }

  // ---- Interleavings ----

  /** An issuance between two of its sections: under way with the configuration it took, or
      about to end. */
  datatype Call = UnderWay(cfg: Config) | Ending(err: Option<Error>)

  /** The background loop: about to check, about to issue, in an issuance, waiting twelve
      hours, or waiting to retry. */
  datatype Loop = Checking | Wanting | Issuing | Idle | Retrying

  /** What an admin's handler does once it has seen that no hoster provides: store or clear
      the configuration, or store or remove an own certificate. */
  datatype Action = StoreConfig(cfg: ValidConfig) | ClearConfig | StoreOwn(c: Option<OwnCert>)

  /** The call with number 0 is the loop's; `handlers` have passed their check and not acted
      yet. `clearing` is what a `Clear` that holds the lock has seen: whether it will remove
      the certificate. `own` is the change of an own certificate that still decides what is
      served, if the loop has not checked since. */
  datatype System = System(
    f: Fields,
    calls: map<nat, Call>,
    handlers: map<nat, Action>,
    clearing: Option<bool>,
    loop: Loop,
    own: Option<Option<OwnCert>>)

  datatype Event =
    | SetHoster(c: Option<HosterCert>, stored: bool)
    | HandlerCheck(handler: nat, action: Action)
    | HandlerAct(handler: nat)
    | HandlerFail(handler: nat)
    | ClearEnd
    | Trigger
    | Begin(call: nat)
    | Obtain(call: nat, notAfter: Time, stored: bool)
    | GiveUp(call: nat)
    | End(call: nat)
    | Check(now: Time)
    | BeginLoop
    | Elapse

  /** A change under the lock; an own certificate that it replaces or removes decides no
      longer. */
  function Changed(s: System, f: Fields): System {
    s.(f := f, own := if f.custom == s.f.custom then s.own else None)
  }

  /** The handler asks for the hoster and gives the lock back. */
  function HandlerCheckStep(s: System, h: nat, a: Action): System {
    if h in s.handlers || s.f.hoster.Some? then s
    else s.(handlers := s.handlers[h := a])
  }

  /** It acts later, and does not ask again. Clearing takes the lock and looks first. */
  function HandlerActStep(s: System, h: nat): System {
    if h !in s.handlers then s
    else
      var d := s.(handlers := s.handlers - {h});
      match s.handlers[h]
      case StoreConfig(cfg) => d.(f := AfterSetConfig(s.f, cfg))
      case ClearConfig => d.(clearing := Some(Covered(s.f)))
      case StoreOwn(c) => d.(f := s.f.(custom := c), own := Some(c))
  }

  function ClearEndStep(s: System): System {
    if s.clearing.None? then s
    else Changed(s, AfterLook(s.f, s.clearing.value)).(clearing := None)
  }

  function BeginStep(s: System, k: nat): System {
    if k == 0 || k in s.calls then s
    else if BeginError(s.f).Some? then s
    else s.(f := AfterBegin(s.f), calls := s.calls[k := UnderWay(s.f.cfg)])
  }

  function ObtainStep(s: System, k: nat, notAfter: Time, stored: bool): System {
    if k !in s.calls || !s.calls[k].UnderWay? then s
    else
      Changed(s, AfterObtain(s.f, s.calls[k].cfg, notAfter, stored)).(calls := s.calls[k := Ending(ObtainError(s.f, stored))])
  }

  function EndStep(s: System, k: nat): System {
    if k !in s.calls || !s.calls[k].Ending? then s
    else
      var err := s.calls[k].err;
      s.(f := AfterEnd(s.f, err), calls := s.calls - {k},
         loop := if k == 0 then (if err.Some? then Retrying else Idle) else s.loop)
  }

  /** The loop checks whether an issue is needed. */
  function CheckStep(s: System, now: Time): System {
    if s.loop != Checking then s
    else s.(loop := if NeedsIssue(s.f, now) then Wanting else Idle, own := None)
  }

  /** The loop begins the issuance, in a section of its own. */
  function BeginLoopStep(s: System): System {
    if s.loop != Wanting || 0 in s.calls then s
    else if BeginError(s.f).Some? then s.(loop := Retrying)
    else s.(f := AfterBegin(s.f), calls := s.calls[0 := UnderWay(s.f.cfg)], loop := Issuing)
  }

  /** The loop leaves its wait: it takes the kick, if there is one, or its timer fired. */
  function ElapseStep(s: System): System {
    if s.loop == Idle || s.loop == Retrying then s.(f := s.f.(wake := false), loop := Checking) else s
  }

  /** Whether a step needs the manager's lock. An own certificate is changed without it. */
  predicate TakesLock(s: System, e: Event) {
    match e
    case HandlerAct(h) => h in s.handlers && !s.handlers[h].StoreOwn?
    case HandlerFail(_) => false
    case ClearEnd => false
    case Trigger => false
    case GiveUp(_) => false
    case Elapse => false
    case _ => true
  }

  /** A step that needs the lock waits while a `Clear` holds it. */
  function Step(s: System, e: Event): System {
    if s.clearing.Some? && TakesLock(s, e) then s
    else
      match e
      case SetHoster(c, stored) => Changed(s, AfterSetHoster(s.f, c, stored))
      case HandlerCheck(h, a) => HandlerCheckStep(s, h, a)
      case HandlerAct(h) => HandlerActStep(s, h)
      case HandlerFail(h) => s.(handlers := s.handlers - {h})
      case ClearEnd => ClearEndStep(s)
      case Trigger => s.(f := s.f.(wake := true))
      case Begin(k) => BeginStep(s, k)
      case Obtain(k, notAfter, stored) => ObtainStep(s, k, notAfter, stored)
      case GiveUp(k) => if k in s.calls && s.calls[k].UnderWay? then s.(calls := s.calls[k := Ending(Some(Failed))]) else s
      case End(k) => EndStep(s, k)
      case Check(now) => CheckStep(s, now)
      case BeginLoop => BeginLoopStep(s)
      case Elapse => ElapseStep(s)
  }

  function Run(s: System, events: seq<Event>): System
    decreases |events|
  {
    if events == [] then s else Run(Step(s, events[0]), events[1..])
  }

  /** After the start: nothing under way and no hoster remembered. The TLS store has kept
      whatever certificate it served before, even the hoster's. */
  predicate Initial(s: System) {
    && s.calls == map[] && s.handlers == map[] && s.clearing.None? && s.own.None?
    && s.loop == Checking && !s.f.issuing && s.f.hoster.None?
  }

  // ---- Whose certificate is served ----

  ghost predicate OneAtATime(s: System) {
    && (forall i, j :: i in s.calls && j in s.calls ==> i == j)
    && (s.f.issuing <==> s.calls != map[])
  }

  predicate HosterServed(s: System) {
    s.f.hoster.Some? ==> s.f.hoster.value.owner == Hoster && s.f.custom == s.f.hoster
  }

  predicate OwnedBy(custom: Option<Cert>, owner: Owner) {
    custom.Some? && custom.value.owner == owner
  }

  /** No certificate of the hoster is served once it provides none. */
  predicate NoLeftover(s: System) {
    s.f.hoster.None? ==> !OwnedBy(s.f.custom, Hoster)
  }

  predicate StoresHoster(s: System, e: Event) {
    e.SetHoster? && e.c.Some? && e.stored && s.clearing.None?
  }

  /** No handler that has passed its check can still replace or remove a certificate: none
      changes an own one, and none clears a configuration that there is or may be. */
  predicate Harmless(s: System) {
    forall h :: h in s.handlers ==>
      match s.handlers[h]
      case StoreConfig(_) => true
      case ClearConfig => s.f.cfg.domain == "" && NoneConfigures(s)
      case StoreOwn(_) => false
  }

  predicate NoneConfigures(s: System) {
    forall h :: h in s.handlers ==> !s.handlers[h].StoreConfig?
  }

  /** Whenever the hoster's certificate is stored, the pending handlers are harmless. */
  predicate Quiet(s: System, events: seq<Event>)
    decreases |events|
  {
    events == [] ||
    ((StoresHoster(s, events[0]) ==> Harmless(s)) && Quiet(Step(s, events[0]), events[1..]))
  }

  /** What takes a certificate out of the store while no hoster is remembered. */
  predicate Touches(s: System, e: Event) {
    match e
    case SetHoster(_, _) => StoresHoster(s, e)
    case HandlerAct(h) => h in s.handlers && s.handlers[h].StoreOwn?
    case ClearEnd => s.clearing == Some(true)
    case Obtain(k, _, stored) => k in s.calls && s.calls[k].UnderWay? && stored && s.clearing.None?
    case _ => false
  }

  predicate Untouched(s: System, events: seq<Event>)
    decreases |events|
  {
    events == [] || (!Touches(s, events[0]) && Untouched(Step(s, events[0]), events[1..]))
  }

  lemma StepOneAtATime(s: System, e: Event)
    requires OneAtATime(s)
    ensures OneAtATime(Step(s, e))
  {
    var n := Step(s, e);
    if e.Begin? || e.BeginLoop? {
      var k := if e.Begin? then e.call else 0;
      if n.calls != s.calls {
        assert s.calls == map[];
        assert k in n.calls;
      }
    } else if e.Obtain? || e.GiveUp? {
      if n.calls != s.calls {
        assert n.calls.Keys == s.calls.Keys;
        assert e.call in n.calls && e.call in s.calls;
      }
    } else if e.End? && n.calls != s.calls {
      assert e.call in s.calls && forall i :: i in s.calls ==> i == e.call;
      assert n.calls == map[];
    }
  }

  lemma {:induction false} RunOneAtATime(s: System, events: seq<Event>)
    requires OneAtATime(s)
    ensures OneAtATime(Run(s, events))
    decreases |events|
  {
    if events != [] {
      StepOneAtATime(s, events[0]);
      RunOneAtATime(Step(s, events[0]), events[1..]);
    }
  }

  /** While the hoster provides a certificate no further handler passes its check. */
  predicate Settled(s: System) {
    HosterServed(s) && (s.f.hoster.Some? ==> Harmless(s) && s.clearing != Some(true))
  }

  lemma ActHarmless(s: System, h: nat)
    requires Harmless(s) && s.f.hoster.Some? && s.clearing != Some(true)
    ensures Harmless(Step(s, HandlerAct(h))) && Step(s, HandlerAct(h)).clearing != Some(true)
    ensures Step(s, HandlerAct(h)).f.custom == s.f.custom && Step(s, HandlerAct(h)).f.hoster == s.f.hoster
  {
    var n := Step(s, HandlerAct(h));
    forall g | g in n.handlers && n.handlers[g].ClearConfig? ensures n.f.cfg.domain == "" && NoneConfigures(n) {
      assert g in s.handlers && s.handlers[g] == n.handlers[g];
      assert forall k :: k in n.handlers ==> k in s.handlers && n.handlers[k] == s.handlers[k];
    }
    assert forall k :: k in n.handlers ==> k in s.handlers && n.handlers[k] == s.handlers[k];
  }

  /** Any other step lets no handler through, and changes no configuration but to none. */
  lemma OtherStepHarmless(s: System, e: Event)
    requires Harmless(s) && s.f.hoster.Some? && !e.HandlerAct?
    ensures Harmless(Step(s, e))
  {
    var n := Step(s, e);
    assert forall k :: k in n.handlers ==> k in s.handlers && n.handlers[k] == s.handlers[k];
    assert n.f.cfg == s.f.cfg || n.f.cfg == NO_CONFIG;
    forall g | g in n.handlers && n.handlers[g].ClearConfig? ensures n.f.cfg.domain == "" && NoneConfigures(n) {
      assert g in s.handlers;
    }
  }

  lemma StepSettled(s: System, e: Event)
    requires Settled(s) && (StoresHoster(s, e) ==> Harmless(s))
    ensures Settled(Step(s, e))
  {
    if s.f.hoster.Some? {
      if e.HandlerAct? {
        ActHarmless(s, e.handler);
      } else {
        OtherStepHarmless(s, e);
      }
    }
  }

  lemma {:induction false} RunSettled(s: System, events: seq<Event>)
    requires Settled(s) && Quiet(s, events)
    ensures Settled(Run(s, events))
    decreases |events|
  {
    if events != [] {
      StepSettled(s, events[0]);
      RunSettled(Step(s, events[0]), events[1..]);
    }
  }

  lemma StepNoLeftover(s: System, e: Event)
    requires NoLeftover(s) || (s.f.hoster.None? && Touches(s, e))
    ensures NoLeftover(Step(s, e))
  {
  }

  lemma {:induction false} RunNoLeftover(s: System, events: seq<Event>)
    requires NoLeftover(s)
    ensures NoLeftover(Run(s, events))
    decreases |events|
  {
    if events != [] {
      StepNoLeftover(s, events[0]);
      RunNoLeftover(Step(s, events[0]), events[1..]);
    }
  }

  lemma StepUntouched(s: System, e: Event)
    requires s.f.hoster.None? && s.f.custom.Some? && !Touches(s, e)
    ensures Step(s, e).f.hoster.None? && Step(s, e).f.custom == s.f.custom
  {
  }

  lemma {:induction false} RunLeftover(s: System, events: seq<Event>)
    requires s.f.hoster.None? && OwnedBy(s.f.custom, Hoster)
    ensures var n := Run(s, events);
      && (n.f.hoster.None? && OwnedBy(n.f.custom, Hoster) <==> Untouched(s, events))
      && (Untouched(s, events) ==> n.f.custom == s.f.custom)
    decreases |events|
  {
    if events != [] {
      var n := Step(s, events[0]);
      if Touches(s, events[0]) {
        StepNoLeftover(s, events[0]);
        RunNoLeftover(n, events[1..]);
      } else {
        StepUntouched(s, events[0]);
        RunLeftover(n, events[1..]);
      }
    }
  }

  /** In every interleaving at most one issuance is under way, and without a hoster its
      certificate is served only if a restart left it in the store and nothing has touched it
      since. While the hoster provides a certificate it is the one served, if the handlers
      between check and action were harmless when it came. */
  lemma {:induction false} CertificateOwnership(s: System, events: seq<Event>)
    requires Initial(s)
    ensures var n := Run(s, events);
      && |n.calls| <= 1 && (n.f.issuing <==> |n.calls| == 1)
      && (n.f.hoster.None? && OwnedBy(n.f.custom, Hoster) ==> n.f.custom == s.f.custom && Untouched(s, events))
      && (Quiet(s, events) && n.f.hoster.Some? ==> n.f.custom == n.f.hoster && OwnedBy(n.f.custom, Hoster))
  {
    RunOneAtATime(s, events);
    var n := Run(s, events);
    if n.calls != map[] {
      var k :| k in n.calls;
      assert n.calls.Keys == {k};
      assert |n.calls| == |n.calls.Keys|;
    }
    if OwnedBy(s.f.custom, Hoster) {
      RunLeftover(s, events);
    } else {
      RunNoLeftover(s, events);
    }
    if Quiet(s, events) {
      RunSettled(s, events);
    }
  }

  /** Taking the certificate back, after any such run and once the lock is free: without a
      hoster nothing happens; otherwise the certificate removed is the hoster's, and with a
      configuration an issue is needed and a kick is waiting. */
  lemma {:induction false} TakenBack(s: System, events: seq<Event>, now: Time)
    requires Initial(s) && Quiet(s, events) && Run(s, events).clearing.None?
    ensures var n := Run(s, events);
      var m := Step(n, SetHoster(None, true));
      && (n.f.hoster.None? ==> m == n)
      && (n.f.hoster.Some? ==>
            && n.f.custom == n.f.hoster && OwnedBy(n.f.custom, Hoster)
            && m.f == n.f.(hoster := None, custom := None, wake := true)
            && (n.f.cfg.provider != "" ==> NeedsIssue(m.f, now)))
  {
    RunSettled(s, events);
  }

  // ---- A handler between its check and its action ----

  /** The hoster goes on providing, perhaps with renewed certificates. */
  ghost predicate Provides(events: seq<Event>) {
    forall i :: 0 <= i < |events| ==> !(events[i].SetHoster? && events[i].c.None?)
  }

  /** While the hoster provides, in any continuation, its certificate is served. */
  ghost predicate AlwaysServed(s: System) {
    forall events | Provides(events) :: HosterServed(Run(s, events))
  }

  lemma {:induction false} RunProvided(s: System, events: seq<Event>)
    requires Settled(s) && s.f.hoster.Some? && Provides(events)
    ensures HosterServed(Run(s, events))
    decreases |events|
  {
    if events != [] {
      assert !(events[0].SetHoster? && events[0].c.None?);
      StepSettled(s, events[0]);
      RunProvided(Step(s, events[0]), events[1..]);
    }
  }

  ghost predicate CanFail(s: System) {
    exists events :: Provides(events) && !HosterServed(Run(s, events))
  }

  lemma CanFailLater(s: System, e: Event)
    requires CanFail(Step(s, e)) && !(e.SetHoster? && e.c.None?)
    ensures CanFail(s)
  {
    var events :| Provides(events) && !HosterServed(Run(Step(s, e), events));
    var all := [e] + events;
    assert all[1..] == events;
    assert forall i :: 1 <= i < |all| ==> all[i] == events[i - 1];
    assert Provides(all) && Run(s, all) == Run(Step(s, e), events);
  }

  lemma CanFailNow(s: System)
    requires !HosterServed(s)
    ensures CanFail(s)
  {
    assert Provides([]) && Run(s, []) == s;
  }

  /** A pending handler that clears the configuration can remove the hoster's certificate,
      once that is renewed for the configured domain. */
  lemma ClearHarms(s: System, h: nat)
    requires h in s.handlers && s.handlers[h].ClearConfig? && s.f.cfg.domain != "" && s.clearing.None?
    ensures CanFail(s)
  {
    var d := s.f.cfg.domain;
    var c := Cert(Hoster, [d, "*." + d], 0);
    assert c.names[0] == d && c.names[1] == "*." + d;
    assert CoversDomain(c.names, d);
    var n1 := Step(s, SetHoster(Some(c), true));
    var n2 := Step(n1, HandlerAct(h));
    CanFailNow(Step(n2, ClearEnd));
    CanFailLater(n2, ClearEnd);
    CanFailLater(n1, HandlerAct(h));
    CanFailLater(s, SetHoster(Some(c), true));
  }

  /** With another handler that stores a configuration there need not be one yet. */
  lemma ConfigureHarms(s: System, h: nat, g: nat)
    requires h in s.handlers && s.handlers[h].ClearConfig? && g in s.handlers && s.handlers[g].StoreConfig?
    requires s.clearing.None?
    ensures CanFail(s)
  {
    ClearHarms(Step(s, HandlerAct(g)), h);
    CanFailLater(s, HandlerAct(g));
  }

  /** One that stores or removes an own certificate replaces or removes it at once. */
  lemma StoreHarms(s: System, h: nat)
    requires s.f.hoster.Some? && h in s.handlers && s.handlers[h].StoreOwn?
    ensures CanFail(s)
  {
    if HosterServed(s) {
      CanFailNow(Step(s, HandlerAct(h)));
      CanFailLater(s, HandlerAct(h));
    } else {
      CanFailNow(s);
    }
  }

  lemma HarmfulCanFail(s: System)
    requires s.f.hoster.Some? && s.clearing.None? && !Harmless(s)
    ensures CanFail(s)
  {
    var h :| h in s.handlers && !s.handlers[h].StoreConfig? &&
      (s.handlers[h].StoreOwn? || s.f.cfg.domain != "" || !NoneConfigures(s));
    if s.handlers[h].StoreOwn? {
      StoreHarms(s, h);
    } else if s.f.cfg.domain != "" {
      ClearHarms(s, h);
    } else {
      var g :| g in s.handlers && s.handlers[g].StoreConfig?;
      ConfigureHarms(s, h, g);
    }
  }

  /** A hoster's certificate, stored in any state in which the lock is free, is served as long
      as the hoster provides, in every continuation, exactly when the handlers that have
      passed their check are harmless: none changes an own certificate, and one clears the
      configuration only if there is none and none is about to be stored. */
  lemma {:induction false} OwnershipExactly(s: System, c: HosterCert)
    requires s.clearing.None?
    ensures AlwaysServed(Step(s, SetHoster(Some(c), true))) <==> Harmless(s)
  {
    var n := Step(s, SetHoster(Some(c), true));
    assert Harmless(n) <==> Harmless(s);
    if Harmless(s) {
      forall events | Provides(events) ensures HosterServed(Run(n, events)) {
        RunProvided(n, events);
      }
    } else {
      HarmfulCanFail(n);
    }
  }

  predicate StoresOwn(s: System) {
    exists h :: h in s.handlers && s.handlers[h].StoreOwn? && s.handlers[h].c.Some?
  }

  /** The hoster is set, and its certificate or none is served. */
  predicate NoneElse(s: System) {
    s.f.hoster.Some? && !StoresOwn(s) && (s.f.custom.Some? ==> OwnedBy(s.f.custom, Hoster))
  }

  lemma StepNoneElse(s: System, e: Event)
    requires NoneElse(s) && !(e.SetHoster? && e.c.None?)
    ensures NoneElse(Step(s, e))
  {
    var n := Step(s, e);
    assert forall h :: h in n.handlers ==> h in s.handlers && n.handlers[h] == s.handlers[h];
    if e.HandlerAct? && e.handler in s.handlers {
      assert !(s.handlers[e.handler].StoreOwn? && s.handlers[e.handler].c.Some?);
    }
  }

  lemma {:induction false} RunNoneElse(s: System, events: seq<Event>)
    requires NoneElse(s) && Provides(events)
    ensures NoneElse(Run(s, events))
    decreases |events|
  {
    if events != [] {
      assert !(events[0].SetHoster? && events[0].c.None?);
      StepNoneElse(s, events[0]);
      RunNoneElse(Step(s, events[0]), events[1..]);
    }
  }

  predicate ServesAnother(s: System) {
    s.f.hoster.Some? && s.f.custom.Some? && !OwnedBy(s.f.custom, Hoster)
  }

  /** What taking back would then remove is not the hoster's, after some continuation, exactly
      when a handler is pending that stores an own certificate. */
  lemma {:induction false} TakenBackDeletesOwnExactly(s: System, c: HosterCert)
    requires s.clearing.None?
    ensures var n := Step(s, SetHoster(Some(c), true));
      (exists events :: Provides(events) && ServesAnother(Run(n, events))) <==> StoresOwn(s)
  {
    var n := Step(s, SetHoster(Some(c), true));
    if StoresOwn(s) {
      var h :| h in s.handlers && s.handlers[h].StoreOwn? && s.handlers[h].c.Some?;
      var act := [HandlerAct(h)];
      assert act[1..] == [];
      assert Run(n, act) == Run(Step(n, HandlerAct(h)), []);
      assert Provides(act) && ServesAnother(Run(n, act));
    } else {
      assert NoneElse(n);
      forall events | Provides(events) ensures !ServesAnother(Run(n, events)) {
        RunNoneElse(n, events);
      }
    }
  }

  // ---- What clearing removes ----

  /** `Clear` itself does not look at the hoster: it keeps the hoster's certificate exactly
      when that does not cover the configured domain. */
  lemma ClearKeepsHosterExactly(s: System, h: nat)
    requires HosterServed(s) && s.f.hoster.Some? && s.clearing.None?
    requires h in s.handlers && s.handlers[h].ClearConfig?
    ensures Step(Step(s, HandlerAct(h)), ClearEnd).f.custom == s.f.hoster <==>
      !(s.f.cfg.domain != "" && CoversDomain(s.f.hoster.value.names, s.f.cfg.domain))
  {
  }

  ghost predicate NoEnd(events: seq<Event>) {
    forall i :: 0 <= i < |events| ==> !events[i].ClearEnd?
  }

  /** A `Clear` is about to remove a certificate that does not cover the domain. */
  predicate RemovesForeign(s: System) {
    s.clearing == Some(true) && s.f.custom.Some? && !Covered(s.f)
  }

  /** A pending handler stores an own certificate that does not cover the domain. */
  predicate StoresForeign(s: System) {
    exists h :: h in s.handlers && s.handlers[h].StoreOwn? && s.handlers[h].c.Some?
      && !(s.f.cfg.domain != "" && CoversDomain(s.handlers[h].c.value.names, s.f.cfg.domain))
  }

  predicate RemovesCovering(s: System) {
    s.clearing.Some? && (s.clearing.value ==> !StoresForeign(s) && !RemovesForeign(s))
  }

  lemma StepRemovesCovering(s: System, e: Event)
    requires RemovesCovering(s) && !e.ClearEnd?
    ensures RemovesCovering(Step(s, e))
  {
    var n := Step(s, e);
    assert n.f.cfg == s.f.cfg && n.clearing == s.clearing;
    assert forall h :: h in n.handlers ==> h in s.handlers && n.handlers[h] == s.handlers[h];
  }

  lemma {:induction false} RunRemovesCovering(s: System, events: seq<Event>)
    requires RemovesCovering(s) && NoEnd(events)
    ensures RemovesCovering(Run(s, events))
    decreases |events|
  {
    if events != [] {
      assert !events[0].ClearEnd?;
      StepRemovesCovering(s, events[0]);
      RunRemovesCovering(Step(s, events[0]), events[1..]);
    }
  }

  /** A `Clear` can remove a certificate that does not cover the configured domain exactly
      when the one it looked at does, and a pending handler stores one that does not. */
  lemma {:induction false} ClearRemovesForeignExactly(s: System, h: nat)
    requires s.clearing.None? && h in s.handlers && s.handlers[h].ClearConfig?
    ensures var n := Step(s, HandlerAct(h));
      (exists events :: NoEnd(events) && RemovesForeign(Run(n, events))) <==> Covered(s.f) && StoresForeign(s)
  {
    var n := Step(s, HandlerAct(h));
    assert forall g :: g in n.handlers <==> g in s.handlers && g != h;
    assert StoresForeign(n) <==> StoresForeign(s);
    if Covered(s.f) && StoresForeign(s) {
      var g :| g in n.handlers && n.handlers[g].StoreOwn? && n.handlers[g].c.Some?
        && !(n.f.cfg.domain != "" && CoversDomain(n.handlers[g].c.value.names, n.f.cfg.domain));
      var act := [HandlerAct(g)];
      assert act[1..] == [];
      assert Run(n, act) == Run(Step(n, HandlerAct(g)), []);
      assert NoEnd(act) && RemovesForeign(Run(n, act));
    } else {
      assert RemovesCovering(n);
      forall events | NoEnd(events) ensures !RemovesForeign(Run(n, events)) {
        RunRemovesCovering(n, events);
      }
    }
  }

  // ---- A restart ----

  /** The store keeps the hoster's certificate over a restart, the manager forgets whose it is.
      After any run taking it back, once the lock is free, leaves it there, without a hoster,
      exactly when no certificate was stored and none removed since. */
  lemma {:induction false} TakenBackAfterRestart(s: System, events: seq<Event>)
    requires Initial(s) && OwnedBy(s.f.custom, Hoster) && Run(s, events).clearing.None?
    ensures var m := Step(Run(s, events), SetHoster(None, true));
      && (OwnedBy(m.f.custom, Hoster) <==> Untouched(s, events))
      && (Untouched(s, events) ==> m.f.hoster.None? && m.f.custom == s.f.custom)
  {
    RunLeftover(s, events);
  }

  // ---- After a Clear ----

  predicate Configures(s: System, e: Event) {
    e.HandlerAct? && e.handler in s.handlers && s.handlers[e.handler].StoreConfig? && s.clearing.None?
  }

  predicate NotConfiguring(s: System, events: seq<Event>)
    decreases |events|
  {
    events == [] || (!Configures(s, events[0]) && NotConfiguring(Step(s, events[0]), events[1..]))
  }

  predicate IssueUnderWay(s: System) {
    exists k :: k in s.calls && s.calls[k].UnderWay?
  }

  predicate WithoutLetsEncrypt(s: System) {
    s.f.cfg.provider == "" && !IssueUnderWay(s) && !OwnedBy(s.f.custom, LetsEncrypt)
  }

  lemma StepWithoutLetsEncrypt(s: System, e: Event)
    requires WithoutLetsEncrypt(s) && !Configures(s, e)
    ensures WithoutLetsEncrypt(Step(s, e))
  {
    var n := Step(s, e);
    forall k | k in n.calls ensures !n.calls[k].UnderWay? {
      assert k in s.calls ==> !s.calls[k].UnderWay?;
    }
  }

  lemma {:induction false} RunWithoutLetsEncrypt(s: System, events: seq<Event>)
    requires WithoutLetsEncrypt(s) && NotConfiguring(s, events)
    ensures WithoutLetsEncrypt(Run(s, events))
    decreases |events|
  {
    if events != [] {
      StepWithoutLetsEncrypt(s, events[0]);
      RunWithoutLetsEncrypt(Step(s, events[0]), events[1..]);
    }
  }

  /** A Let's Encrypt certificate is served, at once or after some run that configures
      nothing. */
  ghost predicate MayServeLetsEncrypt(s: System) {
    exists events :: NotConfiguring(s, events) && OwnedBy(Run(s, events).f.custom, LetsEncrypt)
  }

  lemma UnderWayServes(s: System, k: nat)
    requires k in s.calls && s.calls[k].UnderWay? && s.clearing.None?
    ensures MayServeLetsEncrypt(s)
  {
    var e0, e1 := SetHoster(None, true), Obtain(k, 0, true);
    var events := [e0, e1];
    var n1 := Step(s, e0);
    var n := Step(n1, e1);
    assert events[1..] == [e1] && [e1][1..] == [];
    assert Run(s, events) == Run(n1, [e1]) == Run(n, []) == n;
    assert NotConfiguring(n, []) && NotConfiguring(n1, [e1]) && NotConfiguring(s, events);
  }

  /** While a `Clear` holds the lock, a Let's Encrypt certificate is still the one it saw. */
  predicate Looked(s: System) {
    s.clearing.Some? && OwnedBy(s.f.custom, LetsEncrypt) ==> (s.clearing.value <==> Covered(s.f))
  }

  lemma StepLooked(s: System, e: Event)
    requires Looked(s)
    ensures Looked(Step(s, e))
  {
  }

  lemma {:induction false} RunLooked(s: System, events: seq<Event>)
    requires Looked(s)
    ensures Looked(Run(s, events))
    decreases |events|
  {
    if events != [] {
      StepLooked(s, events[0]);
      RunLooked(Step(s, events[0]), events[1..]);
    }
  }

  /** After clearing the configuration, in any run, a Let's Encrypt certificate is or may again
      be served, without a new configuration, exactly when an issuance is under way at the
      Clear (then `issuing` is set), or the served one does not cover the domain configured
      last. */
  lemma {:induction false} ClearedExactly(s: System, events: seq<Event>)
    requires Initial(s) && Run(s, events).clearing.Some?
    ensures var n := Run(s, events);
      && (MayServeLetsEncrypt(Step(n, ClearEnd)) <==>
            IssueUnderWay(n) || (OwnedBy(n.f.custom, LetsEncrypt) && !Covered(n.f)))
      && (IssueUnderWay(n) ==> n.f.issuing)
  {
    RunLooked(s, events);
    RunOneAtATime(s, events);
    var n := Run(s, events);
    var m := Step(n, ClearEnd);
    if IssueUnderWay(n) {
      var k :| k in n.calls && n.calls[k].UnderWay?;
      UnderWayServes(m, k);
    } else if OwnedBy(m.f.custom, LetsEncrypt) {
      assert NotConfiguring(m, []) && Run(m, []) == m;
    } else {
      forall more | NotConfiguring(m, more) ensures !OwnedBy(Run(m, more).f.custom, LetsEncrypt) {
        RunWithoutLetsEncrypt(m, more);
      }
    }
  }

  // ---- That the loop and the handlers get on ----

  /** A loop that wakes up, finds an issue needed and is not disturbed gets the certificate,
      has taken the kick, and waits again; nothing decides but that certificate. */
  lemma LoopObtains(s: System, now: Time, notAfter: Time)
    requires s.loop == Idle || s.loop == Retrying
    requires s.calls == map[] && !s.f.issuing && s.clearing.None? && NeedsIssue(s.f, now)
    ensures var checked := Step(Step(s, Elapse), Check(now));
      var n := Step(Step(Step(checked, BeginLoop), Obtain(0, notAfter, true)), End(0));
      var d := s.f.cfg.domain;
      && n.f.custom == Some(Cert(LetsEncrypt, [d, "*." + d], notAfter))
      && n.loop == Idle && !n.f.wake && !n.f.issuing && !n.f.lastError
      && n.calls == map[] && n.own == None && n.handlers == s.handlers
  {
    var checked := s.(f := s.f.(wake := false), loop := Wanting, own := None);
    assert Step(Step(s, Elapse), Check(now)) == checked;
    WantingObtains(checked, notAfter);
  }

  lemma WantingObtains(s: System, notAfter: Time)
    requires s.loop == Wanting && s.calls == map[] && BeginError(s.f).None? && s.clearing.None? && s.own.None?
    ensures var n := Step(Step(Step(s, BeginLoop), Obtain(0, notAfter, true)), End(0));
      n == s.(f := s.f.(custom := Some(Obtained(s.f.cfg, notAfter)), issuing := false, lastError := false), loop := Idle)
  {
    var begun := s.(f := s.f.(issuing := true), calls := map[0 := UnderWay(s.f.cfg)], loop := Issuing);
    assert Step(s, BeginLoop) == begun;
    var obtained := begun.(f := begun.f.(custom := Some(Obtained(s.f.cfg, notAfter))), calls := map[0 := Ending(None)]);
    assert Step(begun, Obtain(0, notAfter, true)) == obtained;
    assert obtained.calls - {0} == map[];
  }

  /** A loop that wants to issue begins, or is refused and waits to try again. */
  lemma LoopBegins(s: System)
    requires s.loop == Wanting && 0 !in s.calls && s.clearing.None?
    ensures var n := Step(s, BeginLoop);
      if !s.f.issuing && s.f.cfg.provider != "" && s.f.hoster.None?
      then n.loop == Issuing && 0 in n.calls && n.calls[0] == UnderWay(s.f.cfg) && n.f.issuing
      else n == s.(loop := Retrying)
  {
  }

  /** Any other caller begins under the same conditions. */
  lemma CallBegins(s: System, k: nat)
    requires k != 0 && k !in s.calls && s.clearing.None?
    ensures Step(s, Begin(k)) ==
      if !s.f.issuing && s.f.cfg.provider != "" && s.f.hoster.None?
      then s.(f := s.f.(issuing := true), calls := s.calls[k := UnderWay(s.f.cfg)])
      else s
  {
  }

  /** A handler passes its check exactly while no hoster provides, and may fail then. */
  lemma HandlerPasses(s: System, h: nat, a: Action)
    requires h !in s.handlers && s.clearing.None?
    ensures var n := Step(s, HandlerCheck(h, a));
      && n == (if s.f.hoster.None? then s.(handlers := s.handlers[h := a]) else s)
      && Step(n, HandlerFail(h)) == s
  {
    assert s.handlers[h := a] - {h} == s.handlers && s.handlers - {h} == s.handlers;
  }

  /** Kicks, the loop's waiting, an issuance giving up and a handler failing need no lock. */
  lemma WithoutLock(s: System, k: nat)
    ensures Step(s, Trigger) == s.(f := s.f.(wake := true))
    ensures Step(s, Elapse) == if s.loop == Idle || s.loop == Retrying then s.(f := s.f.(wake := false), loop := Checking) else s
    ensures Step(s, HandlerFail(k)) == s.(handlers := s.handlers - {k})
    ensures Step(s, GiveUp(k)) ==
      if k in s.calls && s.calls[k].UnderWay? then s.(calls := s.calls[k := Ending(Some(Failed))]) else s
  {
  }

  // ---- The last error ----

  /** Whether the last issuance failed, after one more step: its end says so, unless the hoster
      took over, and a change of the configuration forgets it. */
  predicate FailedAfter(s: System, was: bool, e: Event) {
    if s.clearing.Some? then
      was && !e.ClearEnd?
    else
      match e
      case End(k) =>
        if k !in s.calls || !s.calls[k].Ending? || s.calls[k].err == Some(HosterProvides) then was
        else s.calls[k].err.Some?
      case HandlerAct(h) => was && !(h in s.handlers && s.handlers[h].StoreConfig?)
      case _ => was
  }

  predicate FailedLast(s: System, was: bool, events: seq<Event>)
    decreases |events|
  {
    if events == [] then was else FailedLast(Step(s, events[0]), FailedAfter(s, was, events[0]), events[1..])
  }

  lemma StepLastError(s: System, e: Event)
    ensures Step(s, e).f.lastError <==> FailedAfter(s, s.f.lastError, e)
  {
  }

  /** The error that is shown is that of the last issuance under the configuration. */
  lemma {:induction false} LastErrorExactly(s: System, events: seq<Event>)
    ensures Run(s, events).f.lastError <==> FailedLast(s, s.f.lastError, events)
    decreases |events|
  {
    if events != [] {
      StepLastError(s, events[0]);
      LastErrorExactly(Step(s, events[0]), events[1..]);
    }
  }

  /** An issuance serves its certificate if no hoster has come and the store takes it;
      otherwise the old one stays, and only the store's failure is an error. */
  lemma {:induction false} IssuanceEnds(s: System, k: nat, notAfter: Time, stored: bool)
    requires k in s.calls && s.calls[k].UnderWay? && s.clearing.None?
    ensures var domain := s.calls[k].cfg.domain;
      var n := Step(Step(s, Obtain(k, notAfter, stored)), End(k));
      && !n.f.issuing && k !in n.calls
      && n.f.custom == (if s.f.hoster.None? && stored then Some(Cert(LetsEncrypt, [domain, "*." + domain], notAfter)) else s.f.custom)
      && n.f.lastError == (if s.f.hoster.Some? then s.f.lastError else !stored)
  {
  }

  // ---- Renewal ----

  /** The names hold both the domain and its wildcard, and 30 days are left. */
  predicate LastsFor(c: Cert, domain: string, now: Time) {
    && (exists i :: 0 <= i < |c.names| && c.names[i] == domain)
    && (exists i :: 0 <= i < |c.names| && c.names[i] == "*." + domain)
    && c.notAfter >= now + 30 * 24 * 3600 * 1_000_000_000
  }

  /** When the loop checks, it goes back to sleep exactly when it has nothing to do with a
      certificate or serves one that names both the domain and its wildcard and lasts 30
      days; otherwise it wants to issue. */
  lemma CheckExactly(s: System, now: Time)
    requires s.loop == Checking && s.clearing.None?
    ensures var n := Step(s, Check(now));
      && (n.loop == Idle <==>
            s.f.cfg.provider == "" || s.f.hoster.Some?
            || (s.f.custom.Some? && LastsFor(s.f.custom.value, s.f.cfg.domain, now)))
      && (n.loop == Idle || n.loop == Wanting)
      && n.f == s.f
  {
    if s.f.custom.Some? {
      var names, d := s.f.custom.value.names, s.f.cfg.domain;
      assert d in names <==> exists i :: 0 <= i < |names| && names[i] == d;
      assert "*." + d in names <==> exists i :: 0 <= i < |names| && names[i] == "*." + d;
    }
  }

  // ---- No wake-up is lost ----

  /** Only the loop issues, as in the source. */
  predicate LoopIssuesOnly(events: seq<Event>) {
    forall i :: 0 <= i < |events| ==> !events[i].Begin?
  }

  predicate IsLoopCall(s: System) {
    && (s.calls == map[] || s.calls.Keys == {0})
    && (s.loop == Issuing <==> 0 in s.calls)
    && (s.f.issuing <==> 0 in s.calls)
  }

  /** An issuance whose configuration was replaced will be looked at again. */
  predicate Outdated(s: System, cfg: Config) {
    s.f.cfg.provider == "" || s.f.cfg == cfg || s.f.wake
  }

  /** Nothing is missing, or a kick is waiting, or an own certificate decides. */
  predicate Attended(s: System) {
    !Missing(s.f) || s.f.wake || s.own.Some?
  }

  predicate Awake(s: System) {
    && IsLoopCall(s)
    && (s.own.Some? ==> s.f.custom == s.own.value)
    && (s.loop == Idle ==> Attended(s))
    && (0 in s.calls ==> match s.calls[0]
          case UnderWay(cfg) => Outdated(s, cfg)
          case Ending(err) => err.None? ==> Attended(s))
  }

  lemma ObtainedCovers(cfg: Config, notAfter: Time)
    ensures CoversDomain(Obtained(cfg, notAfter).names, cfg.domain)
  {
    var names := Obtained(cfg, notAfter).names;
    assert names[0] == cfg.domain && names[1] == "*." + cfg.domain;
  }

  lemma ObtainAwake(s: System, k: nat, notAfter: Time, stored: bool)
    requires Awake(s)
    ensures Awake(ObtainStep(s, k, notAfter, stored))
  {
    if k in s.calls && s.calls[k].UnderWay? {
      assert k == 0;
      ObtainedCovers(s.calls[0].cfg, notAfter);
      assert ObtainStep(s, k, notAfter, stored).calls.Keys == s.calls.Keys;
    }
  }

  lemma ActAwake(s: System, h: nat)
    requires Awake(s)
    ensures Awake(HandlerActStep(s, h))
  {
  }

  lemma StepAwake(s: System, e: Event)
    requires Awake(s) && !e.Begin?
    ensures Awake(Step(s, e))
  {
    if e.Obtain? {
      ObtainAwake(s, e.call, e.notAfter, e.stored);
    } else if e.HandlerAct? {
      ActAwake(s, e.handler);
    } else if e.GiveUp? && e.call in s.calls {
      assert Step(s, e).calls.Keys == s.calls.Keys;
    } else if e.End? && e.call in s.calls {
      assert e.call == 0;
      assert s.calls[0].Ending? && s.clearing.None? ==> Step(s, e).calls == map[];
    } else if e.BeginLoop? && 0 !in s.calls {
      assert s.calls == map[];
    }
  }

  lemma {:induction false} RunAwake(s: System, events: seq<Event>)
    requires Awake(s) && LoopIssuesOnly(events)
    ensures Awake(Run(s, events))
    decreases |events|
  {
    if events != [] {
      assert !events[0].Begin?;
      StepAwake(s, events[0]);
      RunAwake(Step(s, events[0]), events[1..]);
    }
  }

  /** The change removed an own certificate, or stored one that does not cover the domain. */
  predicate Uncovers(own: Option<OwnCert>, domain: string) {
    own.None? || !CoversDomain(own.value.names, domain)
  }

  /** Whenever the loop has settled for twelve hours and no kick is waiting, a certificate is
      missing exactly when there is a configuration and no hoster, and what is served was
      decided by a change of an own certificate since the last check: a removal, or a
      certificate that does not cover the configured domain. */
  lemma {:induction false} NoWakeUpLost(s: System, events: seq<Event>)
    requires Initial(s) && LoopIssuesOnly(events)
    ensures var n := Run(s, events);
      n.loop == Idle && !n.f.wake ==>
        (Missing(n.f) <==>
          n.f.cfg.provider != "" && n.f.hoster.None? && n.own.Some? && Uncovers(n.own.value, n.f.cfg.domain))
  {
    RunAwake(s, events);
  }

  /** The exception in one step: nothing wakes the loop for the change of an own certificate,
      and the certificate is missing exactly after these two. */
  lemma OwnChangeWakesNobody(s: System, h: nat)
    requires s.loop == Idle && s.f.hoster.None? && s.f.cfg.provider != "" && !s.f.wake
    requires h in s.handlers && s.handlers[h].StoreOwn?
    ensures var n := Step(s, HandlerAct(h));
      n.loop == Idle && !n.f.wake && (Missing(n.f) <==> Uncovers(s.handlers[h].c, s.f.cfg.domain))
  {
  }
}
