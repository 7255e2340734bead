/** The route guard of the API (internal/api/api.go): which principal passes for which route.

    The routes the guard's tables name have a constructor each, with the level Mount declares
    for them; every other route is a project or an instance route with its level and
    pattern, so the theorems hold for whatever Mount declares there. */
module Guard {
  import opened Scope

  datatype Route =
    // GET /auth/me, GET /runtimes, GET /projects, GET /operations, POST /cron/preview
    | AuthMe | Runtimes | ListProjects | Operations | CronPreview
    // GET /dashboard, GET /settings, GET /plan, GET /metrics/overview
    | Dashboard | GetSettings | GetPlan | MetricsOverview
    // POST /auth/password, GET and PUT /auth/ssh-keys, GET, POST and DELETE /tokens, POST /auth/gate
    | ChangePassword | GetSshKeys | SetSshKeys | ListTokens | CreateToken | DeleteToken | OpenGate
    // The routes under /auth/2fa
    | TwoFactorStatus | BeginTotp | ConfirmTotp | RemoveTotp | PasskeyOptions | AddPasskey
    | RenamePasskey | RemovePasskey | RecoveryCodes
    // GET /dbtool and the browser behind it
    | DbToolStatus | DbToolProxy
    // Patterns with /projects/{id}, and all others
    | ProjectRoute(need: Scope, pattern: string)
    | InstanceRoute(need: Scope, pattern: string)

  /** instanceRoutesForConfined. */
  predicate ForConfined(r: Route) {
    r.AuthMe? || r.Runtimes? || r.ListProjects? || r.Operations? || r.CronPreview?
  }

  /** instanceRoutesForConfinedUsers. */
  predicate ForConfinedUsers(r: Route) {
    || r.Dashboard? || r.GetSettings? || r.GetPlan? || r.MetricsOverview?
    || r.ChangePassword? || r.GetSshKeys? || r.SetSshKeys? || r.ListTokens? || r.CreateToken? || r.DeleteToken?
    || r.OpenGate? || TwoFactorRoute(r)
  }

  predicate TwoFactorRoute(r: Route) {
    || r.TwoFactorStatus? || r.BeginTotp? || r.ConfirmTotp? || r.RemoveTotp? || r.PasskeyOptions? || r.AddPasskey?
    || r.RenamePasskey? || r.RemovePasskey? || r.RecoveryCodes?
  }

  /** routesForAnyProject. */
  predicate ForAnyProject(r: Route) {
    r.DbToolStatus? || r.DbToolProxy?
  }

  /** routesWhileSuspended. */
  predicate WhileSuspended(r: Route) {
    r.AuthMe? || r.GetPlan?
  }

  /** routesWhileTwoFactorSetup. */
  predicate WhileTwoFactorSetup(r: Route) {
    || r.AuthMe? || r.GetPlan? || r.TwoFactorStatus? || r.BeginTotp? || r.ConfirmTotp? || r.PasskeyOptions?
    || r.AddPasskey?
  }

  const REFUSED_PATTERNS: set<string> := {
    "PUT /api/v1/settings/support-access", "POST /api/v1/users", "PATCH /api/v1/users/{id}",
    "DELETE /api/v1/users/{id}", "POST /api/v1/users/{id}/invite", "PUT /api/v1/users/{id}/projects/{project}",
    "PUT /api/v1/settings/oidc", "POST /api/v1/settings/oidc/test", "POST /api/v1/instance/backups/{id}/restore",
    "POST /api/v1/settings/secret-key/reveal", "POST /api/v1/settings/secret-key/rotate",
    "POST /api/v1/settings/deploy-key/regenerate", "POST /api/v1/addons",
    "PUT /api/v1/projects/{id}/services/{kind}/image", "PUT /api/v1/settings/registries",
    "PUT /api/v1/audit/settings", "DELETE /api/v1/settings/log-history", "POST /api/v1/offsite/targets",
    "PUT /api/v1/offsite/targets/{target}", "DELETE /api/v1/offsite/targets/{target}",
    "DELETE /api/v1/users/{id}/two-factor"
  }

  /** supportRefused. */
  predicate RefusedToSupport(r: Route) {
    || r.CreateToken? || r.SetSshKeys? || r.ChangePassword?
    || (TwoFactorRoute(r) && !r.TwoFactorStatus?)
    || ((r.ProjectRoute? || r.InstanceRoute?) && r.pattern in REFUSED_PATTERNS)
  }

  /** The level Mount declares. */
  function Need(r: Route): Scope {
    match r
    case DbToolStatus => Operate
    case DbToolProxy => Operate
    case ProjectRoute(need, _) => need
    case InstanceRoute(need, _) => need
    case _ => Read
  }

  /** A request to a route: the {id} of its path, whether the instance is suspended, and
      whether it is an offsite request that the plan does not include. */
  datatype Request = Request(route: Route, id: string, suspended: bool, offsiteOff: bool)

  function Access(p: Principal, r: Request): Verdict {
    var route, need := r.route, Need(r.route);
    if route.ProjectRoute? then Require(p, need, r.id)
    else if ForAnyProject(route) then
      if !Covers(MaxScope(p), need) then Require(p, need, "") else Granted
    else if Confined(p) then
      if !ForConfined(route) && (IsToken(p) || !ForConfinedUsers(route)) then LimitedToProjects else Granted
    else Require(p, need, "")
  }

  /** The verdict of the guard: the first check that objects. */
  method Decide(p: Principal, r: Request) returns (err: Verdict)
    ensures err == Guarded(p, r)
  {
    var need := Need(r.route);
    err := Granted;
    if r.route.ProjectRoute? {
      err := Require(p, need, r.id);
    } else if ForAnyProject(r.route) {
      var most := ComputeMaxScope(p);
      if !Covers(most, need) {
        err := Require(p, need, "");
      }
    } else if Confined(p) {
      if !ForConfined(r.route) && (IsToken(p) || !ForConfinedUsers(r.route)) {
        err := LimitedToProjects;
      }
    } else {
      err := Require(p, need, "");
    }
    if err == Granted && p.twoFactorSetup && !WhileTwoFactorSetup(r.route) {
      err := TwoFactorSetupFirst;
    }
    if err == Granted && p.support && RefusedToSupport(r.route) {
      err := SupportRefused;
    }
    if err == Granted && !WhileSuspended(r.route) && r.suspended {
      err := Suspended;
    }
    if err == Granted && r.offsiteOff {
      err := OffsiteOff;
    }
  }

  function Guarded(p: Principal, r: Request): Verdict {
    var access := Access(p, r);
    if access != Granted then access
    else if p.twoFactorSetup && !WhileTwoFactorSetup(r.route) then TwoFactorSetupFirst
    else if p.support && RefusedToSupport(r.route) then SupportRefused
    else if !WhileSuspended(r.route) && r.suspended then Suspended
    else if r.offsiteOff then OffsiteOff
    else Granted
  }

  predicate Passes(p: Principal, r: Request) {
    Guarded(p, r) == Granted
  }

  // ---- Tokens ----

  predicate ValidRole(p: Principal) {
    GlobalRole(p) in {AdminRole, Developer, Viewer, NoRole}
  }

  predicate ValidNeed(r: Route) {
    Need(r) in {Read, Operate, Admin}
  }

  /** The tables that let a confined principal in hold only read routes. */
  lemma ConfinedTablesOnlyRead(r: Route)
    requires ForConfined(r) || ForConfinedUsers(r)
    ensures Need(r) == Read
  {
  }

  lemma TokenMaxScope(p: Principal)
    requires IsToken(p)
    ensures Rank(MaxScope(p)) <= Rank(MaxScope(Owner(p)))
  {
    MaxScopeIsSupremum(p);
    MaxScopeIsSupremum(Owner(p));
    var id :| ScopeFor(p, id) == MaxScope(p);
    TokenScopeIsMeet(p, id);
  }

  lemma TokenRequires(p: Principal, need: Scope, id: string)
    requires IsToken(p) && need in {Read, Operate, Admin} && Require(p, need, id) == Granted
    ensures Require(Owner(p), need, id) == Granted
  {
    TokenScopeIsMeet(p, id);
  }

  lemma TokenAccess(p: Principal, r: Request)
    requires IsToken(p) && ValidRole(p) && ValidNeed(r.route) && Access(p, r) == Granted
    ensures Access(Owner(p), r) == Granted
  {
    var need := Need(r.route);
    if r.route.ProjectRoute? {
      TokenRequires(p, need, r.id);
    } else if ForAnyProject(r.route) {
      TokenMaxScope(p);
    } else if Confined(p) {
      ConfinedTablesOnlyRead(r.route);
    } else {
      TokenRequires(p, need, "");
    }
  }

  /** A token never passes where its owner's session would not. */
  lemma TokenNeverExceedsOwner(p: Principal, r: Request)
    requires IsToken(p) && ValidRole(p) && ValidNeed(r.route)
    requires Passes(p, r)
    ensures Passes(Owner(p), r)
  {
    TokenAccess(p, r);
  }

  /** What the token's own restrictions leave of a route. */
  predicate TokenReaches(p: Principal, r: Request) {
    if r.route.ProjectRoute? && r.id != "" then
      Covers(p.scope, Need(r.route)) && (|p.projects| == 0 || r.id in p.projects)
    else if ForConfined(r.route) then Confined(p) || Covers(p.scope, Need(r.route))
    else !Confined(p) && Covers(p.scope, Need(r.route))
  }

  lemma TokenProjectAccess(p: Principal, r: Request)
    requires IsToken(p) && ValidRole(p) && ValidNeed(r.route) && r.route.ProjectRoute?
    ensures Access(p, r) == Granted <==> Access(Owner(p), r) == Granted && TokenReaches(p, r)
  {
    TokenScopeIsMeet(p, r.id);
  }

  lemma TokenInstanceAccess(p: Principal, r: Request)
    requires IsToken(p) && ValidRole(p) && ValidNeed(r.route) && !r.route.ProjectRoute? && !ForAnyProject(r.route)
    ensures Access(p, r) == Granted <==> Access(Owner(p), r) == Granted && TokenReaches(p, r)
  {
    TokenScopeIsMeet(p, "");
    if ForConfined(r.route) || ForConfinedUsers(r.route) {
      ConfinedTablesOnlyRead(r.route);
    }
  }

  /** Where no project is looked for, a token passes exactly where its owner's session does
      and its own scope and project list reach. */
  lemma TokenPassesExactly(p: Principal, r: Request)
    requires IsToken(p) && ValidRole(p) && ValidNeed(r.route) && !p.twoFactorSetup
    requires !ForAnyProject(r.route)
    ensures Passes(p, r) <==> Passes(Owner(p), r) && TokenReaches(p, r)
  {
    if r.route.ProjectRoute? {
      TokenProjectAccess(p, r);
    } else {
      TokenInstanceAccess(p, r);
    }
  }

  /** The database browser opens to a token exactly when some project its list allows, or
      the instance, has the level under both the token's scope and the owner's role. */
  lemma TokenOpensDbTool(p: Principal, r: Request)
    requires IsToken(p) && (r.route == DbToolStatus || r.route == DbToolProxy)
    ensures Access(p, r) == Granted <==>
      exists id :: (id == "" || |p.projects| == 0 || id in p.projects)
        && Covers(p.scope, Operate) && Covers(ScopeFor(Owner(p), id), Operate)
  {
    MaxScopeCovers(p, Operate);
    forall id: string
      ensures Covers(ScopeFor(p, id), Operate) <==>
        (id == "" || |p.projects| == 0 || id in p.projects)
        && Covers(p.scope, Operate) && Covers(ScopeFor(Owner(p), id), Operate)
    {
      TokenScopeIsMeet(p, id);
    }
    if !Covers(MaxScope(p), Operate) {
      assert !Covers(ScopeFor(p, ""), Operate);
    }
  }

  // ---- Roles ----

  function RoleRank(r: Role): int {
    Rank(RoleScope(r))
  }

  /** The session of the same user with another global role. */
  function WithRole(p: Principal, role: Role): (q: Principal)
    ensures q.role == role && q.tokenName == p.tokenName
    ensures q.projectRoles == p.projectRoles && q.support == p.support && q.twoFactorSetup == p.twoFactorSetup
  {
    p.(role := role)
  }

  lemma RaisedScope(p: Principal, role: Role, id: string)
    requires !IsToken(p) && RoleRank(GlobalRole(p)) <= RoleRank(GlobalRole(WithRole(p, role)))
    ensures Rank(ScopeFor(p, id)) <= Rank(ScopeFor(WithRole(p, role), id))
  {
  }

  lemma RaisedRequires(p: Principal, role: Role, need: Scope, id: string)
    requires !IsToken(p) && ValidRole(p) && ValidRole(WithRole(p, role))
    requires RoleRank(GlobalRole(p)) <= RoleRank(GlobalRole(WithRole(p, role)))
    requires Require(p, need, id) == Granted
    ensures Require(WithRole(p, role), need, id) == Granted
  {
    RaisedScope(p, role, id);
  }

  lemma RaisedMaxScope(p: Principal, role: Role)
    requires !IsToken(p) && RoleRank(GlobalRole(p)) <= RoleRank(GlobalRole(WithRole(p, role)))
    ensures Rank(MaxScope(p)) <= Rank(MaxScope(WithRole(p, role)))
  {
    MaxScopeIsSupremum(p);
    MaxScopeIsSupremum(WithRole(p, role));
    var id :| ScopeFor(p, id) == MaxScope(p);
    RaisedScope(p, role, id);
  }

  lemma RaisedAccess(p: Principal, role: Role, r: Request)
    requires !IsToken(p) && ValidRole(p) && ValidRole(WithRole(p, role)) && ValidNeed(r.route)
    requires RoleRank(GlobalRole(p)) <= RoleRank(GlobalRole(WithRole(p, role)))
    requires Access(p, r) == Granted
    ensures Access(WithRole(p, role), r) == Granted
  {
    var need := Need(r.route);
    if r.route.ProjectRoute? {
      RaisedRequires(p, role, need, r.id);
    } else if ForAnyProject(r.route) {
      RaisedMaxScope(p, role);
    } else if Confined(p) {
      ConfinedTablesOnlyRead(r.route);
    } else {
      RaisedRequires(p, role, need, "");
    }
  }

  /** A higher role never closes a route of the browser session, not even one that a user
      without a role is let in to. */
  lemma HigherRoleKeepsRoutes(p: Principal, role: Role, r: Request)
    requires !IsToken(p) && ValidRole(p) && ValidRole(WithRole(p, role)) && ValidNeed(r.route)
    requires RoleRank(GlobalRole(p)) <= RoleRank(GlobalRole(WithRole(p, role)))
    requires Passes(p, r)
    ensures Passes(WithRole(p, role), r)
  {
    RaisedAccess(p, role, r);
  }

  // ---- The tables spelled out ----

  /** A session whose user has no global role is let in to these routes without a project; a
      token with a project list to the first five only. */
  lemma ConfinedReaches(p: Principal, r: Request)
    requires Confined(p) && !r.route.ProjectRoute? && !r.route.DbToolStatus? && !r.route.DbToolProxy?
    ensures Access(p, r) ==
      if || r.route in {AuthMe, Runtimes, ListProjects, Operations, CronPreview}
         || (p.tokenName == "" && r.route in {
               Dashboard, GetSettings, GetPlan, MetricsOverview,
               ChangePassword, GetSshKeys, SetSshKeys, ListTokens, CreateToken, DeleteToken, OpenGate,
               TwoFactorStatus, BeginTotp, ConfirmTotp, RemoveTotp, PasskeyOptions, AddPasskey,
               RenamePasskey, RemovePasskey, RecoveryCodes})
      then Granted else LimitedToProjects
  {
  }

  /** Whom the access lets through is still turned away until a second factor is set up, as
      the hoster's support, while the instance is suspended, or for an offsite request outside
      the plan; each but for the routes named. */
  lemma GuardExactly(p: Principal, r: Request)
    ensures Passes(p, r) <==>
      && Access(p, r) == Granted
      && (p.twoFactorSetup ==> r.route in {AuthMe, GetPlan, TwoFactorStatus, BeginTotp, ConfirmTotp, PasskeyOptions, AddPasskey})
      && (p.support ==>
            && r.route !in {CreateToken, SetSshKeys, ChangePassword, BeginTotp, ConfirmTotp, RemoveTotp, PasskeyOptions,
                            AddPasskey, RenamePasskey, RemovePasskey, RecoveryCodes}
            && ((r.route.ProjectRoute? || r.route.InstanceRoute?) ==> r.route.pattern !in REFUSED_PATTERNS))
      && (r.suspended ==> r.route in {AuthMe, GetPlan})
      && !r.offsiteOff
  {
  }

  /** The reason given is the first of these, in this order. */
  lemma GuardReason(p: Principal, r: Request)
    ensures var v := Guarded(p, r);
      && (Access(p, r) != Granted ==> v == Access(p, r))
      && (v == TwoFactorSetupFirst ==> p.twoFactorSetup)
      && (v == SupportRefused ==> p.support && (p.twoFactorSetup ==> WhileTwoFactorSetup(r.route)))
      && (v == Suspended ==> r.suspended && (p.support ==> !RefusedToSupport(r.route)))
      && (v == OffsiteOff ==> r.offsiteOff && (r.suspended ==> r.route in {AuthMe, GetPlan}))
  {
  }
}
