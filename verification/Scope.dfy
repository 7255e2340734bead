/** Who may do what (internal/auth/scope.go): the scope of a signed-in user or an API token
    in a project and on the instance, and the most it reaches anywhere. */
module Scope {
  import opened Seqs

  /** Any other name covers nothing. */
  datatype Scope = Read | Operate | Admin | NoScope(name: string)

  datatype Role = AdminRole | Developer | Viewer | NoRole | OtherRole(name: string)

  /** What a request carries; `tokenName` is empty for a browser session. */
  datatype Principal = Principal(
    role: Role,
    projectRoles: map<string, Role>,
    tokenName: string,
    scope: Scope,
    projects: seq<string>,
    support: bool,
    twoFactorSetup: bool)

  function Rank(s: Scope): (r: int)
    ensures -1 <= r <= 2
  {
    match s
    case Read => 0
    case Operate => 1
    case Admin => 2
    case NoScope(_) => -1
  }

  predicate Covers(s: Scope, need: Scope) {
    Rank(s) >= 0 && Rank(s) >= Rank(need)
  }

  function RoleScope(r: Role): Scope {
    match r
    case AdminRole => Admin
    case Developer => Operate
    case Viewer => Read
    case NoRole => NoScope("")
    case OtherRole(_) => NoScope("")
  }

  /** A principal without any role name has the role of an admin. */
  function GlobalRole(p: Principal): Role {
    if p.role == OtherRole("") then AdminRole else p.role
  }

  function RoleFor(p: Principal, id: string): Role {
    var global := GlobalRole(p);
    if global == AdminRole || id == "" then global
    else if id in p.projectRoles then p.projectRoles[id]
    else global
  }

  predicate IsToken(p: Principal) {
    p.tokenName != ""
  }

  predicate Restricted(p: Principal) {
    IsToken(p) && |p.projects| > 0
  }

  function ScopeFor(p: Principal, id: string): Scope {
    var s := RoleScope(RoleFor(p, id));
    if !IsToken(p) then s
    else if id != "" && Restricted(p) && id !in p.projects then NoScope("")
    else if Rank(s) > Rank(p.scope) then p.scope
    else s
  }

  // ---- The highest level over all ids ----

  /** The instance and the projects that are looked at. */
  function Candidates(p: Principal): set<string> {
    {""} + p.projectRoles.Keys + set i | 0 <= i < |p.projects| :: p.projects[i]
  }

  predicate SomeCandidate(p: Principal, s: Scope) {
    exists id :: id in Candidates(p) && ScopeFor(p, id) == s
  }

  function MaxScope(p: Principal): Scope {
    if SomeCandidate(p, Admin) then Admin
    else if SomeCandidate(p, Operate) then Operate
    else if SomeCandidate(p, Read) then Read
    else ScopeFor(p, "")
  }

  /** The best of the candidates looked at so far. */
  ghost predicate BestOf(p: Principal, seen: set<string>, best: Scope) {
    && "" in seen
    && (forall id :: id in seen ==> Rank(ScopeFor(p, id)) <= Rank(best))
    && (exists id :: id in seen && ScopeFor(p, id) == best)
    && (Rank(best) < 0 ==> best == ScopeFor(p, ""))
  }

  lemma BestOfAll(p: Principal, best: Scope)
    requires BestOf(p, Candidates(p), best)
    ensures best == MaxScope(p)
  {
    assert Rank(best) >= 0 ==> SomeCandidate(p, best);
    forall s: Scope | SomeCandidate(p, s) ensures Rank(s) <= Rank(best) {
      var id :| id in Candidates(p) && ScopeFor(p, id) == s;
    }
  }

  /** The two loops of the source; the roles come in any order. */
  method ComputeMaxScope(p: Principal) returns (best: Scope)
    ensures best == MaxScope(p)
  {
    best := ScopeFor(p, "");
    ghost var seen: set<string> := {""};
    var rest := p.projectRoles.Keys;
    while rest != {}
      invariant rest <= p.projectRoles.Keys
      invariant seen == {""} + (p.projectRoles.Keys - rest)
      invariant BestOf(p, seen, best)
      decreases rest
    {
      var id :| id in rest;
      best := Considered(p, seen, best, id);
      seen := seen + {id};
      rest := rest - {id};
    }
    assert seen == {""} + p.projectRoles.Keys;
    best := ConsideredProjects(p, seen, best);
    BestOfAll(p, best);
  }

  method ConsideredProjects(p: Principal, ghost roles: set<string>, first: Scope) returns (best: Scope)
    requires roles == {""} + p.projectRoles.Keys && BestOf(p, roles, first)
    ensures BestOf(p, Candidates(p), best)
  {
    best := first;
    ghost var seen := roles;
    for i := 0 to |p.projects|
      invariant seen == roles + set j | 0 <= j < i :: p.projects[j]
      invariant BestOf(p, seen, best)
    {
      best := Considered(p, seen, best, p.projects[i]);
      seen := seen + {p.projects[i]};
    }
    assert seen == Candidates(p);
  }

  method Considered(p: Principal, ghost seen: set<string>, best: Scope, id: string) returns (r: Scope)
    requires BestOf(p, seen, best)
    ensures BestOf(p, seen + {id}, r)
  {
    var s := ScopeFor(p, id);
    if Rank(s) > Rank(best) {
      assert id in seen + {id} && ScopeFor(p, id) == s;
      return s;
    }
    ghost var k :| k in seen && ScopeFor(p, k) == best;
    assert k in seen + {id};
    return best;
  }

  /** An id that is not looked at gives no more than the instance does. */
  lemma OtherIdsGiveNoMore(p: Principal, id: string)
    requires id !in Candidates(p)
    ensures Rank(ScopeFor(p, id)) <= Rank(ScopeFor(p, ""))
  {
  }

  /** `MaxScope` is the supremum over the instance and every project id there could be, and
      it is reached. */
  lemma MaxScopeIsSupremum(p: Principal)
    ensures forall id :: Rank(ScopeFor(p, id)) <= Rank(MaxScope(p))
    ensures exists id :: ScopeFor(p, id) == MaxScope(p)
  {
    assert "" in Candidates(p);
    forall id: string ensures Rank(ScopeFor(p, id)) <= Rank(MaxScope(p)) {
      var k := if id in Candidates(p) then id else "";
      if id !in Candidates(p) { OtherIdsGiveNoMore(p, id); }
      assert SomeCandidate(p, ScopeFor(p, k));
    }
    assert ScopeFor(p, "") == ScopeFor(p, "");
  }

  /** The most covers a level exactly when some id does. */
  lemma MaxScopeCovers(p: Principal, need: Scope)
    ensures Covers(MaxScope(p), need) <==> exists id :: Covers(ScopeFor(p, id), need)
  {
    MaxScopeIsSupremum(p);
  }

  // ---- Tokens and their owners ----

  /** The browser session of a token's owner. */
  function Owner(p: Principal): (o: Principal)
    ensures o.tokenName == "" && !o.twoFactorSetup
    ensures o.role == p.role && o.projectRoles == p.projectRoles && o.support == p.support
  {
    p.(tokenName := "", twoFactorSetup := false)
  }

  /** A token reaches exactly the lesser of its own scope and its owner's, and nothing in a
      project outside its list. */
  lemma TokenScopeIsMeet(p: Principal, id: string)
    requires IsToken(p)
    ensures Rank(ScopeFor(p, id)) ==
      if id != "" && |p.projects| > 0 && id !in p.projects then -1
      else Min(Rank(ScopeFor(Owner(p), id)), Rank(p.scope))
    ensures Rank(ScopeFor(p, id)) <= Rank(ScopeFor(Owner(p), id))
  {
  }

  // ---- The checks ----

  predicate Confined(p: Principal) {
    Restricted(p) || GlobalRole(p) == NoRole
  }

  predicate Allows(p: Principal, need: Scope) {
    !Confined(p) && Covers(ScopeFor(p, ""), need)
  }

  /** nil, or why the request is forbidden. */
  datatype Verdict = Granted | LimitedToProjects | LacksTokenScope | LacksRole | NoProjectAccess
    | TwoFactorSetupFirst | SupportRefused | Suspended | OffsiteOff

  function Lacks(p: Principal, need: Scope): Verdict {
    if IsToken(p) && !Covers(p.scope, need) then LacksTokenScope else LacksRole
  }

  function Require(p: Principal, need: Scope, id: string): Verdict {
    if id == "" then
      if Allows(p, need) then Granted
      else if Confined(p) && Covers(MaxScope(p), need) then LimitedToProjects
      else Lacks(p, need)
    else if !Covers(ScopeFor(p, id), Read) then NoProjectAccess
    else if !Covers(ScopeFor(p, id), need) then Lacks(p, need)
    else Granted
  }

  /** "Limited to particular projects" is said exactly when the level is refused on the
      instance but within reach somewhere, and then a single project has it. */
  lemma LimitedMeansReachable(p: Principal, need: Scope)
    ensures Require(p, need, "") == LimitedToProjects <==>
      Confined(p) && exists id :: Covers(ScopeFor(p, id), need)
  {
    MaxScopeCovers(p, need);
  }

  // ---- The roles spelled out ----

  /** A role's levels: an admin has all, a developer operates and reads, a viewer reads, and
      no other role has any. */
  predicate RoleHas(r: Role, need: Scope) {
    match need
    case Admin => r == AdminRole
    case Operate => r == AdminRole || r == Developer
    case Read => r == AdminRole || r == Developer || r == Viewer
    case NoScope(_) => false
  }

  /** A browser session in a project: an admin is admin everywhere; for everyone else an own
      role in the project decides instead of the global one. It is refused for want of any
      access, or of the level. */
  lemma SessionInProject(p: Principal, need: Scope, id: string)
    requires p.tokenName == "" && id != "" && need in {Read, Operate, Admin}
    ensures var role :=
        if p.role == AdminRole || p.role == OtherRole("") then AdminRole
        else if id in p.projectRoles then p.projectRoles[id]
        else p.role;
      Require(p, need, id) ==
        if RoleHas(role, need) then Granted
        else if RoleHas(role, Read) then LacksRole
        else NoProjectAccess
  {
  }

  /** A browser session on the instance: the global role decides. Who has none is told of
      particular projects exactly when some role in a project has the level. */
  lemma SessionOnInstance(p: Principal, need: Scope)
    requires p.tokenName == "" && need in {Read, Operate, Admin}
    ensures var role := if p.role == OtherRole("") then AdminRole else p.role;
      Require(p, need, "") ==
        if RoleHas(role, need) then Granted
        else if role == NoRole && exists id :: id in p.projectRoles && id != "" && RoleHas(p.projectRoles[id], need) then LimitedToProjects
        else LacksRole
  {
    MaxScopeCovers(p, need);
    forall id: string
      ensures GlobalRole(p) == NoRole ==>
        (Covers(ScopeFor(p, id), need) <==> id in p.projectRoles && id != "" && RoleHas(p.projectRoles[id], need))
    {
    }
  }

  /** A token is told of its scope exactly when that does not reach, and of the role else. */
  lemma TokenRefusal(p: Principal, need: Scope, id: string)
    requires p.tokenName != "" && id != "" && need in {Read, Operate, Admin}
    requires Covers(ScopeFor(p, id), Read) && Require(p, need, id) != Granted
    ensures Require(p, need, id) ==
      (if p.scope == Admin || p.scope == need || (p.scope == Operate && need == Read) then LacksRole else LacksTokenScope)
  {
  }
}
