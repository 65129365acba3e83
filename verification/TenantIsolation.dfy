/** Runs of authorization and sharing calls by many organisations: what one organisation's calls can change in
    another's decisions. */
module TenantIsolation {
  import opened Wrappers
  import opened Authorization
  import opened Sharing

  datatype State = State(
    members: Members, mfa: set<UserId>, live: set<Resource>, assignments: seq<Assignment>, rows: Rows)

  /** Who asks for an assignment: an operator with access to the server (the bootstrap command is one such call),
      the restore of a package into an organisation, or a user. */
  datatype Caller = Operator | PackageRestore | Member(user: UserId)

  datatype Event =
    | Assign(user: UserId, role: string, scope: Option<OrgId>, caller: Caller)
    /** The creator of an organisation becomes its first member and its administrator. */
    | CreateOrganization(org: OrgId, creator: UserId)
    | DirectGrant(org: OrgId, key: Key, expires: Option<int>)
    | Create(id: ShareId, actor: UserId, resource: Resource, principal: Principal, level: string, expires: Option<int>)
    | Revoke(id: ShareId, actor: UserId, now: int)
    /** A membership row of an organisation is added, changed or removed; its team is the organisation's own. */
    | MembershipChange(org: OrgId, user: UserId, row: Option<Membership>)
    | ResourceChange(resource: Resource, present: bool)
    | MfaChange(user: UserId, enabled: bool)

  datatype Outcome = Done | RefusedAccess(access: AccessError) | RefusedSharing(sharing: SharingError) | NotAllowed

  const OWNER_ROLE := "organization-administrator"

  const NOBODY := State(map[], {}, {}, [], Rows(map[], map[]))

  /** The organisation whose call this is; None for what concerns the whole platform. */
  function OrgOf(cat: Catalogue, e: Event): Option<OrgId> {
    match e
    case Assign(_, _, scope, _) => scope
    case CreateOrganization(org, _) => Some(org)
    case DirectGrant(org, _, _) => Some(org)
    case Create(id, _, _, _, _, _) => Some(id.org)
    case Revoke(id, _, _) => Some(id.org)
    case MembershipChange(org, _, _) => Some(org)
    case ResourceChange(resource, _) => if resource in cat.owner then Some(cat.owner[resource]) else None
    case MfaChange(_, _) => None
  }

  function ChangeMembers(cat: Catalogue, members: Members, org: OrgId, user: UserId, row: Option<Membership>): Members {
    if row.None? then members - {(user, org)}
    else if row.value.team.Some?
      && (row.value.team.value !in cat.teamOrg || cat.teamOrg[row.value.team.value] != org) then members
    else members[(user, org) := row.value]
  }

  /** The checks before assign_role. A user must be an active member who manages permissions in the organisation, and
      the target one of its members. A restore gives roles to members of the organisation it restores into, all but
      the creator's. */
  predicate MayAssign(
      cat: Catalogue, members: Members, assignments: seq<Assignment>,
      user: UserId, role: string, scope: Option<OrgId>, caller: Caller)
  {
    match caller
    case Operator => true
    case PackageRestore => scope.Some? && (user, scope.value) in members && role != OWNER_ROLE
    case Member(granter) =>
      && scope.Some? && (user, scope.value) in members
      && IsActive(members, granter, scope.value)
      && HasRolePermission(cat, assignments, Some(granter), "permissions.manage", scope)
  }

  /** The granter that assign_role is told: only a user is one. */
  function Granter(caller: Caller): Option<UserId> {
    if caller.Member? then Some(caller.user) else None
  }

  /** A new organisation's id is not in use. */
  predicate IsNew(members: Members, assignments: seq<Assignment>, org: OrgId) {
    && (forall m :: m in members ==> m.1 != org)
    && (forall a :: a in assignments ==> a.scope != Some(org))
  }

  function Step(cat: Catalogue, s: State, e: Event): (State, Outcome) {
    match e
    case Assign(user, role, scope, caller) =>
      if !MayAssign(cat, s.members, s.assignments, user, role, scope, caller) then (s, NotAllowed)
      else
        (match AssignRole(cat, s.mfa, s.assignments, user, role, scope, Granter(caller))
         case Success(after) => (s.(assignments := after), Done)
         case Failure(error) => (s, RefusedAccess(error)))
    case CreateOrganization(org, creator) =>
      if !IsNew(s.members, s.assignments, org) then (s, NotAllowed)
      else
        (match AssignRole(cat, s.mfa, s.assignments, creator, OWNER_ROLE, Some(org), Some(creator))
         case Success(after) =>
           (s.(members := s.members[(creator, org) := Membership(None, true)], assignments := after), Done)
         case Failure(error) => (s, RefusedAccess(error)))
    case DirectGrant(org, key, expires) =>
      (match GrantResource(cat, s.rows.grants, key, Grant(org, expires))
       case Success(after) => (s.(rows := s.rows.(grants := after)), Done)
       case Failure(error) => (s, RefusedAccess(error)))
    case Create(id, actor, resource, principal, level, expires) =>
      (match CreateShare(cat, s.members, s.assignments, s.live, s.rows, id, actor, resource, principal, level, expires)
       case Success(after) => (s.(rows := after), Done)
       case Failure(error) => (s, RefusedSharing(error)))
    case Revoke(id, actor, now) =>
      (match RevokeShare(cat, s.members, s.assignments, s.rows, id, actor, now)
       case Success(after) => (s.(rows := after), Done)
       case Failure(error) => (s, RefusedSharing(error)))
    case MembershipChange(org, user, row) => (s.(members := ChangeMembers(cat, s.members, org, user, row)), Done)
    case ResourceChange(resource, present) =>
      (s.(live := if present then s.live + {resource} else s.live - {resource}), Done)
    case MfaChange(user, enabled) =>
      (s.(mfa := if enabled then s.mfa + {user} else s.mfa - {user}), Done)
  }

  function Run(cat: Catalogue, s: State, es: seq<Event>): State
    decreases |es|
  {
    if es == [] then s else Run(cat, Step(cat, s, es[0]).0, es[1..])
  }

  predicate Decision(
      cat: Catalogue, s: State, user: Option<UserId>, code: string, org: Option<OrgId>, resource: Option<Resource>, now: int)
  {
    HasPermission(cat, s.assignments, s.rows.grants, user, code, org, resource, now)
  }

  // ---------- platform-wide roles ----------

  predicate PlatformIsForSuper(assignments: seq<Assignment>) {
    forall i :: 0 <= i < |assignments| && assignments[i].scope == None ==> assignments[i].role == PLATFORM_WIDE_ROLE
  }

  /** Whatever is called in whatever order, only super-administrators are ever assigned platform-wide. */
  lemma {:induction false} PlatformWideIsSuperOnly(cat: Catalogue, s: State, es: seq<Event>)
    requires PlatformIsForSuper(s.assignments)
    ensures PlatformIsForSuper(Run(cat, s, es).assignments)
    decreases |es|
  {
    hide CreateShare, RevokeShare, GrantResource, ChangeMembers;
    if es != [] {
      PlatformWideIsSuperOnly(cat, Step(cat, s, es[0]).0, es[1..]);
    }
  }

  /** So a decision without an organisation is positive only through that role. */
  lemma {:induction false} PlatformDecisionsNeedSuper(
      cat: Catalogue, es: seq<Event>, user: UserId, code: string, resource: Option<Resource>, now: int)
    requires Decision(cat, Run(cat, NOBODY, es), Some(user), code, None, resource, now)
    ensures Assignment(user, PLATFORM_WIDE_ROLE, None) in Run(cat, NOBODY, es).assignments
    ensures PLATFORM_WIDE_ROLE in cat.roles && code in cat.roles[PLATFORM_WIDE_ROLE]
  {
    PlatformWideIsSuperOnly(cat, NOBODY, es);
    var s := Run(cat, NOBODY, es);
    var i :| 0 <= i < |s.assignments| && Confers(cat, s.assignments[i], user, code, None);
    assert s.assignments[i] == Assignment(user, PLATFORM_WIDE_ROLE, None);
  }

  // ---------- what an organisation can see ----------

  function Relevant(assignments: seq<Assignment>, org: OrgId): seq<Assignment> {
    if assignments == [] then []
    else
      Relevant(assignments[..|assignments| - 1], org)
      + var a := assignments[|assignments| - 1]; if a.scope == None || a.scope == Some(org) then [a] else []
  }

  function MembersOf(members: Members, org: OrgId): Members {
    map m | m in members && m.1 == org :: members[m]
  }

  function LiveIn(cat: Catalogue, live: set<Resource>, org: OrgId): set<Resource> {
    set r | r in live && (r in cat.owner ==> cat.owner[r] == org)
  }

  function GrantsOf(grants: map<Key, Grant>, org: OrgId): map<Key, Grant> {
    map k | k in grants && grants[k].org == org :: grants[k]
  }

  function SharesOf(shares: map<ShareId, Share>, org: OrgId): map<ShareId, Share> {
    map id | id in shares && id.org == org :: shares[id]
  }

  /** The rows that belong to the organisation or to nobody in particular. */
  function View(cat: Catalogue, s: State, org: OrgId): State {
    State(
      MembersOf(s.members, org), s.mfa, LiveIn(cat, s.live, org), Relevant(s.assignments, org),
      Rows(GrantsOf(s.rows.grants, org), SharesOf(s.rows.shares, org)))
  }

  lemma {:induction false} RelevantMembers(assignments: seq<Assignment>, org: OrgId, a: Assignment)
    ensures a in Relevant(assignments, org) <==> a in assignments && (a.scope == None || a.scope == Some(org))
    decreases |assignments|
  {
    if assignments != [] {
      var n := |assignments| - 1;
      RelevantMembers(assignments[..n], org, a);
      assert assignments == assignments[..n] + [assignments[n]];
    }
  }

  lemma {:induction false} RelevantAppend(assignments: seq<Assignment>, a: Assignment, org: OrgId)
    ensures Relevant(assignments + [a], org)
      == Relevant(assignments, org) + (if a.scope == None || a.scope == Some(org) then [a] else [])
  {
  }

  lemma {:induction false} RolesSeenInView(
      cat: Catalogue, assignments: seq<Assignment>, org: OrgId, user: Option<UserId>, code: string, scope: Option<OrgId>)
    requires scope == None || scope == Some(org)
    ensures HasRolePermission(cat, assignments, user, code, scope)
      <==> HasRolePermission(cat, Relevant(assignments, org), user, code, scope)
  {
    var seen := Relevant(assignments, org);
    if HasRolePermission(cat, assignments, user, code, scope) {
      var i :| 0 <= i < |assignments| && Confers(cat, assignments[i], user.value, code, scope);
      RelevantMembers(assignments, org, assignments[i]);
      var j :| 0 <= j < |seen| && seen[j] == assignments[i];
      assert Confers(cat, seen[j], user.value, code, scope);
    }
    if HasRolePermission(cat, seen, user, code, scope) {
      var j :| 0 <= j < |seen| && Confers(cat, seen[j], user.value, code, scope);
      RelevantMembers(assignments, org, seen[j]);
      var i :| 0 <= i < |assignments| && assignments[i] == seen[j];
      assert Confers(cat, assignments[i], user.value, code, scope);
    }
  }

  /** Every decision in an organisation, or without one, is made from its view alone. */
  lemma ViewDecides(
      cat: Catalogue, s: State, org: OrgId, user: Option<UserId>, code: string, scope: Option<OrgId>,
      resource: Option<Resource>, now: int)
    requires scope == None || scope == Some(org)
    ensures Decision(cat, s, user, code, scope, resource, now)
      <==> Decision(cat, View(cat, s, org), user, code, scope, resource, now)
  {
    RolesSeenInView(cat, s.assignments, org, user, code, scope);
    hide HasRolePermission;
  }

  // ---------- one organisation's run, seen from another ----------

  lemma ForeignStepKeepsView(cat: Catalogue, s: State, e: Event, org: OrgId)
    requires OrgOf(cat, e).Some? && OrgOf(cat, e).value != org
    ensures View(cat, Step(cat, s, e).0, org) == View(cat, s, org)
  {
    match e {
      case Assign(user, role, scope, _) =>
        RelevantAppend(s.assignments, Assignment(user, role, scope), org);
      case CreateOrganization(other, creator) =>
        RelevantAppend(s.assignments, Assignment(creator, OWNER_ROLE, Some(other)), org);
        assert MembersOf(s.members[(creator, other) := Membership(None, true)], org) == MembersOf(s.members, org);
      case Create(id, actor, resource, principal, level, expires) =>
        ForeignRowsStay(cat, s, e, org);
      case Revoke(id, actor, now) =>
        ForeignRowsStay(cat, s, e, org);
      case DirectGrant(_, key, expires) =>
        assert key in s.rows.grants || GrantsOf(s.rows.grants[key := Grant(e.org, expires)], org) == GrantsOf(s.rows.grants, org);
      case MembershipChange(other, user, row) =>
        assert MembersOf(ChangeMembers(cat, s.members, other, user, row), org) == MembersOf(s.members, org);
      case ResourceChange(resource, present) =>
        assert LiveIn(cat, Step(cat, s, e).0.live, org) == LiveIn(cat, s.live, org);
      case MfaChange(_, _) =>
    }
  }

  lemma ForeignRowsStay(cat: Catalogue, s: State, e: Event, org: OrgId)
    requires e.Create? || e.Revoke?
    requires e.id.org != org
    ensures var after := Step(cat, s, e).0.rows;
      GrantsOf(after.grants, org) == GrantsOf(s.rows.grants, org) && SharesOf(after.shares, org) == SharesOf(s.rows.shares, org)
  {
    hide Refusal, PrincipalUsers, LevelCodes, ShareKeys, KeysOf, HasRolePermission;
  }

  /** Non-interference: a finite run of calls in other organisations, of any kind and with any outcome, leaves
      every decision in this organisation, and every decision without one, as it was. */
  lemma {:induction false} ForeignRunChangesNothing(
      cat: Catalogue, s: State, es: seq<Event>, org: OrgId, user: Option<UserId>, code: string, scope: Option<OrgId>,
      resource: Option<Resource>, now: int)
    requires forall e :: e in es ==> OrgOf(cat, e).Some? && OrgOf(cat, e).value != org
    requires scope == None || scope == Some(org)
    ensures View(cat, Run(cat, s, es), org) == View(cat, s, org)
    ensures Decision(cat, Run(cat, s, es), user, code, scope, resource, now)
      <==> Decision(cat, s, user, code, scope, resource, now)
    decreases |es|
  {
    hide Step, View, Decision;
    if es != [] {
      var next := Step(cat, s, es[0]).0;
      ForeignStepKeepsView(cat, s, es[0], org);
      ForeignRunChangesNothing(cat, next, es[1..], org, user, code, scope, resource, now);
      ViewDecides(cat, s, org, user, code, scope, resource, now);
      ViewDecides(cat, next, org, user, code, scope, resource, now);
    }
  }

  // ---------- interleaved runs ----------

  /** `mine` are the resources that only this organisation uses: all that it owns, none that another owns, and of those
      that nobody owns whichever it likes. */
  ghost predicate IsMine(cat: Catalogue, org: OrgId, mine: set<Resource>) {
    forall r :: r in cat.owner ==> (r in mine <==> cat.owner[r] == org)
  }

  /** The organisation's direct grants name its own resources, and nobody else's do. Of shares this always holds. */
  predicate AtHome(e: Event, org: OrgId, mine: set<Resource>) {
    e.DirectGrant? ==> (e.key.resource in mine <==> e.org == org)
  }

  ghost predicate GrantsAtHome(grants: map<Key, Grant>, org: OrgId, mine: set<Resource>) {
    forall k :: k in grants ==> (k.resource in mine <==> grants[k].org == org)
  }

  /** Members of a team belong to the team's organisation. */
  ghost predicate TeamsAtHome(cat: Catalogue, members: Members) {
    forall m :: m in members && members[m].team.Some?
      ==> members[m].team.value in cat.teamOrg && cat.teamOrg[members[m].team.value] == m.1
  }

  /** A share's team is its organisation's. */
  ghost predicate SharesAtHome(cat: Catalogue, shares: map<ShareId, Share>) {
    forall id :: id in shares ==> PrincipalAtHome(cat, shares[id].principal, id.org)
  }

  predicate PrincipalAtHome(cat: Catalogue, principal: Principal, org: OrgId) {
    principal.ToTeam? && principal.team.Some? ==>
      principal.team.value in cat.teamOrg && cat.teamOrg[principal.team.value] == org
  }

  ghost predicate Home(cat: Catalogue, s: State, org: OrgId, mine: set<Resource>) {
    GrantsAtHome(s.rows.grants, org, mine) && TeamsAtHome(cat, s.members) && SharesAtHome(cat, s.rows.shares)
  }

  lemma StepKeepsHome(cat: Catalogue, s: State, e: Event, org: OrgId, mine: set<Resource>)
    requires IsMine(cat, org, mine) && Home(cat, s, org, mine) && AtHome(e, org, mine)
    ensures Home(cat, Step(cat, s, e).0, org, mine)
  {
  }

  /** The run as it would be without the other organisations. */
  function Purge(cat: Catalogue, es: seq<Event>, org: OrgId): seq<Event> {
    if es == [] then []
    else (if OrgOf(cat, es[0]) == None || OrgOf(cat, es[0]) == Some(org) then [es[0]] else []) + Purge(cat, es[1..], org)
  }

  ghost predicate LooksAlike(cat: Catalogue, s: State, t: State, org: OrgId, mine: set<Resource>) {
    View(cat, s, org) == View(cat, t, org) && IsMine(cat, org, mine) && Home(cat, s, org, mine) && Home(cat, t, org, mine)
  }

  lemma SamePrincipals(cat: Catalogue, s: Members, t: Members, principal: Principal, org: OrgId)
    requires MembersOf(s, org) == MembersOf(t, org) && TeamsAtHome(cat, s) && TeamsAtHome(cat, t)
    requires PrincipalAtHome(cat, principal, org)
    ensures PrincipalUsers(s, principal, org) == PrincipalUsers(t, principal, org)
  {
    SameMembers(s, t, org);
    SameMembers(t, s, org);
  }

  lemma SameMembers(s: Members, t: Members, org: OrgId)
    requires MembersOf(s, org) == MembersOf(t, org)
    ensures forall m :: m in s && m.1 == org ==> m in t && t[m] == s[m]
  {
    forall m | m in s && m.1 == org ensures m in t && t[m] == s[m] {
      assert m in MembersOf(s, org);
      assert MembersOf(s, org)[m] == MembersOf(t, org)[m];
    }
  }

  lemma SameActive(s: Members, t: Members, user: UserId, org: OrgId)
    requires MembersOf(s, org) == MembersOf(t, org)
    ensures IsActive(s, user, org) <==> IsActive(t, user, org)
  {
    SameMembers(s, t, org);
    SameMembers(t, s, org);
  }

  lemma {:induction false} SameRoles(cat: Catalogue, s: seq<Assignment>, t: seq<Assignment>, user: UserId, code: string, org: OrgId)
    requires Relevant(s, org) == Relevant(t, org)
    ensures HasRolePermission(cat, s, Some(user), code, Some(org)) <==> HasRolePermission(cat, t, Some(user), code, Some(org))
  {
    RolesSeenInView(cat, s, org, Some(user), code, Some(org));
    RolesSeenInView(cat, t, org, Some(user), code, Some(org));
  }

  lemma SameRefusal(
      cat: Catalogue, s: State, t: State, org: OrgId, actor: UserId, resource: Resource, principal: Principal, level: string,
      mine: set<Resource>)
    requires LooksAlike(cat, s, t, org, mine)
    ensures Refusal(cat, s.members, s.assignments, s.live, org, actor, resource, principal, level)
      == Refusal(cat, t.members, t.assignments, t.live, org, actor, resource, principal, level)
  {
    hide HasRolePermission, Home, LevelCodes, IsActive, MembersOf;
    SameRoles(cat, s.assignments, t.assignments, actor, "sharing.manage", org);
    if principal.ToUser? && principal.user.Some? {
      SameActive(s.members, t.members, principal.user.value, org);
    }
    assert resource in LiveIn(cat, s.live, org) <==> resource in LiveIn(cat, t.live, org);
  }

  lemma SameGrants(s: map<Key, Grant>, t: map<Key, Grant>, org: OrgId, k: Key, mine: set<Resource>)
    requires GrantsOf(s, org) == GrantsOf(t, org) && GrantsAtHome(s, org, mine) && GrantsAtHome(t, org, mine)
    requires k.resource in mine
    ensures k in s <==> k in t
    ensures k in s ==> s[k] == t[k]
  {
    assert k in GrantsOf(s, org) <==> k in GrantsOf(t, org);
    if k in s {
      assert GrantsOf(s, org)[k] == GrantsOf(t, org)[k];
    }
  }

  lemma AddMissingAlike(
      s: map<Key, Grant>, t: map<Key, Grant>, keys: set<Key>, grant: Grant, mine: set<Resource>)
    requires GrantsOf(s, grant.org) == GrantsOf(t, grant.org)
    requires GrantsAtHome(s, grant.org, mine) && GrantsAtHome(t, grant.org, mine)
    requires forall k :: k in keys ==> k.resource in mine
    ensures GrantsOf(AddMissing(s, keys, grant), grant.org) == GrantsOf(AddMissing(t, keys, grant), grant.org)
  {
    forall k | k in keys ensures k in s <==> k in t {
      SameGrants(s, t, grant.org, k, mine);
    }
    AddMissingSeen(s, keys, grant);
    AddMissingSeen(t, keys, grant);
    assert keys - s.Keys == keys - t.Keys;
  }

  lemma AddMissingSeen(s: map<Key, Grant>, keys: set<Key>, grant: Grant)
    ensures GrantsOf(AddMissing(s, keys, grant), grant.org) == GrantsOf(s, grant.org) + map k | k in keys - s.Keys :: grant
  {
  }

  lemma WithoutSeen(s: map<Key, Grant>, keys: set<Key>, org: OrgId)
    ensures GrantsOf(Without(s, keys, org), org) == GrantsOf(s, org) - keys
  {
  }

  lemma SharesUpdateSeen(s: map<ShareId, Share>, id: ShareId, share: Share)
    ensures SharesOf(s[id := share], id.org) == SharesOf(s, id.org)[id := share]
  {
  }

  lemma SameShare(s: map<ShareId, Share>, t: map<ShareId, Share>, id: ShareId)
    requires SharesOf(s, id.org) == SharesOf(t, id.org)
    ensures id in s <==> id in t
    ensures id in s ==> s[id] == t[id]
  {
    assert id in SharesOf(s, id.org) <==> id in SharesOf(t, id.org);
    if id in s {
      assert SharesOf(s, id.org)[id] == SharesOf(t, id.org)[id];
    }
  }

  lemma CreateAlike(cat: Catalogue, s: State, t: State, e: Event, mine: set<Resource>)
    requires e.Create? && LooksAlike(cat, s, t, e.id.org, mine)
    ensures View(cat, Step(cat, s, e).0, e.id.org) == View(cat, Step(cat, t, e).0, e.id.org)
    ensures Step(cat, s, e).1 == Step(cat, t, e).1
  {
    hide HasRolePermission, IsActive, AssignRole, MayAssign, IsNew, RevokeShare, GrantResource, ChangeMembers;
    var org := e.id.org;
    SameRefusal(cat, s, t, org, e.actor, e.resource, e.principal, e.level, mine);
    SameShare(s.rows.shares, t.rows.shares, e.id);
    var refusal := Refusal(cat, s.members, s.assignments, s.live, org, e.actor, e.resource, e.principal, e.level);
    if refusal.None? {
      PassedChecks(cat, s, e);
      SamePrincipals(cat, s.members, t.members, e.principal, org);
      var users := PrincipalUsers(s.members, e.principal, org);
      var codes := LevelCodes(e.resource.kind, e.level).value;
      AddMissingAlike(s.rows.grants, t.rows.grants, ShareKeys(users, codes, e.resource), Grant(org, e.expires), mine);
      var share := Share(e.resource, e.principal, e.level, e.expires, None);
      SharesUpdateSeen(s.rows.shares, e.id, share);
      SharesUpdateSeen(t.rows.shares, e.id, share);
      hide Refusal, PrincipalUsers, LevelCodes, AddMissing, MembersOf, LiveIn, Relevant, GrantsOf, SharesOf, Home;
    } else {
      hide Refusal, Home;
    }
  }

  lemma PassedChecks(cat: Catalogue, s: State, e: Event)
    requires e.Create?
    requires Refusal(cat, s.members, s.assignments, s.live, e.id.org, e.actor, e.resource, e.principal, e.level).None?
    ensures PrincipalAtHome(cat, e.principal, e.id.org)
    ensures LevelCodes(e.resource.kind, e.level).Some?
    ensures e.resource in cat.owner && cat.owner[e.resource] == e.id.org
  {
  }

  lemma RevokeAlike(cat: Catalogue, s: State, t: State, e: Event, mine: set<Resource>)
    requires e.Revoke? && LooksAlike(cat, s, t, e.id.org, mine)
    ensures View(cat, Step(cat, s, e).0, e.id.org) == View(cat, Step(cat, t, e).0, e.id.org)
    ensures Step(cat, s, e).1 == Step(cat, t, e).1
  {
    var id := e.id;
    SameShare(s.rows.shares, t.rows.shares, id);
    SameActive(s.members, t.members, e.actor, id.org);
    SameRoles(cat, s.assignments, t.assignments, e.actor, "sharing.manage", id.org);
    if id in s.rows.shares {
      var share := s.rows.shares[id];
      SamePrincipals(cat, s.members, t.members, share.principal, id.org);
      var keys := KeysOf(s.members, id, share);
      assert keys == KeysOf(t.members, id, share);
      WithoutSeen(s.rows.grants, keys, id.org);
      WithoutSeen(t.rows.grants, keys, id.org);
      SharesUpdateSeen(s.rows.shares, id, share.(revoked := Some(e.now)));
      SharesUpdateSeen(t.rows.shares, id, share.(revoked := Some(e.now)));
      hide HasRolePermission, IsActive, KeysOf, Without, MembersOf, LiveIn, Relevant, GrantsOf, SharesOf, Home;
    }
  }

  lemma AssignAlike(cat: Catalogue, s: State, t: State, e: Event, org: OrgId, mine: set<Resource>)
    requires e.Assign? && (e.scope == None || e.scope == Some(org)) && LooksAlike(cat, s, t, org, mine)
    ensures View(cat, Step(cat, s, e).0, org) == View(cat, Step(cat, t, e).0, org)
    ensures Step(cat, s, e).1 == Step(cat, t, e).1
  {
    hide Home, Relevant, MembersOf, LiveIn, GrantsOf, SharesOf, AssignRole, MayAssign;
    SamePermission(cat, s, t, e, org);
    AssignSeen(cat, s.mfa, s.assignments, e.user, e.role, e.scope, Granter(e.caller), org);
    AssignSeen(cat, t.mfa, t.assignments, e.user, e.role, e.scope, Granter(e.caller), org);
  }

  lemma {:induction false} SamePermission(cat: Catalogue, s: State, t: State, e: Event, org: OrgId)
    requires e.Assign? && (e.scope == None || e.scope == Some(org))
    requires MembersOf(s.members, org) == MembersOf(t.members, org)
    requires Relevant(s.assignments, org) == Relevant(t.assignments, org)
    ensures MayAssign(cat, s.members, s.assignments, e.user, e.role, e.scope, e.caller)
      == MayAssign(cat, t.members, t.assignments, e.user, e.role, e.scope, e.caller)
  {
    SameMembers(s.members, t.members, org);
    SameMembers(t.members, s.members, org);
    if e.caller.Member? {
      SameRoles(cat, s.assignments, t.assignments, e.caller.user, "permissions.manage", org);
    }
    hide MembersOf, Relevant, HasRolePermission;
  }

  /** An assignment does to the organisation's rows what it would do to them alone. */
  lemma {:induction false} AssignSeen(
      cat: Catalogue, mfa: set<UserId>, assignments: seq<Assignment>,
      user: UserId, role: string, scope: Option<OrgId>, granter: Option<UserId>, org: OrgId)
    requires scope == None || scope == Some(org)
    ensures
      var all := AssignRole(cat, mfa, assignments, user, role, scope, granter);
      var own := AssignRole(cat, mfa, Relevant(assignments, org), user, role, scope, granter);
      && (all.Failure? ==> own == all)
      && (all.Success? ==> own == Success(Relevant(all.value, org)))
  {
    var a := Assignment(user, role, scope);
    RelevantMembers(assignments, org, a);
    RelevantAppend(assignments, a, org);
    hide Relevant, IsAdministrative;
  }

  lemma OrganizationAlike(cat: Catalogue, s: State, t: State, e: Event, mine: set<Resource>)
    requires e.CreateOrganization? && LooksAlike(cat, s, t, e.org, mine)
    ensures View(cat, Step(cat, s, e).0, e.org) == View(cat, Step(cat, t, e).0, e.org)
    ensures Step(cat, s, e).1 == Step(cat, t, e).1
  {
    SameNewness(s, t, e.org);
    SameNewness(t, s, e.org);
    NewMemberSeen(s.members, e.org, e.creator);
    NewMemberSeen(t.members, e.org, e.creator);
    hide Home, Relevant, MembersOf, LiveIn, GrantsOf, SharesOf, AssignRole, IsNew;
    AssignSeen(cat, s.mfa, s.assignments, e.creator, OWNER_ROLE, Some(e.org), Some(e.creator), e.org);
    AssignSeen(cat, t.mfa, t.assignments, e.creator, OWNER_ROLE, Some(e.org), Some(e.creator), e.org);
  }

  lemma {:induction false} SameNewness(s: State, t: State, org: OrgId)
    requires MembersOf(s.members, org) == MembersOf(t.members, org)
    requires Relevant(s.assignments, org) == Relevant(t.assignments, org)
    ensures IsNew(s.members, s.assignments, org) ==> IsNew(t.members, t.assignments, org)
  {
    SameMembers(t.members, s.members, org);
    forall a | a in t.assignments && a.scope == Some(org) ensures a in s.assignments {
      RelevantMembers(s.assignments, org, a);
      RelevantMembers(t.assignments, org, a);
    }
  }

  lemma NewMemberSeen(members: Members, org: OrgId, user: UserId)
    ensures
      var row := Membership(None, true);
      MembersOf(members[(user, org) := row], org) == MembersOf(members, org)[(user, org) := row]
  {
  }

  lemma DirectGrantAlike(cat: Catalogue, s: State, t: State, e: Event, mine: set<Resource>)
    requires e.DirectGrant? && AtHome(e, e.org, mine) && LooksAlike(cat, s, t, e.org, mine)
    ensures View(cat, Step(cat, s, e).0, e.org) == View(cat, Step(cat, t, e).0, e.org)
    ensures Step(cat, s, e).1 == Step(cat, t, e).1
  {
    SameGrants(s.rows.grants, t.rows.grants, e.org, e.key, mine);
    GrantSeen(s.rows.grants, e.key, Grant(e.org, e.expires));
    GrantSeen(t.rows.grants, e.key, Grant(e.org, e.expires));
    hide Home, Relevant, MembersOf, LiveIn, GrantsOf, SharesOf;
  }

  lemma GrantSeen(grants: map<Key, Grant>, key: Key, grant: Grant)
    ensures GrantsOf(grants[key := grant], grant.org) == GrantsOf(grants, grant.org)[key := grant]
  {
  }

  lemma MembershipAlike(cat: Catalogue, s: State, t: State, e: Event, mine: set<Resource>)
    requires e.MembershipChange? && LooksAlike(cat, s, t, e.org, mine)
    ensures View(cat, Step(cat, s, e).0, e.org) == View(cat, Step(cat, t, e).0, e.org)
  {
    MembersChangeSeen(cat, s.members, e.org, e.user, e.row);
    MembersChangeSeen(cat, t.members, e.org, e.user, e.row);
    hide ChangeMembers, Home, MembersOf, LiveIn, Relevant, GrantsOf, SharesOf;
  }

  /** A membership change does to the organisation's rows what it would do to them alone. */
  lemma MembersChangeSeen(cat: Catalogue, members: Members, org: OrgId, user: UserId, row: Option<Membership>)
    ensures MembersOf(ChangeMembers(cat, members, org, user, row), org)
      == ChangeMembers(cat, MembersOf(members, org), org, user, row)
  {
  }

  lemma ResourceAlike(cat: Catalogue, s: State, t: State, e: Event, org: OrgId, mine: set<Resource>)
    requires e.ResourceChange? && LooksAlike(cat, s, t, org, mine)
    ensures View(cat, Step(cat, s, e).0, org) == View(cat, Step(cat, t, e).0, org)
  {
    LiveChangeSeen(cat, s.live, e.resource, org);
    LiveChangeSeen(cat, t.live, e.resource, org);
    hide Home, MembersOf, LiveIn, Relevant, GrantsOf, SharesOf;
  }

  lemma LiveChangeSeen(cat: Catalogue, live: set<Resource>, r: Resource, org: OrgId)
    ensures LiveIn(cat, live + {r}, org) == LiveIn(cat, live, org) + LiveIn(cat, {r}, org)
    ensures LiveIn(cat, live - {r}, org) == LiveIn(cat, live, org) - {r}
  {
  }

  /** Two states that look alike to an organisation still do after a call of its own, and the call has the same
      outcome in both. */
  lemma StepAlike(cat: Catalogue, s: State, t: State, e: Event, org: OrgId, mine: set<Resource>)
    requires LooksAlike(cat, s, t, org, mine) && AtHome(e, org, mine)
    requires OrgOf(cat, e) == None || OrgOf(cat, e) == Some(org)
    ensures LooksAlike(cat, Step(cat, s, e).0, Step(cat, t, e).0, org, mine)
    ensures Step(cat, s, e).1 == Step(cat, t, e).1
  {
    StepKeepsHome(cat, s, e, org, mine);
    StepKeepsHome(cat, t, e, org, mine);
    match e {
      case Assign(_, _, _, _) => AssignAlike(cat, s, t, e, org, mine);
      case CreateOrganization(_, _) => OrganizationAlike(cat, s, t, e, mine);
      case DirectGrant(_, _, _) => DirectGrantAlike(cat, s, t, e, mine);
      case Create(_, _, _, _, _, _) => CreateAlike(cat, s, t, e, mine);
      case Revoke(_, _, _) => RevokeAlike(cat, s, t, e, mine);
      case MembershipChange(_, _, _) => MembershipAlike(cat, s, t, e, mine);
      case ResourceChange(_, _) => ResourceAlike(cat, s, t, e, org, mine);
      case MfaChange(_, _) =>
    }
  }

  lemma {:induction false} RunsLookAlike(
      cat: Catalogue, s: State, t: State, es: seq<Event>, org: OrgId, mine: set<Resource>)
    requires LooksAlike(cat, s, t, org, mine)
    requires forall e :: e in es ==> AtHome(e, org, mine)
    ensures LooksAlike(cat, Run(cat, s, es), Run(cat, t, Purge(cat, es, org)), org, mine)
    decreases |es|
  {
    if es != [] {
      var e := es[0];
      var next := Step(cat, s, e).0;
      hide Step, View, Home, AtHome, IsMine;
      if OrgOf(cat, e) == None || OrgOf(cat, e) == Some(org) {
        StepAlike(cat, s, t, e, org, mine);
        RunsLookAlike(cat, next, Step(cat, t, e).0, es[1..], org, mine);
        assert Purge(cat, es, org)[1..] == Purge(cat, es[1..], org);
      } else {
        ForeignStepKeepsView(cat, s, e, org);
        StepKeepsHome(cat, s, e, org, mine);
        RunsLookAlike(cat, next, t, es[1..], org, mine);
        assert Purge(cat, es, org) == Purge(cat, es[1..], org);
      }
    }
  }

  /** Non-interference for interleaved runs: unless some resource is granted directly both by this organisation and by
      another, or by one and owned by the other, every decision in the organisation, and the outcome of its next
      call, is what it would be had the other organisations never done anything. */
  lemma {:induction false} OthersNeverMatter(
      cat: Catalogue, es: seq<Event>, org: OrgId, mine: set<Resource>, user: Option<UserId>, code: string,
      scope: Option<OrgId>, resource: Option<Resource>, now: int, next: Event)
    requires IsMine(cat, org, mine) && forall e :: e in es ==> AtHome(e, org, mine)
    requires scope == None || scope == Some(org)
    requires AtHome(next, org, mine) && (OrgOf(cat, next) == None || OrgOf(cat, next) == Some(org))
    ensures Decision(cat, Run(cat, NOBODY, es), user, code, scope, resource, now)
      <==> Decision(cat, Run(cat, NOBODY, Purge(cat, es, org)), user, code, scope, resource, now)
    ensures Step(cat, Run(cat, NOBODY, es), next).1 == Step(cat, Run(cat, NOBODY, Purge(cat, es, org)), next).1
  {
    RunsLookAlike(cat, NOBODY, NOBODY, es, org, mine);
    var s, t := Run(cat, NOBODY, es), Run(cat, NOBODY, Purge(cat, es, org));
    StepAlike(cat, s, t, next, org, mine);
    ViewDecides(cat, s, org, user, code, scope, resource, now);
    ViewDecides(cat, t, org, user, code, scope, resource, now);
    hide Step, View, Home, AtHome, Decision, Run;
  }

  // ---------- where grants come from ----------

  /** The call, made in this state, accounts for the row: a direct grant of it, or a share created by somebody with
      the right to share in the organisation, of a resource of that organisation, with one of its active members. */
  predicate Authors(cat: Catalogue, s: State, e: Event, k: Key, g: Grant) {
    match e
    case DirectGrant(org, key, expires) => key == k && g == Grant(org, expires) && k.code in cat.permissions
    case Create(id, actor, resource, principal, level, expires) =>
      && g == Grant(id.org, expires)
      && HasRolePermission(cat, s.assignments, Some(actor), "sharing.manage", Some(id.org))
      && IsActive(s.members, k.user, id.org)
      && k.resource == resource && resource in s.live && resource in cat.owner && cat.owner[resource] == id.org
      && LevelCodes(resource.kind, level).Some? && k.code in LevelCodes(resource.kind, level).value
      && k.code in cat.permissions
    case _ => false
  }

  ghost predicate Authored(cat: Catalogue, es: seq<Event>, k: Key, g: Grant) {
    exists i :: 0 <= i < |es| && Authors(cat, Run(cat, NOBODY, es[..i]), es[i], k, g)
  }

  lemma {:induction false} RunAppend(cat: Catalogue, s: State, es: seq<Event>, e: Event)
    ensures Run(cat, s, es + [e]) == Step(cat, Run(cat, s, es), e).0
    decreases |es|
  {
    hide Step;
    if es != [] {
      assert (es + [e])[1..] == es[1..] + [e];
      RunAppend(cat, Step(cat, s, es[0]).0, es[1..], e);
    }
  }

  lemma {:induction false} TeamsStayAtHome(cat: Catalogue, s: State, es: seq<Event>)
    requires TeamsAtHome(cat, s.members)
    ensures TeamsAtHome(cat, Run(cat, s, es).members)
    decreases |es|
  {
    hide CreateShare, RevokeShare, AssignRole, GrantResource;
    if es != [] {
      TeamsStayAtHome(cat, Step(cat, s, es[0]).0, es[1..]);
    }
  }

  /** A call that adds a row to the grants is its author; no call changes a row. */
  lemma NewGrantIsAuthored(cat: Catalogue, s: State, e: Event, k: Key)
    requires TeamsAtHome(cat, s.members) && k in Step(cat, s, e).0.rows.grants
    ensures
      var after := Step(cat, s, e).0.rows.grants;
      if k in s.rows.grants then after[k] == s.rows.grants[k] else Authors(cat, s, e, k, after[k])
  {
    hide HasRolePermission, KeysOf, AssignRole;
    if e.Create? && k !in s.rows.grants {
      PassedChecks(cat, s, e);
      TargetsAreMembers(cat, s, e.id.org, e.principal, k.user);
    }
    hide LevelCodes, PrincipalUsers, TeamsAtHome;
  }

  lemma TargetsAreMembers(cat: Catalogue, s: State, org: OrgId, principal: Principal, user: UserId)
    requires TeamsAtHome(cat, s.members) && PrincipalAtHome(cat, principal, org)
    requires user in PrincipalUsers(s.members, principal, org)
    ensures IsActive(s.members, user, org) || principal == ToUser(Some(user))
  {
  }

  /** Over every run: whoever holds a row of the grants got it, with that organisation and that expiry, from a direct
      grant or from a share that was authorised when it was created. */
  lemma {:induction false} EveryGrantHasAnAuthor(cat: Catalogue, es: seq<Event>, k: Key)
    requires k in Run(cat, NOBODY, es).rows.grants
    ensures Authored(cat, es, k, Run(cat, NOBODY, es).rows.grants[k])
    decreases |es|
  {
    hide Step, Authors;
    if es != [] {
      var n := |es| - 1;
      var s := Run(cat, NOBODY, es[..n]);
      assert es == es[..n] + [es[n]];
      RunAppend(cat, NOBODY, es[..n], es[n]);
      TeamsStayAtHome(cat, NOBODY, es[..n]);
      NewGrantIsAuthored(cat, s, es[n], k);
      if k in s.rows.grants {
        EveryGrantHasAnAuthor(cat, es[..n], k);
        var i :| 0 <= i < n && Authors(cat, Run(cat, NOBODY, es[..n][..i]), es[..n][i], k, s.rows.grants[k]);
        assert es[..n][..i] == es[..i];
      }
    }
  }

  /** A row goes only when an active member entitled to share in the row's own organisation revokes a share of that
      organisation that stands for the row's key. */
  lemma RowsGoByRevocationOnly(cat: Catalogue, s: State, e: Event, k: Key)
    requires k in s.rows.grants && k !in Step(cat, s, e).0.rows.grants
    ensures
      && e.Revoke? && e.id in s.rows.shares && e.id.org == s.rows.grants[k].org
      && k in KeysOf(s.members, e.id, s.rows.shares[e.id])
      && IsActive(s.members, e.actor, e.id.org)
      && HasRolePermission(cat, s.assignments, Some(e.actor), "sharing.manage", Some(e.id.org))
  {
  }

  /** A positive decision through a grant, at any time, has an author whose grant or share was still to run. */
  lemma {:induction false} AccessHasALiveAuthor(
      cat: Catalogue, es: seq<Event>, k: Key, org: OrgId, now: int)
    requires HasResourcePermission(Run(cat, NOBODY, es).rows.grants, Some(k.user), k.code, Some(org), k.resource, now)
    ensures exists i, expires: Option<int> ::
      && 0 <= i < |es|
      && Authors(cat, Run(cat, NOBODY, es[..i]), es[i], k, Grant(org, expires))
      && (expires != None ==> now < expires.value)
  {
    var grants := Run(cat, NOBODY, es).rows.grants;
    GrantLastsUntilExpiry(grants, k, org, now);
    EveryGrantHasAnAuthor(cat, es, k);
    hide Run, Authors;
    var i :| 0 <= i < |es| && Authors(cat, Run(cat, NOBODY, es[..i]), es[i], k, grants[k]);
    assert grants[k] == Grant(org, grants[k].expires);
  }

  // ---------- why direct grants must stay at home ----------

  /** The condition cannot be dropped: one direct grant on another organisation's resource, made before that
      organisation shares it with the same user, keeps the share from ever reaching that user, who without
      the grant is reached. */
  lemma ForeignDirectGrantBlocksShare(cat: Catalogue, s: State, grant: Event, share: Event, code: string, now: int)
    requires grant.DirectGrant? && share.Create? && grant.org != share.id.org
    requires Step(cat, s, grant).1 == Done
    requires Step(cat, Step(cat, s, grant).0, share).1 == Done && Step(cat, s, share).1 == Done
    requires grant.key.resource == share.resource && grant.key.code == code
    requires grant.key.user in PrincipalUsers(s.members, share.principal, share.id.org)
    requires code in LevelCodes(share.resource.kind, share.level).value
    requires Live(share.expires, now)
    ensures forall mine :: IsMine(cat, share.id.org, mine) ==> !AtHome(grant, share.id.org, mine)
    ensures
      var user, org, r := Some(grant.key.user), Some(share.id.org), share.resource;
      && HasResourcePermission(Step(cat, s, share).0.rows.grants, user, code, org, r, now)
      && !HasResourcePermission(Step(cat, Step(cat, s, grant).0, share).0.rows.grants, user, code, org, r, now)
  {
  }
}
