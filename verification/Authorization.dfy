/** Roles, resource grants and the one authorization question, over the stored rows. */
module Authorization {
  import opened Wrappers

  type UserId = nat
  type OrgId = nat
  type TeamId = nat

  datatype Resource = Resource(kind: string, id: nat)

  /** The unique key of a resource grant. The organisation is not part of it. */
  datatype Key = Key(user: UserId, code: string, resource: Resource)

  datatype Grant = Grant(org: OrgId, expires: Option<int>)

  /** A role held in one organisation, or platform-wide when the scope is None. */
  datatype Assignment = Assignment(user: UserId, role: string, scope: Option<OrgId>)

  /** What is seeded or fixed by identity: the known permission codes, the system roles by slug, the gateway
      switch, and which organisation a resource or team belongs to. */
  datatype Catalogue = Catalogue(
    permissions: set<string>, roles: map<string, set<string>>, gateway: bool,
    owner: map<Resource, OrgId>, teamOrg: map<TeamId, OrgId>)

  datatype AccessError =
    UnknownRole | PlatformWideForbidden | MfaRequired | AlreadyAssigned | UnknownPermission | AlreadyGranted

  const PLATFORM_WIDE_ROLE := "super-administrator"
  const ADMIN_CODES := {"permissions.manage", "system.admin"}

  predicate Live(expires: Option<int>, now: int) {
    expires.None? || expires.value > now
  }

  predicate HasRolePermission(
      cat: Catalogue, assignments: seq<Assignment>, user: Option<UserId>, code: string, org: Option<OrgId>)
  {
    user.Some? && exists i :: 0 <= i < |assignments| && Confers(cat, assignments[i], user.value, code, org)
  }

  /** One assignment gives the user this permission in this organisation. */
  predicate Confers(cat: Catalogue, a: Assignment, user: UserId, code: string, org: Option<OrgId>) {
    && (a.scope == org || a.scope == None)
    && a.user == user
    && a.role in cat.roles && code in cat.roles[a.role]
  }

  predicate HasResourcePermission(
      grants: map<Key, Grant>, user: Option<UserId>, code: string, org: Option<OrgId>, resource: Resource, now: int)
  {
    && user.Some?
    && var k := Key(user.value, code, resource);
    k in grants && Live(grants[k].expires, now) && Some(grants[k].org) == org
  }

  predicate HasPermission(
      cat: Catalogue, assignments: seq<Assignment>, grants: map<Key, Grant>,
      user: Option<UserId>, code: string, org: Option<OrgId>, resource: Option<Resource>, now: int)
  {
    || HasRolePermission(cat, assignments, user, code, org)
    || (resource.Some? && HasResourcePermission(grants, user, code, org, resource.value, now))
  }

  predicate IsAdministrative(cat: Catalogue, role: string) {
    role in cat.roles && cat.roles[role] * ADMIN_CODES != {}
  }

  /** The rows after assign_role, or the error that leaves them as they were. The uniqueness of
      (user, role, organisation) does not bite platform-wide, where the organisation is NULL. */
  function AssignRole(
      cat: Catalogue, mfa: set<UserId>, assignments: seq<Assignment>,
      user: UserId, role: string, scope: Option<OrgId>, granter: Option<UserId>): Result<seq<Assignment>, AccessError>
  {
    if role !in cat.roles then Failure(UnknownRole)
    else if scope.None? && role != PLATFORM_WIDE_ROLE then Failure(PlatformWideForbidden)
    else if cat.gateway && granter.Some? && granter.value != user && user !in mfa && IsAdministrative(cat, role) then
      Failure(MfaRequired)
    else
      var a := Assignment(user, role, scope);
      if scope.Some? && a in assignments then Failure(AlreadyAssigned) else Success(assignments + [a])
  }

  function GrantResource(
      cat: Catalogue, grants: map<Key, Grant>, key: Key, grant: Grant): Result<map<Key, Grant>, AccessError>
  {
    if key.code !in cat.permissions then Failure(UnknownPermission)
    else if key in grants then Failure(AlreadyGranted)
    else Success(grants[key := grant])
  }

  /** An assignment changes exactly the decisions it is for: this user, the role's codes, and its organisation
      (every organisation, for a platform-wide one). */
  lemma AssignmentGrantsExactly(
      cat: Catalogue, mfa: set<UserId>, assignments: seq<Assignment>,
      user: UserId, role: string, scope: Option<OrgId>, granter: Option<UserId>,
      someone: Option<UserId>, code: string, org: Option<OrgId>)
    requires AssignRole(cat, mfa, assignments, user, role, scope, granter).Success?
    ensures
      HasRolePermission(cat, AssignRole(cat, mfa, assignments, user, role, scope, granter).value, someone, code, org)
      <==> (|| HasRolePermission(cat, assignments, someone, code, org)
            || (someone == Some(user) && code in cat.roles[role] && (scope.None? || scope == org)))
  {
    var a := Assignment(user, role, scope);
    var after := assignments + [a];
    assert after[|assignments|] == a;
    if HasRolePermission(cat, assignments, someone, code, org) {
      var i :| 0 <= i < |assignments| && Confers(cat, assignments[i], someone.value, code, org);
      assert after[i] == assignments[i];
    }
    if someone.Some? && Confers(cat, a, someone.value, code, org) {
      assert Confers(cat, after[|assignments|], someone.value, code, org);
    }
  }

  /** In gateway mode an administrative role reaches a user without MFA only from that user, or where the call names
      no granter. */
  lemma GatewayRefusesExactly(
      cat: Catalogue, mfa: set<UserId>, assignments: seq<Assignment>,
      user: UserId, role: string, scope: Option<OrgId>, granter: Option<UserId>)
    requires role in cat.roles && cat.gateway
    requires cat.roles[role] * ADMIN_CODES != {}
    requires scope.None? ==> role == PLATFORM_WIDE_ROLE
    ensures AssignRole(cat, mfa, assignments, user, role, scope, granter).Failure?
      <==> (user !in mfa && granter != None && granter != Some(user)) || (scope != None && Assignment(user, role, scope) in assignments)
  {
  }

  /** A grant with an expiry gives its permission up to that moment and not from then on, in its own organisation
      alone; one without lasts. */
  lemma GrantLastsUntilExpiry(
      grants: map<Key, Grant>, key: Key, org: OrgId, now: int)
    requires key in grants
    ensures HasResourcePermission(grants, Some(key.user), key.code, Some(org), key.resource, now)
      <==> org == grants[key].org && (grants[key].expires != None ==> now < grants[key].expires.value)
  {
  }

  /** One row per key, written once: a grant changes exactly one decision's answer, and only where no row was. */
  lemma GrantChangesExactly(
      cat: Catalogue, grants: map<Key, Grant>, key: Key, grant: Grant,
      someone: Option<UserId>, code: string, org: Option<OrgId>, resource: Resource, now: int)
    requires GrantResource(cat, grants, key, grant).Success?
    ensures HasResourcePermission(GrantResource(cat, grants, key, grant).value, someone, code, org, resource, now)
      <==> (|| HasResourcePermission(grants, someone, code, org, resource, now)
            || (&& someone.Some? && Key(someone.value, code, resource) == key
                && org == Some(grant.org) && Live(grant.expires, now)))
  {
  }
}
