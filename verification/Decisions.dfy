/** The one authorization question, answered in terms of the stored rows, and what each call does to the answers. */
module Decisions {
  import opened Wrappers
  import opened Authorization
  import opened Sharing

  /** A decision is positive exactly if some assignment of the user, in this organisation or platform-wide, has a role
      with the code, or a resource is given and its grant row for the user and the code is there, is this
      organisation's, and has not expired. Nobody may do anything without being signed in. */
  lemma PermissionExactly(
      cat: Catalogue, assignments: seq<Assignment>, grants: map<Key, Grant>,
      user: Option<UserId>, code: string, org: Option<OrgId>, resource: Option<Resource>, now: int)
    ensures HasPermission(cat, assignments, grants, user, code, org, resource, now)
      <==> && user.Some?
           && (|| (exists a :: && a in assignments && a.user == user.value && (a.scope == None || a.scope == org)
                               && a.role in cat.roles && code in cat.roles[a.role])
               || (&& resource.Some? && org.Some?
                   && Key(user.value, code, resource.value) in grants
                   && var g := grants[Key(user.value, code, resource.value)];
                      g.org == org.value && (g.expires.None? || now < g.expires.value)))
  {
    if user.Some? {
      if a :| a in assignments && a.user == user.value && (a.scope == None || a.scope == org)
              && a.role in cat.roles && code in cat.roles[a.role]
      {
        var i :| 0 <= i < |assignments| && assignments[i] == a;
        assert Confers(cat, assignments[i], user.value, code, org);
      }
      if i :| 0 <= i < |assignments| && Confers(cat, assignments[i], user.value, code, org) {
        assert assignments[i] in assignments;
      }
    }
  }

  // ---------- what the calls accept ----------

  /** assign_role adds its one row exactly if the role is known, a platform-wide role is the super-administrator's, in
      gateway mode nobody but the user or the system gives an administrative role to a user without MFA, and the user
      does not hold the role in that organisation already. */
  lemma AssignmentIsAcceptedExactly(
      cat: Catalogue, mfa: set<UserId>, assignments: seq<Assignment>,
      user: UserId, role: string, scope: Option<OrgId>, granter: Option<UserId>)
    ensures
      var administrative := role in cat.roles && ("permissions.manage" in cat.roles[role] || "system.admin" in cat.roles[role]);
      var accepted := && role in cat.roles && (scope == None ==> role == "super-administrator")
        && !(cat.gateway && administrative && user !in mfa && granter != None && granter != Some(user))
        && !(scope != None && Assignment(user, role, scope) in assignments);
      var r := AssignRole(cat, mfa, assignments, user, role, scope, granter);
      && (r.Success? <==> accepted)
      && (r.Success? ==> r.value == assignments + [Assignment(user, role, scope)])
  {
    if role in cat.roles {
      var both := cat.roles[role] * ADMIN_CODES;
      if "permissions.manage" in cat.roles[role] { assert "permissions.manage" in both; }
      if "system.admin" in cat.roles[role] { assert "system.admin" in both; }
      if c :| c in both { assert c == "permissions.manage" || c == "system.admin"; }
    }
  }

  /** The users that a share is for. */
  predicate IsFor(members: Members, principal: Principal, org: OrgId, user: UserId) {
    match principal
    case ToUser(u) => u == Some(user)
    case ToTeam(t) => t != None && exists m :: m in members && m.0 == user && members[m].active && members[m].team == t
    case ToOrganization => IsActive(members, user, org)
    case Unsupported => false
  }

  lemma PrincipalsExactly(members: Members, principal: Principal, org: OrgId, user: UserId)
    ensures user in PrincipalUsers(members, principal, org) <==> IsFor(members, principal, org, user)
  {
    if user in PrincipalUsers(members, principal, org) && principal.ToTeam? {
      var m :| m in members && members[m].active && principal.team.Some? && members[m].team == principal.team && m.0 == user;
      assert m in members && m.0 == user;
    }
  }

  /** The lowest level at which a share of a resource allows an action: reading from "read" on, writing from "write"
      on, everything else for "admin" only; of a connected database only reading. */
  function NeededLevel(kind: string, code: string): Option<string> {
    if kind == BUCKET then
      if code == "storage.read" then Some(READ)
      else if code == "storage.write" then Some(WRITE)
      else if code in {"storage.delete", "storage.share", "storage.manage"} then Some(ADMIN)
      else None
    else if kind == TENANT_DATABASE then
      if code == "database.read" then Some(READ)
      else if code == "database.write" then Some(WRITE)
      else if code == "dataset.export" then Some(ADMIN)
      else None
    else if kind == CONNECTED_DATABASE && code == "database.read" then Some(READ)
    else None
  }

  predicate SupportedLevel(kind: string, level: string) {
    && level in {READ, WRITE, ADMIN}
    && (kind == BUCKET || kind == TENANT_DATABASE || (kind == CONNECTED_DATABASE && level == READ))
  }

  predicate LevelAllows(kind: string, level: string, code: string) {
    NeededLevel(kind, code) != None && Rank(NeededLevel(kind, code).value) <= Rank(level)
  }

  lemma LevelsExactly(kind: string, level: string)
    ensures LevelCodes(kind, level).Some? <==> SupportedLevel(kind, level)
    ensures LevelCodes(kind, level).Some? ==>
      forall code :: code in LevelCodes(kind, level).value <==> LevelAllows(kind, level, code)
  {
  }

  /** Who may share what with whom: the creator may share in the organisation, type and level are supported, the
      resource exists there, and the principal is an active member, a team of the organisation or the organisation. */
  predicate MayShare(
      cat: Catalogue, members: Members, assignments: seq<Assignment>, grants: map<Key, Grant>, live: set<Resource>,
      org: OrgId, actor: UserId, resource: Resource, principal: Principal, level: string)
  {
    && HasPermission(cat, assignments, grants, Some(actor), "sharing.manage", Some(org), None, 0)
    && SupportedLevel(resource.kind, level)
    && resource in live && resource in cat.owner && cat.owner[resource] == org
    && match principal
       case ToUser(u) => u.Some? && IsActive(members, u.value, org)
       case ToTeam(t) => t.Some? && t.value in cat.teamOrg && cat.teamOrg[t.value] == org
       case ToOrganization => true
       case Unsupported => false
  }

  lemma PassesExactly(
      cat: Catalogue, members: Members, assignments: seq<Assignment>, grants: map<Key, Grant>, live: set<Resource>,
      org: OrgId, actor: UserId, resource: Resource, principal: Principal, level: string)
    ensures Refusal(cat, members, assignments, live, org, actor, resource, principal, level).None?
      <==> MayShare(cat, members, assignments, grants, live, org, actor, resource, principal, level)
  {
    LevelsExactly(resource.kind, level);
    hide LevelCodes, HasRolePermission, IsActive;
  }

  /** A share is created exactly if it may be, its id is new, and, unless nobody is behind the principal, all codes of
      the level are known. It is then recorded as asked for, and no other share changes. */
  lemma ShareIsAcceptedExactly(
      cat: Catalogue, members: Members, assignments: seq<Assignment>, live: set<Resource>, rows: Rows,
      id: ShareId, actor: UserId, resource: Resource, principal: Principal, level: string, expires: Option<int>)
    ensures
      var r := CreateShare(cat, members, assignments, live, rows, id, actor, resource, principal, level, expires);
      && (r.Success?
          <==> && MayShare(cat, members, assignments, rows.grants, live, id.org, actor, resource, principal, level)
               && id !in rows.shares
               && ((exists u :: IsFor(members, principal, id.org, u)) ==>
                     forall code :: LevelAllows(resource.kind, level, code) ==> code in cat.permissions))
      && (r.Success? ==> r.value.shares == rows.shares[id := Share(resource, principal, level, expires, None)])
  {
    PassesExactly(cat, members, assignments, rows.grants, live, id.org, actor, resource, principal, level);
    LevelsExactly(resource.kind, level);
    SomebodyIsBehind(members, principal, id.org);
    hide LevelCodes, PrincipalUsers, IsFor, LevelAllows, Refusal, AddMissing, ShareKeys, HasPermission;
    var codes := LevelCodes(resource.kind, level);
    if codes.Some? {
      hide SupportedLevel;
      if code :| LevelAllows(resource.kind, level, code) && code !in cat.permissions {
        assert code in codes.value;
      }
    }
  }

  lemma SomebodyIsBehind(members: Members, principal: Principal, org: OrgId)
    ensures PrincipalUsers(members, principal, org) != {} <==> exists u :: IsFor(members, principal, org, u)
  {
    forall u ensures u in PrincipalUsers(members, principal, org) <==> IsFor(members, principal, org, u) {
      PrincipalsExactly(members, principal, org, u);
    }
    hide PrincipalUsers, IsFor;
    if u :| IsFor(members, principal, org, u) {
      assert u in PrincipalUsers(members, principal, org);
    }
    if PrincipalUsers(members, principal, org) != {} {
      var u :| u in PrincipalUsers(members, principal, org);
      assert IsFor(members, principal, org, u);
    }
  }

  // ---------- what the calls do to the decisions ----------

  /** An assignment turns exactly these answers positive: its user's, for the role's codes, in its organisation
      (everywhere, if it is platform-wide), whatever the resource. */
  lemma {:induction false} AssignmentDecidesExactly(
      cat: Catalogue, mfa: set<UserId>, assignments: seq<Assignment>, grants: map<Key, Grant>,
      user: UserId, role: string, scope: Option<OrgId>, granter: Option<UserId>,
      someone: Option<UserId>, code: string, org: Option<OrgId>, resource: Option<Resource>, now: int)
    requires AssignRole(cat, mfa, assignments, user, role, scope, granter).Success?
    ensures
      var after := AssignRole(cat, mfa, assignments, user, role, scope, granter).value;
      HasPermission(cat, after, grants, someone, code, org, resource, now)
      <==> || HasPermission(cat, assignments, grants, someone, code, org, resource, now)
           || (someone == Some(user) && code in cat.roles[role] && (scope == None || scope == org))
  {
    AssignmentGrantsExactly(cat, mfa, assignments, user, role, scope, granter, someone, code, org);
    hide HasRolePermission;
  }

  /** A direct grant is accepted exactly for a known code and a free key, and turns exactly one answer positive, in
      its organisation and until its expiry. */
  lemma GrantDecidesExactly(
      cat: Catalogue, assignments: seq<Assignment>, grants: map<Key, Grant>, key: Key, grant: Grant,
      someone: Option<UserId>, code: string, org: Option<OrgId>, resource: Option<Resource>, now: int)
    ensures GrantResource(cat, grants, key, grant).Success? <==> key.code in cat.permissions && key !in grants
    ensures GrantResource(cat, grants, key, grant).Success? ==>
      var after := GrantResource(cat, grants, key, grant).value;
      (HasPermission(cat, assignments, after, someone, code, org, resource, now)
       <==> || HasPermission(cat, assignments, grants, someone, code, org, resource, now)
            || (&& someone == Some(key.user) && code == key.code && resource == Some(key.resource)
                && org == Some(grant.org) && (grant.expires.None? || now < grant.expires.value)))
  {
    hide HasRolePermission;
    if someone.Some? && resource.Some? && Key(someone.value, code, resource.value) == key {
      assert someone == Some(key.user) && resource == Some(key.resource);
    }
  }

  /** A share turns exactly these answers positive: of those it is for, for the codes of its level, on its resource, in
      its organisation, until its expiry, and only where no grant row stood. */
  lemma ShareDecidesExactly(
      cat: Catalogue, members: Members, assignments: seq<Assignment>, live: set<Resource>, rows: Rows,
      id: ShareId, actor: UserId, resource: Resource, principal: Principal, level: string, expires: Option<int>,
      someone: UserId, code: string, org: Option<OrgId>, other: Option<Resource>, now: int)
    requires CreateShare(cat, members, assignments, live, rows, id, actor, resource, principal, level, expires).Success?
    ensures
      var after := CreateShare(cat, members, assignments, live, rows, id, actor, resource, principal, level, expires).value;
      HasPermission(cat, assignments, after.grants, Some(someone), code, org, other, now)
      <==> || HasPermission(cat, assignments, rows.grants, Some(someone), code, org, other, now)
           || (&& other == Some(resource) && org == Some(id.org) && (expires.None? || now < expires.value)
               && IsFor(members, principal, id.org, someone) && LevelAllows(resource.kind, level, code)
               && Key(someone, code, resource) !in rows.grants)
  {
    RefusalLeavesLevel(cat, members, assignments, live, id.org, actor, resource, principal, level);
    LevelsExactly(resource.kind, level);
    PrincipalsExactly(members, principal, id.org, someone);
    if other.Some? {
      ShareGrantsExactly(cat, members, assignments, live, rows, id, actor, resource, principal, level, expires,
                         someone, code, org, other.value, now);
    }
    hide HasRolePermission, HasResourcePermission, CreateShare, LevelCodes, PrincipalUsers, IsFor, LevelAllows;
  }

  /** A revocation turns exactly these answers negative: those that only the grant row of the organisation gave, of those
      the share is for now, for the codes of its level, on its resource. */
  lemma RevocationDecidesExactly(
      cat: Catalogue, members: Members, assignments: seq<Assignment>, rows: Rows, id: ShareId, actor: UserId, t: int,
      someone: UserId, code: string, org: Option<OrgId>, other: Option<Resource>, now: int)
    requires RevokeShare(cat, members, assignments, rows, id, actor, t).Success?
    ensures
      var after := RevokeShare(cat, members, assignments, rows, id, actor, t).value;
      var share := rows.shares[id];
      var concerned := && other == Some(share.resource) && org == Some(id.org)
        && SupportedLevel(share.resource.kind, share.level)
        && IsFor(members, share.principal, id.org, someone) && LevelAllows(share.resource.kind, share.level, code);
      HasPermission(cat, assignments, after.grants, Some(someone), code, org, other, now)
      <==> && HasPermission(cat, assignments, rows.grants, Some(someone), code, org, other, now)
           && (concerned ==> HasPermission(cat, assignments, rows.grants, Some(someone), code, org, None, now))
  {
    var share := rows.shares[id];
    LevelsExactly(share.resource.kind, share.level);
    PrincipalsExactly(members, share.principal, id.org, someone);
    if other.Some? {
      RevokeRemovesExactly(cat, members, assignments, rows, id, actor, t, someone, code, org, other.value, now);
      assert Key(someone, code, other.value) in KeysOf(members, id, share)
        <==> && other.value == share.resource && SupportedLevel(share.resource.kind, share.level)
             && IsFor(members, share.principal, id.org, someone) && LevelAllows(share.resource.kind, share.level, code);
    }
    hide HasRolePermission, HasResourcePermission, RevokeShare, LevelCodes, PrincipalUsers, IsFor, LevelAllows, KeysOf;
  }

  /** A revocation is accepted exactly for a share that is there, from an active member entitled to share. It stamps
      that share and no other. */
  lemma RevocationIsAcceptedExactly(
      cat: Catalogue, members: Members, assignments: seq<Assignment>, rows: Rows, id: ShareId, actor: UserId, t: int)
    ensures RevokeShare(cat, members, assignments, rows, id, actor, t).Success? ==>
      RevokeShare(cat, members, assignments, rows, id, actor, t).value.shares
        == rows.shares[id := rows.shares[id].(revoked := Some(t))]
    ensures RevokeShare(cat, members, assignments, rows, id, actor, t).Success?
      <==> && id in rows.shares && IsActive(members, actor, id.org)
           && HasPermission(cat, assignments, rows.grants, Some(actor), "sharing.manage", Some(id.org), None, t)
  {
    hide HasRolePermission;
  }
}
