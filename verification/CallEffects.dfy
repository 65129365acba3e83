/** What each call of an organisation does to the state, and when it is refused. */
module CallEffects {
  import opened Wrappers
  import opened Authorization
  import opened Sharing
  import opened Decisions
  import opened TenantIsolation

  /** May this user do this in the organisation, by the roles of the state? */
  predicate Entitled(cat: Catalogue, s: State, user: UserId, code: string, org: OrgId) {
    HasPermission(cat, s.assignments, s.rows.grants, Some(user), code, Some(org), None, 0)
  }

  /** Assigning a role is refused to a caller who may not, and where assign_role refuses; else it adds its row and
      nothing else. A user must be an active member who manages permissions there; a restore never makes
      an organisation administrator; both assign to members of one organisation only. */
  lemma AssignTakesEffect(cat: Catalogue, s: State, user: UserId, role: string, scope: Option<OrgId>, caller: Caller)
    ensures
      var (next, outcome) := Step(cat, s, Assign(user, role, scope, caller));
      var granter := if caller.Member? then Some(caller.user) else None;
      var entitled :=
        || caller.Operator?
        || (&& scope != None && (user, scope.value) in s.members
            && (caller.PackageRestore? ==> role != "organization-administrator")
            && (caller.Member? ==> IsActive(s.members, caller.user, scope.value)
                                   && Entitled(cat, s, caller.user, "permissions.manage", scope.value)));
      var added := AssignRole(cat, s.mfa, s.assignments, user, role, scope, granter);
      && (outcome == Done <==> entitled && added.Success?)
      && next == if outcome == Done then s.(assignments := s.assignments + [Assignment(user, role, scope)]) else s
  {
    hide HasRolePermission;
  }

  /** Creating an organisation is refused exactly if its id is in use or the administrator's role is unknown; else the
      creator, and nobody else, becomes a member and administrator. */
  lemma OrganizationTakesEffect(cat: Catalogue, s: State, org: OrgId, creator: UserId)
    ensures
      var (next, outcome) := Step(cat, s, CreateOrganization(org, creator));
      && (outcome == Done <==> && (forall user :: (user, org) !in s.members)
                               && (forall a :: a in s.assignments ==> a.scope != Some(org))
                               && "organization-administrator" in cat.roles)
      && next == if outcome != Done then s
                 else s.(members := s.members[(creator, org) := Membership(None, true)],
                         assignments := s.assignments + [Assignment(creator, "organization-administrator", Some(org))])
  {
    if m :| m in s.members && m.1 == org {
      assert (m.0, org) in s.members;
    }
  }

  /** Sharing is refused exactly where it may not be done; else its share is recorded, the answers that it is for turn
      positive, and nothing else changes. */
  lemma ShareTakesEffect(
      cat: Catalogue, s: State, id: ShareId, actor: UserId, resource: Resource, principal: Principal, level: string,
      expires: Option<int>, someone: UserId, code: string, org: Option<OrgId>, other: Option<Resource>, now: int)
    ensures
      var (next, outcome) := Step(cat, s, Create(id, actor, resource, principal, level, expires));
      && (outcome == Done
          <==> && MayShare(cat, s.members, s.assignments, s.rows.grants, s.live, id.org, actor, resource, principal, level)
               && id !in s.rows.shares
               && ((exists u :: IsFor(s.members, principal, id.org, u)) ==>
                     forall c :: LevelAllows(resource.kind, level, c) ==> c in cat.permissions))
      && next == s.(rows := next.rows)
      && (outcome != Done ==> next == s)
      && (outcome == Done ==>
            && next.rows.shares == s.rows.shares[id := Share(resource, principal, level, expires, None)]
            && (Decision(cat, next, Some(someone), code, org, other, now)
                <==> || Decision(cat, s, Some(someone), code, org, other, now)
                     || (&& other == Some(resource) && org == Some(id.org) && (expires.None? || now < expires.value)
                         && IsFor(s.members, principal, id.org, someone) && LevelAllows(resource.kind, level, code)
                         && Key(someone, code, resource) !in s.rows.grants)))
  {
    ShareIsAcceptedExactly(cat, s.members, s.assignments, s.live, s.rows, id, actor, resource, principal, level, expires);
    hide HasPermission, MayShare, IsFor, LevelAllows, CreateShare;
    if Step(cat, s, Create(id, actor, resource, principal, level, expires)).1 == Done {
      ShareDecidesExactly(cat, s.members, s.assignments, s.live, s.rows, id, actor, resource, principal, level, expires,
                          someone, code, org, other, now);
    }
  }

  /** Revoking is refused exactly for an unknown share or a caller who is not an active member entitled to share; else
      the share is stamped, the answers that only its rows gave turn negative, and nothing else changes. */
  lemma RevocationTakesEffect(
      cat: Catalogue, s: State, id: ShareId, actor: UserId, t: int,
      someone: UserId, code: string, org: Option<OrgId>, other: Option<Resource>, now: int)
    ensures
      var (next, outcome) := Step(cat, s, Revoke(id, actor, t));
      && (outcome == Done <==> id in s.rows.shares && IsActive(s.members, actor, id.org)
                               && Entitled(cat, s, actor, "sharing.manage", id.org))
      && next == s.(rows := next.rows)
      && (outcome != Done ==> next == s)
      && (outcome == Done ==>
            var share := s.rows.shares[id];
            var concerned := && other == Some(share.resource) && org == Some(id.org)
              && SupportedLevel(share.resource.kind, share.level)
              && IsFor(s.members, share.principal, id.org, someone) && LevelAllows(share.resource.kind, share.level, code);
            && next.rows.shares == s.rows.shares[id := share.(revoked := Some(t))]
            && (Decision(cat, next, Some(someone), code, org, other, now)
                <==> && Decision(cat, s, Some(someone), code, org, other, now)
                     && (concerned ==> Decision(cat, s, Some(someone), code, org, None, now))))
  {
    RevocationIsAcceptedExactly(cat, s.members, s.assignments, s.rows, id, actor, t);
    hide HasRolePermission, HasResourcePermission, RevokeShare, IsFor, LevelAllows, SupportedLevel;
    if Step(cat, s, Revoke(id, actor, t)).1 == Done {
      RevocationDecidesExactly(cat, s.members, s.assignments, s.rows, id, actor, t, someone, code, org, other, now);
    }
  }

  /** A direct grant is refused exactly for an unknown code or a taken key; else it turns one answer positive. */
  lemma DirectGrantTakesEffect(
      cat: Catalogue, s: State, granting: OrgId, key: Key, expires: Option<int>,
      someone: Option<UserId>, code: string, org: Option<OrgId>, other: Option<Resource>, now: int)
    ensures
      var (next, outcome) := Step(cat, s, DirectGrant(granting, key, expires));
      && (outcome == Done <==> key.code in cat.permissions && key !in s.rows.grants)
      && next == s.(rows := next.rows) && next.rows.shares == s.rows.shares
      && (outcome != Done ==> next == s)
      && (outcome == Done ==>
            (Decision(cat, next, someone, code, org, other, now)
             <==> || Decision(cat, s, someone, code, org, other, now)
                  || (&& someone == Some(key.user) && code == key.code && other == Some(key.resource)
                      && org == Some(granting) && (expires.None? || now < expires.value))))
  {
    hide HasPermission;
    GrantDecidesExactly(cat, s.assignments, s.rows.grants, key, Grant(granting, expires), someone, code, org, other, now);
  }

  /** The other events: a membership row is set (unless its team is another organisation's) or removed, a resource
      comes or goes, MFA is switched; nothing else changes. */
  lemma ChangesTakeEffect(cat: Catalogue, s: State, org: OrgId, user: UserId, row: Option<Membership>, r: Resource, on: bool)
    ensures
      var foreign := row.Some? && row.value.team.Some?
        && !(row.value.team.value in cat.teamOrg && cat.teamOrg[row.value.team.value] == org);
      Step(cat, s, MembershipChange(org, user, row)).0
        == s.(members := if foreign then s.members
                         else if row.None? then map m | m in s.members && m != (user, org) :: s.members[m]
                         else s.members[(user, org) := row.value])
    ensures Step(cat, s, ResourceChange(r, on)).0 == s.(live := if on then s.live + {r} else s.live - {r})
    ensures Step(cat, s, MfaChange(user, on)).0 == s.(mfa := if on then s.mfa + {user} else s.mfa - {user})
  {
  }
}
