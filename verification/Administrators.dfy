/** Where administrators come from in internet gateway mode, over every run of calls. */
module Administrators {
  import opened Wrappers
  import opened Authorization
  import opened Sharing
  import opened TenantIsolation

  /** The call, made in this state, gives the user an administrative role that is in force in this organisation (or
      platform-wide), and the user has MFA then, or the call creates the organisation, or no user is the caller. */
  predicate Entrusts(cat: Catalogue, s: State, e: Event, user: UserId, scope: Option<OrgId>) {
    && Step(cat, s, e).1 == Done
    && match e
       case Assign(target, role, given, caller) =>
         && target == user && (given == scope || given == None) && IsAdministrative(cat, role)
         && (user in s.mfa || caller.Operator? || caller.PackageRestore?)
       case CreateOrganization(org, creator) => creator == user && scope == Some(org)
       case _ => false
  }

  ghost predicate Entrusted(cat: Catalogue, es: seq<Event>, user: UserId, scope: Option<OrgId>) {
    exists i :: 0 <= i < |es| && Entrusts(cat, Run(cat, NOBODY, es[..i]), es[i], user, scope)
  }

  /** The users who may give roles in this organisation. */
  predicate Manages(cat: Catalogue, s: State, user: UserId, scope: Option<OrgId>) {
    HasRolePermission(cat, s.assignments, Some(user), "permissions.manage", scope)
  }

  /** A new administrative assignment entrusts its user, unless the user already managed permissions there. */
  lemma NewAdministratorIsEntrusted(cat: Catalogue, s: State, e: Event, a: Assignment)
    requires cat.gateway && IsAdministrative(cat, a.role)
    requires a in Step(cat, s, e).0.assignments && a !in s.assignments
    ensures Entrusts(cat, s, e, a.user, a.scope) || Manages(cat, s, a.user, a.scope)
  {
    hide CreateShare, RevokeShare, GrantResource, ChangeMembers, HasRolePermission, IsAdministrative, IsNew;
  }

  /** Whoever manages permissions holds an administrative role. */
  lemma ManagersAreAdministrators(cat: Catalogue, s: State, user: UserId, scope: Option<OrgId>) returns (b: Assignment)
    requires Manages(cat, s, user, scope)
    ensures b in s.assignments && b.user == user && (b.scope == scope || b.scope == None) && IsAdministrative(cat, b.role)
  {
    var i :| 0 <= i < |s.assignments| && Confers(cat, s.assignments[i], user, "permissions.manage", scope);
    b := s.assignments[i];
    assert "permissions.manage" in cat.roles[b.role] * ADMIN_CODES;
  }

  lemma {:induction false} EntrustedEarlier(
      cat: Catalogue, es: seq<Event>, n: nat, user: UserId, scope: Option<OrgId>, wider: Option<OrgId>)
    requires n <= |es| && Entrusted(cat, es[..n], user, wider) && (wider == scope || wider == None)
    ensures Entrusted(cat, es, user, scope)
  {
    hide Run, Step, IsAdministrative;
    var i :| 0 <= i < n && Entrusts(cat, Run(cat, NOBODY, es[..n][..i]), es[..n][i], user, wider);
    assert es[..n][..i] == es[..i];
  }

  /** Over every run in gateway mode, whoever holds an administrative role had MFA when they were given one in
      that organisation, or created the organisation, or were given one by an operator or by the restore of a package.
      That users are exempt from the check for themselves adds nobody: they manage permissions there already. */
  lemma {:induction false} AdministratorsWereEntrusted(cat: Catalogue, es: seq<Event>, a: Assignment)
    requires cat.gateway && IsAdministrative(cat, a.role)
    requires a in Run(cat, NOBODY, es).assignments
    ensures Entrusted(cat, es, a.user, a.scope)
    decreases |es|
  {
    hide Step, Entrusts, IsAdministrative, Manages;
    if es != [] {
      var n := |es| - 1;
      var s := Run(cat, NOBODY, es[..n]);
      assert es == es[..n] + [es[n]];
      RunAppend(cat, NOBODY, es[..n], es[n]);
      if a in s.assignments {
        AdministratorsWereEntrusted(cat, es[..n], a);
        EntrustedEarlier(cat, es, n, a.user, a.scope, a.scope);
      } else {
        NewAdministratorIsEntrusted(cat, s, es[n], a);
        if Manages(cat, s, a.user, a.scope) {
          var b := ManagersAreAdministrators(cat, s, a.user, a.scope);
          AdministratorsWereEntrusted(cat, es[..n], b);
          EntrustedEarlier(cat, es, n, a.user, a.scope, b.scope);
        }
      }
    }
  }

  /** Which callers can give an administrative role to a user without MFA: all whose call passes the checks before
      assign_role, but for another user. */
  lemma WithoutMfaExactly(cat: Catalogue, s: State, user: UserId, role: string, scope: Option<OrgId>, caller: Caller)
    requires cat.gateway && IsAdministrative(cat, role) && user !in s.mfa
    ensures Step(cat, s, Assign(user, role, scope, caller)).1 == Done
      <==> && MayAssign(cat, s.members, s.assignments, user, role, scope, caller)
           && (caller.Member? ==> caller.user == user)
           && (scope == None ==> role == PLATFORM_WIDE_ROLE)
           && (scope != None ==> Assignment(user, role, scope) !in s.assignments)
  {
    hide MayAssign, AssignRole;
    if scope.None? && role != PLATFORM_WIDE_ROLE {
      OnlySuperIsPlatformWide(cat, s.mfa, s.assignments, user, role, Granter(caller));
    } else {
      GatewayRefusesExactly(cat, s.mfa, s.assignments, user, role, scope, Granter(caller));
    }
  }

  lemma OnlySuperIsPlatformWide(
      cat: Catalogue, mfa: set<UserId>, assignments: seq<Assignment>, user: UserId, role: string, granter: Option<UserId>)
    requires role != PLATFORM_WIDE_ROLE
    ensures AssignRole(cat, mfa, assignments, user, role, None, granter).Failure?
  {
  }

  /** The restore among them: into a new organisation it brings back an administrative role of the package for a user
      who never had MFA, did not create the organisation and was named by no operator. */
  lemma {:induction false} RestoreEntrustsWithoutMfa(cat: Catalogue, org: OrgId, creator: UserId, user: UserId, role: string)
    requires cat.gateway && OWNER_ROLE in cat.roles && creator != user
    requires role != OWNER_ROLE && IsAdministrative(cat, role)
    ensures
      var es := [CreateOrganization(org, creator), MembershipChange(org, user, Some(Membership(None, true))),
                 Assign(user, role, Some(org), PackageRestore)];
      && Assignment(user, role, Some(org)) in Run(cat, NOBODY, es).assignments
      && Run(cat, NOBODY, es).mfa == {}
  {
    var made := CreateOrganization(org, creator);
    var joined := MembershipChange(org, user, Some(Membership(None, true)));
    var given := Assign(user, role, Some(org), PackageRestore);
    var es := [made, joined, given];
    var s1 := Step(cat, NOBODY, made).0;
    var s2 := Step(cat, s1, joined).0;
    assert s1.assignments == [Assignment(creator, OWNER_ROLE, Some(org))];
    assert s2.assignments == s1.assignments && (user, org) in s2.members;
    var s3 := Step(cat, s2, given).0;
    assert s3.assignments == s2.assignments + [Assignment(user, role, Some(org))];
    assert es[1..] == [joined, given] && es[1..][1..] == [given] && es[1..][1..][1..] == [];
    assert Run(cat, s2, [given]) == Run(cat, s3, []) by {
      assert [given][1..] == [];
    }
  }
}
