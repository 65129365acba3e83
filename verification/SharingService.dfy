/** The authorization and sharing calls as they execute on the stored rows. */
module SharingService {
  import opened Wrappers
  import opened Authorization
  import opened Sharing

  class Store {
    const cat: Catalogue
    var members: Members
    var mfa: set<UserId>
    var live: set<Resource>
    var assignments: seq<Assignment>
    var grants: map<Key, Grant>
    var shares: map<ShareId, Share>

    constructor (cat: Catalogue)
      ensures this.cat == cat && assignments == [] && grants == map[] && shares == map[]
    {
      this.cat := cat;
      members, mfa, live := map[], {}, {};
      assignments, grants, shares := [], map[], map[];
    }

    method Assign(user: UserId, role: string, scope: Option<OrgId>, granter: Option<UserId>)
      returns (r: Result<(), AccessError>)
      modifies this`assignments
      ensures var expected := AssignRole(cat, mfa, old(assignments), user, role, scope, granter);
        && (r.Success? <==> expected.Success?)
        && (r.Failure? ==> r.error == expected.error && assignments == old(assignments))
        && (r.Success? ==> assignments == expected.value)
    {
      if role !in cat.roles {
        return Failure(UnknownRole);
      }
      if scope.None? && role != PLATFORM_WIDE_ROLE {
        return Failure(PlatformWideForbidden);
      }
      if cat.gateway && granter.Some? && granter.value != user && user !in mfa && IsAdministrative(cat, role) {
        return Failure(MfaRequired);
      }
      var a := Assignment(user, role, scope);
      if scope.Some? && a in assignments {
        return Failure(AlreadyAssigned);
      }
      assignments := assignments + [a];
      return Success(());
    }

    method GrantPermission(key: Key, grant: Grant) returns (r: Result<(), AccessError>)
      modifies this`grants
      ensures var expected := GrantResource(cat, old(grants), key, grant);
        && (r.Success? <==> expected.Success?)
        && (r.Failure? ==> r.error == expected.error && grants == old(grants))
        && (r.Success? ==> grants == expected.value)
    {
      if key.code !in cat.permissions {
        return Failure(UnknownPermission);
      }
      if key in grants {
        return Failure(AlreadyGranted);
      }
      grants := grants[key := grant];
      return Success(());
    }

    /** The inner loop: one code for every target, in whatever order the database returns the users. A row
        already there is left alone; an unknown code stops everything. */
    method GrantToAll(targets: set<UserId>, code: string, resource: Resource, grant: Grant) returns (ok: bool)
      modifies this`grants
      ensures ok <==> code in cat.permissions || targets == {}
      ensures ok ==> grants == AddMissing(old(grants), ShareKeys(targets, [code], resource), grant)
    {
      hide AddMissing, ShareKeys;
      var todo := targets;
      NoUsersYet(grants, targets, code, resource, grant);
      while todo != {}
        invariant todo <= targets
        invariant todo != targets ==> code in cat.permissions
        invariant grants == AddMissing(old(grants), ShareKeys(targets - todo, [code], resource), grant)
        decreases |todo|
      {
        var user :| user in todo;
        var r := GrantPermission(Key(user, code, resource), grant);
        if r.Failure? && r.error == UnknownPermission {
          return false;
        }
        OneMoreUser(old(grants), targets, todo, user, code, resource, grant);
        todo := todo - {user};
      }
      assert targets - todo == targets;
      return true;
    }

    /** create_share_grant: checks, then one transaction that an unknown code rolls back as a whole. */
    method Create(id: ShareId, actor: UserId, resource: Resource, principal: Principal, level: string, expires: Option<int>)
      returns (r: Result<(), SharingError>)
      modifies this`grants, this`shares
      ensures
        var expected := CreateShare(cat, members, assignments, live, Rows(old(grants), old(shares)),
                          id, actor, resource, principal, level, expires);
        && (r.Success? <==> expected.Success?)
        && (r.Failure? ==> r.error == expected.error && grants == old(grants) && shares == old(shares))
        && (r.Success? ==> Rows(grants, shares) == expected.value)
    {
      hide Refusal, PrincipalUsers, LevelCodes, AddMissing, ShareKeys;
      var refusal := Refusal(cat, members, assignments, live, id.org, actor, resource, principal, level);
      if refusal.Some? {
        return Failure(refusal.value);
      }
      if id in shares {
        return Failure(IdTaken);
      }
      RefusalLeavesLevel(cat, members, assignments, live, id.org, actor, resource, principal, level);
      var targets := PrincipalUsers(members, principal, id.org);
      var codes := LevelCodes(resource.kind, level).value;
      var grant := Grant(id.org, expires);
      var savedGrants, savedShares := grants, shares;
      shares := shares[id := Share(resource, principal, level, expires, None)];
      NothingMissing(grants, targets, resource, grant);
      for i := 0 to |codes|
        invariant grants == AddMissing(old(grants), ShareKeys(targets, codes[..i], resource), grant)
        invariant shares == old(shares)[id := Share(resource, principal, level, expires, None)]
        invariant targets == {} || forall c :: c in codes[..i] ==> c in cat.permissions
      {
        var ok := GrantToAll(targets, codes[i], resource, grant);
        if !ok {
          grants, shares := savedGrants, savedShares;
          assert codes[i] in codes;
          return Failure(UnknownCode);
        }
        OneMoreCode(old(grants), targets, codes, i, resource, grant);
      }
      assert codes[..|codes|] == codes;
      return Success(());
    }

    /** revoke_share_grant, on a share that the actor's membership lets it find. */
    method Revoke(id: ShareId, actor: UserId, now: int) returns (r: Result<(), SharingError>)
      modifies this`grants, this`shares
      ensures
        var expected := RevokeShare(cat, members, assignments, Rows(old(grants), old(shares)), id, actor, now);
        && (r.Success? <==> expected.Success?)
        && (r.Failure? ==> r.error == expected.error && grants == old(grants) && shares == old(shares))
        && (r.Success? ==> Rows(grants, shares) == expected.value)
    {
      if id !in shares || !IsActive(members, actor, id.org) {
        return Failure(NotFound);
      }
      if !HasRolePermission(cat, assignments, Some(actor), "sharing.manage", Some(id.org)) {
        return Failure(Denied);
      }
      grants := Without(grants, KeysOf(members, id, shares[id]), id.org);
      shares := shares[id := shares[id].(revoked := Some(now))];
      return Success(());
    }
  }

  lemma NoUsersYet(grants: map<Key, Grant>, targets: set<UserId>, code: string, resource: Resource, grant: Grant)
    ensures AddMissing(grants, ShareKeys(targets - targets, [code], resource), grant) == grants
  {
  }

  lemma OneMoreUser(
      grants: map<Key, Grant>, targets: set<UserId>, todo: set<UserId>, user: UserId, code: string,
      resource: Resource, grant: Grant)
    requires todo <= targets && user in todo
    ensures
      var k := Key(user, code, resource);
      var before := AddMissing(grants, ShareKeys(targets - todo, [code], resource), grant);
      (if k in before then before else before[k := grant])
      == AddMissing(grants, ShareKeys(targets - (todo - {user}), [code], resource), grant)
  {
    var k := Key(user, code, resource);
    var keys := ShareKeys(targets - todo, [code], resource);
    assert ShareKeys(targets - (todo - {user}), [code], resource) == keys + {k};
    hide ShareKeys;
    AddMissingTwice(grants, keys, {k}, grant);
    AddMissingOne(AddMissing(grants, keys, grant), k, grant);
    hide AddMissing;
  }

  lemma AddMissingOne(grants: map<Key, Grant>, k: Key, grant: Grant)
    ensures AddMissing(grants, {k}, grant) == if k in grants then grants else grants[k := grant]
  {
  }

  lemma NothingMissing(grants: map<Key, Grant>, targets: set<UserId>, resource: Resource, grant: Grant)
    ensures AddMissing(grants, ShareKeys(targets, [], resource), grant) == grants
  {
  }

  lemma OneMoreCode(
      grants: map<Key, Grant>, targets: set<UserId>, codes: seq<string>, i: nat, resource: Resource, grant: Grant)
    requires i < |codes|
    ensures
      AddMissing(AddMissing(grants, ShareKeys(targets, codes[..i], resource), grant),
        ShareKeys(targets, [codes[i]], resource), grant)
      == AddMissing(grants, ShareKeys(targets, codes[..i + 1], resource), grant)
  {
    var before, more := ShareKeys(targets, codes[..i], resource), ShareKeys(targets, [codes[i]], resource);
    assert codes[..i + 1] == codes[..i] + [codes[i]];
    assert ShareKeys(targets, codes[..i + 1], resource) == before + more;
    AddMissingTwice(grants, before, more, grant);
  }

  lemma AddMissingTwice(grants: map<Key, Grant>, one: set<Key>, two: set<Key>, grant: Grant)
    ensures AddMissing(AddMissing(grants, one, grant), two, grant) == AddMissing(grants, one + two, grant)
  {
  }
}
