/** Sharing a resource with a user, a team or the whole organisation: which grant rows come and go. */
module Sharing {
  import opened Wrappers
  import opened Authorization

  const READ := "read"
  const WRITE := "write"
  const ADMIN := "admin"

  const BUCKET := "storage.bucket"
  const TENANT_DATABASE := "databases.tenant_database"
  const CONNECTED_DATABASE := "databases.connected_database"

  datatype Principal = ToUser(user: Option<UserId>) | ToTeam(team: Option<TeamId>) | ToOrganization | Unsupported

  datatype Membership = Membership(team: Option<TeamId>, active: bool)

  type Members = map<(UserId, OrgId), Membership>

  datatype ShareId = ShareId(org: OrgId, number: nat)

  datatype Share = Share(
    resource: Resource, principal: Principal, level: string, expires: Option<int>, revoked: Option<int>)

  datatype SharingError =
    | Denied | UnsupportedType | UnsupportedLevel | NoSuchResource | UserMissing | NotAMember | ForeignTeam
    | UnsupportedPrincipal | UnknownCode | IdTaken | NotFound

  /** The rows that sharing reads and writes. */
  datatype Rows = Rows(grants: map<Key, Grant>, shares: map<ShareId, Share>)

  /** The codes behind a level, in the order in which they are granted. */
  function LevelCodes(kind: string, level: string): Option<seq<string>> {
    if kind == BUCKET then
      if level == READ then Some(["storage.read"])
      else if level == WRITE then Some(["storage.read", "storage.write"])
      else if level == ADMIN then
        Some(["storage.read", "storage.write", "storage.delete", "storage.share", "storage.manage"])
      else None
    else if kind == TENANT_DATABASE then
      if level == READ then Some(["database.read"])
      else if level == WRITE then Some(["database.read", "database.write"])
      else if level == ADMIN then Some(["database.read", "database.write", "dataset.export"])
      else None
    else if kind == CONNECTED_DATABASE then
      if level == READ then Some(["database.read"]) else None
    else None
  }

  predicate SupportedType(kind: string) {
    kind in {BUCKET, TENANT_DATABASE, CONNECTED_DATABASE}
  }

  predicate IsActive(members: Members, user: UserId, org: OrgId) {
    (user, org) in members && members[(user, org)].active
  }

  /** The users behind a principal, as the memberships stand now. */
  function PrincipalUsers(members: Members, principal: Principal, org: OrgId): set<UserId> {
    match principal
    case ToUser(u) => if u.Some? then {u.value} else {}
    case ToTeam(t) => set m | m in members && members[m].active && t.Some? && members[m].team == t :: m.0
    case ToOrganization => set m | m in members && members[m].active && m.1 == org :: m.0
    case Unsupported => {}
  }

  function ShareKeys(users: set<UserId>, codes: seq<string>, resource: Resource): set<Key> {
    set u, c | u in users && c in codes :: Key(u, c, resource)
  }

  /** One row for every key that has none; rows already there stay as they are, expiry included. */
  function AddMissing(grants: map<Key, Grant>, keys: set<Key>, grant: Grant): map<Key, Grant> {
    grants + map k | k in keys - grants.Keys :: grant
  }

  /** The rows without those of this organisation at the given keys. */
  function Without(grants: map<Key, Grant>, keys: set<Key>, org: OrgId): map<Key, Grant> {
    map k | k in grants && !(k in keys && grants[k].org == org) :: grants[k]
  }

  /** The checks before anything is written, in the code's order; None when all pass. */
  function Refusal(
      cat: Catalogue, members: Members, assignments: seq<Assignment>, live: set<Resource>,
      org: OrgId, actor: UserId, resource: Resource, principal: Principal, level: string): Option<SharingError>
  {
    if !HasRolePermission(cat, assignments, Some(actor), "sharing.manage", Some(org)) then Some(Denied)
    else if !SupportedType(resource.kind) then Some(UnsupportedType)
    else if LevelCodes(resource.kind, level).None? then Some(UnsupportedLevel)
    else if resource !in live || resource !in cat.owner || cat.owner[resource] != org then Some(NoSuchResource)
    else match principal
      case ToUser(u) =>
        if u.None? then Some(UserMissing) else if !IsActive(members, u.value, org) then Some(NotAMember) else None
      case ToTeam(t) =>
        if t.None? || t.value !in cat.teamOrg || cat.teamOrg[t.value] != org then Some(ForeignTeam) else None
      case ToOrganization => None
      case Unsupported => Some(UnsupportedPrincipal)
  }

  function CreateShare(
      cat: Catalogue, members: Members, assignments: seq<Assignment>, live: set<Resource>, rows: Rows,
      id: ShareId, actor: UserId, resource: Resource, principal: Principal, level: string, expires: Option<int>)
    : Result<Rows, SharingError>
  {
    var refusal := Refusal(cat, members, assignments, live, id.org, actor, resource, principal, level);
    if refusal.Some? then Failure(refusal.value)
    else if id in rows.shares then Failure(IdTaken)
    else
      var users := PrincipalUsers(members, principal, id.org);
      var codes := LevelCodes(resource.kind, level).value;
      if users != {} && exists c :: c in codes && c !in cat.permissions then Failure(UnknownCode)
      else
        Success(Rows(
          AddMissing(rows.grants, ShareKeys(users, codes, resource), Grant(id.org, expires)),
          rows.shares[id := Share(resource, principal, level, expires, None)]))
  }

  /** The keys a share stands for, as the memberships stand now. */
  function KeysOf(members: Members, id: ShareId, share: Share): set<Key> {
    var codes := LevelCodes(share.resource.kind, share.level);
    if codes.None? then {}
    else ShareKeys(PrincipalUsers(members, share.principal, id.org), codes.value, share.resource)
  }

  function RevokeShare(
      cat: Catalogue, members: Members, assignments: seq<Assignment>, rows: Rows,
      id: ShareId, actor: UserId, now: int): Result<Rows, SharingError>
  {
    if id !in rows.shares || !IsActive(members, actor, id.org) then Failure(NotFound)
    else if !HasRolePermission(cat, assignments, Some(actor), "sharing.manage", Some(id.org)) then Failure(Denied)
    else
      var share := rows.shares[id];
      Success(Rows(
        Without(rows.grants, KeysOf(members, id, share), id.org),
        rows.shares[id := share.(revoked := Some(now))]))
  }

  // ---------- what the levels mean ----------

  function Rank(level: string): nat {
    if level == READ then 0 else if level == WRITE then 1 else 2
  }

  /** Whatever a level allows, every higher level that the resource type supports allows too, and strictly
      more. */
  lemma HigherLevelsAllowMore(kind: string, low: string, high: string)
    requires LevelCodes(kind, low).Some? && LevelCodes(kind, high).Some? && Rank(low) < Rank(high)
    ensures forall c :: c in LevelCodes(kind, low).value ==> c in LevelCodes(kind, high).value
    ensures exists c :: c in LevelCodes(kind, high).value && c !in LevelCodes(kind, low).value
  {
    var l, h := LevelCodes(kind, low).value, LevelCodes(kind, high).value;
    assert l == h[..|l|];
    assert h[|h| - 1] !in l;
  }

  // ---------- create ----------

  lemma RefusalLeavesLevel(
      cat: Catalogue, members: Members, assignments: seq<Assignment>, live: set<Resource>,
      org: OrgId, actor: UserId, resource: Resource, principal: Principal, level: string)
    requires Refusal(cat, members, assignments, live, org, actor, resource, principal, level).None?
    ensures LevelCodes(resource.kind, level).Some?
  {
  }

  /** Creating a share changes exactly the decisions it is for. Where a row exists already it keeps its
      organisation and its expiry, so the share has no effect there. */
  lemma ShareGrantsExactly(
      cat: Catalogue, members: Members, assignments: seq<Assignment>, live: set<Resource>, rows: Rows,
      id: ShareId, actor: UserId, resource: Resource, principal: Principal, level: string, expires: Option<int>,
      someone: UserId, code: string, org: Option<OrgId>, other: Resource, now: int)
    requires CreateShare(cat, members, assignments, live, rows, id, actor, resource, principal, level, expires).Success?
    ensures
      var after := CreateShare(cat, members, assignments, live, rows, id, actor, resource, principal, level, expires).value;
      HasResourcePermission(after.grants, Some(someone), code, org, other, now)
      <==> (|| HasResourcePermission(rows.grants, Some(someone), code, org, other, now)
            || (&& other == resource && org == Some(id.org) && Live(expires, now)
                && someone in PrincipalUsers(members, principal, id.org)
                && code in LevelCodes(resource.kind, level).value
                && Key(someone, code, resource) !in rows.grants))
  {
  }

  /** A new share reaches its target exactly when no row stood in the way, or that row is this organisation's
      and still live. An expired row, or another organisation's, is neither renewed nor replaced. */
  lemma ShareReachesExactly(
      cat: Catalogue, members: Members, assignments: seq<Assignment>, live: set<Resource>, rows: Rows,
      id: ShareId, actor: UserId, resource: Resource, principal: Principal, level: string, expires: Option<int>,
      target: UserId, code: string, now: int)
    requires CreateShare(cat, members, assignments, live, rows, id, actor, resource, principal, level, expires).Success?
    requires target in PrincipalUsers(members, principal, id.org)
    requires code in LevelCodes(resource.kind, level).value
    ensures
      var after := CreateShare(cat, members, assignments, live, rows, id, actor, resource, principal, level, expires).value;
      var k := Key(target, code, resource);
      HasResourcePermission(after.grants, Some(target), code, Some(id.org), resource, now)
      <==> if k in rows.grants then rows.grants[k].org == id.org && Live(rows.grants[k].expires, now)
           else Live(expires, now)
  {
  }

  // ---------- revoke ----------

  /** After a revocation nobody behind the share has any of its permissions from this organisation's grants,
      whichever other share also gave them; all other decisions stand. */
  lemma RevokeRemovesExactly(
      cat: Catalogue, members: Members, assignments: seq<Assignment>, rows: Rows, id: ShareId, actor: UserId, t: int,
      someone: UserId, code: string, org: Option<OrgId>, other: Resource, now: int)
    requires RevokeShare(cat, members, assignments, rows, id, actor, t).Success?
    ensures
      var after := RevokeShare(cat, members, assignments, rows, id, actor, t).value;
      HasResourcePermission(after.grants, Some(someone), code, org, other, now)
      <==> (&& HasResourcePermission(rows.grants, Some(someone), code, org, other, now)
            && !(org == Some(id.org) && Key(someone, code, other) in KeysOf(members, id, rows.shares[id])))
  {
  }

  /** Creating a share and revoking it with the memberships unchanged gives back the rows, less those the
      organisation already had at the share's keys; and so gives back exactly the rows if and only if it had
      none there. */
  lemma CreateThenRevoke(
      cat: Catalogue, members: Members, assignments: seq<Assignment>, live: set<Resource>, rows: Rows,
      id: ShareId, actor: UserId, resource: Resource, principal: Principal, level: string, expires: Option<int>,
      revoker: UserId, now: int)
    requires CreateShare(cat, members, assignments, live, rows, id, actor, resource, principal, level, expires).Success?
    requires
      var created := CreateShare(cat, members, assignments, live, rows, id, actor, resource, principal, level, expires).value;
      RevokeShare(cat, members, assignments, created, id, revoker, now).Success?
    ensures
      var created := CreateShare(cat, members, assignments, live, rows, id, actor, resource, principal, level, expires).value;
      var revoked := RevokeShare(cat, members, assignments, created, id, revoker, now).value;
      var keys := KeysOf(members, id, Share(resource, principal, level, expires, None));
      && revoked.grants == Without(rows.grants, keys, id.org)
      && (revoked.grants == rows.grants <==> forall k :: k in keys && k in rows.grants ==> rows.grants[k].org != id.org)
  {
    hide Refusal, PrincipalUsers, LevelCodes, HasRolePermission, ShareKeys;
    RefusalLeavesLevel(cat, members, assignments, live, id.org, actor, resource, principal, level);
    var share := Share(resource, principal, level, expires, None);
    var keys := KeysOf(members, id, share);
    AddedRowsGo(rows.grants, keys, Grant(id.org, expires));
    WithoutNothing(rows.grants, keys, id.org);
  }

  lemma AddedRowsGo(grants: map<Key, Grant>, keys: set<Key>, grant: Grant)
    ensures Without(AddMissing(grants, keys, grant), keys, grant.org) == Without(grants, keys, grant.org)
  {
  }

  lemma WithoutNothing(grants: map<Key, Grant>, keys: set<Key>, org: OrgId)
    ensures Without(grants, keys, org) == grants <==> forall k :: k in keys && k in grants ==> grants[k].org != org
  {
  }

  /** Two shares that meet in a key hold one row between them: revoking either takes it from the other. */
  lemma OverlappingSharesFallTogether(
      cat: Catalogue, members: Members, assignments: seq<Assignment>, rows: Rows,
      one: ShareId, two: ShareId, actor: UserId, t: int, key: Key, now: int)
    requires RevokeShare(cat, members, assignments, rows, one, actor, t).Success?
    requires two in rows.shares && two != one && two.org == one.org && rows.shares[two].revoked == None
    requires key in KeysOf(members, one, rows.shares[one]) && key in KeysOf(members, two, rows.shares[two])
    ensures
      var after := RevokeShare(cat, members, assignments, rows, one, actor, t).value;
      && after.shares[two] == rows.shares[two]
      && !HasResourcePermission(after.grants, Some(key.user), key.code, Some(two.org), key.resource, now)
  {
  }
}
