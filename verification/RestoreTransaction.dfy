/**
 The transactions around a restore.  Both database connections run one outer transaction; every service
 call inside opens savepoints of its own, and a failed catalog write is answered by a compensating
 statement in the middle of it all.  Object storage takes no part in any transaction.
 */
module RestoreTransaction {
  import opened Wrappers
  import Catalogs = SchemaCatalog

  type Key = nat
  type Bytes = seq<bv8>

  /** The control-plane database: the schema catalog, the rows that hold object keys, everything else. */
  datatype DefaultDb = DefaultDb(catalog: Catalogs.Catalog, fileKeys: map<nat, Key>, rows: set<string>)

  /** The tenant cluster: its schema objects and its rows. */
  datatype TenantDb = TenantDb(objects: set<Catalogs.Object>, rows: seq<(string, seq<string>)>)

  datatype Which = Default | Tenant

  /** What the restore does, as nested statements.  Functions give None where a statement is refused. */
  datatype Command =
    | Skip
    | OnDefault(f: DefaultDb -> Option<DefaultDb>)
    | OnTenant(g: TenantDb -> Option<TenantDb>)
    | Check(holds: (DefaultDb, TenantDb) -> bool)
    | Put(key: Key, content: Bytes)
    | Seq(first: Command, second: Command)
    | Atomic(on: Which, body: Command)
    | Compensated(body: Command, compensation: Command)
    | Tolerated(body: Command)

  datatype Outcome = Done | Raised

  // ---------- the connections as they are ----------

  /** A connection inside a transaction: the visible data, whether a statement has failed since the last
      savepoint (PostgreSQL then refuses everything but a rollback), and the open savepoints. */
  datatype Connection<S> = Connection(current: S, broken: bool, savepoints: seq<S>)

  /** `faults` says of the coming statements which fail for a reason of their own. */
  datatype World = World(
    default: Connection<DefaultDb>,
    tenant: Connection<TenantDb>,
    objects: map<Key, Bytes>,
    faults: seq<bool>)

  function NextFault(w: World): bool {
    w.faults != [] && w.faults[0]
  }

  function Consume(w: World): World {
    if w.faults == [] then w else w.(faults := w.faults[1..])
  }

  function Execute<S>(c: Connection<S>, f: S -> Option<S>, fault: bool): (r: (Outcome, Connection<S>))
    ensures r.1.savepoints == c.savepoints
  {
    if c.broken then (Raised, c)
    else
      match if fault then None else f(c.current)
      case Some(next) => (Done, c.(current := next))
      case None => (Raised, c.(broken := true))
  }

  function Save<S>(c: Connection<S>): Connection<S> {
    c.(savepoints := c.savepoints + [c.current])
  }

  function RollBack<S>(c: Connection<S>): Connection<S>
    requires c.savepoints != []
  {
    Connection(c.savepoints[|c.savepoints| - 1], false, c.savepoints[..|c.savepoints| - 1])
  }

  function Release<S>(c: Connection<S>): Connection<S>
    requires c.savepoints != []
  {
    c.(savepoints := c.savepoints[..|c.savepoints| - 1])
  }

  /** Leaving an atomic block.  An exception rolls back to the savepoint and travels on; so does a
      failure that was swallowed inside the block, except that it then raises nothing.  That holds of the
      outermost block, and of an inner one whose calls the framework has marked for rollback; releasing an inner
      savepoint after a swallowed failure of raw SQL would raise.  No item of a restore does that: inside its
      own atomic blocks nothing is swallowed. */
  function Leave<S>(outcome: Outcome, c: Connection<S>): Connection<S>
    requires c.savepoints != []
  {
    if outcome == Done && !c.broken then Release(c) else RollBack(c)
  }

  /** Executes a command; nothing is ever taken off a savepoint stack that the command did not put on it. */
  function Exec(c: Command, w: World): (r: (Outcome, World))
    ensures r.1.default.savepoints == w.default.savepoints && r.1.tenant.savepoints == w.tenant.savepoints
    decreases c
  {
    match c
    case Skip => (Done, w)
    case OnDefault(f) =>
      var (outcome, d) := Execute(w.default, f, NextFault(w));
      (outcome, Consume(w).(default := d))
    case OnTenant(g) =>
      var (outcome, t) := Execute(w.tenant, g, NextFault(w));
      (outcome, Consume(w).(tenant := t))
    case Check(holds) => (if holds(w.default.current, w.tenant.current) then Done else Raised, w)
    case Put(key, content) =>
      if NextFault(w) || key in w.objects then (Raised, Consume(w))
      else (Done, Consume(w).(objects := w.objects[key := content]))
    case Seq(a, b) =>
      var (outcome, next) := Exec(a, w);
      if outcome == Raised then (Raised, next) else Exec(b, next)
    case Atomic(Default, body) =>
      if w.default.broken then (Raised, w)
      else
        var (outcome, next) := Exec(body, w.(default := Save(w.default)));
        (outcome, next.(default := Leave(outcome, next.default)))
    case Atomic(Tenant, body) =>
      if w.tenant.broken then (Raised, w)
      else
        var (outcome, next) := Exec(body, w.(tenant := Save(w.tenant)));
        (outcome, next.(tenant := Leave(outcome, next.tenant)))
    case Compensated(body, compensation) =>
      var (outcome, next) := Exec(body, w);
      if outcome == Done then (Done, next) else (Raised, Exec(compensation, next).1)
    case Tolerated(body) => (Done, Exec(body, w).1)
  }

  // ---------- what savepoints are for ----------

  /** The two databases without any savepoint machinery. */
  datatype Plain = Plain(
    default: DefaultDb, defaultBroken: bool,
    tenant: TenantDb, tenantBroken: bool,
    objects: map<Key, Bytes>, faults: seq<bool>)

  function Visible(w: World): Plain {
    Plain(w.default.current, w.default.broken, w.tenant.current, w.tenant.broken, w.objects, w.faults)
  }

  function Statement<S>(now: S, broken: bool, f: S -> Option<S>, fault: bool): (Outcome, S, bool) {
    if broken then (Raised, now, true)
    else
      match if fault then None else f(now)
      case Some(next) => (Done, next, false)
      case None => (Raised, now, true)
  }

  /** Meaning of a command by copies: an atomic block that does not end well restores the copy of its own
      database that was taken when it began, and nothing else. */
  function Meaning(c: Command, p: Plain): (Outcome, Plain)
    decreases c
  {
    var rest := if p.faults == [] then [] else p.faults[1..];
    var fault := p.faults != [] && p.faults[0];
    match c
    case Skip => (Done, p)
    case OnDefault(f) =>
      var (outcome, d, broken) := Statement(p.default, p.defaultBroken, f, fault);
      (outcome, p.(default := d, defaultBroken := broken, faults := rest))
    case OnTenant(g) =>
      var (outcome, t, broken) := Statement(p.tenant, p.tenantBroken, g, fault);
      (outcome, p.(tenant := t, tenantBroken := broken, faults := rest))
    case Check(holds) => (if holds(p.default, p.tenant) then Done else Raised, p)
    case Put(key, content) =>
      if fault || key in p.objects then (Raised, p.(faults := rest))
      else (Done, p.(faults := rest, objects := p.objects[key := content]))
    case Seq(a, b) =>
      var (outcome, next) := Meaning(a, p);
      if outcome == Raised then (Raised, next) else Meaning(b, next)
    case Atomic(Default, body) =>
      if p.defaultBroken then (Raised, p)
      else
        var (outcome, next) := Meaning(body, p);
        if outcome == Done && !next.defaultBroken then (Done, next)
        else (outcome, next.(default := p.default, defaultBroken := false))
    case Atomic(Tenant, body) =>
      if p.tenantBroken then (Raised, p)
      else
        var (outcome, next) := Meaning(body, p);
        if outcome == Done && !next.tenantBroken then (Done, next)
        else (outcome, next.(tenant := p.tenant, tenantBroken := false))
    case Compensated(body, compensation) =>
      var (outcome, next) := Meaning(body, p);
      if outcome == Done then (Done, next) else (Raised, Meaning(compensation, next).1)
    case Tolerated(body) => (Done, Meaning(body, p).1)
  }

  /** The savepoint stacks implement the copies, at any depth of nesting. */
  lemma {:induction false} SavepointsRestoreCopies(c: Command, w: World)
    ensures Exec(c, w).0 == Meaning(c, Visible(w)).0
    ensures Visible(Exec(c, w).1) == Meaning(c, Visible(w)).1
    decreases c
  {
    match c
    case Seq(a, b) =>
      SavepointsRestoreCopies(a, w);
      SavepointsRestoreCopies(b, Exec(a, w).1);
    case Atomic(Default, body) => SavepointsRestoreCopies(body, w.(default := Save(w.default)));
    case Atomic(Tenant, body) => SavepointsRestoreCopies(body, w.(tenant := Save(w.tenant)));
    case Compensated(body, compensation) =>
      SavepointsRestoreCopies(body, w);
      SavepointsRestoreCopies(compensation, Exec(body, w).1);
    case Tolerated(body) => SavepointsRestoreCopies(body, w);
    case _ =>
  }

  // ---------- all or nothing ----------

  /** Objects are only ever added. */
  lemma {:induction false} ObjectsOnlyGrow(c: Command, w: World)
    ensures forall k :: k in w.objects ==> k in Exec(c, w).1.objects && Exec(c, w).1.objects[k] == w.objects[k]
    decreases c
  {
    match c
    case Seq(a, b) =>
      ObjectsOnlyGrow(a, w);
      ObjectsOnlyGrow(b, Exec(a, w).1);
    case Atomic(Default, body) => ObjectsOnlyGrow(body, w.(default := Save(w.default)));
    case Atomic(Tenant, body) => ObjectsOnlyGrow(body, w.(tenant := Save(w.tenant)));
    case Compensated(body, compensation) =>
      ObjectsOnlyGrow(body, w);
      ObjectsOnlyGrow(compensation, Exec(body, w).1);
    case Tolerated(body) => ObjectsOnlyGrow(body, w);
    case _ =>
  }

  /** The two nested transactions of restore_package. */
  function Restore(body: Command): Command {
    Atomic(Default, Atomic(Tenant, body))
  }

  ghost predicate NoDanglingKeys(w: World) {
    forall f :: f in w.default.current.fileKeys ==> w.default.current.fileKeys[f] in w.objects
  }

  /** An atomic block from which an exception escapes leaves its database as it found it. */
  lemma {:induction false} EscapeRollsBackDefault(body: Command, w: World)
    requires !w.default.broken && Exec(Atomic(Default, body), w).0 == Raised
    ensures Exec(Atomic(Default, body), w).1.default == w.default
  {
  }

  lemma {:induction false} EscapeRollsBackTenant(body: Command, w: World)
    requires !w.tenant.broken && Exec(Atomic(Tenant, body), w).0 == Raised
    ensures Exec(Atomic(Tenant, body), w).1.tenant == w.tenant
  {
  }

  /** If an exception escapes a restore, wherever it was raised and whatever was compensated or tolerated
      on the way, both databases are as before; every stored object is still there, and those that were
      added are referenced by no file row. */
  lemma {:induction false} RestoreIsAllOrNothing(body: Command, w: World)
    requires !w.default.broken && !w.tenant.broken && NoDanglingKeys(w)
    requires Exec(Restore(body), w).0 == Raised
    ensures
      var after := Exec(Restore(body), w).1;
      && after.default == w.default && after.tenant == w.tenant
      && NoDanglingKeys(after)
      && (forall k :: k in w.objects ==> k in after.objects && after.objects[k] == w.objects[k])
      && (forall k :: k in after.objects && k !in w.objects ==> k !in after.default.current.fileKeys.Values)
  {
    ObjectsOnlyGrow(Restore(body), w);
    EscapeRollsBackDefault(Atomic(Tenant, body), w);
    EscapeRollsBackTenant(body, w.(default := Save(w.default)));
  }

  // ---------- a restore that returns ----------

  /** Commands that never leave a connection broken: whatever statements they have are inside atomic blocks. */
  predicate CannotBreak(c: Command) {
    match c
    case OnDefault(_) => false
    case OnTenant(_) => false
    case Seq(a, b) => CannotBreak(a) && CannotBreak(b)
    case Compensated(a, b) => CannotBreak(a) && CannotBreak(b)
    case Tolerated(a) => CannotBreak(a)
    case Atomic(Default, body) => TenantSafe(body)
    case Atomic(Tenant, body) => DefaultSafe(body)
    case _ => true
  }

  /** No statement on the tenant connection outside an atomic block of its own. */
  predicate TenantSafe(c: Command) {
    match c
    case OnTenant(_) => false
    case Seq(a, b) => TenantSafe(a) && TenantSafe(b)
    case Compensated(a, b) => TenantSafe(a) && TenantSafe(b)
    case Tolerated(a) => TenantSafe(a)
    case Atomic(Default, body) => TenantSafe(body)
    case _ => true
  }

  predicate DefaultSafe(c: Command) {
    match c
    case OnDefault(_) => false
    case Seq(a, b) => DefaultSafe(a) && DefaultSafe(b)
    case Compensated(a, b) => DefaultSafe(a) && DefaultSafe(b)
    case Tolerated(a) => DefaultSafe(a)
    case Atomic(Tenant, body) => DefaultSafe(body)
    case _ => true
  }

  /** Only commands that cannot break a connection have their failures swallowed. */
  predicate Careful(c: Command) {
    match c
    case Seq(a, b) => Careful(a) && Careful(b)
    case Compensated(a, b) => Careful(a)
    case Tolerated(a) => CannotBreak(a)
    case Atomic(_, body) => Careful(body)
    case _ => true
  }

  lemma {:induction false} TenantSafeKeepsTenant(c: Command, p: Plain)
    requires TenantSafe(c) && !p.tenantBroken
    ensures !Meaning(c, p).1.tenantBroken
    decreases c
  {
    match c
    case Seq(a, b) =>
      TenantSafeKeepsTenant(a, p);
      TenantSafeKeepsTenant(b, Meaning(a, p).1);
    case Compensated(a, b) =>
      TenantSafeKeepsTenant(a, p);
      TenantSafeKeepsTenant(b, Meaning(a, p).1);
    case Tolerated(a) => TenantSafeKeepsTenant(a, p);
    case Atomic(Default, body) => TenantSafeKeepsTenant(body, p);
    case _ =>
  }

  lemma {:induction false} DefaultSafeKeepsDefault(c: Command, p: Plain)
    requires DefaultSafe(c) && !p.defaultBroken
    ensures !Meaning(c, p).1.defaultBroken
    decreases c
  {
    match c
    case Seq(a, b) =>
      DefaultSafeKeepsDefault(a, p);
      DefaultSafeKeepsDefault(b, Meaning(a, p).1);
    case Compensated(a, b) =>
      DefaultSafeKeepsDefault(a, p);
      DefaultSafeKeepsDefault(b, Meaning(a, p).1);
    case Tolerated(a) => DefaultSafeKeepsDefault(a, p);
    case Atomic(Tenant, body) => DefaultSafeKeepsDefault(body, p);
    case _ =>
  }

  lemma {:induction false} CannotBreakKeepsBoth(c: Command, p: Plain)
    requires CannotBreak(c) && !p.defaultBroken && !p.tenantBroken
    ensures !Meaning(c, p).1.defaultBroken && !Meaning(c, p).1.tenantBroken
    decreases c
  {
    match c
    case Seq(a, b) =>
      CannotBreakKeepsBoth(a, p);
      CannotBreakKeepsBoth(b, Meaning(a, p).1);
    case Compensated(a, b) =>
      CannotBreakKeepsBoth(a, p);
      CannotBreakKeepsBoth(b, Meaning(a, p).1);
    case Tolerated(a) => CannotBreakKeepsBoth(a, p);
    case Atomic(Default, body) => TenantSafeKeepsTenant(body, p);
    case Atomic(Tenant, body) => DefaultSafeKeepsDefault(body, p);
    case _ =>
  }

  lemma {:induction false} CarefulEndsUnbroken(c: Command, p: Plain)
    requires Careful(c) && !p.defaultBroken && !p.tenantBroken
    requires Meaning(c, p).0 == Done
    ensures !Meaning(c, p).1.defaultBroken && !Meaning(c, p).1.tenantBroken
    decreases c
  {
    match c
    case Seq(a, b) =>
      CarefulEndsUnbroken(a, p);
      CarefulEndsUnbroken(b, Meaning(a, p).1);
    case Compensated(a, b) => CarefulEndsUnbroken(a, p);
    case Tolerated(a) => CannotBreakKeepsBoth(a, p);
    case Atomic(Default, body) => CarefulEndsUnbroken(body, p);
    case Atomic(Tenant, body) => CarefulEndsUnbroken(body, p);
    case _ =>
  }

  /** A restore that returns has kept everything its body did, in both databases, exactly when the body did
      not end with a failed statement still unanswered on one of the connections. */
  lemma {:induction false} ReturnedRestoreIsComplete(body: Command, w: World)
    requires !w.default.broken && !w.tenant.broken
    requires Exec(Restore(body), w).0 == Done
    ensures
      var (outcome, end) := Meaning(body, Visible(w));
      && outcome == Done
      && (Visible(Exec(Restore(body), w).1) == end <==> !end.defaultBroken && !end.tenantBroken)
  {
    SavepointsRestoreCopies(Restore(body), w);
  }

  /** A caller can tell from the commands: it is enough that swallowed failures come before any write. */
  lemma {:induction false} CarefulRestoreIsComplete(body: Command, w: World)
    requires Careful(body) && !w.default.broken && !w.tenant.broken
    requires Exec(Restore(body), w).0 == Done
    ensures Visible(Exec(Restore(body), w).1) == Meaning(body, Visible(w)).1
  {
    ReturnedRestoreIsComplete(body, w);
    CarefulEndsUnbroken(body, Visible(w));
  }

  /** A restore that swallows a failed write as its last act returns normally, but only the tenant cluster
      keeps its changes: the control plane has silently been rolled back. */
  lemma {:induction false} SwallowedWriteSplitsRestore(work: Command, w: World, f: DefaultDb -> Option<DefaultDb>)
    requires Careful(work) && !w.default.broken && !w.tenant.broken
    requires Meaning(work, Visible(w)).0 == Done && f(Meaning(work, Visible(w)).1.default) == None
    ensures
      var (outcome, after) := Exec(Restore(Seq(work, Tolerated(OnDefault(f)))), w);
      && outcome == Done
      && after.default.current == w.default.current
      && after.tenant.current == Meaning(work, Visible(w)).1.tenant
  {
    var body := Seq(work, Tolerated(OnDefault(f)));
    var p := Visible(w);
    CarefulEndsUnbroken(work, p);
    var worked := Meaning(work, p).1;
    var end := Meaning(body, p).1;
    assert Meaning(Tolerated(OnDefault(f)), worked) == (Done, Meaning(OnDefault(f), worked).1);
    assert end == Meaning(OnDefault(f), worked).1;
    assert end.defaultBroken && !end.tenantBroken && end.tenant == worked.tenant;
    assert Meaning(body, p).0 == Done;
    assert Meaning(Atomic(Tenant, body), p) == (Done, end);
    assert Meaning(Restore(body), p) == (Done, end.(default := p.default, defaultBroken := false));
    SavepointsRestoreCopies(Restore(body), w);
  }

  // ---------- the body of a restore ----------

  /** What the restore asks of the services, in the order the package lists it. */
  datatype Item =
    | CatalogRow(row: string, accepted: DefaultDb -> bool)
    | SchemaChange(op: Catalogs.Operation)
    | DataRow(table: string, values: seq<string>, admitted: TenantDb -> bool)
    | FileUpload(fits: bool, key: Key, content: Bytes, file: nat, nameFree: DefaultDb -> bool)
    | RoleAssignment(row: string, valid: DefaultDb -> bool, accepted: DefaultDb -> bool)

  function Insert(row: string, accepted: DefaultDb -> bool): Command {
    OnDefault((d: DefaultDb) => if accepted(d) then Some(d.(rows := d.rows + {row})) else None)
  }

  function Ddl(ddl: Catalogs.Ddl): Command {
    Atomic(Tenant, OnTenant((t: TenantDb) =>
      match Catalogs.Apply(t.objects, ddl)
      case Some(objects) => Some(t.(objects := objects))
      case None => None))
  }

  function Write(write: Catalogs.Write): Command {
    Atomic(Default, OnDefault((d: DefaultDb) =>
      match Catalogs.Perform(d.catalog, write)
      case Some(catalog) => Some(d.(catalog := catalog))
      case None => None))
  }

  /** One service call.  A file over the size limit is skipped; whatever an assignment of a role raises is
      swallowed. */
  function ItemCommand(item: Item): Command {
    match item
    case CatalogRow(row, accepted) => Insert(row, accepted)
    case SchemaChange(op) =>
      var compensation := Catalogs.Compensation(op);
      Seq(Check((d: DefaultDb, t: TenantDb) => Catalogs.Allowed(d.catalog, op)),
          Seq(Ddl(Catalogs.Statement(op)),
              Compensated(Write(Catalogs.CatalogWrite(op)),
                          if compensation.Some? then Ddl(compensation.value) else Skip)))
    case DataRow(table, values, admitted) =>
      OnTenant((t: TenantDb) => if admitted(t) then Some(t.(rows := t.rows + [(table, values)])) else None)
    case FileUpload(fits, key, content, file, nameFree) =>
      if !fits then Skip
      else
        Seq(Put(key, content), OnDefault((d: DefaultDb) =>
          if file in d.fileKeys || !nameFree(d) then None else Some(d.(fileKeys := d.fileKeys[file := key]))))
    case RoleAssignment(row, valid, accepted) =>
      Tolerated(Seq(Check((d: DefaultDb, t: TenantDb) => valid(d)), Insert(row, accepted)))
  }

  function Body(items: seq<Item>): Command {
    if items == [] then Skip else Seq(ItemCommand(items[0]), Body(items[1..]))
  }

  // ---------- role writes that fail unnoticed ----------

  /** Items that do not use the control-plane connection, or swallow what it raises. */
  predicate Oblivious(item: Item) {
    item.DataRow? || item.RoleAssignment? || (item.FileUpload? && !item.fits)
  }

  /** A role that passes its check and whose row the database then refuses. */
  predicate FailsWrite(item: Item, p: Plain) {
    && item.RoleAssignment? && !p.defaultBroken && item.valid(p.default)
    && ((p.faults != [] && p.faults[0]) || !item.accepted(p.default))
  }

  /** The state before item number i. */
  function StateBefore(items: seq<Item>, p: Plain, i: nat): Plain
    requires i <= |items|
  {
    if i == 0 then p else StateBefore(items[1..], Meaning(ItemCommand(items[0]), p).1, i - 1)
  }

  /** Some role write failed, and nothing after it had to use the control-plane connection. */
  ghost predicate LosesControlPlane(items: seq<Item>, p: Plain) {
    exists i :: 0 <= i < |items| && FailsWrite(items[i], StateBefore(items, p, i)) && AllOblivious(items[i + 1..])
  }

  predicate AllOblivious(items: seq<Item>) {
    forall i :: 0 <= i < |items| ==> Oblivious(items[i])
  }

  /** An item that completes leaves the tenant connection in order, and the control-plane connection broken exactly if
      it was (which only oblivious items survive) or if its own role write failed. */
  lemma {:induction false} ItemBreaks(item: Item, p: Plain)
    requires !p.tenantBroken && Meaning(ItemCommand(item), p).0 == Done
    ensures
      var next := Meaning(ItemCommand(item), p).1;
      && !next.tenantBroken
      && (p.defaultBroken ==> Oblivious(item))
      && (next.defaultBroken <==> p.defaultBroken || FailsWrite(item, p))
  {
    match item
    case SchemaChange(op) => ChangeBreaksNothing(op, p);
    case RoleAssignment(row, valid, accepted) => RoleBreaks(item, p);
    case _ =>
  }

  /** A role whose check fails changes nothing; any other does what its insert does. */
  lemma {:induction false} RoleBreaks(item: Item, p: Plain)
    requires item.RoleAssignment?
    ensures Meaning(ItemCommand(item), p)
      == (Done, if item.valid(p.default) then Meaning(Insert(item.row, item.accepted), p).1 else p)
  {
    var valid := item.valid;
    var check := Check((d: DefaultDb, t: TenantDb) => valid(d));
    var body := Seq(check, Insert(item.row, item.accepted));
    assert ItemCommand(item) == Tolerated(body);
    assert Meaning(body, p).1 == if valid(p.default) then Meaning(Insert(item.row, item.accepted), p).1 else p;
  }

  lemma {:induction false} ChangeBreaksNothing(op: Catalogs.Operation, p: Plain)
    requires !p.tenantBroken && Meaning(ItemCommand(SchemaChange(op)), p).0 == Done
    ensures
      var next := Meaning(ItemCommand(SchemaChange(op)), p).1;
      !next.tenantBroken && !p.defaultBroken && !next.defaultBroken
  {
    hide Catalogs.Apply, Catalogs.Perform, Catalogs.Allowed, Catalogs.Compensation;
    var ddl := Ddl(Catalogs.Statement(op));
    var write := Write(Catalogs.CatalogWrite(op));
    var (outcome, q) := Meaning(ddl, p);
    assert outcome == Done && !q.tenantBroken && q.defaultBroken == p.defaultBroken;
    assert Meaning(write, q).0 == Done;
  }

  /** After a body that completes, the tenant connection is in order, and the control-plane connection broken exactly
      if that plane is lost. */
  lemma {:induction false} BodyBreaks(items: seq<Item>, p: Plain)
    requires !p.tenantBroken && Meaning(Body(items), p).0 == Done
    ensures
      var end := Meaning(Body(items), p).1;
      && !end.tenantBroken
      && (p.defaultBroken ==> AllOblivious(items) && end.defaultBroken)
      && (!p.defaultBroken ==> (end.defaultBroken <==> LosesControlPlane(items, p)))
    decreases |items|
  {
    hide ItemCommand, Oblivious, FailsWrite;
    if items != [] {
      var next := Meaning(ItemCommand(items[0]), p).1;
      ItemBreaks(items[0], p);
      BodyBreaks(items[1..], next);
      LaterLoss(items, p);
    }
  }

  /** The loss is with the first item, or with a later one. */
  lemma {:induction false} LaterLoss(items: seq<Item>, p: Plain)
    requires items != []
    ensures
      var next := Meaning(ItemCommand(items[0]), p).1;
      LosesControlPlane(items, p)
      <==> (FailsWrite(items[0], p) && AllOblivious(items[1..])) || LosesControlPlane(items[1..], next)
  {
    hide ItemCommand, Oblivious, FailsWrite, Meaning;
    var next := Meaning(ItemCommand(items[0]), p).1;
    assert StateBefore(items, p, 0) == p;
    if LosesControlPlane(items, p) {
      var i :| 0 <= i < |items| && FailsWrite(items[i], StateBefore(items, p, i)) && AllOblivious(items[i + 1..]);
      if i > 0 {
        assert items[i + 1..] == items[1..][i..];
        assert FailsWrite(items[1..][i - 1], StateBefore(items[1..], next, i - 1));
        assert items[1..][i - 1 + 1..] == items[i + 1..];
      }
    }
    if FailsWrite(items[0], p) && AllOblivious(items[1..]) {
      assert items[0 + 1..] == items[1..];
    }
    if LosesControlPlane(items[1..], next) {
      var i :| 0 <= i < |items[1..]| && FailsWrite(items[1..][i], StateBefore(items[1..], next, i))
               && AllOblivious(items[1..][i + 1..]);
      assert items[i + 1] == items[1..][i] && items[i + 1 + 1..] == items[1..][i + 1..];
      assert StateBefore(items, p, i + 1) == StateBefore(items[1..], next, i);
    }
  }

  /** A broken control-plane connection at the end: the restore returns, and only the tenant cluster and object storage
      keep what it did. */
  lemma {:induction false} BrokenEndIsRolledBack(body: Command, w: World)
    requires !w.default.broken && !w.tenant.broken
    requires Meaning(body, Visible(w)).0 == Done && !Meaning(body, Visible(w)).1.tenantBroken
    ensures
      var end := Meaning(body, Visible(w)).1;
      var (outcome, after) := Exec(Restore(body), w);
      && outcome == Done
      && Visible(after) == if end.defaultBroken then end.(default := w.default.current, defaultBroken := false) else end
  {
    hide Exec;
    SavepointsRestoreCopies(Restore(body), w);
  }

  /** Restoring any list of items: either it raises, and neither database has changed; or it returns, and the tenant
      cluster and object storage have the effect of every item in place. The control plane then has it too, unless
      some role passed its check and failed its write and everything after it was oblivious to that: then, and only
      then, the control plane is as before although the restore reports success. */
  lemma {:induction false} PackageIsRestoredWholeOrNotAtAll(items: seq<Item>, w: World)
    requires !w.default.broken && !w.tenant.broken && NoDanglingKeys(w)
    ensures
      var (outcome, after) := Exec(Restore(Body(items)), w);
      var end := Meaning(Body(items), Visible(w)).1;
      if outcome == Raised then after.default == w.default && after.tenant == w.tenant
      else
        && after.tenant.current == end.tenant && after.objects == end.objects
        && after.default.current == if LosesControlPlane(items, Visible(w)) then w.default.current else end.default
  {
    hide Exec, Meaning, Body, LosesControlPlane;
    if Exec(Restore(Body(items)), w).0 == Raised {
      RestoreIsAllOrNothing(Body(items), w);
    } else {
      ReturnedRestoreIsComplete(Body(items), w);
      BodyBreaks(items, Visible(w));
      BrokenEndIsRolledBack(Body(items), w);
    }
  }

  /** Without role assignments nothing is ever lost. */
  lemma NoRolesNoLoss(items: seq<Item>, p: Plain)
    requires forall i :: 0 <= i < |items| ==> !items[i].RoleAssignment?
    ensures !LosesControlPlane(items, p)
  {
  }
}
