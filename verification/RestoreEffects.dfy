/** What a restore that returns has done to the tenant cluster, to object storage and to the control plane. */
module RestoreEffects {
  import opened Wrappers
  import opened RestoreTransaction
  import Catalogs = SchemaCatalog
  import Effects = SchemaEffects

  // ---------- what a list of items asks for ----------

  /** The data rows, in order. */
  function DataRows(items: seq<Item>): seq<(string, seq<string>)> {
    if items == [] then []
    else (if items[0].DataRow? then [(items[0].table, items[0].values)] else []) + DataRows(items[1..])
  }

  predicate Uploads(item: Item) {
    item.FileUpload? && item.fits
  }

  /** The contents of the files that fit, by key. */
  function Contents(items: seq<Item>): map<Key, Bytes> {
    if items == [] then map[]
    else (if Uploads(items[0]) then map[items[0].key := items[0].content] else map[]) + Contents(items[1..])
  }

  /** Their keys, by file. */
  function FileKeys(items: seq<Item>): map<nat, Key> {
    if items == [] then map[]
    else (if Uploads(items[0]) then map[items[0].file := items[0].key] else map[]) + FileKeys(items[1..])
  }

  predicate Changed(item: Item, o: Catalogs.Object, present: bool) {
    if item.SchemaChange? then o in Effects.Created(item.op) || (present && !Effects.Removed(item.op, o)) else present
  }

  /** Whether a schema object is there in the end, given whether it was at first: the last item that creates or removes
      it decides. */
  predicate There(items: seq<Item>, o: Catalogs.Object, present: bool) {
    if items == [] then present else There(items[1..], o, Changed(items[0], o, present))
  }

  predicate OnlyCreates(items: seq<Item>) {
    forall i :: 0 <= i < |items| && items[i].SchemaChange? ==> Effects.IsCreation(items[i].op)
  }

  predicate AsksRow(item: Item, row: string) {
    item.CatalogRow? && item.row == row
  }

  predicate AsksRole(item: Item, row: string) {
    item.RoleAssignment? && item.row == row
  }

  // ---------- from one state to the next ----------

  ghost predicate TenantDone(items: seq<Item>, p: Plain, q: Plain) {
    && q.tenant.rows == p.tenant.rows + DataRows(items)
    && (forall o :: o in q.tenant.objects <==> There(items, o, o in p.tenant.objects))
  }

  /** No two files that fit have one key, nor is a key in use already. */
  ghost predicate StorageDone(items: seq<Item>, p: Plain, q: Plain) {
    && q.objects == p.objects + Contents(items)
    && Contents(items).Keys !! p.objects.Keys
    && (forall i :: 0 <= i < |items| && Uploads(items[i]) ==>
          items[i].key in q.objects && q.objects[items[i].key] == items[i].content)
  }

  ghost predicate FilesDone(items: seq<Item>, p: DefaultDb, q: DefaultDb) {
    && q.fileKeys == p.fileKeys + FileKeys(items)
    && FileKeys(items).Keys !! p.fileKeys.Keys
    && (forall i :: 0 <= i < |items| && Uploads(items[i]) ==>
          items[i].file in q.fileKeys && q.fileKeys[items[i].file] == items[i].key)
  }

  /** All rows asked for are there, and besides those that were, no others but roles; a role whose check cannot fail is
      there. */
  ghost predicate RowsDone(items: seq<Item>, p: DefaultDb, q: DefaultDb) {
    && p.rows <= q.rows
    && (forall i :: 0 <= i < |items| && items[i].CatalogRow? ==> items[i].row in q.rows)
    && (forall i :: 0 <= i < |items| && items[i].RoleAssignment? && (forall d :: items[i].valid(d)) ==> items[i].row in q.rows)
    && (forall row :: row in q.rows ==>
          row in p.rows || exists i :: 0 <= i < |items| && (AsksRow(items[i], row) || AsksRole(items[i], row)))
  }

  ghost predicate CatalogDone(items: seq<Item>, p: DefaultDb, q: DefaultDb) {
    OnlyCreates(items) ==>
      forall o :: Catalogs.Described(q.catalog, o) <==> There(items, o, Catalogs.Described(p.catalog, o))
  }

  ghost predicate DefaultDone(items: seq<Item>, p: DefaultDb, q: DefaultDb) {
    FilesDone(items, p, q) && RowsDone(items, p, q) && CatalogDone(items, p, q)
  }

  // ---------- one item ----------

  lemma Singles(item: Item)
    ensures DataRows([item]) == if item.DataRow? then [(item.table, item.values)] else []
    ensures Contents([item]) == if Uploads(item) then map[item.key := item.content] else map[]
    ensures FileKeys([item]) == if Uploads(item) then map[item.file := item.key] else map[]
    ensures forall o, present :: There([item], o, present) <==> Changed(item, o, present)
  {
    assert [item][1..] == [];
  }

  /** One DDL statement in a block of its own: its effect, or none. */
  lemma {:induction false} DdlMeans(ddl: Catalogs.Ddl, p: Plain)
    requires !p.tenantBroken
    ensures
      var (outcome, q) := Meaning(Ddl(ddl), p);
      var goes := (p.faults == [] || !p.faults[0]) && Catalogs.Apply(p.tenant.objects, ddl).Some?;
      && (outcome == Done <==> goes)
      && q == p.(faults := q.faults, tenant := if goes
           then p.tenant.(objects := Catalogs.Apply(p.tenant.objects, ddl).value) else p.tenant)
      && (p.faults == [] ==> q.faults == [])
  {
    hide Catalogs.Apply;
  }

  lemma {:induction false} WriteMeans(write: Catalogs.Write, p: Plain)
    ensures
      var (outcome, q) := Meaning(Write(write), p);
      var goes := !p.defaultBroken && (p.faults == [] || !p.faults[0]) && Catalogs.Perform(p.default.catalog, write).Some?;
      && (outcome == Done <==> goes)
      && q == p.(faults := q.faults, default := if goes
           then p.default.(catalog := Catalogs.Perform(p.default.catalog, write).value) else p.default)
      && (p.faults == [] ==> q.faults == [])
  {
    hide Catalogs.Perform;
  }

  /** A schema change that goes through has been allowed, applied and written. */
  lemma {:induction false} ChangeMeans(op: Catalogs.Operation, p: Plain)
    requires !p.tenantBroken
    ensures
      var (outcome, q) := Meaning(ItemCommand(SchemaChange(op)), p);
      var (applied, m) := Meaning(Ddl(Catalogs.Statement(op)), p);
      var (written, r) := Meaning(Write(Catalogs.CatalogWrite(op)), m);
      && (outcome == Done <==> Catalogs.Allowed(p.default.catalog, op) && applied == Done && written == Done)
      && (outcome == Done ==> q == r)
  {
    hide Ddl, Write, Catalogs.Allowed, Catalogs.Compensation;
    var ddl, write := Ddl(Catalogs.Statement(op)), Write(Catalogs.CatalogWrite(op));
    var compensation := Catalogs.Compensation(op);
    var saved := Compensated(write, if compensation.Some? then Ddl(compensation.value) else Skip);
    var check := Check((d: DefaultDb, t: TenantDb) => Catalogs.Allowed(d.catalog, op));
    assert ItemCommand(SchemaChange(op)) == Seq(check, Seq(ddl, saved));
    assert Meaning(check, p) == (if Catalogs.Allowed(p.default.catalog, op) then Done else Raised, p);
    var (applied, m) := Meaning(ddl, p);
    assert Meaning(saved, m).0 == Meaning(write, m).0;
    assert Meaning(write, m).0 == Done ==> Meaning(saved, m) == Meaning(write, m);
    assert Meaning(Seq(ddl, saved), p) == if applied == Raised then (applied, m) else Meaning(saved, m);
  }

  lemma {:induction false} ChangeDone(op: Catalogs.Operation, p: Plain)
    requires !p.tenantBroken && Meaning(ItemCommand(SchemaChange(op)), p).0 == Done
    ensures
      var q := Meaning(ItemCommand(SchemaChange(op)), p).1;
      && Catalogs.Allowed(p.default.catalog, op)
      && Catalogs.Apply(p.tenant.objects, Catalogs.Statement(op)).Some?
      && Catalogs.Perform(p.default.catalog, Catalogs.CatalogWrite(op)).Some?
      && q.tenant == p.tenant.(objects := Catalogs.Apply(p.tenant.objects, Catalogs.Statement(op)).value)
      && q.default == p.default.(catalog := Catalogs.Perform(p.default.catalog, Catalogs.CatalogWrite(op)).value)
      && q.objects == p.objects
  {
    ChangeMeans(op, p);
    DdlMeans(Catalogs.Statement(op), p);
    WriteMeans(Catalogs.CatalogWrite(op), Meaning(Ddl(Catalogs.Statement(op)), p).1);
    hide Meaning, ItemCommand, Catalogs.Apply, Catalogs.Perform, Catalogs.Allowed, Catalogs.Statement,
      Catalogs.CatalogWrite;
  }

  lemma {:induction false} SchemaChangeDone(item: Item, p: Plain)
    requires item.SchemaChange? && !p.tenantBroken && Meaning(ItemCommand(item), p).0 == Done
    ensures
      var q := Meaning(ItemCommand(item), p).1;
      && TenantDone([item], p, q) && StorageDone([item], p, q) && DefaultDone([item], p.default, q.default)
  {
    var op := item.op;
    Singles(item);
    ChangeDone(op, p);
    Effects.StatementsDoAsAsked(p.tenant.objects, op);
    if Effects.IsCreation(op) {
      Effects.WritesDoAsAsked(p.default.catalog, op);
      NothingRemoved(op);
    } else {
      assert !OnlyCreates([item]) by { assert [item][0].SchemaChange?; }
    }
    hide Meaning, ItemCommand, Catalogs.Apply, Catalogs.Perform, Catalogs.Allowed, Catalogs.Described, Effects.Created,
      Effects.Removed, Effects.IsCreation, There, Contents, FileKeys;
  }

  lemma {:induction false} DataRowDone(item: Item, p: Plain)
    requires item.DataRow? && Meaning(ItemCommand(item), p).0 == Done
    ensures
      var q := Meaning(ItemCommand(item), p).1;
      q == p.(tenant := p.tenant.(rows := p.tenant.rows + [(item.table, item.values)]), tenantBroken := q.tenantBroken,
              faults := q.faults)
  {
  }

  lemma {:induction false} CatalogRowDone(item: Item, p: Plain)
    requires item.CatalogRow? && Meaning(ItemCommand(item), p).0 == Done
    ensures
      var q := Meaning(ItemCommand(item), p).1;
      q == p.(default := p.default.(rows := p.default.rows + {item.row}), defaultBroken := q.defaultBroken,
              faults := q.faults)
  {
  }

  lemma {:induction false} FileUploadDone(item: Item, p: Plain)
    requires item.FileUpload? && Meaning(ItemCommand(item), p).0 == Done
    ensures
      var q := Meaning(ItemCommand(item), p).1;
      if !item.fits then q == p
      else
        && item.key !in p.objects && item.file !in p.default.fileKeys
        && q == p.(objects := p.objects[item.key := item.content],
                   default := p.default.(fileKeys := p.default.fileKeys[item.file := item.key]),
                   defaultBroken := q.defaultBroken, faults := q.faults)
  {
  }

  lemma {:induction false} RoleDone(item: Item, p: Plain)
    requires item.RoleAssignment?
    ensures
      var q := Meaning(ItemCommand(item), p).1;
      && q == p.(default := q.default, defaultBroken := q.defaultBroken, faults := q.faults)
      && q.default == p.default.(rows := q.default.rows)
      && (!q.defaultBroken ==>
            q.default.rows == if item.valid(p.default) then p.default.rows + {item.row} else p.default.rows)
  {
    RoleBreaks(item, p);
  }

  lemma {:induction false} RowsGrow(item: Item, p: DefaultDb, q: DefaultDb)
    requires item.CatalogRow? ==> q.rows == p.rows + {item.row}
    requires item.RoleAssignment? ==> q.rows == if item.valid(p) then p.rows + {item.row} else p.rows
    requires !item.CatalogRow? && !item.RoleAssignment? ==> q.rows == p.rows
    ensures RowsDone([item], p, q)
  {
    if item.CatalogRow? {
      assert AsksRow([item][0], item.row);
    }
    if item.RoleAssignment? {
      assert AsksRole([item][0], item.row);
    }
  }

  lemma FilesGrow(item: Item, p: Plain, q: Plain)
    requires Uploads(item) ==> item.key !in p.objects && item.file !in p.default.fileKeys
    requires q.objects == if Uploads(item) then p.objects[item.key := item.content] else p.objects
    requires q.default.fileKeys
      == if Uploads(item) then p.default.fileKeys[item.file := item.key] else p.default.fileKeys
    ensures StorageDone([item], p, q) && FilesDone([item], p.default, q.default)
  {
    Singles(item);
    hide Contents, FileKeys;
  }

  lemma {:induction false} ItemDone(item: Item, p: Plain)
    requires !p.tenantBroken && Meaning(ItemCommand(item), p).0 == Done
    ensures
      var q := Meaning(ItemCommand(item), p).1;
      && TenantDone([item], p, q) && StorageDone([item], p, q)
      && (!q.defaultBroken ==> DefaultDone([item], p.default, q.default))
  {
    if item.SchemaChange? {
      SchemaChangeDone(item, p);
    } else {
      OtherItemDone(item, p);
    }
    hide *;
  }

  lemma {:induction false} OtherItemDone(item: Item, p: Plain)
    requires !item.SchemaChange? && Meaning(ItemCommand(item), p).0 == Done
    ensures
      var q := Meaning(ItemCommand(item), p).1;
      && TenantDone([item], p, q) && StorageDone([item], p, q)
      && (!q.defaultBroken ==> DefaultDone([item], p.default, q.default))
  {
    Singles(item);
    hide Meaning, ItemCommand, StorageDone, FilesDone, RowsDone, Contents, FileKeys, DataRows, There, Catalogs.Described;
    var q := Meaning(ItemCommand(item), p).1;
    match item {
      case DataRow(_, _, _) => DataRowDone(item, p);
      case CatalogRow(_, _) => CatalogRowDone(item, p);
      case FileUpload(_, _, _, _, _) => FileUploadDone(item, p);
      case RoleAssignment(_, _, _) => RoleDone(item, p);
    }
    FilesGrow(item, p, q);
    if !q.defaultBroken {
      RowsGrow(item, p.default, q.default);
    }
  }

  lemma NothingRemoved(op: Catalogs.Operation)
    requires Effects.IsCreation(op)
    ensures forall o :: !Effects.Removed(op, o)
  {
  }

  // ---------- one after the other ----------

  lemma TenantThen(items: seq<Item>, p: Plain, m: Plain, q: Plain)
    requires items != [] && TenantDone([items[0]], p, m) && TenantDone(items[1..], m, q)
    ensures TenantDone(items, p, q)
  {
    Singles(items[0]);
  }

  lemma {:induction false} StorageThen(items: seq<Item>, p: Plain, m: Plain, q: Plain)
    requires items != [] && StorageDone([items[0]], p, m) && StorageDone(items[1..], m, q)
    ensures StorageDone(items, p, q)
  {
    Singles(items[0]);
    hide Contents;
    assert Contents(items) == Contents([items[0]]) + Contents(items[1..]) by { ContentsSplit(items); }
    forall i | 0 <= i < |items| && Uploads(items[i])
      ensures items[i].key in q.objects && q.objects[items[i].key] == items[i].content
    {
      if i == 0 {
        assert Uploads([items[0]][0]);
        assert items[0].key in m.objects;
      } else {
        assert items[1..][i - 1] == items[i];
      }
    }
  }

  lemma {:induction false} ContentsSplit(items: seq<Item>)
    requires items != []
    ensures Contents(items) == Contents([items[0]]) + Contents(items[1..])
    ensures FileKeys(items) == FileKeys([items[0]]) + FileKeys(items[1..])
  {
    Singles(items[0]);
  }

  lemma {:induction false} FilesThen(items: seq<Item>, p: DefaultDb, m: DefaultDb, q: DefaultDb)
    requires items != [] && FilesDone([items[0]], p, m) && FilesDone(items[1..], m, q)
    ensures FilesDone(items, p, q)
  {
    ContentsSplit(items);
    FilesOfBoth(items, p, m, q);
    hide FileKeys, Uploads;
    assert (p.fileKeys + FileKeys([items[0]])) + FileKeys(items[1..]) == p.fileKeys + FileKeys(items);
  }

  lemma {:induction false} FilesOfBoth(items: seq<Item>, p: DefaultDb, m: DefaultDb, q: DefaultDb)
    requires items != [] && FilesDone([items[0]], p, m) && FilesDone(items[1..], m, q)
    ensures forall i :: 0 <= i < |items| && Uploads(items[i]) ==>
      items[i].file in q.fileKeys && q.fileKeys[items[i].file] == items[i].key
  {
    hide FileKeys;
    forall i | 0 <= i < |items| && Uploads(items[i])
      ensures items[i].file in q.fileKeys && q.fileKeys[items[i].file] == items[i].key
    {
      if i == 0 {
        assert Uploads([items[0]][0]);
        assert items[0].file in m.fileKeys;
      } else {
        assert items[1..][i - 1] == items[i];
      }
    }
  }

  lemma {:induction false} RowsThen(items: seq<Item>, p: DefaultDb, m: DefaultDb, q: DefaultDb)
    requires items != [] && RowsDone([items[0]], p, m) && RowsDone(items[1..], m, q)
    ensures RowsDone(items, p, q)
  {
    assert items == [items[0]] + items[1..];
    forall i | 0 <= i < |items| ensures items[i] == if i == 0 then [items[0]][0] else items[1..][i - 1] {}
    forall row | row in q.rows && row !in p.rows
      ensures exists i :: 0 <= i < |items| && (AsksRow(items[i], row) || AsksRole(items[i], row))
    {
      if row in m.rows {
        assert AsksRow(items[0], row) || AsksRole(items[0], row);
      } else {
        var i :| 0 <= i < |items[1..]| && (AsksRow(items[1..][i], row) || AsksRole(items[1..][i], row));
        assert AsksRow(items[i + 1], row) || AsksRole(items[i + 1], row);
      }
    }
  }

  lemma {:induction false} CatalogThen(items: seq<Item>, p: DefaultDb, m: DefaultDb, q: DefaultDb)
    requires items != [] && CatalogDone([items[0]], p, m) && CatalogDone(items[1..], m, q)
    ensures CatalogDone(items, p, q)
  {
    Singles(items[0]);
    hide Catalogs.Described;
    if OnlyCreates(items) {
      assert OnlyCreates([items[0]]);
      forall i | 0 <= i < |items[1..]| && items[1..][i].SchemaChange? ensures Effects.IsCreation(items[1..][i].op) {
        assert items[i + 1] == items[1..][i];
      }
    }
  }

  lemma {:induction false} BodyDone(items: seq<Item>, p: Plain)
    requires !p.tenantBroken && Meaning(Body(items), p).0 == Done
    ensures
      var q := Meaning(Body(items), p).1;
      && TenantDone(items, p, q) && StorageDone(items, p, q)
      && (!q.defaultBroken ==> DefaultDone(items, p.default, q.default))
    decreases |items|
  {
    hide ItemCommand, TenantDone, StorageDone, FilesDone, RowsDone, CatalogDone;
    if items == [] {
      NothingDone(p);
    } else {
      var m, q := Meaning(ItemCommand(items[0]), p).1, Meaning(Body(items), p).1;
      ItemDone(items[0], p);
      ItemBreaks(items[0], p);
      BodyDone(items[1..], m);
      BodyBreaks(items[1..], m);
      TenantThen(items, p, m, q);
      StorageThen(items, p, m, q);
      if !q.defaultBroken {
        FilesThen(items, p.default, m.default, q.default);
        RowsThen(items, p.default, m.default, q.default);
        CatalogThen(items, p.default, m.default, q.default);
      }
    }
  }

  lemma NothingDone(p: Plain)
    ensures TenantDone([], p, p) && StorageDone([], p, p) && DefaultDone([], p.default, p.default)
  {
  }

  // ---------- a restore that returns ----------

  /** A restore that returns has added exactly the data rows of its items, in order, to the tenant cluster, and each
      schema object is there or gone as the items ask. Object storage has gained exactly the contents of the files that
      fit, each under its own new key. Unless the control plane is lost, it has gained exactly the keys of those files,
      all rows asked for, and a description of every object created; if it is lost it is as before. Either way every
      key that a file row holds is stored. */
  lemma {:induction false} ReturnedRestoreDidAsAsked(items: seq<Item>, w: World)
    requires !w.default.broken && !w.tenant.broken && NoDanglingKeys(w)
    requires Exec(Restore(Body(items)), w).0 == Done
    ensures
      var after := Exec(Restore(Body(items)), w).1;
      && after.tenant.current.rows == w.tenant.current.rows + DataRows(items)
      && (forall o :: o in after.tenant.current.objects <==> There(items, o, o in w.tenant.current.objects))
      && after.objects == w.objects + Contents(items)
      && (forall i :: 0 <= i < |items| && Uploads(items[i]) ==>
            items[i].key !in w.objects
            && items[i].key in after.objects && after.objects[items[i].key] == items[i].content)
      && NoDanglingKeys(after)
      && if LosesControlPlane(items, Visible(w)) then after.default.current == w.default.current
         else DefaultDone(items, w.default.current, after.default.current)
  {
    hide Exec, Meaning, Body, LosesControlPlane, NoDanglingKeys, There, DefaultDone;
    PackageIsRestoredWholeOrNotAtAll(items, w);
    ReturnedRestoreIsComplete(Body(items), w);
    BodyBreaks(items, Visible(w));
    BodyDone(items, Visible(w));
    var after := Exec(Restore(Body(items)), w).1;
    UploadedKeysAreNew(items);
    KeysStayStored(items, w, after);
  }

  lemma {:induction false} UploadedKeysAreNew(items: seq<Item>)
    ensures forall i :: 0 <= i < |items| && Uploads(items[i]) ==> items[i].key in Contents(items)
    ensures forall f :: f in FileKeys(items) ==> FileKeys(items)[f] in Contents(items)
    decreases |items|
  {
    if items != [] {
      UploadedKeysAreNew(items[1..]);
      forall i | 0 <= i < |items| && Uploads(items[i]) ensures items[i].key in Contents(items) {
        if i > 0 {
          assert items[1..][i - 1] == items[i];
        }
      }
    }
  }

  lemma {:induction false} KeysStayStored(items: seq<Item>, w: World, after: World)
    requires NoDanglingKeys(w) && after.objects == w.objects + Contents(items)
    requires after.default.current == w.default.current || DefaultDone(items, w.default.current, after.default.current)
    ensures NoDanglingKeys(after)
  {
    UploadedKeysAreNew(items);
    hide Contents, FileKeys, RowsDone, CatalogDone;
  }

  // ---------- a restore that has to return ----------

  /** Nothing stands in the way of the items, one after the other: each statement would be accepted, each key and file is
      new, and each creation finds what it needs and not what it creates. */
  ghost predicate Feasible(items: seq<Item>, p: set<Catalogs.Object>, keys: set<Key>, files: set<nat>)
    decreases |items|
  {
    items != [] ==>
      match items[0]
      case CatalogRow(_, accepted) => (forall d :: accepted(d)) && Feasible(items[1..], p, keys, files)
      case DataRow(_, _, admitted) => (forall t :: admitted(t)) && Feasible(items[1..], p, keys, files)
      case RoleAssignment(_, valid, accepted) =>
        (forall d :: valid(d) ==> accepted(d)) && Feasible(items[1..], p, keys, files)
      case SchemaChange(op) => Effects.Ready(op, p) && Feasible(items[1..], p + Effects.Created(op), keys, files)
      case FileUpload(fits, key, _, file, nameFree) =>
        if !fits then Feasible(items[1..], p, keys, files)
        else key !in keys && file !in files && (forall d :: nameFree(d))
             && Feasible(items[1..], p, keys + {key}, files + {file})
  }

  ghost predicate InOrder(p: Plain) {
    && !p.defaultBroken && !p.tenantBroken && p.faults == []
    && Catalogs.Agrees(Catalogs.State(p.tenant.objects, p.default.catalog, {}, {}, {}))
  }

  lemma {:induction false} ReadyChangeGoesThrough(op: Catalogs.Operation, p: Plain)
    requires InOrder(p) && Effects.Ready(op, p.tenant.objects)
    ensures
      var (outcome, q) := Meaning(ItemCommand(SchemaChange(op)), p);
      && outcome == Done && InOrder(q) && q.tenant.objects == p.tenant.objects + Effects.Created(op)
      && q.objects == p.objects && q.default.fileKeys == p.default.fileKeys
  {
    Effects.ReadyCreationGoesThrough(Catalogs.State(p.tenant.objects, p.default.catalog, {}, {}, {}), op);
    ChangeMeans(op, p);
    DdlMeans(Catalogs.Statement(op), p);
    WriteMeans(Catalogs.CatalogWrite(op), Meaning(Ddl(Catalogs.Statement(op)), p).1);
    hide Meaning, ItemCommand, Catalogs.Apply, Catalogs.Perform, Catalogs.Allowed, Catalogs.Statement,
      Catalogs.CatalogWrite, Catalogs.Agrees, Effects.Ready, Effects.Created;
  }

  lemma {:induction false} OtherItemGoesThrough(item: Item, p: Plain)
    requires InOrder(p) && !item.SchemaChange?
    requires Feasible([item], p.tenant.objects, p.objects.Keys, p.default.fileKeys.Keys)
    ensures
      var (outcome, q) := Meaning(ItemCommand(item), p);
      && outcome == Done && InOrder(q) && q.tenant.objects == p.tenant.objects
      && q.objects.Keys == p.objects.Keys + (if Uploads(item) then {item.key} else {})
      && q.default.fileKeys.Keys == p.default.fileKeys.Keys + (if Uploads(item) then {item.file} else {})
  {
    hide Catalogs.Agrees;
    if item.RoleAssignment? {
      RoleBreaks(item, p);
    }
  }

  lemma {:induction false} FirstIsFeasible(items: seq<Item>, p: set<Catalogs.Object>, keys: set<Key>, files: set<nat>)
    requires items != [] && Feasible(items, p, keys, files) && !items[0].SchemaChange?
    ensures Feasible([items[0]], p, keys, files)
    ensures Feasible(items[1..], p, keys + (if Uploads(items[0]) then {items[0].key} else {}),
                     files + (if Uploads(items[0]) then {items[0].file} else {}))
  {
    assert [items[0]][1..] == [];
    assert keys + {} == keys && files + {} == files;
  }

  lemma {:induction false} FeasibleBodyGoesThrough(items: seq<Item>, p: Plain)
    requires InOrder(p) && Feasible(items, p.tenant.objects, p.objects.Keys, p.default.fileKeys.Keys)
    ensures Meaning(Body(items), p).0 == Done && InOrder(Meaning(Body(items), p).1)
    decreases |items|
  {
    hide ItemCommand, InOrder, Effects.Ready, Effects.Created;
    if items != [] {
      var q := Meaning(ItemCommand(items[0]), p).1;
      if items[0].SchemaChange? {
        ReadyChangeGoesThrough(items[0].op, p);
      } else {
        FirstIsFeasible(items, p.tenant.objects, p.objects.Keys, p.default.fileKeys.Keys);
        OtherItemGoesThrough(items[0], p);
      }
      FeasibleBodyGoesThrough(items[1..], q);
    }
  }

  /** Where the catalog describes the tenant schemas and nothing fails, a restore of feasible items returns, loses nothing,
      and leaves a catalog that describes the schemas. */
  lemma {:induction false} FeasibleRestoreReturns(items: seq<Item>, w: World)
    requires !w.default.broken && !w.tenant.broken && w.faults == []
    requires Catalogs.Agrees(Catalogs.State(w.tenant.current.objects, w.default.current.catalog, {}, {}, {}))
    requires Feasible(items, w.tenant.current.objects, w.objects.Keys, w.default.current.fileKeys.Keys)
    ensures
      var (outcome, after) := Exec(Restore(Body(items)), w);
      && outcome == Done && !LosesControlPlane(items, Visible(w))
      && Catalogs.Agrees(Catalogs.State(after.tenant.current.objects, after.default.current.catalog, {}, {}, {}))
  {
    hide Exec, Meaning, Body, LosesControlPlane, Feasible, Catalogs.Agrees;
    FeasibleBodyGoesThrough(items, Visible(w));
    BodyBreaks(items, Visible(w));
    BrokenEndIsRolledBack(Body(items), w);
  }
}
