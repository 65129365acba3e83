/** What each schema operation does to the two stores, and when it is refused, from stores that agree. */
module SchemaEffects {
  import opened Wrappers
  import opened SchemaCatalog

  const NO_FAULTS := Faults(false, false, false)

  /** A database is refused exactly if its name is taken; else both stores gain it and nothing else. */
  lemma DatabaseIsCreated(s: State, name: string)
    requires Agrees(s)
    ensures
      Step(s, CreateTenantDatabase(name), NO_FAULTS)
        == if name in s.catalog.databases then s
           else s.(physical := s.physical + {SchemaObject(name)},
                   catalog := s.catalog.(databases := s.catalog.databases + {name}))
  {
    assert Described(s.catalog, SchemaObject(name)) <==> SchemaObject(name) in s.physical;
    NothingStranded(s, CreateTenantDatabase(name));
  }

  /** A table is refused exactly if its database is missing or its name taken; else both stores gain it with its
      "id" column. */
  lemma TableIsCreated(s: State, t: TableRef)
    requires Agrees(s)
    ensures
      Step(s, CreateTableOp(t), NO_FAULTS)
        == if t.schema !in s.catalog.databases || t in s.catalog.tables then s
           else s.(physical := s.physical + {TableObject(t.schema, t.table), ColumnObject(t.schema, t.table, "id")},
                   catalog := s.catalog.(tables := s.catalog.tables + {t},
                                         columns := s.catalog.columns + {ColumnRef(t, "id")}))
  {
    assert TableRef(t.schema, t.table) == t;
    assert Described(s.catalog, SchemaObject(t.schema)) && Described(s.catalog, TableObject(t.schema, t.table))
      <==> SchemaObject(t.schema) in s.physical && TableObject(t.schema, t.table) in s.physical;
    NothingStranded(s, CreateTableOp(t));
  }

  /** A column is refused exactly if its table is missing, its name is taken or it is called "id"; else both stores
      gain it. */
  lemma ColumnIsAdded(s: State, c: ColumnRef)
    requires Agrees(s)
    ensures
      Step(s, AddColumnOp(c), NO_FAULTS)
        == if c.owner !in s.catalog.tables || c in s.catalog.columns || c.column == "id" then s
           else s.(physical := s.physical + {ColumnObject(c.owner.schema, c.owner.table, c.column)},
                   catalog := s.catalog.(columns := s.catalog.columns + {c}))
  {
    assert TableRef(c.owner.schema, c.owner.table) == c.owner;
    assert ColumnRef(c.owner, c.column) == c;
    assert Described(s.catalog, ColumnObject(c.owner.schema, c.owner.table, c.column)) <==> c in s.catalog.columns;
    NothingStranded(s, AddColumnOp(c));
  }

  /** A foreign key is refused exactly if its column is missing or has one already, if the referenced table is missing
      or in another database, or if the referenced column's row, or a column of that name in the referenced table, is
      missing; else both stores gain it. */
  lemma ForeignKeyIsAdded(s: State, c: ColumnRef, link: Link)
    requires Agrees(s)
    ensures
      Step(s, AddForeignKeyOp(c, link), NO_FAULTS)
        == if || c !in s.catalog.columns || c in s.catalog.links
              || link.target !in s.catalog.tables || link.target.schema != c.owner.schema
              || link.targetColumn !in s.catalog.columns
              || ColumnRef(link.target, link.targetColumn.column) !in s.catalog.columns
           then s
           else s.(physical := s.physical + {LinkObject(c.owner.schema, c.owner.table, c.column,
                                                        link.target.table, link.targetColumn.column)},
                   catalog := s.catalog.(links := s.catalog.links[c := link]))
  {
    assert TableRef(c.owner.schema, c.owner.table) == c.owner && ColumnRef(c.owner, c.column) == c;
    assert TableRef(link.target.schema, link.target.table) == link.target;
    assert Described(s.catalog, ColumnObject(c.owner.schema, c.owner.table, c.column)) <==> c in s.catalog.columns;
    forall o | o in s.physical && IsLinkOf(o, c) ensures c in s.catalog.links {
      assert Described(s.catalog, o);
    }
    NothingStranded(s, AddForeignKeyOp(c, link));
  }

  /** Deleting a table is refused exactly if there is no such table or a foreign key of another one refers to it; else
      it takes the table, its columns and its foreign keys from the tenant schema. The catalog loses the same, and the
      foreign keys of other tables that hold one of its columns. */
  lemma TableIsDeleted(s: State, t: TableRef)
    requires Agrees(s)
    ensures
      var next := Step(s, DeleteTableOp(t), NO_FAULTS);
      if t !in s.catalog.tables || exists c :: c in s.catalog.links && c.owner != t && s.catalog.links[c].target == t
      then next == s
      else
        && next.physical == (set o | o in s.physical && (o.SchemaObject? || o.schema != t.schema || o.table != t.table))
        && next.catalog == Catalog(
             s.catalog.databases, s.catalog.tables - {t}, set c | c in s.catalog.columns && c.owner != t,
             map c | c in s.catalog.links && c.owner != t && s.catalog.links[c].targetColumn.owner != t
               :: s.catalog.links[c])
        && next.leftovers == s.leftovers && next.ghosts == s.ghosts
  {
    assert TableRef(t.schema, t.table) == t;
    assert Described(s.catalog, TableObject(t.schema, t.table)) <==> t in s.catalog.tables;
    ReferencedExactly(s, t);
    if !(exists c :: c in s.catalog.links && c.owner != t && s.catalog.links[c].target == t) {
      var keep := (o: Object) => o.SchemaObject? || o.schema != t.schema || o.table != t.table;
      assert forall o: Object :: keep(o) <==> !IsTablePart(o, t);
    }
  }

  /** The tenant schema refuses to drop a table exactly where the catalog knows a foreign key of another table to it. */
  lemma ReferencedExactly(s: State, t: TableRef)
    requires Agrees(s)
    ensures (exists o :: o in s.physical && IsLinkTo(o, t) && !IsTablePart(o, t))
      <==> (exists c :: c in s.catalog.links && c.owner != t && s.catalog.links[c].target == t)
  {
    if o :| o in s.physical && IsLinkTo(o, t) && !IsTablePart(o, t) {
      var c := ColumnRef(TableRef(o.schema, o.table), o.column);
      assert Described(s.catalog, o);
      assert c in s.catalog.links && c.owner != t && s.catalog.links[c].target == t;
    }
    if c :| c in s.catalog.links && c.owner != t && s.catalog.links[c].target == t {
      var o := Constraint(c, s.catalog.links[c]);
      assert TableRef(c.owner.schema, c.owner.table) == c.owner && ColumnRef(c.owner, c.column) == c;
      assert Described(s.catalog, o);
      assert IsLinkTo(o, t) && !IsTablePart(o, t);
    }
  }

  /** Deleting a database is refused exactly if there is no such database; else it takes everything in it from the
      tenant cluster. The catalog loses the same, and the foreign keys elsewhere that hold one of its columns. */
  lemma DatabaseIsDeleted(s: State, name: string)
    requires Agrees(s)
    ensures
      var next := Step(s, DeleteTenantDatabase(name), NO_FAULTS);
      if name !in s.catalog.databases then next == s
      else
        && next.physical == (set o | o in s.physical && o.schema != name)
        && next.catalog == Catalog(
             s.catalog.databases - {name}, set t | t in s.catalog.tables && t.schema != name,
             set c | c in s.catalog.columns && c.owner.schema != name,
             map c | c in s.catalog.links && c.owner.schema != name
                     && s.catalog.links[c].targetColumn.owner.schema != name
               :: s.catalog.links[c])
        && next.leftovers == s.leftovers && next.ghosts == s.ghosts
  {
    assert Described(s.catalog, SchemaObject(name)) <==> name in s.catalog.databases;
  }

  lemma NothingStranded(s: State, op: Operation)
    requires !op.DeleteTableOp? && !op.DeleteTenantDatabase?
    ensures s.stranded + Strands(s.catalog, op) == s.stranded
  {
    assert Strands(s.catalog, op) == {};
  }

  // ---------- failures ----------

  /** Where the stores agree, the catalog accepts whatever the tenant cluster has accepted. */
  lemma WriteSucceeds(s: State, op: Operation)
    requires Agrees(s) && Allowed(s.catalog, op) && Apply(s.physical, Statement(op)).Some?
    ensures Perform(s.catalog, CatalogWrite(op)).Some?
  {
    match op
    case CreateTenantDatabase(name) => assert Described(s.catalog, SchemaObject(name)) <==> name in s.catalog.databases;
    case CreateTableOp(t) =>
      assert TableRef(t.schema, t.table) == t;
      assert Described(s.catalog, TheTable(t)) <==> t in s.catalog.tables;
    case AddColumnOp(c) =>
      assert TableRef(c.owner.schema, c.owner.table) == c.owner;
      assert Described(s.catalog, TheColumn(c)) <==> c in s.catalog.columns;
    case _ =>
  }

  /** From stores that agree, an operation whose statement fails changes nothing. A creation whose catalog write fails is
      taken back, or, if the compensation fails too, stays in the tenant schema and is counted as left over. A deletion
      whose catalog write fails has dropped its objects, and the catalog still describes them. */
  lemma FailuresLeaveExactly(s: State, op: Operation, f: Faults)
    requires Agrees(s)
    ensures f.ddl ==> Step(s, op, f) == s
    ensures !f.ddl && !f.write ==> Step(s, op, f) == Step(s, op, NO_FAULTS)
    ensures !f.ddl && f.write ==>
      var wanted := Step(s, op, NO_FAULTS).physical;
      Step(s, op, f)
        == if op.DeleteTableOp? || op.DeleteTenantDatabase? then
             s.(physical := wanted, ghosts := s.ghosts + (s.physical - wanted))
           else if f.compensation then
             s.(physical := wanted, leftovers := s.leftovers + (wanted - s.physical))
           else s
  {
    hide Apply, Described;
    if Allowed(s.catalog, op) && Apply(s.physical, Statement(op)).Some? {
      WriteSucceeds(s, op);
      if Compensation(op).Some? {
        CompensationUndoes(s.physical, op);
      }
    }
  }

  // ---------- what an operation asks for ----------

  predicate IsCreation(op: Operation) {
    !op.DeleteTableOp? && !op.DeleteTenantDatabase?
  }

  /** The objects that an operation is to create. */
  function Created(op: Operation): set<Object> {
    match op
    case CreateTenantDatabase(name) => {SchemaObject(name)}
    case CreateTableOp(t) => {TableObject(t.schema, t.table), ColumnObject(t.schema, t.table, "id")}
    case AddColumnOp(c) => {ColumnObject(c.owner.schema, c.owner.table, c.column)}
    case AddForeignKeyOp(c, link) =>
      {LinkObject(c.owner.schema, c.owner.table, c.column, link.target.table, link.targetColumn.column)}
    case _ => {}
  }

  /** The objects that an operation is to remove. */
  predicate Removed(op: Operation, o: Object) {
    match op
    case DeleteTableOp(t) => !o.SchemaObject? && o.schema == t.schema && o.table == t.table
    case DeleteTenantDatabase(name) => o.schema == name
    case _ => false
  }

  /** A statement that is not refused creates and removes exactly what is asked for. */
  lemma StatementsDoAsAsked(p: set<Object>, op: Operation)
    requires Apply(p, Statement(op)).Some?
    ensures forall o :: o in Apply(p, Statement(op)).value <==> o in Created(op) || (o in p && !Removed(op, o))
  {
  }

  /** So does a catalog write for a creation, in what the catalog then describes. */
  lemma WritesDoAsAsked(cat: Catalog, op: Operation)
    requires IsCreation(op) && Allowed(cat, op) && Perform(cat, CatalogWrite(op)).Some?
    ensures forall o ::
      Described(Perform(cat, CatalogWrite(op)).value, o) <==> Described(cat, o) || o in Created(op)
  {
    forall o
      ensures Described(Perform(cat, CatalogWrite(op)).value, o) <==> Described(cat, o) || o in Created(op)
    {
      WriteDescribes(cat, op, o);
    }
  }

  lemma WriteDescribes(cat: Catalog, op: Operation, o: Object)
    requires IsCreation(op) && Allowed(cat, op) && Perform(cat, CatalogWrite(op)).Some?
    ensures Described(Perform(cat, CatalogWrite(op)).value, o) <==> Described(cat, o) || o in Created(op)
  {
  }

  /** A creation finds what it needs and not what it creates. A foreign key finds its two columns and no other foreign
      key on its own. */
  predicate Ready(op: Operation, p: set<Object>) {
    match op
    case CreateTenantDatabase(name) => SchemaObject(name) !in p
    case CreateTableOp(t) => SchemaObject(t.schema) in p && TableObject(t.schema, t.table) !in p
    case AddColumnOp(c) =>
      && TableObject(c.owner.schema, c.owner.table) in p
      && ColumnObject(c.owner.schema, c.owner.table, c.column) !in p && c.column != "id"
    case AddForeignKeyOp(c, link) =>
      && ColumnObject(c.owner.schema, c.owner.table, c.column) in p
      && (forall o :: o in p && o.LinkObject? ==>
            o.schema != c.owner.schema || o.table != c.owner.table || o.column != c.column)
      && link.targetColumn.owner == link.target && link.target.schema == c.owner.schema
      && TableObject(link.target.schema, link.target.table) in p
      && ColumnObject(link.target.schema, link.target.table, link.targetColumn.column) in p
    case _ => false
  }

  /** Where the stores agree, a creation that is ready goes through in both, and they agree afterwards. */
  lemma ReadyCreationGoesThrough(s: State, op: Operation)
    requires Agrees(s) && Ready(op, s.physical)
    ensures Allowed(s.catalog, op) && Perform(s.catalog, CatalogWrite(op)).Some?
    ensures Apply(s.physical, Statement(op)) == Some(s.physical + Created(op))
    ensures Agrees(s.(physical := s.physical + Created(op), catalog := Perform(s.catalog, CatalogWrite(op)).value))
  {
    ReadyIsAllowed(s, op);
    WriteSucceeds(s, op);
    var p, cat := Apply(s.physical, Statement(op)).value, Perform(s.catalog, CatalogWrite(op)).value;
    ApplyKeepsInv(s.physical, Statement(op));
    PerformKeepsInv(s.catalog, op);
    StatementsDoAsAsked(s.physical, op);
    WritesDoAsAsked(s.catalog, op);
    hide PhysicalInv, CatalogInv, Apply, Perform, Allowed, Described, Created;
    assert p == s.physical + Created(op);
  }

  lemma ReadyIsAllowed(s: State, op: Operation)
    requires Agrees(s) && Ready(op, s.physical)
    ensures Allowed(s.catalog, op) && Apply(s.physical, Statement(op)).Some?
  {
    match op
    case CreateTenantDatabase(name) =>
    case CreateTableOp(t) =>
      assert Described(s.catalog, SchemaObject(t.schema));
    case AddColumnOp(c) =>
      assert TableRef(c.owner.schema, c.owner.table) == c.owner;
      assert Described(s.catalog, TableObject(c.owner.schema, c.owner.table));
    case AddForeignKeyOp(c, link) => ReadyLinkIsAllowed(s, c, link);
  }

  lemma ReadyLinkIsAllowed(s: State, c: ColumnRef, link: Link)
    requires Agrees(s) && Ready(AddForeignKeyOp(c, link), s.physical)
    ensures Allowed(s.catalog, AddForeignKeyOp(c, link)) && Apply(s.physical, Statement(AddForeignKeyOp(c, link))).Some?
  {
    var t := link.target;
    assert TableRef(c.owner.schema, c.owner.table) == c.owner && ColumnRef(c.owner, c.column) == c;
    assert TableRef(t.schema, t.table) == t && ColumnRef(t, link.targetColumn.column) == link.targetColumn;
    assert Described(s.catalog, ColumnObject(c.owner.schema, c.owner.table, c.column));
    assert Described(s.catalog, TableObject(t.schema, t.table));
    assert Described(s.catalog, ColumnObject(t.schema, t.table, link.targetColumn.column));
    if c in s.catalog.links {
      assert Described(s.catalog, Constraint(c, s.catalog.links[c]));
    }
  }
}
