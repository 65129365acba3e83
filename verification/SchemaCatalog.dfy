/**
 Tenant schemas and the catalog that describes them.  Every schema change commits a DDL statement first
 and writes the catalog second; a failed write after a creation is answered by a compensating drop.
 */
module SchemaCatalog {
  import opened Wrappers

  /** What can exist in the tenant cluster.  A link is a foreign key, known by its column and by the names
      of the table and column it references. */
  datatype Object =
    | SchemaObject(schema: string)
    | TableObject(schema: string, table: string)
    | ColumnObject(schema: string, table: string, column: string)
    | LinkObject(schema: string, table: string, column: string, refTable: string, refColumn: string)

  datatype TableRef = TableRef(schema: string, table: string)

  datatype ColumnRef = ColumnRef(owner: TableRef, column: string)

  /** A foreign-key row holds the referenced table and the referenced column separately. */
  datatype Link = Link(target: TableRef, targetColumn: ColumnRef)

  datatype Catalog = Catalog(
    databases: set<string>,
    tables: set<TableRef>,
    columns: set<ColumnRef>,
    links: map<ColumnRef, Link>)

  // ---------- DDL ----------

  datatype Ddl =
    | CreateSchema(s: string)
    | DropSchema(s: string)
    | CreateTable(t: TableRef)
    | DropTable(t: TableRef)
    | AddColumn(c: ColumnRef)
    | DropColumn(c: ColumnRef)
    | AddConstraint(c: ColumnRef, refTable: string, refColumn: string)
    | DropConstraint(c: ColumnRef)

  predicate IsTablePart(o: Object, t: TableRef) {
    !o.SchemaObject? && o.schema == t.schema && o.table == t.table
  }

  predicate IsLinkOf(o: Object, c: ColumnRef) {
    o.LinkObject? && o.schema == c.owner.schema && o.table == c.owner.table && o.column == c.column
  }

  predicate IsLinkTo(o: Object, t: TableRef) {
    o.LinkObject? && o.schema == t.schema && o.refTable == t.table
  }

  function TheTable(t: TableRef): Object {
    TableObject(t.schema, t.table)
  }

  function TheColumn(c: ColumnRef): Object {
    ColumnObject(c.owner.schema, c.owner.table, c.column)
  }

  /** The effect of one statement, or None where PostgreSQL refuses it for lack or excess of objects. */
  function Apply(p: set<Object>, ddl: Ddl): Option<set<Object>> {
    match ddl
    case CreateSchema(s) => if SchemaObject(s) in p then None else Some(p + {SchemaObject(s)})
    case DropSchema(s) => if SchemaObject(s) in p then Some(set o | o in p && o.schema != s) else None
    case CreateTable(t) =>
      if SchemaObject(t.schema) !in p || TheTable(t) in p then None
      else Some(p + {TheTable(t), TheColumn(ColumnRef(t, "id"))})
    case DropTable(t) =>
      if TheTable(t) !in p || exists o :: o in p && IsLinkTo(o, t) && !IsTablePart(o, t) then None
      else Some(set o | o in p && !IsTablePart(o, t))
    case AddColumn(c) =>
      if TheTable(c.owner) !in p || TheColumn(c) in p then None else Some(p + {TheColumn(c)})
    case DropColumn(c) =>
      if TheColumn(c) !in p || exists o :: o in p && IsLinkTo(o, c.owner) && o.refColumn == c.column then None
      else Some(set o | o in p && o != TheColumn(c) && !IsLinkOf(o, c))
    case AddConstraint(c, rt, rc) =>
      if TheColumn(c) !in p || ColumnObject(c.owner.schema, rt, rc) !in p || exists o :: o in p && IsLinkOf(o, c)
      then None
      else Some(p + {LinkObject(c.owner.schema, c.owner.table, c.column, rt, rc)})
    case DropConstraint(c) =>
      if exists o :: o in p && IsLinkOf(o, c) then Some(set o | o in p && !IsLinkOf(o, c)) else None
  }

  // ---------- catalog writes ----------

  datatype Write =
    | InsertDatabase(s: string)
    | InsertTable(t: TableRef)
    | InsertColumn(c: ColumnRef)
    | InsertLink(c: ColumnRef, link: Link)
    | DeleteTableRow(t: TableRef)
    | DeleteDatabaseRow(s: string)

  /** The effect of one catalog transaction, or None on a uniqueness or reference violation.  Deletions
      cascade along every reference between catalog rows. */
  function Perform(cat: Catalog, w: Write): Option<Catalog> {
    match w
    case InsertDatabase(s) =>
      if s in cat.databases then None else Some(cat.(databases := cat.databases + {s}))
    case InsertTable(t) =>
      if t in cat.tables || t.schema !in cat.databases then None
      else Some(cat.(tables := cat.tables + {t}, columns := cat.columns + {ColumnRef(t, "id")}))
    case InsertColumn(c) =>
      if c in cat.columns || c.owner !in cat.tables then None else Some(cat.(columns := cat.columns + {c}))
    case InsertLink(c, link) =>
      if c in cat.links || c !in cat.columns || link.target !in cat.tables || link.targetColumn !in cat.columns then None
      else Some(cat.(links := cat.links[c := link]))
    case DeleteTableRow(t) =>
      Some(Catalog(
        cat.databases,
        cat.tables - {t},
        set c | c in cat.columns && c.owner != t,
        map c | c in cat.links && c.owner != t && cat.links[c].target != t && cat.links[c].targetColumn.owner != t
          :: cat.links[c]))
    case DeleteDatabaseRow(s) =>
      Some(Catalog(
        cat.databases - {s},
        set t | t in cat.tables && t.schema != s,
        set c | c in cat.columns && c.owner.schema != s,
        map c | c in cat.links && c.owner.schema != s && cat.links[c].target.schema != s
                && cat.links[c].targetColumn.owner.schema != s
          :: cat.links[c]))
  }

  /** Whether the catalog describes an object. */
  predicate Described(cat: Catalog, o: Object) {
    match o
    case SchemaObject(s) => s in cat.databases
    case TableObject(s, t) => TableRef(s, t) in cat.tables
    case ColumnObject(s, t, c) => ColumnRef(TableRef(s, t), c) in cat.columns
    case LinkObject(s, t, c, rt, rc) =>
      var key := ColumnRef(TableRef(s, t), c);
      key in cat.links && cat.links[key].target == TableRef(s, rt) && cat.links[key].targetColumn.column == rc
  }

  // ---------- operations ----------

  datatype Operation =
    | CreateTenantDatabase(s: string)
    | CreateTableOp(t: TableRef)
    | AddColumnOp(c: ColumnRef)
    | AddForeignKeyOp(c: ColumnRef, link: Link)
    | DeleteTableOp(t: TableRef)
    | DeleteTenantDatabase(s: string)

  /** The service's own checks on the catalog rows it was given. */
  predicate Allowed(cat: Catalog, op: Operation) {
    match op
    case CreateTenantDatabase(_) => true
    case CreateTableOp(t) => t.schema in cat.databases
    case AddColumnOp(c) => c.owner in cat.tables && c.column != "id"
    case AddForeignKeyOp(c, link) =>
      && c in cat.columns && c !in cat.links
      && link.target in cat.tables && link.target.schema == c.owner.schema
      && link.targetColumn in cat.columns
    case DeleteTableOp(t) => t in cat.tables
    case DeleteTenantDatabase(s) => s in cat.databases
  }

  function Statement(op: Operation): Ddl {
    match op
    case CreateTenantDatabase(s) => CreateSchema(s)
    case CreateTableOp(t) => CreateTable(t)
    case AddColumnOp(c) => AddColumn(c)
    case AddForeignKeyOp(c, link) => AddConstraint(c, link.target.table, link.targetColumn.column)
    case DeleteTableOp(t) => DropTable(t)
    case DeleteTenantDatabase(s) => DropSchema(s)
  }

  function CatalogWrite(op: Operation): Write {
    match op
    case CreateTenantDatabase(s) => InsertDatabase(s)
    case CreateTableOp(t) => InsertTable(t)
    case AddColumnOp(c) => InsertColumn(c)
    case AddForeignKeyOp(c, link) => InsertLink(c, link)
    case DeleteTableOp(t) => DeleteTableRow(t)
    case DeleteTenantDatabase(s) => DeleteDatabaseRow(s)
  }

  /** The compensating statement; deletions have none. */
  function Compensation(op: Operation): Option<Ddl> {
    match op
    case CreateTenantDatabase(s) => Some(DropSchema(s))
    case CreateTableOp(t) => Some(DropTable(t))
    case AddColumnOp(c) => Some(DropColumn(c))
    case AddForeignKeyOp(c, _) => Some(DropConstraint(c))
    case _ => None
  }

  /** Which of the steps fail for a reason outside the model: a lost connection, a type PostgreSQL does not
      accept, a uniqueness rule on a display name. */
  datatype Faults = Faults(ddl: bool, write: bool, compensation: bool)

  /** Both stores, the objects left behind by failed compensations, the objects dropped without their catalog
      rows, and the constraints whose catalog rows went with a column that they do not belong to. */
  datatype State = State(
    physical: set<Object>, catalog: Catalog, leftovers: set<Object>, ghosts: set<Object>, stranded: set<Object>)

  const EMPTY := State({}, Catalog({}, {}, {}, map[]), {}, {}, {})

  /** A foreign key whose catalog row holds a column of what is deleted, although its own table and its referenced
      table stay. add_foreign_key never compares the referenced column's table with the referenced table, nor its
      database with the table's. */
  predicate Astray(cat: Catalog, c: ColumnRef, op: Operation) {
    c in cat.links &&
    match op
    case DeleteTableOp(t) => c.owner != t && cat.links[c].target != t && cat.links[c].targetColumn.owner == t
    case DeleteTenantDatabase(s) => c.owner.schema != s && cat.links[c].targetColumn.owner.schema == s
    case _ => false
  }

  /** The constraint that a foreign-key row stands for. */
  function Constraint(c: ColumnRef, link: Link): Object {
    LinkObject(c.owner.schema, c.owner.table, c.column, link.target.table, link.targetColumn.column)
  }

  function Strands(cat: Catalog, op: Operation): set<Object> {
    set c | c in cat.links && Astray(cat, c, op) :: Constraint(c, cat.links[c])
  }

  function Step(s: State, op: Operation, f: Faults): State {
    if !Allowed(s.catalog, op) then s
    else
      match if f.ddl then None else Apply(s.physical, Statement(op))
      case None => s
      case Some(p) =>
        match if f.write then None else Perform(s.catalog, CatalogWrite(op))
        case Some(cat) => s.(physical := p, catalog := cat, stranded := s.stranded + Strands(s.catalog, op))
        case None =>
          if Compensation(op).None? then s.(physical := p, ghosts := s.ghosts + (s.physical - p))
          else
            match if f.compensation then None else Apply(p, Compensation(op).value)
            case Some(q) => s.(physical := q)
            case None => s.(physical := p, leftovers := s.leftovers + (p - s.physical))
  }

  function Run(s: State, calls: seq<(Operation, Faults)>): State
    decreases |calls|
  {
    if calls == [] then s
    else
      var last := calls[|calls| - 1];
      Step(Run(s, calls[..|calls| - 1]), last.0, last.1)
  }

  // ---------- invariants of each store ----------

  /** Every object lies in existing ones, and a column carries at most one link. */
  ghost predicate PhysicalInv(p: set<Object>) {
    && (forall o :: o in p ==> SchemaObject(o.schema) in p)
    && (forall o :: o in p && !o.SchemaObject? ==> TableObject(o.schema, o.table) in p)
    && (forall o :: o in p && o.LinkObject? ==>
          ColumnObject(o.schema, o.table, o.column) in p && ColumnObject(o.schema, o.refTable, o.refColumn) in p)
  }

  ghost predicate CatalogInv(cat: Catalog) {
    && (forall t :: t in cat.tables ==> t.schema in cat.databases)
    && (forall c :: c in cat.columns ==> c.owner in cat.tables)
    && (forall c :: c in cat.links ==> c in cat.columns && cat.links[c].target.schema == c.owner.schema)
  }

  /** The referenced column belongs to the referenced table. */
  predicate Aligned(link: Link) {
    link.targetColumn.owner == link.target
  }

  ghost predicate AllAligned(cat: Catalog) {
    forall c :: c in cat.links ==> Aligned(cat.links[c])
  }

  ghost predicate DriftExplained(s: State) {
    && (forall o :: o in s.physical && !Described(s.catalog, o) ==> o in s.leftovers || o in s.stranded)
    && (forall o :: Described(s.catalog, o) && o !in s.physical ==> o in s.ghosts)
  }

  ghost predicate Inv(s: State) {
    PhysicalInv(s.physical) && CatalogInv(s.catalog) && DriftExplained(s)
  }

  predicate KeepsAlignment(op: Operation) {
    op.AddForeignKeyOp? ==> Aligned(op.link)
  }

  // ---------- each store on its own ----------

  lemma ApplyKeepsInv(p: set<Object>, ddl: Ddl)
    requires PhysicalInv(p)
    ensures Apply(p, ddl).Some? ==> PhysicalInv(Apply(p, ddl).value)
  {
  }

  lemma PerformKeepsInv(cat: Catalog, op: Operation)
    requires CatalogInv(cat) && Allowed(cat, op)
    ensures Perform(cat, CatalogWrite(op)).Some? ==> CatalogInv(Perform(cat, CatalogWrite(op)).value)
    ensures
      AllAligned(cat) && KeepsAlignment(op) && Perform(cat, CatalogWrite(op)).Some? ==>
        AllAligned(Perform(cat, CatalogWrite(op)).value)
  {
  }

  /** A compensating drop right after the creation takes back exactly what the creation added. */
  lemma CompensationUndoes(p: set<Object>, op: Operation)
    requires PhysicalInv(p) && Apply(p, Statement(op)).Some? && Compensation(op).Some?
    ensures Apply(Apply(p, Statement(op)).value, Compensation(op).value) == Some(p)
  {
    match op
    case CreateTenantDatabase(s) =>
      assert (set o | o in p + {SchemaObject(s)} && o.schema != s) == p;
    case CreateTableOp(t) => TableCompensates(p, t);
    case AddColumnOp(c) => ColumnCompensates(p, c);
    case AddForeignKeyOp(c, link) => LinkCompensates(p, c, link.target.table, link.targetColumn.column);
  }

  lemma TableCompensates(p: set<Object>, t: TableRef)
    requires PhysicalInv(p) && Apply(p, CreateTable(t)).Some?
    ensures Apply(Apply(p, CreateTable(t)).value, DropTable(t)) == Some(p)
  {
    var q := Apply(p, CreateTable(t)).value;
    assert forall o :: o in p ==> !IsTablePart(o, t) && !IsLinkTo(o, t);
    assert (set o | o in q && !IsTablePart(o, t)) == p;
  }

  lemma ColumnCompensates(p: set<Object>, c: ColumnRef)
    requires PhysicalInv(p) && Apply(p, AddColumn(c)).Some?
    ensures Apply(Apply(p, AddColumn(c)).value, DropColumn(c)) == Some(p)
  {
    var q := Apply(p, AddColumn(c)).value;
    assert forall o :: o in p && IsLinkTo(o, c.owner) ==> o.refColumn != c.column;
    assert (set o | o in q && o != TheColumn(c) && !IsLinkOf(o, c)) == p;
  }

  lemma LinkCompensates(p: set<Object>, c: ColumnRef, refTable: string, refColumn: string)
    requires Apply(p, AddConstraint(c, refTable, refColumn)).Some?
    ensures Apply(Apply(p, AddConstraint(c, refTable, refColumn)).value, DropConstraint(c)) == Some(p)
  {
    var o := LinkObject(c.owner.schema, c.owner.table, c.column, refTable, refColumn);
    assert IsLinkOf(o, c) && o in p + {o};
    assert (set l | l in p + {o} && !IsLinkOf(l, c)) == p;
  }

  // ---------- the stores against each other ----------

  /** What a creation puts into the tenant schema is what it puts into the catalog. */
  lemma CreationMatches(p: set<Object>, cat: Catalog, op: Operation, o: Object)
    requires Allowed(cat, op) && Compensation(op).Some?
    requires Apply(p, Statement(op)).Some? && Perform(cat, CatalogWrite(op)).Some?
    requires CatalogInv(cat)
    ensures
      var q, next := Apply(p, Statement(op)).value, Perform(cat, CatalogWrite(op)).value;
      var added := o in q && o !in p;
      (o in q <==> o in p || added) && (Described(next, o) ==> Described(cat, o) || o in q)
      && (Described(cat, o) ==> Described(next, o)) && (added ==> Described(next, o))
  {
  }

  /** What a deletion takes out of the tenant schema it also takes out of the catalog, and of what is still there the
      catalog loses exactly what it strands. */
  lemma DeletionMatches(p: set<Object>, cat: Catalog, op: Operation, o: Object)
    requires CatalogInv(cat) && Compensation(op).None?
    requires Apply(p, Statement(op)).Some? && Perform(cat, CatalogWrite(op)).Some?
    ensures
      var q, next := Apply(p, Statement(op)).value, Perform(cat, CatalogWrite(op)).value;
      && (Described(next, o) ==> Described(cat, o) && (o in p ==> o in q))
      && (o in q ==> o in p && (Described(cat, o) ==> (Described(next, o) <==> o !in Strands(cat, op))))
  {
    match op
    case DeleteTableOp(t) => TableDeletionMatches(p, cat, t, o);
    case DeleteTenantDatabase(s) => DatabaseDeletionMatches(p, cat, s, o);
  }

  lemma TableDeletionMatches(p: set<Object>, cat: Catalog, t: TableRef, o: Object)
    requires CatalogInv(cat) && Apply(p, DropTable(t)).Some?
    ensures
      var q, next := Apply(p, DropTable(t)).value, Perform(cat, DeleteTableRow(t)).value;
      && (Described(next, o) ==> Described(cat, o) && (o in p ==> o in q))
      && (o in q ==> o in p && (Described(cat, o) ==> (Described(next, o) <==> o !in Strands(cat, DeleteTableOp(t)))))
  {
    StrandedIsAstray(cat, DeleteTableOp(t), o);
  }

  lemma DatabaseDeletionMatches(p: set<Object>, cat: Catalog, s: string, o: Object)
    requires CatalogInv(cat) && Apply(p, DropSchema(s)).Some?
    ensures
      var q, next := Apply(p, DropSchema(s)).value, Perform(cat, DeleteDatabaseRow(s)).value;
      && (Described(next, o) ==> Described(cat, o) && (o in p ==> o in q))
      && (o in q ==> o in p && (Described(cat, o) ==> (Described(next, o) <==> o !in Strands(cat, DeleteTenantDatabase(s)))))
  {
    StrandedIsAstray(cat, DeleteTenantDatabase(s), o);
  }

  /** Among the constraints that the catalog describes, the stranded ones are those of astray foreign keys. */
  lemma StrandedIsAstray(cat: Catalog, op: Operation, o: Object)
    ensures o in Strands(cat, op) ==> o.LinkObject?
    ensures o.LinkObject? ==>
      (o in Strands(cat, op) <==>
       var c := ColumnRef(TableRef(o.schema, o.table), o.column);
       c in cat.links && Astray(cat, c, op) && o == Constraint(c, cat.links[c]))
  {
    if o in Strands(cat, op) {
      var c :| c in cat.links && Astray(cat, c, op) && o == Constraint(c, cat.links[c]);
      assert c == ColumnRef(TableRef(o.schema, o.table), o.column);
    }
  }

  /** Any operation, with any of its steps failing, leaves every difference between the stores explained. */
  lemma StepKeepsInv(s: State, op: Operation, f: Faults)
    requires Inv(s)
    ensures Inv(Step(s, op, f))
  {
    hide Apply, Perform, Described, PhysicalInv, CatalogInv, AllAligned, Allowed, KeepsAlignment, Strands;
    ApplyKeepsInv(s.physical, Statement(op));
    if Allowed(s.catalog, op) && !f.ddl && Apply(s.physical, Statement(op)).Some? {
      PerformKeepsInv(s.catalog, op);
      var p := Apply(s.physical, Statement(op)).value;
      if !f.write && Perform(s.catalog, CatalogWrite(op)).Some? {
        WriteKeepsDrift(s, op);
      } else if Compensation(op).Some? {
        ApplyKeepsInv(p, Compensation(op).value);
        CompensationUndoes(s.physical, op);
        CreationOnlyAdds(s.physical, op);
      } else {
        DeletionOnlyRemoves(s.physical, op);
      }
    }
  }

  lemma WriteKeepsDrift(s: State, op: Operation)
    requires Inv(s) && Allowed(s.catalog, op)
    requires Apply(s.physical, Statement(op)).Some? && Perform(s.catalog, CatalogWrite(op)).Some?
    ensures DriftExplained(s.(physical := Apply(s.physical, Statement(op)).value,
                              catalog := Perform(s.catalog, CatalogWrite(op)).value,
                              stranded := s.stranded + Strands(s.catalog, op)))
  {
    hide Apply, Perform, Described, PhysicalInv, CatalogInv, Allowed, Strands;
    var t := s.(physical := Apply(s.physical, Statement(op)).value,
                catalog := Perform(s.catalog, CatalogWrite(op)).value,
                stranded := s.stranded + Strands(s.catalog, op));
    forall o ensures (o in t.physical && !Described(t.catalog, o) ==> o in t.leftovers || o in t.stranded)
                  && (Described(t.catalog, o) && o !in t.physical ==> o in t.ghosts) {
      if Compensation(op).Some? {
        CreationMatches(s.physical, s.catalog, op, o);
        CreationOnlyAdds(s.physical, op);
      } else {
        DeletionMatches(s.physical, s.catalog, op, o);
        DeletionOnlyRemoves(s.physical, op);
      }
    }
  }

  lemma CreationOnlyAdds(p: set<Object>, op: Operation)
    requires Compensation(op).Some? && Apply(p, Statement(op)).Some?
    ensures p <= Apply(p, Statement(op)).value
  {
  }

  lemma DeletionOnlyRemoves(p: set<Object>, op: Operation)
    requires Compensation(op).None? && Apply(p, Statement(op)).Some?
    ensures Apply(p, Statement(op)).value <= p
  {
  }

  // ---------- whole runs ----------

  lemma {:induction false} RunKeepsInv(calls: seq<(Operation, Faults)>)
    ensures Inv(Run(EMPTY, calls))
    decreases |calls|
  {
    hide Step;
    if calls == [] {
      assert Inv(EMPTY);
    } else {
      RunKeepsInv(calls[..|calls| - 1]);
      StepKeepsInv(Run(EMPTY, calls[..|calls| - 1]), calls[|calls| - 1].0, calls[|calls| - 1].1);
    }
  }

  /** After any run of calls one after the other, with failures at any step, an object that only the tenant schema has was
      left by a failed compensation or stranded by a deletion, and one that only the catalog has was dropped before a
      failed catalog delete. Without any of the three the catalog describes the tenant schemas exactly. */
  lemma {:induction false} CatalogDescribesSchemas(calls: seq<(Operation, Faults)>)
    ensures
      var s := Run(EMPTY, calls);
      && (forall o :: o in s.physical && !Described(s.catalog, o) ==> o in s.leftovers || o in s.stranded)
      && (forall o :: Described(s.catalog, o) && o !in s.physical ==> o in s.ghosts)
      && (s.leftovers == {} && s.ghosts == {} && s.stranded == {} ==>
            forall o :: o in s.physical <==> Described(s.catalog, o))
  {
    RunKeepsInv(calls);
  }

  /** Only a failed compensation leaves something over, only a failed catalog delete makes a ghost, and only a deletion
      under an astray foreign key strands a constraint. */
  lemma DriftNeedsCause(s: State, op: Operation, f: Faults)
    requires PhysicalInv(s.physical)
    ensures Step(s, op, f).leftovers != s.leftovers ==> Compensation(op).Some? && f.compensation
    ensures Step(s, op, f).ghosts != s.ghosts ==> Compensation(op).None? && f.write
    ensures Step(s, op, f).stranded != s.stranded ==>
      Compensation(op).None? && !f.ddl && !f.write && exists c :: Astray(s.catalog, c, op)
  {
    hide Apply, PhysicalInv;
    if Compensation(op).Some? && Apply(s.physical, Statement(op)).Some? {
      CompensationUndoes(s.physical, op);
    }
    if o :| o in Strands(s.catalog, op) {
      var c :| c in s.catalog.links && Astray(s.catalog, c, op);
    }
  }

  /** A run that links columns of the referenced table only never strands a constraint. */
  lemma {:induction false} AlignedRunsStrandNothing(calls: seq<(Operation, Faults)>)
    requires forall i :: 0 <= i < |calls| ==> KeepsAlignment(calls[i].0)
    ensures Run(EMPTY, calls).stranded == {} && AllAligned(Run(EMPTY, calls).catalog)
    decreases |calls|
  {
    hide Inv, Apply, Perform;
    if calls != [] {
      var before, op, f := calls[..|calls| - 1], calls[|calls| - 1].0, calls[|calls| - 1].1;
      AlignedRunsStrandNothing(before);
      RunKeepsInv(before);
      var s := Run(EMPTY, before);
      AlignedStepStrandsNothing(s, op, f);
    }
  }

  lemma AlignedStepStrandsNothing(s: State, op: Operation, f: Faults)
    requires Inv(s) && AllAligned(s.catalog) && KeepsAlignment(op)
    ensures Step(s, op, f).stranded == s.stranded && AllAligned(Step(s, op, f).catalog)
  {
    assert Strands(s.catalog, op) == {} by {
      forall c ensures !Astray(s.catalog, c, op) {
        if c in s.catalog.links {
          assert Aligned(s.catalog.links[c]);
        }
      }
    }
    hide Apply, Perform, PhysicalInv, DriftExplained, AllAligned, KeepsAlignment;
    if Allowed(s.catalog, op) {
      PerformKeepsInv(s.catalog, op);
    }
  }

  // ---------- foreign keys whose column lies elsewhere ----------

  ghost predicate Agrees(s: State) {
    PhysicalInv(s.physical) && CatalogInv(s.catalog) && forall o :: o in s.physical <==> Described(s.catalog, o)
  }

  /** From stores that agree, a deletion of a table or of a whole tenant database, without any failure, keeps them in
      agreement exactly when no foreign key that stays holds a column of what is deleted. */
  lemma DeletionAgreesUnlessAstray(s: State, op: Operation)
    requires Agrees(s) && Compensation(op).None? && Allowed(s.catalog, op)
    requires Apply(s.physical, Statement(op)).Some?
    ensures Agrees(Step(s, op, Faults(false, false, false))) <==> forall c :: !Astray(s.catalog, c, op)
  {
    var next := Step(s, op, Faults(false, false, false));
    ApplyKeepsInv(s.physical, Statement(op));
    PerformKeepsInv(s.catalog, op);
    assert Perform(s.catalog, CatalogWrite(op)).Some?;
    hide PhysicalInv, CatalogInv, Apply, Perform, Allowed;
    if c :| Astray(s.catalog, c, op) {
      AstrayStaysBehind(s, op, c);
    } else {
      assert Strands(s.catalog, op) == {};
      hide Described, Astray, Strands;
      forall o ensures o in next.physical <==> Described(next.catalog, o) {
        DeletionMatches(s.physical, s.catalog, op, o);
      }
    }
  }

  lemma AstrayStaysBehind(s: State, op: Operation, c: ColumnRef)
    requires Agrees(s) && Compensation(op).None? && Astray(s.catalog, c, op)
    requires Apply(s.physical, Statement(op)).Some? && Perform(s.catalog, CatalogWrite(op)).Some?
    ensures
      var o := Constraint(c, s.catalog.links[c]);
      o in Apply(s.physical, Statement(op)).value && !Described(Perform(s.catalog, CatalogWrite(op)).value, o)
  {
    var o := Constraint(c, s.catalog.links[c]);
    assert TableRef(c.owner.schema, c.owner.table) == c.owner;
    var target := s.catalog.links[c].target;
    assert TableRef(target.schema, target.table) == target;
    assert Described(s.catalog, o);
  }

  /** add_foreign_key accepts such a key: wherever some other table, of any database, has a column of the referenced
      name, the call leaves the stores in agreement. */
  lemma LinkIsAccepted(s: State, c: ColumnRef, target: TableRef, other: TableRef)
    requires Agrees(s) && c in s.catalog.columns && c !in s.catalog.links
    requires target in s.catalog.tables && target.schema == c.owner.schema
    requires ColumnRef(target, "id") in s.catalog.columns && ColumnRef(other, "id") in s.catalog.columns
    ensures
      var link := Link(target, ColumnRef(other, "id"));
      var linked := Step(s, AddForeignKeyOp(c, link), Faults(false, false, false));
      && Agrees(linked)
      && linked.physical == s.physical + {Constraint(c, link)}
      && linked.catalog == s.catalog.(links := s.catalog.links[c := link])
      && linked.leftovers == s.leftovers && linked.ghosts == s.ghosts && linked.stranded == s.stranded
  {
    var op := AddForeignKeyOp(c, Link(target, ColumnRef(other, "id")));
    assert TableRef(c.owner.schema, c.owner.table) == c.owner && TableRef(target.schema, target.table) == target;
    assert Described(s.catalog, TheColumn(c)) && Described(s.catalog, TheColumn(ColumnRef(target, "id")));
    forall l | l in s.physical ensures !IsLinkOf(l, c) {
      assert Described(s.catalog, l);
    }
    ApplyKeepsInv(s.physical, Statement(op));
    PerformKeepsInv(s.catalog, op);
    var linked := Step(s, op, Faults(false, false, false));
    LinkKeepsAgreement(s, linked, c, op.link);
  }

  lemma LinkKeepsAgreement(s: State, linked: State, c: ColumnRef, link: Link)
    requires Agrees(s) && PhysicalInv(linked.physical) && CatalogInv(linked.catalog)
    requires c !in s.catalog.links && link.target.schema == c.owner.schema
    requires linked.physical == s.physical + {Constraint(c, link)}
    requires linked.catalog == s.catalog.(links := s.catalog.links[c := link])
    ensures Agrees(linked)
  {
    hide PhysicalInv, CatalogInv;
    assert TableRef(c.owner.schema, c.owner.table) == c.owner;
    assert TableRef(link.target.schema, link.target.table) == link.target;
    forall l ensures l in linked.physical <==> Described(linked.catalog, l) {
      assert l in s.physical <==> Described(s.catalog, l);
    }
  }

  /** Deleting the table that the column lies in then drops the catalog's foreign key while the tenant schema keeps its
      constraint, without any failure. */
  lemma AstrayForeignKeyDrifts(s: State, c: ColumnRef, target: TableRef, other: TableRef)
    requires Agrees(s) && c in s.catalog.columns && c !in s.catalog.links
    requires target in s.catalog.tables && target.schema == c.owner.schema
    requires ColumnRef(target, "id") in s.catalog.columns && ColumnRef(other, "id") in s.catalog.columns
    requires other != target && other != c.owner
    requires Apply(s.physical, DropTable(other)).Some?
    ensures
      var none := Faults(false, false, false);
      var linked := Step(s, AddForeignKeyOp(c, Link(target, ColumnRef(other, "id"))), none);
      var next := Step(linked, DeleteTableOp(other), none);
      Agrees(linked) && !Agrees(next) && next.leftovers == s.leftovers && next.ghosts == s.ghosts
  {
    var none, link := Faults(false, false, false), Link(target, ColumnRef(other, "id"));
    var linked := Step(s, AddForeignKeyOp(c, link), none);
    LinkIsAccepted(s, c, target, other);
    assert Astray(linked.catalog, c, DeleteTableOp(other));
    assert !IsLinkTo(Constraint(c, link), other) by { assert TableRef(target.schema, target.table) == target; }
    hide PhysicalInv, CatalogInv, Described, Perform, Astray;
    AstrayTableIsDropped(s, linked, Constraint(c, link), other);
    DeletionAgreesUnlessAstray(linked, DeleteTableOp(other));
    DriftNeedsCause(linked, DeleteTableOp(other), none);
  }

  lemma AstrayTableIsDropped(s: State, linked: State, o: Object, other: TableRef)
    requires Agrees(s) && ColumnRef(other, "id") in s.catalog.columns
    requires Apply(s.physical, DropTable(other)).Some?
    requires linked.physical == s.physical + {o} && !IsLinkTo(o, other)
    requires linked.catalog.tables == s.catalog.tables
    ensures other in linked.catalog.tables && Apply(linked.physical, DropTable(other)).Some?
  {
  }

  /** Nor need the column lie in the same tenant database: deleting the other database drifts in the same way. */
  lemma AstrayDatabaseDrifts(s: State, c: ColumnRef, target: TableRef, other: TableRef)
    requires Agrees(s) && c in s.catalog.columns && c !in s.catalog.links
    requires target in s.catalog.tables && target.schema == c.owner.schema
    requires ColumnRef(target, "id") in s.catalog.columns && ColumnRef(other, "id") in s.catalog.columns
    requires other.schema != c.owner.schema
    ensures
      var none := Faults(false, false, false);
      var linked := Step(s, AddForeignKeyOp(c, Link(target, ColumnRef(other, "id"))), none);
      var next := Step(linked, DeleteTenantDatabase(other.schema), none);
      Agrees(linked) && !Agrees(next) && next.leftovers == s.leftovers && next.ghosts == s.ghosts
  {
    var none, op := Faults(false, false, false), DeleteTenantDatabase(other.schema);
    var linked := Step(s, AddForeignKeyOp(c, Link(target, ColumnRef(other, "id"))), none);
    LinkIsAccepted(s, c, target, other);
    assert Astray(linked.catalog, c, op);
    assert Described(linked.catalog, SchemaObject(other.schema));
    assert Apply(linked.physical, Statement(op)).Some?;
    hide PhysicalInv, CatalogInv, Described, Perform, Astray, Apply;
    DeletionAgreesUnlessAstray(linked, op);
    DriftNeedsCause(linked, op, none);
  }
}
