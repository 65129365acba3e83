/** When a restored tenant database equals the exported one. */
module TenantRoundTrip {
  import opened Wrappers
  import opened Schema
  import opened TextCodec
  import opened TenantDatabase
  import opened TopologicalOrder
  import opened TenantRestore
  import Graph

  // ---------- valid databases ----------

  ghost predicate ValidColumns(cs: seq<Column>) {
    && (forall c :: c in cs ==> IsIdentifier(c.name) && c.name != "id" && ValidColumnType(c))
    && (forall i, j :: 0 <= i < j < |cs| ==> cs[i].name != cs[j].name)
  }

  predicate DistinctTables(db: Tables) {
    forall i, j :: 0 <= i < j < |db| ==> db[i].name != db[j].name
  }

  ghost predicate ValidLinks(db: Tables, t: Table) {
    && (forall a, b :: 0 <= a < b < |t.foreignKeys| ==> t.foreignKeys[a].column != t.foreignKeys[b].column)
    && (forall fk :: fk in t.foreignKeys ==>
          TableIndex(db, fk.referencesTable) < |db|
          && ValidForeignKey(t, db[TableIndex(db, fk.referencesTable)], fk))
  }

  ghost predicate ValidSchema(db: Tables) {
    && DistinctTables(db)
    && (forall t :: t in db ==> IsIdentifier(t.name) && ValidColumns(t.columns) && ValidLinks(db, t))
  }

  ghost predicate TypedRow(t: Table, row: Row) {
    |row| == 1 + |t.columns| && forall i :: 0 <= i < |row| ==> HasType(row[i], ColumnTypes(t)[i])
  }

  /** Row k of t satisfies every constraint of the table. */
  ghost predicate ValidRow(db: Tables, t: Table, k: nat)
    requires k < |t.rows|
  {
    && TypedRow(t, t.rows[k])
    && NotNullHolds(t, t.rows[k])
    && UniqueHolds(t, t.rows[..k], t.rows[k])
    && ReferencesHold(db, t, t.rows[k])
  }

  ghost predicate ValidRows(db: Tables) {
    forall t :: t in db ==> forall k :: 0 <= k < |t.rows| ==> ValidRow(db, t, k)
  }

  /** The databases that the schema service builds, but for one kind: a foreign key whose catalog row names a column
      of a third table is checked against that column, and so may refer to a column of another type. */
  ghost predicate Valid(db: Tables) {
    ValidSchema(db) && ValidRows(db)
  }

  function TotalRows(db: Tables): nat {
    if db == [] then 0 else |db[0].rows| + TotalRows(db[1..])
  }

  // ---------- the conditions ----------

  predicate AllExportable(t: Table) {
    forall k, i :: 0 <= k < |t.rows| && 0 <= i < |t.rows[k]| ==> Exportable(t.rows[k][i])
  }

  /** What row n references in its own table through fk is listed no later than the row itself. */
  predicate BackwardFor(t: Table, n: nat, fk: ForeignKey)
    requires n < |t.rows|
  {
    fk.referencesTable == t.name ==>
      var c := ColumnIndex(t, fk.column);
      c < |t.rows[n]|
      && (t.rows[n][c] == Null || Holds(t.rows[..n + 1], ColumnIndex(t, fk.referencesColumn), t.rows[n][c]))
  }

  predicate BackwardAt(t: Table, n: nat)
    requires n < |t.rows|
  {
    forall fk :: fk in t.foreignKeys ==> BackwardFor(t, n, fk)
  }

  predicate SelfReferencesBackward(t: Table) {
    forall n :: 0 <= n < |t.rows| ==> BackwardAt(t, n)
  }

  // ---------- lookups ----------

  lemma {:induction false} TableIndexAt(db: Tables, i: nat)
    requires DistinctTables(db) && i < |db|
    ensures TableIndex(db, db[i].name) == i
  {
  }

  ghost predicate SameNames(a: Tables, b: Tables) {
    |a| == |b| && forall i :: 0 <= i < |a| ==> a[i].name == b[i].name
  }

  lemma {:induction false} SameNamesSameIndex(a: Tables, b: Tables, name: string)
    requires SameNames(a, b)
    ensures TableIndex(a, name) == TableIndex(b, name)
  {
  }

  // ---------- stage 1: tables and columns ----------

  function Bare(t: Table): Table {
    Table(t.name, t.columns, [], [])
  }

  function BareAll(db: Tables): Tables {
    seq(|db|, i requires 0 <= i < |db| => Bare(db[i]))
  }

  lemma {:induction false} ColumnsRebuild(before: Tables, name: string, cs: seq<Column>, j: nat)
    requires ValidColumns(cs) && j <= |cs|
    requires forall t :: t in before ==> t.name != name
    ensures AddColumns(before + [Table(name, cs[..j], [], [])], name, cs[j..])
         == Success(before + [Table(name, cs, [], [])])
    decreases |cs| - j
  {
    var t := Table(name, cs[..j], [], []);
    var db := before + [t];
    if j == |cs| {
      assert cs[..j] == cs;
    } else {
      var i := TableIndex(db, name);
      assert db[|before|].name == name;
      assert i == |before|;
      var c := cs[j];
      assert c in cs;
      assert !HasColumn(t, c.name) by {
        assert c.name !in ColumnNames(t);
      }
      assert cs[..j] + [c] == cs[..j + 1];
      assert db[|before| := t.(columns := t.columns + [c])] == before + [Table(name, cs[..j + 1], [], [])];
      assert AddColumn(db, name, c) == Success(before + [Table(name, cs[..j + 1], [], [])]);
      assert cs[j..][0] == c && cs[j..][1..] == cs[j + 1..];
      ColumnsRebuild(before, name, cs, j + 1);
    }
  }

  lemma {:induction false} TablesRebuild(db: Tables, k: nat)
    requires ValidSchema(db) && k <= |db|
    ensures CreateTables(BareAll(db)[..k], Export(db)[k..]) == Success(BareAll(db))
    decreases |db| - k
  {
    var before := BareAll(db)[..k];
    if k == |db| {
      assert before == BareAll(db);
    } else {
      TableRebuilds(db, k);
      assert Export(db)[k..][0] == ExportTable(db[k]) && Export(db)[k..][1..] == Export(db)[k + 1..];
      TablesRebuild(db, k + 1);
      hide ValidSchema, Export, ExportTable, BareAll, CreateTable, AddColumns;
      assert ExportTable(db[k]).name == db[k].name && ExportTable(db[k]).columns == db[k].columns by {
        ExportedHeader(db[k]);
      }
    }
  }

  lemma ExportedHeader(t: Table)
    ensures ExportTable(t).name == t.name && ExportTable(t).columns == t.columns
  {
  }

  lemma TableRebuilds(db: Tables, k: nat)
    requires ValidSchema(db) && k < |db|
    ensures
      var t, before := db[k], BareAll(db)[..k];
      && CreateTable(before, t.name) == Success(before + [Table(t.name, [], [], [])])
      && AddColumns(before + [Table(t.name, [], [], [])], t.name, t.columns) == Success(BareAll(db)[..k + 1])
  {
    var t, before := db[k], BareAll(db)[..k];
    assert t in db;
    NewTableIsLast(db, k);
    hide AddColumns, CreateTable, TableIndex, ValidSchema, BareAll;
    ColumnsRebuild(before, t.name, t.columns, 0);
    assert t.columns[..0] == [] && t.columns[0..] == t.columns;
    NextBareTable(db, k);
  }

  lemma NewTableIsLast(db: Tables, k: nat)
    requires ValidSchema(db) && k < |db|
    ensures
      var t, before := db[k], BareAll(db)[..k];
      && ValidColumns(t.columns) && TableIndex(before, t.name) == |before|
      && CreateTable(before, t.name) == Success(before + [Table(t.name, [], [], [])])
  {
    hide ValidColumns, ValidLinks;
    var t, before := db[k], BareAll(db)[..k];
    assert t in db;
    forall i | 0 <= i < |before| ensures before[i].name != t.name {
      assert before[i].name == db[i].name;
    }
    assert TableIndex(before, t.name) == |before|;
  }

  lemma NextBareTable(db: Tables, k: nat)
    requires k < |db|
    ensures BareAll(db)[..k] + [Table(db[k].name, db[k].columns, [], [])] == BareAll(db)[..k + 1]
  {
  }

  // ---------- stage 2: foreign keys ----------

  /** Tables before k have all their foreign keys, table k its first m, no table has rows. */
  function Linked(db: Tables, k: nat, m: nat): Tables {
    seq(|db|, i requires 0 <= i < |db| =>
      db[i].(rows := [],
             foreignKeys := if i < k then db[i].foreignKeys
                            else if i == k && m <= |db[i].foreignKeys| then db[i].foreignKeys[..m] else []))
  }

  lemma {:induction false} LinksRebuild(db: Tables, k: nat, m: nat)
    requires ValidSchema(db) && k < |db| && m <= |db[k].foreignKeys|
    ensures AddForeignKeys(Linked(db, k, m), db[k].name, db[k].foreignKeys[m..]) == Success(Linked(db, k + 1, 0))
    decreases |db[k].foreignKeys| - m
  {
    hide AddForeignKey, ValidLinks, ValidColumns;
    var fks := db[k].foreignKeys;
    var now := Linked(db, k, m);
    if m == |fks| {
      assert fks[..m] == fks;
      assert now == Linked(db, k + 1, 0);
    } else {
      LinkRebuilds(db, k, m);
      assert fks[m..][0] == fks[m] && fks[m..][1..] == fks[m + 1..];
      LinksRebuild(db, k, m + 1);
    }
  }

  lemma LinkRebuilds(db: Tables, k: nat, m: nat)
    requires ValidSchema(db) && k < |db| && m < |db[k].foreignKeys|
    ensures AddForeignKey(Linked(db, k, m), db[k].name, db[k].foreignKeys[m]) == Success(Linked(db, k, m + 1))
  {
    hide ValidForeignKey, HasColumn, ValidSchema, Referencing;
    var fk := db[k].foreignKeys[m];
    var now := Linked(db, k, m);
    LinkAllowed(db, k, m);
    assert db[k].foreignKeys[..m] + [fk] == db[k].foreignKeys[..m + 1];
    assert now[k := now[k].(foreignKeys := now[k].foreignKeys + [fk])] == Linked(db, k, m + 1);
  }

  lemma LinkAllowed(db: Tables, k: nat, m: nat)
    requires ValidSchema(db) && k < |db| && m < |db[k].foreignKeys|
    ensures
      var now, fk := Linked(db, k, m), db[k].foreignKeys[m];
      var j := TableIndex(now, fk.referencesTable);
      && TableIndex(now, db[k].name) == k && j < |now|
      && ValidForeignKey(now[k], now[j], fk)
      && HasColumn(now[k], fk.column) && HasColumn(now[j], fk.referencesColumn)
      && !Referencing(now[k], fk.column)
  {
    hide ValidForeignKey, HasColumn, ValidColumns;
    var now, fk := Linked(db, k, m), db[k].foreignKeys[m];
    assert db[k] in db && fk in db[k].foreignKeys;
    SameNamesSameIndex(now, db, db[k].name);
    SameNamesSameIndex(now, db, fk.referencesTable);
    TableIndexAt(db, k);
    var j := TableIndex(db, fk.referencesTable);
    ForeignKeySeesColumns(now[k], now[j], db[k], db[j], fk);
  }

  /** Whether a foreign key is allowed depends on the columns alone. */
  lemma ForeignKeySeesColumns(a: Table, b: Table, c: Table, d: Table, fk: ForeignKey)
    requires a.columns == c.columns && b.columns == d.columns
    requires ValidForeignKey(c, d, fk)
    ensures ValidForeignKey(a, b, fk) && HasColumn(a, fk.column) && HasColumn(b, fk.referencesColumn)
  {
    SameColumns(a, c);
    SameColumns(b, d);
  }

  lemma SameColumns(a: Table, b: Table)
    requires a.columns == b.columns
    ensures ColumnNames(a) == ColumnNames(b) && ColumnTypes(a) == ColumnTypes(b)
    ensures forall n: string :: ColumnIndex(a, n) == ColumnIndex(b, n)
  {
  }

  lemma {:induction false} AllLinksRebuild(db: Tables, k: nat)
    requires ValidSchema(db) && k <= |db|
    ensures LinkTables(Linked(db, k, 0), Export(db)[k..]) == Success(Linked(db, |db|, 0))
    decreases |db| - k
  {
    if k < |db| {
      LinksRebuild(db, k, 0);
      assert db[k].foreignKeys[0..] == db[k].foreignKeys;
      assert Export(db)[k..][0] == Export(db)[k] && Export(db)[k..][1..] == Export(db)[k + 1..];
      AllLinksRebuild(db, k + 1);
    }
  }

  /** The schema of a valid database is rebuilt exactly, with every table still empty. */
  lemma SchemaRebuilds(db: Tables)
    requires ValidSchema(db)
    ensures CreateTables([], Export(db)) == Success(BareAll(db))
    ensures LinkTables(BareAll(db), Export(db)) == Success(Linked(db, |db|, 0))
  {
    TablesRebuild(db, 0);
    assert BareAll(db)[..0] == [] && Export(db)[0..] == Export(db);
    AllLinksRebuild(db, 0);
    assert Linked(db, 0, 0) == BareAll(db);
  }

  // ---------- converting printed rows ----------

  predicate RowExportable(row: Row) {
    forall i :: 0 <= i < |row| ==> Exportable(row[i])
  }

  lemma {:induction false} RowRoundTrip(row: Row, types: seq<DataType>)
    requires |row| == |types|
    requires forall i :: 0 <= i < |row| ==> HasType(row[i], types[i])
    ensures ConvertRow(PrintRow(row), types) == Success(row) <==> RowExportable(row)
  {
    hide Convert, Print, Exportable, HasType;
    if row != [] {
      ValueRoundTrip(row[0], types[0]);
      RowRoundTrip(row[1..], types[1..]);
      assert PrintRow(row)[1..] == PrintRow(row[1..]);
      assert row == [row[0]] + row[1..];
      assert RowExportable(row) <==> Exportable(row[0]) && RowExportable(row[1..]);
    }
  }

  // ---------- stage 3: rows ----------

  /** Tables named in `done` hold all their rows, table c its first n, the others none. */
  function Loading(db: Tables, done: set<string>, c: nat, n: nat): Tables {
    seq(|db|, i requires 0 <= i < |db| =>
      db[i].(rows := if db[i].name in done then db[i].rows
                     else if i == c && n <= |db[i].rows| then db[i].rows[..n] else []))
  }

  lemma ConstraintsSeeColumns(a: Table, b: Table, earlier: seq<Row>, row: Row)
    requires a.columns == b.columns && |row| == 1 + |b.columns|
    ensures NotNullHolds(a, row) == NotNullHolds(b, row)
    ensures UniqueHolds(a, earlier, row) == UniqueHolds(b, earlier, row)
  {
  }

  /** A reference out of the table being loaded finds its row, because its target is fully loaded. */
  lemma ReferenceWhileLoading(db: Tables, done: set<string>, c: nat, n: nat, fk: ForeignKey)
    requires Valid(db) && c < |db| && n < |db[c].rows|
    requires db[c].name !in done && Dependencies(ExportTable(db[c])) <= done
    requires fk in db[c].foreignKeys
    ensures ReferenceHolds(Loading(db, done, c, n + 1), db[c], db[c].rows[n], fk) <==> BackwardFor(db[c], n, fk)
  {
    hide Equal, UniqueHolds, NotNullHolds, TypedRow, ValidColumns, ValidLinks;
    var t, row := db[c], db[c].rows[n];
    var now := Loading(db, done, c, n + 1);
    SameNamesSameIndex(now, db, fk.referencesTable);
    var j := TableIndex(db, fk.referencesTable);
    assert t in db && ValidRow(db, t, n);
    assert ReferenceHolds(db, t, row, fk);
    if j < |db| {
      SameColumns(now[j], db[j]);
    }
    if fk.referencesTable == t.name {
      TableIndexAt(db, c);
      assert now[c].rows == t.rows[..n + 1];
    } else {
      assert fk.referencesTable in Dependencies(ExportTable(t));
      if j < |db| {
        assert now[j].rows == db[j].rows;
      }
    }
  }

  lemma RowInserts(db: Tables, done: set<string>, c: nat, n: nat)
    requires Valid(db) && c < |db| && n < |db[c].rows|
    requires db[c].name !in done && Dependencies(ExportTable(db[c])) <= done
    ensures InsertRow(Loading(db, done, c, n), db[c].name, db[c].rows[n])
         == if BackwardAt(db[c], n) then Success(Loading(db, done, c, n + 1)) else Failure(ForeignKeyViolation)
  {
    hide ReferenceHolds, BackwardFor, NotNullHolds, UniqueHolds, ValidColumns, ValidLinks;
    var t, row := db[c], db[c].rows[n];
    var now, next := Loading(db, done, c, n), Loading(db, done, c, n + 1);
    assert t in db && ValidRow(db, t, n);
    SameNamesSameIndex(now, db, t.name);
    TableIndexAt(db, c);
    assert now[c].rows == t.rows[..n];
    ConstraintsSeeColumns(now[c], t, t.rows[..n], row);
    assert t.rows[..n] + [row] == t.rows[..n + 1];
    assert Appended(now, c, row) == next;
    forall fk | fk in t.foreignKeys ensures ReferenceHolds(next, now[c], row, fk) <==> BackwardFor(t, n, fk) {
      ReferenceWhileLoading(db, done, c, n, fk);
      ReferenceSeesColumns(next, now[c], t, row, fk);
    }
  }

  lemma ReferenceSeesColumns(db: Tables, a: Table, b: Table, row: Row, fk: ForeignKey)
    requires a.columns == b.columns
    ensures ReferenceHolds(db, a, row, fk) == ReferenceHolds(db, b, row, fk)
  {
  }

  /** Loading rows n to upTo of one table succeeds exactly when each of them points backward. */
  lemma {:induction false} RowsInsert(db: Tables, done: set<string>, c: nat, n: nat, upTo: nat)
    requires Valid(db) && c < |db| && n <= upTo <= |db[c].rows|
    requires db[c].name !in done && Dependencies(ExportTable(db[c])) <= done
    requires AllExportable(db[c])
    ensures InsertRows(
              Loading(db, done, c, n), db[c].name, ColumnNames(db[c]), ColumnTypes(db[c]), PrintRows(db[c].rows)[n..upTo])
         == if forall m :: n <= m < upTo ==> BackwardAt(db[c], m)
            then Success(Loading(db, done, c, upTo)) else Failure(ForeignKeyViolation)
    decreases upTo - n
  {
    hide InsertRow, InsertNamed, ConvertRow, PrintRow, BackwardAt, NotNullHolds, UniqueHolds, ReferencesHold,
      ValidColumns, ValidLinks;
    var t := db[c];
    if n < upTo {
      assert t in db && ValidRow(db, t, n);
      RowsNameTheirColumns(db, done, c, n);
      RowRoundTrip(t.rows[n], ColumnTypes(t));
      RowInserts(db, done, c, n);
      var lines := PrintRows(t.rows)[n..upTo];
      assert lines[0] == PrintRow(t.rows[n]) && lines[1..] == PrintRows(t.rows)[n + 1..upTo];
      if BackwardAt(t, n) {
        RowsInsert(db, done, c, n + 1, upTo);
      }
    }
  }

  /** An INSERT that names all columns in order inserts the row as it is. */
  lemma {:induction false} NamedInOrder(db: Tables, table: string, row: Row)
    requires TableIndex(db, table) < |db|
    requires var t := db[TableIndex(db, table)]; ValidColumns(t.columns) && |row| == 1 + |t.columns|
    ensures InsertNamed(db, table, ColumnNames(db[TableIndex(db, table)]), row) == InsertRow(db, table, row)
  {
    var t := db[TableIndex(db, table)];
    NamesAreDistinct(t);
    assert Arranged(t, ColumnNames(t), row) == row;
    hide InsertRow;
  }

  lemma NamesAreDistinct(t: Table)
    requires ValidColumns(t.columns)
    ensures
      var names := ColumnNames(t);
      && Known(t, names) && Distinct(names) && OthersAreNull(t, names)
      && forall i :: 0 <= i < |names| ==> NameIndex(names, names[i]) == i
  {
    var names := ColumnNames(t);
    assert names[0] == "id";
    forall c | c in t.columns ensures c.name in names {
      var i :| 0 <= i < |t.columns| && t.columns[i] == c;
      assert names[i + 1] == c.name;
    }
    NamesDiffer(t);
    hide ValidColumns;
    forall i | 0 <= i < |names| ensures NameIndex(names, names[i]) == i {
      IndexInDistinct(names, i);
    }
  }

  lemma NamesDiffer(t: Table)
    requires ValidColumns(t.columns)
    ensures Distinct(ColumnNames(t))
  {
    hide IsIdentifier, ValidColumnType;
    var names := ColumnNames(t);
    forall i, k | 0 <= i < k < |names| ensures names[i] != names[k] {
      assert names[k] == t.columns[k - 1].name && t.columns[k - 1] in t.columns;
      assert i > 0 ==> names[i] == t.columns[i - 1].name;
    }
  }

  lemma RowsNameTheirColumns(db: Tables, done: set<string>, c: nat, n: nat)
    requires Valid(db) && c < |db| && n < |db[c].rows|
    ensures
      var now := Loading(db, done, c, n);
      InsertNamed(now, db[c].name, ColumnNames(db[c]), db[c].rows[n]) == InsertRow(now, db[c].name, db[c].rows[n])
  {
    hide InsertNamed, InsertRow, NotNullHolds, UniqueHolds, ReferencesHold, ValidColumns, ValidLinks;
    var now, t := Loading(db, done, c, n), db[c];
    assert t in db && ValidRow(db, t, n);
    SameNamesSameIndex(now, db, t.name);
    TableIndexAt(db, c);
    SameColumns(now[c], t);
    NamedInOrder(now, t.name, t.rows[n]);
  }

  /** What an export holds of one table, up to its first n rows, is loaded under the table's own names and types. */
  lemma {:induction false} ExportedTableLoads(now: Tables, t: Table, n: nat)
    requires ValidColumns(t.columns) && n <= |t.rows|
    requires TableIndex(now, t.name) < |now| && now[TableIndex(now, t.name)].columns == t.columns
    ensures LoadTable(now, FirstRows(ExportTable(t), n))
      == match InsertRows(now, t.name, ColumnNames(t), ColumnTypes(t), PrintRows(t.rows)[0..n])
         case Success(next) => Success((next, n))
         case Failure(error) => Failure(error)
  {
    var target, names := now[TableIndex(now, t.name)], ColumnNames(t);
    SameColumns(target, t);
    TypesInOrder(t);
    assert HeaderTypes(target, names) == HeaderTypes(t, names);
    var e := FirstRows(ExportTable(t), n);
    assert e.csv[0] == names && e.csv[1..] == PrintRows(t.rows)[0..n];
    hide InsertRows;
  }

  /** One table of the order, loaded after all its dependencies. */
  lemma TableLoads(db: Tables, done: set<string>, c: nat)
    requires Valid(db) && c < |db|
    requires db[c].name !in done && Dependencies(ExportTable(db[c])) <= done
    requires AllExportable(db[c])
    ensures LoadTable(Loading(db, done, 0, 0), ExportTable(db[c]))
         == if SelfReferencesBackward(db[c])
            then Success((Loading(db, done + {db[c].name}, 0, 0), |db[c].rows|)) else Failure(ForeignKeyViolation)
  {
    hide InsertRows, BackwardAt, ValidRows, ValidSchema;
    var now := Loading(db, done, 0, 0);
    assert now == Loading(db, done, c, 0);
    SameNamesSameIndex(now, db, db[c].name);
    ColumnsAreValid(db, c);
    SameColumns(now[c], db[c]);
    RowsInsert(db, done, c, 0, |db[c].rows|);
    ExportedTableLoads(now, db[c], |db[c].rows|);
    assert FirstRows(ExportTable(db[c]), |db[c].rows|) == ExportTable(db[c]);
    AllRowsLoaded(db, done, c);
    hide Valid, AllExportable, ExportTable, LoadTable, PrintRows, TableIndex, Loading;
  }

  lemma AllRowsLoaded(db: Tables, done: set<string>, c: nat)
    requires ValidSchema(db) && c < |db| && db[c].name !in done
    ensures Loading(db, done, c, |db[c].rows|) == Loading(db, done + {db[c].name}, 0, 0)
  {
    hide ValidColumns, ValidLinks;
    assert db[c].rows[..|db[c].rows|] == db[c].rows;
  }

  // ---------- all tables ----------

  function RowCount(order: seq<TableEntry>): nat {
    if order == [] then 0 else (if order[0].csv == [] then 0 else |order[0].csv| - 1) + RowCount(order[1..])
  }

  lemma {:induction false} RowCountConcat(a: seq<TableEntry>, b: seq<TableEntry>)
    ensures RowCount(a + b) == RowCount(a) + RowCount(b)
  {
    if a == [] {
      assert a + b == b;
    } else {
      assert (a + b)[1..] == a[1..] + b;
      RowCountConcat(a[1..], b);
    }
  }

  lemma RemoveOne(b: seq<TableEntry>, j: nat)
    requires j < |b|
    ensures
      var rest := b[..j] + b[j + 1..];
      multiset(b) == multiset{b[j]} + multiset(rest) && RowCount(b) == RowCount([b[j]]) + RowCount(rest)
  {
    assert b == b[..j] + ([b[j]] + b[j + 1..]);
    RowCountConcat(b[..j], [b[j]] + b[j + 1..]);
    RowCountConcat([b[j]], b[j + 1..]);
    RowCountConcat(b[..j], b[j + 1..]);
  }

  lemma IndexIn(a: seq<TableEntry>, b: seq<TableEntry>) returns (j: nat)
    requires a != [] && multiset(a) == multiset(b)
    ensures j < |b| && b[j] == a[0]
  {
    assert a[0] in multiset(a) && a[0] in multiset(b);
    j :| 0 <= j < |b| && b[j] == a[0];
  }

  lemma {:induction false} FirstAndRest(a: seq<TableEntry>)
    requires a != []
    ensures multiset(a) == multiset{a[0]} + multiset(a[1..]) && RowCount(a) == RowCount([a[0]]) + RowCount(a[1..])
  {
    assert a == [a[0]] + a[1..];
    RowCountConcat([a[0]], a[1..]);
  }

  lemma CancelOne(t: TableEntry, a: multiset<TableEntry>, b: multiset<TableEntry>)
    requires multiset{t} + a == multiset{t} + b
    ensures a == b
  {
    assert a == multiset{t} + a - multiset{t};
    assert b == multiset{t} + b - multiset{t};
  }

  lemma {:induction false} RowCountPermutation(a: seq<TableEntry>, b: seq<TableEntry>)
    requires multiset(a) == multiset(b)
    ensures RowCount(a) == RowCount(b)
    decreases |a|
  {
    if a == [] {
      assert |multiset(b)| == 0;
    } else {
      hide RowCount;
      var j := IndexIn(a, b);
      var rest := b[..j] + b[j + 1..];
      RemoveOne(b, j);
      FirstAndRest(a);
      CancelOne(a[0], multiset(a[1..]), multiset(rest));
      RowCountPermutation(a[1..], rest);
    }
  }

  lemma {:induction false} RowCountOfExport(db: Tables)
    ensures RowCount(Export(db)) == TotalRows(db)
  {
    if db != [] {
      assert Export(db)[1..] == Export(db[1..]);
      RowCountOfExport(db[1..]);
    }
  }

  ghost predicate OrderOf(db: Tables, order: seq<TableEntry>) {
    && DistinctNames(order)
    && DependenciesFirst(order, {})
    && (forall i :: 0 <= i < |order| ==> Exported(db, order[i]))
  }

  predicate Exported(db: Tables, e: TableEntry) {
    var c := TableIndex(db, e.name);
    c < |db| && e == ExportTable(db[c])
  }

  predicate LoadsBackward(db: Tables, e: TableEntry) {
    var c := TableIndex(db, e.name);
    c < |db| ==> SelfReferencesBackward(db[c])
  }

  /** Loading tables i to upTo of the order. */
  lemma {:induction false} TablesLoad(db: Tables, order: seq<TableEntry>, i: nat, upTo: nat)
    requires Valid(db) && forall t :: t in db ==> AllExportable(t)
    requires OrderOf(db, order) && i <= upTo <= |order|
    ensures LoadTables(Loading(db, Names(order[..i]), 0, 0), order[i..upTo])
         == if forall k :: i <= k < upTo ==> LoadsBackward(db, order[k])
            then Success((Loading(db, Names(order[..upTo]), 0, 0), RowCount(order[i..upTo])))
            else Failure(ForeignKeyViolation)
    decreases upTo - i
  {
    hide LoadTable, LoadsBackward, AllExportable, Loading, OrderOf, Valid, Names;
    if i < upTo {
      NextTableLoads(db, order, i);
      assert order[i..upTo][0] == order[i] && order[i..upTo][1..] == order[i + 1..upTo];
      TablesLoad(db, order, i + 1, upTo);
    }
  }

  lemma NextTableLoads(db: Tables, order: seq<TableEntry>, i: nat)
    requires Valid(db) && forall t :: t in db ==> AllExportable(t)
    requires OrderOf(db, order) && i < |order|
    ensures order[i].csv != []
    ensures LoadTable(Loading(db, Names(order[..i]), 0, 0), order[i])
         == if LoadsBackward(db, order[i])
            then Success((Loading(db, Names(order[..i + 1]), 0, 0), |order[i].csv| - 1)) else Failure(ForeignKeyViolation)
  {
    hide LoadTable, SelfReferencesBackward, AllExportable, Dependencies, ExportTable, ValidSchema, Loading;
    var e := order[i];
    assert Exported(db, e);
    var c := TableIndex(db, e.name);
    assert db[c] in db;
    ExportCounts(db[c]);
    assert db[c].name !in Names(order[..i]);
    assert Dependencies(e) <= Names(order[..i]) by {
      assert DependenciesFirst(order, {});
    }
    TableLoads(db, Names(order[..i]), c);
    assert order[..i + 1] == order[..i] + [e];
    NamesOfAppend(order[..i], e);
  }

  lemma ExportCounts(t: Table)
    ensures ExportTable(t).name == t.name
    ensures |ExportTable(t).csv| == 1 + |t.rows|
  {
  }

  /** A topological order of the exported entries is an order of the tables. */
  lemma ExportOrder(db: Tables, order: seq<TableEntry>)
    requires ValidSchema(db)
    requires LoadOrder(Export(db)) == Success(order)
    ensures OrderOf(db, order) && multiset(order) == multiset(Export(db))
    ensures forall t :: t in db ==> ExportTable(t) in order && t.name in Names(order)
  {
    hide ExportTable, ValidColumns, ValidLinks;
    var entries := Export(db);
    ExportKeepsNames(db);
    LoadOrderIsSortedPermutation(entries);
    PermutationKeepsDistinctNames(entries, order);
    SameMembers(order, entries);
    forall i | 0 <= i < |order| ensures Exported(db, order[i]) {
      assert order[i] in entries;
      var c :| 0 <= c < |db| && entries[c] == order[i];
      TableIndexAt(db, c);
      ExportCounts(db[c]);
    }
    forall t | t in db ensures ExportTable(t) in order && t.name in Names(order) {
      var c :| 0 <= c < |db| && db[c] == t;
      assert entries[c] in entries;
      ExportCounts(t);
    }
  }

  lemma ExportKeepsNames(db: Tables)
    requires DistinctTables(db)
    ensures DistinctNames(Export(db))
    ensures forall t :: t in db ==> t.name in Names(Export(db))
  {
    forall t | t in db ensures t.name in Names(Export(db)) {
      var c :| 0 <= c < |db| && db[c] == t;
      assert Export(db)[c] in Export(db) && Export(db)[c].name == t.name;
    }
  }

  /** Foreign keys of a valid database stay inside it. */
  lemma ExportIsClosed(db: Tables)
    requires ValidSchema(db)
    ensures !Dangling(Export(db))
  {
    hide ValidColumns;
    ExportKeepsNames(db);
    forall e | e in Export(db) ensures Dependencies(e) <= Names(Export(db)) {
      var c :| 0 <= c < |db| && Export(db)[c] == e;
      assert db[c] in db;
      forall d | d in Dependencies(e) ensures d in Names(Export(db)) {
        var j := TableIndex(db, d);
        assert db[j] in db;
      }
    }
  }

  /** With exportable values, a restore returns the database or is stopped by a reference to a row
      not yet inserted. */
  lemma {:induction false} LoadOfExportable(db: Tables, order: seq<TableEntry>)
    requires Valid(db) && forall t :: t in db ==> AllExportable(t)
    requires LoadOrder(Export(db)) == Success(order)
    ensures LoadTables(Linked(db, |db|, 0), order)
         == if forall t :: t in db ==> SelfReferencesBackward(t)
            then Success((db, TotalRows(db))) else Failure(ForeignKeyViolation)
  {
    hide SelfReferencesBackward, AllExportable, LoadTables, Export, ExportTable, ValidSchema, ValidRow,
      LoadsBackward, DependenciesFirst, DistinctNames, Exported, LoadOrder, Loading, Linked, RowCount, TotalRows;
    ExportOrder(db, order);
    TablesLoad(db, order, 0, |order|);
    assert order[..0] == [] && order[0..|order|] == order && order[..|order|] == order;
    assert Names(order[..0]) == {};
    LoadingEnds(db, Names(order));
    assert Loading(db, Names(order), 0, 0) == db;
    assert Linked(db, |db|, 0) == Loading(db, Names(order[..0]), 0, 0);
    RowCountPermutation(order, Export(db));
    RowCountOfExport(db);
    BackwardByOrder(db, order);
  }

  lemma LoadingEnds(db: Tables, all: set<string>)
    ensures Linked(db, |db|, 0) == Loading(db, {}, 0, 0)
    ensures (forall t :: t in db ==> t.name in all) ==> Loading(db, all, 0, 0) == db
  {
  }

  lemma BackwardByOrder(db: Tables, order: seq<TableEntry>)
    requires ValidSchema(db)
    requires forall i :: 0 <= i < |order| ==> Exported(db, order[i])
    requires forall t :: t in db ==> ExportTable(t) in order
    ensures (forall k :: 0 <= k < |order| ==> LoadsBackward(db, order[k]))
       <==> (forall t :: t in db ==> SelfReferencesBackward(t))
  {
  }

  // ---------- what any successful restore inserted ----------

  lemma TypesInOrder(t: Table)
    requires ValidColumns(t.columns)
    ensures Known(t, ColumnNames(t)) && HeaderTypes(t, ColumnNames(t)) == ColumnTypes(t)
  {
    NamesAreDistinct(t);
  }

  /** A table's entry cut off after n data lines. */
  function FirstRows(e: TableEntry, n: nat): TableEntry
    requires n < |e.csv|
  {
    e.(csv := e.csv[..n + 1])
  }

  function ConvertRows(lines: seq<seq<string>>, types: seq<DataType>): Result<seq<Row>, StatementError> {
    if lines == [] then Success([])
    else
      var row :- ConvertRow(lines[0], types);
      var rest :- ConvertRows(lines[1..], types);
      Success([row] + rest)
  }

  /** The CSV names the table's columns in their order, as every export does. */
  ghost predicate NamesInOrder(db: Tables, e: TableEntry) {
    var i := TableIndex(db, e.name);
    i < |db| && e.csv != [] ==> ValidColumns(db[i].columns) && e.csv[0] == ColumnNames(db[i])
  }

  lemma {:induction false} InsertRowsAppends(
      db: Tables, table: string, header: seq<string>, types: seq<DataType>, lines: seq<seq<string>>)
    requires InsertRows(db, table, header, types, lines).Success?
    requires
      var i := TableIndex(db, table); i < |db| && ValidColumns(db[i].columns) && header == ColumnNames(db[i])
    ensures ConvertRows(lines, types).Success?
    ensures
      var i := TableIndex(db, table);
      InsertRows(db, table, header, types, lines).value
        == db[i := db[i].(rows := db[i].rows + ConvertRows(lines, types).value)]
    decreases |lines|
  {
    hide ConvertRow, NotNullHolds, UniqueHolds, ReferencesHold, ValidColumns, Known, Distinct, OthersAreNull, Arranged;
    var i := TableIndex(db, table);
    if lines == [] {
      assert db[i].rows + [] == db[i].rows;
    } else {
      var row := ConvertRow(lines[0], types).value;
      NamedInOrder(db, table, row);
      var next := InsertRow(db, table, row).value;
      assert next == Appended(db, i, row);
      SameNamesSameIndex(next, db, table);
      SameColumns(next[i], db[i]);
      InsertRowsAppends(next, table, header, types, lines[1..]);
      var rest := ConvertRows(lines[1..], types).value;
      assert (db[i].rows + [row]) + rest == db[i].rows + ([row] + rest);
    }
  }

  /** Loading one table leaves names, columns and the rows of every other table alone. */
  lemma LoadTableEffect(db: Tables, e: TableEntry, c: nat)
    requires DistinctTables(db) && c < |db| && LoadTable(db, e).Success? && NamesInOrder(db, e)
    ensures
      var next := LoadTable(db, e).value.0;
      && SameNames(next, db) && (forall b :: 0 <= b < |db| ==> next[b].columns == db[b].columns)
      && (e.name != db[c].name ==> next[c].rows == db[c].rows)
      && (e.name == db[c].name && e.csv != [] ==>
            ConvertRows(e.csv[1..], ColumnTypes(db[c])).Success?
            && next[c].rows == db[c].rows + ConvertRows(e.csv[1..], ColumnTypes(db[c])).value)
  {
    hide InsertRows, ConvertRows, ValidColumns;
    TableIndexAt(db, c);
    if e.csv != [] {
      var t := db[TableIndex(db, e.name)];
      TypesInOrder(t);
      InsertRowsAppends(db, e.name, ColumnNames(t), ColumnTypes(t), e.csv[1..]);
    }
  }

  /** A load leaves the columns alone, so a CSV still names them in order afterwards. */
  lemma StillInOrder(db: Tables, next: Tables, e: TableEntry)
    requires SameNames(next, db) && NamesInOrder(db, e)
    requires forall b :: 0 <= b < |db| ==> next[b].columns == db[b].columns
    ensures NamesInOrder(next, e)
  {
    hide ValidColumns;
    SameNamesSameIndex(next, db, e.name);
    var i := TableIndex(db, e.name);
    if i < |db| {
      SameColumns(next[i], db[i]);
    }
  }

  lemma {:induction false} Untouched(db: Tables, order: seq<TableEntry>, c: nat)
    requires DistinctTables(db) && c < |db| && LoadTables(db, order).Success?
    requires forall e :: e in order ==> NamesInOrder(db, e)
    requires forall k :: 0 <= k < |order| ==> order[k].name != db[c].name
    ensures SameNames(LoadTables(db, order).value.0, db) && LoadTables(db, order).value.0[c].rows == db[c].rows
    decreases |order|
  {
    hide LoadTable, NamesInOrder;
    if order != [] {
      LoadTableEffect(db, order[0], c);
      var next := LoadTable(db, order[0]).value.0;
      forall e | e in order[1..] ensures NamesInOrder(next, e) {
        StillInOrder(db, next, e);
      }
      Untouched(next, order[1..], c);
    }
  }

  lemma {:induction false} LoadedRows(db: Tables, order: seq<TableEntry>, c: nat, k: nat)
    requires DistinctTables(db) && c < |db| && LoadTables(db, order).Success?
    requires DistinctNames(order) && k < |order| && order[k].name == db[c].name && order[k].csv != []
    requires forall e :: e in order ==> NamesInOrder(db, e)
    ensures
      var rows := ConvertRows(order[k].csv[1..], ColumnTypes(db[c]));
      rows.Success? && SameNames(LoadTables(db, order).value.0, db)
      && LoadTables(db, order).value.0[c].rows == db[c].rows + rows.value
    decreases |order|
  {
    hide LoadTable, ConvertRows, NamesInOrder;
    LoadTableEffect(db, order[0], c);
    var next := LoadTable(db, order[0]).value.0;
    forall e | e in order[1..] ensures NamesInOrder(next, e) {
      StillInOrder(db, next, e);
    }
    if k == 0 {
      Untouched(next, order[1..], c);
    } else {
      LoadedRows(next, order[1..], c, k - 1);
      SameColumns(next[c], db[c]);
    }
  }

  /** Whenever a restore succeeds, each table holds exactly its converted lines. */
  lemma RestoredRows(db: Tables, t: Table)
    requires Valid(db) && t in db && Restore(Export(db)).Success?
    ensures
      var rows, restored := ConvertRows(PrintRows(t.rows), ColumnTypes(t)), Restore(Export(db)).value.0;
      rows.Success? && (restored == db ==> t.rows == rows.value)
  {
    hide LoadTables, LoadOrder, CreateTables, LinkTables, ConvertRows, ValidRow, ValidColumns, ValidLinks, NamesInOrder,
      DependenciesFirst;
    SchemaRebuilds(db);
    var order := LoadOrder(Export(db)).value;
    ExportOrder(db, order);
    var empty := Linked(db, |db|, 0);
    var c :| 0 <= c < |db| && db[c] == t;
    var k :| 0 <= k < |order| && order[k] == ExportTable(t);
    ExportCounts(t);
    forall e | e in order ensures NamesInOrder(empty, e) {
      ExportsNameInOrder(db, e);
    }
    LoadedRows(empty, order, c, k);
    SameColumns(empty[c], t);
    assert order[k].csv[1..] == PrintRows(t.rows);
    assert empty[c].rows + ConvertRows(PrintRows(t.rows), ColumnTypes(t)).value
        == ConvertRows(PrintRows(t.rows), ColumnTypes(t)).value;
  }

  lemma ExportsNameInOrder(db: Tables, e: TableEntry)
    requires ValidSchema(db) && Exported(db, e)
    ensures NamesInOrder(Linked(db, |db|, 0), e)
  {
    hide ValidColumns, ValidLinks;
    var empty := Linked(db, |db|, 0);
    SameNamesSameIndex(empty, db, e.name);
    var i := TableIndex(db, e.name);
    if i < |db| {
      assert db[i] in db;
      SameColumns(empty[i], db[i]);
      assert e == ExportTable(db[i]);
    }
  }

  lemma {:induction false} ConvertRowsAt(lines: seq<seq<string>>, types: seq<DataType>, k: nat)
    requires ConvertRows(lines, types).Success? && k < |lines|
    ensures
      var rows := ConvertRows(lines, types).value;
      |rows| == |lines| && ConvertRow(lines[k], types) == Success(rows[k])
  {
    hide ConvertRow;
    if k > 0 {
      ConvertRowsAt(lines[1..], types, k - 1);
    } else if |lines| > 1 {
      ConvertRowsAt(lines[1..], types, 0);
    }
  }

  /** A restore that reproduces the database met only exportable values. */
  lemma ReproducedMeansExportable(db: Tables, t: Table)
    requires Valid(db) && t in db
    requires Restore(Export(db)).Success? && Restore(Export(db)).value.0 == db
    ensures AllExportable(t)
  {
    hide Restore, ConvertRow, Exportable, PrintRow, ValidSchema, HasType;
    RestoredRows(db, t);
    forall n | 0 <= n < |t.rows| ensures RowExportable(t.rows[n]) {
      assert ValidRow(db, t, n);
      ConvertRowsAt(PrintRows(t.rows), ColumnTypes(t), n);
      RowRoundTrip(t.rows[n], ColumnTypes(t));
    }
  }

  // ---------- what a restore builds ----------

  ghost predicate Unlinked(db: Tables) {
    && DistinctTables(db)
    && (forall t :: t in db ==> IsIdentifier(t.name) && ValidColumns(t.columns) && t.foreignKeys == [])
  }

  lemma CreateStaysUnlinked(db: Tables, name: string)
    requires Unlinked(db) && CreateTable(db, name).Success?
    ensures Unlinked(CreateTable(db, name).value)
  {
  }

  lemma ColumnStaysUnlinked(db: Tables, table: string, c: Column)
    requires Unlinked(db) && AddColumn(db, table, c).Success?
    ensures Unlinked(AddColumn(db, table, c).value)
  {
    hide IsIdentifier, ValidColumnType;
    var i := TableIndex(db, table);
    var t := db[i];
    assert t in db;
    forall k | 0 <= k < |t.columns| ensures t.columns[k].name != c.name {
      assert ColumnNames(t)[k + 1] == t.columns[k].name;
    }
  }

  lemma {:induction false} ColumnsStayUnlinked(db: Tables, table: string, cs: seq<Column>)
    requires Unlinked(db) && AddColumns(db, table, cs).Success?
    ensures Unlinked(AddColumns(db, table, cs).value)
    decreases |cs|
  {
    hide Unlinked, AddColumn;
    if cs != [] {
      ColumnStaysUnlinked(db, table, cs[0]);
      ColumnsStayUnlinked(AddColumn(db, table, cs[0]).value, table, cs[1..]);
    }
  }

  lemma {:induction false} TablesStayUnlinked(db: Tables, entries: seq<TableEntry>)
    requires Unlinked(db) && CreateTables(db, entries).Success?
    ensures Unlinked(CreateTables(db, entries).value)
    decreases |entries|
  {
    hide Unlinked, CreateTable, AddColumns;
    if entries != [] {
      var created := CreateTable(db, entries[0].name).value;
      CreateStaysUnlinked(db, entries[0].name);
      ColumnsStayUnlinked(created, entries[0].name, entries[0].columns);
      TablesStayUnlinked(AddColumns(created, entries[0].name, entries[0].columns).value, entries[1..]);
    }
  }

  ghost predicate SameColumnLists(a: Tables, b: Tables) {
    SameNames(a, b) && forall i :: 0 <= i < |a| ==> a[i].columns == b[i].columns
  }

  lemma {:induction false} LinksSeeColumns(a: Tables, b: Tables, i: nat, fk: ForeignKey)
    requires SameColumnLists(a, b) && i < |a|
    requires TableIndex(a, fk.referencesTable) < |a|
    requires ValidForeignKey(a[i], a[TableIndex(a, fk.referencesTable)], fk)
    ensures TableIndex(b, fk.referencesTable) < |b|
    ensures ValidForeignKey(b[i], b[TableIndex(b, fk.referencesTable)], fk)
  {
    SameNamesSameIndex(a, b, fk.referencesTable);
    var j := TableIndex(a, fk.referencesTable);
    SameColumns(a[i], b[i]);
    SameColumns(a[j], b[j]);
  }

  /** Valid links stay so in a database with the same columns, and a new one joins them if it fits and no other has
      its column. */
  lemma {:induction false} LinksFit(a: Tables, b: Tables, k: nat, added: seq<ForeignKey>)
    requires SameColumnLists(a, b) && k < |a| && ValidLinks(a, a[k]) && b[k].foreignKeys == a[k].foreignKeys + added
    requires forall fk :: fk in added ==>
      && !Referencing(a[k], fk.column) && TableIndex(a, fk.referencesTable) < |a|
      && ValidForeignKey(a[k], a[TableIndex(a, fk.referencesTable)], fk)
    requires |added| <= 1
    ensures ValidLinks(b, b[k])
  {
    hide ValidForeignKey;
    forall fk | fk in b[k].foreignKeys
      ensures TableIndex(b, fk.referencesTable) < |b|
      ensures ValidForeignKey(b[k], b[TableIndex(b, fk.referencesTable)], fk)
    {
      assert fk in a[k].foreignKeys || fk in added;
      LinksSeeColumns(a, b, k, fk);
    }
  }

  lemma LinkStaysValid(db: Tables, table: string, fk: ForeignKey)
    requires ValidSchema(db) && AddForeignKey(db, table, fk).Success?
    ensures ValidSchema(AddForeignKey(db, table, fk).value)
  {
    hide ValidColumns, ValidLinks, ValidForeignKey, IsIdentifier, HasColumn, Referencing;
    var next, i := AddForeignKey(db, table, fk).value, TableIndex(db, table);
    forall t | t in next ensures IsIdentifier(t.name) && ValidColumns(t.columns) && ValidLinks(next, t) {
      var k :| 0 <= k < |next| && next[k] == t;
      assert db[k] in db;
      LinksFit(db, next, k, if k == i then [fk] else []);
    }
  }

  lemma {:induction false} LinksStayValid(db: Tables, table: string, fks: seq<ForeignKey>)
    requires ValidSchema(db) && AddForeignKeys(db, table, fks).Success?
    ensures ValidSchema(AddForeignKeys(db, table, fks).value)
    decreases |fks|
  {
    hide ValidSchema, AddForeignKey;
    if fks != [] {
      LinkStaysValid(db, table, fks[0]);
      LinksStayValid(AddForeignKey(db, table, fks[0]).value, table, fks[1..]);
    }
  }

  lemma {:induction false} LinkedStayValid(db: Tables, entries: seq<TableEntry>)
    requires ValidSchema(db) && LinkTables(db, entries).Success?
    ensures ValidSchema(LinkTables(db, entries).value)
    decreases |entries|
  {
    hide ValidSchema, AddForeignKeys;
    if entries != [] {
      LinksStayValid(db, entries[0].name, entries[0].foreignKeys);
      LinkedStayValid(AddForeignKeys(db, entries[0].name, entries[0].foreignKeys).value, entries[1..]);
    }
  }

  lemma InsertKeepsSchema(db: Tables, table: string, row: Row)
    requires ValidSchema(db) && InsertRow(db, table, row).Success?
    ensures ValidSchema(InsertRow(db, table, row).value)
  {
    hide ValidColumns, ValidLinks, IsIdentifier, NotNullHolds, UniqueHolds, ReferencesHold;
    var next := InsertRow(db, table, row).value;
    forall t | t in next ensures IsIdentifier(t.name) && ValidColumns(t.columns) && ValidLinks(next, t) {
      var k :| 0 <= k < |next| && next[k] == t;
      assert db[k] in db;
      LinksFit(db, next, k, []);
    }
  }

  lemma {:induction false} InsertsKeepSchema(
      db: Tables, table: string, header: seq<string>, types: seq<DataType>, lines: seq<seq<string>>)
    requires ValidSchema(db) && InsertRows(db, table, header, types, lines).Success?
    ensures ValidSchema(InsertRows(db, table, header, types, lines).value)
    decreases |lines|
  {
    hide ValidSchema, InsertRow, ConvertRow, Known, Distinct, OthersAreNull;
    if lines != [] {
      var row := ConvertRow(lines[0], types).value;
      InsertKeepsSchema(db, table, Arranged(db[TableIndex(db, table)], header, row));
      InsertsKeepSchema(InsertNamed(db, table, header, row).value, table, header, types, lines[1..]);
    }
  }

  lemma {:induction false} LoadsKeepSchema(db: Tables, order: seq<TableEntry>)
    requires ValidSchema(db) && LoadTables(db, order).Success?
    ensures ValidSchema(LoadTables(db, order).value.0)
    decreases |order|
  {
    hide ValidSchema, InsertRows;
    if order != [] {
      var e := order[0];
      if e.csv != [] {
        InsertsKeepSchema(db, e.name, e.csv[0], HeaderTypes(db[TableIndex(db, e.name)], e.csv[0]), e.csv[1..]);
      }
      LoadsKeepSchema(LoadTable(db, e).value.0, order[1..]);
    }
  }

  /** Whatever a package holds, the schema that its restore builds is valid. */
  lemma RestoredSchemaIsValid(entries: seq<TableEntry>)
    requires Restore(entries).Success?
    ensures ValidSchema(Restore(entries).value.0)
  {
    hide CreateTables, LinkTables, LoadOrder, LoadTables, ValidColumns, IsIdentifier;
    TablesStayUnlinked([], entries);
    var created := CreateTables([], entries).value;
    LinkedStayValid(created, entries);
    LoadsKeepSchema(LinkTables(created, entries).value, LoadOrder(entries).value);
  }

  // ---------- the round trip ----------

  /** Exporting a database and restoring the package reproduces it, tables, columns, foreign keys and
      rows in order, with every row counted, exactly when its schema is valid (no foreign key refers to a column of
      another type), no two tables reference each other in a cycle, every value is exportable, and references of a
      table to itself point backward. */
  lemma {:induction false} RestoreOfExport(db: Tables)
    requires ValidRows(db)
    ensures Restore(Export(db)) == Success((db, TotalRows(db)))
       <==> && ValidSchema(db) && !Cyclic(Export(db))
            && forall t :: t in db ==> AllExportable(t) && SelfReferencesBackward(t)
  {
    hide Restore, ValidSchema, ValidRows, AllExportable, SelfReferencesBackward, Cyclic;
    if Restore(Export(db)) == Success((db, TotalRows(db))) {
      RestoredSchemaIsValid(Export(db));
    }
    if ValidSchema(db) {
      RestoreOfValid(db);
    }
  }

  lemma {:induction false} RestoreOfValid(db: Tables)
    requires Valid(db)
    ensures Restore(Export(db)) == Success((db, TotalRows(db)))
       <==> !Cyclic(Export(db)) && forall t :: t in db ==> AllExportable(t) && SelfReferencesBackward(t)
  {
    hide LoadTables, LoadOrder, CreateTables, LinkTables, Cyclic, Dangling, AllExportable, SelfReferencesBackward,
      ValidRow, ValidColumns, ValidLinks;
    SchemaRebuilds(db);
    ExportKeepsNames(db);
    ExportIsClosed(db);
    LoadOrderFailsExactlyOnCycles(Export(db));
    if Restore(Export(db)) == Success((db, TotalRows(db))) {
      forall t | t in db ensures AllExportable(t) {
        ReproducedMeansExportable(db, t);
      }
    }
    if LoadOrder(Export(db)).Success? && forall t :: t in db ==> AllExportable(t) {
      LoadOfExportable(db, LoadOrder(Export(db)).value);
    }
  }

  /** A cycle of references between tables stops the restore even where every row could be inserted. */
  lemma CyclicReferencesAreRefused(db: Tables)
    requires Valid(db) && Cyclic(Export(db))
    ensures Restore(Export(db)) == Failure(UnresolvableOrder)
  {
    hide LoadTables, LoadOrder, CreateTables, LinkTables, Cyclic, Dangling, ValidRow, ValidColumns, ValidLinks;
    SchemaRebuilds(db);
    ExportKeepsNames(db);
    LoadOrderFailsExactlyOnCycles(Export(db));
  }

  /** One stored timestamp anywhere makes the whole restore fail. */
  lemma TimestampBlocksRestore(db: Tables, t: Table, n: nat, i: nat)
    requires Valid(db) && t in db && n < |t.rows| && i < |t.rows[n]| && t.rows[n][i].Timestamp?
    ensures Restore(Export(db)).Failure?
  {
    hide Restore, ValidSchema, PrintRow, ConvertRow;
    if Restore(Export(db)).Success? {
      RestoredRows(db, t);
      ConvertRowsAt(PrintRows(t.rows), ColumnTypes(t), n);
      assert ValidRow(db, t, n);
      TimestampRowIsRefused(t.rows[n], ColumnTypes(t), i);
      assert false;
    }
  }

  lemma {:induction false} TimestampRowIsRefused(row: Row, types: seq<DataType>, i: nat)
    requires |row| == |types| && i < |row| && row[i].Timestamp? && HasType(row[i], types[i])
    ensures ConvertRow(PrintRow(row), types).Failure?
  {
    hide Convert, Print;
    assert PrintRow(row)[1..] == PrintRow(row[1..]);
    if i == 0 {
      TimestampIsRefused(row[0]);
    } else {
      TimestampRowIsRefused(row[1..], types[1..], i - 1);
    }
  }

  // ---------- integrity between inserts ----------

  ghost predicate Consistent(db: Tables) {
    forall i, k :: 0 <= i < |db| && 0 <= k < |db[i].rows| ==> ReferencesHold(db, db[i], db[i].rows[k])
  }

  /** The names a topological order may have finished with. */
  ghost predicate ClosedUnderReferences(db: Tables, done: set<string>) {
    forall t :: t in db && t.name in done ==> Dependencies(ExportTable(t)) <= done
  }

  /** Exactly what a topological order has finished with is closed under references. */
  lemma FinishedTablesAreClosed(db: Tables, order: seq<TableEntry>, i: nat)
    requires ValidSchema(db) && OrderOf(db, order) && i <= |order|
    requires forall t :: t in db ==> ExportTable(t) in order
    ensures ClosedUnderReferences(db, Names(order[..i]))
  {
    hide ValidColumns, ValidLinks;
    forall t | t in db && t.name in Names(order[..i])
      ensures Dependencies(ExportTable(t)) <= Names(order[..i])
    {
      var k :| 0 <= k < i && order[k].name == t.name;
      EntryByName(db, order, t, k);
      EarlierNames(order, k, i);
      hide Dependencies, ExportTable, Names;
      assert Dependencies(order[k]) <= {} + Names(order[..k]);
    }
  }

  lemma EntryByName(db: Tables, order: seq<TableEntry>, t: Table, k: nat)
    requires DistinctNames(order) && k < |order| && order[k].name == t.name && ExportTable(t) in order
    ensures order[k] == ExportTable(t)
  {
  }

  lemma EarlierNames(order: seq<TableEntry>, k: nat, i: nat)
    requires k <= i <= |order|
    ensures Names(order[..k]) <= Names(order[..i])
  {
    assert order[..i][..k] == order[..k];
  }

  /** The tenant schema when a restore has loaded the first i tables of its load order and n data lines of the
      next one, or the error that stopped it before. */
  function RestoredSoFar(entries: seq<TableEntry>, i: nat, n: nat): Result<Tables, StatementError> {
    var created :- CreateTables([], entries);
    var linked :- LinkTables(created, entries);
    match LoadOrder(entries)
    case Failure(_) => Failure(UnresolvableOrder)
    case Success(order) =>
      if |order| <= i || |order[i].csv| <= n then Failure(NoSuchObject)
      else
        var before :- LoadTables(linked, order[..i]);
        var next :- LoadTable(before.0, FirstRows(order[i], n));
        Success(next.0)
  }

  /** No reference of the tables before i, nor of the first n rows of table i, goes forward in its own table. */
  predicate BackwardSoFar(db: Tables, order: seq<TableEntry>, i: nat, n: nat)
    requires i < |order|
  {
    && (forall k :: 0 <= k < i ==> LoadsBackward(db, order[k]))
    && var c := TableIndex(db, order[i].name);
       c < |db| && n <= |db[c].rows| && forall m :: 0 <= m < n ==> BackwardAt(db[c], m)
  }

  /** Referential integrity holds after every single insert of a restore in load order. The inserts up to any point
      all succeed exactly when none of them refers forward in its own table (in particular when no foreign key is
      self-referencing); whenever they do, no row refers to a missing one, and the tables hold exactly the rows
      loaded so far. */
  lemma {:induction false} EveryInsertKeepsIntegrity(db: Tables, order: seq<TableEntry>, i: nat, n: nat)
    requires Valid(db) && forall t :: t in db ==> AllExportable(t)
    requires LoadOrder(Export(db)) == Success(order)
    requires i < |order| && n < |order[i].csv|
    ensures
      var now := RestoredSoFar(Export(db), i, n);
      && (now.Success? <==> BackwardSoFar(db, order, i, n))
      && (now.Success? ==>
            && Consistent(now.value)
            && now.value == Loading(db, Names(order[..i]), TableIndex(db, order[i].name), n))
  {
    hide AllExportable, LoadTables, Export, ExportTable, ValidSchema, ValidRow, LoadsBackward, BackwardAt, Consistent,
      DependenciesFirst, DistinctNames, LoadOrder, Loading, Linked, RowCount, CreateTables, LinkTables, InsertRows,
      ClosedUnderReferences, Dependencies;
    ExportOrder(db, order);
    SchemaRebuilds(db);
    LoadingEnds(db, Names(order));
    assert order[..0] == [] && order[0..i] == order[..i] && Names(order[..0]) == {};
    TablesLoad(db, order, 0, i);
    assert Exported(db, order[i]);
    var c := TableIndex(db, order[i].name);
    NextRows(db, order, i, n);
    FinishedTablesAreClosed(db, order, i);
    if BackwardSoFar(db, order, i, n) {
      LoadingStaysConsistent(db, Names(order[..i]), c, n);
    }
  }

  lemma {:induction false} ColumnsAreValid(db: Tables, c: nat)
    requires ValidSchema(db) && c < |db|
    ensures ValidColumns(db[c].columns) && TableIndex(db, db[c].name) == c
  {
    assert db[c] in db;
    TableIndexAt(db, c);
  }

  /** The inserts into the table after those finished. */
  lemma {:induction false} NextRows(db: Tables, order: seq<TableEntry>, i: nat, n: nat)
    requires Valid(db) && (forall t :: t in db ==> AllExportable(t)) && OrderOf(db, order)
    requires i < |order| && n < |order[i].csv|
    ensures
      var done, c := Names(order[..i]), TableIndex(db, order[i].name);
      var before := Loading(db, done, 0, 0);
      && c < |db| && db[c].name !in done && Dependencies(ExportTable(db[c])) <= done && n <= |db[c].rows|
      && LoadTable(before, FirstRows(order[i], n))
         == if forall m :: 0 <= m < n ==> BackwardAt(db[c], m)
            then Success((Loading(db, done, c, n), n)) else Failure(ForeignKeyViolation)
  {
    hide InsertRows, BackwardAt, AllExportable, ValidRow, ValidSchema, Dependencies;
    var e, done := order[i], Names(order[..i]);
    assert Exported(db, e);
    var c := TableIndex(db, e.name);
    assert db[c] in db && db[c].name !in done;
    assert Dependencies(e) <= done by {
      assert DependenciesFirst(order, {});
    }
    var before := Loading(db, done, 0, 0);
    assert before == Loading(db, done, c, 0);
    SameNamesSameIndex(before, db, e.name);
    SameColumns(before[c], db[c]);
    RowsInsert(db, done, c, 0, n);
    ColumnsAreValid(db, c);
    ExportedTableLoads(before, db[c], n);
  }

  /** While a table is loaded after everything it refers to, no row refers to a missing one. */
  lemma LoadingStaysConsistent(db: Tables, done: set<string>, c: nat, n: nat)
    requires Valid(db) && c < |db| && n <= |db[c].rows|
    requires ClosedUnderReferences(db, done)
    requires db[c].name !in done && Dependencies(ExportTable(db[c])) <= done
    requires forall m :: 0 <= m < n ==> BackwardAt(db[c], m)
    ensures Consistent(Loading(db, done, c, n))
  {
    hide ReferenceHolds, ValidSchema, UniqueHolds, NotNullHolds, Dependencies;
    var now := Loading(db, done, c, n);
    forall i, k | 0 <= i < |now| && 0 <= k < |now[i].rows| ensures ReferencesHold(now, now[i], now[i].rows[k]) {
      assert db[i] in db && ValidRow(db, db[i], k);
      assert now[i].rows[k] == db[i].rows[k];
      forall fk | fk in db[i].foreignKeys ensures ReferenceHolds(now, now[i], now[i].rows[k], fk) {
        RowStaysReferenced(db, done, c, n, i, k, fk);
      }
    }
  }

  lemma RowStaysReferenced(db: Tables, done: set<string>, c: nat, n: nat, i: nat, k: nat, fk: ForeignKey)
    requires Valid(db) && c < |db| && n <= |db[c].rows|
    requires ClosedUnderReferences(db, done)
    requires db[c].name !in done && Dependencies(ExportTable(db[c])) <= done
    requires forall m :: 0 <= m < n ==> BackwardAt(db[c], m)
    requires i < |db| && k < |Loading(db, done, c, n)[i].rows| && fk in db[i].foreignKeys
    ensures ReferenceHolds(Loading(db, done, c, n), Loading(db, done, c, n)[i], db[i].rows[k], fk)
  {
    hide Equal, UniqueHolds, NotNullHolds, TypedRow, ValidColumns, ValidLinks;
    var now, t, row := Loading(db, done, c, n), db[i], db[i].rows[k];
    var j := TableIndex(db, fk.referencesTable);
    assert t in db && ValidRow(db, t, k);
    assert ReferenceHolds(db, t, row, fk);
    SameNamesSameIndex(now, db, fk.referencesTable);
    SameColumns(now[i], t);
    if j < |db| {
      SameColumns(now[j], db[j]);
      if fk.referencesTable != t.name {
        assert fk.referencesTable in Dependencies(ExportTable(t));
        assert now[j].rows == db[j].rows;
      } else {
        TableIndexAt(db, i);
        if t.name !in done {
          assert BackwardAt(db[c], k) && BackwardFor(t, k, fk);
          HoldsInLonger(t.rows[..k + 1], now[j].rows, ColumnIndex(t, fk.referencesColumn),
                        row[ColumnIndex(t, fk.column)]);
        }
      }
    }
  }

  lemma HoldsInLonger(a: seq<Row>, b: seq<Row>, column: nat, v: Value)
    requires a <= b
    ensures Holds(a, column, v) ==> Holds(b, column, v)
  {
  }

  // ---------- packages of any origin ----------

  /** What stands under the names of `to`, of a list that stands under the names of `from`. */
  function Reordered<T>(from: seq<string>, to: seq<string>, xs: seq<T>): (ys: seq<T>)
    requires |xs| == |from| && forall k :: 0 <= k < |to| ==> to[k] in from
    ensures |ys| == |to|
  {
    seq(|to|, k requires 0 <= k < |to| => xs[NameIndex(from, to[k])])
  }

  /** The same entry with the columns of its CSV in another order; lines of a wrong length stay as they are. */
  function WithHeader(e: TableEntry, header: seq<string>): TableEntry
    requires e.csv != [] && |header| == |e.csv[0]| && forall k :: 0 <= k < |header| ==> header[k] in e.csv[0]
  {
    e.(csv := [header] + ReorderedLines(e.csv[0], header, e.csv[1..]))
  }

  function ReorderedLines(from: seq<string>, to: seq<string>, lines: seq<seq<string>>): (moved: seq<seq<string>>)
    requires |from| == |to| && forall k :: 0 <= k < |to| ==> to[k] in from
    ensures |moved| == |lines|
  {
    seq(|lines|, i requires 0 <= i < |lines| =>
      if |lines[i]| == |from| then Reordered(from, to, lines[i]) else lines[i])
  }

  lemma {:induction false} ConvertRowCellwise(cells: seq<string>, types: seq<DataType>)
    requires |cells| == |types|
    ensures
      match ConvertRow(cells, types)
      case Success(row) =>
        |row| == |cells| && forall k :: 0 <= k < |cells| ==> Convert(cells[k], types[k]) == Success(row[k])
      case Failure(error) => error == BadValue && exists k :: 0 <= k < |cells| && Convert(cells[k], types[k]).Failure?
    decreases |cells|
  {
    hide Convert;
    if cells != [] {
      ConvertRowCellwise(cells[1..], types[1..]);
      if Convert(cells[0], types[0]).Success? {
        match ConvertRow(cells[1..], types[1..]) {
          case Success(_) =>
          case Failure(_) =>
            var k :| 0 <= k < |cells[1..]| && Convert(cells[1..][k], types[1..][k]).Failure?;
            assert Convert(cells[k + 1], types[k + 1]).Failure?;
        }
      }
    }
  }

  /** The same names, none of them twice, in whatever order. */
  predicate Rearranged(from: seq<string>, to: seq<string>) {
    && |from| == |to| && Distinct(from) && Distinct(to)
    && (forall k :: 0 <= k < |to| ==> to[k] in from)
    && (forall i :: 0 <= i < |from| ==> from[i] in to)
  }

  lemma {:induction false} IndexInDistinct(names: seq<string>, k: nat)
    requires Distinct(names) && k < |names|
    ensures NameIndex(names, names[k]) == k
  {
  }

  /** Cells and types rearranged together convert to the rearranged values, or fail the same way. */
  lemma {:induction false} ConvertRearranged(from: seq<string>, to: seq<string>, cells: seq<string>, types: seq<DataType>)
    requires Rearranged(from, to) && |cells| == |types| == |from|
    ensures
      ConvertRow(Reordered(from, to, cells), Reordered(from, to, types))
        == match ConvertRow(cells, types)
           case Success(row) => Success(Reordered(from, to, row))
           case Failure(error) => Failure(error)
  {
    hide ConvertRow, Convert;
    var moved, kinds := Reordered(from, to, cells), Reordered(from, to, types);
    ConvertRowCellwise(cells, types);
    ConvertRowCellwise(moved, kinds);
    if ConvertRow(cells, types).Success? {
      var row := ConvertRow(cells, types).value;
      forall k | 0 <= k < |moved| ensures Convert(moved[k], kinds[k]) == Success(Reordered(from, to, row)[k]) {
        var i := NameIndex(from, to[k]);
        assert Convert(cells[i], types[i]) == Success(row[i]);
      }
      assert ConvertRow(moved, kinds).value == Reordered(from, to, row);
    } else {
      var i :| 0 <= i < |cells| && Convert(cells[i], types[i]).Failure?;
      var k := NameIndex(to, from[i]);
      IndexInDistinct(from, i);
      assert Convert(moved[k], kinds[k]).Failure?;
    }
  }

  lemma ArrangedAlike(t: Table, to: seq<string>, row: Row)
    requires ValidColumns(t.columns) && Rearranged(ColumnNames(t), to) && |row| == 1 + |t.columns|
    ensures Arranged(t, to, Reordered(ColumnNames(t), to, row)) == row
    ensures Known(t, to) && OthersAreNull(t, to)
  {
    var names := ColumnNames(t);
    hide ValidColumns;
    NamesAreDistinct(t);
    assert names[0] == "id";
    forall i | 0 <= i < |names| ensures Arranged(t, to, Reordered(names, to, row))[i] == row[i] {
      var k := NameIndex(to, names[i]);
      assert k < |to| && to[k] == names[i];
    }
    forall c | c in t.columns && c.defaultValue.Some? ensures c.name in to {
      var i :| 0 <= i < |t.columns| && t.columns[i] == c;
      assert names[i + 1] in to;
    }
  }

  lemma {:induction false} InsertsRearranged(
      db: Tables, table: string, to: seq<string>, lines: seq<seq<string>>)
    requires TableIndex(db, table) < |db|
    requires
      var t := db[TableIndex(db, table)]; ValidColumns(t.columns) && Rearranged(ColumnNames(t), to)
    ensures
      var t := db[TableIndex(db, table)];
      var names := ColumnNames(t);
      InsertRows(db, table, to, Reordered(names, to, ColumnTypes(t)), ReorderedLines(names, to, lines))
        == InsertRows(db, table, names, ColumnTypes(t), lines)
    decreases |lines|
  {
    hide ConvertRow, InsertRow, InsertNamed, ValidColumns, Reordered, Distinct;
    var t := db[TableIndex(db, table)];
    var names, types := ColumnNames(t), ColumnTypes(t);
    if lines != [] {
      var moved := ReorderedLines(names, to, lines);
      assert moved[1..] == ReorderedLines(names, to, lines[1..]);
      if |lines[0]| == |names| {
        ConvertRearranged(names, to, lines[0], types);
        if ConvertRow(lines[0], types).Success? {
          var row := ConvertRow(lines[0], types).value;
          RowInsertsRearranged(db, table, to, row);
          if InsertRow(db, table, row).Success? {
            InsertKeepsColumns(db, table, row);
            InsertsRearranged(InsertRow(db, table, row).value, table, to, lines[1..]);
          }
        }
      } else {
        WrongLength(lines[0], types);
        WrongLength(lines[0], Reordered(names, to, types));
      }
    }
  }

  lemma {:induction false} WrongLength(cells: seq<string>, types: seq<DataType>)
    requires |cells| != |types|
    ensures ConvertRow(cells, types) == Failure(MalformedRow)
  {
  }

  lemma {:induction false} RowInsertsRearranged(db: Tables, table: string, to: seq<string>, row: Row)
    requires TableIndex(db, table) < |db|
    requires
      var t := db[TableIndex(db, table)];
      ValidColumns(t.columns) && Rearranged(ColumnNames(t), to) && |row| == 1 + |t.columns|
    ensures
      var names := ColumnNames(db[TableIndex(db, table)]);
      && InsertNamed(db, table, names, row) == InsertRow(db, table, row)
      && InsertNamed(db, table, to, Reordered(names, to, row)) == InsertRow(db, table, row)
  {
    hide InsertRow, ValidColumns, Known, OthersAreNull, Arranged, Distinct;
    var t := db[TableIndex(db, table)];
    NamedInOrder(db, table, row);
    ArrangedAlike(t, to, row);
  }

  lemma {:induction false} InsertKeepsColumns(db: Tables, table: string, row: Row)
    requires InsertRow(db, table, row).Success?
    ensures
      var i, next := TableIndex(db, table), InsertRow(db, table, row).value;
      TableIndex(next, table) == i < |db| == |next| && next[i].columns == db[i].columns
      && ColumnNames(next[i]) == ColumnNames(db[i]) && ColumnTypes(next[i]) == ColumnTypes(db[i])
  {
    hide NotNullHolds, UniqueHolds, ReferencesHold;
    var i, next := TableIndex(db, table), InsertRow(db, table, row).value;
    assert next == Appended(db, i, row);
    SameNamesSameIndex(next, db, table);
    SameColumns(next[i], db[i]);
  }

  /** The columns of a CSV are found by their names: listed in any other order, the same table is loaded, or the
      load stops with the same error. */
  lemma {:induction false} HeaderOrderDoesNotMatter(db: Tables, e: TableEntry, header: seq<string>)
    requires TableIndex(db, e.name) < |db| && e.csv != []
    requires
      var t := db[TableIndex(db, e.name)];
      ValidColumns(t.columns) && e.csv[0] == ColumnNames(t) && Rearranged(ColumnNames(t), header)
    ensures LoadTable(db, WithHeader(e, header)) == LoadTable(db, e)
  {
    hide InsertRows, ValidColumns, Distinct;
    var t := db[TableIndex(db, e.name)];
    var names := ColumnNames(t);
    TypesInOrder(t);
    InsertsRearranged(db, e.name, header, e.csv[1..]);
    assert HeaderTypes(t, header) == Reordered(names, header, ColumnTypes(t));
    assert WithHeader(e, header).csv[1..] == ReorderedLines(names, header, e.csv[1..]);
  }

  lemma InsertStaysConsistent(db: Tables, table: string, row: Row)
    requires Consistent(db) && InsertRow(db, table, row).Success?
    ensures Consistent(InsertRow(db, table, row).value)
  {
    hide ReferenceHolds, NotNullHolds, UniqueHolds;
    var c, next := TableIndex(db, table), InsertRow(db, table, row).value;
    forall i, k | 0 <= i < |next| && 0 <= k < |next[i].rows| ensures ReferencesHold(next, next[i], next[i].rows[k]) {
      forall fk | fk in next[i].foreignKeys ensures ReferenceHolds(next, next[i], next[i].rows[k], fk) {
        if i == c && k == |db[c].rows| {
          ReferenceSeesColumns(next, next[i], db[i], row, fk);
        } else {
          assert ReferencesHold(db, db[i], db[i].rows[k]);
          AppendedStaysReferenced(db, c, row, db[i], db[i].rows[k], fk);
          ReferenceSeesColumns(next, next[i], db[i], db[i].rows[k], fk);
        }
      }
    }
  }

  lemma AppendedStaysReferenced(db: Tables, c: nat, added: Row, t: Table, row: Row, fk: ForeignKey)
    requires c < |db| && ReferenceHolds(db, t, row, fk)
    ensures ReferenceHolds(Appended(db, c, added), t, row, fk)
  {
    hide Equal;
    var next, j := Appended(db, c, added), TableIndex(db, fk.referencesTable);
    SameNamesSameIndex(next, db, fk.referencesTable);
    if j < |db| {
      SameColumns(next[j], db[j]);
      HoldsInLonger(db[j].rows, next[j].rows, ColumnIndex(db[j], fk.referencesColumn), row[ColumnIndex(t, fk.column)]);
    }
  }

  lemma {:induction false} InsertsStayConsistent(
      db: Tables, table: string, header: seq<string>, types: seq<DataType>, lines: seq<seq<string>>)
    requires Consistent(db) && InsertRows(db, table, header, types, lines).Success?
    ensures Consistent(InsertRows(db, table, header, types, lines).value)
    decreases |lines|
  {
    hide Consistent, InsertRow, ConvertRow, Known, Distinct, OthersAreNull;
    if lines != [] {
      var row := ConvertRow(lines[0], types).value;
      InsertStaysConsistent(db, table, Arranged(db[TableIndex(db, table)], header, row));
      InsertsStayConsistent(InsertNamed(db, table, header, row).value, table, header, types, lines[1..]);
    }
  }

  lemma LoadStaysConsistent(db: Tables, e: TableEntry)
    requires Consistent(db) && LoadTable(db, e).Success?
    ensures Consistent(LoadTable(db, e).value.0)
  {
    hide Consistent, InsertRows;
    if e.csv != [] {
      InsertsStayConsistent(db, e.name, e.csv[0], HeaderTypes(db[TableIndex(db, e.name)], e.csv[0]), e.csv[1..]);
    }
  }

  lemma {:induction false} LoadsStayConsistent(db: Tables, order: seq<TableEntry>)
    requires Consistent(db) && LoadTables(db, order).Success?
    ensures Consistent(LoadTables(db, order).value.0)
    decreases |order|
  {
    hide Consistent, LoadTable;
    if order != [] {
      LoadStaysConsistent(db, order[0]);
      LoadsStayConsistent(LoadTable(db, order[0]).value.0, order[1..]);
    }
  }

  ghost predicate NoRows(db: Tables) {
    forall t :: t in db ==> t.rows == []
  }

  lemma {:induction false} ColumnsHaveNoRows(db: Tables, table: string, cs: seq<Column>)
    requires NoRows(db) && AddColumns(db, table, cs).Success?
    ensures NoRows(AddColumns(db, table, cs).value)
    decreases |cs|
  {
    if cs != [] {
      ColumnsHaveNoRows(AddColumn(db, table, cs[0]).value, table, cs[1..]);
    }
  }

  lemma {:induction false} CreatedHaveNoRows(db: Tables, entries: seq<TableEntry>)
    requires NoRows(db) && CreateTables(db, entries).Success?
    ensures NoRows(CreateTables(db, entries).value)
    decreases |entries|
  {
    hide AddColumns;
    if entries != [] {
      var created := CreateTable(db, entries[0].name).value;
      ColumnsHaveNoRows(created, entries[0].name, entries[0].columns);
      CreatedHaveNoRows(AddColumns(created, entries[0].name, entries[0].columns).value, entries[1..]);
    }
  }

  lemma {:induction false} KeysHaveNoRows(db: Tables, table: string, fks: seq<ForeignKey>)
    requires NoRows(db) && AddForeignKeys(db, table, fks).Success?
    ensures NoRows(AddForeignKeys(db, table, fks).value)
    decreases |fks|
  {
    hide ValidForeignKey, Referencing, HasColumn;
    if fks != [] {
      KeysHaveNoRows(AddForeignKey(db, table, fks[0]).value, table, fks[1..]);
    }
  }

  lemma {:induction false} LinkedHaveNoRows(db: Tables, entries: seq<TableEntry>)
    requires NoRows(db) && LinkTables(db, entries).Success?
    ensures NoRows(LinkTables(db, entries).value)
    decreases |entries|
  {
    hide AddForeignKeys;
    if entries != [] {
      KeysHaveNoRows(db, entries[0].name, entries[0].foreignKeys);
      LinkedHaveNoRows(AddForeignKeys(db, entries[0].name, entries[0].foreignKeys).value, entries[1..]);
    }
  }

  /** For packages of any origin the database's own checks see to it that no row ever refers to a missing one. */
  lemma AnyRestoreKeepsIntegrity(entries: seq<TableEntry>, i: nat, n: nat)
    requires RestoredSoFar(entries, i, n).Success?
    ensures Consistent(RestoredSoFar(entries, i, n).value)
  {
    var created := CreateTables([], entries).value;
    var linked := LinkTables(created, entries).value;
    var order := LoadOrder(entries).value;
    hide CreateTables, LinkTables, LoadOrder, LoadTable, LoadTables;
    CreatedHaveNoRows([], entries);
    LinkedHaveNoRows(created, entries);
    assert Consistent(linked);
    LoadsStayConsistent(linked, order[..i]);
    LoadStaysConsistent(LoadTables(linked, order[..i]).value.0, FirstRows(order[i], n));
  }

  // ---------- databases a restore does not bring back ----------

  /** A row that refers to a later row of its own table stops the restore. */
  lemma ForwardReferenceIsRefused(db: Tables, t: Table, n: nat)
    requires Valid(db) && !Cyclic(Export(db)) && forall u :: u in db ==> AllExportable(u)
    requires t in db && n < |t.rows| && !BackwardAt(t, n)
    ensures Restore(Export(db)) == Failure(ForeignKeyViolation)
  {
    hide LoadTables, LoadOrder, CreateTables, LinkTables, Cyclic, Dangling, AllExportable, BackwardAt,
      ValidRow, ValidColumns, ValidLinks;
    SchemaRebuilds(db);
    ExportKeepsNames(db);
    ExportIsClosed(db);
    LoadOrderFailsExactlyOnCycles(Export(db));
    LoadOfExportable(db, LoadOrder(Export(db)).value);
    assert !SelfReferencesBackward(t);
  }

  /** A table with one nullable column that references the key of `target`. */
  function Pointing(name: string, column: string, target: string, rows: seq<Row>): Table {
    Table(name, [Column(column, UuidType, None, None, None, true, false, None)],
          [ForeignKey(column, target, "id", Restrict)], rows)
  }

  lemma PointingColumns(name: string, column: string, target: string, rows: seq<Row>)
    requires column != "id"
    ensures
      var t := Pointing(name, column, target, rows);
      && ColumnNames(t) == ["id", column] && ColumnTypes(t) == [UuidType, UuidType]
      && ColumnIndex(t, "id") == 0 && ColumnIndex(t, column) == 1
  {
  }

  const ONE: Hex := seq(32, _ => '1')
  const TWO: Hex := seq(32, _ => '2')

  /** Two tables whose only rows refer to each other through nullable columns. */
  const MUTUAL: Tables := [
    Pointing("a", "x", "b", [[Uuid(ONE), Uuid(TWO)]]),
    Pointing("b", "y", "a", [[Uuid(TWO), Uuid(ONE)]])]

  lemma MutualSchemaIsValid()
    ensures ValidSchema(MUTUAL)
    ensures TableIndex(MUTUAL, "a") == 0 && TableIndex(MUTUAL, "b") == 1
  {
    var a, b := MUTUAL[0], MUTUAL[1];
    PointingColumns("a", "x", "b", a.rows);
    PointingColumns("b", "y", "a", b.rows);
    assert TableIndex(MUTUAL, "a") == 0 && TableIndex(MUTUAL, "b") == 1;
    assert ValidColumns(a.columns) && ValidColumns(b.columns);
    assert ValidLinks(MUTUAL, a) && ValidLinks(MUTUAL, b);
  }

  /** A single row whose reference is found in the target table. */
  lemma {:induction false} PointingRowIsValid(db: Tables, i: nat, j: nat, column: string, from: Hex, to: Hex)
    requires i < |db| && j < |db| && column != "id"
    requires db[i] == Pointing(db[i].name, column, db[j].name, [[Uuid(from), Uuid(to)]])
    requires TableIndex(db, db[j].name) == j
    requires ColumnIndex(db[j], "id") == 0
    requires |db[j].rows| > 0 && |db[j].rows[0]| > 0 && db[j].rows[0][0] == Uuid(to)
    ensures ValidRow(db, db[i], 0)
  {
    var t := db[i];
    PointingColumns(t.name, column, db[j].name, t.rows);
    assert Equal(db[j].rows[0][0], t.rows[0][1]);
    assert ReferenceHolds(db, t, t.rows[0], t.foreignKeys[0]);
  }

  lemma MutualIsValid()
    ensures Valid(MUTUAL)
  {
    hide ValidSchema, ValidRow;
    MutualSchemaIsValid();
    PointingColumns("a", "x", "b", MUTUAL[0].rows);
    PointingColumns("b", "y", "a", MUTUAL[1].rows);
    PointingRowIsValid(MUTUAL, 0, 1, "x", ONE, TWO);
    PointingRowIsValid(MUTUAL, 1, 0, "y", TWO, ONE);
  }

  lemma MutualReferencesAreValidButRefused()
    ensures Valid(MUTUAL) && Restore(Export(MUTUAL)) == Failure(UnresolvableOrder)
  {
    hide Restore, Valid;
    MutualIsValid();
    var a, b := ExportTable(MUTUAL[0]), ExportTable(MUTUAL[1]);
    assert Export(MUTUAL)[0] == a && Export(MUTUAL)[1] == b;
    assert a in Export(MUTUAL) && b in Export(MUTUAL);
    assert a.foreignKeys[0].referencesTable in Dependencies(a);
    assert b.foreignKeys[0].referencesTable in Dependencies(b);
    assert Graph.IsCycle(Edges(Export(MUTUAL)), ["a", "b", "a"]);
    CyclicReferencesAreRefused(MUTUAL);
  }
}
