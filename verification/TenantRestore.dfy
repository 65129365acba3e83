/**
 Export of one tenant database and its restore through the schema service: tables and columns, then
 foreign keys, then rows in dependency order.
 */
module TenantRestore {
  import opened Wrappers
  import opened Schema
  import opened TextCodec
  import opened TenantDatabase
  import opened TopologicalOrder

  // ---------- export ----------

  function PrintRow(row: Row): seq<string> {
    seq(|row|, i requires 0 <= i < |row| => Print(row[i]))
  }

  function PrintRows(rows: seq<Row>): seq<seq<string>> {
    seq(|rows|, i requires 0 <= i < |rows| => PrintRow(rows[i]))
  }

  /** A table's entry in schema.json together with its CSV: a header line, then the rows. */
  function ExportTable(t: Table): TableEntry {
    TableEntry(t.name, t.columns, t.foreignKeys, [ColumnNames(t)] + PrintRows(t.rows))
  }

  function Export(db: Tables): seq<TableEntry> {
    seq(|db|, i requires 0 <= i < |db| => ExportTable(db[i]))
  }

  // ---------- specification of the restore ----------

  function AddColumns(db: Tables, table: string, cs: seq<Column>): Result<Tables, StatementError>
    decreases |cs|
  {
    if cs == [] then Success(db)
    else
      var next :- AddColumn(db, table, cs[0]);
      AddColumns(next, table, cs[1..])
  }

  function CreateTables(db: Tables, entries: seq<TableEntry>): Result<Tables, StatementError>
    decreases |entries|
  {
    if entries == [] then Success(db)
    else
      var created :- CreateTable(db, entries[0].name);
      var next :- AddColumns(created, entries[0].name, entries[0].columns);
      CreateTables(next, entries[1..])
  }

  function AddForeignKeys(db: Tables, table: string, fks: seq<ForeignKey>): Result<Tables, StatementError>
    decreases |fks|
  {
    if fks == [] then Success(db)
    else
      var next :- AddForeignKey(db, table, fks[0]);
      AddForeignKeys(next, table, fks[1..])
  }

  function LinkTables(db: Tables, entries: seq<TableEntry>): Result<Tables, StatementError>
    decreases |entries|
  {
    if entries == [] then Success(db)
    else
      var next :- AddForeignKeys(db, entries[0].name, entries[0].foreignKeys);
      LinkTables(next, entries[1..])
  }

  function ConvertRow(cells: seq<string>, types: seq<DataType>): (row: Result<Row, StatementError>)
    ensures row.Success? ==> |row.value| == |cells| == |types|
  {
    if |cells| != |types| then Failure(MalformedRow)
    else if cells == [] then Success([])
    else
      match Convert(cells[0], types[0])
      case Failure(_) => Failure(BadValue)
      case Success(v) =>
        var rest :- ConvertRow(cells[1..], types[1..]);
        Success([v] + rest)
  }

  function InsertRows(
      db: Tables, table: string, header: seq<string>, types: seq<DataType>, lines: seq<seq<string>>)
    : Result<Tables, StatementError>
    decreases |lines|
  {
    if lines == [] then Success(db)
    else
      var row :- ConvertRow(lines[0], types);
      var next :- InsertNamed(db, table, header, row);
      InsertRows(next, table, header, types, lines[1..])
  }

  /** The types of the columns that a header names. */
  function HeaderTypes(t: Table, header: seq<string>): (types: seq<DataType>)
    requires Known(t, header)
    ensures |types| == |header|
  {
    seq(|header|, k requires 0 <= k < |header| => ColumnTypes(t)[NameIndex(ColumnNames(t), header[k])])
  }

  /** An empty CSV restores nothing; otherwise its first line names columns of the table, in any order. */
  function LoadTable(db: Tables, e: TableEntry): Result<(Tables, nat), StatementError> {
    var i := TableIndex(db, e.name);
    if i == |db| then Failure(NoSuchObject)
    else if e.csv == [] then Success((db, 0))
    else if !Known(db[i], e.csv[0]) then Failure(NoSuchObject)
    else
      var next :- InsertRows(db, e.name, e.csv[0], HeaderTypes(db[i], e.csv[0]), e.csv[1..]);
      Success((next, |e.csv| - 1))
  }

  function LoadTables(db: Tables, order: seq<TableEntry>): Result<(Tables, nat), StatementError>
    decreases |order|
  {
    if order == [] then Success((db, 0))
    else
      var first :- LoadTable(db, order[0]);
      var rest :- LoadTables(first.0, order[1..]);
      Success((rest.0, first.1 + rest.1))
  }

  /** The restored tables and the number of rows imported. */
  function Restore(entries: seq<TableEntry>): Result<(Tables, nat), StatementError> {
    var created :- CreateTables([], entries);
    var linked :- LinkTables(created, entries);
    match LoadOrder(entries)
    case Failure(_) => Failure(UnresolvableOrder)
    case Success(order) => LoadTables(linked, order)
  }

  // ---------- the code ----------

  /** A connection to one freshly created tenant schema. */
  class TenantConnection {
    var tables: Tables

    constructor ()
      ensures tables == []
    {
      tables := [];
    }

    method Execute(statement: Result<Tables, StatementError>) returns (error: Option<StatementError>)
      modifies this
      ensures statement.Success? ==> error == None && tables == statement.value
      ensures statement.Failure? ==> error == Some(statement.error) && tables == old(tables)
    {
      match statement {
        case Success(next) => tables := next; error := None;
        case Failure(e) => error := Some(e);
      }
    }

    method RestoreSchema(entries: seq<TableEntry>) returns (error: Option<StatementError>)
      modifies this
      ensures
        match CreateTables(old(tables), entries)
        case Failure(e) => error == Some(e)
        case Success(created) =>
          match LinkTables(created, entries)
          case Failure(e) => error == Some(e)
          case Success(linked) => error == None && tables == linked
    {
      for i := 0 to |entries|
        invariant CreateTables(tables, entries[i..]) == CreateTables(old(tables), entries)
      {
        var e := entries[i];
        assert entries[i..][0] == e && entries[i..][1..] == entries[i + 1..];
        error := Execute(CreateTable(tables, e.name));
        if error.Some? {
          return;
        }
        label Created:
        for k := 0 to |e.columns|
          invariant AddColumns(tables, e.name, e.columns[k..]) == AddColumns(old@Created(tables), e.name, e.columns)
        {
          assert e.columns[k..][0] == e.columns[k] && e.columns[k..][1..] == e.columns[k + 1..];
          error := Execute(AddColumn(tables, e.name, e.columns[k]));
          if error.Some? {
            return;
          }
        }
      }
      label Linking:
      for i := 0 to |entries|
        invariant LinkTables(tables, entries[i..]) == LinkTables(old@Linking(tables), entries)
      {
        var e := entries[i];
        assert entries[i..][0] == e && entries[i..][1..] == entries[i + 1..];
        label Start:
        for k := 0 to |e.foreignKeys|
          invariant AddForeignKeys(tables, e.name, e.foreignKeys[k..])
                 == AddForeignKeys(old@Start(tables), e.name, e.foreignKeys)
        {
          assert e.foreignKeys[k..][0] == e.foreignKeys[k] && e.foreignKeys[k..][1..] == e.foreignKeys[k + 1..];
          error := Execute(AddForeignKey(tables, e.name, e.foreignKeys[k]));
          if error.Some? {
            return;
          }
        }
      }
      error := None;
    }

    /** Converts and inserts the data lines of one table, one INSERT each. */
    method RestoreRows(e: TableEntry) returns (error: Option<StatementError>, count: nat)
      modifies this
      ensures
        match LoadTable(old(tables), e)
        case Failure(err) => error == Some(err)
        case Success((next, n)) => error == None && tables == next && count == n
    {
      count := 0;
      var i := TableIndex(tables, e.name);
      if i == |tables| {
        return Some(NoSuchObject), 0;
      }
      if e.csv == [] {
        return None, 0;
      }
      var header := e.csv[0];
      if !Known(tables[i], header) {
        return Some(NoSuchObject), 0;
      }
      var types := HeaderTypes(tables[i], header);
      for k := 1 to |e.csv|
        invariant count == k - 1
        invariant InsertRows(tables, e.name, header, types, e.csv[k..])
          == InsertRows(old(tables), e.name, header, types, e.csv[1..])
      {
        assert e.csv[k..][0] == e.csv[k] && e.csv[k..][1..] == e.csv[k + 1..];
        var row := ConvertRow(e.csv[k], types);
        if row.Failure? {
          return Some(row.error), count;
        }
        error := Execute(InsertNamed(tables, e.name, header, row.value));
        if error.Some? {
          return;
        }
        count := count + 1;
      }
      error := None;
    }

    method RestoreTables(order: seq<TableEntry>) returns (error: Option<StatementError>, rowsImported: nat)
      modifies this
      ensures
        match LoadTables(old(tables), order)
        case Failure(e) => error == Some(e)
        case Success((next, n)) => error == None && tables == next && rowsImported == n
    {
      hide LoadTable, LoadTables;
      rowsImported := 0;
      assert order[0..] == order;
      for i := 0 to |order|
        invariant
          match LoadTables(tables, order[i..])
          case Failure(e) => LoadTables(old(tables), order) == Failure(e)
          case Success((next, n)) => LoadTables(old(tables), order) == Success((next, rowsImported + n))
      {
        NextTable(tables, order, i);
        var count;
        error, count := RestoreRows(order[i]);
        if error.Some? {
          return;
        }
        rowsImported := rowsImported + count;
      }
      assert order[|order|..] == [];
      NoTables(tables);
      error := None;
    }

    method RestoreTenantDatabase(entries: seq<TableEntry>)
      returns (error: Option<StatementError>, rowsImported: nat)
      requires tables == []
      modifies this
      ensures
        match Restore(entries)
        case Failure(e) => error == Some(e)
        case Success((db, n)) => error == None && tables == db && rowsImported == n
    {
      error := RestoreSchema(entries);
      if error.Some? {
        return error, 0;
      }
      var order := ComputeLoadOrder(entries);
      if order.Failure? {
        return Some(UnresolvableOrder), 0;
      }
      error, rowsImported := RestoreTables(order.value);
    }
  }
  lemma {:induction false} NextTable(db: Tables, order: seq<TableEntry>, i: nat)
    requires i < |order|
    ensures LoadTables(db, order[i..])
      == match LoadTable(db, order[i])
         case Failure(e) => Failure(e)
         case Success((next, n)) =>
           match LoadTables(next, order[i + 1..])
           case Failure(e) => Failure(e)
           case Success((last, m)) => Success((last, n + m))
  {
    hide LoadTable;
    assert order[i..][0] == order[i] && order[i..][1..] == order[i + 1..];
  }

  lemma {:induction false} NoTables(db: Tables)
    ensures LoadTables(db, []) == Success((db, 0))
  {
  }
}
