/**
 One tenant schema: tables in creation order, their constraints, and the statements that change it.
 Every table has a primary key column "id" that its column list leaves out.
 */
module TenantDatabase {
  import opened Wrappers
  import opened Schema
  import opened Numerals
  import opened TextCodec

  /** A row lists the value of "id" and then of each column in order. */
  type Row = seq<Value>

  datatype Table = Table(name: string, columns: seq<Column>, foreignKeys: seq<ForeignKey>, rows: seq<Row>)

  type Tables = seq<Table>

  datatype StatementError =
    | InvalidIdentifier | AlreadyExists | InvalidType | NoSuchObject | InvalidForeignKey
    | MalformedRow | BadValue | NotNullViolation | UniqueViolation | ForeignKeyViolation
    | UnresolvableOrder
    /** A column is left to its default, which the model does not compute. */
    | DefaultNeeded

  // ---------- lookups ----------

  function TableIndex(db: Tables, name: string): (i: nat)
    ensures i <= |db|
    ensures i < |db| ==> db[i].name == name
    ensures forall k :: 0 <= k < i ==> db[k].name != name
  {
    if db == [] || db[0].name == name then 0 else 1 + TableIndex(db[1..], name)
  }

  function ColumnNames(t: Table): (names: seq<string>)
    ensures |names| == 1 + |t.columns|
  {
    ["id"] + seq(|t.columns|, i requires 0 <= i < |t.columns| => t.columns[i].name)
  }

  function ColumnTypes(t: Table): (types: seq<DataType>)
    ensures |types| == 1 + |t.columns|
  {
    [UuidType] + seq(|t.columns|, i requires 0 <= i < |t.columns| => t.columns[i].dataType)
  }

  function NameIndex(names: seq<string>, name: string): (i: nat)
    ensures i <= |names|
    ensures i < |names| ==> names[i] == name
    ensures i == |names| <==> name !in names
  {
    if names == [] || names[0] == name then 0 else 1 + NameIndex(names[1..], name)
  }

  function ColumnIndex(t: Table, name: string): (i: nat)
    ensures i <= 1 + |t.columns|
  {
    NameIndex(ColumnNames(t), name)
  }

  predicate HasColumn(t: Table, name: string) {
    ColumnIndex(t, name) < 1 + |t.columns|
  }

  predicate UniqueAt(t: Table, i: nat)
    requires i < 1 + |t.columns|
  {
    i == 0 || t.columns[i - 1].isUnique
  }

  predicate NullableAt(t: Table, i: nat)
    requires i < 1 + |t.columns|
  {
    i > 0 && t.columns[i - 1].isNullable
  }

  // ---------- schema statements ----------

  predicate IsIdentifier(s: string) {
    && 1 <= |s| <= 63
    && 'a' <= s[0] <= 'z'
    && forall i :: 0 <= i < |s| ==> 'a' <= s[i] <= 'z' || IsDigit(s[i]) || s[i] == '_'
  }

  const MAX_VARCHAR_LENGTH := 10_485_760
  const MAX_DECIMAL_PRECISION := 1000

  function OrElse(o: Option<nat>, default: nat): nat {
    if o.Some? then o.value else default
  }

  predicate ValidColumnType(c: Column) {
    match c.dataType
    case VarcharType => 0 < OrElse(c.maxLength, 255) <= MAX_VARCHAR_LENGTH
    case DecimalType =>
      0 < OrElse(c.precision, 18) <= MAX_DECIMAL_PRECISION && OrElse(c.scale, 4) <= OrElse(c.precision, 18)
    case _ => true
  }

  function CreateTable(db: Tables, name: string): Result<Tables, StatementError> {
    if !IsIdentifier(name) then Failure(InvalidIdentifier)
    else if TableIndex(db, name) < |db| then Failure(AlreadyExists)
    else Success(db + [Table(name, [], [], [])])
  }

  function AddColumn(db: Tables, table: string, c: Column): Result<Tables, StatementError> {
    var i := TableIndex(db, table);
    if !IsIdentifier(c.name) || c.name == "id" then Failure(InvalidIdentifier)
    else if !ValidColumnType(c) then Failure(InvalidType)
    else if i == |db| then Failure(NoSuchObject)
    else if HasColumn(db[i], c.name) then Failure(AlreadyExists)
    else Success(db[i := db[i].(columns := db[i].columns + [c])])
  }

  /** What add_foreign_key demands of the two columns. */
  predicate ValidForeignKey(t: Table, other: Table, fk: ForeignKey) {
    var c, r := ColumnIndex(t, fk.column), ColumnIndex(other, fk.referencesColumn);
    && HasColumn(t, fk.column) && HasColumn(other, fk.referencesColumn)
    && UniqueAt(other, r)
    && ColumnTypes(t)[c] == ColumnTypes(other)[r]
    && (fk.onDelete == SetNull ==> NullableAt(t, c))
  }

  predicate Referencing(t: Table, column: string) {
    exists fk :: fk in t.foreignKeys && fk.column == column
  }

  /** Adds a constraint to a table that has no rows yet. */
  function AddForeignKey(db: Tables, table: string, fk: ForeignKey): Result<Tables, StatementError> {
    var i, j := TableIndex(db, table), TableIndex(db, fk.referencesTable);
    if i == |db| || j == |db| then Failure(NoSuchObject)
    else if !HasColumn(db[i], fk.column) || !HasColumn(db[j], fk.referencesColumn) then Failure(NoSuchObject)
    else if !ValidForeignKey(db[i], db[j], fk) || Referencing(db[i], fk.column) then Failure(InvalidForeignKey)
    else Success(db[i := db[i].(foreignKeys := db[i].foreignKeys + [fk])])
  }

  // ---------- rows ----------

  /** Equality as the database sees it: decimals by magnitude, everything else literally. */
  predicate Equal(a: Value, b: Value) {
    if a.Dec? && b.Dec? then
      var low := if a.exponent < b.exponent then a.exponent else b.exponent;
      var x, y := a.coefficient * Power10(a.exponent - low), b.coefficient * Power10(b.exponent - low);
      x == y && (x == 0 || a.negative == b.negative)
    else a == b
  }

  predicate NotNullHolds(t: Table, row: Row)
    requires |row| == 1 + |t.columns|
  {
    forall i :: 0 <= i < |row| ==> NullableAt(t, i) || row[i] != Null
  }

  /** No unique column of `row` repeats a value of an earlier row; nulls never clash. */
  predicate UniqueHolds(t: Table, earlier: seq<Row>, row: Row)
    requires |row| == 1 + |t.columns|
  {
    forall i, k :: 0 <= i < |row| && 0 <= k < |earlier| && UniqueAt(t, i) && row[i] != Null && i < |earlier[k]|
      ==> !Equal(earlier[k][i], row[i])
  }

  /** Some row holds v in the given column. */
  predicate Holds(rows: seq<Row>, column: nat, v: Value) {
    exists k :: 0 <= k < |rows| && column < |rows[k]| && Equal(rows[k][column], v)
  }

  predicate ReferenceHolds(db: Tables, t: Table, row: Row, fk: ForeignKey) {
    var c, j := ColumnIndex(t, fk.column), TableIndex(db, fk.referencesTable);
    && c < |row|
    && (row[c] == Null || (j < |db| && Holds(db[j].rows, ColumnIndex(db[j], fk.referencesColumn), row[c])))
  }

  predicate ReferencesHold(db: Tables, t: Table, row: Row) {
    forall fk :: fk in t.foreignKeys ==> ReferenceHolds(db, t, row, fk)
  }

  function Appended(db: Tables, i: nat, row: Row): Tables
    requires i < |db|
  {
    db[i := db[i].(rows := db[i].rows + [row])]
  }

  /** One INSERT.  A row may refer to itself, since references are checked after it is in place. */
  function InsertRow(db: Tables, table: string, row: Row): Result<Tables, StatementError> {
    var i := TableIndex(db, table);
    if i == |db| then Failure(NoSuchObject)
    else if |row| != 1 + |db[i].columns| then Failure(MalformedRow)
    else if !NotNullHolds(db[i], row) then Failure(NotNullViolation)
    else if !UniqueHolds(db[i], db[i].rows, row) then Failure(UniqueViolation)
    else if !ReferencesHold(Appended(db, i, row), db[i], row) then Failure(ForeignKeyViolation)
    else Success(Appended(db, i, row))
  }

  predicate Known(t: Table, names: seq<string>) {
    forall k :: 0 <= k < |names| ==> names[k] in ColumnNames(t)
  }

  predicate Distinct(names: seq<string>) {
    forall i, k :: 0 <= i < k < |names| ==> names[i] != names[k]
  }

  /** Every column that is not named would be NULL: it is neither "id" nor has it a default. */
  predicate OthersAreNull(t: Table, names: seq<string>) {
    "id" in names && forall c :: c in t.columns && c.defaultValue.Some? ==> c.name in names
  }

  /** The row with the given values under the given names and NULL elsewhere. */
  function Arranged(t: Table, names: seq<string>, values: Row): (row: Row)
    requires |values| == |names|
    ensures |row| == 1 + |t.columns|
  {
    seq(1 + |t.columns|, i requires 0 <= i < 1 + |t.columns| =>
      var k := NameIndex(names, ColumnNames(t)[i]);
      if k < |names| then values[k] else Null)
  }

  /** One INSERT that names its columns, in any order. */
  function InsertNamed(db: Tables, table: string, names: seq<string>, values: Row): Result<Tables, StatementError> {
    var i := TableIndex(db, table);
    if i == |db| || !Known(db[i], names) then Failure(NoSuchObject)
    else if |values| != |names| || !Distinct(names) then Failure(MalformedRow)
    else if !OthersAreNull(db[i], names) then Failure(DefaultNeeded)
    else InsertRow(db, table, Arranged(db[i], names, values))
  }
}
