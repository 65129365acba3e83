/** What each statement on a tenant schema accepts and what it does, in terms of its tables, columns and rows. */
module TenantStatements {
  import opened Wrappers
  import opened Schema
  import opened Numerals
  import opened TextCodec
  import opened TenantDatabase

  // ---------- schema statements ----------

  predicate IsTable(db: Tables, name: string) {
    exists t :: t in db && t.name == name
  }

  /** A small letter, then small letters, digits and underscores, 63 characters at most. */
  predicate Named(s: string) {
    && s != "" && |s| < 64 && 'a' <= s[0] <= 'z'
    && forall c :: c in s ==> 'a' <= c <= 'z' || '0' <= c <= '9' || c == '_'
  }

  lemma NamesExactly(s: string)
    ensures IsIdentifier(s) <==> Named(s)
  {
    if Named(s) {
      forall i | 0 <= i < |s| ensures 'a' <= s[i] <= 'z' || IsDigit(s[i]) || s[i] == '_' {
        assert s[i] in s;
      }
    }
  }

  lemma {:induction false} TablesExactly(db: Tables, name: string)
    ensures TableIndex(db, name) < |db| <==> IsTable(db, name)
  {
    if TableIndex(db, name) < |db| {
      assert db[TableIndex(db, name)] in db;
    }
  }

  /** A table is created empty, exactly under a valid name that is free. */
  lemma TableIsCreated(db: Tables, name: string)
    ensures CreateTable(db, name).Success? <==> Named(name) && !IsTable(db, name)
    ensures CreateTable(db, name).Success? ==> CreateTable(db, name).value == db + [Table(name, [], [], [])]
  {
    NamesExactly(name);
    TablesExactly(db, name);
  }

  /** A text of limited length has a limit from 1 to 10485760, 255 if none is given; a decimal has a precision from 1 to
      1000, 18 if none is given, and a scale up to that, 4 if none is given. */
  predicate TypeFits(c: Column) {
    var limit := match c.maxLength case Some(n) => n case None => 255;
    var precision := match c.precision case Some(n) => n case None => 18;
    var scale := match c.scale case Some(n) => n case None => 4;
    && (c.dataType == VarcharType ==> 1 <= limit <= 10_485_760)
    && (c.dataType == DecimalType ==> 1 <= precision <= 1000 && scale <= precision)
  }

  predicate HasColumnNamed(t: Table, name: string) {
    name == "id" || exists c :: c in t.columns && c.name == name
  }

  lemma ColumnsExactly(t: Table, name: string)
    ensures HasColumn(t, name) <==> HasColumnNamed(t, name)
    ensures ColumnIndex(t, name) == 0 <==> name == "id"
    ensures 0 < ColumnIndex(t, name) < 1 + |t.columns| ==>
      var c := t.columns[ColumnIndex(t, name) - 1];
      c.name == name && ColumnTypes(t)[ColumnIndex(t, name)] == c.dataType
  {
    var names := ColumnNames(t);
    assert names[0] == "id";
    if c :| c in t.columns && c.name == name {
      var i :| 0 <= i < |t.columns| && t.columns[i] == c;
      assert names[i + 1] == name;
    }
    if name in names && name != "id" {
      var i :| 0 <= i < |names| && names[i] == name;
      assert t.columns[i - 1] in t.columns;
    }
  }

  /** A column is added last to its table, exactly if the table is there, the name is valid and free, and the type's
      limits fit. */
  lemma {:induction false} ColumnIsAdded(db: Tables, table: string, c: Column)
    ensures
      var i := TableIndex(db, table);
      && (AddColumn(db, table, c).Success?
          <==> IsTable(db, table) && Named(c.name) && TypeFits(c) && !HasColumnNamed(db[i], c.name))
      && (AddColumn(db, table, c).Success? ==>
            AddColumn(db, table, c).value
              == db[..i] + [Table(table, db[i].columns + [c], db[i].foreignKeys, db[i].rows)] + db[i + 1..])
  {
    NamesExactly(c.name);
    TablesExactly(db, table);
    var i := TableIndex(db, table);
    if i < |db| {
      ColumnsExactly(db[i], c.name);
      ReplacedInPlace(db, i, db[i].(columns := db[i].columns + [c]));
    }
    hide IsIdentifier, Named, HasColumn, HasColumnNamed, TableIndex;
  }

  lemma ReplacedInPlace(db: Tables, i: nat, t: Table)
    requires i < |db|
    ensures db[i := t] == db[..i] + [t] + db[i + 1..]
  {
  }

  function KeyColumn(): Column {
    Column("id", UuidType, None, None, None, false, true, None)
  }

  /** The column of that name: the key, or the one in the list. */
  ghost predicate IsColumn(t: Table, name: string, c: Column) {
    HasColumn(t, name)
    && c == if ColumnIndex(t, name) == 0 then KeyColumn() else t.columns[ColumnIndex(t, name) - 1]
  }

  /** A foreign key is added to its table exactly if both columns are there and of one type, the referenced one is unique,
      the column has no foreign key yet, and it may be NULL if deletion is to make it so. */
  lemma {:induction false} ForeignKeyIsAdded(db: Tables, table: string, fk: ForeignKey, c: Column, r: Column)
    requires IsTable(db, table) && IsTable(db, fk.referencesTable)
    requires IsColumn(db[TableIndex(db, table)], fk.column, c)
    requires IsColumn(db[TableIndex(db, fk.referencesTable)], fk.referencesColumn, r)
    ensures
      var i := TableIndex(db, table);
      && (AddForeignKey(db, table, fk).Success?
          <==> && c.dataType == r.dataType && r.isUnique
               && (fk.onDelete == SetNull ==> c.isNullable)
               && (forall other :: other in db[i].foreignKeys ==> other.column != fk.column))
      && (AddForeignKey(db, table, fk).Success? ==>
            AddForeignKey(db, table, fk).value
              == db[..i] + [Table(table, db[i].columns, db[i].foreignKeys + [fk], db[i].rows)] + db[i + 1..])
  {
    TablesExactly(db, table);
    TablesExactly(db, fk.referencesTable);
    var i, j := TableIndex(db, table), TableIndex(db, fk.referencesTable);
    FitsExactly(db[i], db[j], fk, c, r);
    ReplacedInPlace(db, i, db[i].(foreignKeys := db[i].foreignKeys + [fk]));
    hide TableIndex, HasColumn, ValidForeignKey, Referencing, IsTable;
  }

  lemma FitsExactly(t: Table, other: Table, fk: ForeignKey, c: Column, r: Column)
    requires IsColumn(t, fk.column, c) && IsColumn(other, fk.referencesColumn, r)
    ensures HasColumn(t, fk.column) && HasColumn(other, fk.referencesColumn)
    ensures ValidForeignKey(t, other, fk) && !Referencing(t, fk.column)
      <==> && c.dataType == r.dataType && r.isUnique
           && (fk.onDelete == SetNull ==> c.isNullable)
           && (forall one :: one in t.foreignKeys ==> one.column != fk.column)
  {
    ColumnsExactly(t, fk.column);
    ColumnsExactly(other, fk.referencesColumn);
    hide HasColumnNamed, ColumnIndex;
  }

  /** Where a table or a column is missing it is refused. */
  lemma {:induction false} ForeignKeyNeedsItsColumns(db: Tables, table: string, fk: ForeignKey)
    ensures AddForeignKey(db, table, fk).Success? ==>
      && IsTable(db, table) && IsTable(db, fk.referencesTable)
      && HasColumnNamed(db[TableIndex(db, table)], fk.column)
      && HasColumnNamed(db[TableIndex(db, fk.referencesTable)], fk.referencesColumn)
  {
    TablesExactly(db, table);
    TablesExactly(db, fk.referencesTable);
    if AddForeignKey(db, table, fk).Success? {
      ColumnsExactly(db[TableIndex(db, table)], fk.column);
      ColumnsExactly(db[TableIndex(db, fk.referencesTable)], fk.referencesColumn);
    }
  }

  // ---------- equality of values ----------

  /** Ten to the power e, for any e. */
  function Ten(e: int): (p: real)
    ensures p > 0.0
    decreases if e < 0 then -e else e
  {
    if e == 0 then 1.0 else if e > 0 then 10.0 * Ten(e - 1) else Ten(e + 1) / 10.0
  }

  lemma TenStep(e: int)
    ensures Ten(e + 1) == 10.0 * Ten(e)
  {
  }

  lemma Regroup(a: real, b: real, c: real)
    ensures a * (b * c) == (a * b) * c
  {
  }

  lemma {:induction false} TenSplits(k: nat, low: int)
    ensures Ten(low + k) == Power10(k) as real * Ten(low)
    decreases k
  {
    if k > 0 {
      TenSplits(k - 1, low);
      TenStep(low + k - 1);
      PowerStep(k);
      hide Ten, Power10;
      Regroup(10.0, Power10(k - 1) as real, Ten(low));
    } else {
      assert Power10(0) == 1;
      hide Ten;
    }
  }

  lemma PowerStep(k: nat)
    requires k > 0
    ensures Power10(k) as real == 10.0 * Power10(k - 1) as real
  {
  }

  /** c times ten to the power e. */
  function Scaled(c: nat, e: int): real {
    c as real * Ten(e)
  }

  function Shifted(c: nat, k: nat): (n: int) {
    c * Power10(k)
  }

  /** The number that a decimal stands for. */
  function Number(v: Value): real
    requires v.Dec?
  {
    if v.negative then 0.0 - Scaled(v.coefficient, v.exponent) else Scaled(v.coefficient, v.exponent)
  }

  lemma ProductAsReal(a: int, b: int)
    ensures (a * b) as real == a as real * b as real
  {
  }

  lemma Regrouped(c: nat, p: nat, t: real, u: real)
    requires u == p as real * t
    ensures c as real * u == (c * p) as real * t
  {
    ProductAsReal(c, p);
    Regroup(c as real, p as real, t);
  }

  lemma ShiftedIsNatural(c: nat, k: nat)
    ensures Shifted(c, k) >= 0
  {
  }

  lemma {:induction false} ShiftedNumber(c: nat, e: int, k: nat)
    ensures Shifted(c, k) >= 0 && Scaled(c, e + k) == Scaled(Shifted(c, k), e)
  {
    ShiftedIsNatural(c, k);
    TenSplits(k, e);
    hide Ten, Power10;
    Regrouped(c, Power10(k), Ten(e), Ten(e + k));
  }

  lemma SameScaled(x: nat, y: nat, e: int)
    ensures Scaled(x, e) == Scaled(y, e) <==> x == y
    ensures Scaled(x, e) >= 0.0
    ensures Scaled(x, e) == 0.0 <==> x == 0
  {
    Cancels(x, y, Ten(e));
    hide Ten;
  }

  lemma Cancels(x: nat, y: nat, t: real)
    requires t > 0.0
    ensures x as real * t == y as real * t <==> x == y
    ensures x as real * t >= 0.0 && (x as real * t == 0.0 <==> x == 0)
  {
    if x as real * t == y as real * t {
      assert (x as real - y as real) * t == 0.0;
    }
  }

  /** The database takes two decimals for equal exactly if they stand for one number, whatever their exponents and, for
      zero, their signs; other values if they are the same. */
  lemma {:induction false} EqualMeansSameNumber(a: Value, b: Value)
    ensures Equal(a, b) <==> if a.Dec? && b.Dec? then Number(a) == Number(b) else a == b
  {
    if a.Dec? && b.Dec? {
      var low := if a.exponent < b.exponent then a.exponent else b.exponent;
      var j, k := a.exponent - low, b.exponent - low;
      EqualByShifted(a, b, j, k);
      ShiftedNumber(a.coefficient, low, j);
      ShiftedNumber(b.coefficient, low, k);
      SameScaled(Shifted(a.coefficient, j), Shifted(b.coefficient, k), low);
      SameScaled(Shifted(b.coefficient, k), Shifted(a.coefficient, j), low);
      hide Equal, Scaled, Shifted;
    }
  }

  lemma EqualByShifted(a: Value, b: Value, j: nat, k: nat)
    requires a.Dec? && b.Dec?
    requires a.exponent - j == b.exponent - k == if a.exponent < b.exponent then a.exponent else b.exponent
    ensures Equal(a, b)
      <==> && Shifted(a.coefficient, j) == Shifted(b.coefficient, k)
           && (Shifted(a.coefficient, j) == 0 || a.negative == b.negative)
  {
    hide Power10;
  }

  // ---------- rows ----------

  /** The column at a position of a row. */
  function ColumnAt(t: Table, i: nat): Column
    requires i < 1 + |t.columns|
  {
    if i == 0 then KeyColumn() else t.columns[i - 1]
  }

  /** Some row has this value there. */
  predicate Occurs(rows: seq<Row>, i: nat, v: Value) {
    exists row :: row in rows && i < |row| && Equal(row[i], v)
  }

  lemma OccursExactly(rows: seq<Row>, i: nat, v: Value)
    ensures Holds(rows, i, v) <==> Occurs(rows, i, v)
  {
    if Occurs(rows, i, v) {
      var row :| row in rows && i < |row| && Equal(row[i], v);
      var k :| 0 <= k < |rows| && rows[k] == row;
      assert Equal(rows[k][i], v);
    }
  }

  /** No value is missing that may not be, and none is in a unique column that has it already. */
  ghost predicate CellsFit(t: Table, row: Row)
    requires |row| == 1 + |t.columns|
  {
    && (forall i :: 0 <= i < |row| ==> row[i] == Null ==> ColumnAt(t, i).isNullable)
    && (forall i :: 0 <= i < |row| ==> row[i] != Null && ColumnAt(t, i).isUnique ==> !Occurs(t.rows, i, row[i]))
  }

  /** Every value of a foreign key that is not NULL occurs in the referenced column, the row's own included. */
  ghost predicate ReferencesFit(db: Tables, t: Table, row: Row)
    requires |row| == 1 + |t.columns|
  {
    forall fk :: fk in t.foreignKeys && HasColumn(t, fk.column) && row[ColumnIndex(t, fk.column)] != Null ==>
      && IsTable(db, fk.referencesTable)
      && var other := db[TableIndex(db, fk.referencesTable)];
         var rows := if fk.referencesTable == t.name then other.rows + [row] else other.rows;
         Occurs(rows, ColumnIndex(other, fk.referencesColumn), row[ColumnIndex(t, fk.column)])
  }

  lemma CellsFitExactly(t: Table, row: Row)
    requires |row| == 1 + |t.columns|
    ensures NotNullHolds(t, row) && UniqueHolds(t, t.rows, row) <==> CellsFit(t, row)
  {
    forall i | 0 <= i < |row| ensures NullableAt(t, i) == ColumnAt(t, i).isNullable && UniqueAt(t, i) == ColumnAt(t, i).isUnique {}
    hide Equal, NullableAt, UniqueAt, ColumnAt;
    if CellsFit(t, row) {
      forall i, k | 0 <= i < |row| && 0 <= k < |t.rows| && UniqueAt(t, i) && row[i] != Null && i < |t.rows[k]|
        ensures !Equal(t.rows[k][i], row[i])
      {
        assert t.rows[k] in t.rows;
      }
    }
    if NotNullHolds(t, row) && UniqueHolds(t, t.rows, row) {
      forall i | 0 <= i < |row| && row[i] != Null && ColumnAt(t, i).isUnique ensures !Occurs(t.rows, i, row[i]) {
        OccursExactly(t.rows, i, row[i]);
      }
    }
  }

  lemma {:induction false} ReferenceFitsExactly(db: Tables, i: nat, row: Row, fk: ForeignKey)
    requires i < |db| && i == TableIndex(db, db[i].name) && |row| == 1 + |db[i].columns|
    requires HasColumn(db[i], fk.column)
    ensures
      var t, v := db[i], row[ColumnIndex(db[i], fk.column)];
      ReferenceHolds(Appended(db, i, row), t, row, fk)
      <==> (v != Null ==>
              && IsTable(db, fk.referencesTable)
              && var other := db[TableIndex(db, fk.referencesTable)];
                 var rows := if fk.referencesTable == t.name then other.rows + [row] else other.rows;
                 Occurs(rows, ColumnIndex(other, fk.referencesColumn), v))
  {
    var t, next := db[i], Appended(db, i, row);
    TablesExactly(db, fk.referencesTable);
    SameTables(db, next, fk.referencesTable);
    var j := TableIndex(db, fk.referencesTable);
    var v := row[ColumnIndex(t, fk.column)];
    hide Equal, Occurs, Holds, IsTable;
    if j < |db| {
      assert ColumnNames(next[j]) == ColumnNames(db[j]);
      assert j == i <==> fk.referencesTable == t.name;
      OccursExactly(next[j].rows, ColumnIndex(db[j], fk.referencesColumn), v);
    }
  }

  lemma {:induction false} SameTables(a: Tables, b: Tables, name: string)
    requires |a| == |b| && forall k :: 0 <= k < |a| ==> a[k].name == b[k].name
    ensures TableIndex(a, name) == TableIndex(b, name)
  {
    if a != [] {
      SameTables(a[1..], b[1..], name);
    }
  }

  /** A row is inserted last in its table exactly if it has a value for every column, its cells fit and its references
      fit; nothing else changes. */
  lemma {:induction false} RowIsInserted(db: Tables, table: string, row: Row)
    requires IsTable(db, table)
    requires forall fk :: fk in db[TableIndex(db, table)].foreignKeys ==> HasColumn(db[TableIndex(db, table)], fk.column)
    ensures
      var i := TableIndex(db, table);
      var r := InsertRow(db, table, row);
      && (r.Success? <==> |row| == 1 + |db[i].columns| && CellsFit(db[i], row) && ReferencesFit(db, db[i], row))
      && (r.Success? ==>
            r.value == db[..i] + [Table(table, db[i].columns, db[i].foreignKeys, db[i].rows + [row])] + db[i + 1..])
  {
    TablesExactly(db, table);
    var i := TableIndex(db, table);
    var t := db[i];
    if |row| == 1 + |t.columns| {
      CellsFitExactly(t, row);
      forall fk | fk in t.foreignKeys {
        ReferenceFitsExactly(db, i, row, fk);
      }
      ReplacedInPlace(db, i, t.(rows := t.rows + [row]));
      hide NotNullHolds, UniqueHolds, CellsFit, ReferenceHolds, TableIndex, ColumnIndex, HasColumn, Occurs;
    }
  }

  // ---------- inserts that name their columns ----------

  /** The row has each value under its name, and NULL in the columns that are not named. */
  ghost predicate PutUnder(t: Table, names: seq<string>, values: Row, row: Row) {
    && |row| == 1 + |t.columns| && |values| == |names|
    && (forall k :: 0 <= k < |names| ==> HasColumn(t, names[k]) && row[ColumnIndex(t, names[k])] == values[k])
    && (forall i :: 0 <= i < |row| && ColumnNames(t)[i] !in names ==> row[i] == Null)
  }

  lemma {:induction false} IndexOf(names: seq<string>, k: nat)
    requires Distinct(names) && k < |names|
    ensures NameIndex(names, names[k]) == k
  {
  }

  /** An INSERT that names its columns inserts the row with each value under its name, exactly if the names are columns of
      the table, no two of them the same, and none is left out that is "id" or has a default (which the model does
      not compute). */
  lemma {:induction false} NamedRowIsInserted(db: Tables, table: string, names: seq<string>, values: Row)
    requires IsTable(db, table)
    ensures
      var t := db[TableIndex(db, table)];
      var sound :=
        && |values| == |names| && (forall n :: n in names ==> HasColumnNamed(t, n))
        && (forall i, k :: 0 <= i < k < |names| ==> names[i] != names[k])
        && "id" in names && (forall c :: c in t.columns && c.name !in names ==> c.defaultValue == None);
      && (!sound ==> InsertNamed(db, table, names, values).Failure?)
      && (sound ==> exists row :: PutUnder(t, names, values, row)
                                 && InsertNamed(db, table, names, values) == InsertRow(db, table, row))
  {
    TablesExactly(db, table);
    var t := db[TableIndex(db, table)];
    forall n: string ensures HasColumnNamed(t, n) <==> n in ColumnNames(t) {
      ColumnsExactly(t, n);
    }
    if Known(t, names) && Distinct(names) && |values| == |names| {
      ArrangedIsPutUnder(t, names, values);
    }
    hide InsertRow, PutUnder, HasColumnNamed, Arranged, ColumnNames;
    assert Known(t, names) <==> forall n :: n in names ==> HasColumnNamed(t, n);
  }

  lemma {:induction false} ArrangedIsPutUnder(t: Table, names: seq<string>, values: Row)
    requires Known(t, names) && Distinct(names) && |values| == |names|
    ensures PutUnder(t, names, values, Arranged(t, names, values))
  {
    forall k | 0 <= k < |names|
      ensures HasColumn(t, names[k]) && Arranged(t, names, values)[ColumnIndex(t, names[k])] == values[k]
    {
      IndexOf(names, k);
      assert names[k] in ColumnNames(t);
    }
  }
}
