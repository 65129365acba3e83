/**
 The catalog's vocabulary: column types, columns, foreign keys, and the entry
 that schema.json holds for one table together with the CSV at its rows path.
 */
module Schema {
  import opened Wrappers

  datatype DataType =
    | TextType | VarcharType | IntegerType | BigIntType | DecimalType
    | BooleanType | DateType | DatetimeType | UuidType

  datatype Column = Column(
    name: string,
    dataType: DataType,
    maxLength: Option<nat>,
    precision: Option<nat>,
    scale: Option<nat>,
    isNullable: bool,
    isUnique: bool,
    defaultValue: Option<string>)

  datatype OnDelete = Cascade | Restrict | SetNull

  datatype ForeignKey = ForeignKey(
    column: string,
    referencesTable: string,
    referencesColumn: string,
    onDelete: OnDelete)

  datatype TableEntry = TableEntry(
    name: string,
    columns: seq<Column>,
    foreignKeys: seq<ForeignKey>,
    csv: seq<seq<string>>)
}
