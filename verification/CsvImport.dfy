/**
 The resumable CSV import.  Rows are committed one by one; the job row is saved every CHUNK_ROWS rows, at
 the end, and when an exception escapes; a later call starts after the last saved row.
 */
module CsvImport {
  import opened Wrappers
  import opened Schema
  import opened TextCodec

  const CHUNK_ROWS := 1000
  const MAX_STORED_ERRORS := 1000

  datatype Mapping = Mapping(csvColumn: string, targetColumn: string, targetType: DataType)

  /** One line as DictReader yields it: a short line leaves its last columns without a value. */
  type Line = map<string, Option<string>>

  type Values = seq<Value>

  /** A row of the target table.  `fromRow` records which line of the file it was made from, 0 for a row
      that was there before; the database does not store it. */
  datatype Stored = Stored(values: Values, fromRow: nat)

  datatype RowError = BadCell(target: DataType) | MissingCell | Refused(reason: string)

  datatype ErrorRecord = ErrorRecord(rowNumber: nat, error: RowError, line: Line)

  /** The file's mapping, and the database's answer to an INSERT: None commits it. */
  datatype Target = Target(mapping: seq<Mapping>, refuses: (seq<Stored>, Values) -> Option<string>)

  datatype Tally = Tally(table: seq<Stored>, imported: nat, rejected: nat, errors: seq<ErrorRecord>)

  // ---------- one row ----------

  /** A cell by column name: empty text where the file has no such column. */
  function Cell(line: Line, column: string): Option<string> {
    if column in line then line[column] else Some("")
  }

  function ConvertLine(line: Line, mapping: seq<Mapping>): Result<Values, RowError> {
    if mapping == [] then Success([])
    else
      var cell := Cell(line, mapping[0].csvColumn);
      if cell.None? then Failure(MissingCell)
      else
        match Convert(cell.value, mapping[0].targetType)
        case Failure(_) => Failure(BadCell(mapping[0].targetType))
        case Success(v) =>
          var rest :- ConvertLine(line, mapping[1..]);
          Success([v] + rest)
  }

  /** The values to insert, or why the row is rejected. */
  function Judge(target: Target, table: seq<Stored>, line: Line): Result<Values, RowError> {
    var values :- ConvertLine(line, target.mapping);
    match target.refuses(table, values)
    case Some(reason) => Failure(Refused(reason))
    case None => Success(values)
  }

  function Process(target: Target, t: Tally, line: Line, number: nat): Tally {
    match Judge(target, t.table, line)
    case Success(values) => t.(table := t.table + [Stored(values, number)], imported := t.imported + 1)
    case Failure(e) => t.(rejected := t.rejected + 1, errors := t.errors + [ErrorRecord(number, e, line)])
  }

  /** Rows from + 1 to upTo, one after the other. */
  function Pass(target: Target, t: Tally, file: seq<Line>, from: nat, upTo: nat): Tally
    requires from <= upTo <= |file|
    decreases upTo
  {
    if from == upTo then t
    else Process(target, Pass(target, t, file, from, upTo - 1), file[upTo - 1], upTo)
  }

  // ---------- one call ----------

  /** How a call of run_import ends.  Raise(k): an exception hits while row k is being read or inserted, and
      the insert is not committed.  Kill(e, saved): the process dies after row e was handled; `saved` says
      whether it had already saved the job row of a checkpoint there, but not yet its error records: the
      checkpoint of a full chunk, the last one, or the one that answers an exception after any row. */
  datatype Ending = Finish | Raise(row: nat) | Kill(row: nat, saved: bool)

  /** The saved job row, the error records and the table. */
  datatype Durable = Durable(tally: Tally, lastProcessed: nat)

  function Clamp(k: int, lo: nat, hi: nat): nat
    requires lo <= hi
  {
    if k < lo then lo else if k > hi then hi else k
  }

  /** The last row that a call handles. */
  function Reach(d: Durable, file: seq<Line>, ending: Ending): nat
    requires d.lastProcessed <= |file|
  {
    match ending
    case Finish => |file|
    case Raise(k) => Clamp(k - 1, d.lastProcessed, |file|)
    case Kill(e, _) => Clamp(e, d.lastProcessed, |file|)
  }

  /** The row of the last checkpoint that was completed before row `reach` was checkpointed. */
  function LastCheckpoint(from: nat, reach: nat): (c: nat)
    requires from <= reach
    ensures from <= c <= reach
    ensures reach - c <= CHUNK_ROWS
    ensures c < reach || c == from
  {
    if from == reach then from
    else
      var boundary := (reach - 1) - (reach - 1) % CHUNK_ROWS;
      if boundary > from then boundary else from
  }

  function Attempt(target: Target, d: Durable, file: seq<Line>, ending: Ending): Durable
    requires d.lastProcessed <= |file|
  {
    var reach := Reach(d, file, ending);
    var done := Pass(target, d.tally, file, d.lastProcessed, reach);
    match ending
    case Kill(_, saved) =>
      var c := LastCheckpoint(d.lastProcessed, reach);
      var before := Pass(target, d.tally, file, d.lastProcessed, c);
      if saved then
        Durable(Tally(done.table, done.imported, done.rejected, before.errors), reach)
      else
        Durable(Tally(done.table, before.imported, before.rejected, before.errors), c)
    case _ => Durable(done, reach)
  }
}
