/** run_import and _checkpoint as they execute, against the calls of CsvImport. */
module ImportService {
  import opened Wrappers
  import opened Schema
  import opened TextCodec
  import opened CsvImport

  datatype JobStatus = Pending | Running | Completed

  /** The last saved row while a call that started after row `start` has completed row `completed`. */
  function Saved(start: nat, completed: nat): (c: nat)
    requires start <= completed
    ensures start <= c <= completed
  {
    var boundary := completed - completed % CHUNK_ROWS;
    if boundary > start then boundary else start
  }

  lemma SavedAdvances(start: nat, completed: nat)
    requires start < completed
    ensures Saved(start, completed - 1) == LastCheckpoint(start, completed)
    ensures Saved(start, completed) == if completed % CHUNK_ROWS == 0 then completed else Saved(start, completed - 1)
    ensures completed % CHUNK_ROWS != 0 ==> completed % CHUNK_ROWS == (completed - 1) % CHUNK_ROWS + 1
  {
  }

  lemma SavedAtStart(start: nat)
    ensures Saved(start, start) == start
    ensures LastCheckpoint(start, start) == start
  {
  }

  lemma PassAdvances(target: Target, t: Tally, file: seq<Line>, from: nat, n: nat)
    requires from <= n <= |file|
    ensures Pass(target, t, file, from, n)
         == if from == n then t else Process(target, Pass(target, t, file, from, n - 1), file[n - 1], n)
  {
  }

  /** The durable state after a call, given the row it reached. */
  lemma {:induction false} AttemptEnds(target: Target, d: Durable, file: seq<Line>, ending: Ending, reach: nat)
    requires d.lastProcessed <= |file| && reach == Reach(d, file, ending)
    ensures
      var done := Pass(target, d.tally, file, d.lastProcessed, reach);
      var c := LastCheckpoint(d.lastProcessed, reach);
      var before := Pass(target, d.tally, file, d.lastProcessed, c);
      Attempt(target, d, file, ending)
        == if !ending.Kill? then Durable(done, reach)
           else if ending.saved then
             Durable(Tally(done.table, done.imported, done.rejected, before.errors), reach)
           else Durable(Tally(done.table, before.imported, before.rejected, before.errors), c)
  {
  }

  class ImportJob {
    const target: Target
    var table: seq<Stored>
    var errors: seq<ErrorRecord>
    var importedRows: nat
    var rejectedRows: nat
    var lastProcessedRow: nat
    var totalRows: Option<nat>
    var status: JobStatus

    constructor (target: Target, table: seq<Stored>)
      ensures this.target == target && State() == Durable(Tally(table, 0, 0, []), 0) && status == Pending
    {
      this.target, this.table := target, table;
      errors, importedRows, rejectedRows, lastProcessedRow := [], 0, 0, 0;
      totalRows, status := None, Pending;
    }

    ghost function State(): Durable
      reads this
    {
      Durable(Tally(table, importedRows, rejectedRows, errors), lastProcessedRow)
    }

    /** Saves the job row, then the error records gathered since the last checkpoint. */
    method Checkpoint(imported: nat, rejected: nat, row: nat, pendingErrors: seq<ErrorRecord>, killed: bool)
      modifies this`importedRows, this`rejectedRows, this`lastProcessedRow, this`errors
      ensures importedRows == imported && rejectedRows == rejected && lastProcessedRow == row
      ensures errors == if killed then old(errors) else old(errors) + pendingErrors
    {
      importedRows, rejectedRows, lastProcessedRow := imported, rejected, row;
      if killed {
        return;
      }
      errors := errors + pendingErrors;
    }

    /** Converts and inserts one row, or notes why it is rejected. */
    method ImportRow(line: Line, rowNumber: nat, imported: nat, rejected: nat, pendingErrors: seq<ErrorRecord>)
      returns (imported': nat, rejected': nat, pendingErrors': seq<ErrorRecord>)
      requires |pendingErrors| < MAX_STORED_ERRORS
      modifies this`table
      ensures Tally(table, imported', rejected', errors + pendingErrors')
           == Process(target, Tally(old(table), imported, rejected, errors + pendingErrors), line, rowNumber)
      ensures |pendingErrors'| <= |pendingErrors| + 1
    {
      imported', rejected', pendingErrors' := imported, rejected, pendingErrors;
      var verdict := Judge(target, table, line);
      if verdict.Success? {
        table := table + [Stored(verdict.value, rowNumber)];
        imported' := imported' + 1;
      } else {
        rejected' := rejected' + 1;
        if |pendingErrors'| < MAX_STORED_ERRORS {
          var record := ErrorRecord(rowNumber, verdict.error, line);
          assert errors + pendingErrors + [record] == errors + (pendingErrors + [record]);
          pendingErrors' := pendingErrors' + [record];
        }
      }
    }

    /** `raised` tells whether an exception escapes to the caller. */
    method RunImport(file: seq<Line>, ending: Ending) returns (raised: bool)
      requires lastProcessedRow <= |file|
      requires ending.Raise? ==> 1 <= ending.row <= |file| + 1
      requires ending.Kill? ==> lastProcessedRow < ending.row <= |file|
      modifies this
      ensures State() == Attempt(target, old(State()), file, ending)
      ensures raised <==> ending.Raise?
      ensures ending.Finish? ==> status == Completed && totalRows == Some(|file|)
    {
      hide Process, Pass, Attempt, Saved, LastCheckpoint;
      status := Running;
      var imported, rejected, rowNumber := importedRows, rejectedRows, lastProcessedRow;
      var lastCompletedRow := rowNumber;
      var pendingErrors: seq<ErrorRecord> := [];
      ghost var d := State();
      ghost var start := lastProcessedRow;
      var i := 0;
      AttemptEnds(target, d, file, ending, Reach(d, file, ending));
      PassAdvances(target, d.tally, file, start, start);
      SavedAtStart(start);
      while i < |file|
        invariant 0 <= i <= |file|
        invariant rowNumber == if i == 0 then start else i
        invariant lastCompletedRow == (if i <= start then start else i)
        invariant !ending.Finish? ==> i < ending.row
        invariant Tally(table, imported, rejected, errors + pendingErrors)
               == Pass(target, d.tally, file, start, lastCompletedRow)
        invariant lastProcessedRow == Saved(start, lastCompletedRow)
        invariant var p := Pass(target, d.tally, file, start, lastProcessedRow);
                  importedRows == p.imported && rejectedRows == p.rejected && errors == p.errors
        invariant if i <= start then pendingErrors == [] else |pendingErrors| <= i % CHUNK_ROWS
      {
        rowNumber := i + 1;
        if ending == Raise(rowNumber) {
          Checkpoint(imported, rejected, lastCompletedRow, pendingErrors, false);
          return true;
        }
        if rowNumber <= lastProcessedRow {
          i := i + 1;
          continue;
        }
        imported, rejected, pendingErrors := ImportRow(file[i], rowNumber, imported, rejected, pendingErrors);
        SavedAdvances(start, rowNumber);
        PassAdvances(target, d.tally, file, start, rowNumber);
        lastCompletedRow := rowNumber;
        i := i + 1;
        if ending.Kill? && ending.row == rowNumber {
          if ending.saved {
            Checkpoint(imported, rejected, lastCompletedRow, pendingErrors, true);
          }
          return false;
        }
        if rowNumber % CHUNK_ROWS == 0 {
          Checkpoint(imported, rejected, lastCompletedRow, pendingErrors, false);
          pendingErrors := [];
        }
      }
      Checkpoint(imported, rejected, lastCompletedRow, pendingErrors, false);
      if ending.Raise? {
        return true;
      }
      totalRows, status := Some(rowNumber), Completed;
      raised := false;
    }
  }
}
