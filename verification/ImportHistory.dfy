/** What any number of interrupted import calls amount to. */
module ImportHistory {
  import opened Wrappers
  import opened TextCodec
  import opened CsvImport

  // ---------- exceptions only: resuming refines one pass ----------

  lemma {:induction false} PassesCompose(target: Target, t: Tally, file: seq<Line>, a: nat, b: nat, c: nat)
    requires a <= b <= c <= |file|
    ensures Pass(target, Pass(target, t, file, a, b), file, b, c) == Pass(target, t, file, a, c)
    decreases c
  {
    if b < c {
      PassesCompose(target, t, file, a, b, c - 1);
    }
  }

  /** The state after a series of calls that all ended with an exception. */
  function AfterExceptions(target: Target, d: Durable, file: seq<Line>, rows: seq<nat>): (r: Durable)
    requires d.lastProcessed <= |file|
    ensures d.lastProcessed <= r.lastProcessed <= |file|
    decreases |rows|
  {
    if rows == [] then d
    else Attempt(target, AfterExceptions(target, d, file, rows[..|rows| - 1]), file, Raise(rows[|rows| - 1]))
  }

  lemma {:induction false} ExceptionsLoseNothing(target: Target, d: Durable, file: seq<Line>, rows: seq<nat>)
    requires d.lastProcessed <= |file|
    ensures
      var r := AfterExceptions(target, d, file, rows);
      r.tally == Pass(target, d.tally, file, d.lastProcessed, r.lastProcessed)
    decreases |rows|
  {
    if rows != [] {
      ExceptionsLoseNothing(target, d, file, rows[..|rows| - 1]);
      var before := AfterExceptions(target, d, file, rows[..|rows| - 1]);
      PassesCompose(target, d.tally, file, d.lastProcessed, before.lastProcessed,
                    AfterExceptions(target, d, file, rows).lastProcessed);
    }
  }

  /** However often a job was interrupted by an exception, wherever it hit, the call that finishes leaves
      exactly what one uninterrupted pass over the file leaves: table, counters and error records. */
  lemma {:induction false} ResumedImportEqualsOnePass(target: Target, d: Durable, file: seq<Line>, rows: seq<nat>)
    requires d.lastProcessed <= |file|
    ensures Attempt(target, AfterExceptions(target, d, file, rows), file, Finish)
         == Attempt(target, d, file, Finish)
  {
    ExceptionsLoseNothing(target, d, file, rows);
    PassesCompose(target, d.tally, file, d.lastProcessed,
                  AfterExceptions(target, d, file, rows).lastProcessed, |file|);
  }

  /** What a pass has established after n rows: each row was either inserted or rejected, in file order,
      and each rejected row has exactly one error record. */
  ghost predicate Tallied(before: Tally, t: Tally, from: nat, n: nat) {
    && t.imported + t.rejected == before.imported + before.rejected + (n - from)
    && |t.table| == |before.table| + (t.imported - before.imported) && before.table <= t.table
    && |t.errors| == |before.errors| + (t.rejected - before.rejected) && before.errors <= t.errors
    && (forall i :: |before.table| <= i < |t.table| ==> from < t.table[i].fromRow <= n)
    && (forall i :: |before.errors| <= i < |t.errors| ==> from < t.errors[i].rowNumber <= n)
    && (forall i, j :: |before.table| <= i < j < |t.table| ==> t.table[i].fromRow < t.table[j].fromRow)
    && (forall i, j :: |before.errors| <= i < j < |t.errors| ==> t.errors[i].rowNumber < t.errors[j].rowNumber)
    && (forall r :: from < r <= n ==> Inserted(before, t, r) != RecordedError(before, t, r))
  }

  predicate Inserted(before: Tally, t: Tally, r: nat) {
    exists i :: |before.table| <= i < |t.table| && t.table[i].fromRow == r
  }

  predicate RecordedError(before: Tally, t: Tally, r: nat) {
    exists i :: |before.errors| <= i < |t.errors| && t.errors[i].rowNumber == r
  }

  lemma {:induction false} PassIsTallied(target: Target, t: Tally, file: seq<Line>, from: nat, n: nat)
    requires from <= n <= |file|
    ensures Tallied(t, Pass(target, t, file, from, n), from, n)
    decreases n
  {
    hide Judge;
    if from < n {
      PassIsTallied(target, t, file, from, n - 1);
      ProcessIsTallied(target, t, Pass(target, t, file, from, n - 1), file[n - 1], from, n);
    }
  }

  lemma ProcessIsTallied(target: Target, before: Tally, t: Tally, line: Line, from: nat, n: nat)
    requires from < n && Tallied(before, t, from, n - 1)
    ensures Tallied(before, Process(target, t, line, n), from, n)
  {
    hide Judge;
    var next := Process(target, t, line, n);
    if Judge(target, t.table, line).Success? {
      assert next.table[|t.table|].fromRow == n;
    } else {
      assert next.errors[|t.errors|].rowNumber == n;
    }
    forall r | from < r < n ensures Inserted(before, next, r) != RecordedError(before, next, r) {
      EarlierRowStays(target, before, t, line, n, r);
    }
  }

  lemma EarlierRowStays(target: Target, before: Tally, t: Tally, line: Line, n: nat, r: nat)
    requires r < n && Inserted(before, t, r) != RecordedError(before, t, r)
    ensures
      var next := Process(target, t, line, n);
      Inserted(before, next, r) != RecordedError(before, next, r)
  {
    hide Judge;
    var next := Process(target, t, line, n);
    if Inserted(before, t, r) {
      var i :| |before.table| <= i < |t.table| && t.table[i].fromRow == r;
      assert next.table[i].fromRow == r;
    } else {
      var i :| |before.errors| <= i < |t.errors| && t.errors[i].rowNumber == r;
      assert next.errors[i].rowNumber == r;
    }
  }

  // ---------- what is stored and what is recorded ----------

  /** The cell under a mapped column is there and converts to the column's type. */
  predicate Converts(line: Line, m: Mapping) {
    Cell(line, m.csvColumn).Some? && Convert(Cell(line, m.csvColumn).value, m.targetType).Success?
  }

  predicate AllConvert(line: Line, mapping: seq<Mapping>) {
    forall j :: 0 <= j < |mapping| ==> Converts(line, mapping[j])
  }

  predicate IsRowOf(line: Line, mapping: seq<Mapping>, values: Values) {
    && |values| == |mapping| && AllConvert(line, mapping)
    && (forall j :: 0 <= j < |mapping| ==>
          Convert(Cell(line, mapping[j].csvColumn).value, mapping[j].targetType) == Success(values[j]))
  }

  /** A line converts exactly when each of its mapped cells does, to the cells' values in the order of the mapping. */
  lemma {:induction false} LineConvertsCellwise(line: Line, mapping: seq<Mapping>)
    ensures ConvertLine(line, mapping).Success? <==> AllConvert(line, mapping)
    ensures ConvertLine(line, mapping).Success? ==> IsRowOf(line, mapping, ConvertLine(line, mapping).value)
    ensures ConvertLine(line, mapping).Failure? ==> !ConvertLine(line, mapping).error.Refused?
  {
    hide Convert, Cell;
    if mapping != [] {
      LineConvertsCellwise(line, mapping[1..]);
      assert AllConvert(line, mapping) <==> Converts(line, mapping[0]) && AllConvert(line, mapping[1..]) by {
        assert mapping == [mapping[0]] + mapping[1..];
      }
    }
  }

  /** Every new row of the table holds the converted cells of its own line. Every new error record carries its own
      line, and says that the database refused the row exactly when all its cells convert. */
  ghost predicate Truthful(target: Target, before: Tally, t: Tally, file: seq<Line>) {
    && (forall i :: |before.table| <= i < |t.table| ==>
          && 0 < t.table[i].fromRow <= |file|
          && IsRowOf(file[t.table[i].fromRow - 1], target.mapping, t.table[i].values))
    && (forall i :: |before.errors| <= i < |t.errors| ==>
          && 0 < t.errors[i].rowNumber <= |file|
          && t.errors[i].line == file[t.errors[i].rowNumber - 1]
          && (t.errors[i].error.Refused? <==> AllConvert(t.errors[i].line, target.mapping)))
  }

  lemma {:induction false} PassIsTruthful(target: Target, t: Tally, file: seq<Line>, from: nat, n: nat)
    requires from <= n <= |file|
    ensures Truthful(target, t, Pass(target, t, file, from, n), file)
    decreases n
  {
    hide ConvertLine, IsRowOf, AllConvert;
    if from < n {
      PassIsTruthful(target, t, file, from, n - 1);
      LineConvertsCellwise(file[n - 1], target.mapping);
    }
  }

  // ---------- each row's verdict ----------

  /** Row n of a pass whose mapped cells all convert is stored, with the cells' values and its row number, if and only
      if the database accepts them as the table then stands; otherwise it is recorded with the reason that the database
      gave. Nothing else changes. */
  lemma ConvertingRowIsStoredOrRefused(target: Target, t: Tally, file: seq<Line>, from: nat, n: nat, values: Values)
    requires from < n <= |file| && IsRowOf(file[n - 1], target.mapping, values)
    ensures
      var before, after := Pass(target, t, file, from, n - 1), Pass(target, t, file, from, n);
      after == match target.refuses(before.table, values)
        case None => before.(table := before.table + [Stored(values, n)], imported := before.imported + 1)
        case Some(reason) =>
          before.(rejected := before.rejected + 1,
                  errors := before.errors + [ErrorRecord(n, Refused(reason), file[n - 1])])
  {
    hide IsRowOf, AllConvert, ConvertLine;
    LineConvertsTo(file[n - 1], target.mapping, values);
  }

  lemma {:induction false} LineConvertsTo(line: Line, mapping: seq<Mapping>, values: Values)
    requires IsRowOf(line, mapping, values)
    ensures ConvertLine(line, mapping) == Success(values)
    decreases |mapping|
  {
    hide Convert, Cell;
    LineConvertsCellwise(line, mapping);
    var converted := ConvertLine(line, mapping).value;
    forall j | 0 <= j < |mapping| ensures converted[j] == values[j] {
      assert Converts(line, mapping[j]);
    }
    assert converted == values;
  }

  /** Row n of a pass with a cell that does not convert is never stored: it is recorded with the error of its first such
      cell, which is missing if the line is too short and bad for its column's type if it is not. */
  lemma BadRowIsRecorded(target: Target, t: Tally, file: seq<Line>, from: nat, n: nat, j: nat)
    requires from < n <= |file| && j < |target.mapping|
    requires !Converts(file[n - 1], target.mapping[j]) && forall i :: 0 <= i < j ==> Converts(file[n - 1], target.mapping[i])
    ensures
      var before, after := Pass(target, t, file, from, n - 1), Pass(target, t, file, from, n);
      var line, m := file[n - 1], target.mapping[j];
      var tooShort := m.csvColumn in line && line[m.csvColumn] == None;
      after == before.(
        rejected := before.rejected + 1,
        errors := before.errors + [ErrorRecord(n, if tooShort then MissingCell else BadCell(m.targetType), line)])
  {
    hide Convert;
    FirstBadCell(file[n - 1], target.mapping, j);
  }

  lemma {:induction false} FirstBadCell(line: Line, mapping: seq<Mapping>, j: nat)
    requires j < |mapping| && !Converts(line, mapping[j]) && forall i :: 0 <= i < j ==> Converts(line, mapping[i])
    ensures
      var m := mapping[j];
      ConvertLine(line, mapping) == Failure(
        if m.csvColumn in line && line[m.csvColumn] == None then MissingCell else BadCell(m.targetType))
    decreases j
  {
    hide Convert;
    if j > 0 {
      assert Converts(line, mapping[0]);
      forall i | 0 <= i < j - 1 ensures Converts(line, mapping[1..][i]) {
        assert Converts(line, mapping[i + 1]);
      }
      FirstBadCell(line, mapping[1..], j - 1);
    }
  }

  /** One of the two holds of every row. */
  lemma {:induction false} EveryRowConvertsOrHasABadCell(line: Line, mapping: seq<Mapping>)
    ensures
      || (exists values :: IsRowOf(line, mapping, values))
      || (exists j :: 0 <= j < |mapping| && !Converts(line, mapping[j]) && forall i :: 0 <= i < j ==> Converts(line, mapping[i]))
  {
    LineConvertsCellwise(line, mapping);
    if AllConvert(line, mapping) {
      assert IsRowOf(line, mapping, ConvertLine(line, mapping).value);
    } else {
      var j :| 0 <= j < |mapping| && !Converts(line, mapping[j]);
      FirstFailing(line, mapping, j);
    }
  }

  lemma {:induction false} FirstFailing(line: Line, mapping: seq<Mapping>, k: nat)
    requires k < |mapping| && !Converts(line, mapping[k])
    ensures exists j :: 0 <= j < |mapping| && !Converts(line, mapping[j]) && forall i :: 0 <= i < j ==> Converts(line, mapping[i])
    decreases k
  {
    hide Converts;
    if i :| 0 <= i < k && !Converts(line, mapping[i]) {
      FirstFailing(line, mapping, i);
    }
  }

  /** A column that the file does not have is stored as NULL, whatever its type. */
  lemma AbsentColumnIsNull(line: Line, mapping: seq<Mapping>, values: Values, j: nat)
    requires IsRowOf(line, mapping, values) && j < |mapping| && mapping[j].csvColumn !in line
    ensures values[j] == Null
  {
    assert Convert("", mapping[j].targetType) == Success(Null);
  }

  // ---------- hard kills: bounded duplication, nothing lost ----------

  function FromRows(table: seq<Stored>): set<nat> {
    set s | s in table :: s.fromRow
  }

  /** How many rows of the table were made from a line that an earlier row was made from already. */
  function Duplicates(table: seq<Stored>): nat {
    if table == [] then 0
    else
      var init, last := table[..|table| - 1], table[|table| - 1];
      Duplicates(init) + (if last.fromRow != 0 && last.fromRow in FromRows(init) then 1 else 0)
  }

  function Max(a: nat, b: nat): nat {
    if a < b then b else a
  }

  /** The durable state together with what a bystander would remember: the highest row ever handled, how
      often the process was killed, and every row that was ever rejected. */
  datatype History = History(d: Durable, high: nat, kills: nat, refused: set<nat>)

  function Continue(target: Target, h: History, file: seq<Line>, ending: Ending): History
    requires h.d.lastProcessed <= |file|
  {
    var reach := Reach(h.d, file, ending);
    var done := Pass(target, h.d.tally, file, h.d.lastProcessed, reach);
    History(
      Attempt(target, h.d, file, ending),
      Max(h.high, reach),
      h.kills + (if ending.Kill? then 1 else 0),
      h.refused + set r | h.d.lastProcessed < r <= reach && RecordedError(h.d.tally, done, r))
  }

  /** A job on a table whose rows were all there before, after any calls ending in any way. */
  function AfterCalls(target: Target, table: seq<Stored>, file: seq<Line>, calls: seq<Ending>): (h: History)
    ensures h.d.lastProcessed <= |file|
    decreases |calls|
  {
    if calls == [] then History(Durable(Tally(table, 0, 0, []), 0), 0, 0, {})
    else Continue(target, AfterCalls(target, table, file, calls[..|calls| - 1]), file, calls[|calls| - 1])
  }

  ghost predicate BelowMark(table: seq<Stored>, mark: nat) {
    forall s :: s in table ==> s.fromRow <= mark
  }

  lemma {:induction false} InsertRepeatsAtMost(table: seq<Stored>, values: Values, n: nat, high: nat)
    requires 0 < n && BelowMark(table, Max(high, n - 1))
    ensures
      var longer := table + [Stored(values, n)];
      && BelowMark(longer, Max(high, n))
      && Duplicates(longer) <= Duplicates(table) + (if n <= high then 1 else 0)
  {
  }

  /** Rows already handled may be inserted again, one for one, as a pass goes over them once more. */
  lemma {:induction false} PassRepeatsAtMost(target: Target, t: Tally, file: seq<Line>, from: nat, n: nat, high: nat)
    requires from <= n <= |file| && BelowMark(t.table, high)
    ensures
      var done := Pass(target, t, file, from, n);
      && Duplicates(done.table) + Max(high, n) - n <= Duplicates(t.table) + Max(high, from) - from
      && BelowMark(done.table, Max(high, n))
      && t.table <= done.table
    decreases n
  {
    hide Judge, Duplicates, BelowMark;
    if from == n {
      assert Max(high, n) >= high;
      BelowHigherMark(t.table, high, Max(high, n));
    } else {
      PassRepeatsAtMost(target, t, file, from, n - 1, high);
      var before := Pass(target, t, file, from, n - 1);
      var verdict := Judge(target, before.table, file[n - 1]);
      if verdict.Success? {
        InsertRepeatsAtMost(before.table, verdict.value, n, high);
      } else {
        BelowHigherMark(before.table, Max(high, n - 1), Max(high, n));
      }
    }
  }

  lemma BelowHigherMark(table: seq<Stored>, low: nat, high: nat)
    requires BelowMark(table, low) && low <= high
    ensures BelowMark(table, high)
  {
  }

  ghost predicate HistoryInv(file: seq<Line>, h: History) {
    && h.d.lastProcessed <= h.high <= |file|
    && BelowMark(h.d.tally.table, h.high)
    && Duplicates(h.d.tally.table) + (h.high - h.d.lastProcessed) <= CHUNK_ROWS * h.kills
    && (forall r :: 0 < r <= h.high ==> r in FromRows(h.d.tally.table) || r in h.refused)
    && h.d.tally.imported + h.d.tally.rejected == h.d.lastProcessed
  }

  lemma {:induction false} AttemptFacts(target: Target, d: Durable, file: seq<Line>, ending: Ending)
    requires d.lastProcessed <= |file| && d.tally.imported + d.tally.rejected == d.lastProcessed
    ensures
      var reach, next := Reach(d, file, ending), Attempt(target, d, file, ending);
      && next.tally.table == Pass(target, d.tally, file, d.lastProcessed, reach).table
      && d.lastProcessed <= next.lastProcessed <= reach <= |file|
      && (ending.Kill? ==> reach - next.lastProcessed <= CHUNK_ROWS)
      && (!ending.Kill? ==> next.lastProcessed == reach)
      && next.tally.imported + next.tally.rejected == next.lastProcessed
  {
    hide Tallied, Process;
    var reach := Reach(d, file, ending);
    PassIsTallied(target, d.tally, file, d.lastProcessed, reach);
    TalliedCounts(d.tally, Pass(target, d.tally, file, d.lastProcessed, reach), d.lastProcessed, reach);
    var c := LastCheckpoint(d.lastProcessed, reach);
    PassIsTallied(target, d.tally, file, d.lastProcessed, c);
    TalliedCounts(d.tally, Pass(target, d.tally, file, d.lastProcessed, c), d.lastProcessed, c);
  }

  lemma TalliedCounts(before: Tally, t: Tally, from: nat, n: nat)
    requires from <= n && Tallied(before, t, from, n)
    ensures t.imported + t.rejected == before.imported + before.rejected + (n - from)
  {
  }

  lemma {:induction false} PassCovers(target: Target, t: Tally, file: seq<Line>, from: nat, n: nat, r: nat)
    requires from < r <= n <= |file|
    ensures
      var done := Pass(target, t, file, from, n);
      r in FromRows(done.table) || RecordedError(t, done, r)
  {
    var done := Pass(target, t, file, from, n);
    PassIsTallied(target, t, file, from, n);
    assert Inserted(t, done, r) != RecordedError(t, done, r);
    if Inserted(t, done, r) {
      var i :| |t.table| <= i < |done.table| && done.table[i].fromRow == r;
      assert done.table[i] in done.table;
    }
  }

  lemma ContinueKeepsInv(target: Target, h: History, file: seq<Line>, ending: Ending)
    requires HistoryInv(file, h)
    ensures HistoryInv(file, Continue(target, h, file, ending))
  {
    hide Attempt, Reach, Pass, Duplicates, RecordedError;
    var d, next := h.d, Continue(target, h, file, ending);
    var reach := Reach(d, file, ending);
    AttemptFacts(target, d, file, ending);
    PassRepeatsAtMost(target, d.tally, file, d.lastProcessed, reach, h.high);
    forall r | 0 < r <= next.high ensures r in FromRows(next.d.tally.table) || r in next.refused {
      if d.lastProcessed < r <= reach {
        PassCovers(target, d.tally, file, d.lastProcessed, reach, r);
      } else {
        LongerTableHasMore(d.tally.table, next.d.tally.table);
      }
    }
  }

  lemma LongerTableHasMore(a: seq<Stored>, b: seq<Stored>)
    requires a <= b
    ensures FromRows(a) <= FromRows(b)
  {
  }

  lemma {:induction false} NoDuplicatesAtFirst(table: seq<Stored>)
    requires forall s :: s in table ==> s.fromRow == 0
    ensures Duplicates(table) == 0
  {
    if table != [] {
      NoDuplicatesAtFirst(table[..|table| - 1]);
    }
  }

  lemma {:induction false} CallsKeepInv(target: Target, table: seq<Stored>, file: seq<Line>, calls: seq<Ending>)
    requires forall s :: s in table ==> s.fromRow == 0
    ensures HistoryInv(file, AfterCalls(target, table, file, calls))
    decreases |calls|
  {
    hide Continue;
    if calls == [] {
      NoDuplicatesAtFirst(table);
    } else {
      CallsKeepInv(target, table, file, calls[..|calls| - 1]);
      ContinueKeepsInv(target, AfterCalls(target, table, file, calls[..|calls| - 1]), file, calls[|calls| - 1]);
    }
  }

  /** How many of the calls ended with a kill. */
  function KillsIn(calls: seq<Ending>): nat {
    |set i | 0 <= i < |calls| && calls[i].Kill?|
  }

  lemma {:induction false} OneMoreCall(calls: seq<Ending>, ending: Ending)
    ensures KillsIn(calls + [ending]) == KillsIn(calls) + (if ending.Kill? then 1 else 0)
  {
    var longer := calls + [ending];
    var before, after := set i | 0 <= i < |calls| && calls[i].Kill?, set i | 0 <= i < |longer| && longer[i].Kill?;
    assert after == before + if ending.Kill? then {|calls|} else {};
  }

  lemma {:induction false} KillsAreCounted(target: Target, table: seq<Stored>, file: seq<Line>, calls: seq<Ending>)
    ensures AfterCalls(target, table, file, calls).kills == KillsIn(calls)
    decreases |calls|
  {
    hide Attempt, Reach, Pass, RecordedError;
    if calls != [] {
      var n := |calls| - 1;
      KillsAreCounted(target, table, file, calls[..n]);
      OneMoreCall(calls[..n], calls[n]);
      assert calls == calls[..n] + [calls[n]];
    }
  }

  /** Call number i had the row rejected and recorded. */
  predicate RejectedIn(target: Target, table: seq<Stored>, file: seq<Line>, calls: seq<Ending>, i: nat, r: nat)
    requires i < |calls|
  {
    var d := AfterCalls(target, table, file, calls[..i]).d;
    var reach := Reach(d, file, calls[i]);
    d.lastProcessed < r <= reach && RecordedError(d.tally, Pass(target, d.tally, file, d.lastProcessed, reach), r)
  }

  predicate RejectedBySome(target: Target, table: seq<Stored>, file: seq<Line>, calls: seq<Ending>, r: nat) {
    exists i :: 0 <= i < |calls| && RejectedIn(target, table, file, calls, i, r)
  }

  lemma {:induction false} RefusedWereRejected(
      target: Target, table: seq<Stored>, file: seq<Line>, calls: seq<Ending>, r: nat)
    requires r in AfterCalls(target, table, file, calls).refused
    ensures RejectedBySome(target, table, file, calls, r)
    decreases |calls|
  {
    hide Attempt, Reach, Pass, RecordedError;
    var n := |calls| - 1;
    if r in AfterCalls(target, table, file, calls[..n]).refused {
      RefusedWereRejected(target, table, file, calls[..n], r);
      var i :| 0 <= i < n && RejectedIn(target, table, file, calls[..n], i, r);
      assert calls[..n][..i] == calls[..i];
      assert RejectedIn(target, table, file, calls, i, r);
    } else {
      assert RejectedIn(target, table, file, calls, n, r);
    }
  }

  /** However a job's calls ended, no row up to the checkpoint is lost: each was inserted, or some call had it rejected and
      recorded; the saved counters add up to the checkpoint; and each kill has caused at most CHUNK_ROWS rows to be
      inserted again. */
  lemma {:induction false} KillsDuplicateAtMostOneChunkEach(
      target: Target, table: seq<Stored>, file: seq<Line>, calls: seq<Ending>)
    requires forall s :: s in table ==> s.fromRow == 0
    ensures
      var d := AfterCalls(target, table, file, calls).d;
      && (forall r :: 0 < r <= d.lastProcessed ==>
            r in FromRows(d.tally.table) || RejectedBySome(target, table, file, calls, r))
      && Duplicates(d.tally.table) <= 1000 * KillsIn(calls)
      && d.tally.imported + d.tally.rejected == d.lastProcessed
  {
    CallsKeepInv(target, table, file, calls);
    KillsAreCounted(target, table, file, calls);
    var h := AfterCalls(target, table, file, calls);
    hide AfterCalls, RejectedBySome, KillsIn, Duplicates, FromRows;
    forall r | 0 < r <= h.d.lastProcessed
      ensures r in FromRows(h.d.tally.table) || RejectedBySome(target, table, file, calls, r)
    {
      if r in h.refused {
        RefusedWereRejected(target, table, file, calls, r);
      }
    }
  }
}
