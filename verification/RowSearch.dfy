/** What the explorer's search finds, given how ILIKE reads its patterns. */
module RowSearch {
  import opened Wrappers
  import opened RowQuery

  /** ILIKE: `%` stands for any text, `_` for any one character, a backslash takes the next character literally, and
      `fold` maps letters to one case. */
  predicate Ilikes(fold: char -> char, text: string, pattern: string)
    decreases |pattern|
  {
    if pattern == "" then text == ""
    else if pattern[0] == '%' then exists k :: 0 <= k <= |text| && Ilikes(fold, text[k..], pattern[1..])
    else if pattern[0] == '_' then text != "" && Ilikes(fold, text[1..], pattern[1..])
    else
      var n := if pattern[0] == '\\' && |pattern| > 1 then 1 else 0;
      text != "" && fold(text[0]) == fold(pattern[n]) && Ilikes(fold, text[1..], pattern[n + 1..])
  }

  /** A search text without characters that ILIKE treats specially. */
  predicate Plain(search: string) {
    forall i :: 0 <= i < |search| ==> search[i] != '%' && search[i] != '_' && search[i] != '\\'
  }

  /** The text holds the searched one at position k, up to capitals. */
  predicate HoldsAt(fold: char -> char, text: string, search: string, k: nat) {
    k + |search| <= |text| && forall i :: 0 <= i < |search| ==> fold(text[k + i]) == fold(search[i])
  }

  predicate Contains(fold: char -> char, text: string, search: string) {
    exists k :: 0 <= k <= |text| && HoldsAt(fold, text, search, k)
  }

  lemma {:induction false} EmptyPatterns(fold: char -> char, text: string)
    ensures Ilikes(fold, text, "%")
  {
    assert text[|text|..] == "" && "%"[1..] == "";
    assert Ilikes(fold, text[|text|..], "%"[1..]);
  }

  /** A plain text before a final `%` has to stand at the beginning. */
  lemma {:induction false} PlainPrefix(fold: char -> char, text: string, search: string)
    requires Plain(search)
    ensures Ilikes(fold, text, search + "%") <==> HoldsAt(fold, text, search, 0)
    decreases |search|
  {
    if search == "" {
      assert search + "%" == "%";
      EmptyPatterns(fold, text);
    } else {
      assert (search + "%")[1..] == search[1..] + "%";
      if text != "" {
        PlainPrefix(fold, text[1..], search[1..]);
        HoldsFromSecond(fold, text, search);
      }
    }
  }

  lemma HoldsFromSecond(fold: char -> char, text: string, search: string)
    requires text != "" && search != ""
    ensures HoldsAt(fold, text, search, 0)
      <==> fold(text[0]) == fold(search[0]) && HoldsAt(fold, text[1..], search[1..], 0)
  {
    if fold(text[0]) == fold(search[0]) && HoldsAt(fold, text[1..], search[1..], 0) {
      forall i | 0 <= i < |search| ensures fold(text[i]) == fold(search[i]) {
        if i > 0 {
          assert fold(text[1..][0 + (i - 1)]) == fold(search[1..][i - 1]);
        }
      }
    }
    if HoldsAt(fold, text, search, 0) {
      forall i | 0 <= i < |search[1..]| ensures fold(text[1..][0 + i]) == fold(search[1..][i]) {
        assert fold(text[0 + (i + 1)]) == fold(search[i + 1]);
      }
    }
  }

  /** The pattern of a plain search text matches exactly the texts that contain it, up to capitals. */
  lemma {:induction false} PlainSearchIsSubstring(fold: char -> char, text: string, search: string)
    requires Plain(search)
    ensures Ilikes(fold, text, Pattern(search)) <==> Contains(fold, text, search)
  {
    var pattern := Pattern(search);
    assert pattern == "%" + (search + "%") && pattern[1..] == search + "%";
    forall k | 0 <= k <= |text|
      ensures Ilikes(fold, text[k..], search + "%") <==> HoldsAt(fold, text, search, k)
    {
      PlainPrefix(fold, text[k..], search);
      HoldsFrom(fold, text, search, k);
    }
    hide HoldsAt;
    if Ilikes(fold, text, pattern) {
      var k :| 0 <= k <= |text| && Ilikes(fold, text[k..], pattern[1..]);
      assert HoldsAt(fold, text, search, k);
    }
    if Contains(fold, text, search) {
      var k :| 0 <= k <= |text| && HoldsAt(fold, text, search, k);
      assert Ilikes(fold, text[k..], pattern[1..]);
    }
  }

  lemma HoldsFrom(fold: char -> char, text: string, search: string, k: nat)
    requires k <= |text|
    ensures HoldsAt(fold, text[k..], search, 0) <==> HoldsAt(fold, text, search, k)
  {
    if HoldsAt(fold, text[k..], search, 0) {
      forall i | 0 <= i < |search| ensures fold(text[k + i]) == fold(search[i]) {
        assert fold(text[k..][0 + i]) == fold(search[i]);
      }
    }
  }

  /** A search for plain text selects exactly the rows that satisfy every filter and, if the table has text columns, hold
      the text in one of them. */
  lemma {:induction false} SearchFindsSubstrings(
      db: Comparison, fold: char -> char, row: Row, columns: seq<Column>, filters: seq<Filter>, search: string)
    requires forall text, pattern :: db.ilike(text, pattern) == Ilikes(fold, text, pattern)
    requires Plain(search) && Where(columns, filters, search).Success?
    ensures
      var (ts, ps) := Where(columns, filters, search).value;
      Denote(db, row, ts, ps) == Some(True)
      <==> && (forall f :: f in filters ==> f.column in row && row[f.column].Some? && db.equal(row[f.column].value, f.value))
           && (search == "" || (forall c :: c in columns ==> !c.isText)
               || exists c :: c in columns && c.isText && c.name in row && row[c.name].Some?
                              && Contains(fold, row[c.name].value, search))
  {
    WhereMeansAsked(db, row, columns, filters, search);
    TextColumnsExactly(columns);
    hide Where, Denote, Ilikes, Contains, TextColumns;
    forall text: string ensures db.ilike(text, Pattern(search)) <==> Contains(fold, text, search) {
      PlainSearchIsSubstring(fold, text, search);
    }
    hide Pattern;
    if n :| n in TextColumns(columns) && Compare(db.ilike, Cell(row, n), Pattern(search)) == True {
      var c :| c in columns && c.isText && c.name == n;
      assert Contains(fold, row[c.name].value, search);
    }
    if c :| c in columns && c.isText && c.name in row && row[c.name].Some? && Contains(fold, row[c.name].value, search) {
      assert c.name in TextColumns(columns);
      assert Compare(db.ilike, Cell(row, c.name), Pattern(search)) == True;
    }
  }

  lemma {:induction false} TextColumnsExactly(columns: seq<Column>)
    ensures forall n :: n in TextColumns(columns) <==> exists c :: c in columns && c.isText && c.name == n
    ensures TextColumns(columns) == [] <==> forall c :: c in columns ==> !c.isText
    decreases |columns|
  {
    if columns != [] {
      TextColumnsExactly(columns[1..]);
      assert columns == [columns[0]] + columns[1..];
    }
  }

  /** The search text is not escaped: an underscore finds every text that is not empty. */
  lemma {:induction false} UnderscoreFindsEverything(fold: char -> char, text: string)
    requires text != ""
    ensures Ilikes(fold, text, Pattern("_"))
  {
    var pattern := Pattern("_");
    assert pattern == "%_%" && pattern[1..] == "_%" && pattern[1..][1..] == "%";
    EmptyPatterns(fold, text[1..]);
    assert Ilikes(fold, text, "_%");
    assert text[0..] == text;
    assert Ilikes(fold, text[0..], pattern[1..]);
  }
}
