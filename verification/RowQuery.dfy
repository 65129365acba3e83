/**
 The data explorer's query builder.  Filters and search are compiled to a WHERE clause with positional
 placeholders and a parameter list; the clause is then read back with SQL's precedence and three-valued
 logic.
 */
module RowQuery {
  import opened Wrappers

  datatype Column = Column(name: string, isText: bool)

  datatype Token = Ident(name: string) | Equals | Ilike | Hole | And | Or | Open | Close

  type Clause = seq<Token>

  /** A filter of the request: a column and the value asked for. */
  datatype Filter = Filter(column: string, value: string)

  datatype QueryError = UnknownColumn(name: string)

  // ---------- compilation ----------

  function Knows(columns: seq<Column>, name: string): bool {
    exists c :: c in columns && c.name == name
  }

  function EqualityClause(name: string): Clause {
    [Ident(name), Equals, Hole]
  }

  function IlikeClause(name: string): Clause {
    [Ident(name), Ilike, Hole]
  }

  /** clauses[0], separator, clauses[1], ... */
  function Join(clauses: seq<Clause>, separator: Token): Clause {
    if clauses == [] then []
    else if |clauses| == 1 then clauses[0]
    else clauses[0] + [separator] + Join(clauses[1..], separator)
  }

  function TextColumns(columns: seq<Column>): seq<string> {
    if columns == [] then []
    else (if columns[0].isText then [columns[0].name] else []) + TextColumns(columns[1..])
  }

  function Ilikes(names: seq<string>): seq<Clause> {
    seq(|names|, i requires 0 <= i < |names| => IlikeClause(names[i]))
  }

  function SearchClause(names: seq<string>): Clause {
    [Open] + Join(Ilikes(names), Or) + [Close]
  }

  function Repeated(value: string, n: nat): seq<string> {
    seq(n, _ => value)
  }

  function Pattern(search: string): string {
    "%" + search + "%"
  }

  function FilterClauses(filters: seq<Filter>): seq<Clause> {
    seq(|filters|, i requires 0 <= i < |filters| => EqualityClause(filters[i].column))
  }

  function FilterParams(filters: seq<Filter>): seq<string> {
    seq(|filters|, i requires 0 <= i < |filters| => filters[i].value)
  }

  /** The clause without its WHERE (empty if there is nothing to ask) and its parameters. */
  method BuildWhere(columns: seq<Column>, filters: seq<Filter>, search: string)
    returns (r: Result<(Clause, seq<string>), QueryError>)
    ensures r == Where(columns, filters, search)
  {
    var clauses: seq<Clause> := [];
    var params: seq<string> := [];
    for i := 0 to |filters|
      invariant clauses == FilterClauses(filters[..i]) && params == FilterParams(filters[..i])
      invariant FirstUnknown(columns, filters) == FirstUnknown(columns, filters[i..])
    {
      assert filters[i..][0] == filters[i] && filters[i..][1..] == filters[i + 1..];
      if !Knows(columns, filters[i].column) {
        return Failure(UnknownColumn(filters[i].column));
      }
      clauses := clauses + [EqualityClause(filters[i].column)];
      params := params + [filters[i].value];
    }
    assert filters[..|filters|] == filters && filters[|filters|..] == [];
    if search != "" {
      var textColumns := TextColumns(columns);
      if textColumns != [] {
        clauses := clauses + [SearchClause(textColumns)];
        params := params + Repeated(Pattern(search), |textColumns|);
      }
    }
    assert clauses == Clauses(filters, SearchNames(columns, search));
    assert params == FilterParams(filters) + Repeated(Pattern(search), |SearchNames(columns, search)|);
    if clauses == [] {
      return Success(([], []));
    }
    r := Success((Join(clauses, And), params));
  }

  /** The first filter on a column that the table does not have. */
  function FirstUnknown(columns: seq<Column>, filters: seq<Filter>): Option<string> {
    if filters == [] then None
    else if !Knows(columns, filters[0].column) then Some(filters[0].column)
    else FirstUnknown(columns, filters[1..])
  }

  function SearchNames(columns: seq<Column>, search: string): seq<string> {
    if search == "" then [] else TextColumns(columns)
  }

  function Clauses(filters: seq<Filter>, names: seq<string>): seq<Clause> {
    FilterClauses(filters) + (if names == [] then [] else [SearchClause(names)])
  }

  function Where(columns: seq<Column>, filters: seq<Filter>, search: string): Result<(Clause, seq<string>), QueryError> {
    var unknown := FirstUnknown(columns, filters);
    if unknown.Some? then Failure(UnknownColumn(unknown.value))
    else
      var names := SearchNames(columns, search);
      Success((Join(Clauses(filters, names), And), FilterParams(filters) + Repeated(Pattern(search), |names|)))
  }

  // ---------- what a clause means ----------

  datatype Truth = True | False | Unknown

  function Both(a: Truth, b: Truth): Truth {
    if a == False || b == False then False else if a == Unknown || b == Unknown then Unknown else True
  }

  function Either(a: Truth, b: Truth): Truth {
    if a == True || b == True then True else if a == Unknown || b == Unknown then Unknown else False
  }

  /** A row by column name; a column it lacks, or NULL, is None. */
  type Row = map<string, Option<string>>

  /** How the database compares a stored value with a parameter. */
  datatype Comparison = Comparison(equal: (string, string) -> bool, ilike: (string, string) -> bool)

  function Cell(row: Row, name: string): Option<string> {
    if name in row then row[name] else None
  }

  /** Comparisons with NULL are unknown. */
  function Compare(f: (string, string) -> bool, cell: Option<string>, param: string): Truth {
    match cell
    case None => Unknown
    case Some(v) => if f(v, param) then True else False
  }

  /** Result of reading a prefix of the tokens: its truth, and the tokens and parameters left over. */
  datatype Reading = Reading(truth: Truth, tokens: Clause, params: seq<string>)

  /** Reads a comparison, taking the next parameter for its placeholder, or a parenthesised condition. */
  function ReadAtom(db: Comparison, row: Row, ts: Clause, ps: seq<string>): (r: Option<Reading>)
    ensures r.Some? ==> |r.value.tokens| < |ts|
    decreases |ts|, 0
  {
    if ts != [] && ts[0] == Open then
      match ReadOr(db, row, ts[1..], ps)
      case None => None
      case Some(inner) =>
        if inner.tokens != [] && inner.tokens[0] == Close then Some(inner.(tokens := inner.tokens[1..])) else None
    else if |ts| >= 3 && ts[0].Ident? && ts[2] == Hole && ps != [] && ts[1] in {Equals, Ilike} then
      var f := if ts[1] == Equals then db.equal else db.ilike;
      Some(Reading(Compare(f, Cell(row, ts[0].name), ps[0]), ts[3..], ps[1..]))
    else None
  }

  /** AND binds tighter than OR. */
  function ReadAnd(db: Comparison, row: Row, ts: Clause, ps: seq<string>): (r: Option<Reading>)
    ensures r.Some? ==> |r.value.tokens| < |ts|
    decreases |ts|, 1
  {
    match ReadAtom(db, row, ts, ps)
    case None => None
    case Some(first) =>
      if first.tokens != [] && first.tokens[0] == And then
        match ReadAnd(db, row, first.tokens[1..], first.params)
        case None => None
        case Some(rest) => Some(rest.(truth := Both(first.truth, rest.truth)))
      else Some(first)
  }

  function ReadOr(db: Comparison, row: Row, ts: Clause, ps: seq<string>): (r: Option<Reading>)
    ensures r.Some? ==> |r.value.tokens| < |ts|
    decreases |ts|, 2
  {
    match ReadAnd(db, row, ts, ps)
    case None => None
    case Some(first) =>
      if first.tokens != [] && first.tokens[0] == Or then
        match ReadOr(db, row, first.tokens[1..], first.params)
        case None => None
        case Some(rest) => Some(rest.(truth := Either(first.truth, rest.truth)))
      else Some(first)
  }

  /** The truth of a whole clause for a row, or None if it is malformed or its placeholders and parameters
      do not correspond one to one.  No clause at all selects every row. */
  function Denote(db: Comparison, row: Row, ts: Clause, ps: seq<string>): Option<Truth> {
    if ts == [] then (if ps == [] then Some(True) else None)
    else
      match ReadOr(db, row, ts, ps)
      case None => None
      case Some(r) => if r.tokens == [] && r.params == [] then Some(r.truth) else None
  }

  // ---------- compilation preserves meaning ----------

  /** What the request asks for. */
  ghost predicate Asked(db: Comparison, row: Row, columns: seq<Column>, filters: seq<Filter>, search: string) {
    && (forall f :: f in filters ==> Compare(db.equal, Cell(row, f.column), f.value) == True)
    && (search == "" || TextColumns(columns) == []
        || exists n :: n in TextColumns(columns) && Compare(db.ilike, Cell(row, n), Pattern(search)) == True)
  }

  function AllOf(truths: seq<Truth>): Truth {
    if truths == [] then True else if |truths| == 1 then truths[0] else Both(truths[0], AllOf(truths[1..]))
  }

  function AnyOf(truths: seq<Truth>): Truth {
    if truths == [] then False else if |truths| == 1 then truths[0] else Either(truths[0], AnyOf(truths[1..]))
  }

  predicate AllTrue(truths: seq<Truth>) {
    forall i :: 0 <= i < |truths| ==> truths[i] == True
  }

  predicate AnyTrue(truths: seq<Truth>) {
    exists i :: 0 <= i < |truths| && truths[i] == True
  }

  lemma {:induction false} AllOfTrue(truths: seq<Truth>)
    ensures AllOf(truths) == True <==> AllTrue(truths)
  {
    if |truths| > 1 {
      AllOfTrue(truths[1..]);
      if AllTrue(truths[1..]) && truths[0] == True {
        assert forall i :: 1 <= i < |truths| ==> truths[i] == truths[1..][i - 1];
      }
      if AllTrue(truths) {
        assert AllTrue(truths[1..]);
      }
    }
  }

  lemma {:induction false} AnyOfTrue(truths: seq<Truth>)
    ensures AnyOf(truths) == True <==> AnyTrue(truths)
  {
    if |truths| == 1 {
      assert AnyTrue(truths) <==> truths[0] == True;
    } else if |truths| > 1 {
      AnyOfTrue(truths[1..]);
      if AnyTrue(truths[1..]) {
        var i :| 0 <= i < |truths| - 1 && truths[1..][i] == True;
        assert truths[i + 1] == True;
      }
      if AnyTrue(truths) {
        var i :| 0 <= i < |truths| && truths[i] == True;
        assert i == 0 || truths[1..][i - 1] == True;
      }
    }
  }

  function IlikeTruths(db: Comparison, row: Row, names: seq<string>, pattern: string): seq<Truth> {
    seq(|names|, i requires 0 <= i < |names| => Compare(db.ilike, Cell(row, names[i]), pattern))
  }

  function FilterTruths(db: Comparison, row: Row, filters: seq<Filter>): seq<Truth> {
    seq(|filters|, i requires 0 <= i < |filters| => Compare(db.equal, Cell(row, filters[i].column), filters[i].value))
  }

  /** Whether the tokens after a condition end it. */
  predicate Ends(rest: Clause, continuations: set<Token>) {
    rest == [] || rest[0] !in continuations
  }

  lemma {:induction false} ComparisonReads(db: Comparison, row: Row, name: string, operator: Token, value: string, rest: Clause, ps: seq<string>)
    requires operator in {Equals, Ilike}
    ensures
      var f := if operator == Equals then db.equal else db.ilike;
      ReadAtom(db, row, [Ident(name), operator, Hole] + rest, [value] + ps)
        == Some(Reading(Compare(f, Cell(row, name), value), rest, ps))
  {
  }

  /** The disjunction over the text columns, each taking one copy of the pattern. */
  lemma {:induction false} IlikesRead(db: Comparison, row: Row, names: seq<string>, pattern: string, rest: Clause, ps: seq<string>)
    requires names != [] && Ends(rest, {And, Or})
    ensures ReadOr(db, row, Join(Ilikes(names), Or) + rest, Repeated(pattern, |names|) + ps)
         == Some(Reading(AnyOf(IlikeTruths(db, row, names, pattern)), rest, ps))
    decreases |names|
  {
    hide ReadAtom;
    var first := IlikeClause(names[0]);
    var after := if |names| == 1 then rest else [Or] + (Join(Ilikes(names[1..]), Or) + rest);
    var later := Repeated(pattern, |names| - 1) + ps;
    assert Ilikes(names)[1..] == Ilikes(names[1..]);
    assert Join(Ilikes(names), Or) + rest == first + after;
    assert Repeated(pattern, |names|) + ps == [pattern] + later;
    ComparisonReads(db, row, names[0], Ilike, pattern, after, later);
    if |names| > 1 {
      IlikesRead(db, row, names[1..], pattern, rest, ps);
      assert after[1..] == Join(Ilikes(names[1..]), Or) + rest;
      assert IlikeTruths(db, row, names, pattern)[1..] == IlikeTruths(db, row, names[1..], pattern);
    } else {
      assert later == ps;
    }
  }

  lemma {:induction false} SearchReads(db: Comparison, row: Row, names: seq<string>, pattern: string)
    requires names != []
    ensures ReadAnd(db, row, SearchClause(names), Repeated(pattern, |names|))
         == Some(Reading(AnyOf(IlikeTruths(db, row, names, pattern)), [], []))
  {
    hide Join, AnyOf;
    var ts := SearchClause(names);
    assert ts[1..] == Join(Ilikes(names), Or) + [Close];
    IlikesRead(db, row, names, pattern, [Close], []);
    assert Repeated(pattern, |names|) + [] == Repeated(pattern, |names|);
  }

  function SearchTruths(db: Comparison, row: Row, names: seq<string>, pattern: string): seq<Truth> {
    if names == [] then [] else [AnyOf(IlikeTruths(db, row, names, pattern))]
  }

  /** The conjunction of the filters and, last, the parenthesised search. */
  lemma {:induction false} ClausesRead(db: Comparison, row: Row, filters: seq<Filter>, names: seq<string>, pattern: string)
    requires filters != [] || names != []
    ensures ReadAnd(db, row, Join(Clauses(filters, names), And), FilterParams(filters) + Repeated(pattern, |names|))
         == Some(Reading(AllOf(FilterTruths(db, row, filters) + SearchTruths(db, row, names, pattern)), [], []))
    decreases |filters|
  {
    hide ReadAtom, AnyOf, SearchClause;
    var clauses, ps := Clauses(filters, names), FilterParams(filters) + Repeated(pattern, |names|);
    var truths := FilterTruths(db, row, filters) + SearchTruths(db, row, names, pattern);
    if filters == [] {
      SearchReads(db, row, names, pattern);
      assert clauses == [SearchClause(names)] && ps == Repeated(pattern, |names|);
      assert truths == SearchTruths(db, row, names, pattern);
    } else {
      var f, rest := filters[0], filters[1..];
      var later := FilterParams(rest) + Repeated(pattern, |names|);
      assert clauses[0] == EqualityClause(f.column) && clauses[1..] == Clauses(rest, names);
      assert ps == [f.value] + later;
      assert truths[0] == Compare(db.equal, Cell(row, f.column), f.value);
      assert truths[1..] == FilterTruths(db, row, rest) + SearchTruths(db, row, names, pattern);
      if |clauses| == 1 {
        ComparisonReads(db, row, f.column, Equals, f.value, [], []);
        assert EqualityClause(f.column) + [] == EqualityClause(f.column);
        assert later == [] && [f.value] + [] == ps;
      } else {
        FilterThenRest(db, row, filters, names, pattern);
      }
    }
  }

  lemma {:induction false} FilterThenRest(db: Comparison, row: Row, filters: seq<Filter>, names: seq<string>, pattern: string)
    requires filters != [] && |Clauses(filters, names)| > 1
    ensures ReadAnd(db, row, Join(Clauses(filters, names), And), FilterParams(filters) + Repeated(pattern, |names|))
         == Some(Reading(AllOf(FilterTruths(db, row, filters) + SearchTruths(db, row, names, pattern)), [], []))
    decreases |filters|, 0
  {
    hide ReadAtom, AnyOf, SearchClause, Repeated;
    var clauses, ps := Clauses(filters, names), FilterParams(filters) + Repeated(pattern, |names|);
    var truths := FilterTruths(db, row, filters) + SearchTruths(db, row, names, pattern);
    var f, rest := filters[0], filters[1..];
    var later := FilterParams(rest) + Repeated(pattern, |names|);
    var after := [And] + Join(Clauses(rest, names), And);
    assert clauses[0] == EqualityClause(f.column) && clauses[1..] == Clauses(rest, names);
    assert Join(clauses, And) == EqualityClause(f.column) + after;
    assert FilterParams(filters) == [f.value] + FilterParams(rest);
    assert ps == [f.value] + later;
    assert truths[0] == Compare(db.equal, Cell(row, f.column), f.value);
    assert truths[1..] == FilterTruths(db, row, rest) + SearchTruths(db, row, names, pattern);
    ComparisonReads(db, row, f.column, Equals, f.value, after, later);
    assert after[1..] == Join(Clauses(rest, names), And);
    ClausesRead(db, row, rest, names, pattern);
  }

  /** For every table, filters, search text and row: the clause reads without a placeholder or parameter
      missing or left over, and is true exactly for the rows that were asked for. */
  lemma WhereMeansAsked(db: Comparison, row: Row, columns: seq<Column>, filters: seq<Filter>, search: string)
    requires Where(columns, filters, search).Success?
    ensures
      var (ts, ps) := Where(columns, filters, search).value;
      && Denote(db, row, ts, ps).Some?
      && (Denote(db, row, ts, ps) == Some(True) <==> Asked(db, row, columns, filters, search))
  {
    hide ReadAnd, ReadAtom, Join, FirstUnknown;
    var names, pattern := SearchNames(columns, search), Pattern(search);
    var (ts, ps) := Where(columns, filters, search).value;
    if filters == [] && names == [] {
      NoClause(filters, names);
      assert ps == [];
    } else {
      ClausesRead(db, row, filters, names, pattern);
      NotEmpty(filters, names);
      var truths := FilterTruths(db, row, filters) + SearchTruths(db, row, names, pattern);
      assert Denote(db, row, ts, ps) == Some(AllOf(truths));
      TruthsMeanAsked(db, row, columns, filters, search);
    }
  }

  lemma NoClause(filters: seq<Filter>, names: seq<string>)
    requires filters == [] && names == []
    ensures Join(Clauses(filters, names), And) == []
  {
  }

  lemma NotEmpty(filters: seq<Filter>, names: seq<string>)
    requires filters != [] || names != []
    ensures Join(Clauses(filters, names), And) != []
  {
  }

  lemma TruthsMeanAsked(db: Comparison, row: Row, columns: seq<Column>, filters: seq<Filter>, search: string)
    ensures
      var truths := FilterTruths(db, row, filters)
                    + SearchTruths(db, row, SearchNames(columns, search), Pattern(search));
      AllOf(truths) == True <==> Asked(db, row, columns, filters, search)
  {
    hide AllOf, AnyOf, Compare, Cell, TextColumns;
    var names := SearchNames(columns, search);
    var a, b := FilterTruths(db, row, filters), SearchTruths(db, row, names, Pattern(search));
    AllOfTrue(a + b);
    AllTrueConcat(a, b);
    FiltersTrue(db, row, filters);
    SearchTrue(db, row, names, Pattern(search));
  }

  lemma AllTrueConcat(a: seq<Truth>, b: seq<Truth>)
    ensures AllTrue(a + b) <==> AllTrue(a) && AllTrue(b)
  {
    if AllTrue(a + b) {
      assert forall i :: 0 <= i < |a| ==> a[i] == (a + b)[i];
      assert forall i :: 0 <= i < |b| ==> b[i] == (a + b)[|a| + i];
    }
  }

  lemma FiltersTrue(db: Comparison, row: Row, filters: seq<Filter>)
    ensures AllTrue(FilterTruths(db, row, filters))
       <==> (forall f :: f in filters ==> Compare(db.equal, Cell(row, f.column), f.value) == True)
  {
    hide Compare, Cell;
    var a := FilterTruths(db, row, filters);
    if AllTrue(a) {
      forall f | f in filters ensures Compare(db.equal, Cell(row, f.column), f.value) == True {
        var i :| 0 <= i < |filters| && filters[i] == f;
        assert a[i] == True;
      }
    }
    if forall f :: f in filters ==> Compare(db.equal, Cell(row, f.column), f.value) == True {
      assert forall i :: 0 <= i < |filters| ==> filters[i] in filters;
    }
  }

  lemma SearchTrue(db: Comparison, row: Row, names: seq<string>, pattern: string)
    ensures AllTrue(SearchTruths(db, row, names, pattern))
       <==> names == [] || exists n :: n in names && Compare(db.ilike, Cell(row, n), pattern) == True
  {
    hide Compare, Cell;
    var a := IlikeTruths(db, row, names, pattern);
    AnyOfTrue(a);
    if names != [] {
      assert AllTrue(SearchTruths(db, row, names, pattern)) <==> AnyOf(a) == True by {
        assert SearchTruths(db, row, names, pattern)[0] == AnyOf(a);
      }
    }
    if n :| n in names && Compare(db.ilike, Cell(row, n), pattern) == True {
      var i :| 0 <= i < |names| && names[i] == n;
      assert a[i] == True;
    }
    if AnyTrue(a) {
      var i :| 0 <= i < |a| && a[i] == True;
      assert names[i] in names;
    }
  }

  /** A request is refused exactly when it filters on a column the table does not have. */
  lemma {:induction false} RefusedExactlyOnUnknown(columns: seq<Column>, filters: seq<Filter>, search: string)
    ensures Where(columns, filters, search).Failure?
      <==> exists f :: f in filters && forall c :: c in columns ==> c.name != f.column
    decreases |filters|
  {
    UnknownExactly(columns, filters);
    hide FirstUnknown;
  }

  lemma {:induction false} UnknownExactly(columns: seq<Column>, filters: seq<Filter>)
    ensures FirstUnknown(columns, filters).Some?
      <==> exists f :: f in filters && forall c :: c in columns ==> c.name != f.column
    decreases |filters|
  {
    if filters != [] {
      UnknownExactly(columns, filters[1..]);
      if f :| f in filters && forall c :: c in columns ==> c.name != f.column {
        assert f == filters[0] || f in filters[1..];
      }
    }
  }

  // ---------- the reader ----------

  /** AND and OR are those of SQL: an unknown operand leaves the answer open unless the other one settles it. */
  lemma LogicIsThreeValued(a: Truth, b: Truth)
    ensures Both(a, b) == True <==> a == True && b == True
    ensures Both(a, b) == False <==> a == False || b == False
    ensures Either(a, b) == True <==> a == True || b == True
    ensures Either(a, b) == False <==> a == False && b == False
  {
  }

  function Holes(ts: Clause): nat {
    if ts == [] then 0 else (if ts[0] == Hole then 1 else 0) + Holes(ts[1..])
  }

  lemma {:induction false} AtomTakesItsHoles(db: Comparison, row: Row, ts: Clause, ps: seq<string>)
    ensures var r := ReadAtom(db, row, ts, ps); r.Some? ==>
      Holes(ts) - Holes(r.value.tokens) == |ps| - |r.value.params|
    decreases |ts|, 0
  {
    if ts != [] && ts[0] == Open {
      OrTakesItsHoles(db, row, ts[1..], ps);
    } else if ReadAtom(db, row, ts, ps).Some? {
      ThreeTokens(ts);
    }
  }

  lemma {:induction false} ThreeTokens(ts: Clause)
    requires |ts| >= 3 && ts[0] != Hole && ts[1] != Hole && ts[2] == Hole
    ensures Holes(ts) == 1 + Holes(ts[3..])
  {
    assert ts[1..][1..][1..] == ts[3..] && ts[1..][0] == ts[1] && ts[1..][1..][0] == ts[2];
    assert Holes(ts) == Holes(ts[1..]) && Holes(ts[1..]) == Holes(ts[1..][1..]);
  }

  lemma {:induction false} AndTakesItsHoles(db: Comparison, row: Row, ts: Clause, ps: seq<string>)
    ensures var r := ReadAnd(db, row, ts, ps); r.Some? ==>
      Holes(ts) - Holes(r.value.tokens) == |ps| - |r.value.params|
    decreases |ts|, 1
  {
    hide ReadAtom;
    AtomTakesItsHoles(db, row, ts, ps);
    var first := ReadAtom(db, row, ts, ps);
    if first.Some? && first.value.tokens != [] && first.value.tokens[0] == And {
      AndTakesItsHoles(db, row, first.value.tokens[1..], first.value.params);
    }
  }

  lemma {:induction false} OrTakesItsHoles(db: Comparison, row: Row, ts: Clause, ps: seq<string>)
    ensures var r := ReadOr(db, row, ts, ps); r.Some? ==>
      Holes(ts) - Holes(r.value.tokens) == |ps| - |r.value.params|
    decreases |ts|, 2
  {
    hide ReadAnd;
    AndTakesItsHoles(db, row, ts, ps);
    var first := ReadAnd(db, row, ts, ps);
    if first.Some? && first.value.tokens != [] && first.value.tokens[0] == Or {
      OrTakesItsHoles(db, row, first.value.tokens[1..], first.value.params);
    }
  }

  /** Every clause that is built has exactly one placeholder for each of its parameters; with one parameter more or less it
      would have no meaning. */
  lemma {:induction false} PlaceholdersMatchParameters(
      db: Comparison, row: Row, columns: seq<Column>, filters: seq<Filter>, search: string)
    requires Where(columns, filters, search).Success?
    ensures
      var (ts, ps) := Where(columns, filters, search).value;
      Holes(ts) == |ps| && forall other :: Denote(db, row, ts, other).Some? ==> |other| == |ps|
  {
    hide Where, ReadOr;
    WhereMeansAsked(db, row, columns, filters, search);
    var (ts, ps) := Where(columns, filters, search).value;
    OrTakesItsHoles(db, row, ts, ps);
    forall other | Denote(db, row, ts, other).Some? ensures |other| == |ps| {
      OrTakesItsHoles(db, row, ts, other);
    }
  }

  /** Without its parentheses the search would escape the filters: a row that fails the filter would be
      selected as soon as its last text column matches. */
  lemma ParenthesesMatter(db: Comparison, row: Row, filter: Filter, a: string, b: string, pattern: string)
    requires Compare(db.equal, Cell(row, filter.column), filter.value) == False
    requires Compare(db.ilike, Cell(row, b), pattern) == True
    ensures
      var bare := EqualityClause(filter.column) + ([And] + (IlikeClause(a) + ([Or] + IlikeClause(b))));
      Denote(db, row, bare, [filter.value, pattern, pattern]) == Some(True)
  {
    hide ReadAtom;
    var last := IlikeClause(b);
    var second := IlikeClause(a) + ([Or] + last);
    var bare := EqualityClause(filter.column) + ([And] + second);
    ComparisonReads(db, row, filter.column, Equals, filter.value, [And] + second, [pattern, pattern]);
    assert [filter.value] + [pattern, pattern] == [filter.value, pattern, pattern];
    ComparisonReads(db, row, a, Ilike, pattern, [Or] + last, [pattern]);
    assert [pattern] + [pattern] == [pattern, pattern];
    ComparisonReads(db, row, b, Ilike, pattern, [], []);
    assert last + [] == last && [pattern] + [] == [pattern];
    assert ([And] + second)[1..] == second && ([Or] + last)[1..] == last;
    assert ReadAnd(db, row, last, [pattern]) == Some(Reading(True, [], []));
    assert ReadOr(db, row, last, [pattern]) == Some(Reading(True, [], []));
    assert ReadAnd(db, row, second, [pattern, pattern]).value.tokens == [Or] + last;
    assert ReadAnd(db, row, bare, [filter.value, pattern, pattern]).value
        == Reading(False, [Or] + last, [pattern]);
  }
}
