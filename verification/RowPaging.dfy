/** Fetching a table page by page: which pages put together give every row once. */
module RowPaging {
  import opened Wrappers
  import opened RowQuery

  const MAX_LIMIT := 500

  /** max(1, min(limit, MAX_LIMIT)) */
  function ClampLimit(limit: int): (l: nat)
    ensures 1 <= l <= MAX_LIMIT
  {
    var l := if limit < MAX_LIMIT then limit else MAX_LIMIT;
    if l < 1 then 1 else l
  }

  function ClampOffset(offset: int): nat {
    if offset < 0 then 0 else offset
  }

  /** A stored row: the rank of its ordering column among all values, and its cells. */
  datatype Record = Record(rank: int, cells: Row)

  /** The rows that the WHERE clause selects, in storage order. */
  function Selected(db: Comparison, rows: seq<Record>, ts: Clause, ps: seq<string>): seq<Record> {
    if rows == [] then []
    else (if Denote(db, rows[0].cells, ts, ps) == Some(True) then [rows[0]] else []) + Selected(db, rows[1..], ts, ps)
  }

  /** The count query and the page query select the same rows: exactly those asked for, each as often as it
      is stored. */
  lemma {:induction false} SelectedAreAsked(
      db: Comparison, rows: seq<Record>, columns: seq<Column>, filters: seq<Filter>, search: string, r: Record)
    requires Where(columns, filters, search).Success?
    ensures
      var (ts, ps) := Where(columns, filters, search).value;
      multiset(Selected(db, rows, ts, ps))[r]
        == if Asked(db, r.cells, columns, filters, search) then multiset(rows)[r] else 0
  {
    hide Where, Asked, Denote;
    if rows != [] {
      var (ts, ps) := Where(columns, filters, search).value;
      WhereMeansAsked(db, rows[0].cells, columns, filters, search);
      SelectedAreAsked(db, rows[1..], columns, filters, search, r);
      assert rows == [rows[0]] + rows[1..];
    }
  }

  // ---------- ORDER BY, LIMIT, OFFSET ----------

  ghost predicate Sorted(s: seq<Record>) {
    forall i, j :: 0 <= i < j < |s| ==> s[i].rank <= s[j].rank
  }

  /** What the database may return for the ordered query: ties come in any order. */
  ghost predicate IsAnswer(rows: seq<Record>, answer: seq<Record>) {
    multiset(answer) == multiset(rows) && Sorted(answer)
  }

  function Min(a: nat, b: nat): nat {
    if a < b then a else b
  }

  function Page(answer: seq<Record>, offset: nat, limit: nat): seq<Record> {
    answer[Min(offset, |answer|)..Min(offset + limit, |answer|)]
  }

  /** The pages at offsets 0, limit, 2 * limit, ..., each cut from the answer to its own query. */
  function Pages(answers: seq<seq<Record>>, limit: nat): seq<Record> {
    if answers == [] then []
    else Pages(answers[..|answers| - 1], limit) + Page(answers[|answers| - 1], (|answers| - 1) * limit, limit)
  }

  ghost predicate DistinctRanks(s: seq<Record>) {
    forall i, j :: 0 <= i < j < |s| ==> s[i].rank != s[j].rank
  }

  /** Enough pages to cover all rows, whatever order ties come in, give every row exactly as often as it is
      stored. */
  ghost predicate ReliableAt(rows: seq<Record>, limit: nat) {
    forall answers: seq<seq<Record>> ::
      |answers| * limit >= |rows| && (forall a :: a in answers ==> IsAnswer(rows, a))
      ==> multiset(Pages(answers, limit)) == multiset(rows)
  }

  ghost predicate PagingIsReliable(rows: seq<Record>) {
    forall limit: nat :: 1 <= limit <= MAX_LIMIT ==> ReliableAt(rows, limit)
  }

  lemma SameHead(a: seq<Record>, b: seq<Record>)
    requires multiset(a) == multiset(b) && Sorted(a) && Sorted(b) && DistinctRanks(a) && a != [] && b != []
    ensures a[0] == b[0]
  {
    assert a[0] in multiset(a) && b[0] in multiset(b);
    assert a[0] in b && b[0] in a;
    var j :| 0 <= j < |b| && b[j] == a[0];
    var i :| 0 <= i < |a| && a[i] == b[0];
    assert a[0].rank <= a[i].rank && b[0].rank <= b[j].rank;
  }

  lemma SameTail(a: seq<Record>, b: seq<Record>)
    requires a != [] && b != [] && a[0] == b[0] && multiset(a) == multiset(b)
    ensures multiset(a[1..]) == multiset(b[1..])
  {
    assert a == [a[0]] + a[1..] && b == [b[0]] + b[1..];
    assert multiset(a) == multiset{a[0]} + multiset(a[1..]);
    assert multiset(b) == multiset{a[0]} + multiset(b[1..]);
    assert multiset(a[1..]) == multiset(a) - multiset{a[0]};
    assert multiset(b[1..]) == multiset(b) - multiset{a[0]};
  }

  lemma {:induction false} SortedIsUnique(a: seq<Record>, b: seq<Record>)
    requires multiset(a) == multiset(b) && Sorted(a) && Sorted(b) && DistinctRanks(a)
    ensures a == b
    decreases |a|
  {
    assert |a| == |multiset(a)| == |multiset(b)| == |b|;
    if a != [] {
      SameHead(a, b);
      SameTail(a, b);
      TailStaysSorted(a);
      TailStaysSorted(b);
      assert DistinctRanks(a[1..]) by {
        forall i, j | 0 <= i < j < |a[1..]| ensures a[1..][i].rank != a[1..][j].rank {
          assert a[i + 1].rank != a[j + 1].rank;
        }
      }
      SortedIsUnique(a[1..], b[1..]);
      hide Sorted, DistinctRanks;
      assert a == [a[0]] + a[1..] && b == [b[0]] + b[1..];
    }
  }

  lemma TailStaysSorted(s: seq<Record>)
    requires s != [] && Sorted(s)
    ensures Sorted(s[1..])
  {
  }

  /** Pages of one and the same answer are its beginning. */
  lemma {:induction false} PagesOfOneAnswer(answers: seq<seq<Record>>, limit: nat, answer: seq<Record>)
    requires forall a :: a in answers ==> a == answer
    ensures Pages(answers, limit) == answer[..Min(|answers| * limit, |answer|)]
    decreases |answers|
  {
    if answers != [] {
      var n := |answers| - 1;
      forall a | a in answers[..n] ensures a == answer {
        assert a in answers;
      }
      PagesOfOneAnswer(answers[..n], limit, answer);
      assert answers[n] in answers;
      NextPage(answer, n * limit, limit);
      OneMorePage(n, limit);
    }
  }

  lemma NextPage(answer: seq<Record>, offset: nat, limit: nat)
    ensures answer[..Min(offset, |answer|)] + Page(answer, offset, limit) == answer[..Min(offset + limit, |answer|)]
  {
  }

  lemma OneMorePage(n: nat, limit: nat)
    ensures (n + 1) * limit == n * limit + limit
  {
  }

  /** With distinct ranks, as under the default ordering by primary key, the pages are the sorted rows. */
  lemma {:induction false} PagesOfDistinctRanks(rows: seq<Record>, answer: seq<Record>, answers: seq<seq<Record>>, limit: nat)
    requires IsAnswer(rows, answer) && DistinctRanks(answer)
    requires forall a :: a in answers ==> IsAnswer(rows, a)
    requires |answers| * limit >= |rows|
    ensures Pages(answers, limit) == answer
  {
    forall a | a in answers ensures a == answer {
      SortedIsUnique(answer, a);
    }
    assert |answer| == |multiset(answer)| == |multiset(rows)| == |rows|;
    PagesOfOneAnswer(answers, limit, answer);
  }

  // ---------- the whole call ----------

  datatype Listing = Listing(count: nat, limit: nat, offset: nat, results: seq<Record>)

  /** list_rows, given the order in which the database answers. */
  ghost function ListRows(
      db: Comparison, rows: seq<Record>, columns: seq<Column>, filters: seq<Filter>, search: string,
      limit: int, offset: int, answer: seq<Record>): Result<Listing, QueryError>
  {
    var (ts, ps) :- Where(columns, filters, search);
    var l, o := ClampLimit(limit), ClampOffset(offset);
    Success(Listing(|Selected(db, rows, ts, ps)|, l, o, Page(answer, o, l)))
  }

  /** Whatever limit and offset are asked for, the limit is kept between 1 and 500 and the offset from 0 on; the page
      holds as many of the counted rows as there are from the offset on, up to the limit, those of the answer in its
      order, and only rows that were asked for. */
  lemma {:induction false} ListingIsConsistent(
      db: Comparison, rows: seq<Record>, columns: seq<Column>, filters: seq<Filter>, search: string,
      limit: int, offset: int, answer: seq<Record>)
    requires Where(columns, filters, search).Success?
    requires
      var (ts, ps) := Where(columns, filters, search).value;
      IsAnswer(Selected(db, rows, ts, ps), answer)
    ensures
      var listing := ListRows(db, rows, columns, filters, search, limit, offset, answer).value;
      && listing.limit == (if limit < 1 then 1 else if limit <= 500 then limit else 500)
      && listing.offset == (if offset < 0 then 0 else offset)
      && listing.count == |answer|
      && listing.results == answer[Min(listing.offset, |answer|)..Min(listing.offset + listing.limit, |answer|)]
      && |listing.results| == Min(listing.limit, if offset <= 0 then listing.count
                                                 else if offset <= listing.count then listing.count - offset else 0)
      && (forall r :: r in listing.results ==> r in rows && Asked(db, r.cells, columns, filters, search))
  {
    hide Where, Asked, Denote, Selected, IsAnswer;
    var (ts, ps) := Where(columns, filters, search).value;
    SameLength(Selected(db, rows, ts, ps), answer);
    AnswersAreAsked(db, rows, columns, filters, search, answer);
  }

  lemma SameLength(rows: seq<Record>, answer: seq<Record>)
    requires IsAnswer(rows, answer)
    ensures |answer| == |rows|
  {
    assert |rows| == |multiset(rows)| == |multiset(answer)| == |answer|;
  }

  lemma {:induction false} AnswersAreAsked(
      db: Comparison, rows: seq<Record>, columns: seq<Column>, filters: seq<Filter>, search: string, answer: seq<Record>)
    requires Where(columns, filters, search).Success?
    requires
      var (ts, ps) := Where(columns, filters, search).value;
      IsAnswer(Selected(db, rows, ts, ps), answer)
    ensures forall r :: r in answer ==> r in rows && Asked(db, r.cells, columns, filters, search)
  {
    hide Where, Asked, Selected;
    forall r | r in answer ensures r in rows && Asked(db, r.cells, columns, filters, search) {
      assert r in multiset(answer);
      SelectedAreAsked(db, rows, columns, filters, search, r);
    }
  }

  // ---------- ties ----------

  function Swapped(s: seq<Record>, i: nat, j: nat): (r: seq<Record>)
    requires i < j < |s|
    ensures |r| == |s| && multiset(r) == multiset(s)
  {
    var r := s[i := s[j]][j := s[i]];
    assert multiset(r) == multiset(s) by { SwapKeepsMultiset(s, i, j); }
    r
  }

  lemma SwapKeepsMultiset(s: seq<Record>, i: nat, j: nat)
    requires i < j < |s|
    ensures multiset(s[i := s[j]][j := s[i]]) == multiset(s)
  {
  }

  function Offset(page: nat, limit: nat): nat {
    page * limit
  }

  /** No tie crosses a page boundary: the last row of a page ranks below the first row of the next one. */
  ghost predicate TiesStayOnPages(s: seq<Record>, limit: nat) {
    forall b: nat :: 0 < Offset(b, limit) < |s| ==> s[Offset(b, limit) - 1].rank < s[Offset(b, limit)].rank
  }

  lemma CountInParts(s: seq<Record>, p: nat, r: Record)
    requires p <= |s|
    ensures multiset(s)[r] == multiset(s[..p])[r] + multiset(s[p..])[r]
  {
    assert s == s[..p] + s[p..];
  }

  /** Two sorted orders of the same rows have the same ranks. */
  lemma RanksAgree(a: seq<Record>, s: seq<Record>, i: nat)
    requires multiset(a) == multiset(s) && Sorted(a) && Sorted(s) && i < |a| && i < |s|
    ensures s[i].rank <= a[i].rank
  {
    if a[i].rank < s[i].rank {
      var few, fewer := multiset(a[..i + 1]), multiset(s[..i]);
      forall r: Record ensures few[r] <= fewer[r] {
        CountInParts(a, i + 1, r);
        CountInParts(s, i, r);
        if r in few {
          assert r in a[..i + 1] && r.rank <= a[i].rank;
          assert r !in s[i..];
          assert multiset(s[i..])[r] == 0;
        }
      }
      SmallerBag(few, fewer);
    }
  }

  lemma SmallerBag(few: multiset<Record>, fewer: multiset<Record>)
    requires forall r: Record :: few[r] <= fewer[r]
    ensures |few| <= |fewer|
  {
    assert fewer == few + (fewer - few);
  }

  /** What stands before a boundary without a tie is the same rows in every answer. */
  lemma SameBeforeBoundary(a: seq<Record>, s: seq<Record>, p: nat)
    requires multiset(a) == multiset(s) && Sorted(a) && Sorted(s) && p <= |s| == |a|
    requires 0 < p < |s| ==> s[p - 1].rank < s[p].rank
    ensures multiset(a[..p]) == multiset(s[..p])
  {
    if 0 < p < |s| {
      RanksAgree(s, a, p - 1);
      RanksAgree(a, s, p);
      forall r: Record ensures multiset(a[..p])[r] == multiset(s[..p])[r] {
        CountInParts(a, p, r);
        CountInParts(s, p, r);
        if r.rank < s[p].rank {
          assert r !in a[p..] && r !in s[p..];
          assert multiset(a[p..])[r] == 0 && multiset(s[p..])[r] == 0;
        } else {
          assert r !in a[..p] && r !in s[..p];
          assert multiset(a[..p])[r] == 0 && multiset(s[..p])[r] == 0;
        }
      }
    } else {
      assert p == 0 || (a[..p] == a && s[..p] == s);
    }
  }

  /** The boundary after page n - 1, or the end. */
  lemma BoundarySplits(a: seq<Record>, s: seq<Record>, n: nat, limit: nat)
    requires multiset(a) == multiset(s) && Sorted(a) && Sorted(s) && TiesStayOnPages(s, limit)
    ensures |a| == |s|
    ensures multiset(a[..Min(Offset(n, limit), |a|)]) == multiset(s[..Min(Offset(n, limit), |s|)])
  {
    assert |a| == |multiset(a)| == |multiset(s)| == |s|;
    SameBeforeBoundary(a, s, Min(Offset(n, limit), |s|));
  }

  lemma {:induction false} PagesWithoutCrossingTies(rows: seq<Record>, s: seq<Record>, answers: seq<seq<Record>>, limit: nat)
    requires IsAnswer(rows, s) && TiesStayOnPages(s, limit)
    requires forall a :: a in answers ==> IsAnswer(rows, a)
    ensures multiset(Pages(answers, limit)) == multiset(s[..Min(Offset(|answers|, limit), |s|)])
    decreases |answers|
  {
    if answers != [] {
      var n := |answers| - 1;
      var a := answers[n];
      forall b | b in answers[..n] ensures IsAnswer(rows, b) {
        assert b in answers;
      }
      PagesWithoutCrossingTies(rows, s, answers[..n], limit);
      assert a in answers;
      BoundarySplits(a, s, n, limit);
      BoundarySplits(a, s, n + 1, limit);
      LastOfPages(answers, limit);
      hide TiesStayOnPages, IsAnswer, Offset, Pages, Page;
      NextPage(a, Offset(n, limit), limit);
      assert multiset(a[..Min(Offset(n, limit), |a|)] + Page(a, Offset(n, limit), limit))
        == multiset(a[..Min(Offset(n, limit), |a|)]) + multiset(Page(a, Offset(n, limit), limit));
    }
  }

  lemma {:induction false} LastOfPages(answers: seq<seq<Record>>, limit: nat)
    requires answers != []
    ensures
      var n := |answers| - 1;
      && Offset(n + 1, limit) == Offset(n, limit) + limit
      && Pages(answers, limit) == Pages(answers[..n], limit) + Page(answers[n], Offset(n, limit), limit)
  {
    OneMorePage(|answers| - 1, limit);
  }

  /** All queries answered by `s`, except that the one for page b sees the two rows at its boundary the other way
      round. */
  function OneSwapped(s: seq<Record>, b: nat, limit: nat, n: nat): seq<seq<Record>>
    requires 0 < Offset(b, limit) < |s|
  {
    seq(n, k => if k == b then Swapped(s, Offset(b, limit) - 1, Offset(b, limit)) else s)
  }

  /** The rows that those pages then give: one of the two twice. */
  function Overwritten(s: seq<Record>, b: nat, limit: nat): (r: seq<Record>)
    requires 0 < Offset(b, limit) < |s|
    ensures |r| == |s|
  {
    s[Offset(b, limit) := s[Offset(b, limit) - 1]]
  }

  lemma OffsetsAreOrdered(k: nat, b: nat, limit: nat)
    requires 0 < limit
    ensures k < b ==> Offset(k, limit) + limit <= Offset(b, limit)
  {
    if k < b {
      OffsetsAdd(k + 1, b - k - 1, limit);
      OneMorePage(k, limit);
    }
  }

  lemma OffsetsAdd(a: nat, b: nat, limit: nat)
    ensures Offset(a + b, limit) == Offset(a, limit) + Offset(b, limit)
  {
  }

  lemma OneSwappedPage(s: seq<Record>, b: nat, limit: nat, k: nat)
    requires 0 < limit && 0 < Offset(b, limit) < |s|
    ensures Page(OneSwapped(s, b, limit, k + 1)[k], Offset(k, limit), limit)
      == Page(if k < b then s else Overwritten(s, b, limit), Offset(k, limit), limit)
  {
    OffsetsAreOrdered(k, b, limit);
    OffsetsAreOrdered(b, k, limit);
  }

  lemma {:induction false} OneSwappedPages(s: seq<Record>, b: nat, limit: nat, n: nat)
    requires 0 < limit && 0 < Offset(b, limit) < |s|
    ensures Pages(OneSwapped(s, b, limit, n), limit)
      == (if n <= b then s else Overwritten(s, b, limit))[..Min(Offset(n, limit), |s|)]
    decreases n
  {
    hide Page, Swapped, Overwritten, Offset, Pages;
    if n > 0 {
      OneSwappedPages(s, b, limit, n - 1);
      OneSwappedPage(s, b, limit, n - 1);
      PrefixUntouched(s, b, limit, n - 1);
      LastPage(s, b, limit, n);
      NextPage(if n <= b then s else Overwritten(s, b, limit), Offset(n - 1, limit), limit);
    } else {
      assert OneSwapped(s, b, limit, 0) == [];
      NoPages(s, limit);
    }
  }

  lemma {:induction false} NoPages(s: seq<Record>, limit: nat)
    ensures Pages([], limit) == s[..Min(Offset(0, limit), |s|)]
  {
  }

  lemma {:induction false} LastPage(s: seq<Record>, b: nat, limit: nat, n: nat)
    requires 0 < n && 0 < Offset(b, limit) < |s|
    ensures Pages(OneSwapped(s, b, limit, n), limit)
      == Pages(OneSwapped(s, b, limit, n - 1), limit)
         + Page(OneSwapped(s, b, limit, n)[n - 1], Offset(n - 1, limit), limit)
    ensures Offset(n, limit) == Offset(n - 1, limit) + limit
  {
    hide Swapped, Page;
    OneMorePage(n - 1, limit);
    assert OneSwapped(s, b, limit, n)[..n - 1] == OneSwapped(s, b, limit, n - 1);
  }

  lemma PrefixUntouched(s: seq<Record>, b: nat, limit: nat, k: nat)
    requires 0 < limit && 0 < Offset(b, limit) < |s|
    ensures k <= b ==>
      s[..Min(Offset(k, limit), |s|)] == Overwritten(s, b, limit)[..Min(Offset(k, limit), |s|)]
  {
    OffsetsAreOrdered(k, b, limit);
  }

  lemma OverwritingLosesOne(s: seq<Record>, i: nat, j: nat)
    requires i < j < |s| && s[i] != s[j]
    ensures multiset(s[j := s[i]]) != multiset(s)
  {
    assert multiset(s[j := s[i]]) == multiset(s) - multiset{s[j]} + multiset{s[i]};
    assert multiset(s[j := s[i]])[s[j]] == multiset(s)[s[j]] - 1;
  }

  /** If two different rows tie across a page boundary, the pages can give one of them twice and the other never. */
  lemma CrossingTieBreaksPaging(rows: seq<Record>, s: seq<Record>, b: nat, limit: nat)
    requires IsAnswer(rows, s) && 0 < limit && 0 < Offset(b, limit) < |s|
    requires
      var p := Offset(b, limit); s[p - 1].rank == s[p].rank && s[p - 1] != s[p]
    ensures !ReliableAt(rows, limit)
  {
    var n := |s| + b + 1;
    var answers := OneSwapped(s, b, limit, n);
    assert |s| == |multiset(s)| == |multiset(rows)| == |rows|;
    ManyPages(n, limit);
    forall a | a in answers ensures IsAnswer(rows, a) {
      OneSwappedAnswers(rows, s, b, limit, n, a);
    }
    SwappedPagesLoseOne(s, b, limit, n);
    hide IsAnswer, OneSwapped, Pages;
  }

  lemma {:induction false} SwappedPagesLoseOne(s: seq<Record>, b: nat, limit: nat, n: nat)
    requires 0 < limit && 0 < Offset(b, limit) < |s| && b < n && |s| <= Offset(n, limit)
    requires s[Offset(b, limit) - 1] != s[Offset(b, limit)]
    ensures multiset(Pages(OneSwapped(s, b, limit, n), limit)) != multiset(s)
  {
    hide OneSwapped, Pages;
    OneSwappedPages(s, b, limit, n);
    OverwritingLosesOne(s, Offset(b, limit) - 1, Offset(b, limit));
    assert Pages(OneSwapped(s, b, limit, n), limit) == Overwritten(s, b, limit);
  }

  lemma ManyPages(n: nat, limit: nat)
    requires 0 < limit
    ensures n <= Offset(n, limit) == n * limit
  {
  }

  lemma OneSwappedAnswers(rows: seq<Record>, s: seq<Record>, b: nat, limit: nat, n: nat, a: seq<Record>)
    requires IsAnswer(rows, s) && 0 < Offset(b, limit) < |s|
    requires s[Offset(b, limit) - 1].rank == s[Offset(b, limit)].rank
    requires a in OneSwapped(s, b, limit, n)
    ensures IsAnswer(rows, a)
  {
  }

  /** Pages of a given size are reliable exactly when no tie crosses a page boundary (rows differ at least in their
      primary keys). */
  lemma ReliableAtExactly(rows: seq<Record>, s: seq<Record>, limit: nat)
    requires IsAnswer(rows, s) && 0 < limit && forall i, j :: 0 <= i < j < |s| ==> s[i] != s[j]
    ensures ReliableAt(rows, limit) <==> TiesStayOnPages(s, limit)
  {
    assert |s| == |multiset(s)| == |multiset(rows)| == |rows|;
    if !TiesStayOnPages(s, limit) {
      var b: nat :| 0 < Offset(b, limit) < |s| && !(s[Offset(b, limit) - 1].rank < s[Offset(b, limit)].rank);
      CrossingTieBreaksPaging(rows, s, b, limit);
    } else {
      forall answers: seq<seq<Record>> |
        |answers| * limit >= |rows| && (forall a :: a in answers ==> IsAnswer(rows, a))
        ensures multiset(Pages(answers, limit)) == multiset(rows)
      {
        PagesWithoutCrossingTies(rows, s, answers, limit);
        assert s[..|s|] == s;
      }
    }
  }

  /** Pages of every size are reliable exactly when the ordering tells all selected rows apart. */
  lemma PagingIsReliableExactly(rows: seq<Record>, s: seq<Record>)
    requires IsAnswer(rows, s) && forall i, j :: 0 <= i < j < |s| ==> s[i] != s[j]
    ensures PagingIsReliable(rows) <==> DistinctRanks(s)
  {
    hide ReliableAt;
    if PagingIsReliable(rows) {
      ReliableAtExactly(rows, s, 1);
      RisingRanks(s);
    }
    if DistinctRanks(s) {
      forall limit: nat | 1 <= limit <= MAX_LIMIT ensures ReliableAt(rows, limit) {
        ReliableAtExactly(rows, s, limit);
      }
    }
  }

  lemma RisingRanks(s: seq<Record>)
    requires Sorted(s) && TiesStayOnPages(s, 1)
    ensures DistinctRanks(s)
  {
    forall i, j | 0 <= i < j < |s| ensures s[i].rank != s[j].rank {
      assert Offset(j, 1) == j;
    }
  }

  // ---------- a client that fetches page after page ----------

  /** The results of one list_rows call after another, the limit as asked for and the offset moving on by the limit
      that is granted; the k-th call's query is answered by answers[k]. */
  ghost function Fetched(
      db: Comparison, rows: seq<Record>, columns: seq<Column>, filters: seq<Filter>, search: string,
      limit: int, answers: seq<seq<Record>>): Result<seq<Record>, QueryError>
  {
    if answers == [] then Success([])
    else
      var n := |answers| - 1;
      var before :- Fetched(db, rows, columns, filters, search, limit, answers[..n]);
      var listing :- ListRows(db, rows, columns, filters, search, limit, n * ClampLimit(limit), answers[n]);
      Success(before + listing.results)
  }

  lemma {:induction false} FetchedArePages(
      db: Comparison, rows: seq<Record>, columns: seq<Column>, filters: seq<Filter>, search: string,
      limit: int, answers: seq<seq<Record>>)
    requires Where(columns, filters, search).Success?
    ensures Fetched(db, rows, columns, filters, search, limit, answers) == Success(Pages(answers, ClampLimit(limit)))
    decreases |answers|
  {
    hide Where, Selected, Page;
    if answers != [] {
      FetchedArePages(db, rows, columns, filters, search, limit, answers[..|answers| - 1]);
    }
  }

  /** Enough calls give exactly the rows asked for, each as often as it is stored, in whatever order ties come. */
  ghost predicate FetchesEveryRow(
      db: Comparison, rows: seq<Record>, columns: seq<Column>, filters: seq<Filter>, search: string, limit: int)
    requires Where(columns, filters, search).Success?
  {
    var (ts, ps) := Where(columns, filters, search).value;
    var selected := Selected(db, rows, ts, ps);
    forall answers: seq<seq<Record>> ::
      |answers| * ClampLimit(limit) >= |selected| && (forall a :: a in answers ==> IsAnswer(selected, a))
      ==> GivesEveryRow(db, rows, columns, filters, search, Fetched(db, rows, columns, filters, search, limit, answers))
  }

  ghost predicate GivesEveryRow(
      db: Comparison, rows: seq<Record>, columns: seq<Column>, filters: seq<Filter>, search: string,
      fetched: Result<seq<Record>, QueryError>)
  {
    fetched.Success? && forall r: Record ::
      multiset(fetched.value)[r] == if Asked(db, r.cells, columns, filters, search) then multiset(rows)[r] else 0
  }

  /** To give every row asked for is to give the selected ones. */
  lemma {:induction false} GivesTheSelected(
      db: Comparison, rows: seq<Record>, columns: seq<Column>, filters: seq<Filter>, search: string, all: seq<Record>)
    requires Where(columns, filters, search).Success?
    ensures
      var (ts, ps) := Where(columns, filters, search).value;
      GivesEveryRow(db, rows, columns, filters, search, Success(all))
      <==> multiset(all) == multiset(Selected(db, rows, ts, ps))
  {
    hide Where, Asked, Selected;
    var (ts, ps) := Where(columns, filters, search).value;
    var selected := Selected(db, rows, ts, ps);
    forall r: Record
      ensures multiset(selected)[r] == if Asked(db, r.cells, columns, filters, search) then multiset(rows)[r] else 0
    {
      SelectedAreAsked(db, rows, columns, filters, search, r);
    }
    if GivesEveryRow(db, rows, columns, filters, search, Success(all)) {
      forall r: Record ensures multiset(all)[r] == multiset(selected)[r] {}
    }
  }

  /** Fetching page after page gives every row asked for if and only if, in the order asked for, no tie crosses a
      boundary of the pages that the clamped limit grants. */
  lemma {:induction false} FetchesEveryRowExactly(
      db: Comparison, rows: seq<Record>, columns: seq<Column>, filters: seq<Filter>, search: string, limit: int,
      s: seq<Record>)
    requires Where(columns, filters, search).Success?
    requires
      var (ts, ps) := Where(columns, filters, search).value;
      IsAnswer(Selected(db, rows, ts, ps), s)
    requires forall i, j :: 0 <= i < j < |s| ==> s[i] != s[j]
    ensures FetchesEveryRow(db, rows, columns, filters, search, limit) <==> TiesStayOnPages(s, ClampLimit(limit))
  {
    hide Where, Selected, IsAnswer, TiesStayOnPages, ClampLimit, GivesEveryRow, Pages;
    var (ts, ps) := Where(columns, filters, search).value;
    var selected, l := Selected(db, rows, ts, ps), ClampLimit(limit);
    ReliableAtExactly(selected, s, l);
    forall answers: seq<seq<Record>>
      ensures GivesEveryRow(db, rows, columns, filters, search, Fetched(db, rows, columns, filters, search, limit, answers))
        <==> multiset(Pages(answers, l)) == multiset(selected)
    {
      FetchedArePages(db, rows, columns, filters, search, limit, answers);
      GivesTheSelected(db, rows, columns, filters, search, Pages(answers, l));
    }
  }

  /** The default ordering: no two rows have the same primary key, and the ordering tells keys apart. */
  ghost predicate OrderedByKey(rows: seq<Record>) {
    && (forall i, j :: 0 <= i < j < |rows| ==> Cell(rows[i].cells, "id") != Cell(rows[j].cells, "id"))
    && (forall r, q :: r in rows && q in rows && r.rank == q.rank ==> Cell(r.cells, "id") == Cell(q.cells, "id"))
  }

  lemma {:induction false} OnceEach(rows: seq<Record>, r: Record)
    requires forall i, j :: 0 <= i < j < |rows| ==> rows[i] != rows[j]
    ensures multiset(rows)[r] <= 1
    decreases |rows|
  {
    if rows != [] {
      var last := |rows| - 1;
      CountInParts(rows, last, r);
      assert rows[last..] == [rows[last]];
      OnceEach(rows[..last], r);
      if r == rows[last] {
        assert r !in rows[..last];
      }
    }
  }

  lemma TwiceIsTwo(s: seq<Record>, i: nat, j: nat)
    requires i < j < |s| && s[i] == s[j]
    ensures multiset(s)[s[i]] >= 2
  {
    CountInParts(s, j, s[i]);
    assert s[..j][i] == s[i] && s[j..][0] == s[i];
    assert s[i] in s[..j] && s[i] in s[j..];
  }

  /** Under the default ordering fetching page after page gives every row asked for, whatever limit is asked for. */
  lemma {:induction false} DefaultOrderFetchesEveryRow(
      db: Comparison, rows: seq<Record>, columns: seq<Column>, filters: seq<Filter>, search: string, limit: int)
    requires Where(columns, filters, search).Success? && OrderedByKey(rows)
    ensures FetchesEveryRow(db, rows, columns, filters, search, limit)
  {
    hide Where, Selected, Fetched, GivesEveryRow;
    var (ts, ps) := Where(columns, filters, search).value;
    var selected := Selected(db, rows, ts, ps);
    forall answers: seq<seq<Record>> |
      |answers| * ClampLimit(limit) >= |selected| && (forall a :: a in answers ==> IsAnswer(selected, a))
      ensures
        GivesEveryRow(db, rows, columns, filters, search, Fetched(db, rows, columns, filters, search, limit, answers))
    {
      FetchedArePages(db, rows, columns, filters, search, limit, answers);
      GivesTheSelected(db, rows, columns, filters, search, Pages(answers, ClampLimit(limit)));
      if answers == [] {
        assert selected == [];
      } else {
        var s := answers[0];
        assert s in answers;
        SelectedRankApart(db, rows, columns, filters, search, s);
        PagesOfDistinctRanks(selected, s, answers, ClampLimit(limit));
      }
    }
  }

  lemma {:induction false} SelectedRankApart(
      db: Comparison, rows: seq<Record>, columns: seq<Column>, filters: seq<Filter>, search: string, s: seq<Record>)
    requires Where(columns, filters, search).Success? && OrderedByKey(rows)
    requires
      var (ts, ps) := Where(columns, filters, search).value;
      multiset(s) == multiset(Selected(db, rows, ts, ps))
    ensures DistinctRanks(s)
  {
    hide Where, Selected, Asked;
    forall i, j | 0 <= i < j < |s| ensures s[i].rank != s[j].rank {
      SelectedAreAsked(db, rows, columns, filters, search, s[i]);
      SelectedAreAsked(db, rows, columns, filters, search, s[j]);
      assert s[i] in multiset(s) && s[j] in multiset(s);
      assert s[i] in rows && s[j] in rows;
      if s[i].rank == s[j].rank {
        var a :| 0 <= a < |rows| && rows[a] == s[i];
        var b :| 0 <= b < |rows| && rows[b] == s[j];
        assert a == b;
        TwiceIsTwo(s, i, j);
        OnceEach(rows, s[i]);
      }
    }
  }
}
