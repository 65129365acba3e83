/**
 The order in which a restore loads tables: a table is loaded only after every
 other table it references.  The loop keeps sweeping what is left until a sweep
 resolves nothing.
 */
module TopologicalOrder {
  import opened Wrappers
  import opened Schema
  import opened Graph

  function Dependencies(t: TableEntry): set<string> {
    set fk | fk in t.foreignKeys && fk.referencesTable != t.name :: fk.referencesTable
  }

  function Names(ts: seq<TableEntry>): set<string> {
    set t | t in ts :: t.name
  }

  // ---------- specification of the loop ----------

  /** One sweep over `pending`: the tables it resolves, and those it leaves.  A table resolved
      early in the sweep already counts for the tables after it. */
  function Sweep(pending: seq<TableEntry>, done: set<string>): (r: (seq<TableEntry>, seq<TableEntry>))
    ensures |r.0| + |r.1| == |pending|
  {
    if pending == [] then ([], [])
    else
      if Dependencies(pending[0]) <= done then
        var (ready, waiting) := Sweep(pending[1..], done + {pending[0].name});
        ([pending[0]] + ready, waiting)
      else
        var (ready, waiting) := Sweep(pending[1..], done);
        (ready, [pending[0]] + waiting)
  }

  /** All sweeps.  Failure carries the tables that could not be resolved. */
  function Resolve(pending: seq<TableEntry>, done: seq<TableEntry>): Result<seq<TableEntry>, seq<TableEntry>>
    decreases |pending|
  {
    if pending == [] then Success(done)
    else
      var (ready, waiting) := Sweep(pending, Names(done));
      if ready == [] then Failure(waiting) else Resolve(waiting, done + ready)
  }

  /** A dictionary by name: a later entry with the same name wins. */
  function ByName(ts: seq<TableEntry>): (m: map<string, TableEntry>)
    ensures m.Keys == Names(ts)
    ensures forall n :: n in m ==> m[n] in ts && m[n].name == n
  {
    if ts == [] then map[]
    else
      var last := ts[|ts| - 1];
      assert ts == ts[..|ts| - 1] + [last];
      ByName(ts[..|ts| - 1])[last.name := last]
  }

  function LookUp(ts: seq<TableEntry>, index: map<string, TableEntry>): seq<TableEntry>
    requires Names(ts) <= index.Keys
  {
    seq(|ts|, i requires 0 <= i < |ts| =>
      assert ts[i].name in Names(ts);
      index[ts[i].name])
  }

  function LoadOrder(tables: seq<TableEntry>): Result<seq<TableEntry>, seq<TableEntry>> {
    var r := Resolve(tables, []);
    if r.Failure? then r
    else
      ResolveKeepsTables(tables, []);
      SameMembers(r.value, tables);
      Success(LookUp(r.value, ByName(tables)))
  }

  // ---------- the code ----------

  method ComputeLoadOrder(tables: seq<TableEntry>) returns (r: Result<seq<TableEntry>, seq<TableEntry>>)
    ensures r == LoadOrder(tables)
  {
    var resolved: seq<TableEntry> := [];
    var resolvedNames: set<string> := {};
    var remaining := tables;
    while remaining != []
      invariant resolvedNames == Names(resolved)
      invariant Resolve(remaining, resolved) == Resolve(tables, [])
      decreases |remaining|
    {
      var ready, stillRemaining;
      ready, resolvedNames, stillRemaining := SweepOnce(remaining, resolved, resolvedNames);
      resolved := resolved + ready;
      if ready == [] && stillRemaining != [] {
        return Failure(stillRemaining);
      }
      remaining := stillRemaining;
    }
    ResolveKeepsTables(tables, []);
    SameMembers(resolved, tables);
    r := Success(LookUp(resolved, ByName(tables)));
  }

  /** The body of the outer loop. */
  method SweepOnce(remaining: seq<TableEntry>, resolved: seq<TableEntry>, resolvedNames: set<string>)
    returns (ready: seq<TableEntry>, names: set<string>, stillRemaining: seq<TableEntry>)
    requires resolvedNames == Names(resolved)
    ensures ready == Sweep(remaining, resolvedNames).0
    ensures stillRemaining == Sweep(remaining, resolvedNames).1
    ensures names == Names(resolved + ready)
  {
    ready, names, stillRemaining := [], resolvedNames, [];
    assert remaining[0..] == remaining;
    assert resolved + ready == resolved;
    for i := 0 to |remaining|
      invariant names == Names(resolved + ready)
      invariant Sweep(remaining, resolvedNames).0 == ready + Sweep(remaining[i..], names).0
      invariant Sweep(remaining, resolvedNames).1 == stillRemaining + Sweep(remaining[i..], names).1
    {
      var table := remaining[i];
      assert remaining[i..][0] == table && remaining[i..][1..] == remaining[i + 1..];
      if Dependencies(table) <= names {
        NamesOfAppend(resolved + ready, table);
        assert resolved + (ready + [table]) == resolved + ready + [table];
        ready := ready + [table];
        names := names + {table.name};
      } else {
        stillRemaining := stillRemaining + [table];
      }
    }
    assert remaining[|remaining|..] == [];
    assert Sweep(remaining, resolvedNames).0 == ready;
    assert Sweep(remaining, resolvedNames).1 == stillRemaining;
  }

  lemma NamesOfAppend(ts: seq<TableEntry>, t: TableEntry)
    ensures Names(ts + [t]) == Names(ts) + {t.name}
  {
  }

  // ---------- what a sweep and the loop keep ----------

  lemma {:induction false} SweepKeepsTables(pending: seq<TableEntry>, done: set<string>)
    ensures multiset(Sweep(pending, done).0) + multiset(Sweep(pending, done).1) == multiset(pending)
  {
    if pending != [] {
      assert pending == [pending[0]] + pending[1..];
      if Dependencies(pending[0]) <= done {
        SweepKeepsTables(pending[1..], done + {pending[0].name});
      } else {
        SweepKeepsTables(pending[1..], done);
      }
    }
  }

  lemma {:induction false} ResolveKeepsTables(pending: seq<TableEntry>, done: seq<TableEntry>)
    ensures
      var r := Resolve(pending, done);
      if r.Success? then multiset(r.value) == multiset(pending) + multiset(done)
      else multiset(r.error) <= multiset(pending)
    decreases |pending|
  {
    if pending != [] {
      var (ready, waiting) := Sweep(pending, Names(done));
      SweepKeepsTables(pending, Names(done));
      if ready != [] {
        ResolveKeepsTables(waiting, done + ready);
        assert multiset(done + ready) == multiset(done) + multiset(ready);
      }
    }
  }

  /** Every table comes after all its dependencies, given that those named in `before` are there already. */
  predicate DependenciesFirst(order: seq<TableEntry>, before: set<string>) {
    forall i :: 0 <= i < |order| ==> Dependencies(order[i]) <= before + Names(order[..i])
  }

  lemma {:induction false} SweepOrdersReady(pending: seq<TableEntry>, done: set<string>)
    ensures DependenciesFirst(Sweep(pending, done).0, done)
    ensures Sweep(pending, done).0 == [] ==>
              Sweep(pending, done).1 == pending && forall t :: t in pending ==> !(Dependencies(t) <= done)
  {
    if pending != [] {
      var t := pending[0];
      assert pending == [t] + pending[1..];
      if Dependencies(t) <= done {
        SweepOrdersReady(pending[1..], done + {t.name});
        var rest := Sweep(pending[1..], done + {t.name}).0;
        var ready := [t] + rest;
        forall i | 0 <= i < |ready| ensures Dependencies(ready[i]) <= done + Names(ready[..i]) {
          if i > 0 {
            assert ready[..i] == [t] + rest[..i - 1];
            assert Names(ready[..i]) == {t.name} + Names(rest[..i - 1]);
          }
        }
      } else {
        SweepOrdersReady(pending[1..], done);
      }
    }
  }

  lemma {:induction false} ResolveOrders(pending: seq<TableEntry>, done: seq<TableEntry>)
    requires DependenciesFirst(done, {})
    ensures Resolve(pending, done).Success? ==> DependenciesFirst(Resolve(pending, done).value, {})
    decreases |pending|
  {
    if pending != [] {
      var (ready, waiting) := Sweep(pending, Names(done));
      if ready != [] {
        SweepOrdersReady(pending, Names(done));
        var all := done + ready;
        forall i | 0 <= i < |all| ensures Dependencies(all[i]) <= {} + Names(all[..i]) {
          if i < |done| {
            assert all[..i] == done[..i];
          } else {
            assert all[..i] == done + ready[..i - |done|];
            assert Names(all[..i]) == Names(done) + Names(ready[..i - |done|]);
          }
        }
        ResolveOrders(waiting, all);
      }
    }
  }

  /** A failed load leaves a non-empty set of tables, each waiting for a name that was never resolved. */
  lemma {:induction false} ResolveFailureIsStuck(pending: seq<TableEntry>, done: seq<TableEntry>)
    returns (resolved: seq<TableEntry>)
    requires Resolve(pending, done).Failure?
    ensures
      var stuck := Resolve(pending, done).error;
      && stuck != []
      && multiset(resolved) + multiset(stuck) == multiset(pending) + multiset(done)
      && forall t :: t in stuck ==> !(Dependencies(t) <= Names(resolved))
    decreases |pending|
  {
    var (ready, waiting) := Sweep(pending, Names(done));
    if ready == [] {
      SweepOrdersReady(pending, Names(done));
      resolved := done;
    } else {
      SweepKeepsTables(pending, Names(done));
      assert multiset(done + ready) == multiset(done) + multiset(ready);
      resolved := ResolveFailureIsStuck(waiting, done + ready);
    }
  }

  // ---------- distinct names: what the order means ----------

  predicate DistinctNames(ts: seq<TableEntry>) {
    forall i, j :: 0 <= i < j < |ts| ==> ts[i].name != ts[j].name
  }

  lemma {:induction false} LookUpIsIdentity(tables: seq<TableEntry>, ts: seq<TableEntry>)
    requires DistinctNames(tables)
    requires forall t :: t in ts ==> t in tables
    ensures Names(ts) <= ByName(tables).Keys
    ensures LookUp(ts, ByName(tables)) == ts
  {
  }

  /** A successful order is a permutation of the tables that puts every table after its dependencies. */
  lemma LoadOrderIsSortedPermutation(tables: seq<TableEntry>)
    requires DistinctNames(tables)
    requires LoadOrder(tables).Success?
    ensures multiset(LoadOrder(tables).value) == multiset(tables)
    ensures DependenciesFirst(LoadOrder(tables).value, {})
  {
    ResolveKeepsTables(tables, []);
    ResolveOrders(tables, []);
    var order := Resolve(tables, []).value;
    SameMembers(order, tables);
    LookUpIsIdentity(tables, order);
  }

  // ---------- when no order exists ----------

  /** Pairs (table, table it depends on), by name. */
  function Edges(tables: seq<TableEntry>): set<(string, string)> {
    set t, d | t in tables && d in Dependencies(t) :: (t.name, d)
  }

  ghost predicate Cyclic(tables: seq<TableEntry>) {
    HasCycle(Edges(tables))
  }

  /** Some dependency names no table of the list. */
  predicate Dangling(tables: seq<TableEntry>) {
    exists t :: t in tables && !(Dependencies(t) <= Names(tables))
  }

  function Position(order: seq<TableEntry>, name: string): (i: nat)
    requires name in Names(order)
    ensures i < |order| && order[i].name == name
    ensures name !in Names(order[..i])
  {
    if order[0].name == name then 0
    else
      assert order == [order[0]] + order[1..];
      var i := Position(order[1..], name);
      assert order[..i + 1] == [order[0]] + order[1..][..i];
      1 + i
  }

  lemma {:induction false} EdgeGoesBack(order: seq<TableEntry>, from: string, to: string)
    requires DistinctNames(order) && DependenciesFirst(order, {})
    requires (from, to) in Edges(order)
    ensures from in Names(order) && to in Names(order)
    ensures Position(order, to) < Position(order, from)
  {
  }

  lemma {:induction false} WalkGoesBack(order: seq<TableEntry>, p: seq<string>, n: nat)
    requires DistinctNames(order) && DependenciesFirst(order, {})
    requires 0 < n < |p| && IsWalk(Edges(order), p)
    ensures p[0] in Names(order) && p[n] in Names(order)
    ensures Position(order, p[n]) < Position(order, p[0])
  {
    EdgeGoesBack(order, p[n - 1], p[n]);
    if n > 1 {
      WalkGoesBack(order, p, n - 1);
    }
  }

  lemma SortedMeansAcyclic(tables: seq<TableEntry>, order: seq<TableEntry>)
    requires DistinctNames(tables) && multiset(order) == multiset(tables)
    requires DependenciesFirst(order, {})
    ensures !Cyclic(tables) && !Dangling(tables)
  {
    PermutationKeepsDistinctNames(tables, order);
    SameMembers(order, tables);
    assert Edges(order) == Edges(tables);
    if Cyclic(tables) {
      var p :| IsCycle(Edges(tables), p);
      WalkGoesBack(order, p, |p| - 1);
      assert false;
    }
    forall t | t in tables ensures Dependencies(t) <= Names(tables) {
      var i :| 0 <= i < |order| && order[i] == t;
      assert Dependencies(order[i]) <= Names(order[..i]);
      assert Names(order[..i]) <= Names(order);
    }
  }

  lemma SameMembers(a: seq<TableEntry>, b: seq<TableEntry>)
    requires multiset(a) == multiset(b)
    ensures forall t :: t in a <==> t in b
  {
    assert forall t :: t in a <==> t in multiset(a);
    assert forall t :: t in b <==> t in multiset(b);
  }

  /** Distinct names leave room for each table only once, in any order. */
  lemma PermutationKeepsDistinctNames(tables: seq<TableEntry>, order: seq<TableEntry>)
    requires DistinctNames(tables) && multiset(order) == multiset(tables)
    ensures DistinctNames(order)
  {
    SameMembers(order, tables);
    forall i, j | 0 <= i < j < |order| ensures order[i].name != order[j].name {
      assert order[i] in tables && order[j] in tables;
      var a :| 0 <= a < |tables| && tables[a] == order[i];
      var b :| 0 <= b < |tables| && tables[b] == order[j];
      if order[i].name == order[j].name {
        assert a == b;
        OccursTwice(order, i, j);
        OccursOnce(tables, a);
        assert false;
      }
    }
  }

  lemma OccursTwice(s: seq<TableEntry>, i: nat, j: nat)
    requires i < j < |s| && s[i] == s[j]
    ensures multiset(s)[s[i]] >= 2
  {
    assert s == s[..j] + s[j..];
    assert s[..j][i] == s[i] && s[j..][0] == s[i];
    assert multiset(s) == multiset(s[..j]) + multiset(s[j..]);
  }

  lemma OccursOnce(s: seq<TableEntry>, i: nat)
    requires i < |s| && DistinctNames(s)
    ensures multiset(s)[s[i]] == 1
  {
    assert s == s[..i] + [s[i]] + s[i + 1..];
    assert s[i] !in s[..i] && s[i] !in s[i + 1..];
  }

  /** The restore refuses a schema exactly when the references between different tables form a cycle
      or leave the package. */
  lemma LoadOrderFailsExactlyOnCycles(tables: seq<TableEntry>)
    requires DistinctNames(tables)
    ensures LoadOrder(tables).Failure? <==> Cyclic(tables) || Dangling(tables)
  {
    if LoadOrder(tables).Success? {
      LoadOrderIsSortedPermutation(tables);
      SortedMeansAcyclic(tables, LoadOrder(tables).value);
    } else if !Dangling(tables) {
      StuckTablesLeadToEachOther(tables);
      NoWayOutMeansCycle(Edges(tables), Names(Resolve(tables, []).error));
    }
  }

  lemma {:induction false} StuckTablesLeadToEachOther(tables: seq<TableEntry>)
    requires Resolve(tables, []).Failure? && !Dangling(tables)
    ensures
      var names := Names(Resolve(tables, []).error);
      names != {} && forall s :: s in names ==> LeadsInto(Edges(tables), s, names)
  {
    var resolved := ResolveFailureIsStuck(tables, []);
    var stuck := Resolve(tables, []).error;
    var names := Names(stuck);
    assert stuck[0].name in names;
    assert multiset(resolved + stuck) == multiset(tables);
    SameMembers(resolved + stuck, tables);
    forall s | s in names ensures LeadsInto(Edges(tables), s, names) {
      var t :| t in stuck && t.name == s;
      StuckTableLeadsOn(tables, resolved, stuck, t);
    }
  }

  lemma StuckTableLeadsOn(
      tables: seq<TableEntry>, resolved: seq<TableEntry>, stuck: seq<TableEntry>, t: TableEntry)
    requires forall u :: u in tables <==> u in resolved + stuck
    requires !Dangling(tables) && t in stuck && !(Dependencies(t) <= Names(resolved))
    ensures LeadsInto(Edges(tables), t.name, Names(stuck))
  {
    assert t in resolved + stuck;
    var d :| d in Dependencies(t) && d !in Names(resolved);
    assert d in Names(tables);
    var u :| u in tables && u.name == d;
    assert u in resolved + stuck;
    assert (t.name, d) in Edges(tables);
  }
}
