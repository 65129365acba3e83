/** Walks and cycles in a finite directed graph given by its set of edges. */
module Graph {
  ghost predicate IsWalk(edges: set<(string, string)>, p: seq<string>) {
    forall i, j :: 0 <= i < j < |p| && j == i + 1 ==> (p[i], p[j]) in edges
  }

  ghost predicate IsCycle(edges: set<(string, string)>, p: seq<string>) {
    |p| >= 2 && p[0] == p[|p| - 1] && IsWalk(edges, p)
  }

  ghost predicate HasCycle(edges: set<(string, string)>) {
    exists p: seq<string> :: IsCycle(edges, p)
  }

  predicate LeadsInto(edges: set<(string, string)>, from: string, names: set<string>) {
    exists to :: to in names && (from, to) in edges
  }

  lemma {:induction false} WalkInside(edges: set<(string, string)>, names: set<string>, start: string, n: nat)
    returns (p: seq<string>)
    requires start in names
    requires forall s :: s in names ==> LeadsInto(edges, s, names)
    ensures |p| == n + 1 && p[0] == start
    ensures forall i :: 0 <= i < |p| ==> p[i] in names
    ensures IsWalk(edges, p)
    decreases n
  {
    if n == 0 {
      p := [start];
    } else {
      var next :| next in names && (start, next) in edges;
      var rest := WalkInside(edges, names, next, n - 1);
      p := [start] + rest;
    }
  }

  /** A walk longer than the set it stays in visits some name twice. */
  lemma {:induction false} Pigeonhole(p: seq<string>, names: set<string>) returns (i: nat, j: nat)
    requires |p| > |names|
    requires forall k :: 0 <= k < |p| ==> p[k] in names
    ensures i < j < |p| && p[i] == p[j]
  {
    if k :| 1 <= k < |p| && p[k] == p[0] {
      i, j := 0, k;
    } else {
      var i', j' := Pigeonhole(p[1..], names - {p[0]});
      i, j := i' + 1, j' + 1;
    }
  }

  /** In a non-empty set of names that one can never be forced to leave, there is a cycle. */
  lemma NoWayOutMeansCycle(edges: set<(string, string)>, names: set<string>)
    requires names != {}
    requires forall s :: s in names ==> LeadsInto(edges, s, names)
    ensures HasCycle(edges)
  {
    var start :| start in names;
    var p := WalkInside(edges, names, start, |names|);
    var i, j := Pigeonhole(p, names);
    assert IsCycle(edges, p[i..j + 1]);
  }
}
