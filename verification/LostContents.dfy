/** What becomes of an object that lost a race in a bucket without versioning. */
module LostContents {
  import opened Wrappers
  import opened FileStorage
  import opened FileHistory
  import opened StorageService

  // ---------- an orphan stays one ----------

  lemma StepKeepsOrphan(sha: Bytes -> Digest, s: State, e: Event, k: Key)
    requires k in s.orphans
    ensures k in Step(sha, s, e).orphans
  {
  }

  /** No row ever refers to an orphan again, whatever is called and whatever fails. */
  lemma {:induction false} OrphansNeverReturn(sha: Bytes -> Digest, s: State, more: seq<Event>, k: Key)
    requires Inv(sha, s) && k in s.orphans
    ensures k in Run(sha, s, more).orphans && !Referenced(Run(sha, s, more), k)
    decreases |more|
  {
    hide Step, Inv, Referenced;
    RunPreservesInv(sha, s, more);
    OrphansAreUnreferenced(sha, Run(sha, s, more));
    if more != [] {
      OrphansNeverReturn(sha, s, more[..|more| - 1], k);
      StepKeepsOrphan(sha, Run(sha, s, more[..|more| - 1]), more[|more| - 1], k);
    }
  }

  // ---------- who can still delete it ----------

  /** The request is about to delete the object, or will be once its own replacement is saved: it read the row of an
      unversioned file while this was its content. */
  predicate WillDelete(o: Op, k: Key) {
    || (o.OldObjectPending? && o.oldKey == k)
    || (HasSeen(o) && !o.seen.versioned && o.seen.objectKey == k)
  }

  predicate SomeoneWillDelete(s: State, k: Key) {
    exists i :: i in s.ops && WillDelete(s.ops[i], k)
  }

  ghost predicate StoredForGood(sha: Bytes -> Digest, s: State, k: Key) {
    forall more: seq<Event> :: k in Run(sha, s, more).objects
  }

  /** Nobody starts to see an orphan. */
  lemma NobodyWillDelete(sha: Bytes -> Digest, s: State, e: Event, k: Key)
    requires Inv(sha, s) && k in s.orphans && k in s.objects && !SomeoneWillDelete(s, k)
    ensures k in Step(sha, s, e).objects && !SomeoneWillDelete(Step(sha, s, e), k)
  {
    hide NothingDangles, KeysApart, OpsAreSound;
    OrphansAreUnreferenced(sha, s);
    var t := Step(sha, s, e);
    forall i | i in t.ops ensures !WillDelete(t.ops[i], k) {
      assert i in s.ops ==> !WillDelete(s.ops[i], k);
      if e.StartReplacement? && i !in s.ops {
        assert IsCurrent(s, s.files[e.file].objectKey);
      }
    }
    if e.DeleteOld? && e.op in s.ops {
      assert !WillDelete(s.ops[e.op], k);
    }
  }

  lemma {:induction false} UnseenOrphanStays(sha: Bytes -> Digest, s: State, more: seq<Event>, k: Key)
    requires Inv(sha, s) && k in s.orphans && k in s.objects && !SomeoneWillDelete(s, k)
    ensures k in Run(sha, s, more).objects && !SomeoneWillDelete(Run(sha, s, more), k)
    decreases |more|
  {
    hide Step, Inv, SomeoneWillDelete;
    if more != [] {
      var before := more[..|more| - 1];
      UnseenOrphanStays(sha, s, before, k);
      RunPreservesInv(sha, s, before);
      OrphansNeverReturn(sha, s, before, k);
      NobodyWillDelete(sha, Run(sha, s, before), more[|more| - 1], k);
    }
  }

  lemma {:induction false} AboveAll(s: set<Key>) returns (bound: Key)
    ensures forall k :: k in s ==> k < bound
  {
    if s == {} {
      bound := 0;
    } else {
      var k :| k in s;
      var rest := AboveAll(s - {k});
      bound := if k < rest then rest else k + 1;
      assert s == (s - {k}) + {k};
    }
  }

  /** The rest of a request that will delete the object. */
  lemma RequestDeletes(sha: Bytes -> Digest, s: State, i: OpId, k: Key) returns (rest: seq<Event>)
    requires Inv(sha, s) && i in s.ops && WillDelete(s.ops[i], k)
    ensures k !in Run(sha, s, rest).objects
  {
    if s.ops[i].Replacing? {
      var key := AboveAll(s.issued);
      var t := Step(sha, s, Put(i, key));
      StepKeepsInv(sha, s, Put(i, key));
      SaveThenDelete(sha, t, i, k);
      rest := [Put(i, key), Commit(i), DeleteOld(i)];
      RunThree(sha, s, Put(i, key), Commit(i), DeleteOld(i));
    } else if s.ops[i].ReplacementStored? {
      SaveThenDelete(sha, s, i, k);
      rest := [Commit(i), DeleteOld(i)];
      RunThree(sha, s, Commit(i), DeleteOld(i), DeleteOld(i));
    } else {
      rest := [DeleteOld(i)];
      RunThree(sha, s, DeleteOld(i), DeleteOld(i), DeleteOld(i));
    }
  }

  lemma SaveThenDelete(sha: Bytes -> Digest, s: State, i: OpId, k: Key)
    requires Inv(sha, s) && i in s.ops && s.ops[i].ReplacementStored? && WillDelete(s.ops[i], k)
    ensures k !in Step(sha, Step(sha, s, Commit(i)), DeleteOld(i)).objects
  {
    hide NothingDangles, KeysApart, KeysIssued, EveryObjectAccounted, OwnsItsObject, OldObjectIsFree;
    assert SeenRowIsKnown(s, i);
  }

  /** The object of an orphan stays in storage over every continuation if and only if no request in progress read
      its row while it was the content of an unversioned file. */
  lemma OrphanStaysExactly(sha: Bytes -> Digest, s: State, k: Key)
    requires Inv(sha, s) && k in s.orphans && k in s.objects
    ensures StoredForGood(sha, s, k) <==> !SomeoneWillDelete(s, k)
  {
    if SomeoneWillDelete(s, k) {
      var i :| i in s.ops && WillDelete(s.ops[i], k);
      var rest := RequestDeletes(sha, s, i, k);
      assert k !in Run(sha, s, rest).objects;
    } else {
      forall more: seq<Event> ensures k in Run(sha, s, more).objects {
        UnseenOrphanStays(sha, s, more, k);
      }
    }
  }

  // ---------- the race happens ----------

  /** Requests 1 and 2 replace the content of file 0; both read it at key 0. */
  function Uploaded(sha: Bytes -> Digest, a: Bytes): State {
    State(map[0 := FileRow(0, |a|, sha(a), Active, false)], map[], map[0 := a], map[], {0}, {})
  }

  function BothStored(sha: Bytes -> Digest, a: Bytes, b: Bytes, c: Bytes): State {
    var seen := FileRow(0, |a|, sha(a), Active, false);
    State(map[0 := seen], map[], map[0 := a, 1 := b, 2 := c],
      map[1 := ReplacementStored(0, seen, b, true, 1), 2 := ReplacementStored(0, seen, c, true, 2)], {0, 1, 2}, {})
  }

  function FirstSaved(sha: Bytes -> Digest, a: Bytes, b: Bytes, c: Bytes): State {
    var seen := FileRow(0, |a|, sha(a), Active, false);
    State(map[0 := FileRow(1, |b|, sha(b), Active, false)], map[], map[0 := a, 1 := b, 2 := c],
      map[1 := OldObjectPending(0), 2 := ReplacementStored(0, seen, c, true, 2)], {0, 1, 2}, {})
  }

  function Race(a: Bytes, b: Bytes, c: Bytes): seq<Event> {
    UploadEvents(0, 0, false, a, true, 0)
    + [StartReplacement(1, 0, b, true), StartReplacement(2, 0, c, true), Put(1, 1)]
    + [Put(2, 2), Commit(1)]
  }

  lemma {:induction false} RunConcat(sha: Bytes -> Digest, s: State, before: seq<Event>, after: seq<Event>)
    ensures Run(sha, s, before + after) == Run(sha, Run(sha, s, before), after)
    decreases |after|
  {
    hide Step;
    if after == [] {
      assert before + after == before;
    } else {
      var n := |after| - 1;
      assert before + after == (before + after[..n]) + [after[n]];
      RunConcat(sha, s, before, after[..n]);
      RunSnoc(sha, s, before + after[..n], after[n]);
    }
  }

  lemma BothStart(sha: Bytes -> Digest, a: Bytes, b: Bytes, c: Bytes)
    ensures
      var s := Step(sha, Step(sha, Uploaded(sha, a), StartReplacement(1, 0, b, true)), StartReplacement(2, 0, c, true));
      Step(sha, Step(sha, s, Put(1, 1)), Put(2, 2)) == BothStored(sha, a, b, c)
  {
    var seen := FileRow(0, |a|, sha(a), Active, false);
    var s := Step(sha, Step(sha, Uploaded(sha, a), StartReplacement(1, 0, b, true)), StartReplacement(2, 0, c, true));
    assert s == BothRead(sha, a, b, c);
    BothPut(sha, a, b, c);
    hide Step, BothRead, BothStored;
  }

  function BothRead(sha: Bytes -> Digest, a: Bytes, b: Bytes, c: Bytes): State {
    var seen := FileRow(0, |a|, sha(a), Active, false);
    Uploaded(sha, a).(ops := map[1 := Replacing(0, seen, b, true), 2 := Replacing(0, seen, c, true)])
  }

  lemma BothPut(sha: Bytes -> Digest, a: Bytes, b: Bytes, c: Bytes)
    ensures Step(sha, Step(sha, BothRead(sha, a, b, c), Put(1, 1)), Put(2, 2)) == BothStored(sha, a, b, c)
  {
    FirstPut(sha, a, b, c);
    SecondPut(sha, a, b, c);
    hide Step, BothRead, OneStored, BothStored;
  }

  function OneStored(sha: Bytes -> Digest, a: Bytes, b: Bytes, c: Bytes): State {
    var seen := FileRow(0, |a|, sha(a), Active, false);
    State(map[0 := seen], map[], map[0 := a, 1 := b],
      map[1 := ReplacementStored(0, seen, b, true, 1), 2 := Replacing(0, seen, c, true)], {0, 1}, {})
  }

  lemma FirstPut(sha: Bytes -> Digest, a: Bytes, b: Bytes, c: Bytes)
    ensures Step(sha, BothRead(sha, a, b, c), Put(1, 1)) == OneStored(sha, a, b, c)
  {
  }

  lemma SecondPut(sha: Bytes -> Digest, a: Bytes, b: Bytes, c: Bytes)
    ensures Step(sha, OneStored(sha, a, b, c), Put(2, 2)) == BothStored(sha, a, b, c)
  {
  }

  lemma FirstSaves(sha: Bytes -> Digest, a: Bytes, b: Bytes, c: Bytes)
    ensures Step(sha, BothStored(sha, a, b, c), Commit(1)) == FirstSaved(sha, a, b, c)
  {
  }

  /** The race is reached from empty stores. */
  lemma RaceIsReachable(sha: Bytes -> Digest, a: Bytes, b: Bytes, c: Bytes)
    ensures Run(sha, EMPTY, Race(a, b, c)) == FirstSaved(sha, a, b, c)
  {
    UploadAlone(sha, EMPTY, 0, 0, false, a, true, 0);
    assert Run(sha, EMPTY, UploadEvents(0, 0, false, a, true, 0)) == Uploaded(sha, a);
    hide Step, Uploaded, BothStored, FirstSaved, UploadEvents, Run;
    var upload := UploadEvents(0, 0, false, a, true, 0);
    var starts := [StartReplacement(1, 0, b, true), StartReplacement(2, 0, c, true), Put(1, 1)];
    RunConcat(sha, EMPTY, upload, starts);
    RunConcat(sha, EMPTY, upload + starts, [Put(2, 2), Commit(1)]);
    RunThree(sha, Uploaded(sha, a), starts[0], starts[1], starts[2]);
    RunThree(sha, Run(sha, EMPTY, upload + starts), Put(2, 2), Commit(1), Commit(1));
    BothStart(sha, a, b, c);
    FirstSaves(sha, a, b, c);
  }

  /** There the second save loses the content at key 1, which then stays in storage for good with nothing referring
      to it: no request saw it. */
  lemma LostForGood(sha: Bytes -> Digest, a: Bytes, b: Bytes, c: Bytes)
    ensures
      var t := Run(sha, EMPTY, Race(a, b, c) + [Commit(2)]);
      1 in t.orphans && !Referenced(t, 1) && StoredForGood(sha, t, 1)
  {
    var s := FirstSaved(sha, a, b, c);
    RaceIsReachable(sha, a, b, c);
    RunSnoc(sha, EMPTY, Race(a, b, c), Commit(2));
    RunKeepsInv(sha, Race(a, b, c));
    UnversionedRaceLosesContent(sha, s, 2);
    var t := Step(sha, s, Commit(2));
    StepKeepsInv(sha, s, Commit(2));
    NobodySeesIt(sha, a, b, c);
    hide Run, Inv, Step, FirstSaved, SomeoneWillDelete;
    OrphanStaysExactly(sha, t, 1);
  }

  lemma NobodySeesIt(sha: Bytes -> Digest, a: Bytes, b: Bytes, c: Bytes)
    ensures !SomeoneWillDelete(Step(sha, FirstSaved(sha, a, b, c), Commit(2)), 1)
  {
    var t := Step(sha, FirstSaved(sha, a, b, c), Commit(2));
    assert t.ops == map[1 := OldObjectPending(0), 2 := OldObjectPending(0)];
  }

  /** If a third replacement read the file before the second save, the lost content is not stored for good: that
      third request deletes it. */
  lemma LostUntilDeleted(sha: Bytes -> Digest, a: Bytes, b: Bytes, c: Bytes, d: Bytes)
    ensures
      var t := Run(sha, EMPTY, Race(a, b, c) + [StartReplacement(3, 0, d, true), Commit(2)]);
      1 in t.orphans && 1 in t.objects && !StoredForGood(sha, t, 1)
  {
    var s := FirstSaved(sha, a, b, c);
    var e := StartReplacement(3, 0, d, true);
    RaceIsReachable(sha, a, b, c);
    RunConcat(sha, EMPTY, Race(a, b, c), [e, Commit(2)]);
    RunThree(sha, s, e, Commit(2), Commit(2));
    RunKeepsInv(sha, Race(a, b, c));
    var later := Step(sha, s, e);
    StepKeepsInv(sha, s, e);
    UnversionedRaceLosesContent(sha, later, 2);
    var t := Step(sha, later, Commit(2));
    StepKeepsInv(sha, later, Commit(2));
    ThirdStillSeesIt(sha, a, b, c, d);
    hide Run, Inv, Step, FirstSaved, WillDelete;
    OrphanStaysExactly(sha, t, 1);
  }

  lemma ThirdStillSeesIt(sha: Bytes -> Digest, a: Bytes, b: Bytes, c: Bytes, d: Bytes)
    ensures
      var t := Step(sha, Step(sha, FirstSaved(sha, a, b, c), StartReplacement(3, 0, d, true)), Commit(2));
      3 in t.ops && WillDelete(t.ops[3], 1)
  {
  }
}
