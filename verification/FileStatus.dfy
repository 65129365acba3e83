/** Which files are served and which are quarantined, over interleaved requests and failures. */
module FileStatus {
  import opened Wrappers
  import opened FileStorage
  import FileHistory

  // ---------- single steps ----------

  /** Setting a status sets that file's status and nothing else; for an unknown file it does nothing. */
  lemma StatusIsSet(sha: Bytes -> Digest, s: State, f: FileId, status: Status)
    ensures
      var t := Step(sha, s, SetStatus(f, status));
      if f !in s.files then t == s
      else
        var row := s.files[f];
        t == s.(files := s.files[f := FileRow(row.objectKey, row.size, row.checksum, status, row.versioned)])
  {
  }

  /** A failed request is over: it will take no further step, and rows and objects stay as they are. */
  lemma FailedRequestIsOver(sha: Bytes -> Digest, s: State, op: OpId, next: Event)
    requires op in s.ops
    ensures
      var t := Step(sha, s, Abort(op));
      && t.files == s.files && t.versions == s.versions && t.objects == s.objects
      && t.ops.Keys == s.ops.Keys - {op} && (forall i :: i in t.ops ==> t.ops[i] == s.ops[i])
      && ((next.Put? || next.Commit? || next.DeleteOld? || next.Abort?) && next.op == op ==> Step(sha, t, next) == t)
  {
  }

  /** The last step of this request's save, or its refusal, is due. */
  predicate Saving(s: State, e: Event, f: FileId) {
    e.Commit? && e.op in s.ops && Stored(s.ops[e.op]) && s.ops[e.op].file == f
  }

  /** Whether a save is accepted shows in the row's object key: the request's own, which nobody else has. */
  predicate Accepted(s: State, t: State, e: Event, f: FileId) {
    Saving(s, e, f) && f in t.files && t.files[f].objectKey == s.ops[e.op].key
  }

  /** Of a file's status: an accepted save sets it by the verdict of its own scan, a SetStatus to what is asked for, and
      no other step touches it. */
  lemma StatusChangesExactly(sha: Bytes -> Digest, s: State, e: Event, f: FileId)
    requires Inv(sha, s)
    ensures
      var t := Step(sha, s, e);
      && (Accepted(s, t, e, f) ==> t.files[f].status == if s.ops[e.op].clean then Active else Quarantined)
      && (f in t.files && f !in s.files ==> Accepted(s, t, e, f))
      && (f in s.files ==>
            && f in t.files
            && (e.SetStatus? && e.file == f ==> t.files[f].status == e.status)
            && (!(e.SetStatus? && e.file == f) && !Accepted(s, t, e, f) ==> t.files[f] == s.files[f]))
  {
    hide NothingDangles, KeysApart, KeysIssued, EveryObjectAccounted, SeenRowIsKnown, OldObjectIsFree;
    if e.Commit? && e.op in s.ops {
      assert OwnsItsObject(s, e.op);
    }
    if f in s.files {
      assert IsCurrent(s, s.files[f].objectKey);
    }
  }

  // ---------- whole runs ----------

  function At(sha: Bytes -> Digest, events: seq<Event>, i: nat): State
    requires i <= |events|
  {
    Run(sha, EMPTY, events[..i])
  }

  /** Event i is an accepted save of f. */
  predicate SavedAt(sha: Bytes -> Digest, events: seq<Event>, i: nat, f: FileId)
    requires i < |events|
  {
    Accepted(At(sha, events, i), At(sha, events, i + 1), events[i], f)
  }

  predicate SetAt(events: seq<Event>, i: nat, f: FileId)
    requires i < |events|
  {
    events[i].SetStatus? && events[i].file == f
  }

  lemma {:induction false} NextState(sha: Bytes -> Digest, events: seq<Event>, i: nat)
    requires i < |events|
    ensures At(sha, events, i + 1) == Step(sha, At(sha, events, i), events[i])
    ensures Inv(sha, At(sha, events, i))
  {
    hide Step, Inv;
    RunKeepsInv(sha, events[..i]);
    assert events[..i + 1][..i] == events[..i];
  }

  /** From an accepted save on, a file is quarantined if that save's content was not found clean, and active if it was,
      until the next accepted save or SetStatus of the file: whatever other requests do, and whatever fails. */
  lemma {:induction false} StatusLastsUntilChanged(sha: Bytes -> Digest, events: seq<Event>, i: nat, n: nat, f: FileId)
    requires i < n <= |events| && SavedAt(sha, events, i, f)
    requires forall j :: i < j < n ==> !SavedAt(sha, events, j, f) && !SetAt(events, j, f)
    ensures
      var clean := At(sha, events, i).ops[events[i].op].clean;
      f in At(sha, events, n).files && At(sha, events, n).files[f].status == if clean then Active else Quarantined
    decreases n
  {
    hide Step, Inv, Run;
    NextState(sha, events, n - 1);
    StatusChangesExactly(sha, At(sha, events, n - 1), events[n - 1], f);
    if i < n - 1 {
      StatusLastsUntilChanged(sha, events, i, n - 1, f);
      assert !SavedAt(sha, events, n - 1, f) && !SetAt(events, n - 1, f);
    } else {
      assert SavedAt(sha, events, n - 1, f);
    }
  }

  /** Some request was started that uploads this content to the file, with this verdict of the scan. */
  ghost predicate Scanned(events: seq<Event>, f: FileId, content: Bytes, clean: bool) {
    exists i :: 0 <= i < |events| && Starts(events[i], f, content, clean)
  }

  predicate Starts(e: Event, f: FileId, content: Bytes, clean: bool) {
    (e.StartUpload? || e.StartReplacement?) && e.file == f && e.content == content && e.clean == clean
  }

  predicate HasContent(o: Op) {
    !o.OldObjectPending?
  }

  /** Requests in progress remember what they were started with. */
  ghost predicate Remembered(events: seq<Event>, s: State) {
    forall i :: i in s.ops && HasContent(s.ops[i]) ==> Scanned(events, s.ops[i].file, s.ops[i].content, s.ops[i].clean)
  }

  lemma {:induction false} ScannedLater(events: seq<Event>, e: Event, f: FileId, content: Bytes, clean: bool)
    ensures Scanned(events, f, content, clean) ==> Scanned(events + [e], f, content, clean)
    ensures Starts(e, f, content, clean) ==> Scanned(events + [e], f, content, clean)
  {
    var longer := events + [e];
    if Scanned(events, f, content, clean) {
      var i :| 0 <= i < |events| && Starts(events[i], f, content, clean);
      assert longer[i] == events[i];
    }
    assert longer[|events|] == e;
  }

  lemma {:induction false} StepRemembers(sha: Bytes -> Digest, events: seq<Event>, s: State, e: Event)
    requires Remembered(events, s)
    ensures Remembered(events + [e], Step(sha, s, e))
  {
    var t := Step(sha, s, e);
    forall i | i in t.ops && HasContent(t.ops[i])
      ensures Scanned(events + [e], t.ops[i].file, t.ops[i].content, t.ops[i].clean)
    {
      var o := t.ops[i];
      ScannedLater(events, e, o.file, o.content, o.clean);
      OpsComeFromStarts(sha, s, e, i);
      hide Step, Scanned;
    }
  }

  lemma OpsComeFromStarts(sha: Bytes -> Digest, s: State, e: Event, i: OpId)
    requires i in Step(sha, s, e).ops && HasContent(Step(sha, s, e).ops[i])
    ensures
      var o := Step(sha, s, e).ops[i];
      || Starts(e, o.file, o.content, o.clean)
      || (i in s.ops && HasContent(s.ops[i])
          && s.ops[i].file == o.file && s.ops[i].content == o.content && s.ops[i].clean == o.clean)
  {
    hide PutStep, CommitStep;
    match e
    case Put(op, key) => PutRemembers(s, op, key, i);
    case Commit(op) => CommitRemembers(sha, s, op, i);
    case _ =>
  }

  lemma PutRemembers(s: State, op: OpId, key: Key, i: OpId)
    requires i in PutStep(s, op, key).ops && HasContent(PutStep(s, op, key).ops[i])
    ensures
      var o := PutStep(s, op, key).ops[i];
      && i in s.ops && HasContent(s.ops[i])
      && s.ops[i].file == o.file && s.ops[i].content == o.content && s.ops[i].clean == o.clean
  {
  }

  lemma CommitRemembers(sha: Bytes -> Digest, s: State, op: OpId, i: OpId)
    requires i in CommitStep(sha, s, op).ops && HasContent(CommitStep(sha, s, op).ops[i])
    ensures i in s.ops && s.ops[i] == CommitStep(sha, s, op).ops[i]
  {
  }

  /** The row's content went through a scan whose verdict is the row's status. */
  ghost predicate ServedAsScanned(events: seq<Event>, s: State, f: FileId) {
    f in s.files && s.files[f].objectKey in s.objects
    && exists clean :: Scanned(events, f, s.objects[s.files[f].objectKey], clean)
                       && s.files[f].status == if clean then Active else Quarantined
  }

  lemma {:induction false} CommitServesAsScanned(sha: Bytes -> Digest, events: seq<Event>, s: State, e: Event, f: FileId)
    requires Inv(sha, s) && Remembered(events, s) && Accepted(s, Step(sha, s, e), e, f)
    ensures ServedAsScanned(events + [e], Step(sha, s, e), f)
  {
    var o, t := s.ops[e.op], Step(sha, s, e);
    StatusChangesExactly(sha, s, e, f);
    ScannedLater(events, e, f, o.content, o.clean);
    assert OwnsItsObject(s, e.op);
    CommitKeepsObjects(sha, s, e);
    hide Step, Inv, Scanned;
    assert t.objects[t.files[f].objectKey] == o.content;
  }

  lemma CommitKeepsObjects(sha: Bytes -> Digest, s: State, e: Event)
    requires e.Commit?
    ensures Step(sha, s, e).objects == s.objects
  {
  }

  lemma {:induction false} OthersServeAsScanned(sha: Bytes -> Digest, events: seq<Event>, s: State, e: Event, f: FileId)
    requires Inv(sha, s) && ServedAsScanned(events, s, f)
    requires !Accepted(s, Step(sha, s, e), e, f) && !(e.SetStatus? && e.file == f)
    ensures ServedAsScanned(events + [e], Step(sha, s, e), f)
  {
    StatusChangesExactly(sha, s, e, f);
    assert IsCurrent(s, s.files[f].objectKey);
    FileHistory.StepKeepsObjects(sha, s, e, s.files[f].objectKey);
    var content := s.objects[s.files[f].objectKey];
    var clean :| Scanned(events, f, content, clean) && s.files[f].status == if clean then Active else Quarantined;
    ScannedLater(events, e, f, content, clean);
    hide Step, Inv, Scanned;
  }

  /** In every interleaved run: unless somebody sets a file's status by hand, the file is active only if exactly the bytes
      it now holds were found clean when they were uploaded, and is otherwise quarantined. */
  lemma {:induction false} OnlyCleanContentIsServed(sha: Bytes -> Digest, events: seq<Event>, f: FileId)
    requires forall i :: 0 <= i < |events| ==> !SetAt(events, i, f)
    ensures Remembered(events, Run(sha, EMPTY, events))
    ensures f in Run(sha, EMPTY, events).files ==> ServedAsScanned(events, Run(sha, EMPTY, events), f)
    decreases |events|
  {
    hide Step, Inv, Scanned, ServedAsScanned;
    if events != [] {
      var before, e := events[..|events| - 1], events[|events| - 1];
      assert events == before + [e];
      forall i | 0 <= i < |before| ensures !SetAt(before, i, f) {
        assert !SetAt(events, i, f);
      }
      OnlyCleanContentIsServed(sha, before, f);
      RunKeepsInv(sha, before);
      var s, t := Run(sha, EMPTY, before), Run(sha, EMPTY, events);
      StepRemembers(sha, before, s, e);
      if f in t.files {
        assert !SetAt(events, |events| - 1, f);
        StatusChangesExactly(sha, s, e, f);
        if Accepted(s, t, e, f) {
          CommitServesAsScanned(sha, before, s, e, f);
        } else {
          OthersServeAsScanned(sha, before, s, e, f);
        }
      }
    }
  }
}
