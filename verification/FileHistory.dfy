/** What the interleaved requests of FileStorage promise about the contents of a file over whole runs. */
module FileHistory {
  import opened Wrappers
  import opened FileStorage

  // ---------- nothing dangles, failures only leave orphans ----------

  /** At every point of every run, every key held by a file or a version row is present in object storage
      with the recorded size and checksum, and every object no row refers to belongs to a request still in
      progress or was left behind by one that failed or lost a race. */
  lemma {:induction false} NoDanglingKeys(sha: Bytes -> Digest, events: seq<Event>)
    ensures
      var s := Run(sha, EMPTY, events);
      && (forall f :: f in s.files ==>
            s.files[f].objectKey in s.objects
            && |s.objects[s.files[f].objectKey]| == s.files[f].size
            && sha(s.objects[s.files[f].objectKey]) == s.files[f].checksum)
      && (forall k :: k in s.versions ==>
            k in s.objects && |s.objects[k]| == s.versions[k].size && sha(s.objects[k]) == s.versions[k].checksum)
      && (s.ops == map[] ==> forall k :: k in s.objects ==> (Referenced(s, k) <==> k !in s.orphans))
  {
    hide OpsAreSound, KeysApart, KeysIssued;
    RunKeepsInv(sha, events);
    var s := Run(sha, EMPTY, events);
    forall f | f in s.files ensures Describes(sha, s, s.files[f].objectKey, s.files[f].size, s.files[f].checksum) {
    }
    forall k | k in s.versions ensures Describes(sha, s, k, s.versions[k].size, s.versions[k].checksum) {
    }
  }

  /** The save that request `op` is about to make would be refused, or would overwrite an unseen content. */
  predicate LostRace(s: State, op: OpId) {
    op in s.ops &&
    match s.ops[op]
    case UploadStored(f, _, _, _, _) => f in s.files
    case ReplacementStored(f, seen, _, _, _) => f !in s.files || s.files[f].objectKey != seen.objectKey
    case _ => false
  }

  /** Only a failure or a lost race leaves an object behind. */
  lemma OrphansComeFromFailures(sha: Bytes -> Digest, s: State, e: Event)
    requires Inv(sha, s)
    requires !e.Abort? && !(e.Commit? && LostRace(s, e.op))
    ensures Step(sha, s, e).orphans == s.orphans
  {
    hide NothingDangles, EveryObjectAccounted, OwnsItsObject, OldObjectIsFree;
    if e.Commit? && e.op in s.ops && s.ops[e.op].ReplacementStored? {
      assert SeenRowIsKnown(s, e.op);
    }
  }

  // ---------- one step, seen from one file ----------

  /** The version rows of f are the same in both states. */
  ghost predicate SameVersionsOf(s: State, t: State, f: FileId) {
    forall k :: (k in s.versions && s.versions[k].file == f) || (k in t.versions && t.versions[k].file == f)
      ==> k in s.versions && k in t.versions && s.versions[k] == t.versions[k]
  }

  /** A step leaves a versioned file's content and versions alone, or replaces the content by a fresh one
      and turns exactly the former content into a version. */
  lemma StepOnVersionedFile(sha: Bytes -> Digest, s: State, e: Event, f: FileId)
    requires Inv(sha, s) && f in s.files && s.files[f].versioned
    ensures
      var t := Step(sha, s, e);
      && f in t.files && t.files[f].versioned
      && (forall k :: k in s.versions ==> k in t.versions && t.versions[k] == s.versions[k])
      && if t.files[f].objectKey == s.files[f].objectKey then
           t.files[f] == s.files[f].(status := t.files[f].status) && SameVersionsOf(s, t, f)
         else
           && e.Commit? && !Referenced(s, t.files[f].objectKey)
           && t.versions == s.versions[s.files[f].objectKey :=
                VersionRow(f, s.files[f].size, s.files[f].checksum)]
  {
    hide NothingDangles, EveryObjectAccounted, OldObjectIsFree, KeysIssued, PutStep, DeleteOldStep, AbortStep;
    match e
    case Put(op, key) => PutKeepsRows(s, op, key);
    case DeleteOld(op) => DeleteKeepsRows(s, op);
    case Abort(op) => AbortKeepsRows(s, op);
    case Commit(op) =>
      if op in s.ops && s.ops[op].ReplacementStored? {
        CommitOnVersionedFile(sha, s, op, f);
      }
    case _ =>
  }

  lemma PutKeepsRows(s: State, op: OpId, key: Key)
    ensures PutStep(s, op, key).files == s.files && PutStep(s, op, key).versions == s.versions
  {
  }

  lemma DeleteKeepsRows(s: State, op: OpId)
    ensures DeleteOldStep(s, op).files == s.files && DeleteOldStep(s, op).versions == s.versions
  {
  }

  lemma AbortKeepsRows(s: State, op: OpId)
    ensures AbortStep(s, op).files == s.files && AbortStep(s, op).versions == s.versions
  {
  }

  lemma CommitOnVersionedFile(sha: Bytes -> Digest, s: State, op: OpId, f: FileId)
    requires Inv(sha, s) && f in s.files && s.files[f].versioned
    requires op in s.ops && s.ops[op].ReplacementStored?
    ensures
      var t := CommitStep(sha, s, op);
      && f in t.files && t.files[f].versioned
      && (forall k :: k in s.versions ==> k in t.versions && t.versions[k] == s.versions[k])
      && if t.files[f].objectKey == s.files[f].objectKey then
           t.files[f] == s.files[f] && SameVersionsOf(s, t, f)
         else
           && !Referenced(s, t.files[f].objectKey)
           && t.versions == s.versions[s.files[f].objectKey :=
                VersionRow(f, s.files[f].size, s.files[f].checksum)]
  {
    hide NothingDangles, EveryObjectAccounted, OldObjectIsFree, KeysIssued;
    var o := s.ops[op];
    assert OwnsItsObject(s, op) && SeenRowIsKnown(s, op);
    if o.seen.versioned {
      VersionedCommitIsCompareAndSwap(sha, s, op);
    }
    if o.file == f {
      assert IsCurrent(s, s.files[f].objectKey);
    }
  }

  /** Stored bytes never change; a step deletes only what no row refers to. */
  lemma StepKeepsObjects(sha: Bytes -> Digest, s: State, e: Event, k: Key)
    requires Inv(sha, s) && k in s.objects
    ensures k in Step(sha, s, e).objects ==> Step(sha, s, e).objects[k] == s.objects[k]
    ensures Referenced(s, k) ==> k in Step(sha, s, e).objects
  {
    hide NothingDangles, EveryObjectAccounted, OwnsItsObject, SeenRowIsKnown, Referenced, KeysApart;
    match e
    case DeleteOld(op) =>
      if op in s.ops {
        assert OldObjectIsFree(s, op);
      }
    case _ =>
  }

  // ---------- no update is lost ----------

  lemma {:induction false} RunPrefix(sha: Bytes -> Digest, events: seq<Event>, n: nat)
    requires n < |events|
    ensures Run(sha, EMPTY, events) == Step(sha, Run(sha, EMPTY, events[..|events| - 1]), events[|events| - 1])
    ensures events[..|events| - 1][..n] == events[..n]
  {
  }

  /** In a versioned bucket a content that was current after some step stays retrievable for ever: its
      bytes are unchanged, and it is either still current and no version, or exactly one version row of
      this file holds its key, with its size and checksum. */
  lemma {:induction false} NoUpdateIsLost(sha: Bytes -> Digest, events: seq<Event>, n: nat, f: FileId)
    requires n <= |events|
    requires f in Run(sha, EMPTY, events[..n]).files && Run(sha, EMPTY, events[..n]).files[f].versioned
    ensures
      var past, now := Run(sha, EMPTY, events[..n]), Run(sha, EMPTY, events);
      var row := past.files[f];
      && row.objectKey in past.objects && row.objectKey in now.objects
      && now.objects[row.objectKey] == past.objects[row.objectKey]
      && f in now.files && now.files[f].versioned
      && if now.files[f].objectKey == row.objectKey then
           row.objectKey !in now.versions
           && now.files[f].size == row.size && now.files[f].checksum == row.checksum
         else
           row.objectKey in now.versions && now.versions[row.objectKey] == VersionRow(f, row.size, row.checksum)
    decreases |events|
  {
    hide Run, Step, OpsAreSound, EveryObjectAccounted, KeysIssued, Describes, NothingDangles;
    if n == |events| {
      assert events[..n] == events;
      RunKeepsInv(sha, events);
      CurrentIsStored(sha, Run(sha, EMPTY, events), f);
    } else {
      RunPrefix(sha, events, n);
      var before, e := events[..|events| - 1], events[|events| - 1];
      NoUpdateIsLost(sha, before, n, f);
      RunKeepsInv(sha, before);
      var s := Run(sha, EMPTY, before);
      var key := Run(sha, EMPTY, events[..n]).files[f].objectKey;
      StepOnVersionedFile(sha, s, e, f);
      assert IsCurrent(s, s.files[f].objectKey);
      assert Referenced(s, key);
      StepKeepsObjects(sha, s, e, key);
      StepKeepsInv(sha, s, e);
    }
  }

  lemma CurrentIsStored(sha: Bytes -> Digest, s: State, f: FileId)
    requires NothingDangles(sha, s) && f in s.files
    ensures s.files[f].objectKey in s.objects
  {
  }

  // ---------- the chain of contents ----------

  /** The object keys a file has had, in order, as an observer of the catalog would note them. */
  function Contents(sha: Bytes -> Digest, events: seq<Event>, f: FileId): seq<Key>
    decreases |events|
  {
    if events == [] then []
    else
      var earlier, s := Contents(sha, events[..|events| - 1], f), Run(sha, EMPTY, events);
      if f !in s.files then earlier
      else if earlier != [] && earlier[|earlier| - 1] == s.files[f].objectKey then earlier
      else earlier + [s.files[f].objectKey]
  }

  /** The successive contents of a versioned file form one linear chain without repetition: its last
      element is current and the others are exactly the file's version rows. */
  ghost predicate Linear(s: State, f: FileId, chain: seq<Key>) {
    && chain != []
    && (forall i, j :: 0 <= i < j < |chain| ==> chain[i] != chain[j])
    && (forall i :: 0 <= i < |chain| - 1 ==> chain[i] in s.versions && s.versions[chain[i]].file == f)
    && (forall k :: k in s.versions && s.versions[k].file == f ==> k in chain[..|chain| - 1])
  }

  lemma {:induction false} VersionsFormOneChain(sha: Bytes -> Digest, events: seq<Event>, f: FileId)
    ensures
      var s, chain := Run(sha, EMPTY, events), Contents(sha, events, f);
      if f in s.files then
        chain != [] && chain[|chain| - 1] == s.files[f].objectKey && (s.files[f].versioned ==> Linear(s, f, chain))
      else chain == []
    decreases |events|
  {
    hide Step, Inv, Linear;
    if events == [] {
      assert Run(sha, EMPTY, events) == EMPTY;
    } else {
      var before, e := events[..|events| - 1], events[|events| - 1];
      var s, t := Run(sha, EMPTY, before), Run(sha, EMPTY, events);
      VersionsFormOneChain(sha, before, f);
      RunKeepsInv(sha, before);
      if f in s.files {
        FilesStay(sha, s, e, f);
      }
      if f in t.files && t.files[f].versioned {
        if f in s.files {
          ChainGrows(sha, s, e, f, Contents(sha, before, f));
        } else {
          ChainStarts(sha, s, e, f);
          assert [] + [t.files[f].objectKey] == [t.files[f].objectKey];
        }
      }
    }
  }

  lemma FilesStay(sha: Bytes -> Digest, s: State, e: Event, f: FileId)
    requires f in s.files
    ensures f in Step(sha, s, e).files && Step(sha, s, e).files[f].versioned == s.files[f].versioned
  {
  }

  lemma ChainStarts(sha: Bytes -> Digest, s: State, e: Event, f: FileId)
    requires Inv(sha, s) && f !in s.files && f in Step(sha, s, e).files
    ensures Linear(Step(sha, s, e), f, [Step(sha, s, e).files[f].objectKey])
  {
    hide NothingDangles, EveryObjectAccounted, OpsAreSound, KeysIssued;
  }

  lemma ChainGrows(sha: Bytes -> Digest, s: State, e: Event, f: FileId, chain: seq<Key>)
    requires Inv(sha, s) && f in s.files && s.files[f].versioned
    requires chain != [] && chain[|chain| - 1] == s.files[f].objectKey && Linear(s, f, chain)
    ensures
      var t := Step(sha, s, e);
      f in t.files &&
      Linear(t, f, if t.files[f].objectKey == s.files[f].objectKey then chain else chain + [t.files[f].objectKey])
  {
    hide Inv, Step;
    var t := Step(sha, s, e);
    StepOnVersionedFile(sha, s, e, f);
    var key := t.files[f].objectKey;
    if key != s.files[f].objectKey {
      assert IsCurrent(s, s.files[f].objectKey);
      var longer := chain + [key];
      assert longer[..|longer| - 1] == chain;
      assert chain == chain[..|chain| - 1] + [s.files[f].objectKey];
    }
  }

  // ---------- unversioned buckets ----------

  /** In an unversioned bucket a save based on an outdated row overwrites the current content without
      trace: its object is in storage, and no row refers to it. What becomes of it is in LostContents. */
  lemma UnversionedRaceLosesContent(sha: Bytes -> Digest, s: State, op: OpId)
    requires Inv(sha, s) && op in s.ops && s.ops[op].ReplacementStored? && !s.ops[op].seen.versioned
    requires s.ops[op].file in s.files && s.files[s.ops[op].file].objectKey != s.ops[op].seen.objectKey
    ensures
      var lost, t := s.files[s.ops[op].file].objectKey, Step(sha, s, Commit(op));
      lost in t.objects && !Referenced(t, lost) && lost in t.orphans
  {
    hide EveryObjectAccounted, OpsAreSound, KeysApart, KeysIssued, Referenced;
    var f := s.ops[op].file;
    var t := Step(sha, s, Commit(op));
    StepKeepsInv(sha, s, Commit(op));
    CurrentIsStored(sha, s, f);
    OrphansAreUnreferenced(sha, t);
  }

  lemma OrphansAreUnreferenced(sha: Bytes -> Digest, s: State)
    requires Inv(sha, s)
    ensures forall k :: k in s.orphans ==> !Referenced(s, k)
  {
  }
}
