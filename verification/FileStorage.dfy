/**
 Files whose bytes live in object storage and whose rows live in the catalog.  The two stores share
 no transaction: an upload writes the object first and the row second, so operations of different
 requests interleave between their steps and may stop after any of them.
 */
module FileStorage {
  import opened Wrappers

  type Bytes = seq<bv8>
  type Digest = string
  type Key = nat
  type FileId = nat
  type OpId = nat

  datatype Status = Active | Deleted | Quarantined

  /** `versioned` is the setting of the file's bucket, fixed when the bucket is created. */
  datatype FileRow = FileRow(objectKey: Key, size: nat, checksum: Digest, status: Status, versioned: bool)

  datatype VersionRow = VersionRow(file: FileId, size: nat, checksum: Digest)

  /** A request in progress.  `seen` is the file row as the request read it, possibly long ago. */
  datatype Op =
    | Uploading(file: FileId, versioned: bool, content: Bytes, clean: bool)
    | UploadStored(file: FileId, versioned: bool, content: Bytes, clean: bool, key: Key)
    | Replacing(file: FileId, seen: FileRow, content: Bytes, clean: bool)
    | ReplacementStored(file: FileId, seen: FileRow, content: Bytes, clean: bool, key: Key)
    | OldObjectPending(oldKey: Key)

  /** The file-version table is keyed by its unique object key.  `issued` are the keys generated so
      far; `orphans` are keys whose objects no row will ever refer to again. */
  datatype State = State(
    files: map<FileId, FileRow>,
    versions: map<Key, VersionRow>,
    objects: map<Key, Bytes>,
    ops: map<OpId, Op>,
    issued: set<Key>,
    orphans: set<Key>)

  const EMPTY := State(map[], map[], map[], map[], {}, {})

  datatype Event =
    | StartUpload(op: OpId, file: FileId, versioned: bool, content: Bytes, clean: bool)
    | StartReplacement(op: OpId, file: FileId, content: Bytes, clean: bool)
    | Put(op: OpId, key: Key)
    | Commit(op: OpId)
    | DeleteOld(op: OpId)
    | Abort(op: OpId)
    | SetStatus(file: FileId, status: Status)

  // ---------- steps ----------

  function StatusOf(clean: bool): Status {
    if clean then Active else Quarantined
  }

  function WithoutOp(s: State, op: OpId): State {
    s.(ops := s.ops - {op})
  }

  function PutStep(s: State, op: OpId, key: Key): State {
    if op !in s.ops || key in s.issued then s
    else
      match s.ops[op]
      case Uploading(f, v, c, clean) =>
        s.(objects := s.objects[key := c], issued := s.issued + {key}, ops := s.ops[op := UploadStored(f, v, c, clean, key)])
      case Replacing(f, seen, c, clean) =>
        s.(objects := s.objects[key := c], issued := s.issued + {key},
           ops := s.ops[op := ReplacementStored(f, seen, c, clean, key)])
      case _ => s
  }

  /** Inserts the row of a new file; an existing primary key refuses it. */
  function CommitUpload(sha: Bytes -> Digest, s: State, op: OpId, o: Op): State
    requires o.UploadStored?
  {
    if o.file in s.files then WithoutOp(s, op).(orphans := s.orphans + {o.key})
    else
      WithoutOp(s, op).(files :=
        s.files[o.file := FileRow(o.key, |o.content|, sha(o.content), StatusOf(o.clean), o.versioned)])
  }

  function Replaced(sha: Bytes -> Digest, s: State, o: Op): map<FileId, FileRow>
    requires o.ReplacementStored? && o.file in s.files
  {
    s.files[o.file := s.files[o.file].(
      objectKey := o.key, size := |o.content|, checksum := sha(o.content), status := StatusOf(o.clean))]
  }

  /** The save of a replacement.  In a versioned bucket the transaction first inserts a version row for
      the object key that the request saw; if that key already has one, the whole save is refused. */
  function CommitReplacement(sha: Bytes -> Digest, s: State, op: OpId, o: Op): State
    requires o.ReplacementStored?
  {
    if o.file !in s.files then WithoutOp(s, op).(orphans := s.orphans + {o.key})
    else if o.seen.versioned then
      if o.seen.objectKey in s.versions then WithoutOp(s, op).(orphans := s.orphans + {o.key})
      else
        WithoutOp(s, op).(
          versions := s.versions[o.seen.objectKey := VersionRow(o.file, o.seen.size, o.seen.checksum)],
          files := Replaced(sha, s, o))
    else
      var current := s.files[o.file].objectKey;
      s.(files := Replaced(sha, s, o),
         ops := s.ops[op := OldObjectPending(o.seen.objectKey)],
         orphans := if current == o.seen.objectKey then s.orphans else s.orphans + {current})
  }

  function CommitStep(sha: Bytes -> Digest, s: State, op: OpId): State {
    if op !in s.ops then s
    else if s.ops[op].UploadStored? then CommitUpload(sha, s, op, s.ops[op])
    else if s.ops[op].ReplacementStored? then CommitReplacement(sha, s, op, s.ops[op])
    else s
  }

  function DeleteOldStep(s: State, op: OpId): State {
    if op in s.ops && s.ops[op].OldObjectPending? then
      WithoutOp(s, op).(objects := s.objects - {s.ops[op].oldKey})
    else s
  }

  /** The key whose object an abandoned request leaves behind. */
  function Abandoned(o: Op): set<Key> {
    match o
    case UploadStored(_, _, _, _, key) => {key}
    case ReplacementStored(_, _, _, _, key) => {key}
    case OldObjectPending(oldKey) => {oldKey}
    case _ => {}
  }

  /** An exception or a crash: the request does nothing more. */
  function AbortStep(s: State, op: OpId): State {
    if op in s.ops then WithoutOp(s, op).(orphans := s.orphans + Abandoned(s.ops[op])) else s
  }

  function Step(sha: Bytes -> Digest, s: State, e: Event): State {
    match e
    case StartUpload(op, f, v, c, clean) =>
      if op in s.ops then s else s.(ops := s.ops[op := Uploading(f, v, c, clean)])
    case StartReplacement(op, f, c, clean) =>
      if op in s.ops || f !in s.files then s else s.(ops := s.ops[op := Replacing(f, s.files[f], c, clean)])
    case Put(op, key) => PutStep(s, op, key)
    case Commit(op) => CommitStep(sha, s, op)
    case DeleteOld(op) => DeleteOldStep(s, op)
    case Abort(op) => AbortStep(s, op)
    case SetStatus(f, status) =>
      if f in s.files then s.(files := s.files[f := s.files[f].(status := status)]) else s
  }

  /** Any interleaving of any requests, with failures anywhere. */
  function Run(sha: Bytes -> Digest, s: State, events: seq<Event>): State
    decreases |events|
  {
    if events == [] then s else Step(sha, Run(sha, s, events[..|events| - 1]), events[|events| - 1])
  }

  // ---------- the invariant ----------

  predicate Describes(sha: Bytes -> Digest, s: State, key: Key, size: nat, checksum: Digest) {
    key in s.objects && |s.objects[key]| == size && sha(s.objects[key]) == checksum
  }

  predicate IsCurrent(s: State, key: Key) {
    exists f :: f in s.files && s.files[f].objectKey == key
  }

  predicate Referenced(s: State, key: Key) {
    IsCurrent(s, key) || key in s.versions
  }

  /** Every key held by a row is present in object storage, with the recorded size and checksum. */
  ghost predicate NothingDangles(sha: Bytes -> Digest, s: State) {
    && (forall f :: f in s.files ==>
          Describes(sha, s, s.files[f].objectKey, s.files[f].size, s.files[f].checksum))
    && (forall k :: k in s.versions ==> Describes(sha, s, k, s.versions[k].size, s.versions[k].checksum))
  }

  ghost predicate KeysApart(s: State) {
    && (forall f, g :: f in s.files && g in s.files && s.files[f].objectKey == s.files[g].objectKey ==> f == g)
    && (forall f :: f in s.files ==> s.files[f].objectKey !in s.versions)
    && (forall k :: k in s.versions ==> s.versions[k].file in s.files && s.files[s.versions[k].file].versioned)
  }

  ghost predicate KeysIssued(s: State) {
    && s.objects.Keys <= s.issued
    && (forall f :: f in s.files ==> s.files[f].objectKey in s.issued)
    && s.versions.Keys <= s.issued && s.orphans <= s.issued
  }

  predicate Stored(o: Op) {
    o.UploadStored? || o.ReplacementStored?
  }

  /** An object that was uploaded but not committed is known to its own request only. */
  ghost predicate OwnsItsObject(s: State, i: OpId)
    requires i in s.ops
  {
    var o := s.ops[i];
    Stored(o) ==>
      && o.key in s.objects && s.objects[o.key] == o.content
      && !Referenced(s, o.key) && o.key !in s.orphans
      && (forall j :: j in s.ops && j != i ==> (Stored(s.ops[j]) ==> s.ops[j].key != o.key))
  }

  predicate HasSeen(o: Op) {
    o.Replacing? || o.ReplacementStored?
  }

  /** The row a request has seen is the file's present row, or its object has been superseded since: it
      then has a version row in a versioned bucket, and no row at all in an unversioned one. */
  ghost predicate SeenRowIsKnown(s: State, i: OpId)
    requires i in s.ops
  {
    var o := s.ops[i];
    HasSeen(o) ==>
      && o.file in s.files && o.seen.versioned == s.files[o.file].versioned
      && o.seen.objectKey in s.issued
      && (if o.seen.objectKey == s.files[o.file].objectKey then
            o.seen.size == s.files[o.file].size && o.seen.checksum == s.files[o.file].checksum
          else if o.seen.versioned then
            o.seen.objectKey in s.versions && s.versions[o.seen.objectKey].file == o.file
          else !Referenced(s, o.seen.objectKey))
      && (forall j :: j in s.ops ==> (Stored(s.ops[j]) ==> s.ops[j].key != o.seen.objectKey))
  }

  ghost predicate OldObjectIsFree(s: State, i: OpId)
    requires i in s.ops
  {
    var o := s.ops[i];
    o.OldObjectPending? ==>
      && !Referenced(s, o.oldKey) && o.oldKey in s.issued
      && (forall j :: j in s.ops ==> (Stored(s.ops[j]) ==> s.ops[j].key != o.oldKey))
  }

  ghost predicate OpsAreSound(s: State) {
    forall i :: i in s.ops ==> OwnsItsObject(s, i) && SeenRowIsKnown(s, i) && OldObjectIsFree(s, i)
  }

  /** Some request will still delete or commit the object. */
  predicate InFlight(s: State, key: Key) {
    exists i :: i in s.ops && key in Abandoned(s.ops[i])
  }

  /** Orphans are never referenced, and every object is referenced, in flight or an orphan. */
  ghost predicate EveryObjectAccounted(s: State) {
    && (forall k :: k in s.orphans ==> !Referenced(s, k))
    && (forall k :: k in s.objects ==> Referenced(s, k) || InFlight(s, k) || k in s.orphans)
  }

  ghost predicate Inv(sha: Bytes -> Digest, s: State) {
    NothingDangles(sha, s) && KeysApart(s) && KeysIssued(s) && OpsAreSound(s) && EveryObjectAccounted(s)
  }

  // ---------- steps that leave the rows alone ----------

  /** The same files and versions, up to the files' status. */
  ghost predicate SameRows(s: State, t: State) {
    && t.files.Keys == s.files.Keys && t.versions == s.versions
    && (forall f :: f in s.files ==> t.files[f] == s.files[f].(status := t.files[f].status))
  }

  lemma SameRowsSameReferences(s: State, t: State)
    requires SameRows(s, t)
    ensures forall k :: Referenced(t, k) == Referenced(s, k)
  {
  }

  ghost predicate Sound(s: State, i: OpId)
    requires i in s.ops
  {
    OwnsItsObject(s, i) && SeenRowIsKnown(s, i) && OldObjectIsFree(s, i)
  }

  /** A request stays sound while others move: their uploads use fresh keys, its own object stays. */
  lemma SoundFrame(s: State, t: State, i: OpId)
    requires SameRows(s, t) && KeysIssued(s) && s.issued <= t.issued
    requires i in s.ops && i in t.ops && t.ops[i] == s.ops[i] && Sound(s, i)
    requires forall j :: j in t.ops && Stored(t.ops[j]) ==>
               (j in s.ops && t.ops[j] == s.ops[j]) || t.ops[j].key !in s.issued
    requires Stored(s.ops[i]) && s.ops[i].key in s.objects ==>
               s.ops[i].key in t.objects && t.objects[s.ops[i].key] == s.objects[s.ops[i].key]
    requires Stored(s.ops[i]) && s.ops[i].key in t.orphans ==> s.ops[i].key in s.orphans
    ensures Sound(t, i)
  {
  }

  lemma RowsFrame(sha: Bytes -> Digest, s: State, t: State)
    requires SameRows(s, t) && NothingDangles(sha, s) && KeysApart(s)
    requires forall k :: k in s.objects && Referenced(s, k) ==> k in t.objects && t.objects[k] == s.objects[k]
    ensures NothingDangles(sha, t) && KeysApart(t)
  {
    forall f | f in s.files ensures Describes(sha, t, t.files[f].objectKey, t.files[f].size, t.files[f].checksum) {
      assert Describes(sha, s, s.files[f].objectKey, s.files[f].size, s.files[f].checksum);
      assert IsCurrent(s, s.files[f].objectKey);
    }
    forall k | k in s.versions ensures Describes(sha, t, k, t.versions[k].size, t.versions[k].checksum) {
      assert Describes(sha, s, k, s.versions[k].size, s.versions[k].checksum);
      assert Referenced(s, k);
    }
  }

  lemma InFlightFrame(s: State, t: State, gone: set<Key>)
    requires forall i :: i in s.ops ==> (i in t.ops && Abandoned(s.ops[i]) <= Abandoned(t.ops[i])) || Abandoned(s.ops[i]) <= gone
    ensures forall k :: InFlight(s, k) ==> InFlight(t, k) || k in gone
  {
  }

  lemma AccountedFrame(s: State, t: State)
    requires SameRows(s, t) && EveryObjectAccounted(s)
    requires t.objects == s.objects && t.orphans == s.orphans
    requires forall i :: i in s.ops ==> i in t.ops && Abandoned(s.ops[i]) <= Abandoned(t.ops[i])
    ensures EveryObjectAccounted(t)
  {
  }

  // ---------- every step keeps the invariant ----------

  lemma StartKeepsInv(sha: Bytes -> Digest, s: State, e: Event)
    requires Inv(sha, s) && (e.StartUpload? || e.StartReplacement?)
    ensures Inv(sha, Step(sha, s, e))
  {
    var t := Step(sha, s, e);
    StartAddsRequest(sha, s, e);
    StartKeepsSound(sha, s, e);
    hide OwnsItsObject, SeenRowIsKnown, OldObjectIsFree, Referenced, InFlight, NothingDangles, KeysApart, KeysIssued,
      EveryObjectAccounted, OpsAreSound, Step;
    RowsFrame(sha, s, t);
    AccountedFrame(s, t);
    IssuedFrame(s, t);
  }

  lemma StartAddsRequest(sha: Bytes -> Digest, s: State, e: Event)
    requires e.StartUpload? || e.StartReplacement?
    ensures
      var t := Step(sha, s, e);
      && t == s.(ops := t.ops) && SameRows(s, t)
      && (forall i :: i in s.ops ==> i in t.ops && t.ops[i] == s.ops[i])
  {
  }

  /** Keys stay accounted for while rows and objects stay. */
  lemma IssuedFrame(s: State, t: State)
    requires SameRows(s, t) && KeysIssued(s)
    requires t.objects == s.objects && t.orphans == s.orphans && t.issued == s.issued
    ensures KeysIssued(t)
  {
  }

  lemma StartKeepsSound(sha: Bytes -> Digest, s: State, e: Event)
    requires Inv(sha, s) && (e.StartUpload? || e.StartReplacement?)
    ensures OpsAreSound(Step(sha, s, e))
  {
    hide OwnsItsObject, SeenRowIsKnown, OldObjectIsFree, Referenced, InFlight, NothingDangles, KeysApart,
      EveryObjectAccounted;
    var t := Step(sha, s, e);
    forall i | i in t.ops ensures Sound(t, i) {
      if i in s.ops {
        SoundFrame(s, t, i);
      } else {
        StartedIsSound(sha, s, e, i);
      }
    }
  }

  lemma StartedIsSound(sha: Bytes -> Digest, s: State, e: Event, i: OpId)
    requires Inv(sha, s) && (e.StartUpload? || e.StartReplacement?)
    requires i !in s.ops && i in Step(sha, s, e).ops
    ensures Sound(Step(sha, s, e), i)
  {
  }

  lemma StatusKeepsInv(sha: Bytes -> Digest, s: State, e: Event)
    requires Inv(sha, s) && e.SetStatus?
    ensures Inv(sha, Step(sha, s, e))
  {
    var t := Step(sha, s, e);
    StatusChangesStatus(sha, s, e);
    StatusKeepsSound(sha, s, e);
    hide OwnsItsObject, SeenRowIsKnown, OldObjectIsFree, Referenced, InFlight, NothingDangles, KeysApart, KeysIssued,
      EveryObjectAccounted, OpsAreSound, Step;
    RowsFrame(sha, s, t);
    AccountedFrame(s, t);
    IssuedFrame(s, t);
  }

  lemma StatusChangesStatus(sha: Bytes -> Digest, s: State, e: Event)
    requires e.SetStatus?
    ensures var t := Step(sha, s, e); t == s.(files := t.files) && SameRows(s, t)
  {
  }

  lemma StatusKeepsSound(sha: Bytes -> Digest, s: State, e: Event)
    requires Inv(sha, s) && e.SetStatus?
    ensures OpsAreSound(Step(sha, s, e))
  {
    hide OwnsItsObject, SeenRowIsKnown, OldObjectIsFree, Referenced, InFlight, NothingDangles, KeysApart,
      EveryObjectAccounted;
    var t := Step(sha, s, e);
    forall i | i in t.ops ensures Sound(t, i) {
      SoundFrame(s, t, i);
    }
  }

  lemma PutKeepsInv(sha: Bytes -> Digest, s: State, op: OpId, key: Key)
    requires Inv(sha, s)
    ensures Inv(sha, PutStep(s, op, key))
  {
    hide OwnsItsObject, SeenRowIsKnown, OldObjectIsFree, Referenced, InFlight, Describes, KeysApart;
    var t := PutStep(s, op, key);
    if t != s {
      RowsFrame(sha, s, t);
      PutKeepsSound(sha, s, op, key);
      PutAccounted(sha, s, op, key);
      hide OpsAreSound, EveryObjectAccounted, NothingDangles;
    }
  }

  lemma PutKeepsSound(sha: Bytes -> Digest, s: State, op: OpId, key: Key)
    requires Inv(sha, s) && PutStep(s, op, key) != s
    ensures OpsAreSound(PutStep(s, op, key))
  {
    hide OwnsItsObject, SeenRowIsKnown, OldObjectIsFree, Referenced, InFlight, Describes, KeysApart, NothingDangles,
      EveryObjectAccounted;
    var t := PutStep(s, op, key);
    forall i | i in t.ops ensures Sound(t, i) {
      if i == op {
        PutIsSound(sha, s, op, key);
      } else {
        SoundFrame(s, t, i);
      }
    }
  }

  lemma PutIsSound(sha: Bytes -> Digest, s: State, op: OpId, key: Key)
    requires Inv(sha, s) && op in s.ops && key !in s.issued && PutStep(s, op, key) != s
    ensures Sound(PutStep(s, op, key), op)
  {
  }

  lemma PutAccounted(sha: Bytes -> Digest, s: State, op: OpId, key: Key)
    requires Inv(sha, s) && PutStep(s, op, key) != s
    ensures EveryObjectAccounted(PutStep(s, op, key))
  {
    hide Referenced, Describes, NothingDangles, KeysApart, OpsAreSound;
    var t := PutStep(s, op, key);
    SameRowsSameReferences(s, t);
    InFlightFrame(s, t, {});
    assert key in Abandoned(t.ops[op]);
    assert InFlight(t, key);
  }

  lemma DeleteOldKeepsInv(sha: Bytes -> Digest, s: State, op: OpId)
    requires Inv(sha, s)
    ensures Inv(sha, DeleteOldStep(s, op))
  {
    hide OwnsItsObject, SeenRowIsKnown, Referenced, InFlight, Describes, KeysApart;
    var t := DeleteOldStep(s, op);
    if t != s {
      assert OldObjectIsFree(s, op);
      RowsFrame(sha, s, t);
      SameRowsSameReferences(s, t);
      InFlightFrame(s, t, {s.ops[op].oldKey});
      forall i | i in t.ops ensures Sound(t, i) {
        SoundFrame(s, t, i);
      }
    }
  }

  /** What an abandoned request leaves behind is referenced by no row and owned by no other request. */
  lemma AbandonedIsFree(s: State, i: OpId)
    requires i in s.ops && Sound(s, i) && KeysIssued(s)
    ensures forall k :: k in Abandoned(s.ops[i]) ==> !Referenced(s, k) && k in s.issued
    ensures forall k, j :: k in Abandoned(s.ops[i]) && j in s.ops && j != i && Stored(s.ops[j]) ==> s.ops[j].key != k
  {
  }

  lemma AbortKeepsInv(sha: Bytes -> Digest, s: State, op: OpId)
    requires Inv(sha, s)
    ensures Inv(sha, AbortStep(s, op))
  {
    hide OwnsItsObject, SeenRowIsKnown, OldObjectIsFree, Referenced, InFlight, Describes, KeysApart;
    var t := AbortStep(s, op);
    if t != s {
      assert Sound(s, op);
      AbandonedIsFree(s, op);
      RowsFrame(sha, s, t);
      SameRowsSameReferences(s, t);
      InFlightFrame(s, t, Abandoned(s.ops[op]));
      forall i | i in t.ops ensures Sound(t, i) {
        SoundFrame(s, t, i);
      }
    }
  }

  // ---------- commits ----------

  /** The row of `f` (new or not) now points to the key of request `op`; its former key, if any, got a
      version row or became an orphan or is about to be deleted. */
  ghost predicate Repointed(s: State, t: State, op: OpId, f: FileId, key: Key) {
    && op in s.ops && Stored(s.ops[op]) && s.ops[op].key == key
    && t.objects == s.objects && t.issued == s.issued
    && t.files.Keys == s.files.Keys + {f} && t.files[f].objectKey == key
    && (forall g :: g in s.files && g != f ==> t.files[g] == s.files[g])
    && (f in s.files ==> t.files[f].versioned == s.files[f].versioned)
    && (if f in s.files && s.files[f].versioned then
          t.versions.Keys == s.versions.Keys + {s.files[f].objectKey}
          && (forall k :: k in s.versions ==> t.versions[k] == s.versions[k])
          && t.versions[s.files[f].objectKey] == VersionRow(f, s.files[f].size, s.files[f].checksum)
        else t.versions == s.versions)
  }

  lemma RepointedReferences(s: State, t: State, op: OpId, f: FileId, key: Key)
    requires Repointed(s, t, op, f, key) && KeysApart(s) && OpsAreSound(s)
    ensures forall k :: Referenced(t, k) ==> Referenced(s, k) || k == key
    ensures forall k :: Referenced(s, k) ==>
              Referenced(t, k) || (f in s.files && !s.files[f].versioned && k == s.files[f].objectKey)
    ensures f in s.files && !s.files[f].versioned ==> !Referenced(t, s.files[f].objectKey)
    ensures Referenced(t, key) && !Referenced(s, key)
  {
  }

  lemma RepointedRows(sha: Bytes -> Digest, s: State, t: State, op: OpId, f: FileId, key: Key)
    requires Inv(sha, s) && Repointed(s, t, op, f, key)
    requires Describes(sha, s, key, t.files[f].size, t.files[f].checksum)
    ensures NothingDangles(sha, t) && KeysApart(t)
  {
    hide NothingDangles, KeysApart, OpsAreSound, EveryObjectAccounted, KeysIssued;
    RepointedIsDescribed(sha, s, t, op, f, key);
    RepointedKeysApart(s, t, op, f, key);
  }

  lemma RepointedIsDescribed(sha: Bytes -> Digest, s: State, t: State, op: OpId, f: FileId, key: Key)
    requires NothingDangles(sha, s) && Repointed(s, t, op, f, key)
    requires Describes(sha, s, key, t.files[f].size, t.files[f].checksum)
    ensures NothingDangles(sha, t)
  {
  }

  lemma RepointedKeysApart(s: State, t: State, op: OpId, f: FileId, key: Key)
    requires KeysApart(s) && OpsAreSound(s) && Repointed(s, t, op, f, key)
    ensures KeysApart(t)
  {
    assert OwnsItsObject(s, op);
    hide OpsAreSound, SeenRowIsKnown, OldObjectIsFree;
    forall g | g in t.files && g != f ensures t.files[g].objectKey != key && t.files[g].objectKey !in t.versions {
      assert IsCurrent(s, s.files[g].objectKey);
    }
    assert key !in t.versions;
  }

  lemma OtherStaysSound(sha: Bytes -> Digest, s: State, t: State, op: OpId, f: FileId, key: Key, i: OpId)
    requires Inv(sha, s) && Repointed(s, t, op, f, key)
    requires i in s.ops && i in t.ops && i != op && t.ops[i] == s.ops[i]
    requires forall j :: j in t.ops && Stored(t.ops[j]) ==> j in s.ops && t.ops[j] == s.ops[j]
    requires t.orphans <= s.orphans + (if f in s.files then {s.files[f].objectKey} else {})
    ensures Sound(t, i)
  {
    hide InFlight, NothingDangles, Describes;
    RepointedReferences(s, t, op, f, key);
    assert Sound(s, i) && OwnsItsObject(s, op);
    if f in s.files {
      assert IsCurrent(s, s.files[f].objectKey);
    }
  }

  lemma CommitUploadKeepsInv(sha: Bytes -> Digest, s: State, op: OpId)
    requires Inv(sha, s) && op in s.ops && s.ops[op].UploadStored?
    ensures Inv(sha, CommitUpload(sha, s, op, s.ops[op]))
  {
    var o, t := s.ops[op], CommitUpload(sha, s, op, s.ops[op]);
    if o.file in s.files {
      AbortKeepsInv(sha, s, op);
      assert t == AbortStep(s, op);
    } else {
      UploadRepoints(sha, s, op);
      CommitInv(sha, s, t, op, o.file, o.key);
    }
  }

  lemma UploadRepoints(sha: Bytes -> Digest, s: State, op: OpId)
    requires Inv(sha, s) && op in s.ops && s.ops[op].UploadStored? && s.ops[op].file !in s.files
    ensures
      var o, t := s.ops[op], CommitUpload(sha, s, op, s.ops[op]);
      Repointed(s, t, op, o.file, o.key) && Describes(sha, s, o.key, t.files[o.file].size, t.files[o.file].checksum)
  {
  }

  /** A commit whose request ends, or goes on only to delete what its row pointed to before. */
  lemma CommitInv(sha: Bytes -> Digest, s: State, t: State, op: OpId, f: FileId, key: Key)
    requires Inv(sha, s) && Repointed(s, t, op, f, key)
    requires Describes(sha, s, key, t.files[f].size, t.files[f].checksum)
    requires t.ops == s.ops - {op} && t.orphans == s.orphans && (f in s.files ==> s.files[f].versioned)
    ensures Inv(sha, t)
  {
    hide OwnsItsObject, SeenRowIsKnown, OldObjectIsFree, Referenced, InFlight, NothingDangles, KeysApart, Describes;
    RepointedRows(sha, s, t, op, f, key);
    RepointedReferences(s, t, op, f, key);
    InFlightFrame(s, t, {key});
    forall i | i in t.ops ensures Sound(t, i) {
      OtherStaysSound(sha, s, t, op, f, key, i);
    }
    OwnedKeyIsNoOrphan(s, op);
  }

  lemma OwnedKeyIsNoOrphan(s: State, i: OpId)
    requires i in s.ops && Stored(s.ops[i]) && OwnsItsObject(s, i)
    ensures s.ops[i].key in s.objects && s.ops[i].key !in s.orphans && !Referenced(s, s.ops[i].key)
  {
  }

  /** The compare-and-swap: in a versioned bucket a save is accepted exactly when the row still has the
      object key that the request saw. */
  lemma VersionedCommitIsCompareAndSwap(sha: Bytes -> Digest, s: State, op: OpId)
    requires Inv(sha, s) && op in s.ops && s.ops[op].ReplacementStored? && s.ops[op].seen.versioned
    ensures
      var o, t := s.ops[op], CommitStep(sha, s, op);
      if o.seen.objectKey == s.files[o.file].objectKey then
        && o.seen.objectKey !in s.versions
        && t.files[o.file].objectKey == o.key
        && t.versions == s.versions[o.seen.objectKey :=
             VersionRow(o.file, s.files[o.file].size, s.files[o.file].checksum)]
      else t == AbortStep(s, op) && t.files == s.files && t.versions == s.versions
  {
    hide NothingDangles, EveryObjectAccounted, OldObjectIsFree;
    assert SeenRowIsKnown(s, op);
  }

  lemma VersionedCommitKeepsInv(sha: Bytes -> Digest, s: State, op: OpId)
    requires Inv(sha, s) && op in s.ops && s.ops[op].ReplacementStored? && s.ops[op].seen.versioned
    ensures Inv(sha, CommitStep(sha, s, op))
  {
    hide NothingDangles, EveryObjectAccounted, OldObjectIsFree, KeysApart, KeysIssued, Describes;
    var o, t := s.ops[op], CommitStep(sha, s, op);
    assert SeenRowIsKnown(s, op) && OwnsItsObject(s, op);
    VersionedCommitIsCompareAndSwap(sha, s, op);
    if o.seen.objectKey == s.files[o.file].objectKey {
      assert Repointed(s, t, op, o.file, o.key);
      OwnedIsDescribed(sha, s, op);
      CommitInv(sha, s, t, op, o.file, o.key);
    } else {
      AbortKeepsInv(sha, s, op);
    }
  }

  lemma OwnedIsDescribed(sha: Bytes -> Digest, s: State, i: OpId)
    requires i in s.ops && Stored(s.ops[i]) && OwnsItsObject(s, i)
    ensures Describes(sha, s, s.ops[i].key, |s.ops[i].content|, sha(s.ops[i].content))
  {
  }

  lemma UnversionedCommitKeepsInv(sha: Bytes -> Digest, s: State, op: OpId)
    requires Inv(sha, s) && op in s.ops && s.ops[op].ReplacementStored? && !s.ops[op].seen.versioned
    ensures Inv(sha, CommitStep(sha, s, op))
  {
    hide OwnsItsObject, OldObjectIsFree, Referenced, InFlight, NothingDangles, KeysApart, Describes, EveryObjectAccounted;
    var o, t := s.ops[op], CommitStep(sha, s, op);
    assert SeenRowIsKnown(s, op);
    assert Repointed(s, t, op, o.file, o.key);
    OwnedIsDescribed(sha, s, op);
    RepointedRows(sha, s, t, op, o.file, o.key);
    forall i | i in t.ops ensures Sound(t, i) {
      if i == op {
        SupersededIsFree(sha, s, op);
      } else {
        OtherStaysSound(sha, s, t, op, o.file, o.key, i);
      }
    }
    UnversionedAccounted(sha, s, op);
  }

  lemma SupersededIsFree(sha: Bytes -> Digest, s: State, op: OpId)
    requires Inv(sha, s) && op in s.ops && s.ops[op].ReplacementStored? && !s.ops[op].seen.versioned
    requires Repointed(s, CommitStep(sha, s, op), op, s.ops[op].file, s.ops[op].key)
    ensures Sound(CommitStep(sha, s, op), op)
  {
    hide InFlight, NothingDangles, Describes, EveryObjectAccounted;
    var o, t := s.ops[op], CommitStep(sha, s, op);
    RepointedReferences(s, t, op, o.file, o.key);
    assert SeenRowIsKnown(s, op);
  }

  lemma UnversionedAccounted(sha: Bytes -> Digest, s: State, op: OpId)
    requires Inv(sha, s) && op in s.ops && s.ops[op].ReplacementStored? && !s.ops[op].seen.versioned
    requires Repointed(s, CommitStep(sha, s, op), op, s.ops[op].file, s.ops[op].key)
    ensures EveryObjectAccounted(CommitStep(sha, s, op))
  {
    hide Referenced, NothingDangles, Describes, OldObjectIsFree, KeysApart, KeysIssued;
    var o, t := s.ops[op], CommitStep(sha, s, op);
    assert SeenRowIsKnown(s, op);
    OwnedKeyIsNoOrphan(s, op);
    RepointedReferences(s, t, op, o.file, o.key);
    InFlightFrame(s, t, {o.key});
    assert o.seen.objectKey in Abandoned(t.ops[op]);
    assert InFlight(t, o.seen.objectKey);
  }

  lemma StepKeepsInv(sha: Bytes -> Digest, s: State, e: Event)
    requires Inv(sha, s)
    ensures Inv(sha, Step(sha, s, e))
  {
    hide Inv, CommitUpload, CommitReplacement, PutStep, DeleteOldStep, AbortStep;
    match e
    case StartUpload(_, _, _, _, _) => StartKeepsInv(sha, s, e);
    case StartReplacement(_, _, _, _) => StartKeepsInv(sha, s, e);
    case Put(op, key) => PutKeepsInv(sha, s, op, key);
    case Commit(op) =>
      if op in s.ops && s.ops[op].UploadStored? {
        CommitUploadKeepsInv(sha, s, op);
      } else if op in s.ops && s.ops[op].ReplacementStored? {
        if s.ops[op].seen.versioned {
          VersionedCommitKeepsInv(sha, s, op);
        } else {
          UnversionedCommitKeepsInv(sha, s, op);
        }
      }
    case DeleteOld(op) => DeleteOldKeepsInv(sha, s, op);
    case Abort(op) => AbortKeepsInv(sha, s, op);
    case SetStatus(_, _) => StatusKeepsInv(sha, s, e);
  }

  lemma {:induction false} RunPreservesInv(sha: Bytes -> Digest, s: State, events: seq<Event>)
    requires Inv(sha, s)
    ensures Inv(sha, Run(sha, s, events))
    decreases |events|
  {
    hide Step, Inv;
    if events != [] {
      RunPreservesInv(sha, s, events[..|events| - 1]);
      StepKeepsInv(sha, Run(sha, s, events[..|events| - 1]), events[|events| - 1]);
    }
  }

  /** Every state of every run from empty stores satisfies the invariant. */
  lemma {:induction false} RunKeepsInv(sha: Bytes -> Digest, events: seq<Event>)
    ensures Inv(sha, Run(sha, EMPTY, events))
  {
    RunPreservesInv(sha, EMPTY, events);
  }
}
