/**
 The storage operations as the service executes them.  Each one, left alone, is a run of its own steps
 in FileStorage, whose interleavings and failures are treated there.
 */
module StorageService {
  import opened Wrappers
  import opened FileStorage

  const CHUNK_SIZE := 0x10_0000

  /** The chunked pass over an upload: checksum and size, or a refusal as soon as the limit is exceeded. */
  method HashAndMeasure(sha: Bytes -> Digest, content: Bytes, limit: nat) returns (r: Option<(Digest, nat)>)
    ensures r == if |content| <= limit then Some((sha(content), |content|)) else None
  {
    var hashed: Bytes := [];
    var size := 0;
    while |hashed| < |content|
      invariant hashed <= content
      invariant size == |hashed| <= limit
    {
      var end := if |hashed| + CHUNK_SIZE <= |content| then |hashed| + CHUNK_SIZE else |content|;
      var chunk := content[|hashed|..end];
      hashed := hashed + chunk;
      size := size + |chunk|;
      if size > limit {
        return None;
      }
    }
    assert hashed == content;
    r := Some((sha(hashed), size));
  }

  function UploadEvents(op: OpId, file: FileId, versioned: bool, content: Bytes, clean: bool, key: Key): seq<Event> {
    [StartUpload(op, file, versioned, content, clean), Put(op, key), Commit(op)]
  }

  function ReplacementEvents(op: OpId, file: FileId, content: Bytes, clean: bool, key: Key): seq<Event> {
    [StartReplacement(op, file, content, clean), Put(op, key), Commit(op), DeleteOld(op)]
  }

  lemma {:induction false} RunSnoc(sha: Bytes -> Digest, s: State, events: seq<Event>, e: Event)
    ensures Run(sha, s, events + [e]) == Step(sha, Run(sha, s, events), e)
  {
  }

  lemma {:induction false} RunThree(sha: Bytes -> Digest, s: State, a: Event, b: Event, c: Event)
    ensures Run(sha, s, [a, b, c]) == Step(sha, Step(sha, Step(sha, s, a), b), c)
    ensures Run(sha, s, [a, b]) == Step(sha, Step(sha, s, a), b)
    ensures Run(sha, s, [a]) == Step(sha, s, a)
  {
    hide Step;
    RunSnoc(sha, s, [], a);
    RunSnoc(sha, s, [a], b);
    RunSnoc(sha, s, [a, b], c);
    assert [] + [a] == [a] && [a] + [b] == [a, b] && [a, b] + [c] == [a, b, c];
  }

  lemma {:induction false} UploadAlone(sha: Bytes -> Digest, s: State, op: OpId, file: FileId, versioned: bool, content: Bytes,
                    clean: bool, key: Key)
    requires s.ops == map[] && key !in s.issued && file !in s.files
    ensures Run(sha, s, UploadEvents(op, file, versioned, content, clean, key))
         == s.(objects := s.objects[key := content], issued := s.issued + {key},
               files := s.files[file := FileRow(key, |content|, sha(content), if clean then Active else Quarantined, versioned)])
  {
    RunThree(sha, s, StartUpload(op, file, versioned, content, clean), Put(op, key), Commit(op));
    assert s.ops[op := Uploading(file, versioned, content, clean)][op := UploadStored(file, versioned, content, clean, key)]
        == map[op := UploadStored(file, versioned, content, clean, key)];
    assert map[op := UploadStored(file, versioned, content, clean, key)] - {op} == map[];
  }

  lemma ReplacementAlone(sha: Bytes -> Digest, s: State, op: OpId, file: FileId, content: Bytes, clean: bool, key: Key)
    requires s.ops == map[] && key !in s.issued && file in s.files && s.files[file].objectKey !in s.versions
    ensures
      var row := s.files[file];
      var saved := s.(objects := s.objects[key := content], issued := s.issued + {key},
        files := s.files[file := row.(
          objectKey := key, size := |content|, checksum := sha(content), status := if clean then Active else Quarantined)]);
      Run(sha, s, ReplacementEvents(op, file, content, clean, key))
        == if row.versioned then
             saved.(versions := s.versions[row.objectKey := VersionRow(file, row.size, row.checksum)])
           else saved.(objects := saved.objects - {row.objectKey})
  {
    hide CommitStep, PutStep;
    var start, puts, commit := StartReplacement(op, file, content, clean), Put(op, key), Commit(op);
    ReplacementCommits(sha, s, op, file, content, clean, key);
    RunThree(sha, s, start, puts, commit);
    RunSnoc(sha, s, [start, puts, commit], DeleteOld(op));
    assert [start, puts, commit] + [DeleteOld(op)] == ReplacementEvents(op, file, content, clean, key);
    assert map[op := OldObjectPending(s.files[file].objectKey)] - {op} == map[];
  }

  lemma ReplacementCommits(sha: Bytes -> Digest, s: State, op: OpId, file: FileId, content: Bytes, clean: bool, key: Key)
    requires s.ops == map[] && key !in s.issued && file in s.files && s.files[file].objectKey !in s.versions
    ensures
      var row := s.files[file];
      var t := Step(sha, Step(sha, Step(sha, s, StartReplacement(op, file, content, clean)), Put(op, key)), Commit(op));
      var saved := s.(objects := s.objects[key := content], issued := s.issued + {key},
        files := s.files[file := row.(
          objectKey := key, size := |content|, checksum := sha(content), status := if clean then Active else Quarantined)]);
      t == if row.versioned then
             saved.(versions := s.versions[row.objectKey := VersionRow(file, row.size, row.checksum)])
           else saved.(ops := map[op := OldObjectPending(row.objectKey)])
  {
  }

  class Service {
    const sha: Bytes -> Digest
    const limit: nat
    var files: map<FileId, FileRow>
    var versions: map<Key, VersionRow>
    var objects: map<Key, Bytes>
    ghost var issued: set<Key>
    ghost var orphans: set<Key>

    constructor (sha: Bytes -> Digest, limit: nat)
      ensures Valid() && View() == EMPTY && this.sha == sha && this.limit == limit
    {
      this.sha, this.limit := sha, limit;
      files, versions, objects := map[], map[], map[];
      issued, orphans := {}, {};
    }

    /** The stores, with no request in progress. */
    ghost function View(): State
      reads this
    {
      State(files, versions, objects, map[], issued, orphans)
    }

    ghost predicate Valid()
      reads this
    {
      Inv(sha, View())
    }

    method UploadFile(ghost op: OpId, file: FileId, versioned: bool, content: Bytes, clean: bool, key: Key)
      returns (ok: bool)
      requires Valid() && key !in issued && file !in files
      modifies this
      ensures Valid() && (ok <==> |content| <= limit)
      ensures View() == if ok then Run(sha, old(View()), UploadEvents(op, file, versioned, content, clean, key))
                        else old(View())
      ensures ok ==> file in files && key in objects
      ensures ok ==> files[file] == FileRow(key, |content|, sha(content), if clean then Active else Quarantined, versioned)
                     && objects[key] == content
    {
      hide Run, Inv;
      var measured := HashAndMeasure(sha, content, limit);
      if measured.None? {
        return false;
      }
      UploadAlone(sha, View(), op, file, versioned, content, clean, key);
      RunPreservesInv(sha, View(), UploadEvents(op, file, versioned, content, clean, key));
      objects, issued := objects[key := content], issued + {key};
      files := files[file := FileRow(key, measured.value.1, measured.value.0, StatusOf(clean), versioned)];
      ok := true;
    }

    method UploadNewVersion(ghost op: OpId, file: FileId, content: Bytes, clean: bool, key: Key)
      returns (ok: bool)
      requires Valid() && key !in issued && file in files
      modifies this
      ensures Valid() && (ok <==> |content| <= limit)
      ensures View() == if ok then Run(sha, old(View()), ReplacementEvents(op, file, content, clean, key))
                        else old(View())
      ensures ok ==> file in files && key in objects
      ensures ok ==> files[file] == FileRow(key, |content|, sha(content), if clean then Active else Quarantined,
                                            old(files[file].versioned))
                     && objects[key] == content
    {
      hide Run, NothingDangles, OpsAreSound, EveryObjectAccounted;
      var measured := HashAndMeasure(sha, content, limit);
      if measured.None? {
        return false;
      }
      ReplacementAlone(sha, View(), op, file, content, clean, key);
      RunPreservesInv(sha, View(), ReplacementEvents(op, file, content, clean, key));
      objects, issued := objects[key := content], issued + {key};
      var row := files[file];
      if row.versioned {
        versions := versions[row.objectKey := VersionRow(file, row.size, row.checksum)];
      }
      files := files[file := row.(
        objectKey := key, size := measured.value.1, checksum := measured.value.0, status := StatusOf(clean))];
      if !row.versioned {
        objects := objects - {row.objectKey};
      }
      ok := true;
    }

    /** delete_file and restore_file differ only in the status they save. */
    method SetFileStatus(file: FileId, status: Status)
      requires Valid() && file in files
      modifies this
      ensures Valid() && View() == Step(sha, old(View()), SetStatus(file, status))
      ensures files == old(files)[file := old(files[file]).(status := status)]
      ensures versions == old(versions) && objects == old(objects)
    {
      hide Inv;
      StatusKeepsInv(sha, View(), SetStatus(file, status));
      files := files[file := files[file].(status := status)];
    }
  }
}
