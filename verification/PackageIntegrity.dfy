/** What every built package satisfies. */
module PackageIntegrity {
  import opened Wrappers
  import opened PackageArchive

  function Names(a: Archive): set<Name> {
    set e | e in a.entries :: e.name
  }

  ghost predicate DistinctNames(a: Archive) {
    forall i, j :: 0 <= i < j < |a.entries| ==> a.entries[i].name != a.entries[j].name
  }

  ghost predicate ChecksumsCorrect(sha: Bytes -> Digest, a: Archive) {
    forall e :: e in a.entries ==> e.name in a.checksums && a.checksums[e.name] == sha(e.data)
  }

  /** The content index knows exactly the object entries, each under its checksum. */
  ghost predicate RefsCorrect(p: Progress) {
    && (forall c :: c in p.refs ==> p.refs[c] == ObjectFile(c) && ObjectFile(c) in Names(p.archive)
                                    && ObjectFile(c) in p.archive.checksums && p.archive.checksums[ObjectFile(c)] == c)
    && (forall c :: ObjectFile(c) in Names(p.archive) ==> c in p.refs)
  }

  /** Database entries belong to databases exported already; nothing else is there but objects. */
  ghost predicate FromDatabases(a: Archive, ids: set<string>) {
    forall n :: n in Names(a) ==>
      match n
      case RowsCsv(d, _) => d in ids
      case SchemaJson(d) => d in ids
      case ObjectFile(_) => true
      case ManifestJson => false
  }

  ghost predicate ListedResolve(p: Progress) {
    forall f :: f in p.listed ==> f.checksum in p.refs && f.contentRef == ObjectFile(f.checksum)
  }

  ghost predicate Sound(sha: Bytes -> Digest, p: Progress, ids: set<string>) {
    && DistinctNames(p.archive) && ChecksumsCorrect(sha, p.archive)
    && p.archive.checksums.Keys == Names(p.archive)
    && RefsCorrect(p) && FromDatabases(p.archive, ids) && ListedResolve(p)
  }

  // ---------- writing a fresh name ----------

  lemma WrittenNames(sha: Bytes -> Digest, a: Archive, name: Name, data: Bytes)
    ensures Names(Written(sha, a, name, data)) == Names(a) + {name}
  {
  }

  lemma WriteFresh(sha: Bytes -> Digest, a: Archive, name: Name, data: Bytes)
    requires DistinctNames(a) && ChecksumsCorrect(sha, a) && a.checksums.Keys == Names(a) && name !in Names(a)
    ensures
      var b := Written(sha, a, name, data);
      DistinctNames(b) && ChecksumsCorrect(sha, b) && b.checksums.Keys == Names(b)
  {
  }

  // ---------- buckets ----------

  lemma ExportFileKeepsSound(sha: Bytes -> Digest, storage: map<Key, Bytes>, p: Progress, f: SourceFile, ids: set<string>)
    requires Sound(sha, p, ids) && ExportFile(sha, storage, p, f).Success?
    ensures Sound(sha, ExportFile(sha, storage, p, f).value, ids)
  {
    hide DistinctNames, ChecksumsCorrect, Names;
    if f.checksum !in p.refs {
      WriteFresh(sha, p.archive, ObjectFile(f.checksum), storage[f.objectKey]);
      WrittenNames(sha, p.archive, ObjectFile(f.checksum), storage[f.objectKey]);
    }
  }

  lemma {:induction false} ExportFilesKeepSound(
      sha: Bytes -> Digest, storage: map<Key, Bytes>, p: Progress, files: seq<SourceFile>, ids: set<string>)
    requires Sound(sha, p, ids) && ExportFiles(sha, storage, p, files).Success?
    ensures Sound(sha, ExportFiles(sha, storage, p, files).value, ids)
    decreases |files|
  {
    hide Sound, ExportFile;
    if files != [] {
      ExportFileKeepsSound(sha, storage, p, files[0], ids);
      ExportFilesKeepSound(sha, storage, ExportFile(sha, storage, p, files[0]).value, files[1..], ids);
    }
  }

  // ---------- databases ----------

  predicate DistinctTables(tables: seq<(string, Bytes)>) {
    forall i, j :: 0 <= i < j < |tables| ==> tables[i].0 != tables[j].0
  }

  /** Writing a database's tables adds one entry per table and touches nothing else. */
  lemma {:induction false} ExportTablesKeep(
      sha: Bytes -> Digest, a: Archive, id: string, tables: seq<(string, Bytes)>)
    requires DistinctNames(a) && ChecksumsCorrect(sha, a) && a.checksums.Keys == Names(a)
    requires DistinctTables(tables) && forall t :: t in tables ==> RowsCsv(id, t.0) !in Names(a)
    ensures
      var b := ExportTables(sha, a, id, tables);
      && DistinctNames(b) && ChecksumsCorrect(sha, b) && b.checksums.Keys == Names(b)
      && Names(b) == Names(a) + (set t | t in tables :: RowsCsv(id, t.0))
      && (forall n :: n in Names(a) ==> n in b.checksums && b.checksums[n] == a.checksums[n])
    decreases |tables|
  {
    hide DistinctNames, ChecksumsCorrect;
    if tables != [] {
      var t := tables[0];
      assert t in tables;
      WriteFresh(sha, a, RowsCsv(id, t.0), t.1);
      WrittenNames(sha, a, RowsCsv(id, t.0), t.1);
      ExportTablesKeep(sha, Written(sha, a, RowsCsv(id, t.0), t.1), id, tables[1..]);
      assert forall u :: u in tables <==> u == t || u in tables[1..];
    }
  }

  lemma ExportDatabaseKeepsSound(sha: Bytes -> Digest, storage: map<Key, Bytes>, p: Progress, part: Part, ids: set<string>)
    requires Sound(sha, p, ids) && part.DatabasePart? && part.id !in ids && DistinctTables(part.tables)
    ensures Sound(sha, ExportPart(sha, storage, p, part).value, ids + {part.id})
  {
    hide DistinctNames, ChecksumsCorrect, DistinctTables, Names, ExportTables;
    ExportTablesKeep(sha, p.archive, part.id, part.tables);
    var b := ExportTables(sha, p.archive, part.id, part.tables);
    WriteFresh(sha, b, SchemaJson(part.id), part.schema);
    WrittenNames(sha, b, SchemaJson(part.id), part.schema);
    DatabaseEntriesOnly(p, Written(sha, b, SchemaJson(part.id), part.schema), part, ids);
  }

  /** New entries that all belong to one database disturb neither the content index nor the rest. */
  lemma DatabaseEntriesOnly(p: Progress, after: Archive, part: Part, ids: set<string>)
    requires RefsCorrect(p) && FromDatabases(p.archive, ids) && part.DatabasePart?
    requires Names(after) == Names(p.archive) + (set t | t in part.tables :: RowsCsv(part.id, t.0)) + {SchemaJson(part.id)}
    requires p.archive.checksums.Keys == Names(p.archive)
    requires forall n :: n in Names(p.archive) ==> n in after.checksums && after.checksums[n] == p.archive.checksums[n]
    ensures RefsCorrect(p.(archive := after)) && FromDatabases(after, ids + {part.id})
  {
  }

  // ---------- whole packages ----------

  function DatabaseIds(parts: seq<Part>): set<string> {
    set part | part in parts && part.DatabasePart? :: part.id
  }

  /** Primary keys: no database is exported twice, and no table of one database. */
  ghost predicate DistinctIds(parts: seq<Part>) {
    && (forall i, j :: 0 <= i < j < |parts| && parts[i].DatabasePart? && parts[j].DatabasePart? ==> parts[i].id != parts[j].id)
    && (forall i :: 0 <= i < |parts| && parts[i].DatabasePart? ==> DistinctTables(parts[i].tables))
  }

  lemma {:induction false} ExportPartsKeepSound(
      sha: Bytes -> Digest, storage: map<Key, Bytes>, p: Progress, parts: seq<Part>, ids: set<string>)
    requires Sound(sha, p, ids) && DistinctIds(parts) && ids !! DatabaseIds(parts)
    requires ExportParts(sha, storage, p, parts).Success?
    ensures Sound(sha, ExportParts(sha, storage, p, parts).value, ids + DatabaseIds(parts))
    decreases |parts|
  {
    hide Sound, DistinctTables;
    if parts == [] {
      assert ids + DatabaseIds(parts) == ids;
    } else {
      var part := parts[0];
      assert part in parts;
      var more := if part.DatabasePart? then ids + {part.id} else ids;
      if part.DatabasePart? {
        ExportDatabaseKeepsSound(sha, storage, p, part, ids);
      } else {
        ExportFilesKeepSound(sha, storage, p, part.files, ids);
      }
      assert forall q :: q in parts <==> q == part || q in parts[1..];
      assert more + DatabaseIds(parts[1..]) == ids + DatabaseIds(parts);
      assert forall i :: 0 <= i < |parts| - 1 ==> parts[1..][i] == parts[i + 1];
      assert more !! DatabaseIds(parts[1..]);
      ExportPartsKeepSound(sha, storage, ExportPart(sha, storage, p, part).value, parts[1..], more);
    }
  }

  lemma {:induction false} ReadFinds(entries: seq<Entry>, i: nat)
    requires i < |entries|
    requires forall j, k :: 0 <= j < k < |entries| ==> entries[j].name != entries[k].name
    ensures Read(entries, entries[i].name) == Some(entries[i].data)
    decreases |entries|
  {
    if i < |entries| - 1 {
      ReadFinds(entries[..|entries| - 1], i);
    }
  }

  /** Every package that gets built: no name is written twice, nor, with ids of the usual length, the text of one; the
      checksums cover every entry but the manifest and all verify; each listed file's reference resolves to bytes with its
      checksum; and there is one object entry per distinct checksum. */
  lemma PackageIsSound(sha: Bytes -> Digest, storage: map<Key, Bytes>, parts: seq<Part>, manifest: Bytes)
    requires DistinctIds(parts) && BuildExport(sha, storage, parts, manifest).Success?
    ensures
      var p := BuildExport(sha, storage, parts, manifest).value;
      && DistinctNames(p.archive)
      && (IdsAreHex(parts) ==> DistinctTexts(p.archive))
      && p.archive.checksums.Keys == Names(p.archive) - {ManifestJson}
      && Verifies(sha, p.archive)
      && (forall f :: f in p.listed ==>
            Read(p.archive.entries, f.contentRef).Some? && sha(Read(p.archive.entries, f.contentRef).value) == f.checksum)
      && (forall f :: f in p.listed ==> f.contentRef == ObjectFile(f.checksum))
  {
    hide RefsCorrect, FromDatabases, Verifies;
    ExportedIsSound(sha, storage, parts);
    var q := ExportParts(sha, storage, START, parts).value;
    var p := BuildExport(sha, storage, parts, manifest).value;
    NoManifestYet(q.archive, DatabaseIds(parts));
    ManifestIsLast(q.archive, p.archive, manifest);
    SoundVerifies(sha, p.archive, manifest);
    if IdsAreHex(parts) {
      NamesStayWellFormed(sha, storage, START, parts);
      NamesApartAreTextsApart(p.archive);
    }
    forall f | f in p.listed
      ensures Read(p.archive.entries, f.contentRef).Some? && sha(Read(p.archive.entries, f.contentRef).value) == f.checksum
    {
      RefHasChecksum(q, f.checksum);
      VerifiesAt(sha, p.archive, ObjectFile(f.checksum));
    }
  }

  // ---------- what a package holds of the databases ----------

  /** The archive holds a database's schema and the rows of each of its tables. */
  predicate HoldsDatabase(entries: seq<Entry>, part: Part)
    requires part.DatabasePart?
  {
    && Entry(SchemaJson(part.id), part.schema) in entries
    && forall t :: t in part.tables ==> Entry(RowsCsv(part.id, t.0), t.1) in entries
  }

  lemma {:induction false} FilesOnlyAdd(
      sha: Bytes -> Digest, storage: map<Key, Bytes>, p: Progress, files: seq<SourceFile>)
    requires ExportFiles(sha, storage, p, files).Success?
    ensures p.archive.entries <= ExportFiles(sha, storage, p, files).value.archive.entries
    decreases |files|
  {
    if files != [] {
      FilesOnlyAdd(sha, storage, ExportFile(sha, storage, p, files[0]).value, files[1..]);
    }
  }

  lemma {:induction false} TablesAreWritten(sha: Bytes -> Digest, a: Archive, id: string, tables: seq<(string, Bytes)>)
    ensures
      var after := ExportTables(sha, a, id, tables).entries;
      a.entries <= after && forall t :: t in tables ==> Entry(RowsCsv(id, t.0), t.1) in after
    decreases |tables|
  {
    if tables != [] {
      var b := Written(sha, a, RowsCsv(id, tables[0].0), tables[0].1);
      TablesAreWritten(sha, b, id, tables[1..]);
      assert b.entries[|a.entries|] == Entry(RowsCsv(id, tables[0].0), tables[0].1);
      assert tables == [tables[0]] + tables[1..];
    }
  }

  lemma {:induction false} PartsAreWritten(
      sha: Bytes -> Digest, storage: map<Key, Bytes>, p: Progress, parts: seq<Part>)
    requires ExportParts(sha, storage, p, parts).Success?
    ensures
      var after := ExportParts(sha, storage, p, parts).value.archive.entries;
      && p.archive.entries <= after
      && forall part :: part in parts && part.DatabasePart? ==> HoldsDatabase(after, part)
    decreases |parts|
  {
    if parts != [] {
      var part := parts[0];
      var q := ExportPart(sha, storage, p, part).value;
      hide ExportParts;
      if part.DatabasePart? {
        TablesAreWritten(sha, p.archive, part.id, part.tables);
        assert HoldsDatabase(q.archive.entries, part);
      } else {
        FilesOnlyAdd(sha, storage, p, part.files);
      }
      PartsAreWritten(sha, storage, q, parts[1..]);
      NextPart(sha, storage, p, parts);
      assert parts == [part] + parts[1..];
    }
  }

  lemma {:induction false} NextPart(sha: Bytes -> Digest, storage: map<Key, Bytes>, p: Progress, parts: seq<Part>)
    requires parts != [] && ExportParts(sha, storage, p, parts).Success?
    ensures
      var next := ExportPart(sha, storage, p, parts[0]);
      && next.Success? && ExportParts(sha, storage, next.value, parts[1..]).Success?
      && ExportParts(sha, storage, p, parts) == ExportParts(sha, storage, next.value, parts[1..])
  {
  }

  lemma {:induction false} EntryIsRead(a: Archive, e: Entry)
    requires DistinctNames(a) && e in a.entries
    ensures Read(a.entries, e.name) == Some(e.data)
  {
    var i :| 0 <= i < |a.entries| && a.entries[i] == e;
    ReadFinds(a.entries, i);
  }

  /** A package that gets built gives back, by name, the schema of every database, the rows of every table and the
      manifest. */
  lemma {:induction false} DatabasesAreReadBack(
      sha: Bytes -> Digest, storage: map<Key, Bytes>, parts: seq<Part>, manifest: Bytes)
    requires DistinctIds(parts) && BuildExport(sha, storage, parts, manifest).Success?
    ensures
      var entries := BuildExport(sha, storage, parts, manifest).value.archive.entries;
      && Read(entries, ManifestJson) == Some(manifest)
      && forall part :: part in parts && part.DatabasePart? ==>
           && Read(entries, SchemaJson(part.id)) == Some(part.schema)
           && forall t :: t in part.tables ==> Read(entries, RowsCsv(part.id, t.0)) == Some(t.1)
  {
    PackageIsSound(sha, storage, parts, manifest);
    PartsAreWritten(sha, storage, START, parts);
    var a := BuildExport(sha, storage, parts, manifest).value.archive;
    hide ExportParts, DistinctNames, DistinctIds, Verifies;
    assert Entry(ManifestJson, manifest) in a.entries;
    EntryIsRead(a, Entry(ManifestJson, manifest));
    forall part | part in parts && part.DatabasePart?
      ensures Read(a.entries, SchemaJson(part.id)) == Some(part.schema)
      ensures forall t :: t in part.tables ==> Read(a.entries, RowsCsv(part.id, t.0)) == Some(t.1)
    {
      EntryIsRead(a, Entry(SchemaJson(part.id), part.schema));
      forall t | t in part.tables ensures Read(a.entries, RowsCsv(part.id, t.0)) == Some(t.1) {
        EntryIsRead(a, Entry(RowsCsv(part.id, t.0), t.1));
      }
    }
  }

  // ---------- names as text ----------

  /** The ids of databases and tables are the 32 hexadecimal digits of a UUID. */
  ghost predicate IdsAreHex(parts: seq<Part>) {
    forall part :: part in parts && part.DatabasePart? ==>
      |part.id| == ID_LENGTH && forall t :: t in part.tables ==> |t.0| == ID_LENGTH
  }

  ghost predicate DistinctTexts(a: Archive) {
    forall i, j :: 0 <= i < j < |a.entries| ==> Text(a.entries[i].name) != Text(a.entries[j].name)
  }

  ghost predicate NamesWellFormed(a: Archive) {
    forall e :: e in a.entries ==> WellFormed(e.name)
  }

  lemma NamesApartAreTextsApart(a: Archive)
    requires DistinctNames(a) && NamesWellFormed(a)
    ensures DistinctTexts(a)
  {
    hide Text, WellFormed;
    forall i, j | 0 <= i < j < |a.entries| ensures Text(a.entries[i].name) != Text(a.entries[j].name) {
      if Text(a.entries[i].name) == Text(a.entries[j].name) {
        TextIsInjective(a.entries[i].name, a.entries[j].name);
      }
    }
  }

  lemma {:induction false} TablesAreWellFormed(sha: Bytes -> Digest, a: Archive, id: string, tables: seq<(string, Bytes)>)
    requires NamesWellFormed(a) && |id| == ID_LENGTH && forall t :: t in tables ==> |t.0| == ID_LENGTH
    ensures NamesWellFormed(ExportTables(sha, a, id, tables))
    decreases |tables|
  {
    if tables != [] {
      assert tables[0] in tables;
      TablesAreWellFormed(sha, Written(sha, a, RowsCsv(id, tables[0].0), tables[0].1), id, tables[1..]);
    }
  }

  lemma {:induction false} FilesAreWellFormed(sha: Bytes -> Digest, storage: map<Key, Bytes>, p: Progress, files: seq<SourceFile>)
    requires NamesWellFormed(p.archive) && ExportFiles(sha, storage, p, files).Success?
    ensures NamesWellFormed(ExportFiles(sha, storage, p, files).value.archive)
    decreases |files|
  {
    if files != [] {
      FilesAreWellFormed(sha, storage, ExportFile(sha, storage, p, files[0]).value, files[1..]);
    }
  }

  lemma {:induction false} NamesStayWellFormed(sha: Bytes -> Digest, storage: map<Key, Bytes>, p: Progress, parts: seq<Part>)
    requires NamesWellFormed(p.archive) && IdsAreHex(parts) && ExportParts(sha, storage, p, parts).Success?
    ensures NamesWellFormed(ExportParts(sha, storage, p, parts).value.archive)
    decreases |parts|
  {
    hide ExportFiles, ExportTables;
    if parts != [] {
      var part := parts[0];
      assert part in parts;
      if part.DatabasePart? {
        TablesAreWellFormed(sha, p.archive, part.id, part.tables);
      } else {
        FilesAreWellFormed(sha, storage, p, part.files);
      }
      NamesStayWellFormed(sha, storage, ExportPart(sha, storage, p, part).value, parts[1..]);
    }
  }

  lemma {:induction false} ExportedIsSound(sha: Bytes -> Digest, storage: map<Key, Bytes>, parts: seq<Part>)
    requires DistinctIds(parts) && ExportParts(sha, storage, START, parts).Success?
    ensures Sound(sha, ExportParts(sha, storage, START, parts).value, DatabaseIds(parts))
  {
    assert Sound(sha, START, {});
    ExportPartsKeepSound(sha, storage, START, parts, {});
    assert {} + DatabaseIds(parts) == DatabaseIds(parts);
  }

  lemma NoManifestYet(a: Archive, ids: set<string>)
    requires FromDatabases(a, ids)
    ensures ManifestJson !in Names(a)
  {
  }

  lemma ManifestIsLast(a: Archive, b: Archive, manifest: Bytes)
    requires DistinctNames(a) && ManifestJson !in Names(a)
    requires b == a.(entries := a.entries + [Entry(ManifestJson, manifest)])
    ensures DistinctNames(b) && Names(b) == Names(a) + {ManifestJson}
  {
  }

  lemma SoundVerifies(sha: Bytes -> Digest, b: Archive, manifest: Bytes)
    requires DistinctNames(b) && b.checksums.Keys <= Names(b)
    requires forall e :: e in b.entries && e.name in b.checksums ==> b.checksums[e.name] == sha(e.data)
    ensures Verifies(sha, b)
  {
    forall n | n in b.checksums ensures Read(b.entries, n).Some? && sha(Read(b.entries, n).value) == b.checksums[n] {
      assert n in Names(b);
      var i :| 0 <= i < |b.entries| && b.entries[i].name == n;
      ReadFinds(b.entries, i);
      assert b.entries[i] in b.entries;
    }
  }

  lemma {:induction false} VerifiesAt(sha: Bytes -> Digest, a: Archive, n: Name)
    requires Verifies(sha, a) && n in a.checksums
    ensures Read(a.entries, n).Some? && sha(Read(a.entries, n).value) == a.checksums[n]
  {
  }

  lemma RefHasChecksum(p: Progress, c: Digest)
    requires RefsCorrect(p) && c in p.refs
    ensures ObjectFile(c) in p.archive.checksums && p.archive.checksums[ObjectFile(c)] == c
  {
  }

  // ---------- which files, and what comes back ----------

  function Files(parts: seq<Part>): seq<SourceFile> {
    if parts == [] then []
    else (if parts[0].BucketPart? then parts[0].files else []) + Files(parts[1..])
  }

  function EntryOf(f: SourceFile): FileEntry {
    FileEntry(f.folderPath, f.displayName, f.checksum, ObjectFile(f.checksum))
  }

  function Entries(files: seq<SourceFile>): seq<FileEntry> {
    seq(|files|, i requires 0 <= i < |files| => EntryOf(files[i]))
  }

  /** The stored object exists and has the checksum that the catalog records. */
  predicate Intact(sha: Bytes -> Digest, storage: map<Key, Bytes>, f: SourceFile) {
    f.objectKey in storage && sha(storage[f.objectKey]) == f.checksum
  }

  /** No content with this file's checksum is in the archive yet when its turn comes. */
  predicate IsFirst(known: set<Digest>, files: seq<SourceFile>, i: nat)
    requires i < |files|
  {
    files[i].checksum !in known && forall j :: 0 <= j < i ==> files[j].checksum != files[i].checksum
  }

  ghost predicate FirstsIntact(sha: Bytes -> Digest, storage: map<Key, Bytes>, known: set<Digest>, files: seq<SourceFile>) {
    forall i :: 0 <= i < |files| && IsFirst(known, files, i) ==> Intact(sha, storage, files[i])
  }

  function Checksums(files: seq<SourceFile>): set<Digest> {
    set f | f in files :: f.checksum
  }

  ghost predicate RefsNamed(p: Progress) {
    forall c :: c in p.refs ==> p.refs[c] == ObjectFile(c)
  }

  lemma FirstsSplit(sha: Bytes -> Digest, storage: map<Key, Bytes>, known: set<Digest>, a: seq<SourceFile>, b: seq<SourceFile>)
    ensures FirstsIntact(sha, storage, known, a + b)
       <==> FirstsIntact(sha, storage, known, a) && FirstsIntact(sha, storage, known + Checksums(a), b)
    ensures Checksums(a + b) == Checksums(a) + Checksums(b)
  {
    hide Intact;
    forall i | 0 <= i < |a| ensures IsFirst(known, a + b, i) == IsFirst(known, a, i) {
      assert forall j :: 0 <= j <= i ==> (a + b)[j] == a[j];
    }
    forall i | 0 <= i < |b| ensures IsFirst(known, a + b, |a| + i) == IsFirst(known + Checksums(a), b, i) {
      LaterFirst(known, a, b, i);
    }
    if FirstsIntact(sha, storage, known, a + b) {
      assert forall i :: 0 <= i < |a| ==> (a + b)[i] == a[i];
      forall i | 0 <= i < |b| && IsFirst(known + Checksums(a), b, i) ensures Intact(sha, storage, b[i]) {
        assert IsFirst(known, a + b, |a| + i) && (a + b)[|a| + i] == b[i];
      }
    }
    if FirstsIntact(sha, storage, known, a) && FirstsIntact(sha, storage, known + Checksums(a), b) {
      forall i | 0 <= i < |a + b| && IsFirst(known, a + b, i) ensures Intact(sha, storage, (a + b)[i]) {
        if i >= |a| {
          assert IsFirst(known + Checksums(a), b, i - |a|);
        }
      }
    }
    assert forall f :: f in a + b <==> f in a || f in b;
  }

  lemma LaterFirst(known: set<Digest>, a: seq<SourceFile>, b: seq<SourceFile>, i: nat)
    requires i < |b|
    ensures IsFirst(known, a + b, |a| + i) == IsFirst(known + Checksums(a), b, i)
  {
    var c := b[i].checksum;
    assert (a + b)[|a| + i] == b[i];
    if IsFirst(known, a + b, |a| + i) {
      forall f | f in a ensures f.checksum != c {
        var j :| 0 <= j < |a| && a[j] == f;
        assert (a + b)[j] == f;
      }
      forall j | 0 <= j < i ensures b[j].checksum != c {
        assert (a + b)[|a| + j] == b[j];
      }
    }
    if IsFirst(known + Checksums(a), b, i) {
      forall j | 0 <= j < |a| + i ensures (a + b)[j].checksum != c {
        if j < |a| {
          assert a[j] in a;
        } else {
          assert (a + b)[j] == b[j - |a|];
        }
      }
    }
  }

  /** q extends p by the contents and entries of the given files. */
  ghost predicate Extends(p: Progress, q: Progress, files: seq<SourceFile>) {
    RefsNamed(q) && q.refs.Keys == p.refs.Keys + Checksums(files) && q.listed == p.listed + Entries(files)
  }

  lemma ExtendsCompose(p: Progress, q: Progress, r: Progress, a: seq<SourceFile>, b: seq<SourceFile>)
    requires Extends(p, q, a) && Extends(q, r, b)
    ensures Extends(p, r, a + b)
  {
  }

  lemma ExportFileExtends(sha: Bytes -> Digest, storage: map<Key, Bytes>, p: Progress, f: SourceFile)
    requires RefsNamed(p)
    ensures ExportFile(sha, storage, p, f).Success? <==> f.checksum in p.refs || Intact(sha, storage, f)
    ensures ExportFile(sha, storage, p, f).Success? ==> Extends(p, ExportFile(sha, storage, p, f).value, [f])
  {
  }

  lemma {:induction false} ExportFilesSucceed(sha: Bytes -> Digest, storage: map<Key, Bytes>, p: Progress, files: seq<SourceFile>)
    requires RefsNamed(p)
    ensures ExportFiles(sha, storage, p, files).Success? <==> FirstsIntact(sha, storage, p.refs.Keys, files)
    ensures ExportFiles(sha, storage, p, files).Success? ==> Extends(p, ExportFiles(sha, storage, p, files).value, files)
    decreases |files|
  {
    hide FirstsIntact, ExportFile, Checksums, Entries, RefsNamed;
    if files == [] {
      NothingIsIntact(sha, storage, p.refs.Keys);
      ExtendsNothing(p);
    } else {
      var f := files[0];
      assert files == [f] + files[1..];
      FirstsSplit(sha, storage, p.refs.Keys, [f], files[1..]);
      SingleFirst(sha, storage, p.refs.Keys, f);
      ExportFileExtends(sha, storage, p, f);
      if ExportFile(sha, storage, p, f).Success? {
        var next := ExportFile(sha, storage, p, f).value;
        ExportFilesSucceed(sha, storage, next, files[1..]);
        if ExportFiles(sha, storage, next, files[1..]).Success? {
          ExtendsCompose(p, next, ExportFiles(sha, storage, next, files[1..]).value, [f], files[1..]);
        }
      }
    }
  }

  lemma ExtendsNothing(p: Progress)
    requires RefsNamed(p)
    ensures Extends(p, p, [])
  {
  }

  lemma NothingIsIntact(sha: Bytes -> Digest, storage: map<Key, Bytes>, known: set<Digest>)
    ensures FirstsIntact(sha, storage, known, [])
  {
  }

  lemma SingleFirst(sha: Bytes -> Digest, storage: map<Key, Bytes>, known: set<Digest>, f: SourceFile)
    ensures FirstsIntact(sha, storage, known, [f]) <==> (f.checksum in known || Intact(sha, storage, f))
    ensures Checksums([f]) == {f.checksum}
  {
  }

  lemma {:induction false} ExportPartsSucceed(sha: Bytes -> Digest, storage: map<Key, Bytes>, p: Progress, parts: seq<Part>)
    requires RefsNamed(p)
    ensures ExportParts(sha, storage, p, parts).Success? <==> FirstsIntact(sha, storage, p.refs.Keys, Files(parts))
    ensures ExportParts(sha, storage, p, parts).Success? ==>
              Extends(p, ExportParts(sha, storage, p, parts).value, Files(parts))
    decreases |parts|
  {
    hide FirstsIntact, ExportFiles, ExportTables, Checksums, Entries;
    if parts == [] {
      NothingIsIntact(sha, storage, p.refs.Keys);
      ExtendsNothing(p);
    } else {
      var files := if parts[0].BucketPart? then parts[0].files else [];
      FirstsSplit(sha, storage, p.refs.Keys, files, Files(parts[1..]));
      PartExtends(sha, storage, p, parts[0], files);
      if ExportPart(sha, storage, p, parts[0]).Success? {
        var next := ExportPart(sha, storage, p, parts[0]).value;
        ExportPartsSucceed(sha, storage, next, parts[1..]);
        if ExportParts(sha, storage, next, parts[1..]).Success? {
          ExtendsCompose(p, next, ExportParts(sha, storage, next, parts[1..]).value, files, Files(parts[1..]));
        }
      }
    }
  }

  lemma PartExtends(sha: Bytes -> Digest, storage: map<Key, Bytes>, p: Progress, part: Part, files: seq<SourceFile>)
    requires RefsNamed(p) && files == if part.BucketPart? then part.files else []
    ensures ExportPart(sha, storage, p, part).Success? <==> FirstsIntact(sha, storage, p.refs.Keys, files)
    ensures ExportPart(sha, storage, p, part).Success? ==> Extends(p, ExportPart(sha, storage, p, part).value, files)
  {
    hide FirstsIntact, ExportFiles, ExportTables;
    if part.BucketPart? {
      ExportFilesSucceed(sha, storage, p, files);
    } else {
      NothingIsIntact(sha, storage, p.refs.Keys);
      ExtendsNothing(p);
    }
  }

  /** An export succeeds exactly when, for every checksum, the first file that has it is intact in storage;
      it then lists every file of every bucket, in order, under its checksum, and holds one object per
      distinct checksum across all buckets. */
  lemma {:induction false} ExportSucceedsExactly(sha: Bytes -> Digest, storage: map<Key, Bytes>, parts: seq<Part>, manifest: Bytes)
    requires DistinctIds(parts)
    ensures BuildExport(sha, storage, parts, manifest).Success? <==> FirstsIntact(sha, storage, {}, Files(parts))
    ensures BuildExport(sha, storage, parts, manifest).Success? ==>
      var p := BuildExport(sha, storage, parts, manifest).value;
      && p.listed == Entries(Files(parts))
      && (forall c :: ObjectFile(c) in Names(p.archive) <==> c in Checksums(Files(parts)))
  {
    hide FirstsIntact, ExportParts;
    ExportPartsSucceed(sha, storage, START, parts);
    assert START.refs.Keys == {};
    if ExportParts(sha, storage, START, parts).Success? {
      var q := ExportParts(sha, storage, START, parts).value;
      var p := BuildExport(sha, storage, parts, manifest).value;
      ExportedIsSound(sha, storage, parts);
      assert Extends(START, q, Files(parts));
      assert forall e :: e in p.archive.entries <==> e in q.archive.entries || e == Entry(ManifestJson, manifest);
      forall c ensures ObjectFile(c) in Names(p.archive) <==> c in Checksums(Files(parts)) {
        assert ObjectFile(c) in Names(p.archive) <==> ObjectFile(c) in Names(q.archive);
      }
    }
  }

  ghost predicate CollisionFree(sha: Bytes -> Digest) {
    forall a, b :: sha(a) == sha(b) ==> a == b
  }

  /** With a collision-free hash, file number i comes back with its own bytes exactly when its own stored
      object is intact, deduplicated or not. */
  lemma {:induction false} FileComesBackIntact(sha: Bytes -> Digest, storage: map<Key, Bytes>, parts: seq<Part>, manifest: Bytes, i: nat)
    requires DistinctIds(parts) && CollisionFree(sha)
    requires BuildExport(sha, storage, parts, manifest).Success?
    requires i < |Files(parts)| && Files(parts)[i].objectKey in storage
    ensures
      var p, f := BuildExport(sha, storage, parts, manifest).value, Files(parts)[i];
      && i < |p.listed|
      && (Read(p.archive.entries, p.listed[i].contentRef) == Some(storage[f.objectKey]) <==> Intact(sha, storage, f))
  {
    hide FirstsIntact, Names, DistinctIds, BuildExport, Verifies, DistinctNames;
    ExportSucceedsExactly(sha, storage, parts, manifest);
    PackageIsSound(sha, storage, parts, manifest);
    var p := BuildExport(sha, storage, parts, manifest).value;
    assert p.listed[i] == EntryOf(Files(parts)[i]);
    assert p.listed[i] in p.listed;
  }
}
