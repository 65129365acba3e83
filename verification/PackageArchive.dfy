/**
 The archive inside a portable package: one entry per table's rows, per database schema and per distinct
 file content, each with its checksum in the manifest.
 */
module PackageArchive {
  import opened Wrappers

  type Bytes = seq<bv8>
  type Digest = string
  type Key = nat

  // ---------- entry names ----------

  datatype Name =
    | RowsCsv(database: string, table: string)
    | SchemaJson(database: string)
    | ObjectFile(checksum: Digest)
    | ManifestJson

  const ID_LENGTH := 32

  predicate WellFormed(n: Name) {
    match n
    case RowsCsv(d, t) => |d| == ID_LENGTH && |t| == ID_LENGTH
    case SchemaJson(d) => |d| == ID_LENGTH
    case _ => true
  }

  /** The name as it is written into the archive. */
  function Text(n: Name): string {
    match n
    case RowsCsv(d, t) => "databases/" + d + "/rows/" + t + ".csv"
    case SchemaJson(d) => "databases/" + d + "/schema.json"
    case ObjectFile(c) => "objects/" + c
    case ManifestJson => "manifest.json"
  }

  lemma DatabaseText(n: Name)
    requires WellFormed(n) && (n.RowsCsv? || n.SchemaJson?)
    ensures |Text(n)| > 43 && Text(n)[0] == 'd' && Text(n)[10..42] == n.database
    ensures Text(n)[43] == if n.RowsCsv? then 'r' else 's'
    ensures n.RowsCsv? ==> |Text(n)| >= 80 && Text(n)[48..80] == n.table
  {
  }

  /** Different entries never get the same name. */
  lemma TextIsInjective(n: Name, m: Name)
    requires WellFormed(n) && WellFormed(m) && Text(n) == Text(m)
    ensures n == m
  {
    if n.RowsCsv? || n.SchemaJson? {
      DatabaseText(n);
    } else if n.ObjectFile? {
      assert Text(n)[0] == 'o' && Text(n)[8..] == n.checksum;
    } else {
      assert Text(n)[0] == 'm';
    }
    if m.RowsCsv? || m.SchemaJson? {
      DatabaseText(m);
    } else if m.ObjectFile? {
      assert Text(m)[0] == 'o' && Text(m)[8..] == m.checksum;
    } else {
      assert Text(m)[0] == 'm';
    }
  }

  // ---------- the archive ----------

  datatype Entry = Entry(name: Name, data: Bytes)

  /** The entries in the order written, and the manifest's checksums. */
  datatype Archive = Archive(entries: seq<Entry>, checksums: map<Name, Digest>)

  function Written(sha: Bytes -> Digest, a: Archive, name: Name, data: Bytes): Archive {
    Archive(a.entries + [Entry(name, data)], a.checksums[name := sha(data)])
  }

  /** Reading an archive by name; a later entry of the same name would win. */
  function Read(entries: seq<Entry>, name: Name): Option<Bytes> {
    if entries == [] then None
    else if entries[|entries| - 1].name == name then Some(entries[|entries| - 1].data)
    else Read(entries[..|entries| - 1], name)
  }

  class ArchiveWriter {
    const sha: Bytes -> Digest
    var entries: seq<Entry>
    var checksums: map<Name, Digest>

    constructor (sha: Bytes -> Digest)
      ensures this.sha == sha && Contents() == Archive([], map[])
    {
      this.sha := sha;
      entries, checksums := [], map[];
    }

    ghost function Contents(): Archive
      reads this
    {
      Archive(entries, checksums)
    }

    method WriteBytes(name: Name, data: Bytes)
      modifies this
      ensures Contents() == Written(sha, old(Contents()), name, data)
    {
      checksums := checksums[name := sha(data)];
      entries := entries + [Entry(name, data)];
    }

    /** Streams chunks into one entry, hashing them on the way. */
    method WriteStream(name: Name, chunks: seq<Bytes>) returns (digest: Digest)
      modifies this
      ensures Contents() == Written(sha, old(Contents()), name, Joined(chunks))
      ensures digest == sha(Joined(chunks))
    {
      var hashed: Bytes := [];
      for i := 0 to |chunks|
        invariant hashed == Joined(chunks[..i])
      {
        assert chunks[..i + 1][..i] == chunks[..i];
        hashed := hashed + chunks[i];
      }
      assert chunks[..|chunks|] == chunks;
      digest := sha(hashed);
      entries := entries + [Entry(name, hashed)];
      checksums := checksums[name := digest];
    }
  }

  function Joined(chunks: seq<Bytes>): Bytes {
    if chunks == [] then [] else Joined(chunks[..|chunks| - 1]) + chunks[|chunks| - 1]
  }

  // ---------- export ----------

  /** An active file as the catalog knows it. */
  datatype SourceFile = SourceFile(objectKey: Key, checksum: Digest, folderPath: seq<string>, displayName: string)

  /** A file's entry in the manifest. */
  datatype FileEntry = FileEntry(folderPath: seq<string>, displayName: string, checksum: Digest, contentRef: Name)

  datatype Part =
    | DatabasePart(id: string, tables: seq<(string, Bytes)>, schema: Bytes)
    | BucketPart(files: seq<SourceFile>)

  datatype ExportError = ObjectMissing(key: Key) | ChecksumMismatch(key: Key)

  /** What has been written, which contents are in the archive already, and the file entries so far. */
  datatype Progress = Progress(archive: Archive, refs: map<Digest, Name>, listed: seq<FileEntry>)

  const START := Progress(Archive([], map[]), map[], [])

  function Listed(p: Progress, f: SourceFile, ref: Name): Progress {
    p.(listed := p.listed + [FileEntry(f.folderPath, f.displayName, f.checksum, ref)])
  }

  /** A content is read, checked and written only the first time its checksum is met. */
  function ExportFile(sha: Bytes -> Digest, storage: map<Key, Bytes>, p: Progress, f: SourceFile)
    : Result<Progress, ExportError>
  {
    if f.checksum in p.refs then Success(Listed(p, f, p.refs[f.checksum]))
    else if f.objectKey !in storage then Failure(ObjectMissing(f.objectKey))
    else
      var ref := ObjectFile(f.checksum);
      if sha(storage[f.objectKey]) != f.checksum then Failure(ChecksumMismatch(f.objectKey))
      else
        var q := p.(archive := Written(sha, p.archive, ref, storage[f.objectKey]), refs := p.refs[f.checksum := ref]);
        Success(Listed(q, f, ref))
  }

  function ExportFiles(sha: Bytes -> Digest, storage: map<Key, Bytes>, p: Progress, files: seq<SourceFile>)
    : Result<Progress, ExportError>
    decreases |files|
  {
    if files == [] then Success(p)
    else
      var next :- ExportFile(sha, storage, p, files[0]);
      ExportFiles(sha, storage, next, files[1..])
  }

  function ExportTables(sha: Bytes -> Digest, a: Archive, database: string, tables: seq<(string, Bytes)>): Archive
    decreases |tables|
  {
    if tables == [] then a
    else ExportTables(sha, Written(sha, a, RowsCsv(database, tables[0].0), tables[0].1), database, tables[1..])
  }

  function ExportPart(sha: Bytes -> Digest, storage: map<Key, Bytes>, p: Progress, part: Part)
    : Result<Progress, ExportError>
  {
    match part
    case DatabasePart(id, tables, schema) =>
      Success(p.(archive := Written(sha, ExportTables(sha, p.archive, id, tables), SchemaJson(id), schema)))
    case BucketPart(files) => ExportFiles(sha, storage, p, files)
  }

  function ExportParts(sha: Bytes -> Digest, storage: map<Key, Bytes>, p: Progress, parts: seq<Part>)
    : Result<Progress, ExportError>
    decreases |parts|
  {
    if parts == [] then Success(p)
    else
      var next :- ExportPart(sha, storage, p, parts[0]);
      ExportParts(sha, storage, next, parts[1..])
  }

  /** The package of an organisation: all parts, then the manifest, whose own checksum is not recorded. */
  function BuildExport(sha: Bytes -> Digest, storage: map<Key, Bytes>, parts: seq<Part>, manifest: Bytes)
    : Result<Progress, ExportError>
  {
    var p :- ExportParts(sha, storage, START, parts);
    Success(p.(archive := p.archive.(entries := p.archive.entries + [Entry(ManifestJson, manifest)])))
  }

  /** One bucket, streaming objects through the writer. */
  method ExportBucket(writer: ArchiveWriter, storage: map<Key, Bytes>, refs: map<Digest, Name>, files: seq<SourceFile>)
    returns (error: Option<ExportError>, newRefs: map<Digest, Name>, listed: seq<FileEntry>)
    modifies writer
    ensures
      match ExportFiles(writer.sha, storage, Progress(old(writer.Contents()), refs, []), files)
      case Success(p) => error == None && Progress(writer.Contents(), newRefs, listed) == p
      case Failure(e) => error == Some(e)
  {
    newRefs, listed := refs, [];
    for i := 0 to |files|
      invariant ExportFiles(writer.sha, storage, Progress(writer.Contents(), newRefs, listed), files[i..])
             == ExportFiles(writer.sha, storage, Progress(old(writer.Contents()), refs, []), files)
    {
      var f := files[i];
      assert files[i..][0] == f && files[i..][1..] == files[i + 1..];
      var ref := ObjectFile(f.checksum);
      if f.checksum in newRefs {
        ref := newRefs[f.checksum];
      } else {
        if f.objectKey !in storage {
          return Some(ObjectMissing(f.objectKey)), newRefs, listed;
        }
        assert Joined([storage[f.objectKey]]) == storage[f.objectKey];
        var digest := writer.WriteStream(ref, [storage[f.objectKey]]);
        if digest != f.checksum {
          return Some(ChecksumMismatch(f.objectKey)), newRefs, listed;
        }
        newRefs := newRefs[f.checksum := ref];
      }
      listed := listed + [FileEntry(f.folderPath, f.displayName, f.checksum, ref)];
    }
    error := None;
  }

  // ---------- verification on restore ----------

  /** Whether every recorded checksum is that of the entry it names. */
  predicate Verifies(sha: Bytes -> Digest, a: Archive) {
    forall n :: n in a.checksums ==> Read(a.entries, n).Some? && sha(Read(a.entries, n).value) == a.checksums[n]
  }

  datatype VerifyError = EntryMissing(name: Name) | WrongChecksum(name: Name)

  method VerifyChecksums(sha: Bytes -> Digest, a: Archive) returns (error: Option<VerifyError>)
    ensures error == None <==> Verifies(sha, a)
    ensures error.Some? ==> error.value.name in a.checksums
  {
    var todo := a.checksums.Keys;
    while todo != {}
      invariant todo <= a.checksums.Keys
      invariant forall n :: n in a.checksums && n !in todo ==>
                  Read(a.entries, n).Some? && sha(Read(a.entries, n).value) == a.checksums[n]
      decreases todo
    {
      var n :| n in todo;
      var data := Read(a.entries, n);
      if data.None? {
        return Some(EntryMissing(n));
      }
      if sha(data.value) != a.checksums[n] {
        return Some(WrongChecksum(n));
      }
      todo := todo - {n};
    }
    error := None;
  }
}
