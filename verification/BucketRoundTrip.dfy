/** A bucket's files from one organisation to another: what was exported against what the restore uploads. */
module BucketRoundTrip {
  import opened Wrappers
  import opened PackageArchive
  import opened PackageIntegrity
  import opened FolderTree
  import FolderStore

  /** An active file of the source bucket, with its folder in the bucket's tree. */
  datatype BucketFile = BucketFile(folder: Option<FolderId>, displayName: string, checksum: Digest, objectKey: Key)

  predicate InTree(folders: Folders, f: BucketFile) {
    f.folder.Some? ==> f.folder.value in folders
  }

  predicate AllInTree(folders: Folders, files: seq<BucketFile>) {
    forall i :: 0 <= i < |files| ==> InTree(folders, files[i])
  }

  function ExportedFile(folders: Folders, f: BucketFile): SourceFile
    requires Forest(folders) && InTree(folders, f)
  {
    SourceFile(f.objectKey, f.checksum, FolderPath(folders, f.folder), f.displayName)
  }

  function Exported(folders: Folders, files: seq<BucketFile>): seq<SourceFile>
    requires Forest(folders) && AllInTree(folders, files)
  {
    seq(|files|, i requires 0 <= i < |files| => ExportedFile(folders, files[i]))
  }

  /** The row that upload_file adds, and the bytes it stores, for one file of the package. It is active if the scan finds
      the bytes clean, and quarantined otherwise. */
  datatype RestoredFile = RestoredFile(folder: Option<FolderId>, displayName: string, content: Bytes, active: bool)

  datatype RestoreError = NoSuchEntry(name: Name) | NameTaken(displayName: string)

  /** The folders created, the files uploaded, and the names of those over the upload limit. */
  datatype Restored = Restored(tree: Trie, files: seq<RestoredFile>, skipped: seq<string>)

  /** The unique constraint on active files of one folder and display name; at the root of the bucket, where the folder is
      NULL, it never bites. */
  predicate Collides(files: seq<RestoredFile>, f: RestoredFile) {
    f.active && f.folder.Some?
    && exists k :: 0 <= k < |files| && files[k].active && files[k].folder == f.folder && files[k].displayName == f.displayName
  }

  /** `clean` is the verdict of the scan for this upload. */
  function RestoreFile(entries: seq<Entry>, limit: nat, clean: bool, r: Restored, f: FileEntry)
    : Result<Restored, RestoreError>
    requires [] in r.tree.cache
    ensures RestoreFile(entries, limit, clean, r, f).Success? ==>
      [] in RestoreFile(entries, limit, clean, r, f).value.tree.cache
  {
    var tree := Reach(r.tree, f.folderPath);
    match Read(entries, f.contentRef)
    case None => Failure(NoSuchEntry(f.contentRef))
    case Some(content) =>
      if |content| > limit then Success(Restored(tree, r.files, r.skipped + [f.displayName]))
      else
        var row := RestoredFile(tree.cache[f.folderPath], f.displayName, content, clean);
        if Collides(r.files, row) then Failure(NameTaken(f.displayName))
        else Success(Restored(tree, r.files + [row], r.skipped))
  }

  const NOTHING := Restored(ROOT, [], [])

  /** `clean(i)` is the verdict for file number i; an unreachable scanner may give files of the same bytes different
      ones. */
  function RestoreListed(entries: seq<Entry>, limit: nat, clean: nat -> bool, listed: seq<FileEntry>)
    : (r: Result<Restored, RestoreError>)
    ensures r.Success? ==> [] in r.value.tree.cache
    decreases |listed|
  {
    if listed == [] then Success(NOTHING)
    else
      var n := |listed| - 1;
      var before :- RestoreListed(entries, limit, clean, listed[..n]);
      RestoreFile(entries, limit, clean(n), before, listed[n])
  }

  /** The loop of _restore_bucket. */
  method RestoreBucket(
      restorer: BucketRestorer, entries: seq<Entry>, limit: nat, clean: nat -> bool, listed: seq<FileEntry>)
    returns (error: Option<RestoreError>, files: seq<RestoredFile>, skipped: seq<string>)
    requires restorer.View() == ROOT
    modifies restorer
    ensures
      match RestoreListed(entries, limit, clean, listed)
      case Success(r) => error == None && r == Restored(restorer.View(), files, skipped)
      case Failure(e) => error == Some(e)
  {
    files, skipped := [], [];
    for i := 0 to |listed|
      invariant RestoreListed(entries, limit, clean, listed[..i]) == Success(Restored(restorer.View(), files, skipped))
    {
      assert listed[..i + 1][..i] == listed[..i];
      ghost var so_far := Restored(restorer.View(), files, skipped);
      var folder := restorer.GetOrCreateFolder(listed[i].folderPath);
      var content := Read(entries, listed[i].contentRef);
      if content.None? {
        StopsAt(entries, limit, clean, listed, i, so_far, NoSuchEntry(listed[i].contentRef));
        return Some(NoSuchEntry(listed[i].contentRef)), files, skipped;
      }
      if |content.value| > limit {
        skipped := skipped + [listed[i].displayName];
      } else {
        var row := RestoredFile(folder, listed[i].displayName, content.value, clean(i));
        if Collides(files, row) {
          StopsAt(entries, limit, clean, listed, i, so_far, NameTaken(listed[i].displayName));
          return Some(NameTaken(listed[i].displayName)), files, skipped;
        }
        files := files + [row];
      }
    }
    assert listed[..|listed|] == listed;
    return None, files, skipped;
  }

  lemma {:induction false} StopsAt(
      entries: seq<Entry>, limit: nat, clean: nat -> bool, listed: seq<FileEntry>, i: nat, r: Restored, e: RestoreError)
    requires i < |listed| && RestoreListed(entries, limit, clean, listed[..i]) == Success(r)
    requires [] in r.tree.cache && RestoreFile(entries, limit, clean(i), r, listed[i]) == Failure(e)
    ensures RestoreListed(entries, limit, clean, listed) == Failure(e)
    decreases |listed|
  {
    hide RestoreFile;
    var n := |listed| - 1;
    if i < n {
      assert listed[..n][..i] == listed[..i];
      StopsAt(entries, limit, clean, listed[..n], i, r, e);
    }
  }

  // ---------- the round trip ----------

  predicate AllStored(storage: map<Key, Bytes>, files: seq<BucketFile>) {
    forall i :: 0 <= i < |files| ==> files[i].objectKey in storage
  }

  predicate Fits(storage: map<Key, Bytes>, limit: nat, f: BucketFile)
    requires f.objectKey in storage
  {
    |storage[f.objectKey]| <= limit
  }

  /** The numbers of the files within the limit, in order. */
  function Fitting(storage: map<Key, Bytes>, limit: nat, files: seq<BucketFile>): (kept: seq<nat>)
    requires AllStored(storage, files)
    ensures |kept| <= |files|
    ensures forall k :: 0 <= k < |kept| ==> kept[k] < |files| && Fits(storage, limit, files[kept[k]])
    ensures forall k, l :: 0 <= k < l < |kept| ==> kept[k] < kept[l]
    ensures forall i :: 0 <= i < |files| && Fits(storage, limit, files[i]) ==> i in kept
    decreases |files|
  {
    if files == [] then []
    else
      var n := |files| - 1;
      Fitting(storage, limit, files[..n]) + (if Fits(storage, limit, files[n]) then [n] else [])
  }

  /** The restored file is the source file: its folder, the one cached for its path, has the same path, and its name and
      bytes are the same. */
  ghost predicate SameFile(source: Folders, storage: map<Key, Bytes>, f: BucketFile, target: Trie, r: RestoredFile) {
    && Forest(source) && InTree(source, f) && f.objectKey in storage
    && SoundTrie(target) && (r.folder.Some? ==> r.folder.value in target.folders)
    && FolderPath(target.folders, r.folder) == FolderPath(source, f.folder)
    && FolderPath(source, f.folder) in target.cache && target.cache[FolderPath(source, f.folder)] == r.folder
    && r.displayName == f.displayName && r.content == storage[f.objectKey]
  }

  /** What is read back for each listed file. */
  ghost predicate Resolves(storage: map<Key, Bytes>, entries: seq<Entry>, source: Folders, files: seq<BucketFile>, listed: seq<FileEntry>)
    requires Forest(source)
  {
    && |listed| == |files|
    && (forall i :: 0 <= i < |files| ==>
          && InTree(source, files[i]) && files[i].objectKey in storage
          && listed[i].folderPath == FolderPath(source, files[i].folder)
          && listed[i].displayName == files[i].displayName
          && Read(entries, listed[i].contentRef) == Some(storage[files[i].objectKey]))
  }

  lemma {:induction false} LaterFoldersChangeNothing(
      source: Folders, storage: map<Key, Bytes>, f: BucketFile, target: Trie, path: Path, r: RestoredFile)
    requires SameFile(source, storage, f, target, r)
    ensures SameFile(source, storage, f, Reach(target, path), r)
  {
    SoundHasRoot(target);
    hide Reach, CacheNamesFolders, EveryFolderCached;
    ReachKeepsSound(target, path);
    ReachKeepsCache(target, path);
    ReachKeepsFolders(target, path);
    PathsStay(target.folders, Reach(target, path).folders, r.folder);
  }

  lemma {:induction false} ReachKeepsFolders(t: Trie, path: Path)
    requires SoundTrie(t)
    ensures forall g :: g in t.folders ==> g in Reach(t, path).folders && Reach(t, path).folders[g] == t.folders[g]
    decreases |path|
  {
    hide SoundTrie;
    SoundHasRoot(t);
    if path !in t.cache {
      ReachKeepsFolders(t, Parent(path));
      ReachKeepsSound(t, Parent(path));
      FreshIsFree(Reach(t, Parent(path)));
    }
  }

  lemma SoundHasRoot(t: Trie)
    requires SoundTrie(t)
    ensures [] in t.cache && t.cache[[]] == None
  {
  }

  lemma FreshIsFree(t: Trie)
    requires SoundTrie(t)
    ensures t.next !in t.folders
  {
  }

  /** The files within the limit are there, in order, each active exactly if its scan was clean, and the others were
      skipped. */
  ghost predicate ComeBack(
      storage: map<Key, Bytes>, limit: nat, clean: nat -> bool, source: Folders, files: seq<BucketFile>, r: Restored)
    requires AllStored(storage, files)
  {
    var kept := Fitting(storage, limit, files);
    && SoundTrie(r.tree)
    && |r.files| == |kept| && |r.skipped| == |files| - |kept|
    && (forall k :: 0 <= k < |kept| ==>
          SameFile(source, storage, files[kept[k]], r.tree, r.files[k]) && r.files[k].active == clean(kept[k]))
  }

  /** Files i and j would both become active, in folders of one path below the root, under one name. */
  ghost predicate Clash(
      storage: map<Key, Bytes>, limit: nat, clean: nat -> bool, source: Folders, files: seq<BucketFile>, i: nat, j: nat)
    requires Forest(source) && AllInTree(source, files) && AllStored(storage, files) && i < |files| && j < |files|
  {
    && Fits(storage, limit, files[i]) && clean(i) && Fits(storage, limit, files[j]) && clean(j)
    && files[i].displayName == files[j].displayName
    && FolderPath(source, files[i].folder) == FolderPath(source, files[j].folder) != []
  }

  ghost predicate Clashes(
      storage: map<Key, Bytes>, limit: nat, clean: nat -> bool, source: Folders, files: seq<BucketFile>)
    requires Forest(source) && AllInTree(source, files) && AllStored(storage, files)
  {
    exists i, j :: 0 <= i < j < |files| && Clash(storage, limit, clean, source, files, i, j)
  }

  /** Success exactly without a clash, and then all that fits is back; a clash takes a name twice. */
  ghost predicate BackExactly(
      storage: map<Key, Bytes>, limit: nat, clean: nat -> bool, source: Folders, files: seq<BucketFile>,
      result: Result<Restored, RestoreError>)
    requires Forest(source) && AllInTree(source, files) && AllStored(storage, files)
  {
    if Clashes(storage, limit, clean, source, files) then result.Failure? && result.error.NameTaken?
    else result.Success? && ComeBack(storage, limit, clean, source, files, result.value)
  }

  lemma {:induction false} ResolvedFilesComeBackExactly(
      storage: map<Key, Bytes>, entries: seq<Entry>, limit: nat, clean: nat -> bool,
      source: Folders, files: seq<BucketFile>, listed: seq<FileEntry>)
    requires Forest(source) && Resolves(storage, entries, source, files, listed)
    requires AllStored(storage, files) && AllInTree(source, files)
    ensures BackExactly(storage, limit, clean, source, files, RestoreListed(entries, limit, clean, listed))
    decreases |files|
  {
    hide SoundTrie, SameFile;
    if files == [] {
      RootIsSound();
    } else {
      var n := |files| - 1;
      hide Reach, ComeBack, RestoreFile, Clash, Resolves;
      ResolvesEarlier(storage, entries, source, files, listed);
      ResolvedFilesComeBackExactly(storage, entries, limit, clean, source, files[..n], listed[..n]);
      ClashesEarlierOrLast(storage, limit, clean, source, files);
      if RestoreListed(entries, limit, clean, listed[..n]).Success? {
        var before := RestoreListed(entries, limit, clean, listed[..n]).value;
        NextFileComesBackExactly(storage, entries, limit, clean, source, files, listed, before);
      }
    }
  }

  lemma ResolvesEarlier(
      storage: map<Key, Bytes>, entries: seq<Entry>, source: Folders, files: seq<BucketFile>, listed: seq<FileEntry>)
    requires Forest(source) && Resolves(storage, entries, source, files, listed) && files != []
    ensures |listed| == |files|
    ensures Resolves(storage, entries, source, files[..|files| - 1], listed[..|files| - 1])
  {
    hide FolderPath, Read;
  }

  ghost predicate ClashesWithLast(
      storage: map<Key, Bytes>, limit: nat, clean: nat -> bool, source: Folders, files: seq<BucketFile>)
    requires Forest(source) && AllInTree(source, files) && AllStored(storage, files) && files != []
  {
    var n := |files| - 1;
    exists i :: 0 <= i < n && Clash(storage, limit, clean, source, files, i, n)
  }

  lemma ClashesEarlierOrLast(
      storage: map<Key, Bytes>, limit: nat, clean: nat -> bool, source: Folders, files: seq<BucketFile>)
    requires Forest(source) && AllInTree(source, files) && AllStored(storage, files) && files != []
    ensures Clashes(storage, limit, clean, source, files)
      <==> || Clashes(storage, limit, clean, source, files[..|files| - 1])
           || ClashesWithLast(storage, limit, clean, source, files)
  {
    hide FolderPath;
    var n := |files| - 1;
    forall i, j | 0 <= i < j < n
      ensures Clash(storage, limit, clean, source, files[..n], i, j) <==> Clash(storage, limit, clean, source, files, i, j)
    {
    }
  }

  /** The next file collides exactly if it clashes with an earlier one. */
  lemma NextFileComesBackExactly(
      storage: map<Key, Bytes>, entries: seq<Entry>, limit: nat, clean: nat -> bool,
      source: Folders, files: seq<BucketFile>, listed: seq<FileEntry>, before: Restored)
    requires Forest(source) && Resolves(storage, entries, source, files, listed)
    requires AllStored(storage, files) && AllInTree(source, files)
    requires files != [] && [] in before.tree.cache
    requires ComeBack(storage, limit, clean, source, files[..|files| - 1], before)
    ensures
      var result := RestoreFile(entries, limit, clean(|files| - 1), before, listed[|files| - 1]);
      if ClashesWithLast(storage, limit, clean, source, files) then result.Failure? && result.error.NameTaken?
      else result.Success? && ComeBack(storage, limit, clean, source, files, result.value)
  {
    hide SoundTrie, Reach, SameFile, FolderPath, Read, Clash, ComeBack, Collides, ClashesWithLast, Fitting, Fits;
    var n := |files| - 1;
    var path := listed[n].folderPath;
    var tree := Reach(before.tree, path);
    ReadsLast(storage, entries, source, files, listed);
    TreeIsSound(storage, limit, clean, source, files[..n], before);
    ReachKeepsSound(before.tree, path);
    PlacedFileIsSame(storage, entries, source, files, listed, n, before.tree, clean(n));
    EarlierFilesStay(storage, limit, clean, source, files, before, path);
    var row := RestoredFile(tree.cache[path], listed[n].displayName, storage[files[n].objectKey], clean(n));
    if Fits(storage, limit, files[n]) {
      CollidesExactly(storage, limit, clean, source, files, Fitting(storage, limit, files[..n]), before.files, tree, row);
      LastComesBack(storage, limit, clean, source, files, before, tree, row);
    } else {
      NoClashWithLarge(storage, limit, clean, source, files);
      LastIsSkipped(storage, limit, clean, source, files, before, tree, listed[n].displayName);
    }
    SizeDecides(storage, limit, files[n]);
  }

  lemma SizeDecides(storage: map<Key, Bytes>, limit: nat, f: BucketFile)
    requires f.objectKey in storage
    ensures Fits(storage, limit, f) <==> |storage[f.objectKey]| <= limit
  {
  }

  lemma {:induction false} ReadsLast(
      storage: map<Key, Bytes>, entries: seq<Entry>, source: Folders, files: seq<BucketFile>, listed: seq<FileEntry>)
    requires Forest(source) && Resolves(storage, entries, source, files, listed) && files != []
    ensures |listed| == |files| && files[|files| - 1].objectKey in storage
    ensures Read(entries, listed[|files| - 1].contentRef) == Some(storage[files[|files| - 1].objectKey])
  {
    hide FolderPath, Read;
  }

  lemma TreeIsSound(
      storage: map<Key, Bytes>, limit: nat, clean: nat -> bool, source: Folders, files: seq<BucketFile>, r: Restored)
    requires AllStored(storage, files) && ComeBack(storage, limit, clean, source, files, r)
    ensures SoundTrie(r.tree) && |r.skipped| == |files| - |r.files|
  {
    hide SoundTrie, SameFile;
  }

  /** The rows restored before the last file, seen against a tree. */
  ghost predicate EarlierBack(
      storage: map<Key, Bytes>, limit: nat, clean: nat -> bool, source: Folders, files: seq<BucketFile>,
      restored: seq<RestoredFile>, tree: Trie)
    requires AllStored(storage, files) && files != []
  {
    var kept := Fitting(storage, limit, files[..|files| - 1]);
    && |restored| == |kept|
    && (forall k :: 0 <= k < |kept| ==>
          SameFile(source, storage, files[kept[k]], tree, restored[k]) && restored[k].active == clean(kept[k]))
  }

  lemma {:induction false} EarlierFilesStay(
      storage: map<Key, Bytes>, limit: nat, clean: nat -> bool, source: Folders, files: seq<BucketFile>,
      before: Restored, path: Path)
    requires AllStored(storage, files) && files != []
    requires ComeBack(storage, limit, clean, source, files[..|files| - 1], before)
    requires [] in before.tree.cache
    ensures EarlierBack(storage, limit, clean, source, files, before.files, Reach(before.tree, path))
  {
    hide SoundTrie, Reach, SameFile, Fits;
    var n := |files| - 1;
    var kept := Fitting(storage, limit, files[..n]);
    forall k | 0 <= k < |kept|
      ensures SameFile(source, storage, files[kept[k]], Reach(before.tree, path), before.files[k])
    {
      assert files[..n][kept[k]] == files[kept[k]];
      LaterFoldersChangeNothing(source, storage, files[kept[k]], before.tree, path, before.files[k]);
    }
  }

  lemma LastComesBack(
      storage: map<Key, Bytes>, limit: nat, clean: nat -> bool, source: Folders, files: seq<BucketFile>,
      before: Restored, tree: Trie, row: RestoredFile)
    requires AllStored(storage, files) && files != [] && Fits(storage, limit, files[|files| - 1])
    requires EarlierBack(storage, limit, clean, source, files, before.files, tree)
    requires |before.skipped| == |files| - 1 - |before.files|
    requires SameFile(source, storage, files[|files| - 1], tree, row) && row.active == clean(|files| - 1)
    requires SoundTrie(tree)
    ensures ComeBack(storage, limit, clean, source, files, Restored(tree, before.files + [row], before.skipped))
  {
    hide SoundTrie, SameFile, Fits;
  }

  lemma LastIsSkipped(
      storage: map<Key, Bytes>, limit: nat, clean: nat -> bool, source: Folders, files: seq<BucketFile>,
      before: Restored, tree: Trie, name: string)
    requires AllStored(storage, files) && files != [] && !Fits(storage, limit, files[|files| - 1])
    requires EarlierBack(storage, limit, clean, source, files, before.files, tree)
    requires |before.skipped| == |files| - 1 - |before.files|
    requires SoundTrie(tree)
    ensures ComeBack(storage, limit, clean, source, files, Restored(tree, before.files, before.skipped + [name]))
  {
    hide SoundTrie, SameFile, Fits;
  }

  lemma NoClashWithLarge(
      storage: map<Key, Bytes>, limit: nat, clean: nat -> bool, source: Folders, files: seq<BucketFile>)
    requires Forest(source) && AllInTree(source, files) && AllStored(storage, files) && files != []
    requires !Fits(storage, limit, files[|files| - 1])
    ensures !ClashesWithLast(storage, limit, clean, source, files)
  {
  }

  lemma {:induction false} CollidesExactly(
      storage: map<Key, Bytes>, limit: nat, clean: nat -> bool, source: Folders, files: seq<BucketFile>, kept: seq<nat>,
      restored: seq<RestoredFile>, tree: Trie, row: RestoredFile)
    requires Forest(source) && AllInTree(source, files) && AllStored(storage, files) && files != []
    requires kept == Fitting(storage, limit, files[..|files| - 1])
    requires EarlierBack(storage, limit, clean, source, files, restored, tree)
    requires SameFile(source, storage, files[|files| - 1], tree, row) && row.active == clean(|files| - 1)
    requires Fits(storage, limit, files[|files| - 1])
    ensures Collides(restored, row) <==> ClashesWithLast(storage, limit, clean, source, files)
  {
    var n := |files| - 1;
    hide SoundTrie, FolderPath;
    RootHasNoFolder(tree, row);
    if Collides(restored, row) {
      var k :| 0 <= k < |restored| && restored[k].active && restored[k].folder == row.folder
               && restored[k].displayName == row.displayName;
      assert files[..n][kept[k]] == files[kept[k]];
      assert Clash(storage, limit, clean, source, files, kept[k], n);
    }
    if ClashesWithLast(storage, limit, clean, source, files) {
      var i :| 0 <= i < n && Clash(storage, limit, clean, source, files, i, n);
      assert files[..n][i] == files[i];
      assert i in kept;
      var k :| 0 <= k < |kept| && kept[k] == i;
      assert restored[k].folder == row.folder;
    }
  }

  lemma RootHasNoFolder(t: Trie, r: RestoredFile)
    requires SoundTrie(t) && (r.folder.Some? ==> r.folder.value in t.folders)
    ensures r.folder.None? <==> FolderPath(t.folders, r.folder) == []
  {
  }

  lemma {:induction false} PlacedFileIsSame(
      storage: map<Key, Bytes>, entries: seq<Entry>, source: Folders, files: seq<BucketFile>, listed: seq<FileEntry>, n: nat,
      t: Trie, active: bool)
    requires Forest(source) && Resolves(storage, entries, source, files, listed) && n < |files| && SoundTrie(t)
    ensures
      var tree := Reach(t, listed[n].folderPath);
      && listed[n].folderPath in tree.cache
      && SameFile(source, storage, files[n], tree,
           RestoredFile(tree.cache[listed[n].folderPath], listed[n].displayName, storage[files[n].objectKey], active))
  {
    SoundHasRoot(t);
    ReachKeepsSound(t, listed[n].folderPath);
    hide SoundTrie, Reach;
    CachedPath(Reach(t, listed[n].folderPath), listed[n].folderPath);
  }

  /** From one organisation to another: take any bucket whose folders the create call built up, and any export that
      contains it, de-duplicated against everything else in the package; let every file's stored object be intact (and
      the hash collision-free). Restoring the bucket's part of the package succeeds if and only if no two files that fit
      the upload limit and pass the scan share a folder path below the root and a name. It then uploads exactly the
      files within the limit, in order, each with its own bytes and name in a folder of the same path, and skips the
      others; otherwise the name of the second such file is taken, which stops the restore. */
  lemma BucketComesBackExactly(
      sha: Bytes -> Digest, storage: map<Key, Bytes>, manifest: Bytes, limit: nat, clean: nat -> bool,
      before: seq<Part>, calls: seq<FolderStore.Call>, bucket: nat, files: seq<BucketFile>, after: seq<Part>)
    requires CollisionFree(sha)
    requires AllInTree(FolderStore.InBucket(FolderStore.Run(calls), bucket), files)
    requires AllStored(storage, files)
    requires forall i :: 0 <= i < |files| ==> sha(storage[files[i].objectKey]) == files[i].checksum
    ensures
      var source := FolderStore.InBucket(FolderStore.Run(calls), bucket);
      && Forest(source)
      && var parts := before + [BucketPart(Exported(source, files))] + after;
      DistinctIds(parts) && BuildExport(sha, storage, parts, manifest).Success? ==>
        var p := BuildExport(sha, storage, parts, manifest).value;
        var start := |Files(before)|;
        && start + |files| <= |p.listed|
        && BackExactly(storage, limit, clean, source, files,
             RestoreListed(p.archive.entries, limit, clean, p.listed[start..start + |files|]))
  {
    hide BuildExport, RestoreListed, ComeBack, DistinctIds, Resolves, Files, Exported, FolderStore.InBucket,
      FolderStore.Run, AllInTree, AllStored, Forest, CollisionFree, BackExactly;
    FolderStore.ReachableFoldersAreForests(calls, bucket);
    var source := FolderStore.InBucket(FolderStore.Run(calls), bucket);
    var parts := before + [BucketPart(Exported(source, files))] + after;
    if DistinctIds(parts) && BuildExport(sha, storage, parts, manifest).Success? {
      var p := BuildExport(sha, storage, parts, manifest).value;
      ListedFilesResolve(sha, storage, manifest, before, source, files, after);
      var start := |Files(before)|;
      ResolvedFilesComeBackExactly(
        storage, p.archive.entries, limit, clean, source, files, p.listed[start..start + |files|]);
    }
  }

  // ---------- which buckets come back ----------

  /** The constraint as it holds in the source: its files are active, so no two of them have one folder and name. */
  predicate NamesUnique(files: seq<BucketFile>) {
    forall i, j :: 0 <= i < j < |files| && files[i].folder.Some? && files[i].folder == files[j].folder
      ==> files[i].displayName != files[j].displayName
  }

  /** A bucket without two root folders of one name always comes back. */
  lemma {:induction false} BucketsWithoutTwinRootsDoNotClash(
      storage: map<Key, Bytes>, limit: nat, clean: nat -> bool,
      calls: seq<FolderStore.Call>, bucket: nat, files: seq<BucketFile>)
    requires AllInTree(FolderStore.InBucket(FolderStore.Run(calls), bucket), files)
    requires AllStored(storage, files) && NamesUnique(files)
    requires !FolderStore.TwinRoots(FolderStore.InBucket(FolderStore.Run(calls), bucket))
    ensures Forest(FolderStore.InBucket(FolderStore.Run(calls), bucket))
    ensures !Clashes(storage, limit, clean, FolderStore.InBucket(FolderStore.Run(calls), bucket), files)
  {
    hide FolderStore.Run, FolderStore.InBucket, FolderStore.TwinRoots, Forest;
    FolderStore.PathsAreSharedUnderTwinRootsOnly(calls, bucket);
    var source := FolderStore.InBucket(FolderStore.Run(calls), bucket);
    if i, j :| 0 <= i < j < |files| && Clash(storage, limit, clean, source, files, i, j) {
      ClashSharesPath(storage, limit, clean, source, files, i, j);
    }
  }

  lemma ClashSharesPath(
      storage: map<Key, Bytes>, limit: nat, clean: nat -> bool, source: Folders, files: seq<BucketFile>, i: nat, j: nat)
    requires Forest(source) && AllInTree(source, files) && AllStored(storage, files) && NamesUnique(files)
    requires i < j < |files| && Clash(storage, limit, clean, source, files, i, j)
    ensures FolderStore.SharedPath(source)
  {
    var f, g := files[i].folder, files[j].folder;
    assert InTree(source, files[i]) && InTree(source, files[j]);
    assert f.Some? && g.Some? && f != g;
    assert FolderPath(source, Some(f.value)) == FolderPath(source, Some(g.value));
  }

  const TWINS: seq<FolderStore.Call> := [FolderStore.Call(0, None, "x"), FolderStore.Call(0, None, "x")]

  /** A bucket that the create call accepts and that no restore brings back, in whatever package it is: two root folders
      "x" with an active file "a" in each. */
  lemma {:induction false} TwinRootsStopTheRestore(
      sha: Bytes -> Digest, storage: map<Key, Bytes>, manifest: Bytes, limit: nat, clean: nat -> bool,
      before: seq<Part>, one: BucketFile, two: BucketFile, after: seq<Part>)
    requires CollisionFree(sha)
    requires one.objectKey in storage && sha(storage[one.objectKey]) == one.checksum
    requires two.objectKey in storage && sha(storage[two.objectKey]) == two.checksum
    requires one.folder == Some(0) && two.folder == Some(1) && one.displayName == "a" == two.displayName
    requires Fits(storage, limit, one) && Fits(storage, limit, two) && clean(0) && clean(1)
    ensures
      var source := FolderStore.InBucket(FolderStore.Run(TWINS), 0);
      && NamesUnique([one, two]) && Forest(source) && AllInTree(source, [one, two])
      && var parts := before + [BucketPart(Exported(source, [one, two]))] + after;
      DistinctIds(parts) && BuildExport(sha, storage, parts, manifest).Success? ==>
        var p := BuildExport(sha, storage, parts, manifest).value;
        var start := |Files(before)|;
        && start + 2 <= |p.listed|
        && RestoreListed(p.archive.entries, limit, clean, p.listed[start..start + 2]).Failure?
  {
    TwinsClash(storage, limit, clean, one, two);
    hide BuildExport, RestoreListed, DistinctIds, Files, Exported, FolderStore.InBucket, FolderStore.Run, Clashes,
      ComeBack, CollisionFree, Forest;
    BucketComesBackExactly(sha, storage, manifest, limit, clean, before, TWINS, 0, [one, two], after);
  }

  lemma TwinsClash(storage: map<Key, Bytes>, limit: nat, clean: nat -> bool, one: BucketFile, two: BucketFile)
    requires one.objectKey in storage && two.objectKey in storage
    requires one.folder == Some(0) && two.folder == Some(1) && one.displayName == "a" == two.displayName
    requires Fits(storage, limit, one) && Fits(storage, limit, two) && clean(0) && clean(1)
    ensures
      var source := FolderStore.InBucket(FolderStore.Run(TWINS), 0);
      && NamesUnique([one, two]) && Forest(source) && AllInTree(source, [one, two])
      && Clashes(storage, limit, clean, source, [one, two])
  {
    var x := Folder(None, "x");
    FolderStore.TwoRoots(0, "x");
    var source := FolderStore.InBucket(FolderStore.Run(TWINS), 0);
    assert source == map[0 := x, 1 := x];
    assert FolderPath(source, Some(0)) == ["x"] == FolderPath(source, Some(1));
    assert Clash(storage, limit, clean, source, [one, two], 0, 1);
  }

  lemma {:induction false} ListedFilesResolve(
      sha: Bytes -> Digest, storage: map<Key, Bytes>, manifest: Bytes,
      before: seq<Part>, source: Folders, files: seq<BucketFile>, after: seq<Part>)
    requires CollisionFree(sha) && Forest(source) && AllInTree(source, files) && AllStored(storage, files)
    requires forall i :: 0 <= i < |files| ==> sha(storage[files[i].objectKey]) == files[i].checksum
    requires DistinctIds(before + [BucketPart(Exported(source, files))] + after)
    requires BuildExport(sha, storage, before + [BucketPart(Exported(source, files))] + after, manifest).Success?
    ensures
      var p := BuildExport(sha, storage, before + [BucketPart(Exported(source, files))] + after, manifest).value;
      var start := |Files(before)|;
      && start + |files| <= |p.listed|
      && Resolves(storage, p.archive.entries, source, files, p.listed[start..start + |files|])
  {
    hide BuildExport, DistinctIds, Files, Forest, CollisionFree, FirstsIntact, Checksums, Names, FolderPath, Read;
    var parts := before + [BucketPart(Exported(source, files))] + after;
    FilesAround(before, Exported(source, files), after);
    ExportSucceedsExactly(sha, storage, parts, manifest);
    var p := BuildExport(sha, storage, parts, manifest).value;
    var start := |Files(before)|;
    var listed := p.listed[start..start + |files|];
    forall i | 0 <= i < |files|
      ensures listed[i] == EntryOf(ExportedFile(source, files[i]))
      ensures Read(p.archive.entries, listed[i].contentRef) == Some(storage[files[i].objectKey])
    {
      assert Files(parts)[start + i] == ExportedFile(source, files[i]);
      FileComesBackIntact(sha, storage, parts, manifest, start + i);
    }
  }

  lemma {:induction false} FilesAround(before: seq<Part>, files: seq<SourceFile>, after: seq<Part>)
    ensures Files(before + [BucketPart(files)] + after) == Files(before) + files + Files(after)
    decreases |before|
  {
    var parts := before + [BucketPart(files)] + after;
    if before == [] {
      assert parts[0] == BucketPart(files) && parts[1..] == after;
    } else {
      assert parts[0] == before[0] && parts[1..] == before[1..] + [BucketPart(files)] + after;
      FilesAround(before[1..], files, after);
    }
  }
}
