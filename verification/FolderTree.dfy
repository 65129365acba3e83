/**
 Folders are rows that name their parent.  An export writes a file's folder as the list of names from the
 root; a restore turns such lists back into rows, remembering the folders it has already created.
 */
module FolderTree {
  import opened Wrappers

  type FolderId = nat

  type Path = seq<string>

  datatype Folder = Folder(parent: Option<FolderId>, name: string)

  type Folders = map<FolderId, Folder>

  /** A parent exists when its child is created and never changes, so ids can be taken in creation order. */
  predicate Forest(folders: Folders) {
    forall f :: f in folders && folders[f].parent.Some? ==>
      folders[f].parent.value in folders && folders[f].parent.value < f
  }

  // ---------- _folder_path ----------

  /** The names from the root down to a folder; no folder at all has the empty path. */
  function FolderPath(folders: Folders, f: Option<FolderId>): (path: Path)
    requires Forest(folders) && (f.Some? ==> f.value in folders)
    ensures f.None? <==> path == []
    decreases if f.Some? then f.value + 1 else 0
  {
    if f.None? then [] else FolderPath(folders, folders[f.value].parent) + [folders[f.value].name]
  }

  function Reversed(s: Path): (r: Path)
    ensures |r| == |s|
    ensures forall i :: 0 <= i < |s| ==> r[i] == s[|s| - 1 - i]
  {
    seq(|s|, i requires 0 <= i < |s| => s[|s| - 1 - i])
  }

  method ComputeFolderPath(folders: Folders, folder: Option<FolderId>) returns (path: Path)
    requires Forest(folders) && (folder.Some? ==> folder.value in folders)
    ensures path == FolderPath(folders, folder)
  {
    var up: Path := [];
    var f := folder;
    while f.Some?
      invariant f.Some? ==> f.value in folders
      invariant FolderPath(folders, folder) == FolderPath(folders, f) + Reversed(up)
      decreases if f.Some? then f.value + 1 else 0
    {
      var name := folders[f.value].name;
      assert Reversed(up + [name]) == [name] + Reversed(up);
      up := up + [name];
      f := folders[f.value].parent;
    }
    path := Reversed(up);
  }

  /** New folders do not move old ones. */
  lemma {:induction false} PathsStay(a: Folders, b: Folders, f: Option<FolderId>)
    requires Forest(a) && Forest(b) && (f.Some? ==> f.value in a)
    requires forall g :: g in a ==> g in b && b[g] == a[g]
    ensures FolderPath(b, f) == FolderPath(a, f)
    decreases if f.Some? then f.value + 1 else 0
  {
    if f.Some? {
      PathsStay(a, b, a[f.value].parent);
    }
  }

  // ---------- plain lookup ----------

  /** The folder reached from the root by following names, taking at each level any child of that name. */
  predicate LeadsTo(folders: Folders, path: Path, f: Option<FolderId>)
    decreases |path|
  {
    if path == [] then f == None
    else
      f.Some? && f.value in folders && folders[f.value].name == path[|path| - 1]
      && LeadsTo(folders, path[..|path| - 1], folders[f.value].parent)
  }

  lemma {:induction false} LookupFollowsPath(folders: Folders, path: Path, f: Option<FolderId>)
    requires Forest(folders) && (f.Some? ==> f.value in folders)
    ensures LeadsTo(folders, path, f) <==> FolderPath(folders, f) == path
    decreases |path|
  {
    if path != [] && f.Some? {
      var parent := folders[f.value].parent;
      LookupFollowsPath(folders, path[..|path| - 1], parent);
      var up := FolderPath(folders, parent);
      assert (up + [folders[f.value].name])[..|up|] == up;
      assert path == path[..|path| - 1] + [path[|path| - 1]];
    }
  }

  // ---------- the memoised creation ----------

  /** The folder rows of one bucket and the cache of the paths restored so far. */
  datatype Trie = Trie(folders: Folders, next: FolderId, cache: map<Path, Option<FolderId>>)

  const ROOT := Trie(map[], 0, map[[] := None])

  function Parent(path: Path): Path
    requires path != []
  {
    path[..|path| - 1]
  }

  function Add(t: Trie, path: Path): Trie
    requires path != [] && Parent(path) in t.cache
  {
    Trie(t.folders[t.next := Folder(t.cache[Parent(path)], path[|path| - 1])],
         t.next + 1,
         t.cache[path := Some(t.next)])
  }

  /** Creates what is missing on the way to `path`. */
  function Reach(t: Trie, path: Path): (r: Trie)
    requires [] in t.cache
    ensures path in r.cache
    ensures [] in r.cache
    decreases |path|
  {
    if path in t.cache then t else Add(Reach(t, Parent(path)), path)
  }

  function ReachAll(t: Trie, paths: seq<Path>): (r: Trie)
    requires [] in t.cache
    ensures [] in r.cache
    decreases |paths|
  {
    if paths == [] then t else Reach(ReachAll(t, paths[..|paths| - 1]), paths[|paths| - 1])
  }

  class BucketRestorer {
    var folders: Folders
    var next: FolderId
    var cache: map<Path, Option<FolderId>>

    constructor ()
      ensures View() == ROOT
    {
      folders, next, cache := map[], 0, map[[] := None];
    }

    ghost function View(): Trie
      reads this
    {
      Trie(folders, next, cache)
    }

    method GetOrCreateFolder(path: Path) returns (f: Option<FolderId>)
      requires [] in cache
      modifies this
      ensures View() == Reach(old(View()), path) && f == cache[path]
      decreases |path|
    {
      if path in cache {
        return cache[path];
      }
      var parent := GetOrCreateFolder(Parent(path));
      f := Some(next);
      folders := folders[next := Folder(parent, path[|path| - 1])];
      cache := cache[path := f];
      next := next + 1;
    }

    /** The folders of a list of files; `placed[i]` is the folder of file i. */
    method RestoreFolders(paths: seq<Path>) returns (placed: seq<Option<FolderId>>)
      requires View() == ROOT
      modifies this
      ensures View() == ReachAll(ROOT, paths)
      ensures |placed| == |paths|
      ensures forall i :: 0 <= i < |paths| ==> paths[i] in cache && placed[i] == cache[paths[i]]
    {
      placed := [];
      for i := 0 to |paths|
        invariant View() == ReachAll(ROOT, paths[..i]) && |placed| == i
        invariant forall k :: 0 <= k < i ==> paths[k] in cache && placed[k] == cache[paths[k]]
      {
        assert paths[..i + 1][..i] == paths[..i];
        ReachKeepsCache(View(), paths[i]);
        var f := GetOrCreateFolder(paths[i]);
        placed := placed + [f];
      }
      assert paths[..|paths|] == paths;
    }
  }

  lemma {:induction false} ReachKeepsCache(t: Trie, path: Path)
    requires [] in t.cache
    ensures forall p :: p in t.cache ==> p in Reach(t, path).cache && (Reach(t, path).cache[p] == t.cache[p])
    decreases |path|
  {
    if path !in t.cache {
      ReachKeepsCache(t, Parent(path));
      ReachCachesOnlyPrefixes(t, Parent(path));
    }
  }

  /** Exactly the missing prefixes are added. */
  lemma {:induction false} ReachCachesOnlyPrefixes(t: Trie, path: Path)
    requires [] in t.cache
    ensures forall p :: p in Reach(t, path).cache && p !in t.cache ==> |p| <= |path| && p == path[..|p|]
    decreases |path|
  {
    if path !in t.cache {
      ReachCachesOnlyPrefixes(t, Parent(path));
    }
  }

  // ---------- what the trie keeps ----------

  ghost predicate CacheNamesFolders(t: Trie) {
    && [] in t.cache && t.cache[[]] == None
    && (forall p :: p in t.cache && p != [] ==>
          && t.cache[p].Some? && t.cache[p].value in t.folders && Parent(p) in t.cache
          && t.folders[t.cache[p].value] == Folder(t.cache[Parent(p)], p[|p| - 1]))
  }

  ghost predicate EveryFolderCached(t: Trie) {
    forall f :: f in t.folders ==> exists p :: p in t.cache && t.cache[p] == Some(f)
  }

  ghost predicate SoundTrie(t: Trie) {
    && Forest(t.folders) && (forall f :: f in t.folders ==> f < t.next)
    && CacheNamesFolders(t) && EveryFolderCached(t)
  }

  lemma CachedIsFolder(t: Trie, p: Path)
    requires SoundTrie(t) && p in t.cache
    ensures t.cache[p].Some? ==> t.cache[p].value in t.folders && t.cache[p].value < t.next
  {
  }

  lemma AddKeepsSound(t: Trie, path: Path)
    requires SoundTrie(t) && path != [] && path !in t.cache && Parent(path) in t.cache
    ensures SoundTrie(Add(t, path))
  {
    CachedIsFolder(t, Parent(path));
    AddKeepsForest(t, path);
    AddKeepsCached(t, path);
    AddKeepsNames(t, path);
    hide EveryFolderCached, CacheNamesFolders, Forest, Add;
  }

  lemma AddKeepsForest(t: Trie, path: Path)
    requires Forest(t.folders) && path != [] && Parent(path) in t.cache
    requires forall f :: f in t.folders ==> f < t.next
    requires t.cache[Parent(path)].Some? ==> t.cache[Parent(path)].value in t.folders
    ensures Forest(Add(t, path).folders)
    ensures forall f :: f in Add(t, path).folders ==> f < Add(t, path).next
  {
  }

  lemma AddKeepsCached(t: Trie, path: Path)
    requires EveryFolderCached(t) && path != [] && path !in t.cache && Parent(path) in t.cache
    ensures EveryFolderCached(Add(t, path))
  {
    var r := Add(t, path);
    forall f | f in r.folders ensures exists p :: p in r.cache && r.cache[p] == Some(f) {
      if f == t.next {
        assert r.cache[path] == Some(f);
      } else {
        var p :| p in t.cache && t.cache[p] == Some(f);
        assert r.cache[p] == Some(f);
      }
    }
  }

  lemma AddKeepsNames(t: Trie, path: Path)
    requires CacheNamesFolders(t) && path != [] && path !in t.cache && Parent(path) in t.cache
    requires forall f :: f in t.folders ==> f < t.next
    ensures CacheNamesFolders(Add(t, path))
  {
  }

  lemma {:induction false} ReachKeepsSound(t: Trie, path: Path)
    requires SoundTrie(t)
    ensures SoundTrie(Reach(t, path))
    decreases |path|
  {
    hide EveryFolderCached, Forest;
    if path !in t.cache {
      ReachKeepsSound(t, Parent(path));
      ReachCachesOnlyPrefixes(t, Parent(path));
      AddKeepsSound(Reach(t, Parent(path)), path);
    }
  }

  lemma {:induction false} ReachAllKeepsSound(paths: seq<Path>)
    ensures SoundTrie(ReachAll(ROOT, paths))
    decreases |paths|
  {
    hide SoundTrie;
    if paths == [] {
      RootIsSound();
    } else {
      ReachAllKeepsSound(paths[..|paths| - 1]);
      assert [] in ReachAll(ROOT, paths[..|paths| - 1]).cache;
      ReachKeepsSound(ReachAll(ROOT, paths[..|paths| - 1]), paths[|paths| - 1]);
    }
  }

  lemma RootIsSound()
    ensures SoundTrie(ROOT)
  {
  }

  /** The cache agrees with plain lookup: what it holds for a path is where the path leads. */
  lemma {:induction false} CacheAgreesWithLookup(t: Trie, p: Path)
    requires SoundTrie(t) && p in t.cache
    ensures t.cache[p].Some? ==> t.cache[p].value in t.folders
    ensures LeadsTo(t.folders, p, t.cache[p])
    decreases |p|
  {
    hide EveryFolderCached;
    if p != [] {
      CacheAgreesWithLookup(t, Parent(p));
    }
  }

  /** p is a prefix of a listed path. */
  predicate IsUsed(paths: seq<Path>, p: Path) {
    exists i :: 0 <= i < |paths| && |p| <= |paths[i]| && p == paths[i][..|p|]
  }

  lemma {:induction false} ReachCachesPrefixes(t: Trie, path: Path, k: nat)
    requires SoundTrie(t) && k <= |path|
    ensures path[..k] in Reach(t, path).cache
    decreases |path|
  {
    hide EveryFolderCached, Forest;
    ReachKeepsSound(t, path);
    if k == |path| {
      assert path[..k] == path;
    } else {
      ShorterIsCached(Reach(t, path), path, k);
    }
  }

  lemma {:induction false} ShorterIsCached(t: Trie, path: Path, k: nat)
    requires CacheNamesFolders(t) && path in t.cache && k <= |path|
    ensures path[..k] in t.cache
    decreases |path|
  {
    if k < |path| {
      ShorterIsCached(t, Parent(path), k);
      assert Parent(path)[..k] == path[..k];
    } else {
      assert path[..k] == path;
    }
  }

  lemma {:induction false} CacheIsUsedPrefixes(paths: seq<Path>, p: Path)
    ensures p in ReachAll(ROOT, paths).cache <==> p == [] || IsUsed(paths, p)
    decreases |paths|
  {
    hide SoundTrie;
    if paths != [] {
      var before, last := paths[..|paths| - 1], paths[|paths| - 1];
      CacheIsUsedPrefixes(before, p);
      var t := ReachAll(ROOT, before);
      ReachAllKeepsSound(before);
      ReachKeepsCache(t, last);
      ReachCachesOnlyPrefixes(t, last);
      if |p| <= |last| && p == last[..|p|] {
        ReachCachesPrefixes(t, last, |p|);
      }
      if IsUsed(before, p) {
        var i :| 0 <= i < |before| && |p| <= |before[i]| && p == before[i][..|p|];
        assert paths[i] == before[i];
      }
      if IsUsed(paths, p) {
        var i :| 0 <= i < |paths| && |p| <= |paths[i]| && p == paths[i][..|p|];
        if i < |before| {
          assert before[i] == paths[i];
          assert IsUsed(before, p);
        }
      }
    }
  }

  // ---------- the round trip ----------

  /** After restoring any list of files there is exactly one folder for each non-empty prefix of the listed
      paths, and each file's folder has the path it was exported with. */
  lemma {:induction false} RestoredFoldersMatchPaths(paths: seq<Path>)
    ensures
      var t := ReachAll(ROOT, paths);
      && Forest(t.folders)
      && (forall i :: 0 <= i < |paths| ==>
            paths[i] in t.cache && (t.cache[paths[i]].Some? ==> t.cache[paths[i]].value in t.folders)
            && FolderPath(t.folders, t.cache[paths[i]]) == paths[i])
      && (forall f :: f in t.folders ==> IsUsed(paths, FolderPath(t.folders, Some(f))))
      && (forall p :: p != [] && IsUsed(paths, p) ==>
            exists f :: f in t.folders && FolderPath(t.folders, Some(f)) == p)
      && (forall f, g :: f in t.folders && g in t.folders && f != g ==>
            FolderPath(t.folders, Some(f)) != FolderPath(t.folders, Some(g)))
  {
    hide LeadsTo, CacheNamesFolders, Reach, ReachAll;
    var t := ReachAll(ROOT, paths);
    ReachAllKeepsSound(paths);
    forall i | 0 <= i < |paths|
      ensures paths[i] in t.cache && (t.cache[paths[i]].Some? ==> t.cache[paths[i]].value in t.folders)
              && FolderPath(t.folders, t.cache[paths[i]]) == paths[i]
    {
      assert paths[i] == paths[i][..|paths[i]|];
      assert IsUsed(paths, paths[i]);
      CacheIsUsedPrefixes(paths, paths[i]);
      CachedPath(t, paths[i]);
    }
    forall f | f in t.folders
      ensures IsUsed(paths, FolderPath(t.folders, Some(f)))
              && FolderPath(t.folders, Some(f)) in t.cache && t.cache[FolderPath(t.folders, Some(f))] == Some(f)
    {
      var p :| p in t.cache && t.cache[p] == Some(f);
      CachedPath(t, p);
      CacheIsUsedPrefixes(paths, p);
    }
    forall p | p != [] && IsUsed(paths, p)
      ensures exists f :: f in t.folders && FolderPath(t.folders, Some(f)) == p
    {
      CacheIsUsedPrefixes(paths, p);
      CachedPath(t, p);
      assert FolderPath(t.folders, t.cache[p]) == p;
      assert t.cache[p] == Some(t.cache[p].value);
    }
  }

  lemma CachedPath(t: Trie, p: Path)
    requires SoundTrie(t) && p in t.cache
    ensures t.cache[p].Some? ==> t.cache[p].value in t.folders
    ensures FolderPath(t.folders, t.cache[p]) == p
  {
    CacheAgreesWithLookup(t, p);
    LookupFollowsPath(t.folders, p, t.cache[p]);
  }

  /** Two files are restored into the same folder exactly when their folders had the same path: folders of
      one name side by side, which the uniqueness rule allows at the root of a bucket, become one, and what that does
      to a restore in which two of their files have one name is BucketRoundTrip.BucketComesBackExactly. */
  lemma {:induction false} SamePathSameFolder(source: Folders, files: seq<Option<FolderId>>, i: nat, j: nat)
    requires Forest(source) && forall k :: 0 <= k < |files| ==> (files[k].Some? ==> files[k].value in source)
    requires i < |files| && j < |files|
    ensures
      var paths := seq(|files|, k requires 0 <= k < |files| => FolderPath(source, files[k]));
      var t := ReachAll(ROOT, paths);
      paths[i] in t.cache && paths[j] in t.cache
      && (t.cache[paths[i]] == t.cache[paths[j]] <==> FolderPath(source, files[i]) == FolderPath(source, files[j]))
  {
    hide ReachAll, IsUsed;
    RestoredFoldersMatchPaths(seq(|files|, k requires 0 <= k < |files| => FolderPath(source, files[k])));
  }
}
