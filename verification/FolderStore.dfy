/** The folder table of all buckets, as the create call builds it up. */
module FolderStore {
  import opened Wrappers
  import opened FolderTree

  type BucketId = nat

  datatype Row = Row(bucket: BucketId, folder: Folder)

  /** Folders are only ever created, so a folder's id is its place in the order of creation. */
  type Store = seq<Row>

  datatype FolderError = NoSuchParent | NameTaken

  /** The parent must be a folder of the same bucket. The uniqueness of (bucket, parent, name) does not bite at the
      root, where the parent is NULL. */
  function CreateFolder(s: Store, bucket: BucketId, parent: Option<FolderId>, name: string): Result<Store, FolderError> {
    var row := Row(bucket, Folder(parent, name));
    if parent.Some? && (parent.value >= |s| || s[parent.value].bucket != bucket) then Failure(NoSuchParent)
    else if parent.Some? && row in s then Failure(NameTaken)
    else Success(s + [row])
  }

  datatype Call = Call(bucket: BucketId, parent: Option<FolderId>, name: string)

  /** Any sequence of calls; those that are refused change nothing. */
  function Run(calls: seq<Call>): Store
    decreases |calls|
  {
    if calls == [] then []
    else
      var s, c := Run(calls[..|calls| - 1]), calls[|calls| - 1];
      match CreateFolder(s, c.bucket, c.parent, c.name)
      case Success(next) => next
      case Failure(_) => s
  }

  function InBucket(s: Store, bucket: BucketId): Folders {
    map f | 0 <= f < |s| && s[f].bucket == bucket :: s[f].folder
  }

  ghost predicate ParentsInBucket(s: Store) {
    forall f :: 0 <= f < |s| && s[f].folder.parent.Some? ==>
      s[f].folder.parent.value < f && s[s[f].folder.parent.value].bucket == s[f].bucket
  }

  ghost predicate SiblingsDiffer(s: Store) {
    forall f, g :: 0 <= f < g < |s| && s[f].folder.parent.Some? ==> s[f] != s[g]
  }

  lemma {:induction false} RunKeepsOrder(calls: seq<Call>)
    ensures ParentsInBucket(Run(calls)) && SiblingsDiffer(Run(calls))
    decreases |calls|
  {
    if calls != [] {
      RunKeepsOrder(calls[..|calls| - 1]);
    }
  }

  /** A folder is created, as the newest one of its bucket, exactly if its parent is a folder of the bucket without a child
      of that name, or if it has no parent; other buckets stay as they are. */
  lemma {:induction false} FolderIsCreated(calls: seq<Call>, c: Call, other: BucketId)
    ensures
      var before, after := Run(calls), Run(calls + [c]);
      var folders := InBucket(before, c.bucket);
      var created := c.parent != None ==>
        c.parent.value in folders && forall f :: f in folders ==> folders[f] != Folder(c.parent, c.name);
      && |after| == |before| + (if created then 1 else 0)
      && InBucket(after, c.bucket) == (if created then folders[|before| := Folder(c.parent, c.name)] else folders)
      && (other != c.bucket ==> InBucket(after, other) == InBucket(before, other))
  {
    assert (calls + [c])[..|calls|] == calls;
    var s, folders := Run(calls), InBucket(Run(calls), c.bucket);
    var row := Row(c.bucket, Folder(c.parent, c.name));
    if f :| f in folders && folders[f] == Folder(c.parent, c.name) {
      assert s[f] == row;
    }
    if row in s {
      var f :| 0 <= f < |s| && s[f] == row;
      assert f in folders;
    }
  }

  /** Whatever calls are made, every bucket's folders are a forest. */
  lemma {:induction false} ReachableFoldersAreForests(calls: seq<Call>, bucket: BucketId)
    ensures Forest(InBucket(Run(calls), bucket))
  {
    RunKeepsOrder(calls);
    var s := Run(calls);
    forall f | f in InBucket(s, bucket) && InBucket(s, bucket)[f].parent.Some?
      ensures InBucket(s, bucket)[f].parent.value in InBucket(s, bucket) && InBucket(s, bucket)[f].parent.value < f
    {
      assert s[f].folder.parent.value < f;
    }
  }

  /** The create call accepts a second root folder of the same name. */
  lemma TwoRoots(bucket: BucketId, name: string)
    ensures
      var call, row := Call(bucket, None, name), Row(bucket, Folder(None, name));
      Run([call, call]) == [row, row]
  {
    var call := Call(bucket, None, name);
    assert [call, call][..1] == [call] && [call][..0] == [];
    assert Run([call]) == [Row(bucket, Folder(None, name))];
  }

  /** Two different folders at the root of the bucket have the same name. */
  ghost predicate TwinRoots(folders: Folders) {
    exists f, g :: f in folders && g in folders && f != g && folders[f].parent.None? && folders[f] == folders[g]
  }

  ghost predicate SharedPath(folders: Folders)
    requires Forest(folders)
  {
    exists f, g :: f in folders && g in folders && f != g && FolderPath(folders, Some(f)) == FolderPath(folders, Some(g))
  }

  /** Two different folders of a bucket have the same path exactly if two root folders have the same name. */
  lemma {:induction false} PathsAreSharedUnderTwinRootsOnly(calls: seq<Call>, bucket: BucketId)
    ensures Forest(InBucket(Run(calls), bucket))
    ensures SharedPath(InBucket(Run(calls), bucket)) <==> TwinRoots(InBucket(Run(calls), bucket))
  {
    ReachableFoldersAreForests(calls, bucket);
    var folders := InBucket(Run(calls), bucket);
    if TwinRoots(folders) {
      var f, g :| f in folders && g in folders && f != g && folders[f].parent.None? && folders[f] == folders[g];
      assert FolderPath(folders, Some(f)) == [folders[f].name] == FolderPath(folders, Some(g));
    }
    if SharedPath(folders) {
      var f, g :|
        f in folders && g in folders && f != g && FolderPath(folders, Some(f)) == FolderPath(folders, Some(g));
      TwinsAbove(calls, bucket, f, g);
    }
  }

  lemma {:induction false} TwinsAbove(calls: seq<Call>, bucket: BucketId, f: FolderId, g: FolderId)
    requires Forest(InBucket(Run(calls), bucket))
    requires f in InBucket(Run(calls), bucket) && g in InBucket(Run(calls), bucket) && f != g
    requires FolderPath(InBucket(Run(calls), bucket), Some(f)) == FolderPath(InBucket(Run(calls), bucket), Some(g))
    ensures TwinRoots(InBucket(Run(calls), bucket))
    decreases f
  {
    var s, folders := Run(calls), InBucket(Run(calls), bucket);
    var p, q := FolderPath(folders, Some(f)), FolderPath(folders, Some(g));
    var up, across := folders[f].parent, folders[g].parent;
    assert p[|p| - 1] == folders[f].name && q[|q| - 1] == folders[g].name;
    assert p[..|p| - 1] == FolderPath(folders, up) && q[..|q| - 1] == FolderPath(folders, across);
    if up != across {
      assert up.Some? && across.Some?;
      TwinsAbove(calls, bucket, up.value, across.value);
    } else {
      assert folders[f] == folders[g] && s[f] == s[g];
      RunKeepsOrder(calls);
      assert up.None?;
    }
  }
}
