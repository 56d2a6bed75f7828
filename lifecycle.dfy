/**
 * Properties of the handlers taken together: which handlers keep every
 * metadata record attached to an existing path, when the upload's
 * `assert!` in `create_metadata` can fire, and the blob lifecycle
 * (new, active, soft-deleted, reused) run end to end.
 */
module Lifecycle {
  import opened Common
  import opened Paths
  import opened Metadata
  import opened Filesystem
  import opened Service
  import opened Bucket
  import opened BucketGetFile

  lemma CreateBucketKeepsConsistent(s: Settings, name: seq<Component>, auth: string, faults: Faults, w: World)
    requires Consistent(w)
    ensures Consistent(World(CreateBucketStep(s, name, auth, faults, w.disk).1, w.store))
  {
  }

  lemma DeleteKeepsConsistent(s: Settings, loc: FileLocation, accessKeyHeader: Option<string>, now: Timestamp,
                              lookupKey: AccessKey, faults: Faults, w: World)
    requires Consistent(w)
    ensures Consistent(DeleteStep(s, loc, accessKeyHeader, now, lookupKey, faults, w).1)
  {
  }

  lemma DownloadKeepsConsistent(s: Settings, loc: FileLocation, lookupKey: AccessKey, faults: Faults, w: World)
    requires Consistent(w)
    ensures Consistent(DownloadStep(s, loc, lookupKey, faults, w).1)
  {
  }

  /**
   * An upload keeps records attached to existing paths unless removing a
   * reclaimed blob's record fails after its file was removed.
   */
  lemma UploadKeepsConsistent(s: Settings, req: UploadRequest, lookupKey: AccessKey, newKey: AccessKey, faults: Faults, w: World)
    requires Consistent(w)
    requires MetaRemove !in faults
    ensures Consistent(UploadStep(s, req, lookupKey, newKey, faults, w).1)
  {
    var fs := w.disk.View();
    match GetBucket(s.storageRoot, req.loc.bucketName, fs)
    case None =>
    case Some(bucket) =>
      match UploadEarly(s, req, bucket, lookupKey, faults, w)
      case Stop(_, _) =>
      case Proceed(w1) =>
        assert Consistent(w1);
        var (resp, w2) := UploadCommit(req, bucket, newKey, faults, w1);
        forall q | q in w2.store
          ensures w2.disk.Exists(q)
        {
          assert q in w1.store || w2.disk.files.Keys >= w1.disk.files.Keys;
        }
  }

  /**
   * The `assert!` of `create_metadata` fires during an upload only if the
   * store already held a record for a path that does not exist on disk.
   */
  lemma UploadPanicsOnlyOnStaleRecord(s: Settings, req: UploadRequest, lookupKey: AccessKey, newKey: AccessKey, faults: Faults, w: World)
    requires Consistent(w)
    ensures UploadStep(s, req, lookupKey, newKey, faults, w).0 != Panicked
  {
    var fs := w.disk.View();
    match GetBucket(s.storageRoot, req.loc.bucketName, fs)
    case None =>
    case Some(bucket) =>
      match UploadEarly(s, req, bucket, lookupKey, faults, w)
      case Stop(_, _) =>
      case Proceed(w1) =>
        assert forall q :: q in w1.store ==> q in w1.disk.View().existing;
  }

  /**
   * How a stale record arises and what it does: reclaiming a soft-deleted blob
   * whose record removal fails answers 500 with the file gone and the record
   * kept; the next upload to that name, with the right upload key, then writes
   * the file and fails the `assert!` of `create_metadata`.
   */
  lemma StaleRecordMakesUploadPanic(s: Settings, deleted: BlobMetadata, oldContent: Bytes, content: Bytes,
                                    lookupKey: AccessKey, newKey: AccessKey, when: Timestamp)
    requires s.storageRoot == ["storage_root"]
    requires deleted.deletionDate == Some(when)
    ensures var bucket := s.storageRoot + ["b1"];
            var p := bucket + ["a.txt"];
            var w0 := World(DiskState({s.storageRoot, bucket}, map[p := oldContent], {}), map[p := deleted]);
            var loc := FileLocation([Normal("b1")], [Normal("a.txt")]);
            var (r1, w1) := UploadStep(s, UploadRequest(loc, None, None, content), lookupKey, newKey, {MetaRemove}, w0);
            var (r2, w2) := UploadStep(s, UploadRequest(loc, Some(s.bucketUploadKey), None, content), lookupKey, newKey, {}, w1);
            Consistent(w0) && r1 == Status(500) && !Consistent(w1) && r2 == Panicked && w2.disk.files[p] == content
  {
    var bucket := s.storageRoot + ["b1"];
    var p := bucket + ["a.txt"];
    var loc := FileLocation([Normal("b1")], [Normal("a.txt")]);
    SingleNameResolves(s.storageRoot, "b1");
    SingleNameResolves(bucket, "a.txt");
    var w0 := World(DiskState({s.storageRoot, bucket}, map[p := oldContent], {}), map[p := deleted]);
    assert p != s.storageRoot && p != bucket;
    var w1 := World(DiskState({s.storageRoot, bucket}, map[], {}), map[p := deleted]);
    assert w0.disk.files - {p} == map[];
    assert UploadStep(s, UploadRequest(loc, None, None, content), lookupKey, newKey, {MetaRemove}, w0) == (Status(500), w1);
    assert !w1.disk.Exists(p);
    assert w1.disk.ParentIsDir(p) by {
      assert p[..|p| - 1] == bucket;
    }
  }

  /** A one-component name resolves to its parent followed by that name when there are no links. */
  lemma SingleNameResolves(root: Path, name: string)
    ensures Joined(root, [Normal(name)], {}) == Some(root + [name])
  {
    assert [Normal(name)][..0] == [];
    assert Normals([Normal(name)]) == [name];
  }

  /**
   * The blob lifecycle run end to end with no failures: create a bucket,
   * upload with the upload key, download, delete with a wrong key (401, no
   * change), delete with the issued key, download (404), upload again without
   * the upload key over the soft-deleted blob, download the new content.
   */
  lemma EndToEnd(s: Settings, lookupKey: AccessKey, k: AccessKey, k2: AccessKey, wrong: string,
                 hello: Bytes, world: Bytes, now: Timestamp)
    requires s.storageRoot == ["storage_root"]
    requires wrong != k && k2 != k
    ensures var d0 := DiskState({s.storageRoot}, map[], {});
            var loc := FileLocation([Normal("b1")], [Normal("a.txt")]);
            var (r1, d1) := CreateBucketStep(s, [Normal("b1")], s.bucketCreationKey, {}, d0);
            var (r2, w2) := UploadStep(s, UploadRequest(loc, Some(s.bucketUploadKey), None, hello), lookupKey, k, {}, World(d1, map[]));
            var (r3, w3) := DownloadStep(s, loc, lookupKey, {}, w2);
            var (r4, w4) := DeleteStep(s, loc, Some(wrong), now, lookupKey, {}, w3);
            var (r5, w5) := DeleteStep(s, loc, Some(k), now, lookupKey, {}, w4);
            var (r6, w6) := DownloadStep(s, loc, lookupKey, {}, w5);
            var (r7, w7) := UploadStep(s, UploadRequest(loc, None, None, world), lookupKey, k2, {}, w6);
            var (r8, w8) := DownloadStep(s, loc, lookupKey, {}, w7);
            r1 == Status(200) && r2 == Uploaded(k) && r3 == Served("text", hello) &&
            r4 == Status(401) && w4 == w3 && r5 == Status(200) && r6 == Status(404) &&
            r7 == Uploaded(k2) && r7.accessKey != r2.accessKey && r8 == Served("text", world)
  {
    var root := s.storageRoot;
    var bucket := root + ["b1"];
    var p := bucket + ["a.txt"];
    var loc := FileLocation([Normal("b1")], [Normal("a.txt")]);
    SingleNameResolves(root, "b1");
    SingleNameResolves(bucket, "a.txt");
    assert p != root && p != bucket && bucket != root;
    assert bucket[..|bucket| - 1] == root;
    assert p[..|p| - 1] == bucket;

    var d0 := DiskState({root}, map[], {});
    var d1 := DiskState({root, bucket}, map[], {});
    assert d0.View().existing == {root};
    assert CreateBucket(root, [Normal("b1")], d0.View()) == Some(BucketPath(bucket, PathDoesntExist));
    assert d0.dirs + {bucket} == d1.dirs;
    assert CreateBucketStep(s, [Normal("b1")], s.bucketCreationKey, {}, d0) == (Status(200), d1);

    var record := Default(k);
    var w2 := World(d1.(files := map[p := hello]), map[p := record]);
    assert d1.files[p := hello] == map[p := hello];
    assert UploadStep(s, UploadRequest(loc, Some(s.bucketUploadKey), None, hello), lookupKey, k, {}, World(d1, map[])) == (Uploaded(k), w2);

    var w3 := World(w2.disk, map[p := record.(downloadCount := 1)]);
    assert w2.store[p := record.(downloadCount := 1)] == w3.store;
    assert DownloadStep(s, loc, lookupKey, {}, w2) == (Served("text", hello), w3);
    assert DeleteStep(s, loc, Some(wrong), now, lookupKey, {}, w3) == (Status(401), w3);

    var w5 := World(w2.disk, map[p := record.(downloadCount := 1, deletionDate := Some(now))]);
    assert w3.store[p := record.(downloadCount := 1, deletionDate := Some(now))] == w5.store;
    assert DeleteStep(s, loc, Some(k), now, lookupKey, {}, w3) == (Status(200), w5);

    var w6 := World(w2.disk, map[p := record.(downloadCount := 2, deletionDate := Some(now))]);
    assert w5.store[p := record.(downloadCount := 2, deletionDate := Some(now))] == w6.store;
    assert DownloadStep(s, loc, lookupKey, {}, w5) == (Status(404), w6);

    var reclaimed := World(d1, map[]);
    assert w2.disk.files - {p} == map[];
    assert w6.store - {p} == map[];
    assert UploadEarly(s, UploadRequest(loc, None, None, world), GetBucket(root, [Normal("b1")], w6.disk.View()).value,
                       lookupKey, {}, w6) == Proceed(reclaimed);
    var w7 := World(d1.(files := map[p := world]), map[p := Default(k2)]);
    assert d1.files[p := world] == map[p := world];
    assert UploadStep(s, UploadRequest(loc, None, None, world), lookupKey, k2, {}, w6) == (Uploaded(k2), w7);

    var w8 := World(w7.disk, map[p := Default(k2).(downloadCount := 1)]);
    assert w7.store[p := Default(k2).(downloadCount := 1)] == w8.store;
    assert DownloadStep(s, loc, lookupKey, {}, w7) == (Served("text", world), w8);
  }
}
