/**
 * The bucket handlers: create a bucket, upload a blob, soft-delete a blob.
 *
 * Each handler is specified by a step function from the state before the
 * request to the response and the state after it; the imperative handler
 * drives the `Disk` and the `MetadataManager` in the source's order and is
 * proved to end where the step function says. The lemmas state what the
 * handlers promise in terms of the step functions.
 */
module Bucket {
  import opened Common
  import opened Paths
  import opened Metadata
  import opened Filesystem
  import opened Service

  // ---------------------------------------------------------------------------
  // get_bucket_create

  function CreateBucketStep(s: Settings, name: seq<Component>, auth: string, faults: Faults, d: DiskState): (Response, DiskState) {
    if auth != s.bucketCreationKey then (Status(400), d)
    else match CreateBucket(s.storageRoot, name, d.View())
      case None => (Status(500), d)
      case Some(bucket) =>
        if DirCreate in faults || !d.ParentIsDir(bucket.path) then (Failed, d)
        else (Status(200), d.(dirs := d.dirs + {bucket.path}))
  }

  method GetBucketCreate(s: Settings, name: seq<Component>, auth: string, faults: Faults, disk: Disk) returns (resp: Response)
    modifies disk
    ensures (resp, disk.State()) == CreateBucketStep(s, name, auth, faults, old(disk.State()))
  {
    if auth != s.bucketCreationKey {
      return Status(400);
    }
    var path := CreateBucket(s.storageRoot, name, disk.State().View());
    if path.None? {
      return Status(500);
    }
    var made := disk.CreateDir(path.value.path, DirCreate in faults);
    if !made {
      return Failed;
    }
    return Status(200);
  }

  /** A wrong creation key is refused before anything else, and nothing is created. */
  lemma CreateBucketNeedsKey(s: Settings, name: seq<Component>, auth: string, faults: Faults, d: DiskState)
    ensures CreateBucketStep(s, name, auth, faults, d).0 == Status(400) <==> auth != s.bucketCreationKey
    ensures auth != s.bucketCreationKey ==> CreateBucketStep(s, name, auth, faults, d).1 == d
  {
  }

  /**
   * A bucket is created only with the right key, under the root, where
   * nothing existed; an unsafe or taken name gives 500 and creates nothing.
   * Files and links never change.
   */
  lemma CreateBucketOutcome(s: Settings, name: seq<Component>, auth: string, faults: Faults, d: DiskState)
    ensures var (resp, d') := CreateBucketStep(s, name, auth, faults, d);
            d'.files == d.files && d'.symlinks == d.symlinks &&
            (resp == Status(500) <==> auth == s.bucketCreationKey && CreateBucket(s.storageRoot, name, d.View()).None?) &&
            (resp != Status(200) ==> d' == d) &&
            (resp == Status(200) ==>
               auth == s.bucketCreationKey &&
               exists path :: Joined(s.storageRoot, name, d.symlinks) == Some(path) && s.storageRoot <= path &&
                 !d.Exists(path) && d'.dirs == d.dirs + {path})
  {
  }

  // ---------------------------------------------------------------------------
  // put_bucket_upload

  datatype UploadRequest = UploadRequest(loc: FileLocation, auth: Option<string>, contentType: Option<string>, content: Bytes)

  /** The record an upload stores: a default one, with the `X-Blob-Content-Type` header's type when given. */
  function FreshRecord(key: AccessKey, contentType: Option<string>): (m: BlobMetadata)
    ensures m.accessKey == key && m.deletionDate.None? && m.downloadCount == 0
    ensures m.contentType == if contentType.Some? then contentType.value else "text"
  {
    var m := Default(key);
    if contentType.Some? then m.(contentType := contentType.value) else m
  }

  /** Where the early block of the upload leaves the request: carry on, or answer now. */
  datatype Early = Proceed(w: World) | Stop(resp: Response, w: World)

  /**
   * The early block: an existing file is either reclaimed (soft-deleted: file
   * and record removed) or left for the later create step to refuse; a new
   * file needs the upload key.
   */
  function UploadEarly(s: Settings, req: UploadRequest, bucket: BucketPath, lookupKey: AccessKey, faults: Faults, w: World): Early
    requires bucket.marker == PathExists
  {
    match GetBucketFile(bucket, req.loc.fileName, w.disk.View())
    case Some(p) =>
      (match Lookup(w.store, p.path, MetaGet in faults, lookupKey)
       case Err => Stop(Status(500), w)
       case Ok(m) =>
         if m.deletionDate.None? then Proceed(w)
         else if FileRemove in faults || p.path !in w.disk.files then Stop(Failed, w)
         else
           var d := w.disk.(files := w.disk.files - {p.path});
           if MetaRemove in faults then Stop(Status(500), World(d, w.store))
           else Proceed(World(d, w.store - {p.path})))
    case None =>
      if req.auth == Some(s.bucketUploadKey) then Proceed(w) else Stop(Status(400), w)
  }

  /** From `create_bucket_file` on: create the file, write the body, create the record. */
  function UploadCommit(req: UploadRequest, bucket: BucketPath, newKey: AccessKey, faults: Faults, w: World): (Response, World)
    requires bucket.marker == PathExists
  {
    match CreateBucketFile(bucket, req.loc.fileName, w.disk.View())
    case None => (Status(500), w)
    case Some(p) =>
      if FileCreate in faults || !w.disk.ParentIsDir(p.path) then (Failed, w)
      else if FileWrite in faults then (Failed, World(w.disk.(files := w.disk.files[p.path := []]), w.store))
      else
        var d := w.disk.(files := w.disk.files[p.path := req.content]);
        var record := FreshRecord(newKey, req.contentType);
        if MetaCreate in faults then (Status(500), World(d, w.store))
        else if p.path in w.store then (Panicked, World(d, w.store))
        else (Uploaded(record.accessKey), World(d, w.store[p.path := record]))
  }

  function UploadStep(s: Settings, req: UploadRequest, lookupKey: AccessKey, newKey: AccessKey, faults: Faults, w: World): (Response, World) {
    match GetBucket(s.storageRoot, req.loc.bucketName, w.disk.View())
    case None => (Status(500), w)
    case Some(bucket) =>
      match UploadEarly(s, req, bucket, lookupKey, faults, w)
      case Stop(resp, w') => (resp, w')
      case Proceed(w') => UploadCommit(req, bucket, newKey, faults, w')
  }

  method PutBucketUpload(s: Settings, req: UploadRequest, lookupKey: AccessKey, newKey: AccessKey, faults: Faults,
                         disk: Disk, metadata: MetadataManager) returns (resp: Response)
    modifies disk, metadata
    ensures (resp, World(disk.State(), metadata.store)) ==
            UploadStep(s, req, lookupKey, newKey, faults, World(old(disk.State()), old(metadata.store)))
  {
    var bucketFound := GetBucket(s.storageRoot, req.loc.bucketName, disk.State().View());
    if bucketFound.None? {
      return Status(500);
    }
    var bucket := bucketFound.value;
    ghost var early := UploadEarly(s, req, bucket, lookupKey, faults, World(disk.State(), metadata.store));

    // An existing file is reclaimed when soft-deleted; a new one needs the upload key.
    var existing := GetBucketFile(bucket, req.loc.fileName, disk.State().View());
    if existing.Some? {
      var p := existing.value;
      var found := metadata.GetMetadata(p, MetaGet in faults, lookupKey);
      if found.Err? {
        return Status(500);
      }
      if found.value.deletionDate.Some? {
        var removed := disk.RemoveFile(p.path, FileRemove in faults);
        if !removed {
          return Failed;
        }
        var dropped := metadata.RemoveMetadata(p, MetaRemove in faults);
        if !dropped {
          return Status(500);
        }
      }
    } else if req.auth != Some(s.bucketUploadKey) {
      return Status(400);
    }
    ghost var proceeding := World(disk.State(), metadata.store);
    assert early == Proceed(proceeding);

    var target := CreateBucketFile(bucket, req.loc.fileName, disk.State().View());
    if target.None? {
      return Status(500);
    }
    var path := target.value;
    var created := disk.CreateFile(path.path, FileCreate in faults);
    if !created {
      return Failed;
    }
    var meta := Default(newKey);
    if req.contentType.Some? {
      meta := meta.(contentType := req.contentType.value);
    }
    assert meta == FreshRecord(newKey, req.contentType);
    var written := disk.WriteAll(path.path, req.content, FileWrite in faults);
    if !written {
      return Failed;
    }
    assert proceeding.disk.files[path.path := []][path.path := req.content] == proceeding.disk.files[path.path := req.content];
    var stored := metadata.CreateMetadata(path, meta, MetaCreate in faults);
    if stored == CreateError {
      return Status(500);
    } else if stored == KeyAlreadyPresent {
      return Panicked;
    }
    return Uploaded(meta.accessKey);
  }

  /** A file that `get_bucket_file` does not find needs the right upload key; without it: 400 and no change. */
  lemma UploadNewFileNeedsKey(s: Settings, req: UploadRequest, lookupKey: AccessKey, newKey: AccessKey, faults: Faults, w: World)
    requires GetBucket(s.storageRoot, req.loc.bucketName, w.disk.View()).Some?
    requires GetBucketFile(GetBucket(s.storageRoot, req.loc.bucketName, w.disk.View()).value, req.loc.fileName, w.disk.View()).None?
    ensures req.auth != Some(s.bucketUploadKey) <==> UploadStep(s, req, lookupKey, newKey, faults, w) == (Status(400), w)
  {
  }

  /** Every 400 from an upload leaves disk and store as they were. */
  lemma UploadBadRequestChangesNothing(s: Settings, req: UploadRequest, lookupKey: AccessKey, newKey: AccessKey, faults: Faults, w: World)
    requires UploadStep(s, req, lookupKey, newKey, faults, w).0 == Status(400)
    ensures UploadStep(s, req, lookupKey, newKey, faults, w).1 == w
    ensures req.auth != Some(s.bucketUploadKey)
  {
  }

  /** Over a file that exists, the upload key is never consulted. */
  lemma UploadOverExistingIgnoresKey(s: Settings, req: UploadRequest, otherAuth: Option<string>,
                                     lookupKey: AccessKey, newKey: AccessKey, faults: Faults, w: World)
    requires GetBucket(s.storageRoot, req.loc.bucketName, w.disk.View()).Some?
    requires GetBucketFile(GetBucket(s.storageRoot, req.loc.bucketName, w.disk.View()).value, req.loc.fileName, w.disk.View()).Some?
    ensures UploadStep(s, req.(auth := otherAuth), lookupKey, newKey, faults, w) == UploadStep(s, req, lookupKey, newKey, faults, w)
  {
  }

  /**
   * Over an active blob (its record has no deletion date) the upload gives 500
   * and changes nothing: the early block leaves it, and `create_bucket_file`
   * refuses the existing path.
   */
  lemma UploadOverActiveRefused(s: Settings, req: UploadRequest, lookupKey: AccessKey, newKey: AccessKey, faults: Faults, w: World)
    requires ResolveExisting(s, req.loc, w.disk.View()).Some?
    requires var p := ResolveExisting(s, req.loc, w.disk.View()).value.path;
             Lookup(w.store, p, MetaGet in faults, lookupKey).Ok? &&
             Lookup(w.store, p, MetaGet in faults, lookupKey).value.deletionDate.None?
    ensures UploadStep(s, req, lookupKey, newKey, faults, w) == (Status(500), w)
  {
    var bucket := GetBucket(s.storageRoot, req.loc.bucketName, w.disk.View()).value;
    CreateAndGetFileExclusive(bucket, req.loc.fileName, w.disk.View());
  }

  /** An existing file whose record cannot be read: 500, and nothing changes. */
  lemma UploadUnreadableRecordRefused(s: Settings, req: UploadRequest, lookupKey: AccessKey, newKey: AccessKey, faults: Faults, w: World)
    requires ResolveExisting(s, req.loc, w.disk.View()).Some?
    requires MetaGet in faults
    ensures UploadStep(s, req, lookupKey, newKey, faults, w) == (Status(500), w)
  {
  }

  /**
   * Over a soft-deleted blob, with the removals succeeding, file and record are
   * both gone before the new file is created, so the upload proceeds as for a
   * new path but without the key check.
   */
  lemma UploadReclaimsSoftDeleted(s: Settings, req: UploadRequest, lookupKey: AccessKey, newKey: AccessKey, faults: Faults, w: World)
    requires ResolveExisting(s, req.loc, w.disk.View()).Some?
    requires var p := ResolveExisting(s, req.loc, w.disk.View()).value.path;
             p in w.disk.files && p in w.store && w.store[p].deletionDate.Some?
    requires MetaGet !in faults && FileRemove !in faults && MetaRemove !in faults
    ensures var p := ResolveExisting(s, req.loc, w.disk.View()).value.path;
            var bucket := GetBucket(s.storageRoot, req.loc.bucketName, w.disk.View()).value;
            var reclaimed := World(w.disk.(files := w.disk.files - {p}), w.store - {p});
            UploadStep(s, req, lookupKey, newKey, faults, w) == UploadCommit(req, bucket, newKey, faults, reclaimed)
  {
  }

  /**
   * A successful upload answers with the fresh record's access key, stores
   * that record (content type from the header, otherwise "text") and the body
   * at the resolved path under the bucket, and touches no other record, file
   * or directory.
   */
  lemma UploadSuccess(s: Settings, req: UploadRequest, lookupKey: AccessKey, newKey: AccessKey, faults: Faults, w: World)
    requires UploadStep(s, req, lookupKey, newKey, faults, w).0.Uploaded?
    ensures var (resp, w') := UploadStep(s, req, lookupKey, newKey, faults, w);
            var bucket := GetBucket(s.storageRoot, req.loc.bucketName, w.disk.View()).value;
            exists p ::
              Joined(bucket.path, req.loc.fileName, w.disk.symlinks) == Some(p) && s.storageRoot <= p &&
              resp.accessKey == newKey &&
              w'.store == (w.store - {p})[p := FreshRecord(newKey, req.contentType)] &&
              w'.disk == w.disk.(files := (w.disk.files - {p})[p := req.content])
  {
    var bucket := GetBucket(s.storageRoot, req.loc.bucketName, w.disk.View()).value;
    var p := Joined(bucket.path, req.loc.fileName, w.disk.symlinks).value;
    match UploadEarly(s, req, bucket, lookupKey, faults, w)
    case Proceed(w1) =>
      assert w1.disk.symlinks == w.disk.symlinks;
      assert w1.disk.View().symlinks == w.disk.View().symlinks;
      if w1 == w {
        assert p !in w.store;
        assert w.store - {p} == w.store;
        assert w.disk.files - {p} == w.disk.files;
      }
    case Stop(_, _) =>
  }

  /**
   * No rollback: when creating the record fails after the body was written,
   * the answer is 500, the file stays, and the store is unchanged.
   */
  lemma UploadCommitFailureKeepsFile(req: UploadRequest, bucket: BucketPath, newKey: AccessKey, faults: Faults, w: World)
    requires bucket.marker == PathExists
    requires CreateBucketFile(bucket, req.loc.fileName, w.disk.View()).Some?
    requires w.disk.ParentIsDir(CreateBucketFile(bucket, req.loc.fileName, w.disk.View()).value.path)
    requires FileCreate !in faults && FileWrite !in faults && MetaCreate in faults
    ensures var p := CreateBucketFile(bucket, req.loc.fileName, w.disk.View()).value.path;
            UploadCommit(req, bucket, newKey, faults, w) ==
              (Status(500), World(w.disk.(files := w.disk.files[p := req.content]), w.store))
  {
  }

  // ---------------------------------------------------------------------------
  // delete_bucket_remove

  function DeleteStep(s: Settings, loc: FileLocation, accessKeyHeader: Option<string>, now: Timestamp,
                      lookupKey: AccessKey, faults: Faults, w: World): (Response, World) {
    match ResolveExisting(s, loc, w.disk.View())
    case None => (Status(500), w)
    case Some(p) =>
      match Lookup(w.store, p.path, MetaGet in faults, lookupKey)
      case Err => (Status(500), w)
      case Ok(m) =>
        if m.deletionDate.Some? then (Status(400), w)
        else if accessKeyHeader != Some(m.accessKey) then (Status(401), w)
        else if MetaSave in faults then (Status(500), w)
        else (Status(200), World(w.disk, w.store[p.path := m.(deletionDate := Some(now))]))
  }

  method DeleteBucketRemove(s: Settings, loc: FileLocation, accessKeyHeader: Option<string>, now: Timestamp,
                            lookupKey: AccessKey, faults: Faults, disk: Disk, metadata: MetadataManager) returns (resp: Response)
    modifies metadata
    ensures (resp, World(disk.State(), metadata.store)) ==
            DeleteStep(s, loc, accessKeyHeader, now, lookupKey, faults, World(disk.State(), old(metadata.store)))
  {
    var bucket := GetBucket(s.storageRoot, loc.bucketName, disk.State().View());
    if bucket.None? {
      return Status(500);
    }
    var path := GetBucketFile(bucket.value, loc.fileName, disk.State().View());
    if path.None? {
      return Status(500);
    }
    var found := metadata.GetMetadata(path.value, MetaGet in faults, lookupKey);
    if found.Err? {
      return Status(500);
    }
    var meta := found.value;
    if meta.deletionDate.Some? {
      return Status(400);
    }
    if accessKeyHeader.None? {
      return Status(401);
    }
    if accessKeyHeader.value != meta.accessKey {
      return Status(401);
    }
    meta := meta.(deletionDate := Some(now));
    var saved := metadata.SaveMetadata(path.value, meta, MetaSave in faults);
    if !saved {
      return Status(500);
    }
    return Status(200);
  }

  /** Deleting a blob already soft-deleted: 400 whatever key is offered, and nothing changes. */
  lemma DeleteTwiceRefused(s: Settings, loc: FileLocation, accessKeyHeader: Option<string>, now: Timestamp,
                           lookupKey: AccessKey, faults: Faults, w: World)
    requires ResolveExisting(s, loc, w.disk.View()).Some?
    requires var p := ResolveExisting(s, loc, w.disk.View()).value.path;
             p in w.store && w.store[p].deletionDate.Some?
    requires MetaGet !in faults
    ensures DeleteStep(s, loc, accessKeyHeader, now, lookupKey, faults, w) == (Status(400), w)
  {
  }

  /**
   * Deletion never touches the disk; 200 comes only with the stored access key
   * and then sets only the deletion date, to `now`; every other answer leaves
   * the store as it was, 401 included.
   */
  lemma DeleteOutcome(s: Settings, loc: FileLocation, accessKeyHeader: Option<string>, now: Timestamp,
                      lookupKey: AccessKey, faults: Faults, w: World)
    ensures var (resp, w') := DeleteStep(s, loc, accessKeyHeader, now, lookupKey, faults, w);
            w'.disk == w.disk &&
            (resp != Status(200) ==> w' == w) &&
            (resp == Status(200) ==>
               var p := ResolveExisting(s, loc, w.disk.View()).value.path;
               var m := Lookup(w.store, p, false, lookupKey).value;
               MetaGet !in faults && MetaSave !in faults &&
               m.deletionDate.None? && accessKeyHeader == Some(m.accessKey) &&
               w'.store == w.store[p := BlobMetadata(m.contentType, m.accessKey, Some(now), m.downloadCount)])
  {
  }

  /** With the key present and resolution and lookup succeeding, a mismatched or missing key gives 401. */
  lemma DeleteWrongKeyUnauthorized(s: Settings, loc: FileLocation, accessKeyHeader: Option<string>, now: Timestamp,
                                   lookupKey: AccessKey, faults: Faults, w: World)
    requires ResolveExisting(s, loc, w.disk.View()).Some?
    requires MetaGet !in faults
    requires var m := Lookup(w.store, ResolveExisting(s, loc, w.disk.View()).value.path, false, lookupKey).value;
             m.deletionDate.None? && accessKeyHeader != Some(m.accessKey)
    ensures DeleteStep(s, loc, accessKeyHeader, now, lookupKey, faults, w) == (Status(401), w)
  {
  }
}
