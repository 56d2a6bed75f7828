/**
 * The download handler: resolve, count the download, refuse soft-deleted
 * blobs, then serve the content with its stored content type.
 */
module BucketGetFile {
  import opened Common
  import opened Paths
  import opened Metadata
  import opened Filesystem
  import opened Service

  function DownloadStep(s: Settings, loc: FileLocation, lookupKey: AccessKey, faults: Faults, w: World): (Response, World) {
    match ResolveExisting(s, loc, w.disk.View())
    case None => (Status(500), w)
    case Some(p) =>
      match Lookup(w.store, p.path, MetaGet in faults, lookupKey)
      case Err => (Status(500), w)
      case Ok(m) =>
        var counted := m.(downloadCount := m.downloadCount + 1);
        // a failed save is only logged
        var w' := if MetaSave in faults then w else World(w.disk, w.store[p.path := counted]);
        if counted.deletionDate.Some? then (Status(404), w')
        else if FileOpen in faults then (Status(404), w')
        else if FileRead in faults || p.path !in w.disk.files then (Failed, w')
        else (Served(counted.contentType, w.disk.files[p.path]), w')
  }

  method GetFile(s: Settings, loc: FileLocation, lookupKey: AccessKey, faults: Faults,
                 disk: Disk, metadata: MetadataManager) returns (resp: Response)
    modifies metadata
    ensures (resp, World(disk.State(), metadata.store)) ==
            DownloadStep(s, loc, lookupKey, faults, World(disk.State(), old(metadata.store)))
  {
    var bucket := GetBucket(s.storageRoot, loc.bucketName, disk.State().View());
    if bucket.None? {
      return Status(500);
    }
    var path := GetBucketFile(bucket.value, loc.fileName, disk.State().View());
    if path.None? {
      return Status(500);
    }
    var found := metadata.GetMetadata(path.value, MetaGet in faults, lookupKey);
    if found.Err? {
      return Status(500);
    }
    var meta := found.value;
    meta := meta.(downloadCount := meta.downloadCount + 1);
    var saved := metadata.SaveMetadata(path.value, meta, MetaSave in faults);
    if meta.deletionDate.Some? {
      return Status(404);
    }
    var isOpen := disk.Open(path.value.path, FileOpen in faults);
    if !isOpen {
      return Status(404);
    }
    var content := disk.ReadAll(path.value.path, FileRead in faults);
    if content.Err? {
      return Failed;
    }
    return Served(meta.contentType, content.value);
  }

  /** When the bucket or file does not resolve, or its record cannot be read: 500 and the store is not touched. */
  lemma DownloadUnresolvedChangesNothing(s: Settings, loc: FileLocation, lookupKey: AccessKey, faults: Faults, w: World)
    ensures var (resp, w') := DownloadStep(s, loc, lookupKey, faults, w);
            resp == Status(500) <==>
              ResolveExisting(s, loc, w.disk.View()).None? || MetaGet in faults
    ensures DownloadStep(s, loc, lookupKey, faults, w).0 == Status(500) ==> DownloadStep(s, loc, lookupKey, faults, w).1 == w
  {
  }

  /**
   * Once the blob resolves and its record is read, the stored download count
   * goes up by exactly one, the rest of the record unchanged, before the
   * soft-delete test, so soft-deleted blobs are counted too. Nothing else in
   * the store or on disk changes.
   */
  lemma DownloadCountsOnce(s: Settings, loc: FileLocation, lookupKey: AccessKey, faults: Faults, w: World)
    requires ResolveExisting(s, loc, w.disk.View()).Some?
    requires MetaGet !in faults && MetaSave !in faults
    ensures var p := ResolveExisting(s, loc, w.disk.View()).value.path;
            var m := Lookup(w.store, p, false, lookupKey).value;
            var w' := DownloadStep(s, loc, lookupKey, faults, w).1;
            w'.disk == w.disk &&
            w'.store == w.store[p := BlobMetadata(m.contentType, m.accessKey, m.deletionDate, m.downloadCount + 1)]
  {
  }

  /** A failure to save the counter is only logged: the response is the same as when the save succeeds. */
  lemma DownloadSaveFailureInvisible(s: Settings, loc: FileLocation, lookupKey: AccessKey, faults: Faults, w: World)
    ensures DownloadStep(s, loc, lookupKey, faults + {MetaSave}, w).0 == DownloadStep(s, loc, lookupKey, faults - {MetaSave}, w).0
    ensures DownloadStep(s, loc, lookupKey, faults + {MetaSave}, w).1 == w
  {
  }

  /** A soft-deleted blob is never served: 404, whatever else holds. */
  lemma DownloadSoftDeletedNotFound(s: Settings, loc: FileLocation, lookupKey: AccessKey, faults: Faults, w: World)
    requires ResolveExisting(s, loc, w.disk.View()).Some?
    requires var p := ResolveExisting(s, loc, w.disk.View()).value.path;
             p in w.store && w.store[p].deletionDate.Some?
    requires MetaGet !in faults
    ensures DownloadStep(s, loc, lookupKey, faults, w).0 == Status(404)
  {
  }

  /**
   * Content is served only for an active record, and it is exactly the file's
   * content with the record's content type; an active blob whose file opens
   * and reads is always served. An active blob whose file cannot be opened
   * gives 404; one that opens but cannot be read fails through `?`.
   */
  lemma DownloadServesActive(s: Settings, loc: FileLocation, lookupKey: AccessKey, faults: Faults, w: World)
    ensures var resp := DownloadStep(s, loc, lookupKey, faults, w).0;
            resp.Served? ==>
              var p := ResolveExisting(s, loc, w.disk.View()).value.path;
              var m := Lookup(w.store, p, false, lookupKey).value;
              MetaGet !in faults && m.deletionDate.None? &&
              p in w.disk.files && resp.body == w.disk.files[p] && resp.contentType == m.contentType
    ensures ResolveExisting(s, loc, w.disk.View()).Some? && MetaGet !in faults && FileOpen !in faults && FileRead !in faults ==>
              var p := ResolveExisting(s, loc, w.disk.View()).value.path;
              Lookup(w.store, p, false, lookupKey).value.deletionDate.None? && p in w.disk.files ==>
                DownloadStep(s, loc, lookupKey, faults, w).0 ==
                  Served(Lookup(w.store, p, false, lookupKey).value.contentType, w.disk.files[p])
    ensures ResolveExisting(s, loc, w.disk.View()).Some? && MetaGet !in faults ==>
              var p := ResolveExisting(s, loc, w.disk.View()).value.path;
              Lookup(w.store, p, false, lookupKey).value.deletionDate.None? ==>
                (FileOpen in faults ==> DownloadStep(s, loc, lookupKey, faults, w).0 == Status(404)) &&
                (FileOpen !in faults && (FileRead in faults || p !in w.disk.files) ==>
                   DownloadStep(s, loc, lookupKey, faults, w).0 == Failed)
  {
  }
}
