/**
 * What the HTTP handlers share: the settings they read, the external calls
 * that may fail, the responses they produce, and the state they act on.
 */
module Service {
  import opened Common
  import opened Paths
  import opened Metadata
  import opened Filesystem

  /** `AppSettings`: loaded once at start-up and only read afterwards. */
  datatype Settings = Settings(storageRoot: Path, bucketCreationKey: string, bucketUploadKey: string)

  /** `FileLocation`: the bucket and file named in a request's URL, already split into components. */
  datatype FileLocation = FileLocation(bucketName: seq<Component>, fileName: seq<Component>)

  /**
   * The external calls whose failure a handler reacts to. A handler makes
   * each call at most once, so the set of calls that fail in one request
   * describes every failure the request meets.
   */
  datatype Call =
    | MetaGet | MetaSave | MetaCreate | MetaRemove
    | DirCreate | FileCreate | FileWrite | FileRemove | FileOpen | FileRead

  type Faults = set<Call>

  datatype Response =
    | Status(code: int)                          // a response the handler builds itself, without a payload that matters
    | Uploaded(accessKey: string)                // 200 carrying `{"access_key": ...}`
    | Served(contentType: string, body: Bytes)   // 200 carrying the file, with that `Content-Type`
    | Failed                                     // the handler returned an error through `?`
    | Panicked                                   // an `assert!` failed while handling the request

  /** The shared mutable state: the filesystem and the metadata store. */
  datatype World = World(disk: DiskState, store: map<Path, BlobMetadata>)

  /** Every metadata record belongs to a path that exists on disk. */
  predicate Consistent(w: World) {
    forall p :: p in w.store ==> w.disk.Exists(p)
  }

  /** The blob path that `get_bucket` followed by `get_bucket_file` resolves a location to. */
  function ResolveExisting(s: Settings, loc: FileLocation, fs: FsView): (r: Option<BlobPath>)
    ensures r.Some? ==> r.value.marker == PathExists && r.value.path in fs.existing
    ensures r.Some? ==> s.storageRoot <= r.value.path
  {
    match GetBucket(s.storageRoot, loc.bucketName, fs)
    case None => None
    case Some(bucket) => GetBucketFile(bucket, loc.fileName, fs)
  }
}
