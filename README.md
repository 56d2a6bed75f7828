# CUBIC-Storage core, modelled in Dafny

CUBIC-Storage is a blob-storage HTTP service. Clients create buckets (directories under a storage root), upload files into them, download them, and soft-delete them. Each file has a metadata record in an embedded key-value store. The record holds the content type, a 48-letter access key, an optional deletion date and a download counter.

This project models the two pieces the handlers rely on, and the handlers built on them:

- **`Paths`** (`src/path.rs`) models the path resolver.
  - `SafeJoin` is the component loop of `safe_join`. It is proved equal to the declarative `Joined`: the root followed by the names of the `Normal` components, unless the accumulated path is a symbolic link after some step.
  - The four existence-typed wrappers are functions over `Joined`.
  - A path is a sequence of component names. The filesystem is an oracle: the set of paths that exist and the set of paths that are symbolic links.
- **`Metadata`** (`src/metadata.rs`) models the record and its default.
  - The 48-draw key loop is `GenerateAccessKey`. Every key of the right shape is one it can produce.
  - `MetadataManager` is a class whose `store` map stands in for the key-value database.
- **`Filesystem`** is the disk the handlers drive: directories, regular files with their bytes, and symbolic links, as a `Disk` object. The standard library calls used by the handlers are methods on it.
- **`Service`** holds what the handlers share:
  - the settings;
  - the set of external calls that fail in one request (`Faults`);
  - the responses;
  - the state `World`, made of the disk and the store.
- **`Bucket`** (`src/bucket.rs`) and **`BucketGetFile`** (`src/bucket_get_file.rs`) model the handlers.
  - Each handler is an imperative method over a `Disk` and a `MetadataManager`.
  - Each method is proved to produce exactly the response and new state of a step function: `CreateBucketStep`, `UploadStep`, `DeleteStep` or `DownloadStep`.
  - The lemmas state the handler properties in terms of those step functions.
- **`Lifecycle`** states properties across handlers:
  - Which handlers keep every record attached to a path that exists.
  - That an upload's `assert!` can fire only when some record's path does not exist on disk, and a concrete run where it does.
  - The full create / upload / download / delete / re-upload scenario.

Responses: `Status(code)` is a response the handler builds itself. `Uploaded(key)` is the 200 JSON answer of an upload. `Served(type, body)` is a 200 download. `Failed` is an error returned through `?`, whose HTTP rendering belongs to the web framework. `Panicked` is a failed `assert!`.

Inputs that come from outside the program are parameters:

- `now` is the clock.
- `lookupKey` and `newKey` stand for the random keys drawn by `BlobMetadata::default()`; they are `AccessKey`, any 48-letter `A`–`Z` string.
- `faults` is the set of external calls that fail.
- Request headers are `Option<string>` values.

### Where the code departs from the intended lifecycle (the model follows the code)

- **No rollback after a failed record creation.** When `create_metadata` fails after the body was written, the file stays on disk and the answer is 500. See `Bucket.UploadCommitFailureKeepsFile`.
- **Taken path at upload.** The record's absence is checked with `assert!`, not with a conflict result. When a record already exists, the handler panics. See `Lifecycle.StaleRecordMakesUploadPanic`.
- **Upload over an active blob.** A live blob is meant to be soft-deleted before its name can be reused. The code has no explicit check for this: the early block only logs it, and the upload is refused only because `create_bucket_file` refuses a path that exists, which answers 500.
- **Download counts before the soft-delete check.** The counter is incremented and saved before the soft-delete test, so soft-deleted blobs are counted too. A record missing for an existing path is written back as a default record with count 1.
- **Status codes:**
  - An unresolved bucket or file gives 500, not 404.
  - A taken bucket name gives 500.
  - A second soft-delete gives 400.
- **No creation timestamp.** The record has no creation date.

### Places where the source disagrees with itself (the model follows the evident intent)

- `src/bucket.rs:188` calls `create_bucket_path`, which `src/path.rs` does not define. It is modelled as `create_bucket_file` (`src/path.rs:120`).
- `src/bucket_get_file.rs:44` increments `download_count`, which `BlobMetadata` (`src/metadata.rs:9-13`) does not declare. The record has a `downloadCount: nat` field, 0 in a default record.
- `src/bucket_get_file.rs:46` passes a reference where `save_metadata` takes the record by value (`src/metadata.rs:73`). It is modelled as saving the updated record.
- `src/main.rs:53` registers a `get_bucket_details` handler that does not exist. `src/main.rs` is not part of this model.

## Model

| member | source | states |
|---|---|---|
| Paths.SafeJoin | src/path.rs:51-84 | The loop returns exactly `Joined`: the root followed by the names of the `Normal` components in order, or `None` if after any component step the accumulated path is a symbolic link. Any `Some` result has the root as a prefix, which is the final `assert!`. |
| Paths.JoinedIsConfined | src/path.rs:54-81 | A successful join starts with the root, and every name past the root is the name of some `Normal` component of the input, so `..`, `/` and prefixes never move it. |
| Paths.NormalsComeFromNormal | src/path.rs:68-70 | Every name the join appends comes from a `Normal` component of the input. |
| Paths.NormalsConcat | src/path.rs:54-71 | The names collected from two concatenated component lists are the concatenation of the names collected from each. |
| Paths.NoNormalsContributeNothing | src/path.rs:55-67 | Prefix, root, current-dir and parent-dir components append nothing. |
| Paths.NoNormalsResolveToRoot | src/path.rs:54-77 | A name made only of ignored components resolves to the root. It fails only if it is non-empty and the root is a link. An empty name performs no link check at all. |
| Paths.IgnoredPrefixNormals | src/path.rs:54-71 | After an ignored component is inserted, every prefix collects the same names as the matching prefix without it. |
| Paths.IgnoredKeepsSymlinkHits | src/path.rs:73-76 | A link met with an ignored component inserted is met without it too, except the extra check of the root when the component is first. |
| Paths.IgnoredAddsNoSymlinkMiss | src/path.rs:73-76 | A link met without the ignored component is still met with it inserted. |
| Paths.IgnoredComponentIsInvisible | src/path.rs:54-77 | Inserting an ignored component anywhere except in front of everything leaves the result unchanged. In front it adds one check of the root itself. |
| Paths.CreateBucket | src/path.rs:90-99 | `Some` exactly when the join succeeds and the path does not exist. The result is tagged as not existing, is the join's path, and lies under the root. |
| Paths.GetBucket | src/path.rs:105-114 | `Some` exactly when the join succeeds and the path exists. The result is tagged as existing, is the join's path, and lies under the root. |
| Paths.CreateBucketFile | src/path.rs:120-129 | For an existing bucket: `Some` exactly when the join under the bucket succeeds and the path does not exist. The result lies under the bucket. |
| Paths.GetBucketFile | src/path.rs:135-144 | For an existing bucket: `Some` exactly when the join under the bucket succeeds and the path exists. The result lies under the bucket. |
| Paths.WrappersFailWithJoin | src/path.rs:90-144 | All four wrappers return `None` whenever the join does. |
| Paths.CreateAndGetFileExclusive | src/path.rs:120-144 | `create_bucket_file` and `get_bucket_file` never both succeed for the same bucket, name and state. Exactly one succeeds when the join does. |
| Paths.BlobUnderBucketAndRoot | src/path.rs:105-144 | A blob path resolved in a bucket lies under that bucket, and so under the storage root. |
| Metadata.Default | src/metadata.rs:15-26 | A default record has content type `"text"`, no deletion date, a download count of 0, and the 48-letter key it drew. |
| Metadata.Letter | src/metadata.rs:18 | Each draw yields a letter from `A` to `Z`; a roll r < 26 yields the letter `'A' + r`. |
| Metadata.GenerateAccessKey | src/metadata.rs:17-19 | The collecting loop yields a 48-character `A`–`Z` key whose i-th letter is the letter of the i-th draw. |
| Metadata.EveryAccessKeyIsDrawable | src/metadata.rs:17-19 | Every 48-letter `A`–`Z` string is produced by some 48 draws, so a key parameter of that shape covers every possible key. |
| Metadata.Lookup | src/metadata.rs:39-51 | An error exactly when the read fails. Otherwise it returns the stored record on a hit, and on a miss a default record with the freshly drawn key. |
| Metadata.WrittenRecordReadsBack | src/metadata.rs:39-80 | A record put into the store reads back unchanged (the serialisation round trip), and every other key reads as before. |
| Metadata.RemovedRecordReadsDefault | src/metadata.rs:39-56 | After removal the path reads as a fresh default record. |
| Metadata.MetadataManager.constructor | src/metadata.rs:33-37 | Opening the store yields the records it already held. |
| Metadata.MetadataManager.GetMetadata | src/metadata.rs:39-51 | It reads `Lookup` of the current store and writes nothing, a miss included. |
| Metadata.MetadataManager.RemoveMetadata | src/metadata.rs:53-56 | It succeeds unless the store call fails, even when the key is absent. The key is then gone and other keys are unchanged. |
| Metadata.MetadataManager.CreateMetadata | src/metadata.rs:58-68 | Three outcomes: an error, the `assert!` failing because the key is present, or the key mapped to the given record with the rest unchanged. |
| Metadata.MetadataManager.SaveMetadata | src/metadata.rs:70-80 | It succeeds unless the store call fails. The key is then mapped to the new record unconditionally and other keys are unchanged. |
| Metadata.StoreRoundTrip | src/metadata.rs:39-80 | Create, read, overwrite, read, create again (refused by the `assert!`), remove and read: each read sees the last write, and the store ends as it began. |
| Filesystem.Disk.CreateDir | src/bucket.rs:59 | `create_dir` succeeds only when the parent is a directory and nothing exists at the path. It adds exactly that directory. |
| Filesystem.Disk.CreateFile | src/bucket.rs:197 | `File::create` needs the parent directory and no directory at the path. It leaves an empty file there. |
| Filesystem.Disk.WriteAll | src/bucket.rs:206-214 | Writing the body sets the file's content, or changes nothing on failure. |
| Filesystem.Disk.RemoveFile | src/bucket.rs:156 | `remove_file` removes only a regular file. |
| Filesystem.Disk.Open | src/bucket_get_file.rs:55 | Opening succeeds on anything that exists. |
| Filesystem.Disk.ReadAll | src/bucket_get_file.rs:59 | Reading yields the file's bytes, and fails on a directory. |
| Service.ResolveExisting | src/bucket_get_file.rs:20-34 | Resolving a bucket and then a file yields an existing path under the storage root. |
| Bucket.GetBucketCreate | src/bucket.rs:44-62 | The handler's response and new disk are exactly `CreateBucketStep` of the old disk. |
| Bucket.CreateBucketNeedsKey | src/bucket.rs:50-52 | 400 exactly when the creation key is wrong, and then the disk is unchanged. |
| Bucket.CreateBucketOutcome | src/bucket.rs:50-61 | 500 exactly when the key is right but the name is unsafe or taken. Any answer but 200 changes nothing. 200 means the right key and one new directory, under the root, where nothing existed. Files and links never change. |
| Bucket.FreshRecord | src/bucket.rs:198-202 | The uploaded record has the drawn key, no deletion date and count 0. Its content type is the header's, or `"text"` without one. |
| Bucket.PutBucketUpload | src/bucket.rs:129-223 | The handler's response and new disk and store are exactly `UploadStep` of the old ones. |
| Bucket.UploadNewFileNeedsKey | src/bucket.rs:177-186 | For a file that does not resolve as existing: a missing or wrong upload key gives 400 with nothing changed, and only then. |
| Bucket.UploadBadRequestChangesNothing | src/bucket.rs:177-186 | Every 400 from an upload leaves disk and store unchanged and means the upload key was not supplied correctly. |
| Bucket.UploadOverExistingIgnoresKey | src/bucket.rs:149-176 | When the file already exists, the upload key does not affect the outcome. |
| Bucket.UploadOverActiveRefused | src/bucket.rs:165-195 | Over an active blob the answer is 500 and nothing changes: the early block leaves it, and `create_bucket_file` refuses the existing path. |
| Bucket.UploadUnreadableRecordRefused | src/bucket.rs:171-176 | An existing file whose record cannot be read gives 500 and nothing changes. |
| Bucket.UploadReclaimsSoftDeleted | src/bucket.rs:149-164 | Over a soft-deleted blob, its file and its record are both removed. The upload then continues as for a new path, without the key check. |
| Bucket.UploadSuccess | src/bucket.rs:188-222 | On success the answer carries the new record's key. The store maps the resolved path under the bucket to the fresh record, and the disk holds the body there. Nothing else changes. |
| Bucket.UploadCommitFailureKeepsFile | src/bucket.rs:197-219 | When creating the record fails after the write, the answer is 500, the written file stays, and the store is unchanged. |
| Bucket.DeleteBucketRemove | src/bucket.rs:226-280 | The handler's response and new store are exactly `DeleteStep` of the old state. The disk is not modified. |
| Bucket.DeleteTwiceRefused | src/bucket.rs:256-258 | An already soft-deleted record gives 400 whatever key is offered, and nothing changes. |
| Bucket.DeleteOutcome | src/bucket.rs:248-279 | The disk never changes, and any answer but 200 leaves the store unchanged. 200 requires the stored key and sets only the deletion date, to `now`. |
| Bucket.DeleteWrongKeyUnauthorized | src/bucket.rs:260-268 | On an active record, a missing or mismatched access key gives 401 and nothing changes. |
| BucketGetFile.GetFile | src/bucket_get_file.rs:15-67 | The handler's response and new store are exactly `DownloadStep` of the old state. The disk is not modified. |
| BucketGetFile.DownloadUnresolvedChangesNothing | src/bucket_get_file.rs:20-42 | 500 exactly when the bucket or file does not resolve or the record cannot be read, and then nothing changes. |
| BucketGetFile.DownloadCountsOnce | src/bucket_get_file.rs:44-48 | Once resolved and read, the stored count goes up by exactly one and nothing else changes, soft-deleted records included. |
| BucketGetFile.DownloadSaveFailureInvisible | src/bucket_get_file.rs:46-48 | A failed counter save does not change the response, and it leaves the state untouched. |
| BucketGetFile.DownloadSoftDeletedNotFound | src/bucket_get_file.rs:50-53 | A soft-deleted blob gives 404. |
| BucketGetFile.DownloadServesActive | src/bucket_get_file.rs:55-66 | Content is served only for an active record, and it is exactly the file's bytes with the stored content type. An active file that opens and reads is always served. An active blob whose file cannot be opened gives 404; one that opens but cannot be read (a directory, or a failed read) fails through `?`. |
| Lifecycle.CreateBucketKeepsConsistent | src/bucket.rs:44-62 | Creating a bucket keeps every record attached to a path that exists. |
| Lifecycle.DeleteKeepsConsistent | src/bucket.rs:226-280 | Soft-deleting keeps every record attached to a path that exists. |
| Lifecycle.DownloadKeepsConsistent | src/bucket_get_file.rs:15-67 | Downloading keeps every record attached to a path that exists. |
| Lifecycle.UploadKeepsConsistent | src/bucket.rs:149-219 | Uploading keeps every record attached to a path that exists, unless removing a reclaimed record fails after its file was removed. |
| Lifecycle.UploadPanicsOnlyOnStaleRecord | src/metadata.rs:64 | The `assert!` in `create_metadata` cannot fire during an upload while every record's path exists. |
| Lifecycle.StaleRecordMakesUploadPanic | src/bucket.rs:156-164 | A concrete run: a failed record removal during reclaim answers 500 and leaves a record without a file, and the next keyed upload to that name writes the file and then panics. |
| Lifecycle.SingleNameResolves | src/path.rs:51-84 | A single name with no links resolves to the parent followed by that name. |
| Lifecycle.EndToEnd | src/bucket.rs:44-280 | With no failures, the following sequence gives the stated answers. Create bucket `b1` gives 200. An upload with the key gives `K`, and a download serves it. A delete with a wrong key gives 401 with no change. A delete with `K` gives 200, and a download then gives 404. A keyless re-upload gives a new key, and a download serves the new content. |

## Left out

- `bucket_verify` (`src/bucket.rs:64-110`) is not modelled. It walks a directory tree and hashes file contents, which are library calls.
- Multipart streaming and async writes are collapsed into one write of the whole body. A write that fails part-way leaves an empty file in the model, not a partial one.
- The key-value database and JSON encoding become a map whose reads return what was written. Decoding failures fold into the `fails` flag of a read.
- Random key generation and the clock are parameters (`lookupKey`, `newKey`, `now`).
- Rust's path parsing is not modelled: names arrive already split into components.
- `Failed` does not say which HTTP status the web framework gives a propagated error.
- Concurrency and time-of-check/time-of-use races are not modelled: each handler is one atomic step over the state.
- `src/settings.rs` (environment loading) and `src/main.rs` (server wiring) are not part of this model. The two-field record of `src/file_location.rs` is `Service.FileLocation`, its names already split into components.
- Panics of `.expect` on non-UTF-8 header values are not modelled: headers are `Option<string>`.
