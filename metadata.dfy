/**
 * Per-blob metadata and its store (`BlobMetadata`, `MetadataManager`).
 *
 * The embedded key-value database becomes a map from blob path to record;
 * a path's bytes identify it uniquely, so keying by the path itself loses
 * nothing, and JSON encoding followed by decoding gives back the record.
 * Each store call that touches the database takes a `fails` flag standing
 * for an I/O or decoding error reported by that call.
 */
module Metadata {
  import opened Common
  import opened Paths

  /** Seconds since an epoch; only equality and presence matter here. */
  type Timestamp = int

  /** The shape of a generated access key: 48 characters from `A` to `Z`. */
  predicate IsAccessKey(k: string) {
    |k| == 48 && forall i :: 0 <= i < |k| ==> 'A' <= k[i] <= 'Z'
  }

  type AccessKey = k: string | IsAccessKey(k)
    witness seq(48, _ => 'A')

  datatype BlobMetadata = BlobMetadata(
    contentType: string,
    accessKey: string,
    deletionDate: Option<Timestamp>,
    downloadCount: nat)

  /** `BlobMetadata::default()` once its random key has been drawn. */
  function Default(key: AccessKey): (m: BlobMetadata)
    ensures IsDefault(m) && m.accessKey == key
  {
    BlobMetadata("text", key, None, 0)
  }

  /** What every default record looks like, whatever key it drew. */
  predicate IsDefault(m: BlobMetadata) {
    m.contentType == "text" && IsAccessKey(m.accessKey) && m.deletionDate.None? && m.downloadCount == 0
  }

  /** The letter `gen_range('A'..='Z')` yields for one draw of the generator. */
  function Letter(roll: nat): (c: char)
    ensures 'A' <= c <= 'Z'
    ensures roll < 26 ==> c as int == 'A' as int + roll
  {
    ('A' as int + roll % 26) as char
  }

  /** The collecting loop of `BlobMetadata::default()`: one letter per draw, 48 draws. */
  method GenerateAccessKey(rolls: seq<nat>) returns (key: AccessKey)
    requires |rolls| >= 48
    ensures forall i :: 0 <= i < 48 ==> key[i] == Letter(rolls[i])
  {
    var k := "";
    for i := 0 to 48
      invariant |k| == i
      invariant forall j :: 0 <= j < i ==> k[j] == Letter(rolls[j])
    {
      k := k + [Letter(rolls[i])];
    }
    key := k;
  }

  /** Every key of the right shape is what some 48 draws produce, so the shape is all a key is known to have. */
  lemma EveryAccessKeyIsDrawable(key: AccessKey)
    ensures exists rolls: seq<nat> :: |rolls| == 48 && forall i :: 0 <= i < 48 ==> key[i] == Letter(rolls[i])
  {
    var rolls: seq<nat> := seq(48, i requires 0 <= i < 48 => (key[i] as int - 'A' as int) as nat);
    forall i | 0 <= i < 48
      ensures key[i] == Letter(rolls[i])
    {
      assert rolls[i] < 26;
    }
  }

  /** What `get_metadata` reads for `p`: the stored record, or a fresh default on a miss. */
  function Lookup(store: map<Path, BlobMetadata>, p: Path, fails: bool, freshKey: AccessKey): (r: Result<BlobMetadata>)
    ensures r.Err? <==> fails
    ensures r.Ok? && p in store ==> r.value == store[p]
    ensures r.Ok? && p !in store ==> IsDefault(r.value) && r.value.accessKey == freshKey
  {
    if fails then Err else if p in store then Ok(store[p]) else Ok(Default(freshKey))
  }

  /** A record put into the store, by `create_metadata` or `save_metadata`, reads back unchanged; other keys read as before. */
  lemma WrittenRecordReadsBack(store: map<Path, BlobMetadata>, p: Path, m: BlobMetadata, q: Path, freshKey: AccessKey)
    ensures Lookup(store[p := m], p, false, freshKey) == Ok(m)
    ensures q != p ==> Lookup(store[p := m], q, false, freshKey) == Lookup(store, q, false, freshKey)
  {
  }

  /** After `remove_metadata` the path reads as a default again. */
  lemma RemovedRecordReadsDefault(store: map<Path, BlobMetadata>, p: Path, freshKey: AccessKey)
    ensures Lookup(store - {p}, p, false, freshKey) == Ok(Default(freshKey))
  {
  }

  /** Outcome of `create_metadata`: stored, an error, or its `assert!` on an absent key failing. */
  datatype CreateOutcome = Created | CreateError | KeyAlreadyPresent

  class MetadataManager {
    var store: map<Path, BlobMetadata>

    /** Opens a database that already holds `existing`. */
    constructor (existing: map<Path, BlobMetadata>)
      ensures store == existing
    {
      store := existing;
    }

    method GetMetadata(blob: BlobPath, fails: bool, freshKey: AccessKey) returns (r: Result<BlobMetadata>)
      requires blob.marker == PathExists
      ensures r == Lookup(store, blob.path, fails, freshKey)
    {
      if fails {
        return Err;
      }
      if blob.path in store {
        r := Ok(store[blob.path]);
      } else {
        r := Ok(Default(freshKey));
      }
    }

    method RemoveMetadata(blob: BlobPath, fails: bool) returns (ok: bool)
      requires blob.marker == PathExists
      modifies this
      ensures ok == !fails
      ensures store == if ok then old(store) - {blob.path} else old(store)
    {
      ok := !fails;
      if ok {
        store := store - {blob.path};
      }
    }

    method CreateMetadata(blob: BlobPath, meta: BlobMetadata, fails: bool) returns (out: CreateOutcome)
      requires blob.marker == PathDoesntExist
      modifies this
      ensures out == if fails then CreateError else if blob.path in old(store) then KeyAlreadyPresent else Created
      ensures store == if out == Created then old(store)[blob.path := meta] else old(store)
    {
      if fails {
        return CreateError;
      }
      if blob.path in store {
        return KeyAlreadyPresent;
      }
      store := store[blob.path := meta];
      out := Created;
    }

    method SaveMetadata(blob: BlobPath, meta: BlobMetadata, fails: bool) returns (ok: bool)
      requires blob.marker == PathExists
      modifies this
      ensures ok == !fails
      ensures store == if ok then old(store)[blob.path := meta] else old(store)
    {
      ok := !fails;
      if ok {
        store := store[blob.path := meta];
      }
    }
  }

  /** A client of the store: create, overwrite, read back, remove. */
  method StoreRoundTrip(mm: MetadataManager, p: Path, first: BlobMetadata, second: BlobMetadata, freshKey: AccessKey)
    requires p !in mm.store
    modifies mm
    ensures mm.store == old(mm.store)
  {
    var created := mm.CreateMetadata(BlobPath(p, PathDoesntExist), first, false);
    assert created == Created;
    var read := mm.GetMetadata(BlobPath(p, PathExists), false, freshKey);
    assert read == Ok(first);
    var saved := mm.SaveMetadata(BlobPath(p, PathExists), second, false);
    read := mm.GetMetadata(BlobPath(p, PathExists), false, freshKey);
    assert read == Ok(second);
    var again := mm.CreateMetadata(BlobPath(p, PathDoesntExist), first, false);
    assert again == KeyAlreadyPresent;
    var removed := mm.RemoveMetadata(BlobPath(p, PathExists), false);
    read := mm.GetMetadata(BlobPath(p, PathExists), false, freshKey);
    assert read == Ok(Default(freshKey));
    assert mm.store == old(mm.store);
  }
}
