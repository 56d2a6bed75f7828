/**
 * The path resolver (`PathManager`): turns untrusted bucket and file names into
 * paths confined to a root, rejecting any walk that lands on a symbolic link,
 * and tags each resolved path with whether it existed when it was resolved.
 *
 * A path is the sequence of its component names below the filesystem's top;
 * `root <= p` (sequence prefix) is `Path::starts_with`. The filesystem is an
 * abstract oracle: the set of paths that exist and the set of paths that are
 * symbolic links.
 */
module Paths {
  import opened Common

  type Path = seq<string>

  /** One item of `Path::components()`. */
  datatype Component =
    | Prefix(drive: string)  // a Windows drive or share prefix
    | RootDir                // a leading `/`
    | CurDir                 // `.`
    | ParentDir              // `..`
    | Normal(name: string)   // an ordinary name

  /** What the resolver may ask of the filesystem. */
  datatype FsView = FsView(existing: set<Path>, symlinks: set<Path>)

  /** The existence witness (`PathExists` / `PathDoesntExist` in the type of a path). */
  datatype Existence = PathExists | PathDoesntExist

  datatype BucketPath = BucketPath(path: Path, marker: Existence)

  datatype BlobPath = BlobPath(path: Path, marker: Existence)

  /** The names a component contributes to the joined path: only `Normal` ones contribute. */
  function NameOf(c: Component): seq<string> {
    if c.Normal? then [c.name] else []
  }

  /** The names of the `Normal` components of `comps`, in their original order. */
  function Normals(comps: seq<Component>): seq<string> {
    if comps == [] then [] else Normals(comps[..|comps| - 1]) + NameOf(comps[|comps| - 1])
  }

  /**
   * The symbolic-link test of `safe_join` fires: after some component step
   * k (1-based, ignored components included) the accumulated path is a link.
   */
  predicate MeetsSymlink(root: Path, comps: seq<Component>, symlinks: set<Path>) {
    exists k :: 1 <= k <= |comps| && root + Normals(comps[..k]) in symlinks
  }

  /** What `safe_join` yields: the root followed by the normal names, unless a step met a link. */
  function Joined(root: Path, comps: seq<Component>, symlinks: set<Path>): Option<Path> {
    if MeetsSymlink(root, comps, symlinks) then None else Some(root + Normals(comps))
  }

  /**
   * `safe_join`: walks the components, appends only `Normal` names, checks the
   * accumulated path for a symbolic link after every component, and finally
   * asserts that the result still lies under the root.
   */
  method SafeJoin(root: Path, comps: seq<Component>, fs: FsView) returns (r: Option<Path>)
    ensures r == Joined(root, comps, fs.symlinks)
    ensures r.Some? ==> root <= r.value
  {
    var target := root;
    for i := 0 to |comps|
      invariant target == root + Normals(comps[..i])
      invariant forall k :: 1 <= k <= i ==> root + Normals(comps[..k]) !in fs.symlinks
    {
      assert comps[..i + 1][..i] == comps[..i];
      assert Normals(comps[..i + 1]) == Normals(comps[..i]) + NameOf(comps[i]);
      match comps[i] {
        case Prefix(_) =>    // the drive or share is the root's
        case RootDir =>      // we always start from our own root
        case CurDir =>       // staying in place
        case ParentDir =>    // going up is never allowed
        case Normal(name) =>
          target := target + [name];
      }
      assert target == root + Normals(comps[..i + 1]);
      // no step may land on a symbolic link
      if target in fs.symlinks {
        assert root + Normals(comps[..i + 1]) in fs.symlinks;
        return None;
      }
    }
    assert comps[..|comps|] == comps;
    assert root <= target;
    return Some(target);
  }

  /** `create_bucket`: a bucket path that resolves safely and does not exist yet. */
  function CreateBucket(root: Path, name: seq<Component>, fs: FsView): (r: Option<BucketPath>)
    ensures r.Some? ==> r.value.marker == PathDoesntExist && r.value.path !in fs.existing
    ensures r.Some? ==> Joined(root, name, fs.symlinks) == Some(r.value.path) && root <= r.value.path
    ensures r.None? <==> Joined(root, name, fs.symlinks).None? || Joined(root, name, fs.symlinks).value in fs.existing
  {
    match Joined(root, name, fs.symlinks)
    case None => None
    case Some(path) => if path in fs.existing then None else Some(BucketPath(path, PathDoesntExist))
  }

  /** `get_bucket`: a bucket path that resolves safely and exists. */
  function GetBucket(root: Path, name: seq<Component>, fs: FsView): (r: Option<BucketPath>)
    ensures r.Some? ==> r.value.marker == PathExists && r.value.path in fs.existing
    ensures r.Some? ==> Joined(root, name, fs.symlinks) == Some(r.value.path) && root <= r.value.path
    ensures r.None? <==> Joined(root, name, fs.symlinks).None? || Joined(root, name, fs.symlinks).value !in fs.existing
  {
    match Joined(root, name, fs.symlinks)
    case None => None
    case Some(path) => if path in fs.existing then Some(BucketPath(path, PathExists)) else None
  }

  /** `create_bucket_file`: a blob path inside an existing bucket that does not exist yet. */
  function CreateBucketFile(bucket: BucketPath, file: seq<Component>, fs: FsView): (r: Option<BlobPath>)
    requires bucket.marker == PathExists
    ensures r.Some? ==> r.value.marker == PathDoesntExist && r.value.path !in fs.existing
    ensures r.Some? ==> Joined(bucket.path, file, fs.symlinks) == Some(r.value.path) && bucket.path <= r.value.path
    ensures r.None? <==> Joined(bucket.path, file, fs.symlinks).None? || Joined(bucket.path, file, fs.symlinks).value in fs.existing
  {
    match Joined(bucket.path, file, fs.symlinks)
    case None => None
    case Some(path) => if path in fs.existing then None else Some(BlobPath(path, PathDoesntExist))
  }

  /** `get_bucket_file`: a blob path inside an existing bucket that exists. */
  function GetBucketFile(bucket: BucketPath, file: seq<Component>, fs: FsView): (r: Option<BlobPath>)
    requires bucket.marker == PathExists
    ensures r.Some? ==> r.value.marker == PathExists && r.value.path in fs.existing
    ensures r.Some? ==> Joined(bucket.path, file, fs.symlinks) == Some(r.value.path) && bucket.path <= r.value.path
    ensures r.None? <==> Joined(bucket.path, file, fs.symlinks).None? || Joined(bucket.path, file, fs.symlinks).value !in fs.existing
  {
    match Joined(bucket.path, file, fs.symlinks)
    case None => None
    case Some(path) => if path in fs.existing then Some(BlobPath(path, PathExists)) else None
  }

  // ---------------------------------------------------------------------------
  // Properties of the resolver

  lemma {:induction false} NormalsConcat(a: seq<Component>, b: seq<Component>)
    ensures Normals(a + b) == Normals(a) + Normals(b)
    decreases |b|
  {
    if b == [] {
      assert a + b == a;
    } else {
      var b' := b[..|b| - 1];
      assert (a + b)[..|a + b| - 1] == a + b';
      NormalsConcat(a, b');
    }
  }

  /** Every name the join appends is the name of some `Normal` component of the input. */
  lemma {:induction false} NormalsComeFromNormal(comps: seq<Component>, i: nat)
    requires i < |Normals(comps)|
    ensures exists j :: 0 <= j < |comps| && comps[j] == Normal(Normals(comps)[i])
    decreases |comps|
  {
    var init := comps[..|comps| - 1];
    if i < |Normals(init)| {
      NormalsComeFromNormal(init, i);
      var j :| 0 <= j < |init| && init[j] == Normal(Normals(init)[i]);
      assert comps[j] == init[j];
    } else {
      assert comps[|comps| - 1] == Normal(Normals(comps)[i]);
    }
  }

  /**
   * Confinement: a successful join is the root followed only by names of
   * `Normal` components, so no `..`, root marker or drive prefix moves it.
   */
  lemma JoinedIsConfined(root: Path, comps: seq<Component>, symlinks: set<Path>)
    requires Joined(root, comps, symlinks).Some?
    ensures root <= Joined(root, comps, symlinks).value
    ensures forall i :: |root| <= i < |Joined(root, comps, symlinks).value| ==>
              exists j :: 0 <= j < |comps| && comps[j] == Normal(Joined(root, comps, symlinks).value[i])
  {
    var r := Joined(root, comps, symlinks).value;
    forall i | |root| <= i < |r|
      ensures exists j :: 0 <= j < |comps| && comps[j] == Normal(r[i])
    {
      assert r[i] == Normals(comps)[i - |root|];
      NormalsComeFromNormal(comps, i - |root|);
    }
  }

  lemma {:induction false} NoNormalsContributeNothing(comps: seq<Component>)
    requires forall i :: 0 <= i < |comps| ==> !comps[i].Normal?
    ensures Normals(comps) == []
    decreases |comps|
  {
    if comps != [] {
      NoNormalsContributeNothing(comps[..|comps| - 1]);
    }
  }

  /**
   * A name made only of `..`, `.`, root markers and prefixes resolves to the
   * root itself; it fails only when it is non-empty and the root is a link.
   */
  lemma NoNormalsResolveToRoot(root: Path, comps: seq<Component>, symlinks: set<Path>)
    requires forall i :: 0 <= i < |comps| ==> !comps[i].Normal?
    ensures Joined(root, comps, symlinks) == if |comps| > 0 && root in symlinks then None else Some(root)
  {
    NoNormalsContributeNothing(comps);
    forall k | 1 <= k <= |comps|
      ensures root + Normals(comps[..k]) == root
    {
      NoNormalsContributeNothing(comps[..k]);
    }
    if |comps| > 0 && root in symlinks {
      assert root + Normals(comps[..1]) in symlinks;
    } else {
      assert root + Normals(comps) == root;
    }
  }

  /**
   * How the prefixes of `a + [c] + b` line up with those of `a + b` when `c`
   * is ignored: up to `a` they coincide, past `c` they are one step behind.
   */
  lemma IgnoredPrefixNormals(a: seq<Component>, c: Component, b: seq<Component>, k: nat)
    requires !c.Normal? && k <= |a| + 1 + |b|
    ensures k <= |a| ==> Normals((a + [c] + b)[..k]) == Normals((a + b)[..k])
    ensures k > |a| ==> Normals((a + [c] + b)[..k]) == Normals((a + b)[..k - 1])
  {
    var x, y := a + [c] + b, a + b;
    if k <= |a| {
      assert x[..k] == y[..k];
    } else {
      var j := k - |a| - 1;
      assert x[..k] == (a + [c]) + b[..j];
      assert y[..k - 1] == a + b[..j];
      assert [c][..0] == [];
      assert Normals([c]) == [];
      NormalsConcat(a, [c]);
      NormalsConcat(a + [c], b[..j]);
      NormalsConcat(a, b[..j]);
    }
  }

  lemma IgnoredKeepsSymlinkHits(root: Path, a: seq<Component>, c: Component, b: seq<Component>, symlinks: set<Path>)
    requires !c.Normal?
    ensures MeetsSymlink(root, a + [c] + b, symlinks) ==>
              MeetsSymlink(root, a + b, symlinks) || (a == [] && root in symlinks)
  {
    var x, y := a + [c] + b, a + b;
    if MeetsSymlink(root, x, symlinks) {
      var k :| 1 <= k <= |x| && root + Normals(x[..k]) in symlinks;
      IgnoredPrefixNormals(a, c, b, k);
      if k <= |a| {
        assert root + Normals(y[..k]) in symlinks;
      } else if k == 1 {
        // in front of everything: the step checks the root itself
        assert a == [] && x[..1] == [c];
        assert Normals([c][..0]) == [];
        assert root + Normals(x[..1]) == root;
      } else {
        assert root + Normals(y[..k - 1]) in symlinks;
      }
    }
  }

  lemma IgnoredAddsNoSymlinkMiss(root: Path, a: seq<Component>, c: Component, b: seq<Component>, symlinks: set<Path>)
    requires !c.Normal?
    ensures MeetsSymlink(root, a + b, symlinks) ==> MeetsSymlink(root, a + [c] + b, symlinks)
  {
    var x, y := a + [c] + b, a + b;
    if MeetsSymlink(root, y, symlinks) {
      var k :| 1 <= k <= |y| && root + Normals(y[..k]) in symlinks;
      if k <= |a| {
        IgnoredPrefixNormals(a, c, b, k);
        assert root + Normals(x[..k]) in symlinks;
      } else {
        IgnoredPrefixNormals(a, c, b, k + 1);
        assert root + Normals(x[..k + 1]) in symlinks;
      }
    }
  }

  /**
   * Inserting an ignored component anywhere but in front of everything changes
   * nothing: it appends no name and re-checks a path already checked. In front
   * it adds one check, of the root itself.
   */
  lemma IgnoredComponentIsInvisible(root: Path, a: seq<Component>, c: Component, b: seq<Component>, symlinks: set<Path>)
    requires !c.Normal?
    requires |a| > 0 || root !in symlinks
    ensures Joined(root, a + [c] + b, symlinks) == Joined(root, a + b, symlinks)
  {
    var x, y := a + [c] + b, a + b;
    IgnoredPrefixNormals(a, c, b, |x|);
    assert x[..|x|] == x && y[..|y|] == y;
    IgnoredKeepsSymlinkHits(root, a, c, b, symlinks);
    IgnoredAddsNoSymlinkMiss(root, a, c, b, symlinks);
  }

  /** Every wrapper fails whenever the join fails. */
  lemma WrappersFailWithJoin(root: Path, bucket: BucketPath, name: seq<Component>, fs: FsView)
    requires bucket.marker == PathExists
    ensures Joined(root, name, fs.symlinks).None? ==> CreateBucket(root, name, fs).None? && GetBucket(root, name, fs).None?
    ensures Joined(bucket.path, name, fs.symlinks).None? ==>
              CreateBucketFile(bucket, name, fs).None? && GetBucketFile(bucket, name, fs).None?
  {
  }

  /**
   * For one bucket, name and filesystem state, at most one of `create_bucket_file`
   * and `get_bucket_file` succeeds, and exactly one does when the join succeeds.
   */
  lemma CreateAndGetFileExclusive(bucket: BucketPath, file: seq<Component>, fs: FsView)
    requires bucket.marker == PathExists
    ensures !(CreateBucketFile(bucket, file, fs).Some? && GetBucketFile(bucket, file, fs).Some?)
    ensures Joined(bucket.path, file, fs.symlinks).Some? ==>
              CreateBucketFile(bucket, file, fs).Some? || GetBucketFile(bucket, file, fs).Some?
  {
  }

  /** A blob path lies under the bucket it was resolved in, and so under the storage root. */
  lemma BlobUnderBucketAndRoot(root: Path, bucketName: seq<Component>, file: seq<Component>, fs: FsView)
    requires GetBucket(root, bucketName, fs).Some?
    ensures var bucket := GetBucket(root, bucketName, fs).value;
            (CreateBucketFile(bucket, file, fs).Some? ==>
               bucket.path <= CreateBucketFile(bucket, file, fs).value.path &&
               root <= CreateBucketFile(bucket, file, fs).value.path) &&
            (GetBucketFile(bucket, file, fs).Some? ==>
               bucket.path <= GetBucketFile(bucket, file, fs).value.path &&
               root <= GetBucketFile(bucket, file, fs).value.path)
  {
  }
}
