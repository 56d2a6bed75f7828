/**
 * The filesystem the handlers drive, as an abstract oracle: directories,
 * regular files with their content, and symbolic links. Each operation that
 * can fail for reasons outside this model (permissions, a full disk, a broken
 * request stream) takes a `fails` flag; the failures this model can see (a
 * missing parent directory, a directory where a file is expected) are decided
 * from the state itself.
 */
module Filesystem {
  import opened Common
  import opened Paths

  datatype DiskState = DiskState(dirs: set<Path>, files: map<Path, Bytes>, symlinks: set<Path>)
  {
    /** `Path::exists()`. */
    predicate Exists(p: Path) {
      p in dirs || p in files
    }

    /** What the resolver sees of this state. */
    function View(): FsView {
      FsView(dirs + files.Keys, symlinks)
    }

    predicate ParentIsDir(p: Path) {
      |p| > 0 && p[..|p| - 1] in dirs
    }
  }

  class Disk {
    var dirs: set<Path>
    var files: map<Path, Bytes>
    var symlinks: set<Path>

    constructor (initial: DiskState)
      ensures State() == initial
    {
      dirs, files, symlinks := initial.dirs, initial.files, initial.symlinks;
    }

    function State(): DiskState
      reads this
    {
      DiskState(dirs, files, symlinks)
    }

    /** `create_dir`: needs the parent directory and a free name. */
    method CreateDir(p: Path, fails: bool) returns (ok: bool)
      modifies this
      ensures ok == (!fails && old(State()).ParentIsDir(p) && !old(State()).Exists(p))
      ensures State() == if ok then old(State()).(dirs := old(dirs) + {p}) else old(State())
    {
      ok := !fails && State().ParentIsDir(p) && !State().Exists(p);
      if ok {
        dirs := dirs + {p};
      }
    }

    /** `File::create`: an empty regular file, truncating one already there; needs the parent directory. */
    method CreateFile(p: Path, fails: bool) returns (ok: bool)
      modifies this
      ensures ok == (!fails && old(State()).ParentIsDir(p) && p !in old(dirs))
      ensures State() == if ok then old(State()).(files := old(files)[p := []]) else old(State())
    {
      ok := !fails && State().ParentIsDir(p) && p !in dirs;
      if ok {
        files := files[p := []];
      }
    }

    /** Writing the whole body through a handle opened by `CreateFile`. */
    method WriteAll(p: Path, content: Bytes, fails: bool) returns (ok: bool)
      requires p in files
      modifies this
      ensures ok == !fails
      ensures State() == if ok then old(State()).(files := old(files)[p := content]) else old(State())
    {
      ok := !fails;
      if ok {
        files := files[p := content];
      }
    }

    /** `remove_file`: only a regular file can be removed. */
    method RemoveFile(p: Path, fails: bool) returns (ok: bool)
      modifies this
      ensures ok == (!fails && p in old(files))
      ensures State() == if ok then old(State()).(files := old(files) - {p}) else old(State())
    {
      ok := !fails && p in files;
      if ok {
        files := files - {p};
      }
    }

    /** `File::open` for reading: succeeds on anything that exists, a directory included. */
    method Open(p: Path, fails: bool) returns (ok: bool)
      ensures ok == (!fails && State().Exists(p))
    {
      ok := !fails && State().Exists(p);
    }

    /** `read_to_end` on an opened path: only a regular file has content to read. */
    method ReadAll(p: Path, fails: bool) returns (r: Result<Bytes>)
      ensures r.Ok? <==> !fails && p in files
      ensures r.Ok? ==> r.value == files[p]
    {
      if !fails && p in files {
        r := Ok(files[p]);
      } else {
        r := Err;
      }
    }
  }
}
