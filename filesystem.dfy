/**
 * The local file system the downloader reads and writes: a set of directories and a map
 * from file paths to contents. `FsState` is its value; the class `FileSystem` holds it as
 * mutable state, as the process's real file system is.
 */
module FileSystem {
  import opened Base

  datatype FsState = FsState(dirs: set<Path>, files: map<Path, Bytes>) {
    /** `os.path.exists`: a directory or a file. */
    predicate Exists(p: Path) {
      p in dirs || p in files
    }

    /** `os.path.isfile`. */
    predicate IsFile(p: Path) {
      p in files
    }

    /** No path is both a directory and a file. */
    predicate WellFormed() {
      dirs !! files.Keys
    }

    /**
     * `os.makedirs(p, exist_ok=True)`: None when it raises FileExistsError because a
     * file stands at `p`; otherwise `p` is a directory afterwards.
     */
    function MakeDirs(p: Path): (r: Option<FsState>)
      ensures r.None? <==> p in files
      ensures r.Some? ==> r.value.files == files && r.value.dirs == dirs + {p}
      ensures r.Some? && WellFormed() ==> r.value.WellFormed()
    {
      if p in files then None else Some(this.(dirs := dirs + {p}))
    }

    /**
     * `open(p, 'wb')`: None when it raises IsADirectoryError; otherwise the file exists
     * and is empty.
     */
    function OpenForWrite(p: Path): (r: Option<FsState>)
      ensures r.None? <==> p in dirs
      ensures r.Some? ==> r.value.dirs == dirs && r.value.files == files[p := []]
      ensures r.Some? && WellFormed() ==> r.value.WellFormed()
    {
      if p in dirs then None else Some(this.(files := files[p := []]))
    }
  }

  class FileSystem {
    var dirs: set<Path>
    var files: map<Path, Bytes>

    function View(): FsState
      reads this
    {
      FsState(dirs, files)
    }

    constructor (initial: FsState)
      ensures View() == initial
    {
      dirs := initial.dirs;
      files := initial.files;
    }

    method MakeDirs(p: Path) returns (ok: bool)
      modifies this
      ensures ok == old(View()).MakeDirs(p).Some?
      ensures View() == if ok then old(View()).MakeDirs(p).value else old(View())
    {
      ok := p !in files;
      if ok {
        dirs := dirs + {p};
      }
    }

    method OpenForWrite(p: Path) returns (ok: bool)
      modifies this
      ensures ok == old(View()).OpenForWrite(p).Some?
      ensures View() == if ok then old(View()).OpenForWrite(p).value else old(View())
    {
      ok := p !in dirs;
      if ok {
        files := files[p := []];
      }
    }

    /** `file.write(data)` on a file opened for writing: appends at the end. */
    method Append(p: Path, data: Bytes)
      requires p in files
      modifies this
      ensures dirs == old(dirs)
      ensures files == old(files)[p := old(files)[p] + data]
    {
      files := files[p := files[p] + data];
    }
  }
}
