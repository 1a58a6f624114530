/** The environment the stores act on: a filesystem of directories and files,
    advisory locks, and the format capability (`FmtInfo`) whose module is not
    part of this model. Every operating-system call may fail; when it does,
    nothing changes. */
module FileSystem {
  import opened Base
  import opened Paths

  datatype Kind = Binary | Json | Raw

  /** A format capability: its file extension, its record delimiter (used by
      Json), and the stable hash that names its lock file. */
  datatype Format = Format(kind: Kind, extension: string, delimiter: seq<byte>, typeHash: u64)

  /** One write to a file, in the order the file received them. */
  datatype Op =
    | Header(progname: string)  // the format's `initialize` hook
    | Bytes(data: seq<byte>)    // `write_all`
    | Frame(data: seq<byte>)    // `store_binary`: one framed binary record
    | Flush
    | Archive(source: Path)     // the gzip-compressed tarball of `source`

  /** An open file, appending to `path`. */
  datatype Handle = Handle(path: Path)

  /** Every non-empty prefix of `p`: what `create_dir_all(p)` makes sure exists. */
  function Ancestors(p: Path): (r: set<Path>)
    ensures forall q :: q in r ==> Under(q, p) && |q| >= 1
    ensures p != [] ==> p in r
  {
    assert p != [] ==> p[..|p|] == p;
    set i | 1 <= i <= |p| :: p[..i]
  }

  /** `m` after appending `op` to the file at `p`, if there is one. */
  function Appended(m: map<Path, seq<Op>>, p: Path, op: Op): map<Path, seq<Op>>
  {
    if p in m then m[p := m[p] + [op]] else m
  }

  /** An archive never lies under the path it archives, so removing the source
      keeps the archive. */
  lemma ArchiveOutside(p: Path)
    requires p != [] && p[|p| - 1] != ".."
    ensures !Under(p, ArchivePath(p))
  {
    var x := p[|p| - 1];
    var stem := FileStem(x);
    var s := stem + ".tar.gz";
    assert ArchivePath(p)[|p| - 1] == s;
    assert s[|stem| + 4] == '.';
    match LastDot(x)
    case None =>
      assert |s| > |x|;
    case Some(i) =>
      assert |stem| == |x| || (|stem| == i && |x| <= |stem| + 4) || x[|stem| + 4] != '.';
  }

  /** `q` is the source or the archive of one of the requests `ps`. */
  predicate Touched(q: Path, ps: seq<Path>)
  {
    ps != [] && (Touched(q, ps[..|ps| - 1]) || Under(ps[|ps| - 1], q) || q == ArchivePath(ps[|ps| - 1]))
  }

  class Fs {
    var dirs: set<Path>
    var files: map<Path, seq<Op>>
    var locked: set<Path>

    constructor (dirs: set<Path>, files: map<Path, seq<Op>>)
      ensures this.dirs == dirs && this.files == files && locked == {}
    {
      this.dirs := dirs;
      this.files := files;
      locked := {};
    }

    /** `Path::exists`. */
    predicate Exists(p: Path)
      reads this
    {
      p in dirs || p in files
    }

    predicate ParentIsDir(p: Path)
      reads this
    {
      |p| == 1 || (|p| > 1 && p[..|p| - 1] in dirs)
    }

    /** `p` or one of its ancestors is a regular file, so no directory can be made there. */
    predicate BlockedByFile(p: Path)
      reads this
    {
      exists i :: 0 < i <= |p| && p[..i] in files
    }

    /** `std::fs::create_dir_all`: fails when a regular file stands in the way. */
    method CreateDirAll(p: Path) returns (r: Result<()>)
      modifies this
      ensures r.Ok? ==> dirs == old(dirs) + Ancestors(p)
      ensures r.Err? ==> dirs == old(dirs) && r.error == Io
      ensures p == [] ==> r.Ok?
      ensures old(BlockedByFile(p)) ==> r.Err?
      ensures files == old(files) && locked == old(locked)
    {
      if p == [] {
        return Ok(());
      }
      if BlockedByFile(p) {
        return Err(Io);
      }
      if * {
        dirs := dirs + Ancestors(p);
        r := Ok(());
      } else {
        r := Err(Io);
      }
    }

    /** `File::create`: creates or truncates a file; its directory must exist. */
    method Create(p: Path) returns (r: Result<Handle>)
      modifies this
      ensures !old(ParentIsDir(p)) ==> r == Err(NotFound)
      ensures r.Ok? ==> r.value == Handle(p) && files == old(files)[p := []] && p !in dirs
      ensures r.Err? ==> files == old(files) && (r.error == NotFound || r.error == Io)
      ensures dirs == old(dirs) && locked == old(locked)
    {
      if !ParentIsDir(p) {
        return Err(NotFound);
      }
      if p in dirs {
        return Err(Io);
      }
      if * {
        files := files[p := []];
        r := Ok(Handle(p));
      } else {
        r := Err(Io);
      }
    }

    /** `OpenOptions::new().append(true).open`: the file must exist. */
    method OpenAppend(p: Path) returns (r: Result<Handle>)
      ensures p !in files ==> r.Err?
      ensures r.Ok? ==> r.value == Handle(p) && p in files
    {
      if p !in files {
        return Err(NotFound);
      }
      if * {
        r := Ok(Handle(p));
      } else {
        r := Err(Io);
      }
    }

    /** One `write_all`, `flush` or framed write through an open handle. A
        handle whose file is gone writes nowhere. */
    method Write(h: Handle, op: Op) returns (r: Result<()>)
      modifies this
      ensures r.Ok? ==> files == Appended(old(files), h.path, op)
      ensures r.Err? ==> files == old(files) && r.error == Io
      ensures dirs == old(dirs) && locked == old(locked)
    {
      if * {
        files := Appended(files, h.path, op);
        r := Ok(());
      } else {
        r := Err(Io);
      }
    }

    /** `LockFile::new`: create (truncate) the lock file, then take a
        non-blocking exclusive lock on it; a lock already held fails at once. */
    method AcquireLock(p: Path) returns (r: Result<()>)
      modifies this
      ensures old(p in locked) ==> r.Err?
      ensures r.Ok? ==> locked == old(locked) + {p} && files == old(files)[p := []]
      ensures r.Err? ==> locked == old(locked)
      ensures r.Err? ==> files == old(files) || files == old(files)[p := []]
      ensures dirs == old(dirs)
    {
      var created := Create(p);
      if created.Err? {
        return Err(created.error);
      }
      if p in locked {
        return Err(WouldBlock);
      }
      if * {
        locked := locked + {p};
        r := Ok(());
      } else {
        r := Err(Io);
      }
    }

    /** Dropping a `LockFile`: remove the file (a failure is ignored), then unlock. */
    method ReleaseLock(p: Path)
      modifies this
      ensures locked == old(locked) - {p}
      ensures files == old(files) - {p} || files == old(files)
      ensures dirs == old(dirs)
    {
      if * {
        files := files - {p};
      }
      locked := locked - {p};
    }

    /** `remove_dir_all`: removes a directory and everything under it. */
    method RemoveDirAll(p: Path) returns (r: Result<()>)
      modifies this
      ensures p !in old(dirs) ==> r.Err?
      ensures r.Ok? ==> dirs == (set d | d in old(dirs) && !Under(p, d))
      ensures r.Ok? ==> files == (map f | f in old(files) && !Under(p, f) :: old(files)[f])
      ensures r.Err? ==> dirs == old(dirs) && files == old(files)
      ensures locked == old(locked)
    {
      if p !in dirs {
        return Err(NotFound);
      }
      if * {
        dirs := set d | d in dirs && !Under(p, d);
        files := map f | f in files && !Under(p, f) :: files[f];
        r := Ok(());
      } else {
        r := Err(Io);
      }
    }

    /** One request handled by the archival worker: create `p.tar.gz`, write
        the tarball of `p` into it, and only if that succeeded remove `p`.
        Every failure is logged by the worker and otherwise ignored. */
    method ArchiveOne(p: Path)
      modifies this
      ensures locked == old(locked)
      ensures dirs <= old(dirs)
      ensures forall q :: q in old(files) && !Under(p, q) && q != ArchivePath(p) ==>
                q in files && files[q] == old(files)[q]
      ensures forall q :: q in files ==> q in old(files) || q == ArchivePath(p)
      ensures dirs != old(dirs) ==>
                ArchivePath(p) in files && files[ArchivePath(p)] == [Archive(p)] &&
                dirs == (set d | d in old(dirs) && !Under(p, d))
    {
      var out := Create(ArchivePath(p));
      if out.Ok? {
        var written := Write(out.value, Archive(p));
        if written.Ok? {
          assert files[ArchivePath(p)] == [Archive(p)];
          if p != [] && p[|p| - 1] != ".." {
            ArchiveOutside(p);
          }
          var removed := RemoveDirAll(p);
        }
      }
    }
  }
}
