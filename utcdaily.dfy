/** `UtcDaily`: every frame of one UTC date is appended to
    `root/<date>/<date>000000.<ext>`, through a writer kept open between
    frames. The root is locked for the store's kind while the store lives. */
module UtcDaily {
  import opened Base
  import opened Paths
  import opened FileSystem
  import opened Utils

  /** The file map once a store's target is open: a new target holds the
      format's header, an existing one is untouched. */
  function AfterOpen(files: map<Path, seq<Op>>, target: Path, existed: bool, progname: string)
    : (r: map<Path, seq<Op>>)
    ensures existed ==> r == files
    ensures !existed ==> target in r && r[target] == [Header(progname)]
    ensures forall q :: q != target ==> (q in r <==> q in files)
    ensures forall q :: q != target && q in files ==> r[q] == files[q]
  {
    if existed then files else files[target := [Header(progname)]]
  }

  /** The handle a store writes through: the writer already open when the
      target existed and one was open, otherwise the target itself. */
  function WriteHandle(existed: bool, writer: Option<Handle>, target: Path): (h: Handle)
    ensures !existed || writer.None? ==> h.path == target
    ensures existed && writer.Some? ==> h == writer.value
  {
    if existed && writer.Some? then writer.value else Handle(target)
  }

  /** A new target receives exactly the header and then the frame's writes:
      nothing else can be in it. */
  lemma NewTargetHoldsFrame(files: map<Path, seq<Op>>, target: Path, writer: Option<Handle>,
                            progname: string, ops: seq<Op>)
    ensures var start := AfterOpen(files, target, false, progname);
            var h := WriteHandle(false, writer, target);
            target in AppendedAll(start, h.path, ops) &&
            AppendedAll(start, h.path, ops)[target] == [Header(progname)] + ops
  {
    AppendedAllGrows(AfterOpen(files, target, false, progname), target, ops);
  }

  /** `m` after appending each of `ops` in turn to the file at `p`. */
  function AppendedAll(m: map<Path, seq<Op>>, p: Path, ops: seq<Op>): map<Path, seq<Op>>
    decreases |ops|
  {
    if ops == [] then m else AppendedAll(Appended(m, p, ops[0]), p, ops[1..])
  }

  /** Up to three writes, spelled out. */
  lemma AppendedAllUnfold(m: map<Path, seq<Op>>, p: Path, ops: seq<Op>)
    requires |ops| <= 3
    ensures |ops| == 1 ==> AppendedAll(m, p, ops) == Appended(m, p, ops[0])
    ensures |ops| == 2 ==> AppendedAll(m, p, ops) == Appended(Appended(m, p, ops[0]), p, ops[1])
    ensures |ops| == 3 ==>
              AppendedAll(m, p, ops) == Appended(Appended(Appended(m, p, ops[0]), p, ops[1]), p, ops[2])
  {
    if ops != [] {
      var m1 := Appended(m, p, ops[0]);
      if |ops| > 1 {
        var m2 := Appended(m1, p, ops[1]);
        if |ops| > 2 {
          assert AppendedAll(m2, p, ops[2..]) == Appended(m2, p, ops[2]);
        }
        assert ops[1..][1..] == ops[2..];
      }
    }
  }

  lemma {:induction false} AppendedAllGrows(m: map<Path, seq<Op>>, p: Path, ops: seq<Op>)
    requires p in m
    ensures p in AppendedAll(m, p, ops) && AppendedAll(m, p, ops)[p] == m[p] + ops
    ensures forall q :: q != p ==> (q in AppendedAll(m, p, ops) <==> q in m)
    ensures forall q :: q != p && q in m ==> AppendedAll(m, p, ops)[q] == m[q]
    decreases |ops|
  {
    if ops != [] {
      AppendedAllGrows(Appended(m, p, ops[0]), p, ops[1..]);
      assert m[p] + [ops[0]] + ops[1..] == m[p] + ops;
    }
  }

  class UtcDaily {
    const boundary: UtcBoundary
    const format: Format
    const progname: string
    const lockPath: Path
    var compressHdl: Option<Worker>
    var writer: Option<Handle>

    ghost predicate Valid()
      reads this
    {
      compressHdl.Some? ==> boundary.compressTx == Some(compressHdl.value.channel)
    }

    /** The file every frame dated `date` goes to. */
    function Target(date: string): Path
    {
      DailyFileName(Join(boundary.rootDir, date), date, "", format.extension, false)
    }

    constructor (boundary: UtcBoundary, format: Format, progname: string, lockPath: Path,
                 compressHdl: Option<Worker>)
      requires compressHdl.Some? ==> boundary.compressTx == Some(compressHdl.value.channel)
      ensures this.boundary == boundary && this.format == format && this.progname == progname
      ensures this.lockPath == lockPath && this.compressHdl == compressHdl && writer == None && Valid()
    {
      this.boundary := boundary;
      this.format := format;
      this.progname := progname;
      this.lockPath := lockPath;
      this.compressHdl := compressHdl;
      writer := None;
    }

    /** `UtcDaily::new`: make the root, lock it for this kind, and only then
        attach to the archival worker. The store starts with no current
        directory, no date and no writer. */
    static method New(fs: Fs, root: Path, format: Format, progname: string, compress: bool, slot: CompressorSlot)
      returns (r: Result<UtcDaily>)
      modifies fs, slot
      ensures r.Err? ==> unchanged(slot) && fs.locked == old(fs.locked)
      ensures old(LockPath(root, format.typeHash) in fs.locked) ==> r.Err?
      ensures r.Ok? ==> fresh(r.value) && fresh(r.value.boundary) && r.value.Valid()
      ensures r.Ok? ==> fs.dirs == old(fs.dirs) + Ancestors(root)
      ensures r.Ok? ==> r.value.lockPath == LockPath(root, format.typeHash) &&
                        fs.locked == old(fs.locked) + {r.value.lockPath}
      ensures r.Ok? ==> r.value.format == format && r.value.progname == progname && r.value.boundary.rootDir == root
      ensures r.Ok? ==> r.value.boundary.currentDir == [] && r.value.boundary.lastDate == None &&
                        r.value.writer == None
      ensures r.Ok? ==> !compress ==> r.value.boundary.compressTx.None?
      ensures r.Ok? ==> r.value.boundary.compressTx.Some? ==> slot.tx == r.value.boundary.compressTx
      ensures r.Ok? ==> r.value.compressHdl.Some? ==> old(slot.tx).None?
      ensures r.Ok? ==> r.value.boundary.compressTx.Some? ==>
                r.value.boundary.compressTx == old(slot.tx) || fresh(r.value.boundary.compressTx.value)
    {
      var made := fs.CreateDirAll(root);
      if made.Err? {
        return Err(made.error);
      }
      var lock := GetLock(fs, root, format.typeHash);
      if lock.Err? {
        return Err(lock.error);
      }
      var tx, hdl := GetCompressor(compress, slot);
      var b := new UtcBoundary(root, tx);
      var s := new UtcDaily(b, format, progname, lock.value, hdl);
      r := Ok(s);
    }

    /** `get_writer_checked`: a `New` name is created, initialised and becomes
        the writer; an `Old` name keeps the open writer, whatever file it is
        on, or with none is opened for append without initialisation. */
    method GetWriterChecked(fs: Fs, filename: CheckedFileName) returns (r: Result<Handle>)
      modifies this`writer, fs
      ensures fs.dirs == old(fs.dirs) && fs.locked == old(fs.locked)
      ensures r.Ok? ==> writer == Some(r.value)
      ensures r.Err? ==> writer == old(writer)
      ensures filename.New? && r.Ok? ==>
                r.value == Handle(filename.path) && fs.files == old(fs.files)[filename.path := [Header(progname)]]
      ensures filename.New? && r.Err? ==>
                fs.files == old(fs.files) || fs.files == old(fs.files)[filename.path := []]
      ensures filename.Old? ==> fs.files == old(fs.files)
      ensures filename.Old? && old(writer).Some? ==> r == Ok(old(writer).value)
      ensures filename.Old? && old(writer).None? && r.Ok? ==> r.value == Handle(filename.path)
    {
      if !filename.Exists() {
        var created := filename.GetWriterWithInit(fs, progname);
        if created.Err? {
          return Err(created.error);
        }
        writer := Some(created.value);
      }
      var taken := writer;
      writer := None;
      if taken.None? {
        var reopened := filename.GetWriterWithInit(fs, progname);
        if reopened.Err? {
          return Err(reopened.error);
        }
        taken := Some(reopened.value);
      }
      writer := taken;
      r := Ok(taken.value);
    }

    /** What the three `store`s share: take the date's non-single name (on
        a new date the previous directory goes to the worker first), then
        the writer for it. */
    method Open(fs: Fs, date: string) returns (r: Result<Handle>)
      requires Valid()
      modifies this`writer, boundary, fs, boundary.Sink()
      ensures Valid()
      ensures boundary.Queued(if boundary.compressTx.Some? then old(boundary.compressTx.value.sent) else [],
                              old(boundary.lastDate) != Some(date), old(boundary.currentDir))
      ensures fs.locked == old(fs.locked)
      ensures r.Ok? ==> boundary.currentDir == Join(boundary.rootDir, date) && boundary.lastDate == Some(date)
      ensures r.Ok? ==> fs.dirs == old(fs.dirs) + Ancestors(Join(boundary.rootDir, date))
      ensures r.Ok? ==> r.value == WriteHandle(old(fs.Exists(Target(date))), old(writer), Target(date))
      ensures r.Ok? ==> writer == Some(r.value)
      ensures r.Ok? ==> fs.files == AfterOpen(old(fs.files), Target(date), old(fs.Exists(Target(date))), progname)
    {
      var checked := boundary.CheckTimeUtcDaily(fs, format.extension, date, "", false);
      if checked.Err? {
        return Err(checked.error);
      }
      r := GetWriterChecked(fs, checked.value);
    }

    /** `store` for binary frames: the frame goes through the writer and the
        date's file name is returned. */
    method StoreBinary(fs: Fs, date: string, data: seq<byte>) returns (r: Result<Path>)
      requires Valid()
      modifies this`writer, boundary, fs, boundary.Sink()
      ensures Valid()
      ensures boundary.Queued(if boundary.compressTx.Some? then old(boundary.compressTx.value.sent) else [],
                              old(boundary.lastDate) != Some(date), old(boundary.currentDir))
      ensures fs.locked == old(fs.locked)
      ensures r.Ok? ==> r.value == Target(date) && boundary.lastDate == Some(date) &&
                        boundary.currentDir == Join(boundary.rootDir, date)
      ensures r.Ok? ==> fs.dirs == old(fs.dirs) + Ancestors(Join(boundary.rootDir, date))
      ensures var h := WriteHandle(old(fs.Exists(Target(date))), old(writer), Target(date));
              r.Ok? ==> writer == Some(h) &&
                        fs.files == AppendedAll(AfterOpen(old(fs.files), Target(date), old(fs.Exists(Target(date))),
                                                          progname), h.path, [Frame(data)])
    {
      var h := Open(fs, date);
      if h.Err? {
        return Err(h.error);
      }
      var written := fs.Write(h.value, Frame(data));
      if written.Err? {
        return Err(written.error);
      }
      r := Ok(Target(date));
    }

    /** `store` for JSON frames: the serialized value (`None` when serde
        cannot serialize it, an `InvalidInput` error), then the format's
        delimiter, then a flush. */
    method StoreJson(fs: Fs, date: string, repr: Option<seq<byte>>) returns (r: Result<Path>)
      requires Valid()
      modifies this`writer, boundary, fs, boundary.Sink()
      ensures Valid()
      ensures boundary.Queued(if boundary.compressTx.Some? then old(boundary.compressTx.value.sent) else [],
                              old(boundary.lastDate) != Some(date), old(boundary.currentDir))
      ensures fs.locked == old(fs.locked)
      ensures repr.None? ==> r.Err?
      ensures r.Ok? ==> r.value == Target(date) && boundary.lastDate == Some(date) &&
                        boundary.currentDir == Join(boundary.rootDir, date)
      ensures r.Ok? ==> fs.dirs == old(fs.dirs) + Ancestors(Join(boundary.rootDir, date))
      ensures var h := WriteHandle(old(fs.Exists(Target(date))), old(writer), Target(date));
              r.Ok? ==> repr.Some? && writer == Some(h) &&
                        fs.files == AppendedAll(AfterOpen(old(fs.files), Target(date), old(fs.Exists(Target(date))),
                                                          progname),
                                                h.path, [Bytes(repr.value), Bytes(format.delimiter), Flush])
    {
      var h := Open(fs, date);
      if h.Err? {
        return Err(h.error);
      }
      if repr.None? {
        return Err(InvalidInput);
      }
      ghost var ready := fs.files;
      var written := fs.Write(h.value, Bytes(repr.value));
      if written.Err? {
        return Err(written.error);
      }
      written := fs.Write(h.value, Bytes(format.delimiter));
      if written.Err? {
        return Err(written.error);
      }
      written := fs.Write(h.value, Flush);
      if written.Err? {
        return Err(written.error);
      }
      AppendedAllUnfold(ready, h.value.path, [Bytes(repr.value), Bytes(format.delimiter), Flush]);
      r := Ok(Target(date));
    }

    /** `store` for raw bytes: written verbatim, then a flush. */
    method StoreRaw(fs: Fs, date: string, data: seq<byte>) returns (r: Result<Path>)
      requires Valid()
      modifies this`writer, boundary, fs, boundary.Sink()
      ensures Valid()
      ensures boundary.Queued(if boundary.compressTx.Some? then old(boundary.compressTx.value.sent) else [],
                              old(boundary.lastDate) != Some(date), old(boundary.currentDir))
      ensures fs.locked == old(fs.locked)
      ensures r.Ok? ==> r.value == Target(date) && boundary.lastDate == Some(date) &&
                        boundary.currentDir == Join(boundary.rootDir, date)
      ensures r.Ok? ==> fs.dirs == old(fs.dirs) + Ancestors(Join(boundary.rootDir, date))
      ensures var h := WriteHandle(old(fs.Exists(Target(date))), old(writer), Target(date));
              r.Ok? ==> writer == Some(h) &&
                        fs.files == AppendedAll(AfterOpen(old(fs.files), Target(date), old(fs.Exists(Target(date))),
                                                          progname), h.path, [Bytes(data), Flush])
    {
      var h := Open(fs, date);
      if h.Err? {
        return Err(h.error);
      }
      ghost var ready := fs.files;
      var written := fs.Write(h.value, Bytes(data));
      if written.Err? {
        return Err(written.error);
      }
      written := fs.Write(h.value, Flush);
      if written.Err? {
        return Err(written.error);
      }
      AppendedAllUnfold(ready, h.value.path, [Bytes(data), Flush]);
      r := Ok(Target(date));
    }

    /** `Drop`: only the store that owns the worker sends the stop request and
        waits for it; then the lock file is removed and unlocked. */
    method Drop(fs: Fs)
      requires Valid()
      modifies this`compressHdl, fs, boundary.Sink(), if compressHdl.Some? then {compressHdl.value} else {}
      ensures old(compressHdl).Some? ==>
                boundary.compressTx.value.sent == old(boundary.compressTx.value.sent) + [None] &&
                old(compressHdl).value.joined
      ensures old(compressHdl).None? ==> unchanged(boundary.Sink())
      ensures compressHdl.None?
      ensures fs.locked == old(fs.locked) - {lockPath} && fs.dirs == old(fs.dirs)
    {
      if boundary.compressTx.Some? && compressHdl.Some? {
        boundary.compressTx.value.Send(None);
        compressHdl.value.Join();
        compressHdl := None;
      }
      fs.ReleaseLock(lockPath);
    }
  }

  /** The first store of a new `UtcDaily` hands the worker the initial, empty
      current directory, since no date has been seen yet. */
  method FirstStoreQueuesEmptyDir(fs: Fs, root: Path, format: Format, progname: string,
                                  slot: CompressorSlot, date: string, data: seq<byte>)
    returns (r: Result<UtcDaily>)
    modifies fs, slot, if slot.tx.Some? then {slot.tx.value} else {}
    ensures r.Ok? && r.value.boundary.compressTx.Some? ==>
              var sent := r.value.boundary.compressTx.value.sent;
              |sent| > 0 && sent[|sent| - 1] == Some([])
  {
    r := UtcDaily.New(fs, root, format, progname, true, slot);
    if r.Ok? {
      var stored := r.value.StoreRaw(fs, date, data);
    }
  }

  /** A store on a second date hands the worker the first date's directory. */
  method NewDateQueuesPreviousDir(d: UtcDaily, fs: Fs, d1: string, d2: string, data: seq<byte>)
    returns (first: Result<Path>, second: Result<Path>)
    requires d.Valid() && d1 != d2
    modifies d`writer, d.boundary, fs, d.boundary.Sink()
    ensures first.Ok? && second.Ok? && d.boundary.compressTx.Some? ==>
              var sent := d.boundary.compressTx.value.sent;
              |sent| > 0 && sent[|sent| - 1] == Some(Join(d.boundary.rootDir, d1))
  {
    first := d.StoreBinary(fs, d1, data);
    second := d.StoreBinary(fs, d2, data);
  }
}
