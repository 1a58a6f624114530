/** The stores that append every frame of one elapsed day (`ExecCountDaily`,
    `root/<run>/<day>/<day>.<ext>`) or of one hour counter
    (`ExecCountHourly`, `root/<run>/<day>/<hour>.<ext>`) to one file, keeping
    that file open between frames. The day and hour come from the seconds
    elapsed since the store was created. */
module TimeBoundary {
  import opened Base
  import opened Digits
  import opened Paths
  import opened FileSystem
  import opened Utils
  import opened Elapsed

  // ---------------------------------------------------------------------------
  // Run numbers and targets
  // ---------------------------------------------------------------------------

  /** The run number both constructors pick: one past the largest run
      directory, checked against `u32::MAX`. Archives are not looked at. */
  function ExecRun(dirScan: Result<Listing>): (r: Result<u32>)
    ensures dirScan.Err? ==> r == Err(dirScan.error)
    ensures dirScan.Ok? ==> (r.Err? <==> LastSeen(dirScan, None) == U32_MAX)
    ensures r.Err? && dirScan.Ok? ==> r.error == InvalidData
    ensures r.Ok? ==> dirScan.Ok? && r.value > LastSeen(dirScan, None) && r.value - 1 == LastSeen(dirScan, None)
  {
    match FindMaxIter(dirScan, None)
    case Err(e) => Err(e)
    case Ok(d) =>
      match CheckedIncrement(TruncateU32(d), U32_MAX)
      case None => Err(InvalidData)
      case Some(run) => Ok(run)
  }

  /** In an empty root the first run is `1`. */
  lemma FirstExecRun()
    ensures ExecRun(Ok([])) == Ok(1)
  {
    assert Candidates([], None) == [];
  }

  /** A new run never reuses the number of a run directory already in the
      root, as long as the largest name found fits in `u32`. */
  lemma {:induction false} NewExecRunAfterDirectory(dirs: Listing, i: nat, prev: u64)
    requires i < |dirs| && dirs[i] == Some(Entry(Padded(prev, 10), Directory))
    requires FindMaxIter(Ok(dirs), None).Ok? && FindMaxIter(Ok(dirs), None).value <= U32_MAX
    ensures ExecRun(Ok(dirs)).Ok? ==> ExecRun(Ok(dirs)).value > prev
  {
    RunDirectorySeen(prev);
    ScanCoversItem(dirs, None, i);
  }

  /** `<dir>/<n:0>10>.<ext>`: the file for counter `n` in directory `dir`. */
  function CountTarget(dir: Path, n: nat, ext: string): Path
  {
    Join(dir, Padded(n, 10) + "." + ext)
  }

  /** The directory of elapsed day `day` in a run. */
  function DayDir(runDir: Path, day: nat): Path
  {
    Join(runDir, Padded(day, 10))
  }

  /** Making a directory never makes a file's name in it exist. */
  lemma NotAnAncestor(dir: Path, n: nat, ext: string)
    ensures CountTarget(dir, n, ext) !in Ancestors(dir)
  {
  }

  /** Different counters name different files of one directory. */
  lemma CountTargetsDistinct(dir: Path, m: nat, n: nat, ext: string)
    requires m != n
    ensures CountTarget(dir, m, ext) != CountTarget(dir, n, ext)
  {
    if CountTarget(dir, m, ext) == CountTarget(dir, n, ext) {
      assert CountTarget(dir, m, ext)[|dir|] == CountTarget(dir, n, ext)[|dir|];
      StemsEqual(Padded(m, 10), Padded(n, 10), ext);
      PaddedInjective(m, n, 10);
    }
  }

  /** `ExecCountHourly` keeps one file per (day, hour counter) pair. */
  lemma HourTargetsDistinct(runDir: Path, d1: nat, h1: nat, d2: nat, h2: nat, ext: string)
    requires d1 != d2 || h1 != h2
    ensures CountTarget(DayDir(runDir, d1), h1, ext) != CountTarget(DayDir(runDir, d2), h2, ext)
  {
    if CountTarget(DayDir(runDir, d1), h1, ext) == CountTarget(DayDir(runDir, d2), h2, ext) {
      var t := CountTarget(DayDir(runDir, d1), h1, ext);
      assert t[|runDir|] == Padded(d1, 10) && t[|runDir|] == Padded(d2, 10);
      PaddedInjective(d1, d2, 10);
      CountTargetsDistinct(DayDir(runDir, d1), h1, h2, ext);
    }
  }

  /** `ExecCountDaily` writes one file per elapsed day: different days never
      share a target. */
  lemma DayTargetsDistinct(runDir: Path, d1: nat, d2: nat, ext: string)
    requires d1 != d2
    ensures CountTarget(DayDir(runDir, d1), d1, ext) != CountTarget(DayDir(runDir, d2), d2, ext)
  {
    HourTargetsDistinct(runDir, d1, d1, d2, d2, ext);
  }

  /** The hour counter after a frame `secs` seconds into the run: raised to
      the frame's hour when that is later, otherwise kept. A new day does not
      lower it. */
  function NextHour(hourcount: u16, secs: nat): (h: u16)
    ensures h >= hourcount && h >= HourOf(secs)
    ensures h == hourcount || h == HourOf(secs)
  {
    if HourOf(secs) > hourcount then HourOf(secs) else hourcount
  }

  /** After hour 5 of day 0, a frame at the very start of day 1 still goes to
      hour file `5` of the new day: the hour counter is not reset. */
  lemma HourNotResetOnNewDay()
    ensures DayOf(5 * SECS_PER_HOUR) == 0 && HourOf(5 * SECS_PER_HOUR) == 5
    ensures DayOf(SECS_PER_DAY) == 1 && HourOf(SECS_PER_DAY) == 0
    ensures NextHour(NextHour(0, 5 * SECS_PER_HOUR), SECS_PER_DAY) == 5
  {
  }

  // ---------------------------------------------------------------------------
  // The writer
  // ---------------------------------------------------------------------------

  /** The last step of `get_writer_checked`, the same in both stores: an
      existing target keeps the open writer or, when there is none, is opened
      for append without the format's initialisation; a missing target is
      created, initialised once and flushed, and becomes the writer. On an
      error the writer is left as it was. */
  method OpenTarget(fs: Fs, target: Path, writer: Option<Handle>, progname: string)
    returns (r: Result<Handle>, next: Option<Handle>)
    modifies fs
    ensures fs.dirs == old(fs.dirs) && fs.locked == old(fs.locked)
    ensures r.Ok? ==> next == Some(r.value)
    ensures r.Err? ==> next == writer
    ensures old(fs.Exists(target)) ==> fs.files == old(fs.files)
    ensures old(fs.Exists(target)) && writer.Some? ==> r == Ok(writer.value)
    ensures old(fs.Exists(target)) && writer.None? && r.Ok? ==> r.value == Handle(target) && target in fs.files
    ensures !old(fs.Exists(target)) && r.Ok? ==>
              r.value == Handle(target) && fs.files == old(fs.files)[target := [Header(progname), Flush]]
    ensures !old(fs.Exists(target)) && r.Err? ==>
              fs.files == old(fs.files) || fs.files == old(fs.files)[target := []] ||
              fs.files == old(fs.files)[target := [Header(progname)]]
  {
    if fs.Exists(target) {
      if writer.Some? {
        return Ok(writer.value), writer;
      }
      r := fs.OpenAppend(target);
      next := if r.Ok? then Some(r.value) else writer;
    } else {
      var created := fs.Create(target);
      if created.Err? {
        return Err(created.error), writer;
      }
      var init := fs.Write(created.value, Header(progname));
      if init.Err? {
        return Err(init.error), writer;
      }
      var flushed := fs.Write(created.value, Flush);
      if flushed.Err? {
        assert [] + [Header(progname)] == [Header(progname)];
        return Err(flushed.error), writer;
      }
      assert [] + [Header(progname)] + [Flush] == [Header(progname), Flush];
      r, next := created, Some(created.value);
    }
  }

  // ---------------------------------------------------------------------------
  // ExecCountDaily
  // ---------------------------------------------------------------------------

  /** One file per elapsed day, kept open between frames. */
  class ExecCountDaily {
    const runDir: Path
    const format: Format
    const progname: string
    const compressTx: Option<Channel>
    var compressHdl: Option<Worker>
    var daycount: u32
    var lastDir: Path
    var writer: Option<Handle>

    function Sink(): set<object>
    {
      if compressTx.Some? then {compressTx.value} else {}
    }

    /** The file frames of the current day go to. */
    function Target(): Path
      reads this
    {
      CountTarget(lastDir, daycount, format.extension)
    }

    ghost predicate Valid()
      reads this
    {
      lastDir == DayDir(runDir, daycount) &&
      (compressHdl.Some? ==> compressTx == Some(compressHdl.value.channel))
    }

    constructor (runDir: Path, format: Format, progname: string,
                 compressTx: Option<Channel>, compressHdl: Option<Worker>)
      requires compressHdl.Some? ==> compressTx == Some(compressHdl.value.channel)
      ensures this.runDir == runDir && this.format == format && this.progname == progname
      ensures this.compressTx == compressTx && this.compressHdl == compressHdl
      ensures daycount == 0 && writer == None && Valid()
    {
      this.runDir := runDir;
      this.format := format;
      this.progname := progname;
      this.compressTx := compressTx;
      this.compressHdl := compressHdl;
      daycount := 0;
      lastDir := DayDir(runDir, 0);
      writer := None;
    }

    /** `ExecCountDaily::new`: make the root, pick the run number, make the
        run directory and its day `0` directory, then attach to the archival
        worker. */
    static method New(fs: Fs, root: Path, format: Format, progname: string, compress: bool,
                      slot: CompressorSlot, dirScan: Result<Listing>)
      returns (r: Result<ExecCountDaily>)
      modifies fs, slot
      ensures fs.files == old(fs.files) && fs.locked == old(fs.locked)
      ensures ExecRun(dirScan).Err? ==> r.Err?
      ensures r.Err? ==> (r.error == Io || ExecRun(dirScan) == Err(r.error)) && unchanged(slot)
      ensures r.Ok? ==> fresh(r.value) && r.value.Valid()
      ensures r.Ok? ==> r.value.daycount == 0 && r.value.writer == None && r.value.progname == progname
      ensures r.Ok? ==> ExecRun(dirScan).Ok? && r.value.format == format &&
                        r.value.runDir == Join(root, Padded(ExecRun(dirScan).value, 10))
      ensures r.Ok? ==> fs.dirs == old(fs.dirs) + Ancestors(root) + Ancestors(r.value.runDir) + Ancestors(r.value.lastDir)
      ensures r.Ok? ==> !compress ==> r.value.compressTx.None?
      ensures r.Ok? ==> r.value.compressTx.Some? ==> slot.tx == r.value.compressTx
      ensures r.Ok? ==> r.value.compressHdl.Some? ==> old(slot.tx).None?
    {
      var made := fs.CreateDirAll(root);
      if made.Err? {
        return Err(made.error);
      }
      var run := ExecRun(dirScan);
      if run.Err? {
        return Err(run.error);
      }
      var runDir := Join(root, Padded(run.value, 10));
      made := fs.CreateDirAll(runDir);
      if made.Err? {
        return Err(made.error);
      }
      made := fs.CreateDirAll(DayDir(runDir, 0));
      if made.Err? {
        return Err(made.error);
      }
      var tx, hdl := GetCompressor(compress, slot);
      var s := new ExecCountDaily(runDir, format, progname, tx, hdl);
      r := Ok(s);
    }

    /** `get_writer_checked`: on a later day, hand the previous day's
        directory to the worker, move to the new day, make its directory (the
        day stays advanced if that fails) and drop the writer; then settle on
        the writer for the day's file. */
    method GetWriterChecked(fs: Fs, secs: nat) returns (r: Result<Handle>)
      requires Valid()
      modifies this, fs, Sink()
      ensures Valid()
      ensures compressHdl == old(compressHdl)
      ensures daycount >= old(daycount) && daycount >= DayOf(secs)
      ensures daycount == old(daycount) || daycount == DayOf(secs)
      ensures fs.locked == old(fs.locked)
      ensures DayOf(secs) > old(daycount) && compressTx.Some? ==>
                compressTx.value.sent == old(compressTx.value.sent) + [Some(old(lastDir))]
      ensures DayOf(secs) <= old(daycount) ==> lastDir == old(lastDir) && fs.dirs == old(fs.dirs) && unchanged(Sink())
      ensures DayOf(secs) > old(daycount) ==>
                fs.dirs == old(fs.dirs) + Ancestors(lastDir) ||
                (r == Err(Io) && fs.dirs == old(fs.dirs) && fs.files == old(fs.files) && writer == old(writer))
      ensures r.Ok? ==> writer == Some(r.value)
      ensures r.Err? ==> writer == old(writer) || writer == None
      ensures var t, prev := Target(), if DayOf(secs) > old(daycount) then None else old(writer);
              old(fs.Exists(t)) && prev.Some? ==> r == Ok(prev.value) && fs.files == old(fs.files)
      ensures var t, prev := Target(), if DayOf(secs) > old(daycount) then None else old(writer);
              r.Ok? && !(old(fs.Exists(t)) && prev.Some?) ==> r.value == Handle(t)
      ensures var t := Target(); old(fs.Exists(t)) ==> fs.files == old(fs.files)
      ensures var t := Target(); !old(fs.Exists(t)) && r.Ok? ==> fs.files == old(fs.files)[t := [Header(progname), Flush]]
    {
      var day := DayOf(secs);
      if day > daycount {
        if compressTx.Some? {
          compressTx.value.Send(Some(lastDir));
        }
        daycount := day;
        lastDir := DayDir(runDir, daycount);
        var made := fs.CreateDirAll(lastDir);
        if made.Err? {
          return Err(made.error);
        }
        writer := None;
        NotAnAncestor(lastDir, daycount, format.extension);
      }
      r, writer := OpenTarget(fs, Target(), writer, progname);
    }

    /** `Drop`: send the stop request whenever a sender is held, and wait for
        the worker if this store started it. */
    method Drop()
      requires Valid()
      modifies this, Sink(), if compressHdl.Some? then {compressHdl.value} else {}
      ensures compressTx.Some? ==> compressTx.value.sent == old(compressTx.value.sent) + [None]
      ensures old(compressHdl).Some? ==> old(compressHdl).value.joined
      ensures compressHdl.None?
    {
      Retire(compressTx, compressHdl);
      compressHdl := None;
    }
  }

  // ---------------------------------------------------------------------------
  // ExecCountHourly
  // ---------------------------------------------------------------------------

  /** One file per hour counter inside the current day's directory, kept
      open between frames. */
  class ExecCountHourly {
    const runDir: Path
    const format: Format
    const progname: string
    const compressTx: Option<Channel>
    var compressHdl: Option<Worker>
    var daycount: u32
    var hourcount: u16
    var lastDir: Path
    var writer: Option<Handle>

    function Sink(): set<object>
    {
      if compressTx.Some? then {compressTx.value} else {}
    }

    /** The file frames of the current hour counter go to. */
    function Target(): Path
      reads this
    {
      CountTarget(lastDir, hourcount, format.extension)
    }

    ghost predicate Valid()
      reads this
    {
      lastDir == DayDir(runDir, daycount) &&
      (compressHdl.Some? ==> compressTx == Some(compressHdl.value.channel))
    }

    constructor (runDir: Path, format: Format, progname: string,
                 compressTx: Option<Channel>, compressHdl: Option<Worker>)
      requires compressHdl.Some? ==> compressTx == Some(compressHdl.value.channel)
      ensures this.runDir == runDir && this.format == format && this.progname == progname
      ensures this.compressTx == compressTx && this.compressHdl == compressHdl
      ensures daycount == 0 && hourcount == 0 && writer == None && Valid()
    {
      this.runDir := runDir;
      this.format := format;
      this.progname := progname;
      this.compressTx := compressTx;
      this.compressHdl := compressHdl;
      daycount := 0;
      hourcount := 0;
      lastDir := DayDir(runDir, 0);
      writer := None;
    }

    /** `ExecCountHourly::new`: the same steps as `ExecCountDaily::new`. */
    static method New(fs: Fs, root: Path, format: Format, progname: string, compress: bool,
                      slot: CompressorSlot, dirScan: Result<Listing>)
      returns (r: Result<ExecCountHourly>)
      modifies fs, slot
      ensures fs.files == old(fs.files) && fs.locked == old(fs.locked)
      ensures ExecRun(dirScan).Err? ==> r.Err?
      ensures r.Err? ==> (r.error == Io || ExecRun(dirScan) == Err(r.error)) && unchanged(slot)
      ensures r.Ok? ==> fresh(r.value) && r.value.Valid()
      ensures r.Ok? ==> r.value.daycount == 0 && r.value.hourcount == 0 && r.value.writer == None
      ensures r.Ok? ==> ExecRun(dirScan).Ok? && r.value.format == format && r.value.progname == progname &&
                        r.value.runDir == Join(root, Padded(ExecRun(dirScan).value, 10))
      ensures r.Ok? ==> fs.dirs == old(fs.dirs) + Ancestors(root) + Ancestors(r.value.runDir) + Ancestors(r.value.lastDir)
      ensures r.Ok? ==> !compress ==> r.value.compressTx.None?
      ensures r.Ok? ==> r.value.compressTx.Some? ==> slot.tx == r.value.compressTx
      ensures r.Ok? ==> r.value.compressHdl.Some? ==> old(slot.tx).None?
    {
      var made := fs.CreateDirAll(root);
      if made.Err? {
        return Err(made.error);
      }
      var run := ExecRun(dirScan);
      if run.Err? {
        return Err(run.error);
      }
      var runDir := Join(root, Padded(run.value, 10));
      made := fs.CreateDirAll(runDir);
      if made.Err? {
        return Err(made.error);
      }
      made := fs.CreateDirAll(DayDir(runDir, 0));
      if made.Err? {
        return Err(made.error);
      }
      var tx, hdl := GetCompressor(compress, slot);
      var s := new ExecCountHourly(runDir, format, progname, tx, hdl);
      r := Ok(s);
    }

    /** The counter step of `get_writer_checked`: the day step of
        `ExecCountDaily`; then, when the frame's hour is later than the hour
        counter, raise the counter and drop the writer. A failed day
        directory stops before the hour is looked at. */
    method Advance(fs: Fs, secs: nat) returns (r: Result<()>)
      requires Valid()
      modifies this, fs, Sink()
      ensures Valid()
      ensures compressHdl == old(compressHdl)
      ensures daycount >= old(daycount) && daycount >= DayOf(secs)
      ensures daycount == old(daycount) || daycount == DayOf(secs)
      ensures fs.files == old(fs.files) && fs.locked == old(fs.locked)
      ensures DayOf(secs) > old(daycount) && compressTx.Some? ==>
                compressTx.value.sent == old(compressTx.value.sent) + [Some(old(lastDir))]
      ensures DayOf(secs) <= old(daycount) ==>
                r.Ok? && lastDir == old(lastDir) && fs.dirs == old(fs.dirs) && unchanged(Sink())
      ensures r.Err? ==>
                r.error == Io && fs.dirs == old(fs.dirs) && hourcount == old(hourcount) && writer == old(writer)
      ensures r.Ok? && DayOf(secs) > old(daycount) ==> fs.dirs == old(fs.dirs) + Ancestors(lastDir)
      ensures r.Ok? ==> hourcount == NextHour(old(hourcount), secs)
      ensures r.Ok? ==>
                writer == if DayOf(secs) > old(daycount) || HourOf(secs) > old(hourcount) then None else old(writer)
    {
      var day := DayOf(secs);
      var hour := HourOf(secs);
      if day > daycount {
        if compressTx.Some? {
          compressTx.value.Send(Some(lastDir));
        }
        daycount := day;
        lastDir := DayDir(runDir, daycount);
        var made := fs.CreateDirAll(lastDir);
        if made.Err? {
          return Err(made.error);
        }
        writer := None;
      }
      if hour > hourcount {
        hourcount := hour;
        writer := None;
      }
      r := Ok(());
    }

    /** `get_writer_checked`: advance the counters, then settle on the writer
        for the hour counter's file. */
    method GetWriterChecked(fs: Fs, secs: nat) returns (r: Result<Handle>)
      requires Valid()
      modifies this, fs, Sink()
      ensures Valid()
      ensures compressHdl == old(compressHdl)
      ensures daycount >= old(daycount) && daycount >= DayOf(secs)
      ensures daycount == old(daycount) || daycount == DayOf(secs)
      ensures fs.locked == old(fs.locked)
      ensures DayOf(secs) > old(daycount) && compressTx.Some? ==>
                compressTx.value.sent == old(compressTx.value.sent) + [Some(old(lastDir))]
      ensures DayOf(secs) <= old(daycount) ==> lastDir == old(lastDir) && fs.dirs == old(fs.dirs) && unchanged(Sink())
      ensures DayOf(secs) > old(daycount) ==>
                fs.dirs == old(fs.dirs) + Ancestors(lastDir) ||
                (r == Err(Io) && fs.dirs == old(fs.dirs) && fs.files == old(fs.files) &&
                 hourcount == old(hourcount) && writer == old(writer))
      ensures hourcount == NextHour(old(hourcount), secs) || (hourcount == old(hourcount) && r == Err(Io))
      ensures r.Ok? ==> hourcount == NextHour(old(hourcount), secs) && writer == Some(r.value)
      ensures r.Err? ==> writer == old(writer) || writer == None
      ensures var t, prev := Target(), if DayOf(secs) > old(daycount) || HourOf(secs) > old(hourcount) then None
                                       else old(writer);
              old(fs.Exists(t)) && prev.Some? ==> r == Ok(prev.value) && fs.files == old(fs.files)
      ensures var t, prev := Target(), if DayOf(secs) > old(daycount) || HourOf(secs) > old(hourcount) then None
                                       else old(writer);
              r.Ok? && !(old(fs.Exists(t)) && prev.Some?) ==> r.value == Handle(t)
      ensures var t := Target(); old(fs.Exists(t)) ==> fs.files == old(fs.files)
      ensures var t := Target(); !old(fs.Exists(t)) && r.Ok? ==> fs.files == old(fs.files)[t := [Header(progname), Flush]]
    {
      var advanced := Advance(fs, secs);
      if advanced.Err? {
        return Err(advanced.error);
      }
      NotAnAncestor(lastDir, hourcount, format.extension);
      r, writer := OpenTarget(fs, Target(), writer, progname);
    }

    /** `Drop`: send the stop request whenever a sender is held, and wait for
        the worker if this store started it. */
    method Drop()
      requires Valid()
      modifies this, Sink(), if compressHdl.Some? then {compressHdl.value} else {}
      ensures compressTx.Some? ==> compressTx.value.sent == old(compressTx.value.sent) + [None]
      ensures old(compressHdl).Some? ==> old(compressHdl).value.joined
      ensures compressHdl.None?
    {
      Retire(compressTx, compressHdl);
      compressHdl := None;
    }
  }
}
