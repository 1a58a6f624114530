/** The stores that hand out one new file per frame: `UtcSingleFrame`
    (`root/<date>/<date><time>.<ext>`), `ExecCountSingleFrame`
    (`root/<run>/<frame>.<ext>`) and `ExecCountDailySingleFrame`
    (`root/<run>/<day>/<frame>.<ext>`). Each store only returns a target that
    does not exist yet, and never writes into a file that did. */
module SingleFrame {
  import opened Base
  import opened Digits
  import opened Paths
  import opened FileSystem
  import opened Utils
  import opened Elapsed

  // ---------------------------------------------------------------------------
  // Run numbers
  // ---------------------------------------------------------------------------

  /** The run number `ExecCountSingleFrame::new` picks: one past the largest
      run directory or one past the largest `N.gz` archive, whichever is
      larger. The directory scan and its increment come first; an increment
      past `u32::MAX` is `InvalidData`. */
  function SingleFrameRun(dirScan: Result<Listing>, gzScan: Result<Listing>): (r: Result<u32>)
    ensures dirScan.Err? ==> r == Err(dirScan.error)
    ensures dirScan.Ok? && LastSeen(dirScan, None) == U32_MAX ==> r == Err(InvalidData)
    ensures dirScan.Ok? && LastSeen(dirScan, None) < U32_MAX && gzScan.Err? ==> r == Err(gzScan.error)
    ensures dirScan.Ok? && gzScan.Ok? ==>
              (r.Err? <==> LastSeen(dirScan, None) == U32_MAX || LastSeen(gzScan, Some("gz")) == U32_MAX)
    ensures r.Err? && dirScan.Ok? && gzScan.Ok? ==> r.error == InvalidData
    ensures r.Ok? ==>
              dirScan.Ok? && gzScan.Ok? &&
              r.value > LastSeen(dirScan, None) && r.value > LastSeen(gzScan, Some("gz")) &&
              (r.value == LastSeen(dirScan, None) + 1 || r.value == LastSeen(gzScan, Some("gz")) + 1)
  {
    match FindMaxIter(dirScan, None)
    case Err(e) => Err(e)
    case Ok(d) =>
      match CheckedIncrement(TruncateU32(d), U32_MAX)
      case None => Err(InvalidData)
      case Some(afterRuns) =>
        match FindMaxIter(gzScan, Some("gz"))
        case Err(e) => Err(e)
        case Ok(g) =>
          match CheckedIncrement(TruncateU32(g), U32_MAX)
          case None => Err(InvalidData)
          case Some(afterArchives) => Ok(Max(afterRuns, afterArchives))
  }

  /** The run number `ExecCountDailySingleFrame::new` picks: one past the
      larger of (one past the largest run directory) and the largest `N.gz`
      archive, each increment checked. */
  function DailySingleFrameRun(dirScan: Result<Listing>, gzScan: Result<Listing>): (r: Result<u32>)
    ensures dirScan.Err? ==> r == Err(dirScan.error)
    ensures dirScan.Ok? && LastSeen(dirScan, None) == U32_MAX ==> r == Err(InvalidData)
    ensures dirScan.Ok? && LastSeen(dirScan, None) < U32_MAX && gzScan.Err? ==> r == Err(gzScan.error)
    ensures dirScan.Ok? && gzScan.Ok? ==>
              (r.Err? <==> LastSeen(dirScan, None) + 1 >= U32_MAX || LastSeen(gzScan, Some("gz")) == U32_MAX)
    ensures r.Err? && dirScan.Ok? && gzScan.Ok? ==> r.error == InvalidData
    ensures r.Ok? ==>
              dirScan.Ok? && gzScan.Ok? &&
              r.value > LastSeen(dirScan, None) + 1 && r.value > LastSeen(gzScan, Some("gz")) &&
              (r.value == LastSeen(dirScan, None) + 2 || r.value == LastSeen(gzScan, Some("gz")) + 1)
  {
    match FindMaxIter(dirScan, None)
    case Err(e) => Err(e)
    case Ok(d) =>
      match CheckedIncrement(TruncateU32(d), U32_MAX)
      case None => Err(InvalidData)
      case Some(afterRuns) =>
        match FindMaxIter(gzScan, Some("gz"))
        case Err(e) => Err(e)
        case Ok(g) =>
          match CheckedIncrement(Max(afterRuns, TruncateU32(g)), U32_MAX)
          case None => Err(InvalidData)
          case Some(run) => Ok(run)
  }

  /** In an empty root the first run is `1` for `ExecCountSingleFrame` and `2`
      for `ExecCountDailySingleFrame`. */
  lemma FirstRuns()
    ensures SingleFrameRun(Ok([]), Ok([])) == Ok(1)
    ensures DailySingleFrameRun(Ok([]), Ok([])) == Ok(2)
  {
    assert Candidates([], None) == [] && Candidates([], Some("gz")) == [];
  }

  /** A new run never reuses the number of a run directory already in the
      root, as long as the largest name found fits in `u32`. */
  lemma {:induction false} NewRunAfterDirectory(dirs: Listing, gzScan: Result<Listing>, i: nat, prev: u64)
    requires i < |dirs| && dirs[i] == Some(Entry(Padded(prev, 10), Directory))
    requires FindMaxIter(Ok(dirs), None).Ok? && FindMaxIter(Ok(dirs), None).value <= U32_MAX
    ensures SingleFrameRun(Ok(dirs), gzScan).Ok? ==> SingleFrameRun(Ok(dirs), gzScan).value > prev
    ensures DailySingleFrameRun(Ok(dirs), gzScan).Ok? ==> DailySingleFrameRun(Ok(dirs), gzScan).value > prev
  {
    RunDirectorySeen(prev);
    ScanCoversItem(dirs, None, i);
  }

  /** Nor the number of a run archived as `N.gz`. */
  lemma {:induction false} NewRunAfterArchive(dirScan: Result<Listing>, gz: Listing, i: nat, prev: u64)
    requires i < |gz| && gz[i] == Some(Entry(Padded(prev, 10) + ".gz", RegularFile))
    requires FindMaxIter(Ok(gz), Some("gz")).Ok? && FindMaxIter(Ok(gz), Some("gz")).value <= U32_MAX
    ensures SingleFrameRun(dirScan, Ok(gz)).Ok? ==> SingleFrameRun(dirScan, Ok(gz)).value > prev
    ensures DailySingleFrameRun(dirScan, Ok(gz)).Ok? ==> DailySingleFrameRun(dirScan, Ok(gz)).value > prev
  {
    GzArchiveSeen(prev);
    ScanCoversItem(gz, Some("gz"), i);
  }

  /** The `as u32` cut: a run directory named `4294967296` counts as run `0`,
      so an otherwise empty root starts again at run `1`. */
  lemma WideRunNameWraps()
    ensures SingleFrameRun(Ok([Some(Entry(Padded(U32_MAX + 1, 10), Directory))]), Ok([])) == Ok(1)
  {
    var dirs := [Some(Entry(Padded(U32_MAX + 1, 10), Directory))];
    RunDirectorySeen(U32_MAX + 1);
    ScanCoversItem(dirs, None, 0);
    assert Candidates(dirs, None) == [U32_MAX + 1] by {
      assert Candidates(dirs[1..], None) == [];
    }
    assert Candidates([], Some("gz")) == [];
  }

  // ---------------------------------------------------------------------------
  // Frame names
  // ---------------------------------------------------------------------------

  /** `root/<run>/<frame:0>20>.<ext>`. */
  function FrameTarget(runDir: Path, frame: nat, ext: string): Path
  {
    Join(runDir, Padded(frame, 20) + "." + ext)
  }

  lemma FrameTargetsDistinct(runDir: Path, i: nat, j: nat, ext: string)
    requires i != j
    ensures FrameTarget(runDir, i, ext) != FrameTarget(runDir, j, ext)
  {
    if FrameTarget(runDir, i, ext) == FrameTarget(runDir, j, ext) {
      var n := |runDir|;
      assert FrameTarget(runDir, i, ext)[n] == FrameTarget(runDir, j, ext)[n];
      StemsEqual(Padded(i, 20), Padded(j, 20), ext);
      PaddedInjective(i, j, 20);
    }
  }

  /** The day and frame counters of `ExecCountDailySingleFrame`. */
  datatype FrameCounter = FrameCounter(day: u32, frame: u32)

  /** Counters are handed out in this (lexicographic) order. */
  predicate Precedes(a: FrameCounter, b: FrameCounter)
  {
    a.day < b.day || (a.day == b.day && a.frame < b.frame)
  }

  /** The counters after a frame arrives `secs` seconds into the run: a later
      day restarts the frame count at `0`; the same day (or an earlier one)
      takes the next frame, and `None` when it would pass `u32::MAX`. */
  function NextFrame(c: FrameCounter, secs: nat): (r: Option<FrameCounter>)
    ensures r.None? <==> DayOf(secs) <= c.day && c.frame == U32_MAX
    ensures r.Some? ==> Precedes(c, r.value)
    ensures r.Some? ==> r.value.day == Max(c.day, DayOf(secs))
    ensures r.Some? && DayOf(secs) > c.day ==> r.value.frame == 0
    ensures r.Some? && DayOf(secs) <= c.day ==> r.value.frame == c.frame + 1
  {
    if DayOf(secs) > c.day then
      Some(FrameCounter(DayOf(secs), 0))
    else
      match CheckedIncrement(c.frame, U32_MAX)
      case None => None
      case Some(f) => Some(FrameCounter(c.day, f))
  }

  /** `root/<run>/<day:0>10>/<frame:0>10>.<ext>`. */
  function DailyFrameTarget(runDir: Path, c: FrameCounter, ext: string): Path
  {
    Join(Join(runDir, Padded(c.day, 10)), Padded(c.frame, 10) + "." + ext)
  }

  lemma DailyFrameTargetsDistinct(runDir: Path, a: FrameCounter, b: FrameCounter, ext: string)
    requires a != b
    ensures DailyFrameTarget(runDir, a, ext) != DailyFrameTarget(runDir, b, ext)
  {
    if DailyFrameTarget(runDir, a, ext) == DailyFrameTarget(runDir, b, ext) {
      var n := |runDir|;
      assert DailyFrameTarget(runDir, a, ext)[n] == DailyFrameTarget(runDir, b, ext)[n];
      PaddedInjective(a.day, b.day, 10);
      assert DailyFrameTarget(runDir, a, ext)[n + 1] == DailyFrameTarget(runDir, b, ext)[n + 1];
      StemsEqual(Padded(a.frame, 10), Padded(b.frame, 10), ext);
      PaddedInjective(a.frame, b.frame, 10);
    }
  }

  /** Every counter issued up to `now` precedes the next counter. */
  lemma LaterThanIssued(issued: set<FrameCounter>, now: FrameCounter, next: FrameCounter)
    requires forall c :: c in issued ==> c == now || Precedes(c, now)
    requires Precedes(now, next)
    ensures forall c :: c in issued ==> Precedes(c, next)
  {
  }

  /** The target lies in its day's directory. */
  lemma InDayDirectory(runDir: Path, dayDir: Path, c: FrameCounter, ext: string)
    requires dayDir == Join(runDir, Padded(c.day, 10))
    ensures Join(dayDir, Padded(c.frame, 10) + "." + ext) == DailyFrameTarget(runDir, c, ext)
  {
  }

  // ---------------------------------------------------------------------------
  // UtcSingleFrame
  // ---------------------------------------------------------------------------

  /** One file per frame under the frame's UTC date, named by the full time
      of day. The boundary holds the root, current directory, last date and
      the archival sender. */
  class UtcSingleFrame {
    const boundary: UtcBoundary
    const format: Format
    var compressHdl: Option<Worker>

    ghost predicate Valid()
      reads this
    {
      compressHdl.Some? ==> boundary.compressTx == Some(compressHdl.value.channel)
    }

    /** The file a frame stamped `date`, `time` goes to. */
    function Target(date: string, time: string): Path
    {
      DailyFileName(Join(boundary.rootDir, date), date, time, format.extension, true)
    }

    constructor (boundary: UtcBoundary, format: Format, compressHdl: Option<Worker>)
      ensures this.boundary == boundary && this.format == format && this.compressHdl == compressHdl
    {
      this.boundary := boundary;
      this.format := format;
      this.compressHdl := compressHdl;
    }

    /** `UtcSingleFrame::new`: make the root, then attach to the archival worker. */
    static method New(fs: Fs, root: Path, format: Format, compress: bool, slot: CompressorSlot)
      returns (r: Result<UtcSingleFrame>)
      modifies fs, slot
      ensures fs.files == old(fs.files) && fs.locked == old(fs.locked)
      ensures r.Err? ==> r.error == Io && fs.dirs == old(fs.dirs) && unchanged(slot)
      ensures r.Ok? ==> fs.dirs == old(fs.dirs) + Ancestors(root)
      ensures r.Ok? ==> fresh(r.value) && fresh(r.value.boundary) && r.value.Valid()
      ensures r.Ok? ==> r.value.format == format && r.value.boundary.rootDir == root
      ensures r.Ok? ==> r.value.boundary.currentDir == [] && r.value.boundary.lastDate == None
      ensures r.Ok? ==> !compress ==> r.value.boundary.compressTx.None?
      ensures r.Ok? ==> r.value.boundary.compressTx.Some? ==> slot.tx == r.value.boundary.compressTx
      ensures r.Ok? ==> r.value.compressHdl.Some? ==> old(slot.tx).None?
    {
      var made := fs.CreateDirAll(root);
      if made.Err? {
        return Err(made.error);
      }
      var tx, hdl := GetCompressor(compress, slot);
      var b := new UtcBoundary(root, tx);
      var s := new UtcSingleFrame(b, format, hdl);
      r := Ok(s);
    }

    /** `store_custom_writer`: the frame's target, or `AlreadyExists` if a
        file or directory is already there. Nothing is created but the date
        directory. */
    method StoreCustomWriter(fs: Fs, date: string, time: string) returns (r: Result<Path>)
      requires Valid()
      modifies boundary, fs, boundary.Sink()
      ensures Valid()
      ensures boundary.Queued(if boundary.compressTx.Some? then old(boundary.compressTx.value.sent) else [],
                              old(boundary.lastDate) != Some(date), old(boundary.currentDir))
      ensures fs.files == old(fs.files) && fs.locked == old(fs.locked)
      ensures r.Err? ==> r.error == Io || r.error == AlreadyExists
      ensures r.Err? && r.error == Io ==>
                boundary.currentDir == old(boundary.currentDir) && boundary.lastDate == old(boundary.lastDate)
      ensures !(r.Err? && r.error == Io) ==>
                boundary.currentDir == Join(boundary.rootDir, date) && boundary.lastDate == Some(date) &&
                (r.Ok? <==> !old(fs.Exists(Target(date, time))))
      ensures r.Err? && r.error == Io ==> fs.dirs == old(fs.dirs)
      ensures !(r.Err? && r.error == Io) ==> fs.dirs == old(fs.dirs) + Ancestors(Join(boundary.rootDir, date))
      ensures r.Ok? ==> r.value == Target(date, time)
    {
      var checked := boundary.CheckTimeUtcDaily(fs, format.extension, date, time, true);
      if checked.Err? {
        return Err(checked.error);
      }
      if checked.value.Exists() {
        return Err(AlreadyExists);
      }
      r := Ok(checked.value.Filename());
    }

    /** `store` for JSON frames: claim the target as `store_custom_writer`
        does, create it, then serialize (`None`
        is a value serde cannot serialize, reported as `InvalidInput` after
        the file was created), write and flush. */
    method StoreJson(fs: Fs, date: string, time: string, repr: Option<seq<byte>>) returns (r: Result<()>)
      requires Valid()
      modifies boundary, fs, boundary.Sink()
      ensures Valid()
      ensures boundary.Queued(if boundary.compressTx.Some? then old(boundary.compressTx.value.sent) else [],
                              old(boundary.lastDate) != Some(date), old(boundary.currentDir))
      ensures forall q :: q in old(fs.files) ==> q in fs.files && fs.files[q] == old(fs.files)[q]
      ensures forall q :: q in fs.files ==> q in old(fs.files) || q == Target(date, time)
      ensures r.Ok? ==> repr.Some? && !old(fs.Exists(Target(date, time))) &&
                        fs.files == old(fs.files)[Target(date, time) := [Bytes(repr.value), Flush]]
      ensures r.Err? && r.error == AlreadyExists ==> old(fs.Exists(Target(date, time))) && fs.files == old(fs.files)
      ensures repr.None? ==> r.Err?
      ensures fs.locked == old(fs.locked)
      ensures r.Ok? || (r.Err? && r.error == AlreadyExists) ==>
                boundary.currentDir == Join(boundary.rootDir, date) && boundary.lastDate == Some(date) &&
                fs.dirs == old(fs.dirs) + Ancestors(Join(boundary.rootDir, date))
    {
      var target := StoreCustomWriter(fs, date, time);
      if target.Err? {
        return Err(target.error);
      }
      var created := fs.Create(target.value);
      if created.Err? {
        return Err(created.error);
      }
      if repr.None? {
        return Err(InvalidInput);
      }
      var written := fs.Write(created.value, Bytes(repr.value));
      if written.Err? {
        return Err(written.error);
      }
      var flushed := fs.Write(created.value, Flush);
      if flushed.Err? {
        return Err(flushed.error);
      }
      assert [] + [Bytes(repr.value)] + [Flush] == [Bytes(repr.value), Flush];
      r := Ok(());
    }

    /** `store` for binary frames: claim the target as `store_custom_writer`
        does, create it and write the frame. */
    method StoreBinary(fs: Fs, date: string, time: string, data: seq<byte>) returns (r: Result<()>)
      requires Valid()
      modifies boundary, fs, boundary.Sink()
      ensures Valid()
      ensures boundary.Queued(if boundary.compressTx.Some? then old(boundary.compressTx.value.sent) else [],
                              old(boundary.lastDate) != Some(date), old(boundary.currentDir))
      ensures forall q :: q in old(fs.files) ==> q in fs.files && fs.files[q] == old(fs.files)[q]
      ensures forall q :: q in fs.files ==> q in old(fs.files) || q == Target(date, time)
      ensures r.Ok? ==> !old(fs.Exists(Target(date, time))) &&
                        fs.files == old(fs.files)[Target(date, time) := [Frame(data)]]
      ensures r.Err? && r.error == AlreadyExists ==> old(fs.Exists(Target(date, time))) && fs.files == old(fs.files)
      ensures fs.locked == old(fs.locked)
      ensures r.Ok? || (r.Err? && r.error == AlreadyExists) ==>
                boundary.currentDir == Join(boundary.rootDir, date) && boundary.lastDate == Some(date) &&
                fs.dirs == old(fs.dirs) + Ancestors(Join(boundary.rootDir, date))
    {
      var target := StoreCustomWriter(fs, date, time);
      if target.Err? {
        return Err(target.error);
      }
      var created := fs.Create(target.value);
      if created.Err? {
        return Err(created.error);
      }
      var written := fs.Write(created.value, Frame(data));
      if written.Err? {
        return Err(written.error);
      }
      assert [] + [Frame(data)] == [Frame(data)];
      r := Ok(());
    }

    /** `Drop`: stop the worker (if this store started it) after the last request. */
    method Drop()
      requires Valid()
      modifies this, boundary.Sink(), if compressHdl.Some? then {compressHdl.value} else {}
      ensures boundary.compressTx.Some? ==>
                boundary.compressTx.value.sent == old(boundary.compressTx.value.sent) + [None]
      ensures old(compressHdl).Some? ==> old(compressHdl).value.joined
      ensures compressHdl.None?
    {
      Retire(boundary.compressTx, compressHdl);
      compressHdl := None;
    }
  }

  // ---------------------------------------------------------------------------
  // ExecCountSingleFrame
  // ---------------------------------------------------------------------------

  /** One file per frame under this run's directory, numbered from `1`. The
      ghost `issued` records every frame number handed out as a target. */
  class ExecCountSingleFrame {
    const runDir: Path
    const format: Format
    var framecount: u64
    ghost var issued: set<nat>

    ghost predicate Valid()
      reads this
    {
      forall i :: i in issued ==> 1 <= i <= framecount
    }

    constructor (runDir: Path, format: Format)
      ensures this.runDir == runDir && this.format == format
      ensures framecount == 0 && issued == {} && Valid()
    {
      this.runDir := runDir;
      this.format := format;
      framecount := 0;
      issued := {};
    }

    /** `ExecCountSingleFrame::new`: make the root, pick the run number from
        the two scans of it, and make the run directory. */
    static method New(fs: Fs, root: Path, format: Format, dirScan: Result<Listing>, gzScan: Result<Listing>)
      returns (r: Result<ExecCountSingleFrame>)
      modifies fs
      ensures fs.files == old(fs.files) && fs.locked == old(fs.locked)
      ensures SingleFrameRun(dirScan, gzScan).Err? ==> r.Err?
      ensures r.Err? ==> r.error == Io || SingleFrameRun(dirScan, gzScan) == Err(r.error)
      ensures r.Ok? ==> fresh(r.value) && r.value.Valid() && r.value.framecount == 0 && r.value.issued == {}
      ensures r.Ok? ==> SingleFrameRun(dirScan, gzScan).Ok? && r.value.format == format &&
                        r.value.runDir == Join(root, Padded(SingleFrameRun(dirScan, gzScan).value, 10))
      ensures r.Ok? ==> fs.dirs == old(fs.dirs) + Ancestors(root) + Ancestors(r.value.runDir)
    {
      var made := fs.CreateDirAll(root);
      if made.Err? {
        return Err(made.error);
      }
      var run := SingleFrameRun(dirScan, gzScan);
      if run.Err? {
        return Err(run.error);
      }
      var runDir := Join(root, Padded(run.value, 10));
      made := fs.CreateDirAll(runDir);
      if made.Err? {
        return Err(made.error);
      }
      var s := new ExecCountSingleFrame(runDir, format);
      r := Ok(s);
    }

    /** `store_custom_writer`: advance the frame count (kept even when the
        target turns out to exist), then hand out `root/<run>/<frame>.<ext>`
        unless something is already there. A handed-out target is never
        handed out again. */
    method StoreCustomWriter(fs: Fs) returns (r: Result<Path>)
      requires Valid()
      modifies this
      ensures Valid()
      ensures old(framecount) == U64_MAX ==> r == Err(InvalidData) && framecount == old(framecount)
      ensures old(framecount) < U64_MAX ==> framecount == old(framecount) + 1
      ensures old(framecount) < U64_MAX ==>
                if fs.Exists(FrameTarget(runDir, framecount, format.extension)) then r == Err(AlreadyExists)
                else r == Ok(FrameTarget(runDir, framecount, format.extension))
      ensures issued == if r.Ok? then old(issued) + {framecount} else old(issued)
      ensures r.Ok? ==> forall i :: i in old(issued) ==> FrameTarget(runDir, i, format.extension) != r.value
    {
      var next := CheckedIncrement(framecount, U64_MAX);
      if next.None? {
        return Err(InvalidData);
      }
      framecount := next.value;
      var filename := FrameTarget(runDir, framecount, format.extension);
      if fs.Exists(filename) {
        return Err(AlreadyExists);
      }
      forall i | i in old(issued)
        ensures FrameTarget(runDir, i, format.extension) != filename
      {
        FrameTargetsDistinct(runDir, i, framecount, format.extension);
      }
      issued := issued + {framecount};
      r := Ok(filename);
    }
  }

  // ---------------------------------------------------------------------------
  // ExecCountDailySingleFrame
  // ---------------------------------------------------------------------------

  /** One file per frame under this run's day directory; the day is counted
      from the elapsed time the caller passes. `lastDir` is always the
      current day's directory, and the ghost `issued` records every counter
      pair handed out as a target. */
  class ExecCountDailySingleFrame {
    const runDir: Path
    const format: Format
    const compressTx: Option<Channel>
    var compressHdl: Option<Worker>
    var daycount: u32
    var framecount: u32
    var lastDir: Path
    ghost var issued: set<FrameCounter>

    function Counter(): FrameCounter
      reads this
    {
      FrameCounter(daycount, framecount)
    }

    function Sink(): set<object>
    {
      if compressTx.Some? then {compressTx.value} else {}
    }

    /** The target for the current counters. */
    function Target(): Path
      reads this
    {
      DailyFrameTarget(runDir, Counter(), format.extension)
    }

    ghost predicate Valid()
      reads this
    {
      lastDir == Join(runDir, Padded(daycount, 10)) &&
      (forall c :: c in issued ==> c == Counter() || Precedes(c, Counter())) &&
      (compressHdl.Some? ==> compressTx == Some(compressHdl.value.channel))
    }

    constructor (runDir: Path, format: Format, compressTx: Option<Channel>, compressHdl: Option<Worker>)
      requires compressHdl.Some? ==> compressTx == Some(compressHdl.value.channel)
      ensures this.runDir == runDir && this.format == format
      ensures this.compressTx == compressTx && this.compressHdl == compressHdl
      ensures Counter() == FrameCounter(0, 0) && issued == {} && Valid()
    {
      this.runDir := runDir;
      this.format := format;
      this.compressTx := compressTx;
      this.compressHdl := compressHdl;
      daycount := 0;
      framecount := 0;
      lastDir := Join(runDir, Padded(0, 10));
      issued := {};
    }

    /** `ExecCountDailySingleFrame::new`: make the root, pick the run number,
        make the run directory and its day `0` directory, and only then
        attach to the archival worker. */
    static method New(fs: Fs, root: Path, format: Format, compress: bool, slot: CompressorSlot,
                      dirScan: Result<Listing>, gzScan: Result<Listing>)
      returns (r: Result<ExecCountDailySingleFrame>)
      modifies fs, slot
      ensures fs.files == old(fs.files) && fs.locked == old(fs.locked)
      ensures DailySingleFrameRun(dirScan, gzScan).Err? ==> r.Err?
      ensures r.Err? ==> (r.error == Io || DailySingleFrameRun(dirScan, gzScan) == Err(r.error)) && unchanged(slot)
      ensures r.Ok? ==> fresh(r.value) && r.value.Valid()
      ensures r.Ok? ==> r.value.Counter() == FrameCounter(0, 0) && r.value.issued == {}
      ensures r.Ok? ==> DailySingleFrameRun(dirScan, gzScan).Ok? && r.value.format == format &&
                        r.value.runDir == Join(root, Padded(DailySingleFrameRun(dirScan, gzScan).value, 10))
      ensures r.Ok? ==> fs.dirs == old(fs.dirs) + Ancestors(root) + Ancestors(r.value.runDir) + Ancestors(r.value.lastDir)
      ensures r.Ok? ==> !compress ==> r.value.compressTx.None?
      ensures r.Ok? ==> r.value.compressTx.Some? ==> slot.tx == r.value.compressTx
      ensures r.Ok? ==> r.value.compressHdl.Some? ==> old(slot.tx).None?
    {
      var made := fs.CreateDirAll(root);
      if made.Err? {
        return Err(made.error);
      }
      var run := DailySingleFrameRun(dirScan, gzScan);
      if run.Err? {
        return Err(run.error);
      }
      var runDir := Join(root, Padded(run.value, 10));
      made := fs.CreateDirAll(runDir);
      if made.Err? {
        return Err(made.error);
      }
      made := fs.CreateDirAll(Join(runDir, Padded(0, 10)));
      if made.Err? {
        return Err(made.error);
      }
      var tx, hdl := GetCompressor(compress, slot);
      var s := new ExecCountDailySingleFrame(runDir, format, tx, hdl);
      r := Ok(s);
    }

    /** The counter step of `store_custom_writer`: on a later day, hand the
        previous day's directory to the worker, restart the frame count and
        make the new day's directory (the counters stay advanced if that
        fails); otherwise take the next frame. */
    method Advance(fs: Fs, secs: nat) returns (r: Result<()>)
      requires Valid()
      modifies this, fs, Sink()
      ensures Valid()
      ensures issued == old(issued) && compressHdl == old(compressHdl)
      ensures NextFrame(old(Counter()), secs).Some? ==> forall c :: c in issued ==> Precedes(c, Counter())
      ensures fs.files == old(fs.files) && fs.locked == old(fs.locked)
      ensures NextFrame(old(Counter()), secs).None? ==>
                r == Err(InvalidData) && Counter() == old(Counter()) && lastDir == old(lastDir) &&
                fs.dirs == old(fs.dirs) && unchanged(Sink())
      ensures NextFrame(old(Counter()), secs).Some? ==> Counter() == NextFrame(old(Counter()), secs).value
      ensures DayOf(secs) > old(daycount) && compressTx.Some? ==>
                compressTx.value.sent == old(compressTx.value.sent) + [Some(old(lastDir))]
      ensures DayOf(secs) > old(daycount) ==>
                (r.Ok? && fs.dirs == old(fs.dirs) + Ancestors(lastDir)) || (r == Err(Io) && fs.dirs == old(fs.dirs))
      ensures DayOf(secs) <= old(daycount) ==> fs.dirs == old(fs.dirs) && unchanged(Sink())
      ensures DayOf(secs) <= old(daycount) && NextFrame(old(Counter()), secs).Some? ==> r.Ok?
    {
      var next := NextFrame(Counter(), secs);
      if next.Some? {
        LaterThanIssued(issued, Counter(), next.value);
      }
      if DayOf(secs) > daycount {
        if compressTx.Some? {
          compressTx.value.Send(Some(lastDir));
        }
        daycount, framecount := next.value.day, next.value.frame;
        lastDir := Join(runDir, Padded(daycount, 10));
        r := fs.CreateDirAll(lastDir);
      } else {
        if next.None? {
          return Err(InvalidData);
        }
        framecount := next.value.frame;
        r := Ok(());
      }
    }

    /** `store_custom_writer`: advance the counters, then hand out the target
        unless something is already there. The counters move strictly
        forward on every call that gets past the increment, so a target is
        never handed out twice. */
    method StoreCustomWriter(fs: Fs, secs: nat) returns (r: Result<Path>)
      requires Valid()
      modifies this, fs, Sink()
      ensures Valid()
      ensures compressHdl == old(compressHdl)
      ensures fs.files == old(fs.files) && fs.locked == old(fs.locked)
      ensures NextFrame(old(Counter()), secs).None? ==>
                r == Err(InvalidData) && Counter() == old(Counter()) && lastDir == old(lastDir) &&
                fs.dirs == old(fs.dirs) && unchanged(Sink())
      ensures NextFrame(old(Counter()), secs).Some? ==> Counter() == NextFrame(old(Counter()), secs).value
      ensures DayOf(secs) > old(daycount) && compressTx.Some? ==>
                compressTx.value.sent == old(compressTx.value.sent) + [Some(old(lastDir))]
      ensures DayOf(secs) > old(daycount) ==>
                fs.dirs == old(fs.dirs) + Ancestors(lastDir) || (fs.dirs == old(fs.dirs) && r == Err(Io))
      ensures DayOf(secs) <= old(daycount) ==> fs.dirs == old(fs.dirs) && unchanged(Sink())
      ensures r.Err? && r.error == Io ==> DayOf(secs) > old(daycount)
      ensures NextFrame(old(Counter()), secs).Some? && !(r.Err? && r.error == Io) ==>
                if fs.Exists(Target()) then r == Err(AlreadyExists) else r == Ok(Target())
      ensures issued == if r.Ok? then old(issued) + {Counter()} else old(issued)
      ensures r.Ok? ==> forall c :: c in old(issued) ==> DailyFrameTarget(runDir, c, format.extension) != r.value
    {
      ghost var before := Counter();
      var advanced := Advance(fs, secs);
      if advanced.Err? {
        return Err(advanced.error);
      }
      var filename := Join(lastDir, Padded(framecount, 10) + "." + format.extension);
      InDayDirectory(runDir, lastDir, Counter(), format.extension);
      if fs.Exists(filename) {
        return Err(AlreadyExists);
      }
      forall c | c in issued
        ensures DailyFrameTarget(runDir, c, format.extension) != filename
      {
        DailyFrameTargetsDistinct(runDir, c, Counter(), format.extension);
      }
      issued := issued + {Counter()};
      r := Ok(filename);
    }

    /** `Drop`: stop the worker (if this store started it) after the last request. */
    method Drop()
      requires Valid()
      modifies this, Sink(), if compressHdl.Some? then {compressHdl.value} else {}
      ensures compressTx.Some? ==> compressTx.value.sent == old(compressTx.value.sent) + [None]
      ensures old(compressHdl).Some? ==> old(compressHdl).value.joined
      ensures compressHdl.None?
    {
      Retire(compressTx, compressHdl);
      compressHdl := None;
    }
  }
}
