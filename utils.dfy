/** Shared machinery of the stores: recovering counters from a directory
    listing, the new-or-existing classification of a target file, the archival
    channel and its single worker, lock file naming, and the UTC date boundary. */
module Utils {
  import opened Base
  import opened Digits
  import opened Paths
  import opened FileSystem

  // ---------------------------------------------------------------------------
  // Counter recovery (`find_max_iter`)
  // ---------------------------------------------------------------------------

  /** What `is_dir` / `is_file` report for a directory entry. */
  datatype EntryKind = Directory | RegularFile | OtherKind

  datatype Entry = Entry(name: string, kind: EntryKind)

  /** A `read_dir` listing; `None` is an entry the iterator reported as an error. */
  type Listing = seq<Option<Entry>>

  /** Without an extension filter only directories count; with one, only
      regular files whose last extension is exactly the filter. */
  predicate Qualifies(e: Entry, filter: Option<string>)
  {
    match filter
    case None => e.kind == Directory
    case Some(ext) => e.kind == RegularFile && Extension(e.name) == Some(ext)
  }

  /** The number an item contributes: a qualifying entry whose stem parses as a `u64`. */
  function Candidate(item: Option<Entry>, filter: Option<string>): Option<u64>
  {
    if item.Some? && Qualifies(item.value, filter) then ParseU64(FileStem(item.value.name)) else None
  }

  /** The filter/map pipeline of `find_max_iter`, in listing order. */
  function Candidates(listing: Listing, filter: Option<string>): seq<u64>
  {
    if listing == [] then []
    else
      (match Candidate(listing[0], filter) case Some(v) => [v] case None => [])
      + Candidates(listing[1..], filter)
  }

  /** A number is collected exactly when some item of the listing contributes it. */
  lemma {:induction false} CandidatesMembers(listing: Listing, filter: Option<string>, v: u64)
    ensures v in Candidates(listing, filter) <==>
            exists i :: 0 <= i < |listing| && Candidate(listing[i], filter) == Some(v)
  {
    if listing != [] {
      CandidatesMembers(listing[1..], filter, v);
      if v in Candidates(listing[1..], filter) {
        var i :| 0 <= i < |listing[1..]| && Candidate(listing[1..][i], filter) == Some(v);
        assert Candidate(listing[i + 1], filter) == Some(v);
      }
      if exists i :: 0 <= i < |listing| && Candidate(listing[i], filter) == Some(v) {
        var i :| 0 <= i < |listing| && Candidate(listing[i], filter) == Some(v);
        if i > 0 {
          assert Candidate(listing[1..][i - 1], filter) == Some(v);
        }
      }
    }
  }

  function MaxOf(s: seq<u64>): (m: u64)
    requires s != []
    ensures m in s && forall x :: x in s ==> x <= m
  {
    if |s| == 1 then s[0]
    else
      var rest := MaxOf(s[1..]);
      assert forall x :: x in s ==> x == s[0] || x in s[1..];
      if s[0] >= rest then s[0] else rest
  }

  /** `find_max_iter`: 0 when nothing qualifies, otherwise the largest number
      collected (the source sorts, reverses and takes the first element). A
      failing `read_dir` is the error. */
  function FindMaxIter(scan: Result<Listing>, filter: Option<string>): (r: Result<u64>)
    ensures scan.Err? ==> r == Err(scan.error)
    ensures scan.Ok? && Candidates(scan.value, filter) == [] ==> r == Ok(0)
    ensures scan.Ok? && Candidates(scan.value, filter) != [] ==>
              r.Ok? && r.value in Candidates(scan.value, filter) &&
              forall x :: x in Candidates(scan.value, filter) ==> x <= r.value
  {
    match scan
    case Err(e) => Err(e)
    case Ok(listing) =>
      var found := Candidates(listing, filter);
      if found == [] then Ok(0) else Ok(MaxOf(found))
  }

  /** The largest number a scan of the root found, cut to `u32` the way
      `find_max_iter(..)? as u32` cuts it. */
  function LastSeen(scan: Result<Listing>, filter: Option<string>): u32
    requires scan.Ok?
  {
    TruncateU32(FindMaxIter(scan, filter).value)
  }

  /** Whatever one listed item contributes, the scan result is at least that. */
  lemma ScanCoversItem(listing: Listing, filter: Option<string>, i: nat)
    requires i < |listing| && Candidate(listing[i], filter).Some?
    ensures FindMaxIter(Ok(listing), filter).Ok?
    ensures FindMaxIter(Ok(listing), filter).value >= Candidate(listing[i], filter).value
  {
    CandidatesMembers(listing, filter, Candidate(listing[i], filter).value);
  }

  lemma NoDots(n: nat, w: nat)
    ensures forall k :: 0 <= k < |Padded(n, w)| ==> Padded(n, w)[k] != '.'
  {
    ToDigitsValue(n, 10);
    PadLeftValue(ToDigits(n, 10), w, 10);
    assert forall k :: 0 <= k < |Padded(n, w)| ==> IsDigit(Padded(n, w)[k], 10);
  }

  /** A run directory named by the stores is seen by the directory scan. */
  lemma RunDirectorySeen(n: u64)
    ensures Candidate(Some(Entry(Padded(n, 10), Directory)), None) == Some(n)
  {
    NoDots(n, 10);
    assert LastDot(Padded(n, 10)).None?;
    assert Padded(n, 10) != "..";
    PaddedParses(n, 10);
  }

  lemma CandidateOfFile(name: string, ext: string)
    requires Extension(name) == Some(ext)
    ensures Candidate(Some(Entry(name, RegularFile)), Some(ext)) == ParseU64(FileStem(name))
  {
  }

  lemma FirstNotDot(n: nat)
    ensures Padded(n, 10) != [] && Padded(n, 10)[0] != '.'
  {
    NoDots(n, 10);
  }

  /** A name with a '.' after its first character is not a number. */
  lemma DotDoesNotParse(s: string, k: nat)
    requires 0 < k < |s| && s[k] == '.'
    ensures ParseU64(s) == None
  {
    assert !IsDigit(s[k], 10);
    assert s[0] == '+' ==> s[1..][k - 1] == '.';
  }

  /** An archive named `N.gz` is seen by the archive scan. */
  lemma GzArchiveSeen(n: u64)
    ensures Candidate(Some(Entry(Padded(n, 10) + ".gz", RegularFile)), Some("gz")) == Some(n)
  {
    var d := Padded(n, 10);
    FirstNotDot(n);
    assert d + ".gz" == d + "." + "gz";
    SplitJoined(d, "gz");
    CandidateOfFile(d + ".gz", "gz");
    PaddedParses(n, 10);
  }

  /** The archival worker, handed a directory `root/N`, writes its archive
      beside it as `root/N.tar.gz`; should that archive lie in a scanned root,
      its stem is `N.tar`, which does not parse, so the `gz` scan never counts it. */
  lemma TarGzArchiveIgnored(root: Path, n: u64)
    ensures ArchivePath(Join(root, Padded(n, 10))) == Join(root, Padded(n, 10) + ".tar.gz")
    ensures Candidate(Some(Entry(Padded(n, 10) + ".tar.gz", RegularFile)), Some("gz")) == None
  {
    var d := Padded(n, 10);
    NoDots(n, 10);
    FirstNotDot(n);
    assert LastDot(d).None?;
    assert d != "..";
    assert FileStem(d) == d;
    var p := Join(root, d);
    assert p[|p| - 1] == d && p[..|p| - 1] == root;
    assert "." + "tar.gz" == ".tar.gz";
    var stem := d + ".tar";
    assert d + ".tar.gz" == stem + "." + "gz";
    SplitJoined(stem, "gz");
    CandidateOfFile(d + ".tar.gz", "gz");
    DotDoesNotParse(stem, |d|);
  }

  // ---------------------------------------------------------------------------
  // New-or-existing target (`CheckedFileName`)
  // ---------------------------------------------------------------------------

  /** A target file, classified when it was computed: `New` if it did not
      exist, `Old` if it did. */
  datatype CheckedFileName = New(path: Path) | Old(path: Path)
  {
    /** `get_filename` and `From<CheckedFileName> for PathBuf`: the wrapped path. */
    function Filename(): (p: Path)
      ensures this == New(p) || this == Old(p)
    {
      match this
      case New(p) => p
      case Old(p) => p
    }

    /** `exists`: true exactly for `Old`. */
    function Exists(): (b: bool)
      ensures b <==> this.Old?
      ensures !b <==> this.New?
    {
      match this
      case New(_) => false
      case Old(_) => true
    }

    /** `get_writer`: `New` creates (truncates) the file, `Old` opens it for append. */
    method GetWriter(fs: Fs) returns (r: Result<Handle>)
      modifies fs
      ensures r.Ok? ==> r.value == Handle(Filename())
      ensures Old? ==> unchanged(fs)
      ensures New? && r.Ok? ==> fs.files == old(fs.files)[path := []]
      ensures r.Err? ==> fs.files == old(fs.files)
      ensures fs.dirs == old(fs.dirs) && fs.locked == old(fs.locked)
    {
      match this
      case New(p) => r := fs.Create(p);
      case Old(p) => r := fs.OpenAppend(p);
    }

    /** `get_writer_with_init`: the format's initialisation hook runs only on a
        freshly created file; an existing file is opened for append untouched. */
    method GetWriterWithInit(fs: Fs, progname: string) returns (r: Result<Handle>)
      modifies fs
      ensures r.Ok? ==> r.value == Handle(Filename())
      ensures Old? ==> unchanged(fs)
      ensures New? && r.Ok? ==> fs.files == old(fs.files)[path := [Header(progname)]]
      ensures New? && r.Err? ==> fs.files == old(fs.files) || fs.files == old(fs.files)[path := []]
      ensures fs.dirs == old(fs.dirs) && fs.locked == old(fs.locked)
    {
      match this
      case New(p) =>
        var created := fs.Create(p);
        if created.Err? {
          return created;
        }
        var init := fs.Write(created.value, Header(progname));
        if init.Err? {
          return Err(init.error);
        }
        assert [] + [Header(progname)] == [Header(progname)];
        assert fs.files == old(fs.files)[p := [Header(progname)]];
        r := created;
      case Old(p) =>
        r := fs.OpenAppend(p);
    }
  }

  // ---------------------------------------------------------------------------
  // Archival handoff (`get_compressor`, `compressor`)
  // ---------------------------------------------------------------------------

  /** The archival channel: every request ever sent, oldest first. `None` is
      the stop sentinel. A send to a worker that has stopped is ignored by the
      stores, so sending always appends here. */
  class Channel {
    var sent: seq<Option<Path>>

    constructor ()
      ensures sent == []
    {
      sent := [];
    }

    method Send(request: Option<Path>)
      modifies this
      ensures sent == old(sent) + [request]
    {
      sent := sent + [request];
    }
  }

  /** The join handle of the archival worker thread that reads `channel`. */
  class Worker {
    const channel: Channel
    var joined: bool

    constructor (channel: Channel)
      ensures this.channel == channel && !joined
    {
      this.channel := channel;
      joined := false;
    }

    /** `JoinHandle::join`: returns once the worker has taken a stop sentinel,
        so one must have been sent (the slot keeps a sender alive, so the
        channel never disconnects). */
    method Join()
      requires None in channel.sent
      modifies this
      ensures joined
    {
      joined := true;
    }
  }

  /** The process-wide slot (`lazy_static` mutex) holding the channel's
      sender; each store type has its own. */
  class CompressorSlot {
    var tx: Option<Channel>

    constructor ()
      ensures tx == None
    {
      tx := None;
    }
  }

  /** `get_compressor`: with compression off, no sender and no handle. With an
      empty slot, the first caller creates the channel, stores its sender in
      the slot and receives the only join handle; later callers get the stored
      sender and no handle. A poisoned mutex yields neither. */
  method GetCompressor(compress: bool, slot: CompressorSlot) returns (tx: Option<Channel>, hdl: Option<Worker>)
    modifies slot
    ensures !compress ==> tx == None && hdl == None
    ensures tx.None? ==> hdl.None? && unchanged(slot)
    ensures tx.Some? ==> slot.tx == tx
    ensures old(slot.tx).Some? ==> slot.tx == old(slot.tx) && hdl.None?
    ensures hdl.Some? ==> old(slot.tx).None? && tx.Some? && fresh(tx.value) && tx.value.sent == []
    ensures hdl.Some? ==> fresh(hdl.value) && hdl.value.channel == tx.value && !hdl.value.joined
    ensures compress && old(slot.tx).None? && tx.Some? ==> hdl.Some?
  {
    if !compress {
      return None, None;
    }
    var poisoned: bool;
    if * { poisoned := true; } else { poisoned := false; }
    if poisoned {
      return None, None;
    }
    if slot.tx.Some? {
      return slot.tx, None;
    }
    var ch := new Channel();
    slot.tx := Some(ch);
    var w := new Worker(ch);
    return Some(ch), Some(w);
  }

  /** However many stores ask, at most one of them receives the worker. */
  method OneOwner(slot: CompressorSlot, first: bool, second: bool)
    returns (h1: Option<Worker>, h2: Option<Worker>)
    modifies slot
    ensures !(h1.Some? && h2.Some?)
  {
    var tx1, tx2;
    tx1, h1 := GetCompressor(first, slot);
    tx2, h2 := GetCompressor(second, slot);
  }

  /** What a store's `Drop` does with its end of the archival channel: send
      the stop sentinel if it holds a sender, then wait for the worker if it
      started it. */
  method Retire(tx: Option<Channel>, hdl: Option<Worker>)
    requires hdl.Some? ==> tx == Some(hdl.value.channel)
    modifies if tx.Some? then {tx.value} else {}, if hdl.Some? then {hdl.value} else {}
    ensures tx.Some? ==> tx.value.sent == old(tx.value.sent) + [None]
    ensures hdl.Some? ==> hdl.value.joined
  {
    if tx.Some? {
      tx.value.Send(None);
    }
    if hdl.Some? {
      hdl.value.Join();
    }
  }

  /** The requests the worker handles: those before the first stop sentinel, in order. */
  function Drained(q: seq<Option<Path>>): (r: seq<Path>)
    ensures |r| <= |q|
    ensures forall i :: 0 <= i < |r| ==> q[i] == Some(r[i])
    ensures |r| < |q| ==> q[|r|] == None
  {
    if q == [] || q[0].None? then [] else [q[0].value] + Drained(q[1..])
  }

  /** The three properties above determine what the worker handles. */
  lemma {:induction false} DrainedUnique(q: seq<Option<Path>>, r: seq<Path>)
    requires |r| <= |q|
    requires forall i :: 0 <= i < |r| ==> q[i] == Some(r[i])
    requires |r| < |q| ==> q[|r|] == None
    ensures Drained(q) == r
  {
    if r != [] {
      DrainedUnique(q[1..], r[1..]);
    }
  }

  /** A request sent after a stop sentinel is never handled: one store's
      teardown ends archival for every store sharing the worker. */
  lemma {:induction false} DrainedStopsAtSentinel(q: seq<Option<Path>>, later: seq<Option<Path>>)
    ensures Drained(q + [None] + later) == Drained(q)
  {
    if q != [] && q[0].Some? {
      assert (q + [None] + later)[1..] == q[1..] + [None] + later;
      DrainedStopsAtSentinel(q[1..], later);
    }
  }

  /** Before any sentinel, requests are handled in the order they were sent. */
  lemma {:induction false} DrainedFifo(q: seq<Option<Path>>, p: Path)
    requires None !in q
    ensures Drained(q + [Some(p)]) == Drained(q) + [p]
  {
    if q != [] {
      assert (q + [Some(p)])[1..] == q[1..] + [Some(p)];
      DrainedFifo(q[1..], p);
    }
  }

  /** The worker thread: handles each request up to the first stop sentinel;
      archiving is fire-and-forget, so a failure only leaves things as they were. */
  method Compressor(ch: Channel, fs: Fs) returns (handled: seq<Path>)
    modifies fs
    ensures handled == Drained(ch.sent)
    ensures fs.locked == old(fs.locked) && fs.dirs <= old(fs.dirs)
    ensures forall q :: q in old(fs.files) && !Touched(q, handled) ==>
              q in fs.files && fs.files[q] == old(fs.files)[q]
  {
    handled := [];
    var i := 0;
    while i < |ch.sent| && ch.sent[i].Some?
      invariant 0 <= i <= |ch.sent| && |handled| == i
      invariant forall j :: 0 <= j < i ==> ch.sent[j] == Some(handled[j])
      invariant fs.locked == old(fs.locked) && fs.dirs <= old(fs.dirs)
      invariant forall q :: q in old(fs.files) && !Touched(q, handled) ==>
                  q in fs.files && fs.files[q] == old(fs.files)[q]
    {
      var p := ch.sent[i].value;
      fs.ArchiveOne(p);
      assert (handled + [p])[..|handled|] == handled;
      handled := handled + [p];
      i := i + 1;
    }
    DrainedUnique(ch.sent, handled);
  }

  // ---------------------------------------------------------------------------
  // Lock file naming (`get_lock`)
  // ---------------------------------------------------------------------------

  /** `root/<type hash as 16 lower-case hex digits>.lock`. */
  function LockPath(root: Path, hash: u64): Path
  {
    Join(root, Hex16(hash) + ".lock")
  }

  /** Formats with different type hashes lock different files, so stores of
      different kinds can share one root. */
  lemma LockPathsDistinct(root: Path, h1: u64, h2: u64)
    requires h1 != h2
    ensures LockPath(root, h1) != LockPath(root, h2)
  {
    var n1, n2 := Hex16(h1) + ".lock", Hex16(h2) + ".lock";
    assert n1[..16] == Hex16(h1) && n2[..16] == Hex16(h2);
    assert LockPath(root, h1)[|root|] == n1 && LockPath(root, h2)[|root|] == n2;
  }

  /** `get_lock`: take the exclusive lock named by the format's hash. */
  method GetLock(fs: Fs, root: Path, hash: u64) returns (r: Result<Path>)
    modifies fs
    ensures old(LockPath(root, hash) in fs.locked) ==> r.Err?
    ensures r.Ok? ==> r.value == LockPath(root, hash) && fs.locked == old(fs.locked) + {r.value}
    ensures r.Err? ==> fs.locked == old(fs.locked)
    ensures fs.dirs == old(fs.dirs)
  {
    var p := LockPath(root, hash);
    var acquired := fs.AcquireLock(p);
    if acquired.Err? {
      return Err(acquired.error);
    }
    r := Ok(p);
  }

  // ---------------------------------------------------------------------------
  // UTC date boundary (`UtcDailyBoundary`, `UtcHourlyBoundary`)
  // ---------------------------------------------------------------------------

  /** `root/date/<date><suffix>.<ext>`; single-frame names carry the full
      `%H%M%S.%f` time, others `000000`. */
  function DailyFileName(dir: Path, date: string, time: string, ext: string, single: bool): Path
  {
    Join(dir, date + (if single then time else "000000") + "." + ext)
  }

  /** The state the boundary traits read and write through their getters and
      setters: the root, the current date directory, the last date (and hour)
      seen, and the sender to the archival worker. Dates and times arrive as
      the strings chrono formats (`%Y%m%d`, `%H`, `%H%M%S.%f`). */
  class UtcBoundary {
    const rootDir: Path
    const compressTx: Option<Channel>
    var currentDir: Path
    var lastDate: Option<string>
    var lastHour: Option<string>

    constructor (rootDir: Path, compressTx: Option<Channel>)
      ensures this.rootDir == rootDir && this.compressTx == compressTx
      ensures currentDir == [] && lastDate == None && lastHour == None
    {
      this.rootDir := rootDir;
      this.compressTx := compressTx;
      currentDir := [];
      lastDate := None;
      lastHour := None;
    }

    function Sink(): set<object>
    {
      if compressTx.Some? then {compressTx.value} else {}
    }

    /** The channel after `old` plus, when `retire` holds and a worker is
        attached, the archival request for `dir`. */
    ghost predicate Queued(before: seq<Option<Path>>, retire: bool, dir: Path)
      reads Sink()
    {
      compressTx.Some? ==>
        compressTx.value.sent == before + (if retire then [Some(dir)] else [])
    }

    /** `check_time_utcdaily`: on a new date, hand the previous directory to
        the worker (before creating the new one); then make `root/date`, record
        it as current, and classify the day's target file. */
    method CheckTimeUtcDaily(fs: Fs, ext: string, date: string, time: string, single: bool)
      returns (r: Result<CheckedFileName>)
      modifies this, fs, Sink()
      ensures Queued(if compressTx.Some? then old(compressTx.value.sent) else [],
                     old(lastDate) != Some(date), old(currentDir))
      ensures lastHour == old(lastHour)
      ensures fs.files == old(fs.files) && fs.locked == old(fs.locked)
      ensures r.Err? ==> r.error == Io && currentDir == old(currentDir) && lastDate == old(lastDate)
      ensures r.Err? ==> fs.dirs == old(fs.dirs)
      ensures r.Ok? ==> currentDir == Join(rootDir, date) && lastDate == Some(date)
      ensures r.Ok? ==> fs.dirs == old(fs.dirs) + Ancestors(Join(rootDir, date))
      ensures r.Ok? ==> r.value.Filename() == DailyFileName(Join(rootDir, date), date, time, ext, single)
      ensures r.Ok? ==> (r.value.Old? <==> old(fs.Exists(r.value.Filename())))
    {
      if lastDate != Some(date) {
        if compressTx.Some? {
          compressTx.value.Send(Some(currentDir));
        }
      }
      var dir := Join(rootDir, date);
      var made := fs.CreateDirAll(dir);
      if made.Err? {
        return Err(made.error);
      }
      var filename := DailyFileName(dir, date, time, ext, single);
      currentDir := dir;
      lastDate := Some(date);
      assert filename !in Ancestors(dir);
      if fs.Exists(filename) {
        r := Ok(Old(filename));
      } else {
        r := Ok(New(filename));
      }
    }

    /** `check_time_utchourly`: on a new date, hand the previous directory to
        the worker, make `root/date`, and forget the last hour; then, unless
        the hour is the one last recorded (an `InvalidInput` error), classify
        the hour's target file. */
    method CheckTimeUtcHourly(fs: Fs, ext: string, date: string, hour: string, time: string, single: bool)
      returns (r: Result<CheckedFileName>)
      modifies this, fs, Sink()
      ensures Queued(if compressTx.Some? then old(compressTx.value.sent) else [],
                     old(lastDate) != Some(date), old(currentDir))
      ensures fs.files == old(fs.files) && fs.locked == old(fs.locked)
      ensures old(lastDate) == Some(date) ==> unchanged(this) && fs.dirs == old(fs.dirs)
      ensures old(lastDate) != Some(date) && !(r.Err? && r.error == Io) ==>
                currentDir == Join(rootDir, date) && lastDate == Some(date) && lastHour == None &&
                fs.dirs == old(fs.dirs) + Ancestors(Join(rootDir, date))
      ensures r.Err? && r.error == Io ==>
                currentDir == old(currentDir) && lastDate == old(lastDate) && lastHour == old(lastHour)
                && fs.dirs == old(fs.dirs)
      ensures r.Err? ==> r.error == Io || (r.error == InvalidInput && lastHour == Some(hour))
      ensures r.Err? && r.error == Io ==> old(lastDate) != Some(date)
      ensures old(lastDate) == Some(date) ==> (r.Ok? <==> old(lastHour) != Some(hour))
      ensures r.Ok? ==> lastHour != Some(hour) && lastDate == Some(date)
      ensures r.Ok? ==>
                r.value.Filename() == Join(currentDir, date + (if single then time else hour + "0000") + "." + ext)
      ensures r.Ok? ==> (r.value.Old? <==> fs.Exists(r.value.Filename()))
    {
      if lastDate != Some(date) {
        if compressTx.Some? {
          compressTx.value.Send(Some(currentDir));
        }
        var dir := Join(rootDir, date);
        var made := fs.CreateDirAll(dir);
        if made.Err? {
          return Err(made.error);
        }
        currentDir := dir;
        lastDate := Some(date);
        lastHour := None;
      }
      if lastHour != Some(hour) {
        var filename := Join(currentDir, date + (if single then time else hour + "0000") + "." + ext);
        if fs.Exists(filename) {
          return Ok(Old(filename));
        } else {
          return Ok(New(filename));
        }
      }
      r := Err(InvalidInput);
    }
  }
}
