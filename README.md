# datastor, modelled in Dafny

datastor is a Rust crate. It stores a program's data frames on disk in append-only
files. The files are partitioned by time (UTC date and hour, or days and hours
elapsed since the store was created) and by run (a counter that grows on each
execution). This project models the decision logic of its stores and proves properties of that model:

- **Run-id recovery.** `find_max_iter` scans the root directory for numbered run
  directories (or `N.gz` archives). The constructors turn the largest number
  found into a new run id, using checked `u32` arithmetic.
- **Elapsed-time rotation.** `ExecCountSingleFrame`, `ExecCountDailySingleFrame`,
  `ExecCountDaily` and `ExecCountHourly` keep day, hour and frame counters. They
  derive the target file from these counters, and on a new day they hand the
  previous day's directory to the archival worker.
- **UTC date boundary.** `check_time_utcdaily` and `check_time_utchourly` classify a
  date's target file as new (`CheckedFileName::New`) or existing (`Old`).
  `UtcSingleFrame` refuses existing targets with `AlreadyExists`. `UtcDaily`
  initialises a new file exactly once and otherwise appends.
- **Archival handoff.** `get_compressor` hands out at most one worker per store type.
  The worker handles queued directories in order, up to the first stop request.
  The `Drop` impls send that stop request.

Files:

- `base.dfy`: the `Option`/`Result` types, the I/O error kinds, and Rust's
  fixed-width integers with their casts and checked increment.
- `digits.dfy`: zero-padded decimal names (`{:0>N}`), the 16-digit hex lock
  name (`{:016x}`), and `parse::<u64>`. It proves that a padded name parses back
  to its number.
- `paths.dfy`: paths as component sequences, plus `file_stem`, `extension` and
  `set_extension`.
- `filesystem.dfy`: directories, files (each file is the sequence of writes it
  received) and advisory locks. Every operating-system call may fail, and when
  it fails nothing changes.
- `elapsed.dfy`: the day and hour counters derived from elapsed seconds.
- `utils.dfy`: `find_max_iter`, `CheckedFileName`, the archival channel, its
  worker and the singleton slot, lock naming, and the two UTC boundary checks.
- `singleframe.dfy`, `timeboundary.dfy` and `utcdaily.dfy`: the stores of the
  source files with the same names.

Stores whose fields change in place are classes. The archival channel is a
`Channel` object that records every request sent. The process-wide
`lazy_static` sender is a `CompressorSlot` object. A `ghost` set `issued`
records every target a single-frame store has handed out. This is how the
"never the same target twice" property is stated.

## Model

| member | source | states |
|---|---|---|
| Base.TruncateU32 | src/singleframe.rs:254 | `v as u32` keeps `v` when it fits, and in general is `v` modulo 2^32 |
| Base.CheckedIncrement | src/singleframe.rs:288-294 | `checked_add(1)` succeeds exactly below the type's maximum, and then yields `x + 1` |
| Base.Saturate | src/timeboundary.rs:97 | a float-to-integer `as` cast saturates: below `max` the value is kept, above it the result is `max`, and it never exceeds either |
| Digits.ToDigitsValue | src/singleframe.rs:271 | the digits written for `n` are all digits of the base and denote exactly `n` |
| Digits.PadLeftValue | src/singleframe.rs:271 | left-padding with `'0'` (`{:0>w}`) keeps a digit string a digit string with the same value |
| Digits.LeadingZerosValue | src/singleframe.rs:271 | leading zeros do not change the value of a digit string |
| Digits.PaddedParses | src/utils.rs:263 | a counter written as a zero-padded name, at any width, parses back with `parse::<u64>` to the same counter |
| Digits.PaddedInjective | src/singleframe.rs:297 | distinct counters get distinct zero-padded names |
| Digits.ToDigitsLength | src/utils.rs:240 | a number below `base^k` takes at most `k` digits |
| Digits.Hex16 | src/utils.rs:240 | `{:016x}` gives exactly 16 lower-case hexadecimal digits whose value is the hash |
| Digits.ParseU64 | src/utils.rs:263 | `parse::<u64>` succeeds only on a non-empty string |
| Paths.LastDot | src/utils.rs:257-262 | the found index holds the last `'.'` of the name; when none is found, the name has no `'.'` |
| Paths.SplitJoined | src/utils.rs:254-262 | a name `stem.ext`, with no `'.'` in `ext`, has file stem `stem` and extension `ext` |
| Paths.StemsEqual | src/singleframe.rs:297 | two names with the same extension are equal only when their stems are |
| Paths.WithExtension | src/utils.rs:199-200 | `set_extension` changes only the last component of a path |
| FileSystem.Ancestors | src/utils.rs:36 | `create_dir_all(p)` makes exactly the non-empty prefixes of `p`, and `p` is one of them |
| FileSystem.ArchiveOutside | src/utils.rs:199-218 | the archive `p.tar.gz` never lies under `p`, so removing `p` keeps the archive |
| FileSystem.Fs.CreateDirAll | src/utils.rs:36 | on success the directory and all its ancestors exist; on failure nothing changes; it fails whenever the path or one of its ancestors is a regular file; no file changes |
| FileSystem.Fs.Create | src/utils.rs:116 | `File::create` needs the parent directory and truncates the file to empty; on failure nothing changes |
| FileSystem.Fs.OpenAppend | src/utils.rs:117 | opening for append succeeds only on an existing file and writes nothing |
| FileSystem.Fs.Write | src/utcdaily.rs:228-229 | a write appends one operation to the handle's file; a failed write changes nothing |
| FileSystem.Fs.AcquireLock | src/lock/mod.rs:21-25 | the lock file is created, then locked; a lock already held fails, and only success adds the lock |
| FileSystem.Fs.ReleaseLock | src/lock/mod.rs:28-33 | dropping the lock removes the lock file (a failure is ignored) and always unlocks |
| FileSystem.Fs.RemoveDirAll | src/utils.rs:218 | `remove_dir_all` removes exactly the directories and files under the path; a missing directory is an error |
| FileSystem.Fs.ArchiveOne | src/utils.rs:199-229 | one archival request: files outside the source and its archive are untouched, and the source's directories go only when the archive holds the tarball |
| Utils.CandidatesMembers | src/utils.rs:246-264 | a number is collected exactly when some listed entry qualifies (a directory without a filter, or a regular file whose last extension is the filter) and its stem parses as `u64` |
| Utils.MaxOf | src/utils.rs:270-275 | sort, reverse and take the first: the result is an element, and no element is larger |
| Utils.FindMaxIter | src/utils.rs:244-276 | a failed `read_dir` is the error; no candidates gives `0`; otherwise the result is a candidate and no candidate is larger |
| Utils.ScanCoversItem | src/utils.rs:257-275 | whatever number a listed entry contributes, the scan's result is at least that number |
| Utils.NoDots | src/singleframe.rs:271 | a zero-padded counter name contains no `'.'` |
| Utils.RunDirectorySeen | src/utils.rs:248-263 | a run directory named by the stores is recognised by the directory scan as its own number |
| Utils.DotDoesNotParse | src/utils.rs:263 | a name with a `'.'` after its first character does not parse as `u64` |
| Utils.GzArchiveSeen | src/utils.rs:248-263 | an archive `N.gz` is recognised by the `gz` scan as `N` |
| Utils.TarGzArchiveIgnored | src/utils.rs:199-263 | the worker, handed `root/N`, writes `root/N.tar.gz`; a file of that name has stem `N.tar`, so a `gz` scan of `root` would not count it |
| Utils.CheckedFileName.Filename | src/utils.rs:139-161 | `get_filename` and `From<CheckedFileName> for PathBuf` both return the wrapped path unchanged |
| Utils.CheckedFileName.Exists | src/utils.rs:146-151 | `exists` is true exactly for `Old` |
| Utils.CheckedFileName.GetWriter | src/utils.rs:114-119 | `New` creates (truncates) the file; `Old` opens it for append and changes nothing |
| Utils.CheckedFileName.GetWriterWithInit | src/utils.rs:121-137 | only `New` runs the init hook, on a freshly created file, so that file holds just the header; `Old` changes nothing |
| Utils.Channel.Send | src/utils.rs:33 | a send appends the request to the channel's history |
| Utils.Worker.Join | src/utils.rs:194-236 | the worker can be joined only after a stop request was sent |
| Utils.GetCompressor | src/utils.rs:163-191 | with compression off, or a poisoned slot, there is no sender and no handle; an empty slot is filled with a fresh channel whose only handle goes to this caller; a filled slot yields the stored sender and no handle |
| Utils.OneOwner | src/utils.rs:170-183 | of two stores of one type, at most one receives the worker's join handle |
| Utils.Retire | src/timeboundary.rs:36-45 | a store's teardown sends the stop request when it holds a sender, and joins the worker when it owns the handle |
| Utils.Drained | src/utils.rs:196-234 | the worker handles the requests before the first stop request, in the order they were sent |
| Utils.DrainedUnique | src/utils.rs:196-234 | these properties fix what the worker handles |
| Utils.DrainedStopsAtSentinel | src/utils.rs:231-233 | a request sent after a stop request is never handled |
| Utils.DrainedFifo | src/utils.rs:196-199 | before any stop request, a new request is handled after all earlier ones |
| Utils.Compressor | src/utils.rs:193-237 | the loop handles exactly the drained requests, and leaves untouched every file that is neither a handled source nor its archive |
| Utils.LockPathsDistinct | src/utils.rs:239-242 | different type hashes give different lock files in one root |
| Utils.GetLock | src/utils.rs:239-242 | the lock is `root/<hash:016x>.lock`; a lock that is already held fails, and success adds exactly that lock |
| Utils.UtcBoundary.constructor | src/singleframe.rs:84-90 | a boundary starts with an empty current directory and no last date or hour |
| Utils.UtcBoundary.CheckTimeUtcDaily | src/utils.rs:72-104 | on a date change the old current directory is queued (when a sender is held), before the directory is made; once `root/date` exists the current directory and the last date are set; the name is `date` followed by the time (single) or by `000000`; it is `Old` exactly when it already existed; a failed `create_dir_all` changes neither the state nor the directories |
| Utils.UtcBoundary.CheckTimeUtcHourly | src/utils.rs:23-59 | on a date change the old directory is queued, `root/date` is made, and the last hour is forgotten; an unchanged date changes nothing and cannot fail with an I/O error: it is `Ok` exactly when the hour differs from the one last recorded, and `InvalidInput` otherwise; only the date-change `create_dir_all` can fail; otherwise the name ends with the hour and `0000` (or with the time, when single), and it is `Old` exactly when it exists |
| Elapsed.DayOf | src/timeboundary.rs:96-97 | the day counter never lies past the elapsed time, and below the `u32` range it is the whole number of days |
| Elapsed.HourOf | src/timeboundary.rs:262-265 | below the `u32` day range, the hour counter is the hour within the day, always below 24 |
| Elapsed.DayOfMonotone | src/singleframe.rs:393 | a later elapsed time never gives an earlier day |
| SingleFrame.SingleFrameRun | src/singleframe.rs:254-270 | the run is one past the larger of the run-directory and `gz`-archive scans (each cut to `u32`); a failing scan is its error; either increment overflowing is `InvalidData` |
| SingleFrame.DailySingleFrameRun | src/singleframe.rs:348-363 | the run is one past the larger of (one past the run-directory scan) and the archive scan; a failing scan is its error; either increment overflowing is `InvalidData` |
| SingleFrame.FirstRuns | src/singleframe.rs:254-270 | in an empty root, `ExecCountSingleFrame` starts at run 1 and `ExecCountDailySingleFrame` at run 2 |
| SingleFrame.NewRunAfterDirectory | src/singleframe.rs:254-270 | a new run never reuses the number of an existing run directory whose number fits in `u32` |
| SingleFrame.NewRunAfterArchive | src/singleframe.rs:348-363 | nor the number of a run archived as `N.gz` |
| SingleFrame.WideRunNameWraps | src/singleframe.rs:254 | a run directory numbered `2^32` counts as run 0, so an otherwise empty root starts again at run 1 |
| SingleFrame.FrameTargetsDistinct | src/singleframe.rs:295-297 | different frame numbers name different files of a run |
| SingleFrame.NextFrame | src/singleframe.rs:393-410 | a later day restarts the frame count at 0; otherwise the next frame is taken, and at `u32::MAX` there is none; the counters always move strictly forward |
| SingleFrame.DailyFrameTargetsDistinct | src/singleframe.rs:400-413 | different (day, frame) counters name different files |
| SingleFrame.UtcSingleFrame.New | src/singleframe.rs:74-91 | the root is made before the store attaches to the worker; the store starts with no date and no current directory; only the first store of the type can own the worker |
| SingleFrame.UtcSingleFrame.StoreCustomWriter | src/singleframe.rs:219-231 | the date's single-frame name is returned exactly when nothing is there yet, and otherwise the result is `AlreadyExists`; no file is created; unless the date directory could not be made, `root/<date>` and its ancestors exist and are recorded as the current directory and date, and after that failure nothing changes |
| SingleFrame.UtcSingleFrame.StoreJson | src/singleframe.rs:164-178 | an existing target is `AlreadyExists` and nothing is written; on success the new file holds the serialized value and a flush; no other file ever changes; a value that cannot be serialized fails; on success or `AlreadyExists`, `root/<date>` exists and is the current directory and date |
| SingleFrame.UtcSingleFrame.StoreBinary | src/singleframe.rs:196-207 | an existing target is `AlreadyExists` and nothing is written; on success the new file holds just the frame; no other file changes; on success or `AlreadyExists`, `root/<date>` exists and is the current directory and date |
| SingleFrame.UtcSingleFrame.Drop | src/singleframe.rs:56-65 | the stop request is sent whenever a sender is held, and the worker is joined when this store owns it |
| SingleFrame.ExecCountSingleFrame.constructor | src/singleframe.rs:273-279 | the frame count starts at 0 with nothing issued |
| SingleFrame.ExecCountSingleFrame.New | src/singleframe.rs:252-280 | the run directory is `root/<run:0>10>` for the run `SingleFrameRun` picks; its errors are passed on |
| SingleFrame.ExecCountSingleFrame.StoreCustomWriter | src/singleframe.rs:287-305 | at `u64::MAX` the result is `InvalidData` and the count stays; otherwise the count advances (even when the call then fails) and `root/<run>/<frame:0>20>.<ext>` is returned unless something is there (`AlreadyExists`); a returned target was never returned before |
| SingleFrame.ExecCountDailySingleFrame.constructor | src/singleframe.rs:366-380 | day and frame counters start at 0, and the current directory is the day-0 directory |
| SingleFrame.ExecCountDailySingleFrame.New | src/singleframe.rs:342-381 | the run, run directory and day-0 directory are made before the store attaches to the worker; the counters start at (0, 0) |
| SingleFrame.ExecCountDailySingleFrame.Advance | src/singleframe.rs:393-410 | the counters become `NextFrame`'s; on a later day the old day directory is queued and the new one made; an overflow is `InvalidData` and changes nothing; every counter issued so far precedes the new one |
| SingleFrame.ExecCountDailySingleFrame.StoreCustomWriter | src/singleframe.rs:391-421 | the counters advance as `NextFrame` says; the day's target is returned unless something is there (`AlreadyExists`); a returned target was never returned before |
| SingleFrame.ExecCountDailySingleFrame.Drop | src/singleframe.rs:324-333 | the stop request is sent whenever a sender is held, and the worker is joined when this store owns it |
| TimeBoundary.ExecRun | src/timeboundary.rs:64-71 | the run is one past the run-directory scan (cut to `u32`), and archives are not scanned; a failing scan is its error; an overflow is `InvalidData` |
| TimeBoundary.FirstExecRun | src/timeboundary.rs:64-71 | in an empty root the first run is 1 |
| TimeBoundary.NewExecRunAfterDirectory | src/timeboundary.rs:229-236 | a new run never reuses the number of an existing run directory whose number fits in `u32` |
| TimeBoundary.CountTargetsDistinct | src/timeboundary.rs:111-113 | different counters name different files of one directory |
| TimeBoundary.HourTargetsDistinct | src/timeboundary.rs:283-285 | different (day, hour counter) pairs name different files |
| TimeBoundary.DayTargetsDistinct | src/timeboundary.rs:111-113 | different elapsed days never share a target: one file per day |
| TimeBoundary.NextHour | src/timeboundary.rs:279-282 | the hour counter is raised only to a later hour, so it never decreases |
| TimeBoundary.HourNotResetOnNewDay | src/timeboundary.rs:262-285 | after hour 5 of day 0, a frame at the start of day 1 still goes to hour file 5 of the new day |
| TimeBoundary.OpenTarget | src/timeboundary.rs:114-126 | an existing target keeps the open writer, or else is opened for append without initialisation; a missing one is created, initialised once and flushed; on an error the writer stays as it was |
| TimeBoundary.ExecCountDaily.constructor | src/timeboundary.rs:80-88 | day 0, no writer, and the current directory is the day-0 directory |
| TimeBoundary.ExecCountDaily.New | src/timeboundary.rs:54-90 | the run, run directory and day-0 directory are made before the store attaches to the worker; it starts at day 0 with no writer |
| TimeBoundary.ExecCountDaily.GetWriterChecked | src/timeboundary.rs:92-128 | on a later day the old day directory is queued, the day advances, its directory is made and the writer is dropped (a failed mkdir leaves the day advanced); the day never decreases; then the writer for `<day>/<day>.<ext>` as `OpenTarget` decides; on success the writer is set |
| TimeBoundary.ExecCountDaily.Drop | src/timeboundary.rs:36-45 | the stop request is sent whenever a sender is held, and the worker is joined when this store owns it |
| TimeBoundary.ExecCountHourly.constructor | src/timeboundary.rs:245-255 | day 0, hour 0, no writer, and the current directory is the day-0 directory |
| TimeBoundary.ExecCountHourly.New | src/timeboundary.rs:219-256 | the same steps as `ExecCountDaily::new`, starting at hour 0 |
| TimeBoundary.ExecCountHourly.Advance | src/timeboundary.rs:262-282 | the day step of `ExecCountDaily`, then the hour counter becomes `NextHour`'s; the writer is dropped exactly when the day or the hour moved; a failed mkdir stops before the hour step |
| TimeBoundary.ExecCountHourly.GetWriterChecked | src/timeboundary.rs:258-300 | the counters advance as above, and the writer for `<day>/<hour>.<ext>` is as `OpenTarget` decides; on success the writer is set |
| TimeBoundary.ExecCountHourly.Drop | src/timeboundary.rs:201-210 | the stop request is sent whenever a sender is held, and the worker is joined when this store owns it |
| UtcDaily.AfterOpen | src/utcdaily.rs:107-118 | opening leaves an existing target's files unchanged; a new target holds just the header |
| UtcDaily.WriteHandle | src/utcdaily.rs:113-118 | the writes go to the writer already open when the target existed and a writer was open, and to the target otherwise |
| UtcDaily.NewTargetHoldsFrame | src/utcdaily.rs:107-120 | a newly created target ends up holding the header followed by exactly the frame's writes |
| UtcDaily.AppendedAllGrows | src/utcdaily.rs:202-205 | successive writes append to one file and leave every other file alone |
| UtcDaily.UtcDaily.constructor | src/utcdaily.rs:90-100 | the store starts with no writer |
| UtcDaily.UtcDaily.New | src/utcdaily.rs:76-101 | the root is made and locked for the format's hash before the store attaches to the worker; a held lock fails; the store starts with no current directory, no date and no writer |
| UtcDaily.UtcDaily.GetWriterChecked | src/utcdaily.rs:103-121 | `New` is created and initialised and becomes the writer; `Old` keeps the open writer, whatever file it is on, or with none is opened for append; on success the writer is set, on failure it stays |
| UtcDaily.UtcDaily.Open | src/utcdaily.rs:174-175 | the date's non-single name is checked (queueing the previous directory on a new date) and its writer obtained |
| UtcDaily.UtcDaily.StoreBinary | src/utcdaily.rs:173-178 | returns `root/<date>/<date>000000.<ext>`; the frame goes through the writer; afterwards `root/<date>` and its ancestors exist and are the current directory and date |
| UtcDaily.UtcDaily.StoreJson | src/utcdaily.rs:196-207 | the serialized value, then the delimiter, then a flush go through the writer, and the date's file name is returned; a value that cannot be serialized fails; afterwards `root/<date>` and its ancestors exist and are the current directory and date |
| UtcDaily.UtcDaily.StoreRaw | src/utcdaily.rs:225-231 | the bytes verbatim, then a flush, go through the writer, and the date's file name is returned; afterwards `root/<date>` and its ancestors exist and are the current directory and date |
| UtcDaily.UtcDaily.Drop | src/utcdaily.rs:57-66 | only the store that owns the worker sends the stop request and joins it; the lock is released |
| UtcDaily.FirstStoreQueuesEmptyDir | src/utils.rs:78-83 | the first store of a new compressing `UtcDaily` hands the worker the initial, empty current directory |
| UtcDaily.NewDateQueuesPreviousDir | src/utils.rs:78-91 | after two successful stores on different dates, the last request the worker received is the first date's directory `root/<d1>` |

## Left out

- Dates, hours and times are inputs, as the strings chrono formats them (`%Y%m%d`, `%H`, `%H%M%S.%f`). Calendar conversion is not modelled.
- Elapsed time is a whole number of seconds. The `f64` division and flooring are integer division. The saturating float-to-integer cast is kept, but `f64` rounding of very large durations is not.
- Directory listings are inputs (`Listing`), with a failing `read_dir` as an error. The filesystem the stores later create in is a separate `Fs` object, so the model does not tie the listing to it.
- gzip and tar encoding are one abstract `Archive` write. The worker runs on the channel as it stands when the worker is called, not concurrently with the stores.
- Threads, `mpsc`, `Mutex`, `lazy_static` and `JoinHandle::join` are objects with no concurrency. A mutex poisoned by another thread is a nondeterministic choice in `GetCompressor`. A sender whose worker has stopped still records the request, which the stores ignore anyway.
- Each operating-system call fails nondeterministically. A failure changes nothing, and the error kind is `Io` unless the source names one.
- The `flock`/`LockFileEx` backends are a `locked` set of paths.
- serde serialization, `store_binary` and the `FmtInfo` hooks (`extension`, `initialize`, `delimiter`, `type_hash`) belong to a module that is not part of this model. A `Format` value carries their results, and the writes are abstract operations (`Header`, `Bytes`, `Frame`, `Flush`). A value serde cannot serialize is `None`.
- UtcDaily.UtcDaily.StoreJson: a serialization failure is reported before any byte is written. serde streaming into the writer could leave a partial value behind, and that is not modelled.
- The `store` methods of `ExecCountSingleFrame`, `ExecCountDailySingleFrame`, `ExecCountDaily` and `ExecCountHourly` (src/singleframe.rs:424-520, src/timeboundary.rs:131-180, 303-352) are not modelled. They call the modelled `store_custom_writer` / `get_writer_checked` and then the abstract format writes.
- The `UtcHourly` store, which implements the hourly boundary, is not part of this model. Only its check, `check_time_utchourly`, is modelled.
- src/lib.rs only re-exports and is not modelled.
- UtcDaily.UtcDaily.StoreBinary, UtcDaily.UtcDaily.StoreJson, UtcDaily.UtcDaily.StoreRaw: the state after a failed write is not described. The source makes no promise about it beyond passing the error on.
- Digits.ParseU64: its own contract states only that success needs a non-empty string. The accepted syntax (an optional `+`, then decimal digits up to `u64::MAX`) is its definition, and the round trip is stated by `Digits.PaddedParses`.
- Paths.WithExtension: what `set_extension` does to a last component that is `..` or empty is taken from `std::path`, which is not part of this model.
- Two behaviours of the crate contradict its own documentation or naming. The model follows the code:
  - The run scans of `root` look for archives with extension `gz` (src/singleframe.rs:262, 356), but nothing in the crate writes such a file. The run-based stores hand the worker only day directories `root/<run>/<day>` (src/singleframe.rs:396, src/timeboundary.rs:102, 270), so their archives land at `root/<run>/<day>.tar.gz`, inside the run directory, where the scans of `root` never look. Even an archive `root/N.tar.gz` would not count: its stem is `N.tar`, which does not parse (`Utils.TarGzArchiveIgnored`). Only the run directories themselves raise the next run id.
  - `ExecCountDailySingleFrame` starts with frame count 0 and increments before naming, so the first frame of day 0 is numbered 1 (src/singleframe.rs:375, 403-409). A later day sets the frame count to 0 and names its first frame 0 (src/singleframe.rs:394-401; `SingleFrame.NextFrame`).
