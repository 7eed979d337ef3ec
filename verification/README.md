# Verified model of the capture agent

The agent follows log files that other processes keep writing, runs capture tasks side by side, manages long-running
collectors, and carries a C process scanner (procps) that compares each scan with the one before. This project states
what those parts promise and proves it, one Dafny module per part:

| module | part |
|---|---|
| `Lines` | byte strings, lines, the last complete line |
| `LogFile` | a file that grows while it is read; the backward chunk scan |
| `DotnetGcLog` | time-filtered copies of a .NET GC log by binary search on byte offsets |
| `NodeGcLog` | incremental split of a Node.js stdout file, over any schedule of cycles |
| `IncrementalLogs` | application and access logs with read positions and rotation |
| `LastLines` | positioning a file at its last n lines |
| `CaptureProtocol` | capture tasks, wait groups and the sequential drain, as a transition system |
| `JStack` | the two-worker thread dump protocol, as a transition system |
| `DotnetGcAsync` | collector sessions, PID reuse, conservation of collectors |
| `PidsHistory`, `PidsFetch` | double-buffered hash history of the process scanner; result stacks |
| `DiskStats` | the linked list of disk devices and its deltas |
| `StringVector` | reading NUL-separated strings with a pointer table |
| `Escape` | in-place escaping of command lines |
| `GcLogPath` | GC log path templates as glob patterns |

Check everything with `dafny verify dfyconfig.toml`.

## Conventions

- Code that updates fields or buffers is a class or a method on arrays, specified by functions of the old state; what is
  promised over many calls is proved about those functions. Concurrent code is a transition system whose runs are
  sequences of steps.
- A concurrent writer is a method that may append anything before any read (`LogFile.File.Interfere`), or an event of
  a run. Outcomes that depend on the outside (spawning, opening, writing, parsing, clocks, the process table) are
  parameters, so that every contract says when an operation fails.
- Every lemma carries `{:induction false}`: all inductions are written out.
- Integer widths are written out where the code depends on them: `int` tic deltas read as unsigned ones
  (`PidsHistory.ToInt32`, `PidsHistory.ItemsOf`), unsigned 64-bit wrap-around, `int(n) + 1` (`LastLines.ToInt64`), the
  `INT_MAX` guards of `StringVector` and `Escape`.

## Where the code and its words differ

Each of these has a theorem with the exact condition, and a failing input given as a lemma or constructed in the proof.

- The comment at internal/capture/dotnet_gc_log.go:85-86 says that the search returns the file size when no event
  qualifies. It returns the end of the last complete line, which is the file size if and only if no fragment trails
  (`NoneQualifies`, `NoneQualifiesBeforeFragment`).
- A copy of a .NET log equals the time filter if and only if no qualifying event stands before one that does not qualify
  (`CopyAfterIsFilterIff`); for a log that is not sorted some cut-off time fails (`UnsortedLogFailsSomewhere`).
- Header() promises a trailing newline, but a header read before its newline was written is accepted. The copy then glues
  the first event to it, unless all complete events qualify, or none does, or the first that qualifies is by coincidence
  what is missing of the header line (`UnterminatedHeaderIff`, `UnterminatedHeaderGlues`).
- The examples and a comment at internal/capture/gc.go:105-106 and 128-130 say that `%t` matches anything; the code puts a
  pattern that matches exactly the names of a date's shape (`TokenMatchesIff`, `DateIsNotAnything`).
- Only the first `%pid` and the first `%p` of a template are replaced, so the pattern is the token-by-token mapping, and
  matches all expansions, if and only if neither stands twice (`PathIsMappedIff`, `PathMatchesExpansionsIff`).
- A rotation of an application log is noticed only while the new file is shorter than the recorded size. Over a run,
  delivery starts where it should if and only if every rotation shows (`IncrementalLogs.StartsRightIff`, `LostRotation`);
  the same holds of a truncated Node.js log and the remembered offset (`NodeGcLog.StartsRightIff`, `HiddenTruncation`).
- A log file that takes the place of a longer one between taking its size and opening it can be delivered twice. Delivery
  is at most once over a run if and only if no visit finds a file it has delivered from shorter than the recorded size
  (`AtMostOnceIff`, `DeliveredTwice`).
- Waiting for a task that is drained later can deadlock (`DeadlockFreeIff`, `LaterWaitDeadlocks`); the on-demand capture
  does not do it.
- The tic delta is handed out as an unsigned int and found by the task number alone: all along a run the deltas add up
  exactly if and only if no frame adds 2^32 tics or more and none takes any away, as a number used again by another task
  does (`DeltasExactIff`, `WideDeltaLost`, `ReusedPid`). One item is the task's own gain if and only if the gain fits it
  and the number was not in the frame before, was the same task's, or another's with a multiple of 2^32 tics
  (`OwnGainIff`).
- A disk that was not in the previous read shows no difference, unless an earlier sighting with other values carries the
  stamp of one of the last two reads, which takes two reads in one clock second (`TrueDeltaIff`, `SameSecondShowsDelta`).
- `esc_ctl` does not look at continuation bytes, so a control character behind a lead byte survives
  (`NoControlLeftIff`, `ControlSurvives`).
- `file2strvec` lists all strings of the file if and only if neither the overflow guard of its read loop nor that of its
  counting pass strikes (`AllListedIff`, `CutString`, `TooManyStrings`).

## Model

| member | source | states |
|---|---|---|
| `LogFile.FindLastCompleteLineEnd` | internal/capture/dotnet_gc_log.go:246-273 | returns the offset just past the last newline of the size snapshot, whatever the chunk boundaries and whatever is appended meanwhile |
| `DotnetGcLog.ReadLineAtOrAfter` | internal/capture/dotnet_gc_log.go:162-212 | finds the first complete line that starts at or after the offset inside the snapshot; a trailing fragment is end of file |
| `DotnetGcLog.DotnetGCLog.Open` | internal/capture/dotnet_gc_log.go:26-36 | accepts exactly the files whose first line passes the header test, and keeps that line and its length |
| `DotnetGcLog.DotnetGCLog.ProbeFile` | internal/capture/dotnet_gc_log.go:97-114 | one turn of the search sees the probe of the snapshot, not of the grown file |
| `DotnetGcLog.DotnetGCLog.FindOffsetAfter` | internal/capture/dotnet_gc_log.go:87-117 | the loop terminates and computes the search over the snapshot taken first |
| `DotnetGcLog.DotnetGCLog.CopyFromOffset` | internal/capture/dotnet_gc_log.go:228-241 | copies from the offset to the end of the last complete line of the snapshot, nothing when there is none |
| `DotnetGcLog.DotnetGCLog.Copy` | internal/capture/dotnet_gc_log.go:46-55 | writes the header and all complete event lines of the file as it was at the call |
| `DotnetGcLog.DotnetGCLog.CopyAfter` | internal/capture/dotnet_gc_log.go:71-80 | its output is a function of the file at the call: later appends do not show |
| `DotnetGcLog.DotnetGCLog.CopyLast` | internal/capture/dotnet_gc_log.go:61-66 | refuses a negative window, otherwise copies from now minus the window |
| `DotnetGcLog.SearchKeeps` | internal/capture/dotnet_gc_log.go:94-115 | what the halving loop keeps for lo and hi, for any prober, also when lo passes hi |
| `DotnetGcLog.CrossedBounds` | internal/capture/dotnet_gc_log.go:110-116 | when lo has passed hi, the events from lo on are still all known to qualify |
| `DotnetGcLog.SearchStopsAtBoundary` | internal/capture/dotnet_gc_log.go:87-117 | sorted or not, the chosen offset is a line start not before the first event |
| `DotnetGcLog.SearchFindsSplit` | internal/capture/dotnet_gc_log.go:94-116 | the offset splits partitioned events into none before and all after |
| `DotnetGcLog.EmitsWholeEvents` | internal/capture/dotnet_gc_log.go:71-80 | sorted or not, a successful copy is the header and the complete lines from some event on |
| `DotnetGcLog.SearchRefinesFilter` | internal/capture/dotnet_gc_log.go:68-117 | the binary search refines a plain filter over complete lines when qualifying lines come last |
| `DotnetGcLog.CopyAfterIsFilterIff` | internal/capture/dotnet_gc_log.go:68-117 | a successful copy equals the filter if and only if no qualifying event precedes a non-qualifying one |
| `DotnetGcLog.CopySucceeds` | internal/capture/dotnet_gc_log.go:103-109 | the copy fails only when some event line does not parse |
| `DotnetGcLog.CopyAfterOnSortedLog` | internal/capture/dotnet_gc_log.go:68-117 | with parseable nondecreasing stop times the copy is header plus all complete lines with StopTime >= after, for every after |
| `DotnetGcLog.UnsortedLogFailsSomewhere` | internal/capture/dotnet_gc_log.go:68-117 | every parseable log that is not sorted has a cut-off for which the copy is not the filter |
| `DotnetGcLog.NoneQualifies` | internal/capture/dotnet_gc_log.go:85-117 | when no event qualifies the search ends at the end of the last complete line, which is the file size if and only if no fragment trails |
| `DotnetGcLog.NoneQualifiesBeforeFragment` | internal/capture/dotnet_gc_log.go:85-117 | a log with a trailing fragment for which the result is not the file size |
| `DotnetGcLog.StaysOrLeavesHeader` | internal/capture/dotnet_gc_log.go:94-116 | with a header read without its newline the offset is that of the first event or a line start behind the header line |
| `DotnetGcLog.UnterminatedHeaderIff` | internal/capture/dotnet_gc_log.go:71-117 | with such a header, on a log whose qualifying events come last, the first line of the copy is text of the file if and only if all complete events qualify, none does, or the first that does is what the header line lacks |
| `DotnetGcLog.StaysAtHeaderIff` | internal/capture/dotnet_gc_log.go:94-116 | when qualifying events come last the search stays there if and only if all complete events qualify |
| `DotnetGcLog.UnterminatedHeaderGlues` | internal/capture/dotnet_gc_log.go:124-139 | a log whose first copied event is glued to the header |
| `NodeGcLog.SplitGCLog` | internal/capture/nodejs_gclog.go:25-49 | each side gets its lines of the input, in order, up to the first line that cannot be written; it fails exactly when there is one |
| `NodeGcLog.SplitNodeGCFrom` | internal/capture/nodejs_gclog.go:70-106 | splits the complete lines between the resume point and the last newline of the size snapshot and returns that end; a shorter file restarts at 0; says exactly when it fails and which offset it returns then |
| `NodeGcLog.NodeGCTracker.InitIfAbsent` | internal/capture/nodejs_gclog.go:154-163 | records an offset for a new key only, and says whether it did |
| `NodeGcLog.NodeGCTracker.Forget` | internal/capture/nodejs_gclog.go:167-175 | drops exactly the keys of the PID |
| `NodeGcLog.NodeGCTracker.RetainOnly` | internal/capture/nodejs_gclog.go:178-186 | drops exactly the keys of PIDs not kept |
| `NodeGcLog.RunCycle` | internal/capture/nodejs_capture.go:381-401 | one cycle is the step of the run model: first cycle records the size, a failed split keeps the offset and delivers nothing, and it fails exactly by the given faults |
| `NodeGcLog.RunCycles` | internal/capture/nodejs_capture.go:381-401 | what successive cycles of the program remember and write is what the run of events of the model delivers, whatever happens to the file between and during them |
| `NodeGcLog.SplitConserves` | internal/capture/nodejs_gclog.go:28-41 | every line goes to exactly one side, none is lost or copied |
| `NodeGcLog.CycleDelivers` | internal/capture/nodejs_gclog.go:88-105 | a successful cycle extends the delivered range to the last complete line, also after a truncation |
| `NodeGcLog.EveryRunDeliversOnce` | internal/capture/nodejs_capture.go:381-401 | over every run of appends, truncations, cycles and failures all output since the last truncation is one split of one contiguous range of the file |
| `NodeGcLog.EveryRunFromStart` | internal/capture/nodejs_capture.go:384-391 | in append-only runs nothing is delivered before the first cycle, and the range starts at the size of the first cycle, or at 0 when that could not be taken |
| `NodeGcLog.StartsRightIff` | internal/capture/nodejs_gclog.go:83-86 | delivery starts at the size of the first cycle, and at 0 after a truncation, all along a run if and only if every truncation shows by a file shorter than the offset |
| `NodeGcLog.HiddenTruncation` | internal/capture/nodejs_gclog.go:83-86 | a run whose truncation does not show and whose new line is lost |
| `NodeGcLog.EveryRunCatchesUp` | internal/capture/nodejs_gclog.go:83-105 | a successful cycle, all truncations showing, has delivered every complete line from the right start |
| `NodeGcLog.ScheduleIndependence` | internal/capture/nodejs_capture.go:381-401 | two schedules that end with the same file and began at the same place agree on all output after one more successful cycle |
| `IncrementalLogs.LogM3.VisitFile` | internal/capture/applogm3.go:92-160 | one visit with its artifact: missing, failed, initialized at the current size, or the bytes from the read position, and exactly when each |
| `IncrementalLogs.LogM3.CaptureSingle` | internal/capture/accesslogm3.go:108-184 | the same with other processes acting before and within it; an access log artifact starts with its header lines and initializes without opening the file |
| `IncrementalLogs.LogM3.Run` | internal/capture/applogm3.go:58-87 | visits every match in order, a path matched twice is visited twice, each result is that of its own visit, and the memory stays that of the replayed run |
| `IncrementalLogs.VisitKeepsIff` | internal/capture/applogm3.go:93-160 | a visit keeps the delivered bytes of a generation one contiguous range if and only if it does not take a file it has delivered from for rotated |
| `IncrementalLogs.AtMostOnceIff` | internal/capture/applogm3.go:92-160 | each byte of a generation is delivered at most once and in order, all along a run with rotations before, within and after visits, if and only if no visit does that |
| `IncrementalLogs.EveryRunAtMostOnce` | internal/capture/applogm3.go:92-160 | so it is over every run, rotations noticed or not, in which no file is swapped between size and opening |
| `IncrementalLogs.DeliveredTwice` | internal/capture/applogm3.go:93-102 | a run with such a swap in which a byte is delivered twice |
| `IncrementalLogs.StartsRightIff` | internal/capture/applogm3.go:107-139 | delivery starts at the first-seen size in the first generation and at 0 after a rotation, all along a run, if and only if every rotation shows |
| `IncrementalLogs.EveryRunCatchesUp` | internal/capture/applogm3.go:121-160 | over every run in which rotations show and nothing is redelivered, a visit that completes has delivered everything from the right start |
| `IncrementalLogs.FailedVisitsLoseNothing` | internal/capture/applogm3.go:144-160 | a failed visit changes no memory, so the next one delivers what both would have |
| `IncrementalLogs.RotationDeliveredIff` | internal/capture/applogm3.go:121-139 | the first copy after a rotation is the whole new file if and only if its size is below the recorded one, or nothing had been read |
| `IncrementalLogs.LostRotation` | internal/capture/applogm3.go:121-139 | a run whose rotation does not show and whose new file is not delivered |
| `LastLines.ScanBlock` | internal/capture/post.go:189-203 | scans a block backwards and stops at the newline that makes up the target |
| `LastLines.TargetMeans` | internal/capture/post.go:161-164 | the int conversion wraps only for n that no file has lines for |
| `LastLines.PositionLastLines` | internal/capture/post.go:115-212 | for every file and every unsigned n the rest after the offset is the last min(n, total) lines; the offset is 0, the end, or just past a newline |
| `CaptureProtocol.RunKeepsInv` | internal/capture/capture.go:111-143 | every interleaving keeps wait group counts exact and nonnegative and main's results those of the drained tasks; its length is bounded |
| `CaptureProtocol.StepDecreases` | internal/capture/capture.go:111-143 | every step of every interleaving decreases a measure |
| `CaptureProtocol.Progress` | internal/agent/ondemand/ondemand.go:598-683 | with well-ordered waits some step is possible until all is done |
| `CaptureProtocol.MaximalRunsDeliver` | internal/agent/ondemand/ondemand.go:598-683 | a run that cannot go on has handed main exactly one result per task, its own, in drain order |
| `CaptureProtocol.LaterWaitDeadlocks` | internal/capture/capture.go:32-37 | a wait on a task drained later has a reachable deadlock |
| `CaptureProtocol.DeadlockFreeIff` | internal/capture/capture.go:111-143 | all interleavings complete if and only if no wait list names a task drained later |
| `CaptureProtocol.FullCaptureIsDeadlockFree` | internal/agent/ondemand/ondemand.go:435-447 | every on-demand capture, whichever tasks it leaves out and however many Node.js extras it adds, is deadlock free: only dmesg waits, on vmstat, which is drained before |
| `JStack.StepKeepsInv` | internal/capture/jstack.go:54-211 | what every step of main and workers keeps of channels, replies and rounds |
| `JStack.Progress` | internal/capture/jstack.go:195-211 | main never blocks forever, wherever the dump worker dies |
| `JStack.StepDecreases` | internal/capture/jstack.go:54-211 | every step decreases a measure |
| `JStack.SendsNeverBlock` | internal/capture/jstack.go:46-49 | channels of capacity count never fill up, also with a dead reader |
| `JStack.RoundsInStep` | internal/capture/jstack.go:195-205 | round n+1 starts only after the replies to rounds 1..n, or the closed dump channel, were read, each in its own round |
| `JStack.EveryRunCompletes` | internal/capture/jstack.go:195-214 | runs are finite; main reads exactly count rounds, the dump replies being a prefix of them |
| `JStack.RoundCount` | internal/capture/jstack.go:32-43 | one round per full ten seconds, one below that |
| `DotnetGcAsync.DotnetGCAsync.StopLocked` | internal/capture/dotnet_gc_async.go:186-205 | removes the session and stops its collector once; nothing without a session |
| `DotnetGcAsync.DotnetGCAsync.EnsureStartedLocked` | internal/capture/dotnet_gc_async.go:102-140 | keeps a healthy session, replaces any other when the process exists and the tool starts, touches no other PID |
| `DotnetGcAsync.DotnetGCAsync.ReconcileOne` | internal/capture/dotnet_gc_async.go:69-91 | serves one active PID: keep when healthy, else stop and start |
| `DotnetGcAsync.DotnetGCAsync.StopInactive` | internal/capture/dotnet_gc_async.go:63-67 | stops exactly the sessions of PIDs that are no longer active |
| `DotnetGcAsync.DotnetGCAsync.Reconcile` | internal/capture/dotnet_gc_async.go:59-92 | afterwards sessions belong to active PIDs and to the processes now behind them; collectors are started and stopped exactly where that is due, so no event touches a healthy active PID, and a second call in the same world adds none if and only if all collectors run |
| `DotnetGcAsync.NothingTouchedIff` | internal/capture/dotnet_gc_async.go:63-91 | a reconcile adds no event if and only if no session is to be stopped and no collector can be started |
| `DotnetGcAsync.DotnetGCAsync.EnsureStarted` | internal/capture/dotnet_gc_async.go:95-99 | succeeds exactly when a session bound to the current process exists afterwards; a healthy one is left alone, other PIDs are untouched |
| `DotnetGcAsync.DotnetGCAsync.Stop` | internal/capture/dotnet_gc_async.go:169-173 | removes one session, stopping its collector if there is one |
| `DotnetGcAsync.DotnetGCAsync.StopAll` | internal/capture/dotnet_gc_async.go:176-183 | no session is left and every collector ever started was stopped exactly once |
| `DotnetGcAsync.EveryRunConserves` | internal/capture/dotnet_gc_async.go:59-211 | over every run each collector is in one session or was stopped once, never both, and no PID has two |
| `DotnetGcAsync.OverwritingOrphans` | internal/capture/dotnet_gc_async.go:107-112 | starting over an existing session would orphan its collector: the stop before is needed |
| `DotnetGcAsync.StoppedForGood` | internal/capture/dotnet_gc_async.go:186-205 | a stopped collector never comes back into a session |
| `DotnetGcAsync.ServedAll` | internal/capture/dotnet_gc_async.go:260-296 | after a reconcile all sessions fit their processes, and all are healthy exactly when the new collectors still run |
| `PidsHistory.History.HistGet` | internal/capture/procps/linux/pids.c:678-690 | the chain walk finds the latest record of the task in the previous frame, or none; it ends because links fall |
| `PidsHistory.History.HistPut` | internal/capture/procps/linux/pids.c:693-701 | appends the record to the new frame and keeps the chains |
| `PidsHistory.History.Grow` | internal/capture/procps/linux/pids.c:714-720 | growing both arrays keeps both frames |
| `PidsHistory.History.MakeHist` | internal/capture/procps/linux/pids.c:706-739 | records the task and reports its differences to the previous frame, all tics if it was not there |
| `PidsHistory.History.Toggle` | internal/capture/procps/linux/pids.c:742-757 | the frame just read becomes the previous one and the new one is empty |
| `PidsHistory.SkipToBucket` | internal/capture/procps/linux/pids.c:682-689 | skipping records of other buckets skips no record of the task |
| `PidsHistory.PushChains` | internal/capture/procps/linux/pids.c:697-700 | heads and links stay right when a record is pushed |
| `PidsHistory.TaskReports` | internal/capture/procps/linux/pids.c:724-735 | the item a task is reported with in a frame is what it gained since the frame before, modulo 2^32 |
| `PidsHistory.DeltasAddUp` | internal/capture/procps/linux/pids.c:706-757 | the items reported for a task over a run of frames add up to its current tics, but for the multiples of 2^32 that the item cannot hold |
| `PidsHistory.DeltasExactIff` | internal/capture/procps/linux/pids.c:706-757 | they add up exactly all along the run if and only if no frame adds 2^32 tics or more, the width of the unsigned item at line 273, and none takes any away |
| `PidsHistory.WideDeltaLost` | internal/capture/procps/linux/pids.c:273 | a frame whose tics are reported as none |
| `PidsHistory.ReusedPid` | internal/capture/procps/linux/pids.c:685 | two frames in which a number is used again and the sum is wrong |
| `PidsHistory.OwnGainIff` | internal/capture/procps/linux/pids.c:678-735 | the item is the gain of the task itself, by number and start time, if and only if the gain fits and the entry found is its own, absent, or a multiple of 2^32 |
| `PidsFetch.StacksAlloc` | internal/capture/procps/linux/pids.c:1087-1129 | new stacks, pairwise distinct |
| `PidsFetch.PidsInfo.MoreStacks` | internal/capture/procps/linux/pids.c:1155-1161 | anchor and extents grow together, the anchor stays distinct and complete |
| `PidsFetch.PidsInfo.FetchOne` | internal/capture/procps/linux/pids.c:1155-1165 | makes room for, tallies, records and assigns one process and keeps all earlier rows |
| `PidsFetch.PidsInfo.Fetch` | internal/capture/procps/linux/pids.c:1132-1190 | n distinct stacks, the i-th from the i-th process with deltas against the previous fetch; counts and frame are those of the processes read |
| `PidsFetch.FetchRun` | internal/capture/procps/linux/pids.c:1132-1190 | what a caller adds up for a task over successive fetches is its current tics but for those multiples, and exact if and only if they cancel |
| `PidsFetch.TallyCounts` | internal/capture/procps/linux/pids.c:1040-1068 | the counts are the numbers of processes in each group of states and make up the total |
| `PidsFetch.OtherCounts` | internal/capture/procps/linux/pids.c:1060-1066 | the fifth count is the processes in no known state |
| `DiskStats.DiskstatsInfo.NodeAdd` | internal/capture/procps/linux/diskstats.c:284-320 | links the node at the end of the chain |
| `DiskStats.DiskstatsInfo.NodeCut` | internal/capture/procps/linux/diskstats.c:349-369 | unlinks exactly the given node |
| `DiskStats.DiskstatsInfo.NodeGet` | internal/capture/procps/linux/diskstats.c:372-394 | returns the first node of the name, or cuts it when its stamp is neither of the last two |
| `DiskStats.DiskstatsInfo.NodeUpdate` | internal/capture/procps/linux/diskstats.c:397-421 | refreshes the node in place keeping its last reading as old, or adds a new one with old equal to new |
| `DiskStats.DiskstatsInfo.Read` | internal/capture/procps/linux/diskstats.c:511-560 | moves the stamps and applies all lines up to the first that does not parse |
| `DiskStats.DiskstatsInfo.ReadNext` | internal/capture/procps/linux/diskstats.c:511-560 | after successive reads the list in memory is that of the run of reads of the model |
| `DiskStats.UpdateIsMapUpdate` | internal/capture/procps/linux/diskstats.c:372-421 | names stay unique and an update touches the row of its device only |
| `DiskStats.ReadRows` | internal/capture/procps/linux/diskstats.c:530-557 | one read refreshes the listed devices and leaves the others |
| `DiskStats.EveryRunKnows` | internal/capture/procps/linux/diskstats.c:372-421 | after every run of reads, whatever the clock does, the list holds of a device the last read that lists it, against the sighting before if that has one of the last two stamps |
| `DiskStats.TrueDeltaIff` | internal/capture/procps/linux/diskstats.c:384-421 | after every run new is the current reading and old the previous read's, or equal to new for a device not in it, if and only if no earlier sighting with other values has one of the last two stamps |
| `DiskStats.EveryRunTracks` | internal/capture/procps/linux/diskstats.c:397-421 | with a moving clock that is always so |
| `DiskStats.SameSecondShowsDelta` | internal/capture/procps/linux/diskstats.c:384-392 | a run with two reads in one second after which a reappearing device shows a difference |
| `StringVector.ReadWhole` | internal/capture/procps/linux/readproc.c:767-804 | reads the file in blocks up to the overflow limit and ends it in a NUL; nothing for an empty file or when a needed read fails |
| `StringVector.CountPointers` | internal/capture/procps/linux/readproc.c:806-815 | counts a pointer per terminator and turns newlines into NULs, up to the end or to the terminator at which the guard strikes |
| `StringVector.StorePointers` | internal/capture/procps/linux/readproc.c:819-829 | fills the table exactly, with a pointer to each of the first strings, as many as were counted |
| `StringVector.File2Strvec` | internal/capture/procps/linux/readproc.c:755-831 | aligned table that ends in NULL and lists the first strings of the data read for every content; exactly those of the file if and only if neither overflow guard strikes |
| `StringVector.AllListedIff` | internal/capture/procps/linux/readproc.c:767-815 | the strings listed are those of the file if and only if it is below the read limit and the counting pass gets through |
| `StringVector.CutInLastString` | internal/capture/procps/linux/readproc.c:776-786 | whatever the read limit cuts, all strings of the data but the last are the first ones of the file |
| `StringVector.CutString` | internal/capture/procps/linux/readproc.c:776 | a file that the read limit cuts while the counting pass gets through |
| `StringVector.TooManyStrings` | internal/capture/procps/linux/readproc.c:810 | a content for which it strikes |
| `StringVector.StringsCounted` | internal/capture/procps/linux/readproc.c:808-828 | both passes count the same |
| `StringVector.StringsJoin` | internal/capture/procps/linux/readproc.c:808-828 | the strings with their NULs are the data again, newlines apart |
| `Escape.EscAll` | internal/capture/procps/linux/escape.c:65-74 | rewrites every byte up to the NUL by the table and nothing else |
| `Escape.EscCtl` | internal/capture/procps/linux/escape.c:76-91 | overwrites the text with its escaped form, in place |
| `Escape.EscapeStr` | internal/capture/procps/linux/escape.c:93-113 | writes the escaped, truncated text and a NUL, nothing else, in either locale, and returns its length |
| `Escape.EscapeCommand` | internal/capture/procps/linux/escape.c:115-142 | leaves the decorated command with its NUL in the buffer, in either locale, and changes no other byte |
| `Escape.CommandFits` | internal/capture/procps/linux/escape.c:119-141 | the decorated command fits with its NUL and is cut only when there is no room |
| `Escape.NoNulIntroduced` | internal/capture/procps/linux/escape.c:65-91 | escaping introduces no NUL |
| `Escape.Idempotent` | internal/capture/procps/linux/escape.c:65-91 | escaping twice is escaping once |
| `Escape.PrintableFromBroken` | internal/capture/procps/linux/escape.c:80-84 | from the first invalid or truncated lead byte on all is printable ASCII, a printable byte being kept |
| `Escape.ChangesOnlyControls` | internal/capture/procps/linux/escape.c:85-89 | before it only control characters change, to a question mark |
| `Escape.NoControlLeftIff` | internal/capture/procps/linux/escape.c:76-91 | no control character is left if and only if none stands behind a lead byte |
| `Escape.ControlSurvives` | internal/capture/procps/linux/escape.c:76-91 | an input whose control character survives |
| `Escape.CharacterLength` | internal/capture/procps/linux/escape.c:35-52 | the lead byte table gives the length of every character of section 4 of RFC 3629 |
| `Escape.WellFormedChanges` | internal/capture/procps/linux/escape.c:76-91 | on well-formed text exactly the control characters change |
| `GcLogPath.MatchesAtToken` | internal/capture/gc.go:107-144 | the text of a token is found exactly where the token stands |
| `GcLogPath.ReplaceIsSubst` | internal/capture/gc.go:108-144 | replacing in the text, all occurrences or the first, is replacing the token in the template |
| `GcLogPath.GlobPatternExactly` | internal/capture/gc.go:107-147 | what the fourteen successive replacements make of every template whose literals fuse to no token, with pid tokens that stand twice |
| `GcLogPath.GlobPatternIsMappedIff` | internal/capture/gc.go:107-147 | that is the token-by-token mapping if and only if no pid token stands twice |
| `GcLogPath.TokenMatchesIff` | internal/capture/gc.go:111-144 | the glob of every token but `%p` matches exactly the texts of its width and shape, that of `%t` those of a date |
| `GcLogPath.DateIsNotAnything` | internal/capture/gc.go:128-131 | a name that a star matches and the glob of `%t` refuses |
| `GcLogPath.PatternMatchesExpansionsIff` | internal/capture/gc.go:107-147 | the pattern matches every file name the template can stand for if and only if no pid token stands twice |
| `GcLogPath.ParseRenders` | internal/capture/gc.go:107-147 | every path is the text of such a template |
| `GcLogPath.PathIsMappedIff` | internal/capture/gc.go:107-147 | hence for every path the pattern is the token-by-token mapping if and only if no pid token stands twice |
| `GcLogPath.PathMatchesExpansionsIff` | internal/capture/gc.go:107-147 | and for every path without brackets, braces and backslashes it matches all names the path stands for if and only if that holds |

## Left out

- I/O errors of seek, stat, sync and close, and files truncated in place while they are read.
- DotnetGcLog.Search: offsets are unbounded integers; the sum of two offsets fits an int64 below 2^62 bytes.
- NodeGcLog.RunCycle: stands for continuous mode with a tracker; the dumpGC window, the uploads and the choice of the stdout file are not modelled, and a close error after a successful split counts as written.
- IncrementalLogs.LogM3: one class stands for both log readers; glob expansion, date substitution, the fallback after a failed seek, unique artifact names, sync and posting are not modelled; delivered means copied completely to an artifact.
- CaptureProtocol: Run of a task is a step that always returns; kills, endpoints and result texts are not modelled, and result channels that are nil are tasks that are not in the list.
- JStack: the commands tried for a dump, the sleeps and the shared err variable, which both workers and main write, are not modelled.
- DotnetGcAsync: LastErr, log paths and uploads; Reconcile sees one process table for the whole call.
- PidsHistory: allocation failures and the 2^32 tasks that would overflow an index.
- PidsFetch.StacksAlloc: the layout of an extent in memory; stacks differ as objects, not by address.
- PidsFetch: the per-item set functions; a row holds the process and its delta items, and whether there is a history does not change.
- DiskStats: results, sorting and stacks of devices, and the parsing of a line.
- LastLines.PositionLastLines: works on the content of the file, the file offset being its result.
- StringVector: running out of memory; a short read is the end of the file, as in the code.
- Escape: a failing snprintf, and platforms on which char is unsigned, where the table's -1 reads as 255.
- GcLogPath.PathMatchesExpansionsIff: character classes, alternatives and escapes of the glob library, so paths with brackets, braces or backslashes; the choice of the latest or previous rotated log among files, which adds only sorting.
- Uploads, command execution, configuration, the table printers and the remaining procps tables: no invariant of their own.
