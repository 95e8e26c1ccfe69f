# Verified model of the Amlogic DRM plugins

The Dafny modules here model five parts of the GStreamer DRM plugins and prove what
these parts are for, over all inputs, all runs and all interleavings. Check the project
with `dafny verify dfyconfig.toml`.

* **The per-thread profiler.** `PerfLog` says what the figures mean over a plain log of
  opened and closed scopes, `PerfThreads` interleaves many threads under the one lock,
  and `PerfHeap` has the objects: nodes linked through maps, a stack of active nodes per
  thread, a map of trees. Every operation of the objects is proved to take the step that
  the other two give it, and every report to show the lines `PerfReport` gives it.
  `PerfShown` accounts for every closed scope over whole runs of a process.
* **Subsample reassembly.** `Subsample` defines the interleaving of clear and decrypted
  runs, and proves that the loop in place and the plan of copies into secure memory both
  compute it.
* **The secure memory allocator.** `Secmem` is a monitor of any number of threads that
  take atomic steps under one mutex and one condition over a pool of handles and bytes.
  The class `Allocator` has the same operations as one thread sees them.
* **The secure parsers of H.264 and H.265.** The two programs are one machine with the
  codec as a parameter. `NalUnits` has units and their framing, `NalParser` the machine
  behind `process_nal`, `CodecData` and `HvcData` the two configuration records (section
  5.3.3.1 and section 8.3.3.1 of ISO/IEC 14496-15), `RecordShape` the bytes that are
  accepted as records, `StoredRecords` the runs that fill the stores from records,
  `RecordWitness` records that do not come back, `CodecDataIo` the programs that write and
  read records, `Gate` the machine behind `pre_push_frame` and the events, and
  `AccessUnits` the cutting of a stream by `collect_nal`.
* **HDCP counters.** `Hdcp` unpacks the two counters of a private-data field.

`Bytes` has what they share: bytes, big-endian numbers, 32-bit sums. `Sequences` regroups
concatenations.

## Where the code does not do what one would expect

Each of these is stated and proved of the model, with the exact condition.

* The avcC count of SPS has 5 bits and the count of PPS one byte, so 32 SPS or 256 PPS
  never come back. In-band avc3 writes no units, and a subset SPS that comes first is
  refused on reading. `StoredRecords.AvcComesBackIff` has the condition; no other store
  fails. Records that fill such stores are in `RecordWitness.FirstSlotsComeBackIff` and
  `RecordWitness.SubsetSpsBelowFails`. The hvcC always comes back
  (`StoredRecords.HvcComesBack`). That both writers cut sizes to 16 bits harms nothing in
  these programs: the units they store have come in records.
* The hvcC profile byte shifts profile space and tier by the same amount
  (`HvcData.ProfileByteIff`).
* The bounds check of a copy plan adds in 32 bits (`Subsample.BoundsCheckExact`,
  `Subsample.BoundsCheckWraps`).
* A failed prepend returns FALSE, which is the value of OK (`Gate.FailedPrependPasses`);
  `Gate.FirstFrameAfterRestart` has the condition on the frame.
* A thread's tree is dropped by activity alone, also under an open scope
  (`PerfThreads.OpenScopesSafeIff`, `PerfThreads.LongScopeLosesTree`).
* A process report drops inactive trees before it prints, and only opens count as
  activity: what such a tree has closed since its last report is shown by none
  (`PerfShown.ShownExactlyOnceIff`, `PerfShown.ClosedScopeUnshown`). Closing a thread
  does the same.

## What is assumed of code that is not part of this model

* The codec parser library is a function from units to a verdict, an id and three flags; it
  enters as the parameter `lib`, or as the header of each unit. It identifies a unit only
  if its header can be read: 1 byte in H.264 (4 for types 14 and 20), 2 bytes in H.265.
* The secure world grants a handle only when it has one, charges at least the bytes asked
  for and at most what is there, exports as maximal size what it charged, gives back on free
  what it charged, and copies all of a plan or, always when a copy leaves its memories,
  none. Sizes of secure memories have 32 bits. Whether a call succeeds is a parameter. One
  session serves one allocator.
* Clients free each memory once. Scope objects of a thread are destroyed innermost first.
* The global lock of the profiler makes each constructor, destructor and report one step.
* Time stamps, running times, and which flags a frame shows are parameters.

## Model

| member | source | states |
|---|---|---|
| PerfLog.TreeMatchesLog | gst-aml-drm-plugins-1.0/src/gst_svp_ext/gst_svp_performance.cpp:145-192 | For every well-nested log of scope opens, closes and reports: a node exists for exactly the opened call paths; at each, sum, count, max(0, .) and min(1000000000, .) of the durations closed with that path, in total and since the last report; the active path is the open scopes; the activity counters are the opens |
| PerfLog.ProfileOfCalls | gst-aml-drm-plugins-1.0/src/gst_svp_ext/gst_svp_performance.cpp:397-465 | For every finished program of nested and recursive calls, the tree holds exactly its call paths with the summary of the calls along each, and nothing stays open |
| PerfLog.ReportsPartitionTotals | gst-aml-drm-plugins-1.0/src/gst_svp_ext/gst_svp_performance.cpp:492-577 | For every log of one tree, the interval figures of all reports so far merged with the running interval are the total: no closed scope is reported twice or missed |
| PerfLog.CountSummarises | gst-aml-drm-plugins-1.0/src/gst_svp_ext/gst_svp_performance.cpp:492-521 | One more duration keeps a summary a summary, with 64-bit sums and counts that may wrap |
| PerfLog.SummaryUnique | gst-aml-drm-plugins-1.0/src/gst_svp_ext/gst_svp_performance.cpp:498-518 | The figures of a node are determined by the durations they summarise |
| PerfLog.AverageWithinExtremes | gst-aml-drm-plugins-1.0/src/gst_svp_ext/gst_svp_performance.cpp:507-518 | min * count <= time <= max * count wherever the 64-bit sum has not wrapped |
| PerfLog.EnclosingOpened | gst-aml-drm-plugins-1.0/src/gst_svp_ext/gst_svp_performance.cpp:145-171 | Every enclosing path of an open scope has been opened, so the stack is a root path |
| PerfLog.InactiveIffNoOpens | gst-aml-drm-plugins-1.0/src/gst_svp_ext/GstPerf.h:98 | A tree looks inactive exactly when the number of scopes opened since its report is a multiple of 2^64 |
| PerfLog.CallsAddDurations | gst-aml-drm-plugins-1.0/src/gst_svp_ext/gst_svp_performance.cpp:436-444 | Nested calls made inside any open scopes add to a path exactly the durations of the calls along the rest of it |
| PerfLog.CallsOpenPaths | gst-aml-drm-plugins-1.0/src/gst_svp_ext/gst_svp_performance.cpp:467-485 | Nested calls open exactly their own call paths below the scope that makes them |
| PerfLog.ElapsedIs | gst-aml-drm-plugins-1.0/src/gst_svp_ext/gst_svp_performance.cpp:443 | Start plus elapsed time is the end in 64 bits; without wrap-around it is their difference |
| PerfLog.DurationsAreOfCalls | gst-aml-drm-plugins-1.0/src/gst_svp_ext/gst_svp_performance.cpp:436-444 | For every program of nested calls each duration booked along a path is that of its call: start plus duration is the end |
| PerfLog.InnerCallsTakeLess | gst-aml-drm-plugins-1.0/src/gst_svp_ext/gst_svp_performance.cpp:436-444 | On a clock that does not step back, what is spent in the inner calls of a call is at most the duration booked for it |
| PerfLog.LastDeltaIs | gst-aml-drm-plugins-1.0/src/gst_svp_ext/gst_svp_performance.cpp:498 | The last delta of a node is the duration of the last scope closed with its path |
| PerfThreads.ThreadsIsolated | gst-aml-drm-plugins-1.0/src/gst_svp_ext/gst_svp_performance.cpp:279-315 | In every interleaving of atomic steps of many threads each tree is the one its own thread's events build, and its active path is the scopes that thread has open; requires that no tree is thrown away under an open scope |
| PerfThreads.OpenScopesSafeIff | gst-aml-drm-plugins-1.0/src/gst_svp_ext/gst_svp_performance.cpp:225-247 | Open scopes keep their trees at every point of a run if and only if no tree is thrown away under an open scope |
| PerfThreads.LongScopeLosesTree | gst-aml-drm-plugins-1.0/src/gst_svp_ext/gst_svp_performance.cpp:617-644 | The condition can fail: a scope open over two process reports, with no other opened, loses its tree |
| PerfHeap.PerfNode.Root | gst-aml-drm-plugins-1.0/src/gst_svp_ext/gst_svp_performance.cpp:359-376 | A root node has no statistics, no children and no tree |
| PerfHeap.PerfNode.Copy | gst-aml-drm-plugins-1.0/src/gst_svp_ext/gst_svp_performance.cpp:378-395 | A tree node takes name and start time of the scope, and fresh statistics |
| PerfReport.ReportUnique | gst-aml-drm-plugins-1.0/src/gst_svp_ext/gst_svp_performance.cpp:537-572 | A tree has one report: one line for each node, a node before those below it and children by name |
| PerfReport.BeforeIff | gst-aml-drm-plugins-1.0/src/gst_svp_ext/GstPerf.h:85 | The order of names: by the first character that differs, a prefix first |
| PerfReport.ReportShows | gst-aml-drm-plugins-1.0/src/gst_svp_ext/gst_svp_performance.cpp:560-576 | In the life of one tree, a report shows at every path the interval figures that then count as reported |
| PerfShown.ShownExactlyOnceIff | gst-aml-drm-plugins-1.0/src/gst_svp_ext/gst_svp_performance.cpp:617-671 | Over whole runs of a process: what all reports have shown of a thread at a path, merged with its running interval, is the summary of all scopes the thread has closed along it, if and only if no tree was thrown away with a scope closed since its last report |
| PerfShown.LostIff | gst-aml-drm-plugins-1.0/src/gst_svp_ext/gst_svp_performance.cpp:225-262 | Scopes are lost to every report exactly when a tree goes (inactive at a process report, or its thread closed) with scopes closed since its last report |
| PerfShown.EachHasItsFate | gst-aml-drm-plugins-1.0/src/gst_svp_ext/gst_svp_performance.cpp:225-262 | Every scope a thread closes is shown by one report, or is in the running interval, or is lost with a tree; and is only one of these |
| PerfShown.ShownSummarises | gst-aml-drm-plugins-1.0/src/gst_svp_ext/gst_svp_performance.cpp:343-357 | The figures shown are the summary of just the scopes that are not lost and not in the running interval |
| PerfShown.ClosedScopeUnshown | gst-aml-drm-plugins-1.0/src/gst_svp_ext/gst_svp_performance.cpp:635-641 | The condition can fail in a run that keeps every tree under its open scopes: a scope closed after a process report, with no other opened, is dropped by the next before it prints |
| PerfShown.LinesShow | gst-aml-drm-plugins-1.0/src/gst_svp_ext/gst_svp_performance.cpp:343-357 | The lines that a report prints of a tree carry these figures |
| PerfHeap.ProcessMap.constructor | gst-aml-drm-plugins-1.0/src/gst_svp_ext/gst_svp_performance.cpp:47 | No processes at first |
| PerfHeap.ProcessMap.GetProcess | gst-aml-drm-plugins-1.0/src/gst_svp_ext/gst_svp_performance.cpp:407-418 | The calling process, found or made with no trees; the others stay |
| PerfHeap.ProcessMap.OpenIn | gst-aml-drm-plugins-1.0/src/gst_svp_ext/gst_svp_performance.cpp:420-431 | The rest of a scope's construction, on the process that was found or made; no other process changes |
| PerfHeap.PerfNode.Scope | gst-aml-drm-plugins-1.0/src/gst_svp_ext/gst_svp_performance.cpp:397-434 | Constructing a scope finds or makes its process and its thread's tree, takes the open step there, and touches no other thread and no other process |
| PerfHeap.PerfNode.AddChild | gst-aml-drm-plugins-1.0/src/gst_svp_ext/gst_svp_performance.cpp:467-490 | The child with the scope's name is found or made, and the links stay one finite tree in which each node has one parent |
| PerfHeap.PerfNode.IncrementData | gst-aml-drm-plugins-1.0/src/gst_svp_ext/gst_svp_performance.cpp:492-521 | Total and interval figures both take the duration in; the last delta is it |
| PerfHeap.PerfNode.ClearInterval | gst-aml-drm-plugins-1.0/src/gst_svp_ext/gst_svp_performance.cpp:523-535 | The interval figures start anew and the totals stay |
| PerfHeap.PerfNode.ReportData | gst-aml-drm-plugins-1.0/src/gst_svp_ext/gst_svp_performance.cpp:537-579 | The recursion ends; its lines show the old figures of exactly the nodes at and below it, in the order of a report; a full report then starts a new interval at exactly these nodes, one with only the delta changes nothing |
| PerfHeap.PerfNode.Delete | gst-aml-drm-plugins-1.0/src/gst_svp_ext/gst_svp_performance.cpp:454-462 | Deleting a node deletes it and every node below exactly once |
| PerfHeap.PerfNode.Close | gst-aml-drm-plugins-1.0/src/gst_svp_ext/gst_svp_performance.cpp:436-453 | Destroying a scope takes the close step on its tree; over the threshold it shows first its own elapsed time and then the nodes below, otherwise nothing; the branch for a node that is not the active one is never taken |
| PerfHeap.PerfNode.WarnIfOver | gst-aml-drm-plugins-1.0/src/gst_svp_ext/gst_svp_performance.cpp:446-454 | A scope over its threshold shows the last durations of its node and of those below, any other nothing |
| PerfHeap.PerfTree.constructor | gst-aml-drm-plugins-1.0/src/gst_svp_ext/gst_svp_performance.cpp:132-137 | A new tree is empty |
| PerfHeap.PerfTree.PlantRoot | gst-aml-drm-plugins-1.0/src/gst_svp_ext/gst_svp_performance.cpp:154-164 | The first scope puts the root at the bottom of the stack |
| PerfHeap.PerfTree.Push | gst-aml-drm-plugins-1.0/src/gst_svp_ext/gst_svp_performance.cpp:165-167 | The scope's node goes on the stack, which stays a chain from the root |
| PerfHeap.PerfTree.AddUnder | gst-aml-drm-plugins-1.0/src/gst_svp_ext/gst_svp_performance.cpp:164-168 | The scope's node is found or made under the active one and pushed |
| PerfHeap.PerfTree.AddNode | gst-aml-drm-plugins-1.0/src/gst_svp_ext/gst_svp_performance.cpp:145-171 | Opening a scope is the open step of the log machine |
| PerfHeap.PerfTree.CloseActiveNode | gst-aml-drm-plugins-1.0/src/gst_svp_ext/gst_svp_performance.cpp:173-192 | The node that closes is on top and is popped; the root never is |
| PerfHeap.PerfTree.CloseScope | gst-aml-drm-plugins-1.0/src/gst_svp_ext/gst_svp_performance.cpp:442-443 | Closing the innermost scope is the close step of the log machine |
| PerfHeap.PerfTree.ReportData | gst-aml-drm-plugins-1.0/src/gst_svp_ext/gst_svp_performance.cpp:194-204 | A tree report shows every node as it was before, then resets every interval, keeps every total and marks the tree reported |
| PerfHeap.PerfTree.Delete | gst-aml-drm-plugins-1.0/src/gst_svp_ext/gst_svp_performance.cpp:138-143 | Destroying a tree deletes each of its nodes exactly once |
| PerfHeap.PerfProcess.constructor | gst-aml-drm-plugins-1.0/src/gst_svp_ext/gst_svp_performance.cpp:206-215 | A new process has no trees |
| PerfHeap.PerfProcess.GetTree | gst-aml-drm-plugins-1.0/src/gst_svp_ext/gst_svp_performance.cpp:279-297 | The thread's tree, or none |
| PerfHeap.PerfProcess.NewTree | gst-aml-drm-plugins-1.0/src/gst_svp_ext/gst_svp_performance.cpp:299-315 | A fresh empty tree, unless the thread has one |
| PerfHeap.PerfProcess.OpenOn | gst-aml-drm-plugins-1.0/src/gst_svp_ext/gst_svp_performance.cpp:404-431 | Opening a scope is the open step of the process machine |
| PerfHeap.PerfProcess.CloseIn | gst-aml-drm-plugins-1.0/src/gst_svp_ext/gst_svp_performance.cpp:436-453 | Closing a thread's innermost scope is the close step and leaves all other trees alone |
| PerfHeap.PerfProcess.ReportThread | gst-aml-drm-plugins-1.0/src/gst_svp_ext/gst_svp_performance.cpp:645-671 | Reporting a thread reports its tree, and shows it, if it has one |
| PerfHeap.PerfProcess.ReportData | gst-aml-drm-plugins-1.0/src/gst_svp_ext/gst_svp_performance.cpp:343-357 | Every tree is reported once, and shown as it was before |
| PerfHeap.PerfProcess.CloseInactiveThreads | gst-aml-drm-plugins-1.0/src/gst_svp_ext/gst_svp_performance.cpp:225-247 | Exactly the inactive trees go, and the result says whether any did |
| PerfHeap.PerfProcess.ReportProcess | gst-aml-drm-plugins-1.0/src/gst_svp_ext/gst_svp_performance.cpp:635-641 | A process report drops the inactive trees and reports and shows the rest |
| PerfHeap.PerfProcess.RemoveTree | gst-aml-drm-plugins-1.0/src/gst_svp_ext/gst_svp_performance.cpp:249-262 | Closing a thread removes its tree, and says whether there was one |
| Subsample.InterleaveIffGathered | gst-aml-drm-plugins-1.0/src/gst_svp_ext/amlogic_svp_impl.cpp:430-442 | The interleaving is the only buffer of that length whose encrypted ranges hold the decrypted data in order and whose clear ranges are unchanged |
| Subsample.InterleaveOneMore | gst-aml-drm-plugins-1.0/src/gst_svp_ext/amlogic_svp_impl.cpp:435-442 | One more entry writes one more decrypted run, behind the clear run, over the interleaving so far |
| Subsample.SecondPassReadsSameTable | gst-aml-drm-plugins-1.0/src/gst_svp_ext/amlogic_svp_impl.cpp:496-509 | However short the table data, the second pass of the secure path reads the table the first pass and the in-place path read |
| Subsample.TableReadsBack | gst-aml-drm-plugins-1.0/src/gst_svp_ext/amlogic_svp_impl.cpp:435-438 | Every table comes back from its bytes, two of clear length and four of encrypted length big-endian; entries that the data does not hold any more repeat the last |
| Subsample.ReadIs | gst-aml-drm-plugins-1.0/src/gst_svp_ext/amlogic_svp_impl.cpp:436-437 | A read gives the big-endian number of its bytes and moves behind them, or past the end changes nothing |
| Subsample.ByteReader.GetUint16Be | gst-aml-drm-plugins-1.0/src/gst_svp_ext/amlogic_svp_impl.cpp:436 | Big-endian; a read past the end leaves the variable and the position alone |
| Subsample.ByteReader.GetUint32Be | gst-aml-drm-plugins-1.0/src/gst_svp_ext/amlogic_svp_impl.cpp:437 | The same for four bytes |
| Subsample.MemCopy | gst-aml-drm-plugins-1.0/src/gst_svp_ext/amlogic_svp_impl.cpp:439 | A copy overwrites one range and nothing else |
| Subsample.ScatteredInterleaves | gst-aml-drm-plugins-1.0/src/gst_svp_ext/amlogic_svp_impl.cpp:428-444 | While 32 bits hold the total, a table keeps its copies in memory exactly when it fits, and then what the loop makes is the interleaving |
| Subsample.TransformInPlace | gst-aml-drm-plugins-1.0/src/gst_svp_ext/amlogic_svp_impl.cpp:428-444 | The in-place loop, for every table that keeps its copies in memory: the runs land where the 32-bit running totals say, which is the interleaving whenever 32 bits hold the total |
| Subsample.PlanTiles | gst-aml-drm-plugins-1.0/src/gst_svp_ext/amlogic_svp_impl.cpp:556-572 | The plan's source ranges follow one another from 0 to the encrypted total; its target ranges are ordered and disjoint |
| Subsample.PlanEntry | gst-aml-drm-plugins-1.0/src/gst_svp_ext/amlogic_svp_impl.cpp:556-572 | Every entry of every plan, with the wrap-around of its 32-bit fields |
| Subsample.PlanInterleaves | gst-aml-drm-plugins-1.0/src/gst_svp_ext/amlogic_svp_impl.cpp:573 | Executing the plan over the clear bytes gives the interleaving: the two paths agree |
| Subsample.PathsAgree | gst-aml-drm-plugins-1.0/src/gst_svp_ext/amlogic_svp_impl.cpp:428-573 | Executing the plan gives what the in-place loop makes, for every table that keeps its copies in memory, also where totals wrap around |
| Subsample.CopiesCommute | gst-aml-drm-plugins-1.0/src/gst_svp_ext/amlogic_svp_impl.cpp:573 | The copies of a plan give the interleaving in any order |
| Subsample.BoundsCheckExact | gst-aml-drm-plugins-1.0/src/gst_svp_ext/amlogic_svp_impl.cpp:67-73 | The bounds check lets a plan through if and only if all running totals, cut to 32 bits, are within the memory |
| Subsample.BoundsCheckSound | gst-aml-drm-plugins-1.0/src/gst_svp_ext/amlogic_svp_impl.cpp:67-73 | Without wrap-around it does so if and only if the whole table lies within the memory |
| Subsample.BoundsCheckWraps | gst-aml-drm-plugins-1.0/src/gst_svp_ext/amlogic_svp_impl.cpp:69 | With wrap-around it can let a plan through that lies outside |
| Subsample.FillPlan | gst-aml-drm-plugins-1.0/src/gst_svp_ext/amlogic_svp_impl.cpp:556-572 | The second loop builds the plan of the table |
| Subsample.SumEncrypted | gst-aml-drm-plugins-1.0/src/gst_svp_ext/amlogic_svp_impl.cpp:496-509 | The first loop computes the encrypted total in 32 bits, and where it leaves the variables |
| Subsample.SecureMemory.Fill | gst-aml-drm-plugins-1.0/src/gst_svp_ext/amlogic_svp_impl.cpp:551-552 | The clear bytes go to the front of the memory |
| Subsample.SecureMemory.CopyByHandle | gst-aml-drm-plugins-1.0/src/gst_svp_ext/amlogic_svp_impl.cpp:81 | The secure world makes all copies in order, or refuses and makes none |
| Subsample.SecureMemory.AllInMemory | gst-aml-drm-plugins-1.0/src/gst_svp_ext/amlogic_svp_impl.cpp:81 | It refuses exactly the plans with a copy out of its memories |
| Subsample.SecureMemory.MakeCopies | gst-aml-drm-plugins-1.0/src/gst_svp_ext/amlogic_svp_impl.cpp:81 | The copies, in order |
| Subsample.SecureMemory.CopyByIndex | gst-aml-drm-plugins-1.0/src/gst_svp_ext/amlogic_svp_impl.cpp:55-84 | Every plan: succeeds exactly when the 32-bit check passes and the secure world copies; a rejected plan writes nothing |
| Subsample.TransformSecure | gst-aml-drm-plugins-1.0/src/gst_svp_ext/amlogic_svp_impl.cpp:494-592 | Every table, and a memory that may be larger than the buffer: succeeds exactly when the 32-bit encrypted total is not 0, the plan passes the check and the copy works, and otherwise no decrypted byte is in the memory; while 32 bits hold the total, that is when something is encrypted and the table lies within the buffer, and the memory then holds the interleaving, with nothing behind it changed |
| Secmem.MonitorSafe | gst-aml-drm-plugins-1.0/src/secmem/gstsecmemallocator.c:69-173 | In every state any interleaving of any number of threads reaches: exclusive mutex, released on every exit; one holder for each live handle, which backs its memory; available plus held equals capacity in handles and bytes; what a thread checked still holds when it acts; no lost wake-up |
| Secmem.AtRest | gst-aml-drm-plugins-1.0/src/secmem/gstsecmemallocator.c:85-128 | Whenever the mutex is free, the live handles are exactly those clients have or are giving back, and for every thread asleep and not notified there is no handle or not more than the bytes it asks for |
| Secmem.FailureRestores | gst-aml-drm-plugins-1.0/src/secmem/gstsecmemallocator.c:95-128 | Every failure after MemCreate, MemAlloc or MemExport leaves the pool exactly as the attempt found it, whatever other threads do meanwhile |
| Secmem.SuccessTakes | gst-aml-drm-plugins-1.0/src/secmem/gstsecmemallocator.c:95-120 | A success takes exactly one new handle and at least the bytes asked for, and nothing else |
| Secmem.FreeCompletes | gst-aml-drm-plugins-1.0/src/secmem/gstsecmemallocator.c:156-160 | A free that has the mutex gives back all of the handle, wakes every sleeper and leaves |
| Secmem.ExclusiveStep | gst-aml-drm-plugins-1.0/src/secmem/gstsecmemallocator.c:85-93 | Every step keeps the mutex with exactly the thread in the critical section |
| Secmem.OneHolderStep | gst-aml-drm-plugins-1.0/src/secmem/gstsecmemallocator.c:95-128 | Every step keeps exactly one holder for each live handle |
| Secmem.ConservedStep | gst-aml-drm-plugins-1.0/src/secmem/gstsecmemallocator.c:122-126 | Every step keeps available plus held at the capacity |
| Secmem.GiveBackConserves | gst-aml-drm-plugins-1.0/src/secmem/gstsecmemallocator.c:122-125 | Releasing a handle keeps the bytes if and only if they were freed before: the order of the unwinding matters |
| Secmem.BackedStep | gst-aml-drm-plugins-1.0/src/secmem/gstsecmemallocator.c:337-354 | No memory's size exceeds what the secure world charged for it, neither when it is made nor when codec data are put in front |
| Secmem.PrependGrowsIff | gst-aml-drm-plugins-1.0/src/secmem/gstsecmemallocator.c:347-353 | Codec data go in front of what is in a memory exactly when the size with them stays below the maximal size; nothing else changes |
| Secmem.CheckStandsStep | gst-aml-drm-plugins-1.0/src/secmem/gstsecmemallocator.c:88-101 | Between the check and the acquisition no other thread takes what was found |
| Secmem.RestoredStep | gst-aml-drm-plugins-1.0/src/secmem/gstsecmemallocator.c:95-128 | Only a success and the free path move the pool that a failure would restore |
| Secmem.NoLostWakeupStep | gst-aml-drm-plugins-1.0/src/secmem/gstsecmemallocator.c:156-160 | Every step keeps each sleeper waiting for what is not there, or the thread in the critical section about to broadcast |
| Secmem.AcquireAllOrNothing | gst-aml-drm-plugins-1.0/src/secmem/gstsecmemallocator.c:95-128 | The three stages take one handle and one charge, or nothing at all |
| Secmem.StepsAcquire | gst-aml-drm-plugins-1.0/src/secmem/gstsecmemallocator.c:95-128 | The steps of the critical section, taken alone, are that acquisition |
| Secmem.WaitTurn | gst-aml-drm-plugins-1.0/src/secmem/gstsecmemallocator.c:87-93 | A thread about to look that gets the mutex goes on holding it exactly when its query fails or what it wants fits; otherwise it sleeps with the mutex free; the pool stays |
| Secmem.TurnsAreTheMonitors | gst-aml-drm-plugins-1.0/src/secmem/gstsecmemallocator.c:85-128 | Every turn of the wait loop is those steps of the monitor, and the last one, taken on to the end, leaves the pool that the acquisition leaves |
| Secmem.LastTurn | gst-aml-drm-plugins-1.0/src/secmem/gstsecmemallocator.c:87-93 | The wait loop ends at the first turn whose query fails or whose pool fits |
| Secmem.Allocator.constructor | gst-aml-drm-plugins-1.0/src/secmem/gstsecmemallocator.c:42-56 | A new allocator has all of the pool and holds no lock |
| Secmem.Allocator.Alloc | gst-aml-drm-plugins-1.0/src/secmem/gstsecmemallocator.c:69-129 | Waits exactly while a turn finds no handle or not more than the bytes asked for; then takes one handle and its charge or leaves the pool as found; unlocked on every exit; the new memory has the size asked for |
| Secmem.Allocator.Free | gst-aml-drm-plugins-1.0/src/secmem/gstsecmemallocator.c:144-173 | Gives back one handle and all of its bytes, broadcasts once, unlocks |
| NalUnits.FramingRoundTrip | gst-aml-drm-plugins-1.0/src/secure_parse/gsth264_sec_parse.c:421-448 | Reading the lengths of the wrapped units returns the list of units if and only if every size fits in its length bytes |
| NalUnits.KindByType | gst-aml-drm-plugins-1.0/src/secure_parse/gsth264_sec_parse.c:741-915 | The switch tells the types apart by their numbers: in H.264 7, 15, 8, 6, 9, 1 to 5 with 5 a random access point, and 20; in H.265 32, 33, 34, 39 and 40, 35, 0 to 9, and 16 to 21 as random access points |
| NalUnits.TypeBits | gst-aml-drm-plugins-1.0/src/secure_parse/gsth264_sec_parse.c:2242-2243 | The type is the low five bits of the first byte, or its six bits behind the first |
| NalParser.BitsAreHistory | gst-aml-drm-plugins-1.0/src/secure_parse/gsth264_sec_parse.c:741-915 | Over every sequence of units GOT_SPS, GOT_PPS and GOT_SLICE say whether the last SPS was accepted, the last PPS after it, and the last slice after that was decoded; so each implies the one before |
| NalParser.AcceptedIff | gst-aml-drm-plugins-1.0/src/secure_parse/gsth264_sec_parse.c:786-848 | By type: a slice is accepted exactly when the last SPS and the last PPS after it were; a PPS when the last SPS was and it is not refused itself; an SEI when the last SPS was; VPS, SPS and delimiters when they parse; a subset SPS and whatever else when they parse behind such an SPS |
| NalParser.StoresAreHistory | gst-aml-drm-plugins-1.0/src/secure_parse/gsth264_sec_parse.c:450-484 | After any sequence of units each slot of each store holds the last accepted unit with its id, or what it held before |
| NalParser.FlagsAreHistory | gst-aml-drm-plugins-1.0/src/secure_parse/gsth264_sec_parse.c:766-900 | The flags of a frame say which accepted units it has had: parameter sets, headers, a delimiter; and it is a key frame exactly when it has had an intra slice or an SEI with a recovery point |
| NalParser.CapsAreHistory | gst-aml-drm-plugins-1.0/src/secure_parse/gsth264_sec_parse.c:768-806 | With no push pending, what has been seen for the caps is what was accepted, and new caps are asked for by every VPS and SPS and by the first PPS |
| NalParser.PieceByType | gst-aml-drm-plugins-1.0/src/secure_parse/gsth264_sec_parse.c:839-884 | An accepted unit is marked exactly when it is a random access point, or a slice that is read while a push is pending |
| NalParser.PositionsInPlace | gst-aml-drm-plugins-1.0/src/secure_parse/gsth264_sec_parse.c:828-898 | Without a transformation nothing is collected, and sei_pos and idr_pos are start code offsets: of the first SEI, and of the first marked slice or the SEI that comes before a marked slice at a lower offset |
| NalParser.CallOffForgets | gst-aml-drm-plugins-1.0/src/secure_parse/gsth265_sec_parse.c:605-683 | Calling the push off forgets what was seen for the caps |
| NalParser.PushCalledOffIff | gst-aml-drm-plugins-1.0/src/secure_parse/gsth265_sec_parse.c:592-688 | A pending push is called off exactly when the stream has brought an accepted SPS and an accepted PPS, in either order, or a VPS behind a PPS |
| NalParser.PositionsExact | gst-aml-drm-plugins-1.0/src/secure_parse/gsth264_sec_parse.c:821-898 | In transform mode sei_pos and idr_pos are the offsets, in the collected frame, of the first SEI and of the first marked slice or the SEI before it |
| NalParser.PositionsCut | gst-aml-drm-plugins-1.0/src/secure_parse/gsth264_sec_parse.c:885-898 | Each is -1 or cuts the frame between two units: reading from there returns exactly the units from there on; idr_pos <= sei_pos when both are set |
| NalParser.FrameReadsBack | gst-aml-drm-plugins-1.0/src/secure_parse/gsth264_sec_parse.c:918-927 | The collected frame reads back as its accepted units if and only if their sizes fit the length bytes |
| NalParser.FirstSei | gst-aml-drm-plugins-1.0/src/secure_parse/gsth264_sec_parse.c:828-836 | The first SEI of a frame |
| NalParser.FirstMark | gst-aml-drm-plugins-1.0/src/secure_parse/gsth264_sec_parse.c:876-892 | The first slice that marks where parameter sets may go in |
| NalParser.SecParse.constructor | gst-aml-drm-plugins-1.0/src/secure_parse/gsth264_sec_parse.c:259-281 | A new parser has empty stores, no bits and an empty frame |
| NalParser.SecParse.ResetFrame | gst-aml-drm-plugins-1.0/src/secure_parse/gsth264_sec_parse.c:181-200 | A new frame forgets positions, flags and collected units, and nothing else |
| NalParser.SecParse.StoreNal | gst-aml-drm-plugins-1.0/src/secure_parse/gsth264_sec_parse.c:450-484 | The unit goes to the slot of its id on the store of its type; an id out of range changes nothing |
| NalParser.SecParse.WrapNal | gst-aml-drm-plugins-1.0/src/secure_parse/gsth264_sec_parse.c:421-448 | The shifted length and the overwriting payload give the payload behind its length, which reads back when it fits, or behind 0, 0, 0, 1 |
| NalParser.SecParse.ProcessNal | gst-aml-drm-plugins-1.0/src/secure_parse/gsth264_sec_parse.c:720-930 | process_nal takes the step of the state machine and returns whether the unit is accepted |
| NalParser.SecParse.ProcessVps | gst-aml-drm-plugins-1.0/src/secure_parse/gsth265_sec_parse.c:592-617 | The VPS case, with the push it may call off |
| NalParser.SecParse.TakeVps | gst-aml-drm-plugins-1.0/src/secure_parse/gsth265_sec_parse.c:602-616 | An accepted VPS: flags, caps and store |
| NalParser.SecParse.NoteVps | gst-aml-drm-plugins-1.0/src/secure_parse/gsth265_sec_parse.c:603-613 | A VPS behind a PPS calls the pending push off |
| NalParser.SecParse.ProcessSps | gst-aml-drm-plugins-1.0/src/secure_parse/gsth264_sec_parse.c:742-785 | The SPS and subset SPS cases |
| NalParser.SecParse.TakeSps | gst-aml-drm-plugins-1.0/src/secure_parse/gsth264_sec_parse.c:769-784 | An accepted SPS: flags, caps and store |
| NalParser.SecParse.NoteSps | gst-aml-drm-plugins-1.0/src/secure_parse/gsth264_sec_parse.c:770-779 | An SPS behind a PPS calls the pending push off |
| NalParser.SecParse.ProcessPps | gst-aml-drm-plugins-1.0/src/secure_parse/gsth264_sec_parse.c:786-820 | The PPS case, where a broken link is no refusal |
| NalParser.SecParse.TakePps | gst-aml-drm-plugins-1.0/src/secure_parse/gsth264_sec_parse.c:800-819 | An accepted PPS: flags, caps and store |
| NalParser.SecParse.MarkPps | gst-aml-drm-plugins-1.0/src/secure_parse/gsth264_sec_parse.c:800-806 | The first PPS asks for new caps |
| NalParser.SecParse.NotePps | gst-aml-drm-plugins-1.0/src/secure_parse/gsth264_sec_parse.c:805-814 | A PPS behind an SPS calls the pending push off |
| NalParser.SecParse.ProcessSei | gst-aml-drm-plugins-1.0/src/secure_parse/gsth264_sec_parse.c:821-837 | The SEI case: its mark, and the key frame a recovery point makes |
| NalParser.SecParse.ProcessSlice | gst-aml-drm-plugins-1.0/src/secure_parse/gsth264_sec_parse.c:839-899 | The slice case and the mark for parameter sets |
| NalParser.SecParse.MarkIdr | gst-aml-drm-plugins-1.0/src/secure_parse/gsth264_sec_parse.c:885-898 | The mark is the place of the slice, unless one stands or an SEI comes before |
| NalParser.SecParse.ProcessOther | gst-aml-drm-plugins-1.0/src/secure_parse/gsth264_sec_parse.c:900-915 | Delimiters are accepted when they parse, other units only behind an SPS |
| NalParser.ShiftedLength | gst-aml-drm-plugins-1.0/src/secure_parse/gsth264_sec_parse.c:431-446 | What is left of the length shifted up in 32 bits is its nl low-order bytes |
| StoredRecords.HvcComesBack | gst-aml-drm-plugins-1.0/src/secure_parse/gsth265_sec_parse.c:944-1113 | In every run of caps with records, resets and anything else: the hvcC of the stores, read back into empty stores, rebuilds VPS, SPS, PPS and the length size, without any condition |
| StoredRecords.AvcComesBackIff | gst-aml-drm-plugins-1.0/src/secure_parse/gsth264_sec_parse.c:1061-1151 | In every such run the avcC of the stores does so if and only if: not in-band, at most 31 SPS and 255 PPS, and the first SPS not a subset SPS (unless an SPS stands already) |
| StoredRecords.StoredIsShort | gst-aml-drm-plugins-1.0/src/secure_parse/gsth264_sec_parse.c:2238-2270 | In every such run each slot holds an accepted unit of its type and id, whose size two bytes hold, since units come in records alone |
| CodecData.AvcRoundTrip | gst-aml-drm-plugins-1.0/src/secure_parse/gsth264_sec_parse.c:1061-1151 | For every store that process_nal can make of any stream, the same with one more condition: all sizes within 16 bits |
| CodecData.TwoListsRead | gst-aml-drm-plugins-1.0/src/secure_parse/gsth264_sec_parse.c:2238-2270 | The reader finds the units of two counted lists in order, whatever their types |
| RecordShape.AvcAcceptedIff | gst-aml-drm-plugins-1.0/src/secure_parse/gsth264_sec_parse.c:2214-2270 | A record is accepted exactly when it has 7 bytes, version 1, and two counted lists of readable units, whatever their types and what follows; and these units are found |
| RecordShape.HvcAcceptedIff | gst-aml-drm-plugins-1.0/src/secure_parse/gsth265_sec_parse.c:2053-2092 | A record is accepted exactly when it has 23 bytes, version 0 or 1, and its count of arrays of readable units, whatever their types and what follows; only an array without units must not end the data |
| RecordShape.FoundUpToError | gst-aml-drm-plugins-1.0/src/secure_parse/gsth264_sec_parse.c:2240-2251 | Units in front of the first one that cannot be read have been handed on |
| RecordShape.FoundWhere | gst-aml-drm-plugins-1.0/src/secure_parse/gsth264_sec_parse.c:2242-2243 | Every unit found lies where it is said to be |
| RecordShape.RefusedChangesNothing | gst-aml-drm-plugins-1.0/src/secure_parse/gsth264_sec_parse.c:2214-2223 | A record that is too small or of another version changes nothing but the push |
| RecordShape.AcceptedNames | gst-aml-drm-plugins-1.0/src/secure_parse/gsth264_sec_parse.c:2235-2278 | The length size is in two bits of byte 4, or 21; and no frame has the parameter sets of an accepted record |
| StoredRecords.ChangeForgets | gst-aml-drm-plugins-1.0/src/secure_parse/gsth264_sec_parse.c:2130-2135 | After a reset nothing is stored; after caps that differ from those before, what is stored came in their record |
| CodecData.AvcHeadIs | gst-aml-drm-plugins-1.0/src/secure_parse/gsth264_sec_parse.c:1116-1121 | The head of an avcC byte by byte: version, profile, compatibility and level of the last SPS that has them, length size, count of SPS |
| CodecData.AvcListsNamed | gst-aml-drm-plugins-1.0/src/secure_parse/gsth264_sec_parse.c:1124-1145 | The first list holds units of types 7 and 15, the second of type 8 |
| CodecData.AvcWritesIff | gst-aml-drm-plugins-1.0/src/secure_parse/gsth264_sec_parse.c:1073-1108 | There is an avcC exactly when a slot has an SPS of 4 bytes, and a slot a PPS or the format is the in-band one |
| CodecData.AvcReadsBack | gst-aml-drm-plugins-1.0/src/secure_parse/gsth264_sec_parse.c:2238-2270 | The reader finds all units of a record with at most 31 SPS, in order; none of the PPS when there are 256 |
| CodecData.ThirtyTwoSpsLost | gst-aml-drm-plugins-1.0/src/secure_parse/gsth264_sec_parse.c:1121 | A record of 32 SPS is never read back, whatever its bytes |
| CodecData.SubsetSpsLost | gst-aml-drm-plugins-1.0/src/secure_parse/gsth264_sec_parse.c:742-745 | A subset SPS that comes first in the record is refused and its slot stays empty |
| CodecData.AvcNotRebuilt | gst-aml-drm-plugins-1.0/src/secure_parse/gsth264_sec_parse.c:1102-1135 | A record that is accepted and rebuilds the stores was written faithfully |
| RecordWitness.FirstSlotsReached | gst-aml-drm-plugins-1.0/src/secure_parse/gsth264_sec_parse.c:2238-2270 | One record, with k SPS and m PPS over its two lists in any way that their counts can hold, fills the first k SPS and m PPS slots; so 32 SPS or 256 PPS can come in |
| RecordWitness.FirstSlotsComeBackIff | gst-aml-drm-plugins-1.0/src/secure_parse/gsth264_sec_parse.c:1116-1135 | The avcC of the stores that this record fills comes back if and only if it is not in-band, k is below 32 and m below 256 |
| RecordWitness.SubsetSpsBelowFails | gst-aml-drm-plugins-1.0/src/secure_parse/gsth264_sec_parse.c:742-745 | A record with a subset SPS for the slot below its SPS fills stores whose avcC does not come back |
| CodecData.ReachableWellKept | gst-aml-drm-plugins-1.0/src/secure_parse/gsth264_sec_parse.c:450-484 | Every store that process_nal can make of any stream holds, in each slot, an accepted unit of the right type with that id |
| CodecData.FillsShelf | gst-aml-drm-plugins-1.0/src/secure_parse/gsth264_sec_parse.c:2238-2270 | Processing the units of a store lays them over the store of that type and leaves the others alone |
| CodecData.ReadListFramed | gst-aml-drm-plugins-1.0/src/secure_parse/gsth264_sec_parse.c:2240-2251 | Reading as many units as were framed returns them and stops exactly behind them |
| CodecData.Identify | gst-aml-drm-plugins-1.0/src/secure_parse/gsth264_sec_parse.c:2242-2243 | Every unit that is identified lies within the record |
| CodecData.TrailingBytesIgnored | gst-aml-drm-plugins-1.0/src/secure_parse/gsth264_sec_parse.c:2214-2270 | Bytes behind an accepted record change nothing of what is read, in either codec |
| CodecData.RecordLeavesNoPush | gst-aml-drm-plugins-1.0/src/secure_parse/gsth264_sec_parse.c:2128 | Reading a record, good or bad, leaves no push pending |
| HvcData.HvcRoundTrip | gst-aml-drm-plugins-1.0/src/secure_parse/gsth265_sec_parse.c:944-1113 | For every store that process_nal can make of any stream, the hvcC comes back if and only if all sizes fit in 16 bits |
| HvcData.HvcArraysRead | gst-aml-drm-plugins-1.0/src/secure_parse/gsth265_sec_parse.c:2071-2092 | The size check before an array never rejects what the writer wrote, and all units come back in order |
| HvcData.HvcReadsBack | gst-aml-drm-plugins-1.0/src/secure_parse/gsth265_sec_parse.c:2054-2092 | The reader accepts every written record and finds VPS, SPS and PPS in order |
| HvcData.ProfileByteIff | gst-aml-drm-plugins-1.0/src/secure_parse/gsth265_sec_parse.c:1021-1022 | The profile byte is the one of the standard if and only if the profile space is 0 |
| HvcData.HeadProfile | gst-aml-drm-plugins-1.0/src/secure_parse/gsth265_sec_parse.c:1021-1022 | The profile byte: the profile, and above it space and tier, which share a bit |
| HvcData.HeadFlags | gst-aml-drm-plugins-1.0/src/secure_parse/gsth265_sec_parse.c:1023-1028 | Compatibility flag k is bit k of the four bytes from byte 2 on |
| HvcData.HeadSource | gst-aml-drm-plugins-1.0/src/secure_parse/gsth265_sec_parse.c:1029-1032 | Byte 6 has the four source flags in front |
| HvcData.HeadFields | gst-aml-drm-plugins-1.0/src/secure_parse/gsth265_sec_parse.c:1033-1050 | Bytes 7 to 22: zeros, level, segmentation, chroma, depths, layers, nesting, length size, count of arrays |
| HvcData.ArraysNamed | gst-aml-drm-plugins-1.0/src/secure_parse/gsth265_sec_parse.c:1054-1109 | The head of each array names the type of its units: 32, 33 or 34 |
| HvcData.HvcWritesIff | gst-aml-drm-plugins-1.0/src/secure_parse/gsth265_sec_parse.c:962-1001 | There is an hvcC exactly when a slot has an SPS and the library has parsed one |
| CodecDataIo.Measure | gst-aml-drm-plugins-1.0/src/secure_parse/gsth265_sec_parse.c:962-989 | The counting pass: number and bytes of the stored units |
| CodecDataIo.MeasureSps | gst-aml-drm-plugins-1.0/src/secure_parse/gsth264_sec_parse.c:1075-1090 | The same, with the last SPS that holds a profile and a level |
| CodecDataIo.WriteStore | gst-aml-drm-plugins-1.0/src/secure_parse/gsth264_sec_parse.c:1125-1132 | The writing pass over a store, by a moving pointer, appends exactly its framed units |
| CodecDataIo.FillAvcC | gst-aml-drm-plugins-1.0/src/secure_parse/gsth264_sec_parse.c:1116-1146 | The writing ends exactly at the allocated length |
| CodecDataIo.MakeAvcC | gst-aml-drm-plugins-1.0/src/secure_parse/gsth264_sec_parse.c:1061-1151 | None without an SPS of 4 bytes or, unless in-band, without a PPS; otherwise the avcC of the stores |
| CodecDataIo.WriteArray | gst-aml-drm-plugins-1.0/src/secure_parse/gsth265_sec_parse.c:1054-1070 | One array of an hvcC, or nothing for an empty store |
| CodecDataIo.FillHvcC | gst-aml-drm-plugins-1.0/src/secure_parse/gsth265_sec_parse.c:1012-1109 | The writing ends exactly at the allocated length |
| CodecDataIo.MakeHvcC | gst-aml-drm-plugins-1.0/src/secure_parse/gsth265_sec_parse.c:944-1113 | None without a stored or a parsed SPS; otherwise the hvcC of the stores |
| CodecDataIo.ReadUnits | gst-aml-drm-plugins-1.0/src/secure_parse/gsth264_sec_parse.c:2240-2251 | The loop hands the identified units to process_nal in order, up to the first that is not all there |
| CodecDataIo.ReadSpsAndPps | gst-aml-drm-plugins-1.0/src/secure_parse/gsth264_sec_parse.c:2238-2270 | The two loops over an avcC |
| CodecDataIo.ReadAvcC | gst-aml-drm-plugins-1.0/src/secure_parse/gsth264_sec_parse.c:2128-2279 | What set_caps makes of an avcC: accepted or not, length size, and the parser, also after an error |
| CodecDataIo.ReadArrays | gst-aml-drm-plugins-1.0/src/secure_parse/gsth265_sec_parse.c:2071-2092 | The nested loops over an hvcC |
| CodecDataIo.ReadHvcC | gst-aml-drm-plugins-1.0/src/secure_parse/gsth265_sec_parse.c:2010-2103 | What set_caps makes of an hvcC |
| Gate.FirstFrameAfterRestart | gst-aml-drm-plugins-1.0/src/secure_parse/gsth264_sec_parse.c:1993-2024 | After a restart (flush, caps that arm the push, delivered key unit request) that nothing has settled, the first frame let out has a random access point and carries parameter sets, its own or prepended, if and only if it brings its own or can be prepended to |
| Gate.PushIsArmed | gst-aml-drm-plugins-1.0/src/secure_parse/gsth264_sec_parse.c:1905-2024 | push_codec says whether a restart is unsettled, over every run |
| Gate.StateIsHistory | gst-aml-drm-plugins-1.0/src/secure_parse/gsth264_sec_parse.c:1925-2042 | After every run the whole state is what the history says: the push, the codec tag, the input format, the waiting codec_data, and the key unit request that stands |
| Gate.OutcomeIsHistory | gst-aml-drm-plugins-1.0/src/secure_parse/gsth264_sec_parse.c:1925-2042 | Over every run the flow value, in numbers, the prepend, its failure and the delivery of a request are what the history and the frame say |
| Gate.ReleasedIff | gst-aml-drm-plugins-1.0/src/secure_parse/gsth264_sec_parse.c:1993-2024 | A packetised frame that reaches the checks is let out exactly when it has a picture with its parameter sets, and a random access point while a push is pending |
| Gate.OnePrependPerRestart | gst-aml-drm-plugins-1.0/src/secure_parse/gsth265_sec_parse.c:1876-1893 | Over every run: a restart comes before the first prepend, and from each prepend on there is another restart before the next |
| Gate.OneDeliveryPerRequest | gst-aml-drm-plugins-1.0/src/secure_parse/gsth264_sec_parse.c:1864-1906 | Over every run: a key unit request comes before the first delivery, and another between any two deliveries |
| Gate.FailedPrependPasses | gst-aml-drm-plugins-1.0/src/secure_parse/gsth264_sec_parse.c:2011-2015 | A failed prepend returns the value of OK and leaves the push pending |
| Gate.Parser.constructor | gst-aml-drm-plugins-1.0/src/secure_parse/gsth264_sec_parse.c:241-258 | Nothing is pending at first |
| Gate.Parser.PrePushFrame | gst-aml-drm-plugins-1.0/src/secure_parse/gsth264_sec_parse.c:1925-2042 | pre_push_frame takes the step of the machine and returns its outcome |
| Gate.Parser.PrepareKeyUnit | gst-aml-drm-plugins-1.0/src/secure_parse/gsth264_sec_parse.c:1864-1906 | A delivered request is no longer queued, and parameter sets are called for |
| Gate.Parser.Handle | gst-aml-drm-plugins-1.0/src/secure_parse/gsth264_sec_parse.c:2439-2472 | Flush, key unit requests (one that finds another queued is ignored), caps and reset |
| AccessUnits.SegmentsUnique | gst-aml-drm-plugins-1.0/src/secure_parse/gsth264_sec_parse.c:933-979 | Of all ways to cut a stream in order and without loss, the one collect_nal gives is the only one in which no part is empty, none holds two pictures, every complete one holds a picture and each starts where it must |
| AccessUnits.SegmentsAre | gst-aml-drm-plugins-1.0/src/secure_parse/gsth265_sec_parse.c:813-859 | The cuts partition the stream in order and give access units, in either codec |
| AccessUnits.FirstLengthMeans | gst-aml-drm-plugins-1.0/src/secure_parse/gsth264_sec_parse.c:950-979 | Up to the cut nothing starts a second picture; the cut is at a unit that does, and behind a picture |
| AccessUnits.ByType | gst-aml-drm-plugins-1.0/src/secure_parse/gsth265_sec_parse.c:830-853 | Which types belong to a picture and which start another one, in both codecs |
| AccessUnits.Collector.constructor | gst-aml-drm-plugins-1.0/src/secure_parse/gsth264_sec_parse.c:187 | No picture has started |
| AccessUnits.Collector.CollectNal | gst-aml-drm-plugins-1.0/src/secure_parse/gsth264_sec_parse.c:953-979 | Remembers whether a picture has started, and says whether the next unit ends it; a next unit that cannot be identified changes nothing and ends nothing |
| AccessUnits.Collector.Split | gst-aml-drm-plugins-1.0/src/secure_parse/gsth264_sec_parse.c:933-979 | The driving loop computes these cuts |
| Hdcp.StreamRoundTrip | gst-aml-drm-plugins-1.0/src/hdcp/gstamlhdcp.c:409-421 | Every 32-bit stream counter comes back from its layout around the marker bits, and laying out what was read changes nothing |
| Hdcp.InputRoundTrip | gst-aml-drm-plugins-1.0/src/hdcp/gstamlhdcp.c:423-438 | The same for every 64-bit input counter |
| Hdcp.StreamPlaces | gst-aml-drm-plugins-1.0/src/hdcp/gstamlhdcp.c:413-417 | Which byte each run of bits of the stream counter comes from |
| Hdcp.InputPlaces | gst-aml-drm-plugins-1.0/src/hdcp/gstamlhdcp.c:427-435 | The same for the input counter |
| Hdcp.StreamBitsExact | gst-aml-drm-plugins-1.0/src/hdcp/gstamlhdcp.c:413-417 | Two inputs give the same stream counter exactly when their payload bits agree |
| Hdcp.InputBitsExact | gst-aml-drm-plugins-1.0/src/hdcp/gstamlhdcp.c:427-435 | Two inputs give the same input counter exactly when their payload bits agree |
| Hdcp.CountersApart | gst-aml-drm-plugins-1.0/src/hdcp/gstamlhdcp.c:413-435 | The two counters share no bit |
| Hdcp.BitFieldBits | gst-aml-drm-plugins-1.0/src/hdcp/gstamlhdcp.c:383-407 | Bit i of a field of a byte is bit start + i of the byte, and above the field all is 0 |

## Left out

- GObject, pads, caps negotiation and queries: they rest on GStreamer's caps algebra, which is not part of this model. `Gate` takes from `set_caps` only what it leaves in push_codec, the input format and the waiting codec_data.
- The calls into the secure world, HDCP decryption, the 2D engine and the resource manager: foreign code; only the contracts above are used.
- Bit-level decoding of SPS, PPS, VPS, SEI and slice headers: it lives in the codec parser library.
- Profile, level, tier and multiview tables: finite switches.
- The shared allocator timer of amlogic_svp_impl.cpp, and the branches of the same file without subsamples or with audio.
- gst_secmem_check_free_buf_size and gst_secmem_get_free_buf_size: they return with the mutex held when a query fails, so "unlocked on every exit" is said of alloc and free only.
- Secmem.MonitorSafe: safety only. That a waiting thread is served eventually depends on the scheduler and on the others freeing, and is not claimed.
- Secmem.Allocator.Alloc: what other threads do between the turns is given as the list of what the turns find; the interleaving is in the monitor, and Secmem.TurnsAreTheMonitors ties each turn to it.
- Secmem.BackedStep: VP9 and AV1 header rewriting, which also sets a memory's size, is not modelled.
- PerfHeap.PerfNode.ReportData: the figures of each line and their order are modelled; the averages (floating point) and the text are not. Nor are thread and process names, the lazily created lock, and giving up on a report when the lock is taken.
- PerfShown.ShownExactlyOnceIff: the summary determines what is lost only while fewer than 2^64 scopes are, since counts have 64 bits; PerfShown.LostIff and PerfShown.EachHasItsFate have no such bound. Runs that drop a tree under an open scope are excluded, as for PerfThreads.ThreadsIsolated.
- PerfThreads.ThreadsIsolated: closing a scope whose tree is gone is undefined in the program; the model leaves the view alone there, and the theorem excludes such runs.
- Subsample.TransformInPlace: a table with a copy out of its memory; the program has no check there, and what it then does has no meaning.
- Subsample.TransformSecure: the allocation itself, which is that of the allocator; buffer metadata and reference counts. Between the fill and the copy nobody else writes the memory.
- NalParser.SecParse.ProcessNal: frame_start, field_pic_flag, and what SEI payloads do to the caps, the clock and the time stamps; nothing modelled here reads them. Of an SEI only whether it has a recovery point is modelled.
- NalParser.PushCalledOffIff: the two set_caps loops are the only callers of process_nal in these programs, and they run with push_codec FALSE; so no run of these programs meets the hypothesis, and the lemma says what process_nal does with a push pending on entry.
- NalParser.PositionsExact: transform mode only; NalParser.PositionsInPlace has the other, with the start code offsets that the caller gives.
- NalParser.SecParse.WrapNal: the returned buffer is a value; the allocation is local.
- HvcData.HvcRoundTrip: the 21 bytes of profile and format fields are written but read back by nobody in these programs.
- AccessUnits.Collector.Split: collect_nal has no caller in these programs; the loop is the one its result is meant for.
- Hdcp.BitFieldBits: fields of a byte, which are the only ones read.
- The dummy, GE2D, VP9, AV1 and payload elements, process-name reading and the build files.
