# SwiftBaton: a verified model of the migration core

SwiftBaton moves a running container from one host to another with a modified
CRIU. This project models the parts of it where a mistake costs data or leaves
two copies running, and proves what they are for.

- **The migration protocol** (`Migration`, `MigrationSafety`,
  `MigrationProgress`, `MigrationRollback`, `MigrationHistory`). In kernel mode the source runs one owner thread per task
  and a coordinator; the destination is a third party. Every statement that
  another party can see is one step; every helper that can fail may fail, a
  failing final send may already have leaked bytes, an owner thread may exit and
  the controller may die between any two steps. All theorems are about every
  sequence of steps, for every number of tasks and threads.
- **The event channel** (`SyncChannel`, `SyncRuns`, `PhaseNumbers`). The events that the protocol
  exchanges, as bytes on a stream socket: code against one stream, and whole runs
  with fragmentation, several senders and several sockets.
- **The restore stage barrier** (`StageBarrier`). One counter and one stage word,
  a tree of tasks that fork while the stage runs, and a coordinator whose single
  wait spans two stages.
- **The place for the restorer** (`VmaHint`). The scan over two lists of memory
  areas, what it guarantees, and exactly when it does not.
- **Image transfer** (`Striping`, `Reception`, `TreeStream`). Files cut over lanes,
  partial concurrent writes, whatever bytes arrive, and what a matching tree digest
  proves.
- **Buffered files** (`FullIo`, `BufferPool`, `BufferedReader`, `BufferedWriter`,
  `BufferedFile`), **bit ranges** (`Bitmap`) and the **page cursor**
  (`PrecopyCursor`): fast forms against the simple thing they stand for.
- **Controller properties** (`CgroupText`, `CgroupProps`, `CgroupGrammar`): a
  cursor parser, the exact language it accepts, and the registry it fills.
- **Measurement** (`SuccessGaps`, `Recovery`): the client-gap intersection and the
  throughput recovery detector.

`Bytes` and `Options` hold the shared types. Integers are unbounded except where a
width is written out (`Bitmap.Word`, `SyncChannel.Event`, the length fields of
`TreeStream`); times in `Recovery` are exact reals. Scheduling, short reads and
writes, interrupts and partial batches are nondeterministic choices, and which
system calls fail is an arbitrary function of the call number; system calls, the
clock and the network are not modelled otherwise. A file is read and written by calls
that may each move less than asked or fail; calls interrupted by a signal are repeated.

## What the code does that its description does not say

- `restorer_get_vma_hint` never counts the last area of either list as an
  obstacle, so its answer can lie on top of one; and if both lists end above the
  task size it can run past the task size. `VmaHint.HintCanOverlap` gives inputs.
  `VmaHint.SafeExactly` and `VmaHint.BelowTaskSizeExactly` say, from the lists alone,
  exactly when neither happens. The sentinel's uninitialised `list.next` is taken to
  differ from both list heads, and both lists to have an element.
- When a refill of a buffered file fails after a short read, the bytes of that read are
  lost: the descriptor has moved and the buffer has not taken them
  (`BufferedReader.BytesCanBeLost`). Nothing is lost exactly when the first read of the
  refill is the one that fails (`BufferedReader.NothingLostExactly`,
  `BufferedReader.NoLineLostExactly`).
- A failed `bflush` keeps the whole buffer although part of it may be on the file, so a
  second flush writes that part twice (`BufferedWriter.Writer.FlushAgain`,
  `BufferedWriter.BytesCanBeDoubled`), except exactly when the first write failed at
  once (`BufferedWriter.RetryExactly`).
- `cgp_parse_stream` accepts a property list that a comma leaves open, a last list that
  breaks off inside a string, and strings with anything behind a NUL
  (`CgroupGrammar.AcceptsExactly`, `CgroupGrammar.OpenListAccepted`). After a refused
  string `get_quoted` has lowered the length without moving the stream
  (`CgroupText.Cursor.GetQuoted`).
- Hosts started with different `parent_stage` settings wait for each other before
  the network lock; nothing detects the mismatch (`MigrationProgress.LocksIffStagesMatch`).
- The tree digest does not cover the entry count; the framing makes up for it
  (`TreeStream.UniquelyDecodable`).

## Model

| member | source | states |
|---|---|---|
| MigrationSafety.StepPreserves | criu-k/criu/cr-dump.c:1983-2073 | every step of every party, failing or not, keeps the joint invariant of owners, counters, coordinator, destination, events in flight and fence |
| MigrationSafety.RunInv | criu-k/criu/cr-dump.c:3244-3369 | the invariant holds in every state of every run |
| MigrationSafety.SingleLiveCopy | criu-k/criu/cr-dump.c:2039-2067 | in no reachable state do a source thread and the destination both execute application code, with failures and controller death at any step |
| MigrationSafety.DestinationLive | criu-k/criu/cr-restore.c:2423-2430 | in every reachable state the destination executes if its restore has come to its end, and only then or after a failing resume |
| MigrationSafety.ExposureIsForever | criu-k/criu/sb-kernel-transfer.c:1131-1192 | once the first byte of the final catalogue may have left, no later step takes the exposure back |
| MigrationSafety.ExposureFence | criu-k/criu/cr-dump.c:2346-2432 | from exposure on every source thread is armed under a living controller, stopped or dead, no owner resumes one and the published final state is never Alive, whatever fails or is requested |
| MigrationSafety.CureBeforeRelease | criu-k/criu/cr-dump.c:1995-2069 | each awaited counter equals the number of owners past its point and never exceeds n; an owner that releases its task has seen all n cured and a final state published; mutex1 admits one owner |
| MigrationSafety.CuresOnlyLivingTasks | criu-k/criu/cr-dump.c:2008-2046 | while an owner still talks to its task every thread of that task is alive and armed, so no other owner's kill can have taken it down |
| MigrationSafety.OrphanHeld | criu-k/criu/include/sb-kernel-fence.h:10-47 | when the controller dies, armed threads die with it and all others stay held |
| MigrationSafety.HandshakeOrder | criu-k/criu/cr-dump.c:3165-3219 | no source thread leaves plain execution before the network is locked, the lock waits for destination setup and applied refresh, and the tree is read only after final images are flushed and published |
| MigrationSafety.MismatchNeverLocks | criu-k/criu/cr-restore.c:2699-2704 | with different parent_stage settings the network is never locked, nothing is exposed and nothing goes live |
| MigrationSafety.AtLeastAll | criu-k/criu/cr-dump.c:2425-2432 | a counter of owners past a point reaches n exactly when all owners are past it |
| MigrationProgress.SourceNeverStuck | criu-k/criu/cr-dump.c:1986-2073 | after the spawn, whatever has failed, a living controller has a next step until it returns, and it returns with process_done equal to n |
| MigrationProgress.NeverDeadlocks | criu-k/criu/cr-restore.c:2786-2810 | with matching settings every state of a failure-free run that is not complete has an enabled failure-free step |
| MigrationProgress.StepLowers | criu-k/criu/cr-dump.c:3285-3369 | every failure-free step lowers a natural-number measure of the work left |
| MigrationProgress.FailureFreeRunsComplete | criu-k/criu/cr-dump.c:2425-2432 | failure-free runs are bounded, and one that cannot go on has all owners done, the coordinator returned, the destination executing and no source thread executing |
| MigrationProgress.CompletionFrom | criu-k/criu/cr-dump.c:3533-3551 | from every reachable failure-free state a path leads to an executing destination and no executing source thread |
| MigrationProgress.LocksIffStagesMatch | criu-k/criu/cr-restore.c:2689-2812 | some run reaches the network lock if and only if the parent_stage settings agree |
| MigrationRollback.EndsAsPublished | criu-k/criu/cr-dump.c:2047-2069 | when a living controller returns after the spawn every task is exactly as the final state says: killed, stopped, or running again unless it was stopped before |
| MigrationRollback.FailureSettles | criu-k/criu/cr-dump.c:2419-2426 | a coordinator that failed settles for Alive, or for Stopped if the catalogue was exposed |
| MigrationRollback.RollbackRestores | criu-k/criu/cr-dump.c:2419-2432 | after a failure before exposure a controller that returns leaves every thread running again, or stopped where the task was stopped before |
| MigrationRollback.ThreadsEndAs | criu-k/criu/cr-dump.c:2419-2426 | when the coordinator has settled and the controller returns, every thread of every task is what the requested state, any failure before and the exposure together determine |
| MigrationRollback.SuccessEndsAsRequested | criu-k/criu/cr-dump.c:2420-2420 | in every run without a failure on the source a controller that returns leaves every thread killed if that was requested, and stopped if a stopped or running source was |
| MigrationRollback.LateTroubleHalts | criu-k/criu/cr-dump.c:2346-2424 | a failing disconnect, post-dump script or finish after a good dump leaves every thread stopped, whatever was requested |
| MigrationHistory.SourceFlagsExact | criu-k/criu/cr-dump.c:3144-3219 | the network is locked, the images flushed and published, the catalogue exposed exactly when the coordinator has executed that statement, or for the exposure when a failing send leaked bytes |
| MigrationHistory.DestFlagsExact | criu-k/criu/cr-restore.c:2689-2812 | setup, refresh and tree reading are done exactly when the destination has executed that statement |
| MigrationHistory.HandshakeHistory | criu-k/criu/cr-dump.c:3165-3219 | before the network lock the destination has set up and with staging the refresh was published and applied; before the tree is read the final images were flushed and published |
| MigrationHistory.FrozenThenReleased | criu-k/criu/cr-dump.c:3219-3281 | when the tree has been collected every source thread is stopped under its trace, and when the coordinator has detached every one runs |
| MigrationHistory.DeathExactly | criu-k/criu/include/sb-kernel-fence.h:10-47 | a controller's death kills every task with an armed thread, with an armed init the whole namespace, and lets every other traced thread run on |
| MigrationHistory.NoneLeftTraced | criu-k/criu/include/sb-kernel-fence.h:10-47 | once the controller is dead every source thread runs, is stopped or is dead, for the rest of the run |
| MigrationHistory.FallibleExactly | criu-k/criu/cr-dump.c:3144-3369 | the coordinator can fail by itself exactly at the statements that neither wait nor notify nor only start, open or end something |
| SyncChannel.DecodeEncode | criu-k/criu/cr-sync.c:184-193 | an event survives its four bytes |
| SyncChannel.Socket.Receive | criu-k/criu/cr-sync.c:56-73 | under any fragmentation and interruption the bytes come in order; all of them unless a call failed or the stream is shorter |
| SyncChannel.Socket.Send | criu-k/criu/cr-sync.c:56-73 | all bytes go out in order if and only if no call failed, and a proper prefix otherwise |
| SyncChannel.Process.FindChannel | criu-k/criu/cr-sync.c:28-54 | finds or adds the one channel of a socket and changes nothing received on any socket |
| SyncChannel.Process.WaitState | criu-k/criu/cr-sync.c:166-182 | consumes exactly the shortest run of events that makes the phase received, remembers all of them, touches no other channel, and exits only on an invalid phase, a failed call or a stream no prefix of which would do |
| SyncChannel.Process.NotifyPeer | criu-k/criu/cr-sync.c:184-197 | appends the event's bytes and never counts as something received |
| SyncChannel.ShortestUnique | criu-k/criu/cr-sync.c:172-182 | there is only one such shortest run |
| SyncChannel.BrokenStream | criu-k/criu/cr-sync.c:174-179 | an invalid event or a short stream makes every longer wait hopeless |
| SyncRuns.StepKeeps | criu-k/criu/cr-sync.c:56-73 | every lock, partial send, unlock, wait, partial receive and return keeps wire order, heard prefix and wait state |
| SyncRuns.EventsExact | criu-k/criu/cr-sync.c:166-197 | in every reachable state each receiver has decoded exactly a prefix of the events sent on its own line in lock order and remembers exactly those; it exits only when a receive fails, at the end of a closed stream, or at an event that is no phase |
| SyncRuns.WaitReadsNoMore | criu-k/criu/cr-sync.c:172-182 | a wait that returns has its phase among the events heard, and before its last read it had not |
| SyncRuns.NothingForgotten | criu-k/criu/cr-sync.c:170-182 | events heard and phases received only grow along a run |
| SyncRuns.NeverFarther | criu-k/criu/cr-sync.c:56-73 | no step of anybody moves an event away, and every send or receive that is needed for it brings it nearer |
| SyncRuns.SentEventArrives | criu-k/criu/cr-sync.c:166-193 | a wait for an event on its way is brought to its return by sends and receives alone, no more of them than bytes are missing |
| SyncRuns.SenderEndIsFinal | criu-k/criu/cr-sync.c:59-71 | behind a sender that has ended nothing more comes, and a receiver that has taken everything can only find the stream closed or broken |
| SyncRuns.NotifyCompletes | criu-k/criu/cr-sync.c:184-193 | a task that finds the lock free can send its event and leave the lock free, with exactly its event behind everything sent before |
| PhaseNumbers.NumbersAreTold | criu-k/criu/include/cr-sync.h:5-19 | the protocol's events have different numbers, each of them a phase that can be waited for and survives the wire |
| PhaseNumbers.EveryPhaseArrives | criu-k/criu/cr-sync.c:166-182 | whatever protocol events a line was given, a wait for any of them can begin and is brought to its return |
| StageBarrier.WaitSpansBothStages | criu-k/criu/cr-restore.c:2264-2276 | the coordinator's wait for FORKING, entered there or without namespaces already at the start, returns only when every participant has finished RESTORE |
| StageBarrier.Lockstep | criu-k/criu/cr-restore.c:1800-1816 | while a task works in a stage no task works in another, and every participant of earlier stages has finished them |
| StageBarrier.CounterExact | criu-k/criu/cr-restore.c:166-262 | the counter is the number of participants that still owe the current stage and is never negative |
| StageBarrier.RootOwes | criu-k/criu/cr-restore.c:265-273 | in a stage that the root ends itself the counter stays above zero, also between its two stores |
| StageBarrier.StepPreserves | criu-k/criu/cr-restore.c:209-262 | every fork, finish, root reset, root switch and coordinator step keeps the barrier invariant |
| StageBarrier.NeverStuck | criu-k/criu/include/restorer.h:347-352 | a state that satisfies the invariant and is not complete has an enabled step |
| StageBarrier.RestoreCompletes | criu-k/criu/cr-restore.c:2363-2424 | abort-free runs are finite, and one that cannot go on has every task at COMPLETE and all zombies and helpers gone |
| VmaHint.RestorerGetVmaHint | criu-k/criu/cr-restore.c:2857-2902 | terminates with the first gap among all areas but the last of each list below the enforced ceiling, or -1 when there is none; the hint ends below the last area of a list exactly if the scan stopped on a real entry of it |
| VmaHint.FailureMeansNoGap | criu-k/criu/cr-restore.c:2873-2892 | -1 means that no gap of the length exists among all areas below the task size |
| VmaHint.NotAboveAnyGap | criu-k/criu/cr-restore.c:2894-2902 | the hint is no higher than any real gap |
| VmaHint.SafeExactly | criu-k/criu/cr-restore.c:2857-2902 | the hint misses every area if and only if, for the last area of each list, the other areas leave a gap below it or none that would touch it |
| VmaHint.SafeIsFirst | criu-k/criu/cr-restore.c:2894-2902 | it misses every area if and only if it is the first gap among all of them |
| VmaHint.BelowTaskSizeExactly | criu-k/criu/cr-restore.c:2857-2902 | the hint stays below the task size if and only if the areas but the last of each list leave a gap there |
| VmaHint.HintCanOverlap | criu-k/criu/cr-restore.c:2873-2876 | inputs on which the hint lies on the last area, and on which it runs past the task size |
| Striping.PiecesOf | baseline/common/tree_stream.py:23-25 | a lane holds exactly the segments of its residue class |
| Striping.ByteHasOnePiece | baseline/common/tree_stream.py:23-25 | every byte of the file lies in one piece of one lane and in no other piece of any lane |
| Striping.NoLaneIdle | baseline/common/tree_stream.py:114-114 | with the chosen lane count no lane is empty |
| Striping.LanesChosen | baseline/common/tree_stream.py:114-114 | there is a port for every lane, as many lanes as ports or segments allow, and none for an empty file only |
| Striping.HashesIgnoreLanes | baseline/common/tree_stream.py:28-32 | for any lane count, none for an empty file included, and any completion order the lanes together hold ceil(size / SEGMENT) segments and their sorted results feed every segment's hash in file order |
| Striping.StagedFile.WriteAll | baseline/common/tree_stream.py:56-62 | any sequence of short writes equals one write of the whole block |
| Striping.WritesJoin | baseline/common/tree_stream.py:56-62 | two adjacent positioned writes are one |
| Striping.Reassembled | baseline/common/tree_stream.py:65-81 | for every interleaving of lanes and short writes the finished file is the source byte for byte, and it never grows past it |
| Reception.ReceivedFile | baseline/common/tree_stream.py:196-204 | whatever bytes arrive, in segments of the declared lengths, exactly those bytes joined are left in the file and exactly that file's segment hashes are fed to the digest, for every interleaving, lane count and order of results |
| Reception.NeverOutgrows | baseline/common/tree_stream.py:65-81 | whatever arrives, of whatever length, the staged file never exceeds its declared size |
| Reception.JoinedSegment | baseline/common/tree_stream.py:23-25 | what arrived for a segment is that segment of the joined file |
| Reception.SegmentsJoin | baseline/common/tree_stream.py:35-53 | the segments of a file are accepted for its size and join to the file |
| TreeStream.Receive | baseline/common/tree_stream.py:147-209 | the loop with running digest and byte count yields the outcome of the plain reading of the stream, and staged bytes, an unfinished file counted as declared, never exceed max_bytes |
| TreeStream.StagedWithinLimit | baseline/common/tree_stream.py:187-204 | at every moment of a rejected transfer the entries staged and the bytes written of the file in flight are within max_bytes, whatever its connections deliver |
| TreeStream.U32RoundTrip | baseline/common/tree_stream.py:110-110 | a length survives its four bytes |
| TreeStream.U64RoundTrip | baseline/common/tree_stream.py:101-101 | an entry count survives its eight bytes |
| TreeStream.SameHashes | baseline/common/tree_stream.py:28-32 | equal segment hashes of equally long files mean equal contents or two colliding segments |
| TreeStream.UniquelyDecodable | baseline/common/tree_stream.py:104-119 | equal digest inputs have the same headers in number and order and the same segment hashes |
| TreeStream.CommitMeansSameTree | baseline/common/tree_stream.py:204-209 | a commit under the sender's digest means the staged tree is the sent one, or two strings hashed in this transfer collide; all other bytes may have been altered |
| TreeStream.UndisturbedTransferCommits | baseline/common/tree_stream.py:93-126 | an undisturbed transfer of an acceptable tree is committed and stages exactly that tree |
| TreeStream.CommittedExactly | baseline/common/tree_stream.py:169-209 | a transfer is committed with given entries and digest if and only if the stream is magic, count, frames and digest, and every entry has an allowed and parsed header, a safe and free path, a size within the limit and exactly its data |
| TreeStream.StagedMayFollow | baseline/common/tree_stream.py:179-204 | whatever the outcome, every entry staged meets all those conditions |
| TreeStream.StagedPaths | baseline/common/tree_stream.py:140-144 | whatever the outcome, no unsafe path is staged and no path twice unless both times as a directory |
| TreeStream.BadStartRefused | baseline/common/tree_stream.py:171-176 | another magic or more than a million entries stages nothing |
| TreeStream.BadEntryRefused | baseline/common/tree_stream.py:179-198 | where no entry that may follow stands on the stream the transfer is rejected with the entries before it |
| FullIo.TransferAll | criu-k/criu/util.c:1739-1790 | the loop of short calls moves what the sequence of calls determines, all there is to be had unless a call fails |
| FullIo.RunMeans | criu-k/criu/util.c:1739-1790 | it fails exactly when one of its calls does, that is the last one, and before the last byte |
| FullIo.NothingMovedExactly | criu-k/criu/util.c:1739-1763 | a failing run has moved nothing if and only if its first call failed |
| FullIo.MovedExactly | criu-k/criu/util.c:1739-1790 | the bytes moved are what the calls before the failing one were willing to move together, up to the size and to what was there |
| BufferedReader.Reader.Refill | criu-k/criu/bfd.c:154-173 | a refill that succeeds loses nothing and fills the page as far as the file allows; one that fails keeps the buffer and has moved the descriptor past what it read |
| BufferedReader.Reader.BreadChr | criu-k/criu/bfd.c:190-248 | returns exactly the next piece of the plain byte stream at any alignment with the page; an error if and only if no delimiter was buffered and a read failed, and then exactly the bytes of the failing refill are missing |
| BufferedReader.Reader.Bread | criu-k/criu/bfd.c:339-370 | returns the next bytes of the stream, fewer than asked only at its end, if and only if no read fails; otherwise what was copied and what is left lack exactly what the failing refill read |
| BufferedReader.NothingLostExactly | criu-k/criu/bfd.c:339-370 | a failed `bread` loses nothing if and only if the first read of its last refill failed |
| BufferedReader.NoLineLostExactly | criu-k/criu/bfd.c:190-248 | a failed `breadchr` loses nothing if and only if the first read of its refill failed |
| BufferedReader.BytesCanBeLost | criu-k/criu/bfd.c:162-166 | calls by which a hundred bytes of a file are lost |
| BufferedReader.LinesAreSplit | criu-k/criu/bfd.c:190-248 | the lines of a file are its pieces between delimiters and then NULL if and only if every terminated line fits the page with its delimiter and the tail is shorter; otherwise they end in the error |
| BufferedReader.FittingFile | criu-k/criu/bfd.c:190-248 | the fitting direction, by induction over the file |
| BufferedReader.UnfittingFile | criu-k/criu/bfd.c:209-216 | a file that does not fit ends in the too-long error |
| BufferedReader.SplitLosesNothing | criu-k/criu/bfd.c:190-248 | joining the pieces gives the file back, up to a delimiter after an unterminated tail |
| BufferedWriter.Writer.Flush | criu-k/criu/bfd.c:250-264 | fails exactly when one of its writes does; after success the file holds everything written, after failure a known prefix of the buffer is on the file and all of it still in the buffer |
| BufferedWriter.Writer.FlushAgain | criu-k/criu/bfd.c:250-264 | a second flush after a failed one leaves that prefix and then the whole buffer on the file |
| BufferedWriter.RetryExactly | criu-k/criu/bfd.c:250-264 | that is the buffer once if and only if the first write(2) of the failed flush failed |
| BufferedWriter.BytesCanBeDoubled | criu-k/criu/bfd.c:256-262 | calls by which a byte is on the file twice |
| BufferedWriter.Writer.Append | criu-k/criu/bfd.c:266-283 | file and buffer together grow by exactly the part, whatever its size, if and only if no write fails; the file never holds anything but a prefix of what was written |
| BufferedWriter.Writer.AppendRecord | criu-k/criu/bfd.c:304-319 | a record's parts are appended in order and their lengths summed if and only if no write fails; the file never holds anything but a prefix of what was written |
| BufferedWriter.RecordsStayWhole | criu-k/criu/bfd.c:322-337 | for every interleaving of tasks the image is whole records in lock order, then at most a prefix of the lock holder's record |
| BufferedWriter.RecordCompletes | criu-k/criu/bfd.c:330-337 | a task that finds the image free can append its whole record and leave it free, with exactly that record behind all others |
| BufferedFile.WriteAndFlush | criu-k/criu/bfd.c:250-337 | buffered writes and a flush leave the concatenation of all records on the file |
| BufferedFile.WriteThenRead | criu-k/criu/bfd.c:250-370 | records written, flushed and read back with any sequence of sizes come back as the same bytes in order, and without a failing call this succeeds |
| BufferedFile.ReadLines | criu-k/criu/bfd.c:185-248 | repeated `breadchr` returns the lines of the file and what ends them, a prefix of them if a read fails, and without a failing call all of them |
| BufferPool.NeverShared | criu-k/criu/bfd.c:50-103 | over every sequence of opens and closes on any threads no two open files share a buffer, none is both free and lent, and none is lost |
| BufferPool.LentExactly | criu-k/criu/bfd.c:50-103 | in every reachable state exactly the files opened and not closed since have a buffer |
| BufferPool.BufferKept | criu-k/criu/bfd.c:84-88 | a file keeps the buffer its open took until it is closed |
| BufferPool.OpenLends | criu-k/criu/bfd.c:55-88 | an open takes the head of its thread's list, or the first buffer of a new batch only if the list was empty, and touches nothing else |
| BufferPool.CloseReturns | criu-k/criu/bfd.c:92-103 | a close puts the file's buffer at the head of the closing thread's list and touches nothing else |
| Bitmap.BitmapSet | criu-k/criu/bitmap.c:18-35 | makes exactly the bits of [start, start + nr) one and changes no other bit of any word |
| Bitmap.BitmapClear | criu-k/criu/bitmap.c:37-56 | makes exactly those bits zero and changes no other |
| Bitmap.LastMaskBit | criu-k/criu/bitmap.c:7-7 | the last-word mask has exactly the bits below the end of the run, all of them at a word boundary |
| Bitmap.FirstMaskBit | criu-k/criu/bitmap.c:5-5 | the first-word mask has exactly the bits from the start of the run up |
| Bitmap.RunSetUnique | criu-k/criu/bitmap.c:18-56 | only one array of words answers the contract of a call |
| Bitmap.UndoneExactly | criu-k/criu/bitmap.c:18-56 | setting and then clearing a run, or the reverse, gives the words back if and only if the run held the second value throughout |
| PrecopyCursor.Transparent | criu-k/criu/cr-dump.c:2656-2690 | from a reset or any later cursor a cached query answers as a full scan and leaves the cursor sound |
| PrecopyCursor.PageInBounds | criu-k/criu/cr-dump.c:1711-1719 | every reserved page has its bit inside the bitmap allocated for its area |
| PrecopyCursor.ScanMeans | criu-k/criu/cr-dump.c:2662-2690 | a full scan finds exactly the page number that the address has in the area of the first task of the pid that contains it, if that area is lazy and accessible |
| PrecopyCursor.Worker.Reserve | criu-k/criu/cr-dump.c:2662-2690 | sets the bit of the page of that number of that area and no other bit, and says whether there was one |
| PrecopyCursor.MarkMarks | criu-k/criu/cr-dump.c:2687-2689 | the atomic or sets one bit of one bitmap and leaves all others |
| PrecopyCursor.BitmapsAreUnion | criu-k/criu/cr-dump.c:2656-2690 | for every interleaving of workers and queries the bitmaps are exactly the union of the pages that full scans accept |
| PrecopyCursor.BitSetExactly | criu-k/criu/cr-dump.c:2656-2690 | for every interleaving a bit is set if and only if some query so far had the pid of its task and an address inside its page of its area, and the area is lazy and accessible |
| CgroupText.Cursor.SkipSpaces | criu-k/criu/cgroup-props.c:140-153 | skips the leading spaces and keeps position plus length |
| CgroupText.Cursor.EatSymbol | criu-k/criu/cgroup-props.c:155-164 | takes the symbol exactly when it is next and keeps position plus length |
| CgroupText.Cursor.EatSymbols | criu-k/criu/cgroup-props.c:166-186 | takes all symbols or none of them and keeps position plus length |
| CgroupText.Cursor.EatWord | criu-k/criu/cgroup-props.c:188-201 | takes the word exactly when it is next and keeps position plus length |
| CgroupText.Cursor.GetQuoted | criu-k/criu/cgroup-props.c:203-230 | takes exactly a non-empty quoted string; position plus length changes if and only if an opening quote led nowhere |
| CgroupText.Cursor.ReadDecl | criu-k/criu/cgroup-props.c:253-352 | one turn of the loop reads exactly one paragraph, and a turn that succeeds with text left kept position plus length |
| CgroupProps.Registry.ParseStream | criu-k/criu/cgroup-props.c:232-368 | for every text, applies the paragraphs up to the first refused one in order and keeps at most one entry per controller |
| CgroupProps.Registry.MergeProps | criu-k/criu/cgroup-props.c:81-100 | the properties are appended to that entry alone |
| CgroupProps.Registry.HandleProps | criu-k/criu/cgroup-props.c:102-138 | one paragraph's effect on the list, with one entry per controller kept |
| CgroupProps.Registry.GetProps | criu-k/criu/cgroup-props.c:555-565 | returns what the registry maps the controller to, or nothing |
| CgroupProps.HandleIsEffect | criu-k/criu/cgroup-props.c:102-138 | seen as a map, the list code merges or replaces exactly the named controller and keeps every other |
| CgroupProps.RegistryIsFold | criu-k/criu/cgroup-props.c:102-138 | after any paragraphs look-up is the left fold of merge and replace |
| CgroupGrammar.TextAccepts | criu-k/criu/cgroup-props.c:232-368 | every layout of a list of paragraphs parses to that list |
| CgroupGrammar.TextIs | criu-k/criu/cgroup-props.c:232-368 | every accepted text is a layout of what was parsed |
| CgroupGrammar.AcceptsExactly | criu-k/criu/cgroup-props.c:232-368 | for every text, parsing succeeds with given paragraphs if and only if the text is a layout of them |
| CgroupGrammar.CanonicalRoundTrip | criu-k/criu/cgroup-props.c:239-250 | the canonical text of any paragraphs of non-empty quote-free strings parses back to them and leaves the fold in the registry |
| CgroupGrammar.OpenListAccepted | criu-k/criu/cgroup-props.c:319-352 | a list that a comma leaves open is accepted |
| CgroupGrammar.MergeAppends | criu-k/criu/cgroup-props.c:291-292 | in every layout the word merge appends the properties to what the controller had |
| CgroupGrammar.ReplaceDrops | criu-k/criu/cgroup-props.c:293-294 | in every layout the word replace leaves the new properties alone |
| CgroupGrammar.OtherWordRefused | criu-k/criu/cgroup-props.c:295-298 | any other word is refused |
| SuccessGaps.Intersect | scripts/analyze_success_gaps.py:8-15 | the ordered list of exactly the non-empty overlaps of a left and a right interval |
| SuccessGaps.CheckRows | scripts/analyze_success_gaps.py:27-31 | accepts exactly the journals whose rows are ordered, inside the window and long enough |
| SuccessGaps.Analyze | scripts/analyze_success_gaps.py:17-39 | rejects exactly the unacceptable sets of journals, naming the first bad one and what is wrong with it, and otherwise reports the ordered list of exactly the common cells of at least the threshold |
| SuccessGaps.FoldStep | scripts/analyze_success_gaps.py:34-34 | intersecting with one more worker extends the common cells by that worker |
| SuccessGaps.ReportIsGlobal | scripts/analyze_success_gaps.py:21-39 | with journals of exactly the long inter-success gaps the report is exactly the gaps of the merged timeline inside the common window, as the only ordered list |
| SuccessGaps.GlobalIsConsecutive | scripts/analyze_success_gaps.py:34-39 | those gaps are exactly the neighbours in one sorted list of all successes that are far enough apart and inside the window |
| SuccessGaps.WorkerOrderIrrelevant | scripts/analyze_success_gaps.py:18-34 | any order of the same journals gives the same report |
| Recovery.Coalesce | scripts/analyze_recovery.py:6-13 | succeeds exactly on ascending samples and keeps the last sample of each time, with the number of others |
| Recovery.KeptIncreases | scripts/analyze_recovery.py:6-13 | what is kept is strictly increasing in time and ascending in count |
| Recovery.EveryTimeKept | scripts/analyze_recovery.py:6-13 | no time is lost |
| Recovery.LastCountKept | scripts/analyze_recovery.py:10-12 | every sample kept is the last observation of its time with the count of that one |
| Recovery.DuplicatesCounted | scripts/analyze_recovery.py:11-11 | the duplicates are the observations with the time of their predecessor |
| Recovery.PrefixCountsDecide | scripts/analyze_recovery.py:15-22 | prefix counts of two samples are equal if and only if every step between them is within the limit |
| Recovery.BisectRight | scripts/analyze_recovery.py:21-21 | splits the times at the value |
| Recovery.Rolling | scripts/analyze_recovery.py:15-24 | succeeds exactly on steady samples; each rate is the mean over its observed window, and missing exactly when there is no such window |
| Recovery.RateUnique | scripts/analyze_recovery.py:20-23 | that determines the rate |
| Recovery.BeginIsEarliest | scripts/analyze_recovery.py:30-33 | the tracked start is that of the longest run that ends at a point |
| Recovery.Sustained | scripts/analyze_recovery.py:26-37 | returns the first confirmation among the points at or after the anchor, or none |
| Recovery.ConfirmsExactly | scripts/analyze_recovery.py:30-35 | a point confirms if and only if some long enough run ends at it |
| Recovery.ReportedExactly | scripts/analyze_recovery.py:26-37 | a recovery is reported if and only if some qualifying run exists, confirmed at the first point that ends one |
| Recovery.RecoveryIsObserved | scripts/analyze_recovery.py:15-37 | everything from the opening of the first smoothing window to the confirmation was observed without a gap above the limit |

## Left out

- RDMA verbs, queue-pair setup and completion polling: foreign device calls.
- The legacy access sampler: disabled in the source.
- The page scheduler, the parallel page transport and the hot-index codec: only their calls appear, as steps that may fail.
- The rest of CRIU (apparmor, autofs, bpfmap, the cgroup filesystem, eventfd, feature checks, option parsing): system-call plumbing.
- Zombie tasks in the parallel dump: `dump_one_task` returns for them before any barrier while `item_num` counts them, so the model's tasks are all alive.
- Thread release inside one owner is one step per thread; signals delivered to a task during its release are not modelled.
- What the source does after `process_done` (freezer, cgroup and log clean-up) and the code inside the restorer blob.
- Stage aborts and signal-handler races in restore: the barrier's runs are abort-free, with and without namespaces to restore.
- The unbuffered `writev` path, which the source marks as unfinished.
- The cut of a line at an embedded NUL when a caller treats the result of `breadchr` as a C string.
- Negative counts and `int` overflow in `bitmap_set` and `bitmap_clear`, and 64-bit overflow of addresses in the gap search.
- SHA-256 itself (a parameter with 32-byte values), the JSON codec (a pair with a round trip) and `safe_path` (a predicate); clashes between a file and the parent directory of another entry while staging.
- Allocation failure and the error messages of the cgroup parser; reading past the end of its text, which is taken to be followed by a NUL.
- Floating-point rounding in the recovery analysis; `interval_summary`, `target_reference` and `relapse_intervals`, which would add only sums over samples.
- Fluid, YCSB, plotting, deployment, SSH orchestration, log-scraping verifiers and kernel build scripts.
- SyncChannel.Process.NotifyPeer: models one sender; the lock among several senders is in SyncRuns, where a send that fails half-way ends the sending process.
- SyncChannel.Process.WaitState: the 32-bit mask of received phases is a set of phase numbers, all below 32.
- PrecopyCursor.Worker.Reserve: models the atomic or as one indivisible update of a bitmap held by value.
- CgroupProps.Registry.HandleProps: models the linked list by value, head first; list nodes and their release are not modelled.
