# Verified models of the hard parts of the repository

The project models six pieces of the repository in Dafny and proves what each is for, over
all inputs, all runs or all reachable states.

| files | what they model |
|---|---|
| `BipartiteGraph`, `BipartiteMatching`, `BipartiteRows` | the maximum matching search of gmock and the pairing decision built on it |
| `LogHistory`, `LogFiles` | the log files under failing writes, flushes and closes |
| `LoggerProtocol`, `LoggerInvariant`, `LoggerSteps`, `LoggerTheorems`, `LoggerCalls`, `LoggerFlushing`, `LoggerRelease`, `LoggerFilling`, `LoggerWitness`, `LogWriter` | the asynchronous logger: its threads as a state machine, its objects as classes |
| `SdsString`, `SdsGrowth`, `SdsSplit`, `SdsArgs`, `SdsQuoting`, `SdsBalance`, `SdsEscapes`, `SdsFormat`, `SdsDirectives` | dynamic strings: storage, growth, split and join, quoting and tokenizing, formatting |
| `RegexSyntax`, `RegexParse`, `RegexValidity`, `RegexMatch`, `RegexMeaning`, `RegexFullMatch` | the simple regular expressions of gtest |
| `Decimal` | the two decimal printers |
| `ReplyQueue` | the reply queue of a Raft node under partial writes |

Each file holds one module of the same name; `Options` holds the option type. Objects that
the program updates in place are classes and arrays here, and each of their methods is
proved against a specification function or a relation; what the program promises is then
proved about those.

**Matching.** `TryAugment` either pushes flow along one augmenting path, which it names, or
changes neither array and leaves marks that rule out every augmenting path. Between the
inner success and the overwrite one entry of the right array is stale;
`AugmentedAlmostConsistent` is the statement that tolerates it. `Compute` collects the nodes
that failed searches have marked. No later augmentation touches them (`DeadStaysDead`), and
with the other elements they cover the graph with as many nodes as the matching has edges.
That proves the comment in the source that each left node need be visited only once.
`BipartiteRows` states both results over a table of rows, without the flat matrix.

**Logger.** One step of the protocol is one critical section, one free-list operation, or
one unlocked file operation. There is any number of writers; the scheduler and the choice of
the thread a `notify_one` reaches are arbitrary, and spurious wake-ups are allowed. `Inv` is
inductive (`StepKeeps`) and the theorems hold in every reachable state. `LogWriter` has the
same critical sections as methods over fields, proved equal to the functions the protocol is
built from, and proves that the unlocked write loop is a run of the protocol's write steps.

`LoggerCalls` follows the calls. A ledger is kept from the steps of a run alone: the levels in
effect, the call each thread is in, what was queued and what was discarded. Every call the log
level lets through is queued with its own text, discarded and counted, or still in hand
(`EveryCallAccounted`); whether a write is synchronous and who is discarded is decided by the
ledger's levels (`QueuedAsCalled`, `DiscardedExactlyWhen`).

The disk may do anything: a write takes all of a record, a part of it, or nothing; a file may
not be created; a flush or a close may fail, and a close that fails loses what is in the
buffer. As in the program, what a write reports depends only on whether `errno` is ENOSPC
after it, no call clears `errno`, and the results of flushes and closes are ignored. A record
in a file carries the number of its message, so that duplicates are visible. A history counts
what the reports hide: records and fragments no successful write accounts for, reported
messages whose write did not take them, records lost with a stream. The order of the reported
messages is proved for every disk (`NothingLost`). What is in the files and what is durable is
proved as exact conditions on that history (`FilesExactlyWhen`, `NoDuplicateExactlyWhen`,
`SyncWriteIsDurable`, `ExitLosesNothing`); `LoggerFlushing` has the promise itself for the
runs in which flushing works, and `LoggerWitness` has the runs in which it is broken.

**Strings, expressions, numbers, replies.** Every buffer operation states the new contents,
capacity and header type. Splitting, tokenizing, formatting, parsing and matching are each
related to an independent definition: joining, quoting, concatenated renderings, printing,
and the language of an expression. What these definitions rest on is written out byte by byte
and character by character, through the results alone: directives in `SdsDirectives`, escapes
and blanks in `SdsEscapes`, atoms, repeats and anchors in `RegexMeaning`, and the texts the
validator accepts in `RegexValidity`. The decimal printers are both proved to print the one
definition `Text`. The reply handler is proved to send exactly what leaves the queue,
and to keep its connection for as long as no write fails or takes nothing.

## Findings

* While the logger runs, the branch that turns a synchronous write into an asynchronous one
  is dead: the worker counts the tries down inside one critical section, because `continue`
  does not release the lock (`RunningSyncWriteWaits`). After shutdown has begun it is live,
  and a synchronous write can return although its message is only queued
  (`ShutdownSyncWriteMayReturn`; `ShutdownSyncWriteReturns` is such a run).
* The program ignores whether a flush succeeds. A synchronous write can return, and the worker
  can exit, with messages that never left the stdio buffer (`SyncWriteReturnsUnflushed`,
  `ExitsUnflushed`). For honest writes a message is durable exactly when a flush or close has
  succeeded since its own write (`SyncWriteIsDurable`).
* `FileWritter::write` looks at `errno` after `fwrite` and nothing clears it. A write can take
  its record and report a refusal, and the record is then in the file twice (`RecordTwice`), or
  is there twice before it is ever reported (`RecordTwiceUnreported`). If nothing was lost, there
  is a duplicate exactly when more was left behind than the one copy of a message that waits for
  its next try (`NoDuplicateExactlyWhen`).
* After a single ENOSPC, even from a flush, a synchronous writer stays blocked for as long as all
  calls succeed (`StuckForever`, `FailedFlushBlocksForever`); it can be released if and only if
  `errno` is something else or its message has been reported (`ReleaseExactlyWhen`).
  Meanwhile the worker fills the disk: for every `n` it can leave `n` more copies of the same
  record in the open file, which is never rotated (`FillsTheDisk`).
* A refused write that takes its record does not advance `file_size`, so a record can be added to
  a file that is really larger than the limit (`LimitExceeded`). It is added within the limit if
  and only if the stray bytes before it fit into what the count has left free and what has been
  lost (`RealSizesWithinLimitExactlyWhen`, `NextRecordWithinLimitExactlyWhen`).
* A write that fails with another error than ENOSPC reports success, and its message is lost
  (`RecordMissing`).
* The assertion of `sdsIncrLen` lets a five-bit string grow, although it has no free space; the
  terminator is then stored behind the buffer (`IncrPastEnd`). Its cast to 32 bits also lets such a
  string shrink by 2^32, which stores before the buffer (`IncrBeforeStart`). In a buffer of exactly
  the capacity the store is inside if and only if the type is a wider one or the change neither
  exceeds the free space nor removes more than the length (`IncrLen`).
* Whether a message may be discarded is tested against the level of synchronous writes at the moment
  the pool is found empty, not at the begin of the call: raising the level in between discards a
  message whose write had begun as a synchronous one (`DiscardedExactlyWhen`).
* The retry loop for a buffer is written for ten attempts and makes one (`RetryAllocate`).
* Splitting undoes joining exactly for the clean lists of `SplitUndoesJoin`. For a separator
  longer than a byte it is not enough that the parts avoid it (`OverlapFails`).
* Matching a whole string against an expression is wrong exactly when the text ends in an
  escaped dollar sign: the end anchor is then not added (`FullMatchExactlyWhen`).
* Single quotes can write every argument except one that ends in a backslash
  (`SingleFormReadsAs`); double quotes can write every byte string.
* An empty reply closes the connection when it is written, since a write that takes nothing
  counts as a lost peer, and the replies behind it are never sent (`WillingPeer`,
  `WholeQueueExactlyWhen`, `ClosedForever`).
* The comment above `sdssplitlen` says that an empty string gives no result; the code gives
  an empty list, and so does the model.

## Model

| member | source | states |
|---|---|---|
| BipartiteGraph.MatchingWithinCover | deps/googletest/googlemock/src/gmock-matchers.cc:206-221 | weak duality, the bound behind "maximal match": no matching is larger than a set of nodes that touches all its edges |
| BipartiteMatching.AugmentedFrame | deps/googletest/googlemock/src/gmock-matchers.cc:277-281 | an augmentation leaves every matcher off its path, and every element matched off its path, as it was |
| BipartiteMatching.AugmentedAlmostConsistent | deps/googletest/googlemock/src/gmock-matchers.cc:250-257 | after a nested augmentation the arrays are mutually referent except at the one stale matcher; only the searched element goes from unused to used |
| BipartiteMatching.AugmentedConsistent | deps/googletest/googlemock/src/gmock-matchers.cc:287-300 | augmenting from an unmatched element restores mutual reference and matches exactly one more element |
| BipartiteMatching.SearchedPast | deps/googletest/googlemock/src/gmock-matchers.cc:260-283 | when the search through one matcher fails, that matcher is a dead end for good and the scan's marks stay closed |
| BipartiteMatching.NoPathFromDead | deps/googletest/googlemock/src/gmock-matchers.cc:212-215 | no augmenting path starts in a dead region |
| BipartiteMatching.PathAvoidsDead | deps/googletest/googlemock/src/gmock-matchers.cc:215-219 | no augmenting path meets a matcher of a dead region |
| BipartiteMatching.DeadStaysDead | deps/googletest/googlemock/src/gmock-matchers.cc:210-221 | later augmentations keep a dead region dead, so visiting each element once is enough |
| BipartiteMatching.FailedSearchIsDead | deps/googletest/googlemock/src/gmock-matchers.cc:259-285 | a failed search from fresh marks has marked out a dead region around its element |
| BipartiteMatching.ExhaustedHasNoPath | deps/googletest/googlemock/src/gmock-matchers.cc:243-248 | a failed search from fresh marks means no augmenting path exists at all |
| BipartiteMatching.DeadRegionCover | deps/googletest/googlemock/src/gmock-matchers.cc:210-221 | Koenig's count: the elements outside a dead region and the matchers in it are as many as the matched elements |
| BipartiteMatching.PairsCount | deps/googletest/googlemock/src/gmock-matchers.cc:231-237 | the listed pairs are distinct and as many as the matched elements |
| BipartiteMatching.PairsElements | deps/googletest/googlemock/src/gmock-matchers.cc:231-237 | a pair is listed exactly when the left array links it |
| BipartiteMatching.PairsMaximum | deps/googletest/googlemock/src/gmock-matchers.cc:206-238 | flow that leaves only dead elements unmatched is a matching of maximum size among all matchings |
| BipartiteMatching.MaxBipartiteMatchState.constructor | deps/googletest/googlemock/src/gmock-matchers.cc:200-204 | a new state has no flow and is consistent |
| BipartiteMatching.MaxBipartiteMatchState.TryAugment | deps/googletest/googlemock/src/gmock-matchers.cc:259-285 | success is one augmentation along a path of unmarked matchers; failure changes no flow and, from fresh marks, proves that no augmenting path exists; terminates on the unmarked matchers |
| BipartiteMatching.MaxBipartiteMatchState.Compute | deps/googletest/googlemock/src/gmock-matchers.cc:207-238 | for every graph the result is a maximum matching, and the check that the searched element is unused never fires |
| BipartiteMatching.FindMaxBipartiteMatching | deps/googletest/googlemock/src/gmock-matchers.cc:307-310 | the result is a maximum matching without repeated pairs |
| BipartiteMatching.FullMatchingAssigns | deps/googletest/googlemock/src/gmock-matchers.cc:328-333 | a matching with as many edges as matchers gives every matcher an element of its own |
| BipartiteMatching.PairingIffAssignment | deps/googletest/googlemock/src/gmock-matchers.cc:328-333 | the size test decides, in both directions, whether all matchers can be assigned distinct elements |
| BipartiteMatching.FindPairing | deps/googletest/googlemock/src/gmock-matchers.cc:328-357 | true exactly when all matchers can be assigned distinct elements |
| BipartiteRows.EdgesAreEntries | deps/googletest/googlemock/include/gmock/gmock-matchers.h:3257-3287 | the matrix made of the rows of a table one after another has exactly the true entries as edges |
| BipartiteRows.SetEdgeChangesOne | deps/googletest/googlemock/include/gmock/gmock-matchers.h:3265-3270 | setting an edge sets it and changes no other |
| BipartiteRows.FindMaxRowMatching | deps/googletest/googlemock/src/gmock-matchers.cc:307-310 | for every table the result is a largest set of true entries no two of which share a row or a column |
| BipartiteRows.FindRowPairing | deps/googletest/googlemock/src/gmock-matchers.cc:328-357 | true exactly when every column of the table has a true entry in a row of its own |
| LogHistory.WriteRecorded | src/logger.cpp:143-149 | whatever a write takes and reports, the records in the files stay what the history says |
| LogHistory.DropRecorded | src/logger.cpp:171-175 | a stream that cannot be closed takes with it exactly the records that were not flushed |
| LogHistory.ExactlyTheReported | src/logger.cpp:143-149 | the files hold exactly the reported messages: if nothing was lost, exactly when nothing was left behind, and the other way round |
| LogHistory.LosslessIds | src/logger.cpp:143-149 | if nothing was lost, the messages in the files are the reported ones and at most the next |
| LogHistory.DuplicateExactlyWhen | src/logger.cpp:143-149 | if nothing was lost, some message is in the files twice exactly when refused and short writes have left more behind than the one copy of a message that waits for its next try |
| LogHistory.DurableExactlyWhen | src/logger.cpp:162-167 | a reported message is durable if a flush or close has succeeded since its write, and only then if nothing was left behind |
| LogFiles.CreateKeepsRecords | src/logger.cpp:189-263 | creating a file, even unsuccessfully, loses no record; a new file's size is its header |
| LogFiles.CloseKeepsDurable | src/logger.cpp:171-175 | closing keeps every record that has left the stdio buffer, and all records if it succeeds |
| LogFiles.RotateKeepsDurable | src/logger.cpp:169-178 | rotation keeps every durable record, and all records if the old stream can be closed; a new file holds its header only |
| LogFiles.WriteRecordAdds | src/logger.cpp:133-150 | a write adds what `fwrite` takes and reports success exactly when there is a stream and `errno` is not ENOSPC |
| LogFiles.ReportExactlyWhen | src/logger.cpp:133-150 | a write that leaves ENOSPC is refused whatever `errno` was before, one that leaves another error is not, and one that leaves `errno` alone is decided by what was there |
| LogFiles.WriteEntryAdds | src/logger.cpp:462-470 | rotating and writing keeps what is durable, adds what is taken, and counts the message as reported exactly on success |
| LogFiles.AddRecordKeeps | src/logger.cpp:143-149 | the counted and the real size stay in balance at every record, and the file's whole history of counts within the limit |
| LogFiles.RealSizeExactlyWhen | src/logger.cpp:462-470 | a record was added at a real size within the limit if and only if the stray bytes before it fit into what the count left free and what was lost |
| LogFiles.FlushKeepsRecords | src/logger.cpp:162-167 | a flush moves no record, makes all durable if it succeeds, and changes nothing else if it fails |
| LogFiles.FileWritter.Close | src/logger.cpp:171-175 | the object's new state is the one closing specifies, successful or not |
| LogFiles.FileWritter.constructor | src/logger.cpp:117-125 | the object starts as a freshly created file |
| LogFiles.FileWritter.Create | src/logger.cpp:189-263 | the object's new state is the one creation specifies |
| LogFiles.FileWritter.Write | src/logger.cpp:133-150 | the object's new state and result are those of one record write, whatever `fwrite` takes and `errno` says |
| LogFiles.FileWritter.RotateFile | src/logger.cpp:169-178 | the object's new state is the one rotation specifies, also when the old stream cannot be closed |
| LogFiles.FileWritter.FlushStream | src/logger.cpp:162-167 | the object's new state is the one a flush specifies, successful or not |
| LogWriter.LoggerAllocator.constructor | src/logger.cpp:86-91 | the pool starts with every buffer once |
| LogWriter.LoggerAllocator.Allocate | src/logger.cpp:97-106 | takes the oldest free buffer, or none |
| LogWriter.LoggerAllocator.Deallocate | src/logger.cpp:107-109 | returns a buffer to the end of the free list |
| LogWriter.WriteBatchIsRun | src/logger.cpp:457-474 | the worker's unlocked loop, stopped by a refusal or not, is a run of the protocol's write steps |
| LogWriter.LogWritter.Write | src/logger.cpp:318-354 | the critical section of a write, up to its first wait, is the protocol's |
| LogWriter.LogWritter.RetryAllocate | src/logger.cpp:378-390 | exactly one attempt is made, and a failed one counts a missed log |
| LogWriter.LogWritter.NextTable | src/logger.cpp:433-455 | the worker sleeps, exits or takes the whole queue as the protocol says, and the countdown ends without releasing the lock |
| LogWriter.LogWritter.WriteEntryToFile | src/logger.cpp:462-470 | one turn of the write loop does what the file specification says |
| LogWriter.LogWritter.WriteTable | src/logger.cpp:457-479 | the pass over the table writes a prefix, frees exactly its buffers, counts its bytes, and flushes |
| LogWriter.LogWritter.CommitTable | src/logger.cpp:483-497 | unwritten entries return to the front, the counters advance by what was written, and the right notification is sent |
| LoggerSteps.InitHolds | src/logger.cpp:268-286 | a constructed logger satisfies the invariant |
| LoggerSteps.StepKeeps | src/logger.cpp:318-498 | every step of every thread keeps the invariant, under any schedule and any disk |
| LoggerSteps.ReachableInv | src/logger.cpp:318-498 | the invariant holds in every reachable state |
| LoggerSteps.PushKeeps | src/logger.cpp:318-354 | queueing a message keeps the invariant for every choice of the notified thread |
| LoggerSteps.WorkerWriteKeeps | src/logger.cpp:460-474 | writing one record keeps the invariant, whether it is taken or not and reported or refused |
| LoggerSteps.WorkerCommitKeeps | src/logger.cpp:482-498 | splicing unwritten entries back and advancing the counters keeps the invariant |
| LoggerSteps.OneWakesAll | src/logger.cpp:493-494 | a `notify_one` for a single blocked writer leaves no writer asleep |
| LoggerSteps.CommitWakesAll | src/logger.cpp:493-497 | after a commit no blocked writer is asleep |
| LoggerTheorems.NothingLost | src/logger.cpp:318-323 | for any disk, the messages whose write reported success, then the unwritten part of the table in flight, then the queue, are the messages in push order |
| LoggerTheorems.FilesExactlyWhen | src/logger.cpp:143-149 | in every reachable state the records too many and too few are counted, and the files hold exactly the reported messages under an exact condition either way |
| LoggerTheorems.NoDuplicateExactlyWhen | src/logger.cpp:143-149 | in every reachable state, if nothing was lost, the files hold a duplicate exactly when more was left behind than the one copy of a message that waits for its next try |
| LoggerTheorems.SyncWriteIsDurable | src/logger.cpp:332-339 | when a synchronous write leaves its loop, its own write and all earlier ones have reported success; if nothing was lost they are durable when a flush has succeeded since, and for honest writes exactly then |
| LoggerTheorems.NoLostWakeUp | src/logger.cpp:332-338 | a sleeping synchronous writer still needs a flush and the worker is not asleep |
| LoggerTheorems.WriterNotifiesWorker | src/logger.cpp:348-352 | a writer's `notify_one` reaches the worker if it sleeps, and otherwise nobody |
| LoggerTheorems.WorkerNotifiesWriter | src/logger.cpp:493-497 | the worker's `notify_one` reaches the only blocked writer, and leaves no writer asleep |
| LoggerTheorems.RunningSyncWriteWaits | src/logger.cpp:326-339 | before shutdown every synchronous write waits: its early return is dead |
| LoggerTheorems.SyncWriteWaitsExactlyWhen | src/logger.cpp:326-338 | a synchronous write waits if and only if the count of tries is zero |
| LoggerTheorems.ShutdownSyncWriteMayReturn | src/logger.cpp:326-331 | after a refusal during shutdown the next synchronous write returns with a message still unwritten |
| LoggerTheorems.ExitLosesNothing | src/logger.cpp:443-446 | when the worker exits, every message pushed has been reported; for honest writes the files hold exactly these, and all are durable exactly when a flush has succeeded since the last |
| LoggerTheorems.CommitThenTop | src/logger.cpp:482-498 | after a commit the worker holds the whole queue, refused entries first, or everything is flushed |
| LoggerTheorems.BuffersConserved | src/logger.cpp:366-391 | each buffer of the pool is in exactly one place, through discard, retry and refusal |
| LoggerTheorems.AccountingExact | src/logger.cpp:483-492 | flushed, in flight and queued entries add up to the written index, and the size subtraction never underflows |
| LoggerTheorems.FilesWithinLimit | src/logger.cpp:460-470 | every record of every file was added at a counted size within the larger of limit and header; no file is rotated before its counted size exceeds the limit; counted and real size balance at every record; a stream is open whenever rotation is due |
| LoggerTheorems.RealSizesWithinLimitExactlyWhen | src/logger.cpp:462-470 | the same condition for every record of every file of every reachable state |
| LoggerTheorems.NextRecordWithinLimitExactlyWhen | src/logger.cpp:462-470 | the same condition for the record about to be written, in the file that receives it |
| LoggerTheorems.LongQueueWakesWorker | src/logger.cpp:341-353 | a sleeping worker never has more than the notification threshold of bytes queued: the push that exceeds it wakes the worker |
| LoggerCalls.StepAgrees | src/logger.cpp:356-391 | every step of every thread keeps the protocol in agreement with the ledger of calls |
| LoggerCalls.EveryCallAccounted | src/logger.cpp:356-391 | in every run the calls at or above the log level are the messages queued, the calls discarded and the calls in hand, and the messages queued are the texts of those calls in order |
| LoggerCalls.SettingsInEffect | src/logger.cpp:296-305 | the levels are the last ones set, the counter of missed logs counts the discards since the worker last took a table, and the logger runs until shutdown |
| LoggerCalls.LoggedExactlyWhen | src/logger.cpp:357-360 | a call changes nothing if its level is below the log level in effect, and is in hand otherwise |
| LoggerCalls.QueuedAsCalled | src/logger.cpp:318-339 | the message queued is the call's own, and the write is synchronous exactly when the level of the call was not below the level of synchronous writes at its begin |
| LoggerCalls.DiscardedExactlyWhen | src/logger.cpp:367-374 | a call that finds no buffer is discarded without a retry exactly when its level is below the level of synchronous writes at that moment |
| LoggerCalls.BufferExactlyWhen | src/logger.cpp:97-106 | a thread gets a buffer exactly when one is free, namely the oldest, and nobody else has it |
| LoggerCalls.CallIsQueued | src/logger.cpp:356-391 | from every reachable state with a free buffer a call at or above the log level can get its message queued, and counts no miss |
| LoggerCalls.CallIsMissed | src/logger.cpp:366-391 | with no buffer free a call ends as one missed log and nothing else, after one retry if its level is that of synchronous writes |
| LoggerCalls.WakesWorkerExactlyWhen | src/logger.cpp:341-353 | an asynchronous message wakes a sleeping worker exactly when the queue becomes longer than 10240 bytes, and nobody otherwise |
| LoggerCalls.WorkerAtTop | src/logger.cpp:433-455 | the worker sleeps on an empty queue, exits on an empty queue after shutdown, and otherwise takes the whole queue |
| LoggerCalls.TimeoutTakesQueue | src/logger.cpp:435-437 | a queue too short to wake the worker is taken when its sleep ends |
| LoggerCalls.TriesAfterRefusal | src/logger.cpp:484-490 | a refusal leaves ten tries during shutdown and none before |
| LoggerCalls.TriesUsedUp | src/logger.cpp:326-347 | a push that would have notified somebody uses up one try if there is one left |
| LoggerCalls.PoolSize | src/logger.cpp:86-91 | in every reachable state the buffers are 2048, each in one place |
| LoggerFlushing.SyncWriteIsFlushed | src/logger.cpp:332-339 | when flushing works and reported writes take their record, a synchronous write returns only after its own message and every earlier one are in the files and out of the stdio buffer |
| LoggerFlushing.ExitFlushesAll | src/logger.cpp:443-446 | in the same runs the worker exits only after every message pushed is durable |
| LoggerRelease.BlockedWriterCanReturn | src/logger.cpp:332-339 | no deadlock: with a willing disk and `errno` not ENOSPC, or once its message is reported, some worker steps release a blocked writer |
| LoggerRelease.StuckForever | src/logger.cpp:143-147 | while `errno` is ENOSPC and all calls succeed, a writer whose message is not reported stays blocked in every run of all threads |
| LoggerRelease.ReleaseExactlyWhen | src/logger.cpp:143-147 | with a willing disk the worker can release a blocked writer if and only if `errno` is not ENOSPC or the message has been reported |
| LoggerFilling.OneMoreCopy | src/logger.cpp:457-490 | one round of the worker while `errno` is ENOSPC adds a copy of the front record and changes nothing the program counts |
| LoggerFilling.FillsTheDisk | src/logger.cpp:143-147 | for every `n`, worker steps whose calls all succeed leave `n` more copies of the front record in the open file, unreported, uncounted and without rotation |
| LoggerWitness.SyncWriteReturnsUnflushed | src/logger.cpp:479-492 | a run in which a synchronous write returns and its message has not left the stdio buffer |
| LoggerWitness.ExitsUnflushed | src/logger.cpp:443-446 | a run in which the worker exits with a message not durable |
| LoggerWitness.FailedFlushBlocksForever | src/logger.cpp:143-147 | a run after which a synchronous write never returns, although all further calls succeed |
| LoggerWitness.RecordTwice | src/logger.cpp:143-147 | a run, with every write call succeeding, that leaves one reported message in the file twice |
| LoggerWitness.RecordTwiceUnreported | src/logger.cpp:143-147 | a run that leaves a message in the file twice before it is reported |
| LoggerWitness.LimitExceeded | src/logger.cpp:462-470 | a run that adds a record to a file really larger than the limit |
| LoggerWitness.RecordMissing | src/logger.cpp:143-149 | for every message that is not empty, a run in which it is reported and in no file |
| LoggerWitness.ShutdownSyncWriteReturns | src/logger.cpp:326-331 | a run in which a synchronous write returns during shutdown with its message only queued |
| Decimal.ParseText | src/util.cpp:28-30 | the text of every integer reads back as that integer |
| Decimal.TextCharacters | src/util.cpp:39-91 | the text of a number is that of its tenth and the character of its last digit, after a minus sign if it is negative |
| Decimal.Digits10Exact | src/util.cpp:6-26 | the comparison ladder counts the digits of every natural number exactly |
| Decimal.TextFits | src/sds.cpp:443-449 | the text of every 64-bit value fits the 21-byte buffers with its terminator |
| Decimal.FillDigits | src/util.cpp:68-86 | the pair loop and the last one or two digits write the decimal text in place and touch nothing else |
| Decimal.Ll2String | src/util.cpp:39-91 | writes the text and a terminator, or returns 0 and writes nothing when it does not fit |
| Decimal.PutReversed | src/sds.cpp:454-463 | the division loop writes the digits from the last to the first |
| Decimal.ReverseInPlace | src/sds.cpp:469-477 | the swap loop reverses the text in place |
| Decimal.SdsLl2Str | src/sds.cpp:450-479 | writes the text of every 64-bit signed value and a terminator |
| Decimal.SdsUll2Str | src/sds.cpp:482-508 | writes the text of every 64-bit unsigned value and a terminator |
| Decimal.PrintersAgree | src/util.cpp:39-91 | the two printers produce the same bytes and length, and the bytes read back as the value |
| SdsString.ReqType | src/sds.cpp:64-78 | the narrowest header type whose field holds the size |
| SdsString.Sds.SetLen | src/sds.hpp:130-152 | the stored length, truncated to the field's width, under an unchanged type |
| SdsString.Sds.IncLen | src/sds.hpp:154-177 | the sum truncated to the field's width, including the five-bit type |
| SdsString.Sds.SetAlloc | src/sds.hpp:197-216 | the stored capacity, truncated to the field's width |
| SdsString.Sds.NewLen | src/sds.cpp:93-149 | contents, capacity and header type of a new string, terminated |
| SdsString.Sds.MakeRoomFor | src/sds.cpp:208-251 | at least the asked room, the exact new capacity and type, contents and the byte after them kept |
| SdsString.Sds.RemoveFreeSpace | src/sds.cpp:259-290 | same contents, no free space, and the exact header type |
| SdsString.Sds.IncrLen | src/sds.cpp:333-372 | under the source's assertion, the new length, whether the terminator is stored inside the buffer, exactly when for every change, and the contents |
| SdsString.IncrStored | src/sds.cpp:346-367 | under the assertions, truncating casts included, the stored length of the wider types stays within the capacity |
| SdsString.AssertedExactlyWhen | src/sds.cpp:333-372 | for changes below 2^31 the assertion accepts exactly the lengths within the capacity, for the five-bit type those below 32 |
| SdsString.IncrPastEnd | src/sds.cpp:340-371 | an input that the assertion accepts and for which the terminator is stored behind the buffer |
| SdsString.IncrBeforeStart | src/sds.cpp:340-371 | an input that the assertion's cast accepts and for which the terminator is stored before the buffer |
| SdsString.Sds.GrowZero | src/sds.cpp:379-390 | appends zeros up to a length, or does nothing |
| SdsString.Sds.CatLen | src/sds.cpp:397-406 | appends bytes; the capacity changes only as room is needed |
| SdsString.Sds.CpyLen | src/sds.cpp:426-435 | replaces the contents |
| SdsGrowth.GrowsToNext | src/sds.cpp:216-220 | a full buffer grows to the next capacity of the closed form |
| SdsGrowth.FieldWidths | src/sds.hpp:47-74 | the length fields of the five header types have 5, 8, 16, 32 and 64 bits |
| SdsGrowth.GrowthExact | src/sds.cpp:208-251 | appending bytes reallocates exactly as often as it takes to reach a capacity that holds them |
| SdsGrowth.GrowthBound | src/sds.cpp:208-251 | at most twenty reallocations and one per megabyte |
| SdsGrowth.AppendAll | src/sds.cpp:397-406 | the string itself, appended to byte by byte, grows that often |
| SdsSplit.CleanUnique | src/sds.cpp:887-902 | a string has at most one list of clean parts, so the promise of splitting determines its result |
| SdsSplit.CleanPartsAvoid | src/sds.cpp:903-951 | no token contains the separator |
| SdsSplit.SplitUndoesJoin | src/sds.cpp:903-951 | splitting a joined list gives the list back exactly when it is empty, or clean and not the single empty part |
| SdsSplit.OneByteClean | src/sds.cpp:922-923 | for one-byte separators a list is clean exactly when no part holds the byte |
| SdsSplit.OverlapFails | src/sds.cpp:903-951 | for longer separators parts that avoid the separator need not come back |
| SdsSplit.SplitLen | src/sds.cpp:903-951 | returns the clean tokens that join to the string, never writing past the slots; no result for a bad length |
| SdsSplit.JoinSds | src/sds.cpp:1189-1198 | the joined contents in a valid string |
| SdsSplit.SplitThenJoin | src/sds.cpp:903-951 | joining what splitting returns is the string, for every separator of at least one byte |
| SdsArgs.ScanEscaped | src/sds.cpp:967-990 | inside quotes the tokenizer undoes the escaper, for every byte string |
| SdsArgs.QuotedArgumentsRoundTrip | src/sds.cpp:1034-1040 | quoting, joining with a space and splitting is the identity on lists of byte strings |
| SdsArgs.FormsReadBack | src/sds.cpp:1042-1150 | a line of forms joined with spaces is split into the texts the forms are read as |
| SdsArgs.EscapeHasNoNul | src/sds.cpp:967-990 | an escaped string holds no NUL |
| SdsArgs.CatRepr | src/sds.cpp:967-990 | appends the quoted form |
| SdsArgs.SplitArgs | src/sds.cpp:1042-1150 | the pointer loop computes the grammar's arguments, terminates, and never reads past the terminating NUL |
| SdsArgs.ReadToken | src/sds.cpp:1053-1137 | the inner loop reads one argument in the three modes, or finds the quotes unbalanced |
| SdsArgs.QuoteThenSplit | src/sds.cpp:1034-1040 | the round trip through the string's own terminated buffer |
| SdsQuoting.ScanSingle | src/sds.cpp:1094-1108 | inside single quotes a text is read back, or, when it ends in a backslash, the quote is never closed |
| SdsQuoting.SingleFormReadsAs | src/sds.cpp:1094-1108 | single quotes can write a text if and only if it does not end in a backslash |
| SdsQuoting.WordReadsAs | src/sds.cpp:1109-1127 | a text without blanks and quotes stands for itself |
| SdsQuoting.MixedLineRoundTrip | src/sds.cpp:1042-1150 | a line whose arguments are written each in any of the three ways is split into the arguments |
| SdsBalance.ScanToClose | src/sds.cpp:1059-1108 | inside quotes the scan ends at the first quote after an even number of backslashes, or the first apostrophe after none, and fails exactly if there is none or no blank follows |
| SdsBalance.RefusedExactlyWhen | src/sds.cpp:1037-1040 | an argument is refused if and only if its quote is unclosed or badly closed |
| SdsBalance.LineRefusedExactlyWhen | src/sds.cpp:1037-1040 | a line is refused if and only if some argument of it has an unclosed or badly closed quote |
| SdsBalance.AcceptedLineReadsAs | src/sds.cpp:1042-1150 | every accepted line is made of blanks and forms that read as the arguments returned |
| SdsEscapes.ReprIsPrintable | src/sds.cpp:967-990 | every byte of the quoted form is a printable character, and it begins and ends with a quote |
| SdsEscapes.EscapeTable | src/sds.cpp:967-990 | how each of the 256 bytes is written |
| SdsEscapes.HexEscapeReadsAs | src/sds.cpp:1060-1069 | a hexadecimal escape with digits of either case reads as its byte |
| SdsEscapes.EscapeReadsAs | src/sds.cpp:1070-1082 | every other escape reads as the control character of its letter or as the byte itself |
| SdsEscapes.BetweenWords | src/sds.cpp:1110-1127 | exactly four bytes separate two words |
| SdsEscapes.BeforeWord | src/sds.cpp:1050 | exactly the six blanks are skipped before an argument |
| SdsEscapes.AfterQuote | src/sds.cpp:1083-1102 | exactly the six blanks may follow a closing quote of either kind |
| SdsFormat.CatRaw | src/sds.cpp:613-621 | copies bytes behind the end and advances the length, within the capacity |
| SdsFormat.PutByte | src/sds.cpp:652-661 | a byte stored without looking for room goes behind the end, when the room has been made |
| SdsFormat.CatTurn | src/sds.cpp:596-663 | one turn of the loop keeps what is appended and what the rest renders as equal to the whole |
| SdsFormat.CatVFmt | src/sds.cpp:584-669 | appends exactly the rendering of the format and terminates; plain bytes fit the room made at the top of the loop |
| SdsFormat.PlainFormat | src/sds.cpp:657-662 | a format without directives renders as itself |
| SdsFormat.FormatsCompose | src/sds.cpp:584-669 | the rendering of two formats in a row is the two renderings in a row |
| SdsDirectives.StringDirectives | src/sds.cpp:606-617 | %s and %S render the bytes they are given |
| SdsDirectives.SignedDirectives | src/sds.cpp:618-634 | %i and %I render every value of their types as its decimal text, which reads back as the value |
| SdsDirectives.UnsignedDirectives | src/sds.cpp:635-651 | %u and %U render every value of their types as its decimal text, which reads back as the value |
| SdsDirectives.OtherDirectives | src/sds.cpp:652-661 | %% renders a percent sign, any other byte after one renders itself, and so does a plain byte |
| SdsDirectives.PiecesRender | src/sds.cpp:584-669 | the rendering of a format made of directives and plain bytes is their texts one after another |
| SdsDirectives.EveryFormatHasPieces | src/sds.cpp:584-669 | every format the formatter accepts is made of such pieces, so its rendering is determined |
| RegexSyntax.SomewhereIsAtSomeHead | deps/googletest/googletest/src/gtest-port.cc:799-818 | matching a substring is matching at the head of some suffix |
| RegexSyntax.HeadMatchesFirst | deps/googletest/googletest/src/gtest-port.cc:768-797 | a match at the head splits at the end of the first item |
| RegexParse.ValidateRegex | deps/googletest/googletest/src/gtest-port.cc:681-735 | the scan accepts exactly the valid texts |
| RegexParse.ParsePrints | deps/googletest/googletest/src/gtest-port.cc:681-735 | parsing a valid text gives a well-formed expression that prints as the text |
| RegexParse.PrintParses | deps/googletest/googletest/src/gtest-port.cc:681-735 | printing a well-formed expression gives a valid text that parses back to it |
| RegexParse.ValidIffPrinted | deps/googletest/googletest/src/gtest-port.cc:681-735 | the valid texts are exactly the printed forms |
| RegexValidity.ValidExactlyWhen | deps/googletest/googletest/src/gtest-port.cc:681-735 | a text is valid exactly when every character stands where it may, an odd number of backslashes before it deciding whether it is escaped: only listed characters are escaped, none of ()[]{}| stands unescaped, anchors stand at the ends, and repeats follow something repeatable |
| RegexMatch.MatchRepetitionAndRegexAtHead | deps/googletest/googletest/src/gtest-port.cc:737-766 | decides whether the repeated atom and the rest match at the head |
| RegexMatch.MatchRegexAtHead | deps/googletest/googletest/src/gtest-port.cc:768-797 | decides whether some prefix is in the language, with the end anchor; the mutual recursion terminates |
| RegexMatch.MatchRegexAnywhere | deps/googletest/googletest/src/gtest-port.cc:799-820 | true exactly when some substring, under the anchors, is in the language of the expression |
| RegexMeaning.PlainCharacter | deps/googletest/googletest/src/gtest-port.cc:627-671 | a plain character stands for itself and a dot for every character but a newline |
| RegexMeaning.DigitClass | deps/googletest/googletest/src/gtest-port.cc:627-671 | the escape d stands for the ten digits |
| RegexMeaning.BlankClass | deps/googletest/googletest/src/gtest-port.cc:627-671 | the escape s stands for the six blanks |
| RegexMeaning.WordClass | deps/googletest/googletest/src/gtest-port.cc:627-671 | the escape w stands for letters, digits and the underscore |
| RegexMeaning.NoDigitClass | deps/googletest/googletest/src/gtest-port.cc:627-671 | the escape D stands for what d does not |
| RegexMeaning.NoBlankClass | deps/googletest/googletest/src/gtest-port.cc:627-671 | the escape S stands for what s does not |
| RegexMeaning.NoWordClass | deps/googletest/googletest/src/gtest-port.cc:627-671 | the escape W stands for what w does not |
| RegexMeaning.ControlCharacter | deps/googletest/googletest/src/gtest-port.cc:627-671 | the escapes f, n, r, t and v stand for one control character each |
| RegexMeaning.Punctuation | deps/googletest/googletest/src/gtest-port.cc:627-671 | an escaped punctuation mark stands for itself |
| RegexMeaning.Repeats | deps/googletest/googletest/src/gtest-port.cc:737-766 | how many characters, all taken by the atom, a string has that matches an atom alone, or with each of the repeats |
| RegexMeaning.PlusIsOnceThenStar | deps/googletest/googletest/src/gtest-port.cc:737-766 | before anything, x+ is x and then x* |
| RegexMeaning.ItemsCompose | deps/googletest/googletest/src/gtest-port.cc:768-797 | items one after another match strings one after another |
| RegexMeaning.Anchors | deps/googletest/googletest/src/gtest-port.cc:768-820 | what a text matches without anchors, with either, and with both |
| RegexFullMatch.FullPatternParses | deps/googletest/googletest/src/gtest-port.cc:841-872 | what the wrapped pattern parses to, including the anchor that is left off |
| RegexFullMatch.RE.constructor | deps/googletest/googletest/src/gtest-port.cc:841-872 | validity and the wrapped pattern of a new expression |
| RegexFullMatch.RE.FullMatch | deps/googletest/googletest/src/gtest-port.cc:828-832 | accepts exactly the words, or, after a literal final dollar sign, everything that begins with a word |
| RegexFullMatch.RE.PartialMatch | deps/googletest/googletest/src/gtest-port.cc:834-838 | true exactly when the expression is valid and matches somewhere |
| RegexFullMatch.FullMatchExactlyWhen | deps/googletest/googletest/src/gtest-port.cc:828-872 | whole-string matching is right for all strings if and only if the text does not end in an escaped dollar sign |
| ReplyQueue.Connection.WriteToSocket | src/connection.cpp:153-170 | what a write sends, what it returns, and when it closes the connection |
| ReplyQueue.RaftNode.WriteHandler | src/connection.cpp:225-243 | the loop leaves the queue, the offset and the connection as specified, for every list of answers |
| ReplyQueue.TurnDelivers | src/connection.cpp:226-242 | one turn sends exactly what it takes off the queue |
| ReplyQueue.EveryRunDelivers | src/connection.cpp:225-243 | in every interleaving the bytes sent are the replies gone and the written part of the next, and the queue is the rest in order |
| ReplyQueue.NoByteLost | src/connection.cpp:225-243 | bytes sent and then the unsent bytes are all bytes ever enqueued |
| ReplyQueue.WillingPeer | src/connection.cpp:163-167 | a peer that takes everything gets the replies up to the first empty one, which closes the connection |
| ReplyQueue.WholeQueueExactlyWhen | src/connection.cpp:163-167 | one call delivers a whole queue and keeps the connection if and only if no reply is empty |
| ReplyQueue.ClosedForever | src/connection.cpp:156-163 | a closed connection sends nothing more in any continuation |
| ReplyQueue.OpenExactlyWhen | src/connection.cpp:153-170 | in every history the connection is open exactly when no write on it has failed or taken nothing, and the bytes sent are those the writes were answered |
| ReplyQueue.BusyChangesNothing | src/connection.cpp:156-159 | a handler call that is asked to try again changes nothing |
| ReplyQueue.BusyThenWilling | src/connection.cpp:225-243 | after any number of such calls a willing peer still gets the whole queue, if no reply is empty |

## Left out

- Matching: `MatchMatrix::NextGraph`, `Randomize`, the listener messages and the other matchers; vectors of `size_t` with an all-ones marker are arrays of integers with a marker of -1.
- Logger, disk: `durable` counts what a flush or a close has confirmed; that the stdio buffer may spill earlier is not modelled, nor is whether a file's header reaches the disk. File names, the clock, symbolic links and page-cache advice are not modelled.
- Logger, free list: `deallocate` takes no lock in the code although `allocate` does; here both are atomic steps.
- Logger, settings: the file size limit is fixed for a run (`setFileRotateSize` is not modelled); the log levels may change at any time.
- Logger, notice: the text about missed logs is never written, because an inner variable hides the length that the write is guarded by; only the counter is modelled.
- Logger, text: formatting into the buffer is one step that stores an arbitrary text; `maxlen` is uninitialised in the code, so its bounds are not modelled.
- Logger, time: the fixed pauses and the ten-second timeout are steps that may happen at any time. Fairness of the scheduler is not modelled; `ReleaseExactlyWhen` says when a way out exists.
- Decimal: the two-digit table is the formula of its bytes, and negating the smallest value is taken to give its magnitude as two's complement does.
- Strings, memory: allocation always succeeds and sizes stay within 64 bits (`Allocatable`). The header is a set of fields and not bytes in front of the buffer; `realloc` and `malloc` with copy are both a fresh buffer. Bytes to append are values, so appending a string to itself after reallocation is not modelled.
- SdsString.Sds.IncrLen: what happens when the source's assertion fails is not modelled.
- SdsFormat.CatVFmt: requires a format without NUL, as a C string is, that does not end in a lone percent sign, where the source reads past the terminator, and that the arguments have the types the directives read, as C demands of the caller.
- SdsArgs.CatRepr: printable bytes and white space are those of the C locale.
- Strings, other: the general `printf`-style formatter, trimming, ranges, comparison and case mapping, which would add easy members.
- Regular expressions: the variant on POSIX regular expressions and the texts of the error messages; a string is no longer than a `size_t` count can walk (`MAX_COUNT`), which the source also demands.
- Replies: nothing in the repository puts replies in the queue, so `Enqueue` is the queue's own push. Connecting, reading and the event loop are not modelled; lengths stay within `int`; a system call never takes more than it was offered.
- The Raft handlers in `src/connection.cpp` and `src/raftLog.cpp`: they are stubs that record no vote and touch no log.
- `src/slice.cpp`, a thin wrapper over strings, and the rest of googletest.
