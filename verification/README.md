# Pathway engine: verified models

Pathway is a streaming engine. Connectors read a source, write a log of row events and time marks, and feed an input
session; after a crash the log is cut at a finalised time and replayed, the source is put back to the stored frontier, and
reading goes on. Tables flow through relational operators over signed diffs and leave through sinks and exports. This
project models that logic in Dafny and proves what it is for: exactly-once recovery over runs with any number of crashes,
readers whose changes add up to their source, joins and forgetting that mean what they say, a sink that converges under any
delivery order, and the smaller algorithms around them.

`dafny verify dfyconfig.toml` checks everything.

## How it is built

State that the engine updates in place is a class whose methods are proved equal to a step function on values; whole runs
are sequences of such steps, and the theorems speak about every run.

| module | what it holds |
|---|---|
| `Offsets`, `SnapshotLog`, `Connector` | frontier merging; the snapshot reader, cut and rewind; the poller with its session, log and clock |
| `LogInvariant`, `Recovery`, `RecoveryLimits` | marks that summarise the log; the crash machine and exactly-once delivery; where delivery fails, and exactly when |
| `KafkaReader`, `FileReader`, `FileContents`, `FileAtomicity`, `ScannerSeek`, `SqliteReader` | readers and scanners, their net contents, atomic versions, and seeking |
| `SnapshotStores`, `SnapshotUploader` | local and S3 stores with truncation; the writer and its background uploader |
| `SnapshotRestart`, `RecoveryStores` | stores over any number of starts; when a store holds the log of the crash machine |
| `Collections`, `Join`, `Forgetting`, `AsOfNowJoins` | signed collections, the six join types, forgetting by time parity, and joins between forgetting and filtering |
| `PsqlSnapshot`, `PsqlTable` | the snapshot formatter and the table that its upserts maintain |
| `PathTree`, `ExportedTable`, `TupleOrder`, `Expressions` | nested column properties, exported snapshots, tuple comparison, argument compression |
| `Values`, `Sorting` | values, wrappers, unstable sorting |

## Assumptions

- `OffsetAntichain` is a map, and advancing an offset overwrites one key.
- Hashes (row keys, offset hashes, file path hashes) do not collide. Keys are derived before rows reach the model.
- Names taken from the clock are distinct and grow in the order in which they are taken, uploads succeed, and files do not
  change while they are being read. The first upload of an S3 writer takes its name when the writer is created, which may be
  before the cut renames the part it keeps.
- The recovery theorems speak of one log: what was kept, followed by what is written next. Over every run local files hold
  that log (`LocalStoreFollowsRun`). S3 objects hold it over every run in which the uploads are named behind the renamed
  parts (`S3StoreFollowsRun`), and within one start exactly when what was uploaded before the rename commutes with the
  renamed part (`S3DurableIff`).
- A source in the recovery theorems has injective offsets per key, resumes right behind the offset it is given (for Kafka
  and for files `LazySeekResumes` and `FileSeekResumes` say when), yields rows of the declared width, and puts a time advancement before the rows of an entry. The file, S3 and Kafka parsers only ever
  emit a time advancement alone (pathway-0.13.0/src/connectors/data_format.rs:577, 618, 752, 1363, 1451).
- One worker and one log per connector in the crash machine; `MergedSummarisesIff` says when the frontiers of several logs
  may be merged. A torn last event of a log counts as its end. The clock is read once per entry.
- Any time may be finalised at any moment. The finalised time is stored after the writers were flushed.
- Differential operators (`join_core`, `reduce`, `distinct`) have their collection meaning, and the order of values is a
  total order.
- Primary key columns of a PostgreSQL table are unique together and not null, and there is at least one key column and one
  value column; without one of them the emitted statement is not valid SQL.

## Findings

Where a desirable property is false of the code, the model keeps the code and states exactly when the property holds.

- Rows with the wrong number of columns are logged before they are rejected, so a replay feeds what the session was never
  given (`ReplayMatchesFeedIff`).
- A crash is harmless if and only if a mark on disk reaches the finalised time, or nothing was finalised, or no row on disk
  lies behind the last mark (`CrashExactIffSafe`). While the finalised time is beyond every mark, as after everything was
  finalised, a further row is replayed and read again (`RowsBeyondMarksAreDuplicated`, `DuplicationIsReachable`). Sinks that
  only finalise times which the input has reached stay clear of this until everything is finalised
  (`ExactlyOnceForReachedTimes`), and so does an input that has ended once some time was finalised after its end, whatever
  that and all later times are (`EndedInputIsSafe`).
- Replayed stamps that go back, or a clock behind one of them, make the session panic (`TimeParity`). A start whose clock is
  behind, when no stamp is replayed, writes a log whose cut loses rows (`ClockBehindLosesRows`); a cut is exact if and only if
  no mark below the finalised time is followed by a row behind the cut (`ExactCutIff`).
- On S3 the first upload of a start may be named before the part that the cut renames. New events are then read before the
  kept ones, and the next cut can drop the kept rows (`S3ContinuesIff`, `S3DurableIffNothingEarly`, `KeptRowsLost`).
- A whole-file reader repeats an empty copy of the entry it was sought to (`SeekResumes`), and a file that changes after a
  seek trips an `expect` because the metadata cache is not restored (`ChangeAfterSeekPanics`).
- The lazy Kafka seek cannot go back: it resumes exactly if the consumer did not start beyond the stored offset
  (`LazySeekResumes`).
- Merging frontiers is associative if and only if under no key an offset of another kind stands between two comparable ones
  of which the last is greater (`MergedAssociatesIff`, `MixedKindsBreakAssociativity`).
- As-of-now joins accept queries that are taken back, but taking one back undoes its answer only in part. Nothing is left
  behind if and only if: in an inner join the query had the same partners when it came and when it went; in a left join,
  and in an inner join that keeps query ids, it had none at either time; in a left join that keeps query ids, never
  (`TakenBackIff`, `NothingLeftIff`, with `RetractedQuery` as a witness). With query ids a query that is taken back inserts
  an error row if and only if it has a partner or is padded (`RetractedUnderId`), and one that is replaced is answered by an
  error row (`ReplacedQuery`). For queries that are only added every answer is a row of the join (`AsOfNowAnswers`).
- A file that is rewritten within one modification second goes unnoticed: an idle reader has the current directory if and
  only if every file still has the contents that were read (`IdleMeansCurrent`).
- The sink converges for diffs of plus and minus one, and for others only under the condition of `ConvergesIff`.
- Integers that are not exact as floats break the transitivity of tuple comparison where they meet floats
  (`ComparisonTransitive`, `TransitiveOnlyIfExact`).
- A column path strictly above another hides it in the property tree (`FromPaths`, `AllReadBackIff`).
- A compressed argument list panics where the explicit one reports an index error (`CompressionExactIff`).

## Model

| member | source | states |
|---|---|---|
| Offsets.MergeTwoFrontiers | pathway-0.13.0/src/connectors/data_storage.rs:312-368 | the pass over the right frontier yields the per-key, left-biased maximum, whatever order the map is walked in |
| Offsets.MergedIsLeastUpperBound | pathway-0.13.0/src/connectors/data_storage.rs:312-368 | over equal offset kinds the merge is the least upper bound of both frontiers, idempotent, with the empty frontier neutral |
| Offsets.MergedAssociatesIff | pathway-0.13.0/src/connectors/data_storage.rs:312-368 | for any three frontiers the grouping does not matter if and only if under no key the outer two offsets are of one kind, the middle one of another, and the last above the first |
| Offsets.MergedAssociative | pathway-0.13.0/src/connectors/data_storage.rs:312-368 | so over equal kinds merging is associative |
| Offsets.MixedKindsBreakAssociativity | pathway-0.13.0/src/connectors/data_storage.rs:357-362 | a witness: with an incomparable offset in between, the grouping of merges decides the outcome |
| Offsets.MergedCommutesIff | pathway-0.13.0/src/connectors/data_storage.rs:312-368 | merging commutes if and only if shared keys of equal rank or different kinds hold equal offsets |
| Offsets.MergedAllIsMaximum | pathway-0.13.0/src/connectors/mod.rs:258-287 | the fold over all snapshot readers is the per-key maximum, the earliest reader winning among equals |
| SnapshotLog.SnapshotReader.Read | pathway-0.13.0/src/connectors/snapshot.rs:611-632 | each call hands out the next event and tracks the last frontier; at the mark that reaches the threshold it reports the end and cuts the log right behind that mark |
| SnapshotLog.Rewind | pathway-0.13.0/src/connectors/mod.rs:215-256 | the rewind sends exactly the replayed events in the chosen mode and leaves the kept log on disk |
| SnapshotLog.ReadFrontier | pathway-0.13.0/src/connectors/mod.rs:258-287 | reading a snapshot to its end yields the frontier of the cutting mark, or of the last mark |
| SnapshotLog.FrontierFor | pathway-0.13.0/src/connectors/mod.rs:258-287 | the frontier for a source is the merge of the frontiers of all its snapshots |
| SnapshotLog.KeptReadsTheSame | pathway-0.13.0/src/connectors/snapshot.rs:611-632 | truncating is idempotent and changes neither a later replay nor the frontier it restores |
| SnapshotLog.ExactCutIff | pathway-0.13.0/src/connectors/snapshot.rs:582-633 | on any log that starts with a mark and for any threshold, exactly the rows of logical times below the threshold are replayed if and only if there is no cut, or behind it no mark below the threshold is followed by a row before the next mark |
| SnapshotLog.ExactCut | pathway-0.13.0/src/connectors/snapshot.rs:582-633 | so with non-decreasing stamps and a mark that reaches the threshold the cut is exact, and the frontier is that of the cutting mark |
| Connector.Poller.AdvanceTimeAndLog | pathway-0.13.0/src/connectors/mod.rs:196-213 | advancing takes the larger of the even clock and the current time, moves the session to it and logs a mark with the current frontier; a session that is already later panics and logs nothing |
| Connector.Poller.OnParsedData | pathway-0.13.0/src/connectors/mod.rs:739-832 | the loop over parsed events logs, checks the width and feeds, event by event, as the step function says |
| Connector.Poller.HandleInputEntry | pathway-0.13.0/src/connectors/mod.rs:558-662 | every kind of entry moves log, frontier, session and commit permission by exactly one step |
| Connector.Poller.Poll | pathway-0.13.0/src/connectors/mod.rs:466-549 | one call fires the due timer and drains the channel up to the batch limit, a yield or the end, and the state is the run of exactly those steps |
| Connector.TimeParity | pathway-0.13.0/src/connectors/mod.rs:196-213 | in every run session times are even and never decrease, and the run panics if and only if the replayed stamps go back or the clock at the end of the rewind is behind one of them |
| Connector.SourceAtomicity | pathway-0.13.0/src/connectors/mod.rs:475-497 | from the start of a source to the next permission to commit, whatever timers fire, everything fed carries one session time |
| LogInvariant.EntryHandled | pathway-0.13.0/src/connectors/mod.rs:739-832 | handling an entry appends its rows to log and session alike and keeps every logged frontier a summary of the rows before it |
| LogInvariant.RestoredSummarises | pathway-0.13.0/src/connectors/mod.rs:258-287 | if the log is cut or has no row behind its last mark, the restored frontier stands, key by key, for exactly the kept rows |
| LogInvariant.TailNotSummarised | pathway-0.13.0/src/connectors/mod.rs:258-287 | with rows behind the last mark and no cut, some key's restored offset stands for fewer rows than are replayed |
| LogInvariant.RestartOutcome | pathway-0.13.0/src/connectors/mod.rs:215-256 | a connector restarted on any log mirrors the kept rows in its session and adds one mark with the restored frontier, or panics |
| LogInvariant.MergedSummarisesIff | pathway-0.13.0/src/connectors/mod.rs:258-287 | the merged frontier of two logs of one source stands for the rows of both together if and only if no row of any key lies before both of their positions |
| Recovery.ExactlyOnceRecovery | pathway-0.13.0/src/connectors/mod.rs:215-367 | over every run with any number of safe crashes, lost tails, interleavings and finalised times, the session was given per key exactly the rows of an uninterrupted read, in order |
| Recovery.CrashExactIffSafe | pathway-0.13.0/src/connectors/mod.rs:215-367 | after any run of safe crashes, a crash with any finalised time preserves exactly-once delivery if and only if a mark on disk reaches that time, nothing was finalised, or no row on disk lies behind the last mark |
| Recovery.CrashOfLogExactIffSafe | pathway-0.13.0/src/connectors/mod.rs:215-367 | the same for any state whose log is truthful, however it was reached |
| Recovery.ExactlyOnceForReachedTimes | pathway-0.13.0/src/persistence/tracker.rs:117-142 | if sinks only finalise times that the session has reached, and no row is left behind the last mark when a crash follows the end of everything, every run is exactly-once |
| Recovery.EndedInputIsSafe | pathway-0.13.0/src/persistence/tracker.rs:117-142 | after any run of safe crashes, if the input ends and times are finalised, however many and whichever, the next crash is safe |
| Recovery.SameAsUninterrupted | pathway-0.13.0/src/connectors/mod.rs:289-367 | a run with crashes and one without that stand at the same source position gave their sessions the same rows of that key |
| RecoveryLimits.RowsBeyondMarksAreDuplicated | pathway-0.13.0/src/connectors/mod.rs:215-367 | after any run of safe crashes, while the finalised time is beyond every mark, a further row followed by a crash is not delivered exactly once |
| RecoveryLimits.DuplicationIsReachable | pathway-0.13.0/src/connectors/mod.rs:558-662 | a whole run that ends so: end the input, finalise everything, start again, read a row, crash |
| RecoveryLimits.ReplayMatchesFeedIff | pathway-0.13.0/src/connectors/mod.rs:780-798 | a replay reproduces what the session was given if and only if every row has the declared width |
| RecoveryLimits.EveryCutIsExact | pathway-0.13.0/src/connectors/snapshot.rs:582-633 | in every reachable state, with restart clocks not behind the stamps, a crash with any tail lost replays exactly the rows of logical times below the finalised time |
| RecoveryLimits.ClockBehindLosesRows | pathway-0.13.0/src/connectors/mod.rs:215-256 | a reachable log whose cut loses a row: finalise a time, start again with a clock behind it, read a row |
| KafkaReader.Reader.Seek | pathway-0.13.0/src/connectors/data_storage.rs:737-768 | seeking remembers the stored offset of every partition of the topic and ignores all other entries of the frontier |
| KafkaReader.Reader.OnMessage | pathway-0.13.0/src/connectors/data_storage.rs:696-735 | a message behind the remembered offset is delivered and the offset forgotten; one at or before it sends the consumer right behind the offset and is dropped |
| KafkaReader.LazySeekResumes | pathway-0.13.0/src/connectors/data_storage.rs:695-768 | in every interleaving of partitions each one is delivered without gap or repetition, beginning right behind the stored offset if and only if the consumer did not start beyond it |
| SnapshotStores.LocalReader.Read | pathway-0.13.0/src/connectors/snapshot.rs:117-147 | the read loop over files returns the next event and moves to the next file when one is used up |
| SnapshotStores.LocalReader.Truncate | pathway-0.13.0/src/connectors/snapshot.rs:149-169 | shrinking the open file and deleting the later ones leaves a store that holds exactly the events read so far |
| SnapshotStores.S3Reader.Read | pathway-0.13.0/src/connectors/snapshot.rs:345-391 | the read loop over objects returns the next event and counts the events taken from the current object |
| SnapshotStores.S3Reader.Truncate | pathway-0.13.0/src/connectors/snapshot.rs:393-451 | rewriting the read part under a fresh name and deleting the originals leaves exactly the events read so far, in order: the earlier objects under their names, and the rewritten part under the fresh one |
| SnapshotStores.CopyPrefix | pathway-0.13.0/src/connectors/snapshot.rs:393-451 | copying in chunks of bounded length concatenates to the prefix |
| SnapshotStores.AdvancedReads | pathway-0.13.0/src/connectors/snapshot.rs:117-147 | a read extends what was read by the event it returns, and returns none exactly when everything was read |
| SnapshotStores.FreshReadReturns | pathway-0.13.0/src/connectors/snapshot.rs:117-147 | the n-th read of a fresh reader returns the n-th event of the store, then none |
| SnapshotStores.TruncateLocalAndReread | pathway-0.13.0/src/connectors/snapshot.rs:116-169 | reading n events, truncating and reading afresh gives back the first n events and then the end |
| SnapshotRestart.CutLocal | pathway-0.13.0/src/connectors/snapshot.rs:611-632 | a start on local files leaves exactly the kept log of the threshold, under old names only |
| SnapshotRestart.CutS3 | pathway-0.13.0/src/connectors/snapshot.rs:393-451 | a start on S3 leaves exactly the kept log, the last part of it under the fresh name |
| SnapshotRestart.LocalContinues | pathway-0.13.0/src/connectors/snapshot.rs:188-206 | a file named behind the others adds its events behind theirs |
| SnapshotRestart.LocalStarts | pathway-0.13.0/src/connectors/snapshot.rs:117-206 | over any number of starts, each with its cut and its own events, the local store holds the kept log of each cut followed by the events added next |
| SnapshotRestart.S3Starts | pathway-0.13.0/src/connectors/snapshot.rs:345-513 | the same of S3 over any number of starts whose uploads are named behind the renamed part |
| SnapshotRestart.S3ContinuesIff | pathway-0.13.0/src/connectors/snapshot.rs:393-513 | a fresh reader returns the kept events and then the new ones if and only if the events of the uploads named before the renamed part commute with it |
| SnapshotRestart.S3ContinuesIffNamedBehind | pathway-0.13.0/src/connectors/snapshot.rs:393-513 | for a first upload and a renamed part that begin differently this holds if and only if the upload is named behind the part |
| SnapshotRestart.KeptRowsLost | pathway-0.13.0/src/connectors/mod.rs:427-458 | two starts on S3, the first upload named before the rename: the second cut leaves the new events only, and the kept rows are gone |
| RecoveryStores.StartsGiveLog | pathway-0.13.0/src/connectors/mod.rs:215-256 | for every enabled run, the starts read off its steps, with the finalised times they found and the events that survived them, give exactly the log that the recovery machine has on disk |
| RecoveryStores.LocalStoreFollowsRun | pathway-0.13.0/src/connectors/snapshot.rs:117-206 | over every run with any number of crashes and cuts, local files hold exactly what the recovery machine has on disk, for every part of the last events that was written |
| RecoveryStores.S3DurableIff | pathway-0.13.0/src/connectors/snapshot.rs:480-513 | in every run of writer and uploader the S3 store holds the kept log followed by everything flushed if and only if the events uploaded under names before the renamed part, however many objects that are, commute with it |
| RecoveryStores.S3DurableIffNothingEarly | pathway-0.13.0/src/connectors/snapshot.rs:480-513 | if these begin with another event than the renamed part, this holds if and only if there are none |
| RecoveryStores.S3StoreFollowsRun | pathway-0.13.0/src/connectors/snapshot.rs:345-513 | over every run of the recovery machine, with any interleaving of writer and uploader in each start and uploads named behind the renamed parts, the S3 objects hold exactly what the machine has on disk |
| SnapshotUploader.S3SnapshotWriter.WriteEvent | pathway-0.13.0/src/connectors/snapshot.rs:517-525 | an event joins the current chunk, and a full chunk is queued |
| SnapshotUploader.S3SnapshotWriter.FlushEvents | pathway-0.13.0/src/connectors/snapshot.rs:527-540 | the current chunk and then a flush request are queued |
| SnapshotUploader.S3SnapshotWriter.Upload | pathway-0.13.0/src/connectors/snapshot.rs:481-513 | one turn of the uploader takes the head of the queue: a chunk becomes a part, a flush finalises the object and resolves |
| SnapshotUploader.NothingLost | pathway-0.13.0/src/connectors/snapshot.rs:480-541 | in every interleaving finalised objects, upload, queue and current chunk together are all events written in order, and the finalised ones are exactly those of the last resolved flush |
| SnapshotUploader.ResolvedFlushIsDurable | pathway-0.13.0/src/connectors/snapshot.rs:480-541 | at the step that resolves a flush the finalised objects hold exactly the events written before that flush |
| FileReader.NextDeletionEntry | pathway-0.13.0/src/connectors/data_storage.rs:1020-1071 | the loop over known files picks the least path whose file is gone or has a new modification second |
| FileReader.NextInsertionEntry | pathway-0.13.0/src/connectors/data_storage.rs:1110-1137 | the loop over the directory picks the unknown file of least modification time and path |
| FileReader.FilesystemReader.NextActionDetermined | pathway-0.13.0/src/connectors/data_storage.rs:981-1018 | planned insertions first, then retractions, then new files; state and result follow the step relation |
| FileReader.FilesystemReader.Read | pathway-0.13.0/src/connectors/data_storage.rs:595-658 | one call reads an entry, reports the end of a source with or without permission to commit, or starts the next action |
| FileContents.NetContents | pathway-0.13.0/src/connectors/data_storage.rs:595-658 | in every run the expectation on cached metadata never fails, each retraction removes a present row with the same path, offset, bytes and metadata, and with no file open the changes net to the rows of the recorded versions |
| FileContents.IdleMeansCurrent | pathway-0.13.0/src/connectors/data_storage.rs:981-1137 | in every run, when the reader finds nothing to do, it knows exactly the files of the directory with their modification seconds, and the changes net to the current rows if and only if every file still has the contents that were read |
| FileContents.PanicIff | pathway-0.13.0/src/connectors/data_storage.rs:1020-1071 | the expectation fails exactly when the file due for retraction has no cached metadata |
| FileAtomicity.OneTimeUntilWhole | pathway-0.13.0/src/connectors/mod.rs:475-497 | while versions are partly sent the session time stands still, whatever timers fire |
| FileAtomicity.CommitsSeeWholeVersions | pathway-0.13.0/src/connectors/mod.rs:572-599 | whenever the session time moves, the rows sent so far are whole recorded versions of files |
| ScannerSeek.SeekToFile | pathway-0.13.0/src/connectors/data_storage.rs:919-958 | the loop marks as known exactly the files at or before the sought one in modification time and path |
| ScannerSeek.SeekRestoresOrder | pathway-0.13.0/src/connectors/data_storage.rs:919-958 | the set after a seek is that of an uninterrupted run while the sought object is read, and the rest comes in the same order |
| ScannerSeek.StepEmitsNext | pathway-0.13.0/src/connectors/data_storage.rs:595-658 | over an unchanged directory each step emits the next entry of the remaining ones |
| ScannerSeek.SeekResumes | pathway-0.13.0/src/connectors/data_storage.rs:566-593 | after a seek exactly the entries behind the offset remain, if and only if files are read line by line |
| ScannerSeek.FileSeekResumes | pathway-0.13.0/src/connectors/data_storage.rs:566-593 | put to a stored frontier, the reader goes on at the position where recovery expects the source, if and only if files are read line by line or nothing was read before |
| ScannerSeek.ChangeAfterSeekPanics | pathway-0.13.0/src/connectors/data_storage.rs:919-958 | after a seek the expectation on cached metadata fails in exactly the directories where a known file changed |
| ScannerSeek.S3Scanner.StreamNextObject | pathway-0.13.0/src/connectors/data_storage.rs:1771-1813 | the next object is the unprocessed one of least modification time and key, and is marked as processed |
| ScannerSeek.S3Scanner.SeekToObject | pathway-0.13.0/src/connectors/data_storage.rs:1815-1857 | the processed objects are exactly those at or before the sought one |
| SqliteReader.CompareRows | pathway-0.13.0/src/connectors/data_storage.rs:2441-2514 | the updates queued for new and changed rows turn the stored table into its union with the result, deletes before inserts |
| SqliteReader.RetainPresent | pathway-0.13.0/src/connectors/data_storage.rs:2441-2514 | the updates queued for missing rows turn the stored table into its restriction to the present ones |
| SqliteReader.Reader.LoadTable | pathway-0.13.0/src/connectors/data_storage.rs:2441-2514 | after a load the stored table is the loaded one, the queued updates lead to it one by one from the old one, and they end with the mark of a finished source |
| SqliteReader.Reader.Read | pathway-0.13.0/src/connectors/data_storage.rs:2526-2542 | a read delivers the head of the queue, or loads the table and reports a new source when the version moved, or does nothing |
| SqliteReader.AppliedNets | pathway-0.13.0/src/connectors/data_storage.rs:2441-2514 | updates each of which finds its row present or absent as it must net to exactly the resulting table |
| SqliteReader.NetIsStored | pathway-0.13.0/src/connectors/data_storage.rs:2441-2542 | at any moment everything delivered and queued nets to the stored table |
| Collections.CountJoined | pathway-0.13.0/src/engine/dataflow.rs:2365-2368 | in a join of collections the multiplicities of records with equal keys multiply |
| Join.JoinRows | pathway-0.13.0/src/engine/dataflow.rs:2275-2520 | for all six types every matching pair appears once, every unmatched row of a kept side once padded, rows with an error in the condition included, and nothing else; no count is negative |
| Join.SignedJoinRows | pathway-0.13.0/src/engine/dataflow.rs:2275-2520 | for the four types that drop unmatched right rows, with any signed left collection, a matching pair has the multiplicity of its left row, and a padded row that of its left row less one if it is positive and matched |
| Join.ResultIdsDistinct | pathway-0.13.0/src/engine/dataflow.rs:2370-2486 | rows with the same new id, shard bits aside, are the same row |
| Join.CountReplaced | pathway-0.13.0/src/engine/dataflow.rs:897-915 | replacing duplicates leaves under each id exactly what the reduction makes of the values under that id |
| Join.LeftIdRows | pathway-0.13.0/src/engine/dataflow.rs:2495-2515 | under a left id stands its only match, an error row if and only if there are two or more, and without a match the padding in the full and nothing in the subset join |
| Join.OnlyLeftIds | pathway-0.13.0/src/engine/dataflow.rs:2370-2373 | joins that keep left ids have no other ids |
| Join.LeftKeysFullTotal | pathway-0.13.0/src/engine/dataflow.rs:2421-2515 | the full join has exactly one row for every left id |
| Join.SignedIdRows | pathway-0.13.0/src/engine/dataflow.rs:897-915 | with kept left ids and any signed left collection, under an id stands its only row if it occurs once, an error row with the left half of the least value if there are more rows or another multiplicity, and nothing without a row |
| Forgetting.ForgettingAccumulates | pathway-0.13.0/src/engine/dataflow.rs:3362-3388 | a forgetting stream accumulates to nothing at odd times and to just that time's changes at even ones |
| Forgetting.FilteringGivesBack | pathway-0.13.0/src/engine/dataflow.rs:3390-3407 | dropping odd times gives back the original stream |
| Forgetting.InputsCanBeForgotten | pathway-0.13.0/src/engine/dataflow.rs:3378-3380 | no run of a connector produces an input that trips the assertion on odd times |
| Forgetting.AsOfNow | pathway-0.13.0/src/engine/dataflow.rs:3362-3407 | an operator between forgetting and filtering gives at each even time its value on that time's queries and the other side as it then stood, and nothing later |
| AsOfNowJoins.AsOfNowJoin | pathway-0.13.0/python/pathway/stdlib/temporal/_asof_now_join.py:53-95 | inner and left joins, with new ids or those of the queries: any stream of queries, retractions included, is joined at each even time with the table of that time, and nothing is revised later |
| AsOfNowJoins.AsOfNowAnswers | pathway-0.13.0/python/pathway/stdlib/temporal/_asof_now_join.py:53-95 | queries that are only added are answered by exactly the rows of the join, with one error row for several matches where query ids are kept |
| AsOfNowJoins.TakenBackIff | pathway-0.13.0/python/pathway/stdlib/temporal/_asof_now_join.py:53-95 | what a query was given when it was added and what is taken back with it cancel if and only if, by join type, its partners are the same at both times, it has none at either, or never |
| AsOfNowJoins.NothingLeftIff | pathway-0.13.0/python/pathway/stdlib/temporal/_asof_now_join.py:53-95 | over whole streams: after a query was added at one time and taken back at a later one, nothing about it is left if and only if that condition holds of the table at the two times |
| AsOfNowJoins.RetractedUnderId | pathway-0.13.0/src/engine/dataflow.rs:897-915 | a query with a kept id that is taken back inserts one error row under its id if and only if it is padded or has a partner, and nothing else |
| AsOfNowJoins.ReplacedQuery | pathway-0.13.0/src/engine/dataflow.rs:897-915 | a query with a kept id that is replaced at one time is answered in the left join by exactly one error row |
| AsOfNowJoins.RetractedQuery | pathway-0.13.0/python/pathway/stdlib/temporal/_asof_now_join.py:53-95 | witnesses: a left join takes back the padded row of a query whatever it was given, and its current matches |
| PsqlSnapshot.NewFormatter | pathway-0.13.0/src/connectors/data_format.rs:1567-1602 | succeeds if and only if columns are distinct and keys are distinct columns, then splits all positions into increasing, disjoint key and value positions; otherwise names the first repeated column or unknown key |
| PsqlTable.ExecutedReplaces | pathway-0.13.0/src/connectors/data_format.rs:1605-1667 | an upsert replaces a conflicting row whole or leaves it alone, by time and diff |
| PsqlTable.ConvergesIff | pathway-0.13.0/src/connectors/data_format.rs:1638-1656 | every order and repetition leaves the change of greatest time and diff if and only if at the last time no diff but minus one is below another |
| PsqlTable.DeliveryOrderIrrelevant | pathway-0.13.0/src/connectors/data_format.rs:1638-1656 | with diffs of plus and minus one the stored table depends on neither order nor repetition |
| PsqlTable.CurrentTable | pathway-0.13.0/src/connectors/data_format.rs:1638-1656 | for the changes of any history the rows stored with diff one are exactly the current table |
| PathTree.ExtractProperties | pathway-0.13.0/src/engine/graph.rs:164-185 | the walk yields the subtree at the path, the empty properties for an id path, and an error where the path leaves the tree |
| PathTree.ProduceNestedTuple | pathway-0.13.0/src/engine/graph.rs:365-399 | the recursion over sorted slices stays within every path, terminates, and builds the tree of the paths |
| PathTree.TreeOkIff | pathway-0.13.0/src/engine/graph.rs:369-377 | a tree is produced if and only if prefix-related paths have equal properties |
| PathTree.TreeReadsBack | pathway-0.13.0/src/engine/graph.rs:364-413 | a path with no other above it reads back its properties |
| PathTree.AllReadBackIff | pathway-0.13.0/src/engine/graph.rs:364-413 | all paths read back their properties if and only if none is strictly above another |
| PathTree.TreeShape | pathway-0.13.0/src/engine/graph.rs:383-398 | everywhere else there are tables above paths, empty properties at skipped positions, and nothing more |
| PathTree.FromPaths | pathway-0.13.0/src/engine/graph.rs:364-413 | the above for any list of paths in any order, with an error for an id path |
| ExportedTable.Dedup | pathway-0.13.0/src/engine/graph.rs:619-626 | merging neighbours of a sorted list leaves each row once with its total |
| ExportedTable.SnapshotAt | pathway-0.13.0/src/engine/graph.rs:615-635 | panics if and only if some total before the frontier is neither 0 nor 1, otherwise returns exactly the rows of total 1 in increasing order without duplicates |
| ExportedTable.SnapshotUnique | pathway-0.13.0/src/engine/graph.rs:615-635 | the result depends neither on the order of the recorded diffs nor on that of equal rows in the sort |
| TupleOrder.CompareTuples | pathway-0.13.0/src/engine/expression.rs:451-489 | the loop gives the first difference, then the lengths, and an error if any pair is unsupported |
| TupleOrder.AreTuplesEqual | pathway-0.13.0/src/engine/expression.rs:424-449 | the loop gives the conjunction over all pairs and the lengths, and an error if any pair is unsupported |
| TupleOrder.SwapReverses | pathway-0.13.0/src/engine/expression.rs:451-489 | the swapped call succeeds with the reversed result and fails with the types exchanged |
| TupleOrder.EqualMeansEqual | pathway-0.13.0/src/engine/expression.rs:424-489 | where comparison succeeds so does equality, and it is true exactly when the comparison says equal |
| TupleOrder.ComparisonTransitive | pathway-0.13.0/src/engine/expression.rs:451-489 | when all three pairs can be compared and, where integers meet floats, the integers are exact as floats, comparison is transitive |
| TupleOrder.TransitiveOnlyIfExact | pathway-0.13.0/src/engine/expression.rs:456-459 | an integer, its float and the nearest exact integer fit together if and only if the integer is exact |
| TupleOrder.FirstInexact | pathway-0.13.0/src/engine/expression.rs:456-459 | all integers up to 2^53 in size are exact, and 2^53 + 1 is not |
| Expressions.MaybeArgumentSlice | pathway-0.13.0/src/engine/expression.rs:65-83 | a range is found exactly for non-empty lists of consecutive column references |
| Expressions.CompressionExactIff | pathway-0.13.0/src/engine/expression.rs:48-63 | a compressed list evaluates like the list if and only if the row covers its references, and panics otherwise |
| Expressions.BuiltEvaluatesTheSame | pathway-0.13.0/src/engine/expression.rs:48-93 | a whole tree with compressed lists evaluates like the tree as written, failures included, or panics, and never panics in its stead on a row that covers its references |

## Left out

- Python bindings, command line, HTTP, licensing, progress reporting and other operating system plumbing.
- Client calls to Kafka, S3, PostgreSQL, Elasticsearch, Delta Lake and SQLite: they are abstract logs, object stores and tables.
- Timely and differential internals, reducers, iteration, time-column operators and the other `Graph` operations.
- Byte-level encodings and text parsing: decoding is "next event, or the end", and parsing is a function of an entry.
- The persistence tracker and its backends beyond "flush, then store the finalised time"; several workers, whose crash would merge the frontiers of several logs as `MergedSummarisesIff` says.
- Upsert sessions' buffering, monitoring counters and error logs: they would only add easy members.
- Python and SQLite sources in the recovery theorem, because their `seek` does not reposition the source.
- File deletions combined with a filesystem seek, which the code itself warns about; `ChangeAfterSeekPanics` states what happens.
- The object cache and S3 metadata of scanners; CSV readers, which add a parser on top of the same scanner.
- Expression operators other than argument lists, conditionals and error filling are one operator that evaluates its operands in a fixed order; their arithmetic is not modelled.
- TransitiveOnlyIfExact: integers are unbounded, so for the last 512 integers below 2^63 the nearest exact integer of the statement does not fit into 64 bits.
- NewFormatter: the texts of the SQL statement are not modelled, only what executing it does.
