# Nexus: a verified model

Nexus serves one machine's files to several devices, streams its screen to a tablet and
moves app state between devices. This project models the parts of it whose correctness
depends on more than one function, and proves what those parts are for. `dafny verify
dfyconfig.toml` checks the whole project.

| file | what it models |
|---|---|
| `Clocks.dfy` | vector clocks: the comparison loop is the pointwise order, `merge` its least upper bound |
| `Host.dfy`, `HostAnswers.dfy`, `HostRuns.dfy` | the host's write, streaming write, delete and rename: step by step, what their answers mean, and over whole runs |
| `Protocol.dfy`, `Mount.dfy` | any number of mounts against one host, and the mount's callbacks with their write buffers |
| `Gc.dfy` | the garbage-collection sweep over clocks and tombstones |
| `Journal.dfy`, `Rekey.dfy`, `KeyOrder.dfy`, `Store.dfy` | the journaled map behind both stores: crashes at any byte, replay, subtree moves, prefix scans, compaction |
| `Batches.dfy` | calls of several journal lines that a crash cuts: when they are all-or-nothing, and what is lost when not |
| `TextEncoding.dfy` | UTF-8 (section 3 of RFC 3629) and which beginnings of an encoded text still read as text |
| `Transfer.dfy`, `ReadAhead.dfy` | cutting contents into chunks and putting them together again; the block buffer of the Android file provider |
| `Inodes.dfy` | the bounded inode table with its reverse index |
| `Video.dfy` | the encoder with its pending keyframe request, the host's send loop, the keyframe gate and the decoder, from one end to the other |
| `Limiter.dfy` | the rate limiter for pairing attempts |
| `Migrate.dfy` | importing an app snapshot: schema filter, conflict resolution, app merges |
| `DocIds.dfy` | document ids: parsing, printing, children and ancestors |
| `Runs.dfy`, `Basics.dfy`, `Octets.dfy` | runs of machines whose steps may be refused; small shared types |

The design is the same everywhere: an operation that updates state in place is a method
proved against a function on values, and the promises are lemmas about that function, over
all inputs and all runs. Where a promise does not hold of the code, a lemma gives the
input, and another says exactly when the code keeps the promise.

Findings about the code that the theorems make precise:

- A mount's flush can be answered STALE on a path that was only ever the *source* of a
  rename (`RenamedAwayFlushIsStale`): the renaming mount forgets its counter there while
  others keep it. One lost reply is enough as well (`LostReplyFlushIsStale`), since the mount
  stamps the next flush with a tick the host already has, and so is a conflict copy
  (`ConflictCopyFlushIsStale`), which carries ticks its writer never had under that name. A
  stale flush still marks the buffer clean. On paths without applied renames, conflict copies and lost replies a flush
  is never stale (`FlushOutcome`), so its data is kept (`FlushIsStored`); `StaleExactly`
  says for every path when it is.
- After any answer, also STALE and CONFLICT, a mount knows what the host knows of the path, so
  its next flush is applied unless another device gets in between (`NextFlushIsApplied`).
- A rename does not look at its destination (`crates/agent/src/host.rs:782-793`), so it can
  drop a live file under a clock that never saw it (`RenameOntoLiveFileLosesContent`), and
  the clock of another writer even when both files are equal (`RenameOntoEqualFileLosesClock`).
  `RenameKeepsContentExactly` is the condition, and `RunLosesNothingExactly` carries it, with
  that of conflict copies, over whole runs. ADR 0009 promises a conflict for a concurrent
  rename; the code answers RENAMED and keeps no copy (`crates/agent/src/host.rs:811-834`).
  The model follows the code.
- Conflict names have a time stamp of one second. Two conflicts of one writer name within a
  second share a name, and the second copy drops the first (`SharedConflictNameLosesCopy`,
  exactly when: `CopyKeepsContentExactly`). When the copy was deleted in between, its path is
  then both deleted and live (`ReusedConflictNameBreaks`, reached from empty stores; exactly
  when: `ExclusiveNeedsFreshName`).
- A crash that cuts a journal line inside a multi-byte character makes every later open
  fail, because the journal is read as text. A file whose name has an accent is enough
  (`AccentedKeyStops`). Every crash in a call can be reopened if and only if the keys and
  printed values of its lines are single-byte text (`CallReopensExactly`), and any number of
  such calls and crashes can (`PlainRunsReopen`).
- A torn batch can keep removals and lose the insertions that follow: a moved file can be
  under neither name after a crash (`CutMoveLosesValue`, exactly when: `ValueLostExactly`).
  `CallIsAtomicExactly`, `RemovalsAtomicExactly` and `MoveAtomicExactly` say which calls an
  open finds done or not begun; a call of one line is such a call (`OneLineIsAtomic`).
- `connect()` called after `setSurface()` starts a new connection without closing the
  keyframe gate; a decoder built in between can then be fed a delta of the new connection,
  although every connection requests a keyframe: the request is lost when its picture cannot
  be sent in, and late when the encoder still holds an older one (`UngatedReconnectBreaks`).
  `UngatedReconnectIsSafeExactly` says in which states such a reconnect is safe for all that
  follows.
- The limiter's bound per window length is `2 * max - 1`, and it is reached
  (`BoundIsReached`). Its lazy sweep cannot be told from sweeping on every call, even with
  the map full (`LazySweepIsUnobservable`).
- An import compares the clock the app reports with the stamp of the other SDK
  (`crates/migrate/src/lib.rs:367`), and throws the merged clock away
  (`crates/migrate/src/lib.rs:419-420`). So an SDK's clock only ever counts its own
  registrations and exports (`ClockIsOwnCounter`), exports of two devices are always
  concurrent (`ExportsOfTwoDevicesAreConcurrent`), and what an import does depends on the
  app's clock alone (`OrderAfterRun`). Apps that report an empty clock take what they are
  given as a whole: a key that only one device has is gone from it after an exchange
  (`ExchangeLosesUnsharedKey`). Two last-write-wins values change places (`ExchangeSwaps`).
  `ExchangeConvergesExactly` says when two devices agree after importing each other's exports.
- The comment in `crates/migrate/src/conflict.rs:16` says a dominating snapshot is taken
  wholesale; when the local one dominates, the code also adds remote-only keys.

Assumptions that run through the model: one key is one file; the host's handlers take
effect one at a time, as `write_lock` arranges; the random name of a temporary file is not
in use; a conflict copy does not take the name of a deleted path, where `HostRuns` speaks of
separation or of runs (`Allowed`); a journal line cut before its closing brace never parses,
and a value's printed form has no raw newline.

## Model

| member | source | states |
|---|---|---|
| Clocks.CompareClocks | crates/common/src/lib.rs:99-119 | the loop over both key lists returns the order of the two clocks |
| Clocks.CompareIsPointwise | crates/common/src/lib.rs:99-119 | the four answers are the four cases of the pointwise order over all devices, absent counters being zero |
| Clocks.MergeClocks | crates/common/src/lib.rs:121-128 | the loop computes the counterwise maximum |
| Clocks.MergeIsLeastUpperBound | crates/common/src/lib.rs:121-128 | the merge is above both clocks and below everything above both |
| Clocks.IncrementIsFresh | crates/common/src/lib.rs:95-97 | a stamped clock is at or below no clock without the new tick, and is above another exactly when it was before |
| Host.FileService.WriteFile | crates/agent/src/host.rs:345-475 | root refused; otherwise answer, disk, clocks and tombstones are those of the write decision on the effective clock |
| Host.FileService.WriteFileStream | crates/agent/src/host.rs:477-625 | a broken or empty stream changes nothing and leaves no temporary file; a complete one decides like a unary write of the joined chunks, against the host as other requests left it while the chunks arrived |
| Host.FileService.ReceiveChunks | crates/agent/src/host.rs:508-531 | the temporary file ends up with the joined chunks, or the stream broke and nothing else changed |
| Host.FileService.CommitStream | crates/agent/src/host.rs:533-624 | the temporary file is moved into place exactly when the answer is not STALE, and then the state is that of the write decision |
| Host.FileService.DropTemp | crates/agent/src/host.rs:105-111 | an uncommitted temporary file is removed, a committed one is left where it was moved |
| Host.FileService.DeleteFile | crates/agent/src/host.rs:627-709 | tombstone re-delete, missing file, stale, concurrent and clean delete, each with its state and answer |
| Host.FileService.RenameFile | crates/agent/src/host.rs:711-836 | resurrecting, missing, stale and applied renames, each with its state and answer |
| HostAnswers.WriteVerdictExactly | crates/agent/src/host.rs:373-474 | a write is APPLIED, STALE or a CONFLICT exactly when the writer's clock covers what the host knows, is strictly covered by it, or neither; a conflict path is named exactly beside a live file |
| HostAnswers.WriteTeaches | crates/agent/src/host.rs:373-474 | whatever the verdict the answer's clock is what the host knows of the path afterwards, which includes all it knew before, and is the join with the writer's clock when the data became the file |
| HostAnswers.WriteStores | crates/agent/src/host.rs:373-474 | the data is nowhere after STALE, and otherwise at the conflict path under the writer's clock or at the path under the answer's; nothing else changes |
| HostAnswers.DeleteVerdictExactly | crates/agent/src/host.rs:627-709 | each verdict of a delete, by tombstone, file and the order of the clocks |
| HostAnswers.DeleteTeaches | crates/agent/src/host.rs:627-709 | the answer's clock is what the host knows of the path afterwards |
| HostAnswers.DeleteLeaves | crates/agent/src/host.rs:627-709 | a delete that goes through leaves no file and no clock but a tombstone with the answer's clock and the date of the first delete; any other changes nothing |
| HostAnswers.RenameVerdictExactly | crates/agent/src/host.rs:711-836 | each verdict of a rename, by tombstone, file and the order of the clocks |
| HostAnswers.RenameTeaches | crates/agent/src/host.rs:711-836 | the answer's clock is what the host knows of the new path after an applied rename, and of the old one otherwise |
| HostAnswers.RenameLeaves | crates/agent/src/host.rs:711-836 | an applied rename leaves neither file nor clock nor tombstone under the old name, and the file, or an empty one for a deleted path, under the new one; nothing else changes |
| HostAnswers.TombstoneKeepsItsAge | crates/agent/src/host.rs:627-709 | over any stretch of a run a tombstone keeps the date of the first delete, however often the path is deleted again |
| HostAnswers.ConflictNamesDiffer | crates/agent/src/host.rs:449-453 | for one file a conflict name tells its writer and its time stamp |
| HostRuns.ExclusiveRun | crates/agent/src/host.rs:373-474 | over every run a path with a tombstone has neither a live clock nor a file |
| HostRuns.ExclusiveNeedsFreshName | crates/agent/src/host.rs:445-461 | a write keeps that separation if and only if its conflict name is not a deleted path |
| HostRuns.ReusedNameBreaks | crates/agent/src/host.rs:445-461 | any conflict copy that is deleted and made again under the same stamp leaves its path deleted and live |
| HostRuns.ReusedConflictNameBreaks | crates/agent/src/host.rs:445-461 | a concrete run from empty stores that ends there |
| HostRuns.EffectiveNeverDropsOverRuns | crates/agent/src/host.rs:392-429 | over any stretch of a run without sweeps, renames of a path or conflict copies that take its name its effective clock only grows |
| HostRuns.SweepKeepsOrForgets | crates/agent/src/host.rs:1079-1165 | a sweep keeps the effective clock of a path or forgets it, and keeps that of every file |
| HostRuns.AcceptedIsHeld | crates/agent/src/host.rs:373-474 | an accepted write is stored, as the file or as a conflict copy, under a clock that includes its own |
| HostRuns.NoSilentLoss | crates/agent/src/host.rs:345-836 | if no rename and no conflict copy of the run overwrites the only copy of something its clock does not cover, whatever was accepted is still stored later, or an operation with a clock at or above its own overwrote or deleted it |
| HostRuns.RunLosesNothingExactly | crates/agent/src/host.rs:345-836 | every step of a run keeps or supersedes all content, whatever its clock, if and only if that condition holds of the run |
| HostRuns.RenameKeepsContentExactly | crates/agent/src/host.rs:782-834 | a rename keeps every content held anywhere, under every clock, if and only if it fails its guard, its destination is its source or free, what it moves covers the destination's content and clock, or a third file does |
| HostRuns.CopyKeepsContentExactly | crates/agent/src/host.rs:446-474 | a conflict copy does so if and only if its name is free, it covers what is stored under that name, or a third file does |
| HostRuns.RenameOntoLiveFileLosesContent | crates/agent/src/host.rs:782-793 | a concrete state and rename after which accepted content is nowhere, under a clock that never saw it |
| HostRuns.RenameOntoEqualFileLosesClock | crates/agent/src/host.rs:782-793 | a concrete rename onto an equal file after which nothing holds the content under the other writer's clock |
| HostRuns.SharedConflictNameLosesCopy | crates/agent/src/host.rs:446-474 | two concrete concurrent writes within a second: the second conflict copy drops the first, which was accepted |
| Protocol.NoCopyExceedsIssued | crates/fs/src/filesystem.rs:291-341 | in every reachable state no copy of a path's clock, at the host, at a mount, in a request or in a reply, holds more for a device than that device issued |
| Protocol.FlushOutcome | crates/fs/src/filesystem.rs:291-341 | a flush is never STALE, and is a CONFLICT if and only if the host's effective clock is not below the clock the mount knew |
| Protocol.FlushIsStored | crates/fs/src/filesystem.rs:291-341 | after the host served a flush its data is stored under a clock that includes the flush's own |
| Protocol.UnlinkOutcome | crates/fs/src/filesystem.rs:804-859 | an unlink is never STALE, and an existing file is deleted if and only if the mount knew the host's clock |
| Protocol.StaleExactly | crates/agent/src/host.rs:432-440 | on any path, a stamped write is STALE if and only if the host covers what the mount knew, holds an unknown tick of the mount itself, and more |
| Protocol.HeardIsKnown | crates/fs/src/filesystem.rs:291-341 | a mount that has heard the answer to a flush or an unlink knows all the host then knows of the path, whatever the verdict |
| Protocol.NextFlushIsApplied | crates/fs/src/filesystem.rs:291-341 | and so its next flush of the path is applied and stored, if nobody else gets in between |
| Protocol.AdoptLearns | crates/fs/src/filesystem.rs:317-319 | for the path a reply is about, the new name after a rename, a mount keeps the join of what it sent, or knew, and the answer |
| Protocol.AdoptKeeps | crates/fs/src/filesystem.rs:904-956 | for other paths it keeps what it knew, but forgets the old name of an applied rename |
| Protocol.RenamedAwayFlushIsStale | crates/fs/src/filesystem.rs:924-942 | a concrete run with a path that is only a rename source, ending in a STALE flush |
| Protocol.LostReplyFlushIsStale | crates/fs/src/filesystem.rs:291-341 | a concrete run without any rename, with one lost reply, ending in a STALE flush |
| Protocol.ConflictCopyFlushIsStale | crates/fs/src/filesystem.rs:291-341 | a concrete run without renames and lost replies, ending in a STALE flush onto a conflict copy |
| Mount.LastEditWins | crates/fs/src/filesystem.rs:652-690 | after any writes and truncations every byte is the one written there last that survived, zero where nothing was written |
| Mount.SessionReadsOnce | crates/fs/src/filesystem.rs:254-287 | all edits between open and close apply, in order, to one version of the file: the loaded buffer, or else the host's content at the first edit, however the host's copy changes later |
| Mount.SessionReachesHost | crates/fs/src/filesystem.rs:254-341 | open, edit, close: after an applied flush every byte at the host is the one the edits wrote there last, or the original one |
| Mount.MountClient.EnsureLoaded | crates/fs/src/filesystem.rs:254-287 | a buffer that was not loaded gets the host's whole content once; a loaded one stays |
| Mount.MountClient.Write | crates/fs/src/filesystem.rs:652-690 | the buffer is the loaded content with the write applied, dirty |
| Mount.MountClient.SetSize | crates/fs/src/filesystem.rs:693-752 | the buffer is the loaded content cut or zero-filled, also on the path that skips loading |
| Mount.MountClient.FlushBuffer | crates/fs/src/filesystem.rs:291-341 | a clean buffer sends nothing; a dirty one is one send, serve and receive of the protocol with a freshly stamped clock; without an answer the mount keeps buffer and clock, whether or not the host served the write |
| Mount.MountClient.Release | crates/fs/src/filesystem.rs:768-784 | the last close flushes and then drops the buffer whatever the verdict, and after a flush that failed |
| Mount.MountClient.Open | crates/fs/src/filesystem.rs:585-605 | only an open that reads merges the host's clock, and only of an existing file |
| Mount.MountClient.Unlink | crates/fs/src/filesystem.rs:804-859 | one delete round of the protocol drops the path's buffer; without an answer nothing changes in the mount |
| Mount.MountClient.Rename | crates/fs/src/filesystem.rs:904-956 | one rename round of the protocol: the clock moves with the file, or is adopted when stale; without an answer nothing changes in the mount |
| Gc.GcSweep | crates/agent/src/host.rs:1069-1165 | whatever batches are contested, no file and no clock of a file is lost; uncontested, each phase removes exactly its choice, which `TombstoneFate` and `ClockFate` read off the numbers |
| Gc.TombstoneFate | crates/agent/src/host.rs:1079-1134 | a tombstone of known age whose time to live is over, on a path without a file, is gone; any other stays as it was unless the cap is full of tombstones at least as young |
| Gc.ClockFate | crates/agent/src/host.rs:1099-1165 | a clock with a file stays; one without a file and without a tombstone still wanted goes; one with such a tombstone goes only after the caps took the tombstone, oldest clocks first |
| Gc.DeletedStaysDeleted | crates/agent/src/host.rs:1079-1134 | within the time to live and the cap a sweep changes no answer to an edit of a deleted path |
| Gc.SweepLeaves | crates/agent/src/host.rs:1079-1165 | no outlived tombstone is left, no file and no clock of a file is lost, tombstones are within the cap, clocks over the cap all have a file or a tombstone, unknown ages go only for the cap |
| Gc.RemoveInBatches | crates/agent/src/host.rs:1042-1067 | exactly the chosen keys whose batch of 256 was not contested are removed |
| Gc.Victims | crates/agent/src/host.rs:1121-1160 | exactly the excess is chosen, and no chosen key is newer than a key left |
| Journal.CrashRecovery | crates/common/src/lib.rs:231-269 | after any run with any crashes the files stand for a prefix of the journaled operations that includes every completed call, and open returns it |
| Journal.ReplayIdempotent | crates/common/src/lib.rs:190-195 | replaying a journal over its own result changes nothing |
| Journal.CutCallRecovers | crates/common/src/lib.rs:344-359 | a crash at any byte of a call leaves files that stand for the map with the first whole lines of the call applied, a line that lacks only its newline among them |
| Journal.OpensExactlyWhenReadable | crates/common/src/lib.rs:239-262 | after any run a process that is down can go on if and only if the torn pieces in its journal are text |
| Journal.CallReopensExactly | crates/common/src/lib.rs:239-245 | every crash at every byte of a call can be reopened if and only if the keys and printed values of its lines are single-byte text |
| Journal.AccentedKeyStops | crates/common/src/lib.rs:239-245 | a concrete run: one put of a key with an accent, cut inside the character, after which nothing the process does helps |
| Journal.PlainRunsReopen | crates/common/src/lib.rs:231-269 | over any run whose calls are single-byte text the process can be opened after every crash |
| TextEncoding.CutReadsExactly | crates/common/src/lib.rs:239-245 | a beginning of an encoded text reads as text if and only if it ends between two characters |
| TextEncoding.EveryCutReadsExactly | crates/common/src/lib.rs:239-245 | all beginnings do if and only if the text is single-byte |
| TextEncoding.TextDecodes | crates/common/src/lib.rs:239-245 | whatever passes the test for text is the encoding of some text |
| Batches.CallIsAtomicExactly | crates/common/src/lib.rs:344-359 | an open after any crash in a call finds the map before or after the call if and only if every number of its lines does nothing or all of it |
| Batches.RemovalsAtomicExactly | crates/common/src/lib.rs:282-293 | removing several keys is atomic if and only if at most one of them is there |
| Batches.MoveAtomicExactly | crates/common/src/lib.rs:308-342 | a subtree move is atomic if and only if it moves nothing, or one key onto an equal value |
| Batches.ValueLostExactly | crates/common/src/lib.rs:322-341 | a value of a move onto free names, cut after n lines, is under neither name if and only if its removal is among them and its insertion is not |
| Batches.MovedKeyAfter | crates/common/src/lib.rs:322-341 | also onto names in use: after n lines a key is under its old name exactly until its removal, and its new name holds its value from its insertion on and what it held before until then |
| Batches.CutMoveLosesValue | crates/common/src/lib.rs:308-342 | a concrete run: a crash between the two lines of a one-file move, after which the next open finds an empty map |
| Journal.CompactionIsAmortised | crates/common/src/lib.rs:344-374 | append-triggered compactions rewrite no more entries than lines were appended; pending lines stay below the threshold |
| Journal.CompactsExactly | crates/common/src/lib.rs:355-357 | over every run an append compacts exactly when the journal has at least 1024 lines and as many as the map has entries |
| Journal.QuotedReadsBack | crates/common/src/lib.rs:377-391 | an escaped and quoted key reads back as itself, whatever follows it |
| Journal.RecordsDiffer | crates/common/src/lib.rs:377-391 | a journal record tells the operation, its key and its value |
| Journal.RecordIsOneLine | crates/common/src/lib.rs:377-391 | a record is one line unless its printed value has a newline |
| Rekey.RekeyedMeaning | crates/common/src/lib.rs:308-342 | moved values arrive under their new names, other keys stay unless overwritten, the old names are gone |
| Rekey.SubtreeMoves | crates/common/src/lib.rs:308-342 | the path and every name below it, after a slash, arrive under the new name; a name that only begins like the path stays; the old names are gone |
| Rekey.RekeyBackExactly | crates/common/src/lib.rs:308-342 | moving back restores the map if and only if nothing outside the moved set was under the new name |
| Rekey.RemoveThenInsert | crates/common/src/lib.rs:322-341 | the journal lines, all removals and then all insertions, replay to the simultaneous rename, also when the subtrees overlap |
| KeyOrder.PrefixedAreContiguous | crates/common/src/lib.rs:296-304 | whatever lies in order between a prefix and a key with it has the prefix too |
| KeyOrder.LessExactly | crates/common/src/lib.rs:296-304 | the order compares the first character that differs, a beginning being smaller |
| KeyOrder.ScanPrefix | crates/common/src/lib.rs:296-304 | the scan returns exactly the keys with the prefix, in order |
| Store.JournaledMap.Open | crates/common/src/lib.rs:231-269 | succeeds if and only if the journal is readable, and then holds the recovered map over an empty journal |
| Store.JournaledMap.Put | crates/common/src/lib.rs:275-280 | sets one key and follows the crash machine with one line |
| Store.JournaledMap.RemoveMany | crates/common/src/lib.rs:282-293 | removes the keys, counts those present, journals one removal for each of them and follows the crash machine |
| Store.JournaledMap.RekeySubtree | crates/common/src/lib.rs:308-342 | the map becomes the simultaneous rename, the count is the size of the subtree, and the journaled lines are all removals and then all insertions |
| Store.JournaledMap.Append | crates/common/src/lib.rs:344-359 | the lines are journaled, compaction follows at the threshold, and the map in memory is unchanged |
| Store.JournaledMap.Compact | crates/common/src/lib.rs:361-374 | the snapshot becomes the map and the journal empty, through states a crash may interrupt |
| Transfer.SendChunks | crates/fs/src/grpc_client.rs:219-258 | the chunks join to the data, only the first carries metadata, all but the last are full, and empty data is one empty chunk |
| Transfer.StreamedWrite | crates/fs/src/grpc_client.rs:219-268 | client and host together end in the state and answer of one write decision on the host as it is by then |
| Transfer.StreamingMatchesUnaryExactly | crates/agent/src/host.rs:116-126 | streaming and unary writes agree if and only if the writer id is file-safe or no conflict copy is named |
| Transfer.ReadRange | crates/fs/src/grpc_client.rs:169-188 | whatever the sizes of the host's reads, the joined bytes are the slice of the file |
| ReadAhead.ReadAheadBuffer.Read | android/app/src/main/java/com/vectorzero/nexus/documents/ReadAheadBuffer.kt:27-44 | terminates on any fetches; copied bytes equal the file's, the rest of the destination is untouched, the count is the clamped copy's |
| ReadAhead.FullCopy | android/app/src/main/java/com/vectorzero/nexus/documents/ReadAheadBuffer.kt:27-44 | with full fetches a read returns all of its clamped length |
| ReadAhead.CompleteReadCost | android/app/src/main/java/com/vectorzero/nexus/documents/ReadAheadBuffer.kt:8-14 | reading a file in order in any chunk sizes costs the ceiling of size over block size in fetches |
| ReadAhead.ReadInBlockCost | android/app/src/main/java/com/vectorzero/nexus/documents/ReadAheadBuffer.kt:8-14 | a read within one block costs no fetch when the block is in the buffer and one otherwise, and copies all of it |
| ReadAhead.FailedFetchKeepsBlock | android/app/src/main/java/com/vectorzero/nexus/documents/ReadAheadBuffer.kt:48-56 | a fetch that brings nothing leaves the block in the buffer |
| Inodes.NeverReused | crates/fs/src/filesystem.rs:94-108 | over every run the table stays sound and an inode that left it never returns |
| Inodes.EntryFate | crates/fs/src/filesystem.rs:139-174 | an entry stays, is renamed under its inode, is replaced by a rename, or is evicted as the least recently used of a full table |
| Inodes.PathForExactly | crates/fs/src/filesystem.rs:110-115 | an inode resolves to a path if and only if the table has that entry, or it is the root; the entry becomes the most recent |
| Inodes.InoForExactly | crates/fs/src/filesystem.rs:94-108 | a path gets the inode it has, or the next number, and then has it, as the most recent entry |
| Inodes.RenameAnswers | crates/fs/src/filesystem.rs:156-174 | a rename of a tracked path answers its inode, which then belongs to the new path alone; of an untracked one nothing |
| Inodes.InodeResolves | crates/fs/src/filesystem.rs:94-151 | an inode handed out for a path resolves to it through any further operations, fewer than the table has places, that do not rename the path or onto it |
| Inodes.InodeResolvesExactly | crates/fs/src/filesystem.rs:94-174 | over every run an inode resolves to a path if and only if that entry is in the table |
| Inodes.DirectoriesAreNoted | crates/fs/src/filesystem.rs:121-128 | a looked-up directory is noted and its rename refused |
| Inodes.InodeTable.InoFor | crates/fs/src/filesystem.rs:94-108 | the indexed lookup or allocation equals the one on the scanned list |
| Inodes.InodeTable.PathFor | crates/fs/src/filesystem.rs:110-118 | the path of an inode, which becomes the most recent; index and list stay inverse |
| Inodes.InodeTable.Insert | crates/fs/src/filesystem.rs:139-151 | the displaced entry leaves the index and the directory set |
| Inodes.InodeTable.RenamePath | crates/fs/src/filesystem.rs:156-174 | same inode, new path, most recent; the destination's entry is gone and the index still exact |
| Sender.RemoteControl.Pass | crates/stream/src/host.rs:152-249 | one pass of the loop is one tick of the specification, for lag, closed queue, capture and encode errors, idle ticks, buffered output and a full queue |
| Sender.RemoteControl.Loop | crates/stream/src/host.rs:141-250 | the loop queues the frames of the specification, tick by tick |
| Sender.VideoEncoder.EncodePicture | crates/stream/src/encode.rs:145-197 | the pending request is taken before the picture is sent in, so failing to send loses it; outputs come in the order of the pictures |
| Sender.DeliveredIsChained | crates/stream/src/host.rs:146-249 | every delivered frame is a keyframe or directly follows the one delivered before, in encoder order and in sequence |
| Sender.GapMeetsKeyframe | crates/stream/src/host.rs:217-249 | a gap in delivered sequence numbers is followed at once by a keyframe |
| Sender.RecoversFromDrop | crates/stream/src/host.rs:236-249 | from any run of a connection that lost no request and awaits a keyframe, one more due tick with an output and room than there are pictures inside the encoder delivers a keyframe, even if the encoder makes none by itself |
| Sender.KeyframeFollowsDrop | crates/stream/src/host.rs:217-249 | the first frame sent after a drop is a keyframe, and it is sent no later than with the output of the first picture after the drop |
| Sender.AwaitedIsOnItsWay | crates/stream/src/host.rs:243-249 | over every run that loses no request, an awaited keyframe is still requested or a picture inside the encoder was forced |
| Sender.OutputIsSent | crates/stream/src/host.rs:217-241 | while no keyframe is awaited every output with room is sent under the next number |
| Sender.DueExactly | crates/stream/src/host.rs:172-205 | over every run a tick reaches the encoder exactly when there is a picture and the screen has been still for less than 30 captures or for a multiple of three |
| Sender.EndsExactly | crates/stream/src/host.rs:167-169 | the loop ends when the viewer is gone, and then does nothing |
| Viewer.KeyframeGate.Accept | android/app/src/main/java/com/vectorzero/nexus/StreamLogic.kt:43-61 | a waiting gate lets only a keyframe through, which opens it |
| Viewer.StreamViewer.EnsureCodec | android/app/src/main/java/com/vectorzero/nexus/StreamViewModel.kt:250-268 | an existing decoder is used; a new one closes the gate; failures leave none |
| Viewer.StreamViewer.DecodeFrame | android/app/src/main/java/com/vectorzero/nexus/StreamViewModel.kt:205-248 | what one frame does to gate, decoder and the frames fed, on every failure path |
| Viewer.NothingIsHeldBack | android/app/src/main/java/com/vectorzero/nexus/StreamViewModel.kt:205-248 | while nothing fails the decoder is given everything, from the next keyframe on if the gate is closed |
| Viewer.BrokenIsReplaced | android/app/src/main/java/com/vectorzero/nexus/StreamViewModel.kt:205-248 | after a decoder error the next frames go to a new decoder, from a keyframe on |
| Link.NeverFedUndecodable | android/app/src/main/java/com/vectorzero/nexus/StreamViewModel.kt:205-243 | end to end, under any losses, rebuilds and reconnects that reset the gate or are safe without, each fed frame is a keyframe or directly follows one fed to the same decoder |
| Link.UngatedReconnectIsSafeExactly | android/app/src/main/java/com/vectorzero/nexus/StreamViewModel.kt:97-117 | from any sound state, a reconnect that leaves the gate alone is safe for every gated continuation if and only if the gate waits, the decoder has the encoder's last output, or the encoder is bound to put out a keyframe next |
| Link.UngatedReconnectBreaks | android/app/src/main/java/com/vectorzero/nexus/StreamViewModel.kt:97-117 | a concrete run from a new encoder with one ungated reconnect, its keyframe request lost or late, that feeds an undecodable frame |
| Limiter.PairingRateLimiter.Check | crates/agent/src/pairing.rs:64-98 | the lazily swept check, its state and its answer, which is also the answer of a limiter that sweeps first |
| Limiter.NeverOverTheCap | crates/agent/src/pairing.rs:90-96 | over every run of attempts and successes, whatever the clock does, the number of tracked addresses never passes the cap |
| Limiter.AnswerExactly | crates/agent/src/pairing.rs:64-98 | an address in its window is refused, for the rest of it, exactly when it has used its allowance; any other, for one window, exactly when ten thousand are in theirs |
| Limiter.CheckKeepsCount | crates/agent/src/pairing.rs:64-98 | a check begins or counts up the address's own window and leaves all other running ones |
| Limiter.SuccessForgets | crates/agent/src/pairing.rs:100-102 | a success forgets the address and nothing else |
| Limiter.LazySweepIsUnobservable | crates/agent/src/pairing.rs:68-73 | over every run all answers equal those of a limiter that sweeps on every call |
| Limiter.AtMostTwoWindowsLessOne | crates/agent/src/pairing.rs:75-98 | without a recorded success no interval of one window's length lets an address through more than 2 * max - 1 times |
| Limiter.BoundIsReached | crates/agent/src/pairing.rs:75-98 | for every maximum and window of at least two ticks some run reaches that bound |
| Limiter.RefusedUntilTheWaitIsOver | crates/agent/src/pairing.rs:82-85 | an address over its maximum is refused until the wait it was told is over |
| Limiter.AllowedAfterTheWait | crates/agent/src/pairing.rs:75-81 | a next call when the wait is over gets through, even with the map full |
| Migrate.CheckSchemaVersion | crates/migrate/src/schema.rs:16-38 | an error exactly for a newer version, current exactly for an equal one, and never the too-new action |
| Migrate.FilterSchemaKeys | crates/migrate/src/lib.rs:229-275 | entries are kept, migrated or dropped one by one, whatever the order of the walk; the dropped list names exactly the missing keys, once each |
| Migrate.FilteredExactly | crates/migrate/src/lib.rs:229-275 | an older value is stored as the app migrates it from its own version, or dropped if it refuses; a newer one is dropped; others stay as they are |
| Migrate.FilteredIsCurrent | crates/migrate/src/lib.rs:229-275 | what passes is at the registered version, policies are kept, and a second pass changes nothing |
| Migrate.CurrentPasses | crates/migrate/src/lib.rs:229-275 | a snapshot passes the filter unchanged if and only if its registered keys are at their registered versions |
| Migrate.ResolveConflicts | crates/migrate/src/conflict.rs:8-87 | the resolved keys by clock order and policy; the conflict list holds each shared key not left to the last write exactly once |
| Migrate.MergeRegistered | crates/migrate/src/lib.rs:387-416 | despite removal by swapping the loop ends, merges each conflict registered for merging exactly once and leaves exactly the others, or stops because a merge fails |
| Migrate.SwapRemoveLists | crates/migrate/src/lib.rs:411 | removal by swapping takes out one conflict and keeps all others once |
| Migrate.LocalValuesSurvive | crates/migrate/src/lib.rs:363-430 | a local value goes only to a strictly newer snapshot, a concurrent last-write-wins entry, or a merge |
| Migrate.RemoteValuesAreAccountedFor | crates/migrate/src/lib.rs:363-430 | an admitted remote value is stored, loses to a local snapshot at least as new, is reported, or is merged |
| Migrate.ImportMergesExactly | crates/migrate/src/lib.rs:387-416 | for each conflict on a key registered for merging the handler set for the key is called with the local and the admitted value, or else the app's merge; an import fails exactly when one of these calls refuses, and otherwise stores what they return |
| Migrate.ReportedExactly | crates/migrate/src/lib.rs:387-416 | the reported conflicts are the others, each with both values and the version that came |
| Migrate.LastOneCounts | crates/migrate/src/lib.rs:337-353 | over every run the handler and the registration in force for a key are those set last |
| Migrate.ExchangeConvergesExactly | crates/migrate/src/lib.rs:355-430 | two devices that import each other's exports hold the same keys afterwards if and only if every key both hold settles by what each side chooses (its own entry, the other's, a merge, or none, as decided by the app's clock against the other's stamp, schema filter, policy and registration), and every key one holds stays there and arrives unchanged or is gone from both; an import that fails leaves its device as it was |
| Migrate.ExchangeSwaps | crates/migrate/src/lib.rs:355-430 | two concrete devices with last-write-wins entries end up with each other's value after exchanging stamped exports, whatever clocks their apps report unless they hold the other's stamp |
| Migrate.ExchangeLosesUnsharedKey | crates/migrate/src/lib.rs:355-430 | two concrete devices whose apps report an empty clock, with concurrent exports that share no key, end apart, and the one key is gone from the device that had it |
| Migrate.ClockIsOwnCounter | crates/migrate/src/lib.rs:337-430 | over every run of registrations, handlers, exports and imports an SDK's clock is its own counter of registrations and exports |
| Migrate.ExportsOfTwoDevicesAreConcurrent | crates/migrate/src/lib.rs:355-430 | any export of one device is concurrent with any export of another, over all runs of both, whatever they imported |
| Migrate.LaterExportDominates | crates/migrate/src/lib.rs:355-361 | over every run a later export of an SDK dominates every earlier one |
| Migrate.OrderAfterRun | crates/migrate/src/lib.rs:363-386 | after any run of the other SDK an import keeps the own entries if and only if the app's clock holds the other's tick, and replaces all if and only if that clock holds nothing but older ticks of the other |
| Migrate.MigrateSdk.ImportSnapshot | crates/migrate/src/lib.rs:363-430 | an import fails exactly when a needed merge fails; otherwise keys, conflicts and dropped keys are as specified and the clock has not moved |
| Migrate.MigrateSdk.ExportSnapshot | crates/migrate/src/lib.rs:355-361 | the exported clock strictly dominates the SDK's clock before |
| DocIds.ParseEncoded | android/app/src/main/java/com/vectorzero/nexus/documents/DocId.kt:36-47 | parsing the encoding of a canonical id gives it back |
| DocIds.ParsesToItselfExactly | android/app/src/main/java/com/vectorzero/nexus/documents/DocId.kt:36-47 | an id parses to itself if and only if it is canonical |
| DocIds.ParseNormalises | android/app/src/main/java/com/vectorzero/nexus/documents/DocId.kt:36-47 | whatever parses is canonical, so normalisation is idempotent |
| DocIds.ParseExactly | android/app/src/main/java/com/vectorzero/nexus/documents/DocId.kt:36-47 | an id is accepted if and only if it is a host and an absolute path, split at the first colon, without dot segments; it means the path without its empty segments |
| DocIds.SegmentsConcat | android/app/src/main/java/com/vectorzero/nexus/documents/DocId.kt:41 | any number of slashes separates two segments, and nothing else does |
| DocIds.NameIsLastSegment | android/app/src/main/java/com/vectorzero/nexus/documents/DocId.kt:19 | the name is the last segment, empty for a root |
| DocIds.ChildRoundTrip | android/app/src/main/java/com/vectorzero/nexus/documents/DocId.kt:21-26 | a child is allowed exactly for a plain name, re-parses to itself, has one segment more, carries the name, and descends from its parent |
| DocIds.DescendantIsStrictPrefix | android/app/src/main/java/com/vectorzero/nexus/documents/DocId.kt:29-32 | the string test is strict prefix of the segment lists on one host |
| DocIds.DescendantsAreOrdered | android/app/src/main/java/com/vectorzero/nexus/documents/DocId.kt:29-32 | on canonical ids it is a strict partial order |

## Left out

- Counter and integer widths: clock counters, inode numbers and sequence numbers are unbounded, so overflow is not modelled; the idle counter saturates as in the code.
- Directories on the host: `mkdir_file` and `ensure_parent_not_tombstoned` (crates/agent/src/host.rs:203-218, 838-985) are not modelled; the first leaves a tombstone in place, so it is outside the exclusivity results.
- Path resolution: `resolve` and `resolve_for_write`, symbolic links and path escape are operating-system behaviour.
- I/O errors inside a handler or a store, and appends that fail without a crash: only process crashes and broken write streams are modelled.
- Power loss: appends are not synced to the device, so recovery is proved for process crashes.
- A sweep between its own phases: `GcSweep` is one step of `HostRuns` and `Protocol`, with any pattern of contested batches; files that appear while it runs are not modelled.
- HostRuns.NoSilentLoss: requires of the run that renames and conflict copies spare what they do not cover, because the statement is false otherwise; `RunLosesNothingExactly` shows, step by step, that nothing less would do. A conflict copy never takes a deleted path's name.
- Protocol.FlushOutcome: excludes paths of applied renames, conflict copies and lost replies, because the statement is false there, by `RenamedAwayFlushIsStale`, `ConflictCopyFlushIsStale` and `LostReplyFlushIsStale`; `StaleExactly` covers every path.
- Protocol.NoCopyExceedsIssued: excludes paths of applied renames and conflict copies, whose clocks carry ticks issued for another path.
- Protocol: a state machine on values, because requests of several mounts interleave; `Mount` performs the single callbacks in place, with the path of an inode as an argument instead of a call into `InodeTable`.
- Store.JournaledMap.RekeySubtree: the journal lines are one append, as in the code, so a crash inside it recovers a prefix of them; `Batches` says which prefixes lose something.
- Gc.SortedByAge and KeyOrder.NextKey stand for the library's sort and ordered-map range; the inode table's recency list stands for the library's LRU map.
- The encoder: outputs come in the order of the pictures, one at most for each call; a picture whose output failed stays inside; an output may be a keyframe without being asked. What a codec does beyond that is outside the model.
- The decoder: creating it, feeding it and draining it may fail where the code can observe it; surface changes do not happen in the middle of one `DecodeFrame`.
- Timing: pacing deadlines, latencies and counters of the send loop, back-off of reconnects and clock readings are arguments or absent.
- ReadAhead.ReadAheadBuffer.Read: a fetch that throws is not modelled.
- The text of snapshots and protocol messages, and reading a journal line back: a whole line stands for its operation, and how a value is printed is a parameter.
- Upgrading old store formats (crates/common/src/lib.rs:393-405) and the snapshot of an empty journal.
- The app behind `Migrate` is a pair of functions that may refuse; an app whose export or import fails is not modelled, nor is the copy of the SDK behind a global lock, which does the same. In an exchange an app's state does not change between the export and the import.
- Pairing codes, tokens, certificates, discovery, approval dialogs, input injection, directory listings, metadata caches and the user interface.
