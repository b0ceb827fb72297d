# WokCore verification

A Dafny model of the stateful core of WokCore, the local gateway, with proofs about it. Most of it is the
diagnostics pipeline: a crash-tolerant segment log, the ledger of dropped events beside it, the deletion of
files through tombstones, the recorder and its ring, snapshots, retention and the export of a support package.
Next to it stand the account scheduler, the affinity table, the session line reader and the date conversion.

`dafny verify dfyconfig.toml` checks the whole project. There is one module per component:

| module | component |
|---|---|
| `TextLines`, `SegmentScan`, `SegmentLog` | the rotating line log, its scanner, torn appends and recovery |
| `DropLedger` | drop counters, the outstanding summary, and appends with unknown outcome |
| `DeleteProtocol` | deleting a file through a marker and a tombstone slot, interrupted anywhere |
| `ExportPhase` | the phase machine of an export and its one-permit gate, at the grain of atomic accesses |
| `EventMerge` | the line reader and the k-way merge of segments and snapshots |
| `LittleEndian`, `Crc`, `ZipLayout`, `SupportPackage` | the stored-only archive: writer, checksum and strict verifier; preparing a package in two passes |
| `LeakScan` | the chunked pattern scan with its carried tail |
| `JsonlReader` | the resumable batch reader of session files |
| `Recorder`, `Ring`, `SequenceDigits` | sequence reservation, the byte-budgeted ring, cursor paging, the digits of a sequence |
| `SnapshotBudget`, `Retention` | the cooldown table and sliding write budget; age and size retention over paged listings |
| `LogJoin` | the ledger's log carried out by the segment writer, and that log as retention sees it |
| `Calendar`, `Accounts`, `AccountRuns`, `Affinity` | civil dates, weighted account selection and its runs, the sharded affinity table |

How the model is built:

- Code that updates fields is a class whose methods carry the old and new state in their contracts. Protocols
  between threads or with the file system are broken into their atomic steps, and the main theorems are methods
  that take an arbitrary schedule of such steps (`EveryRun`, `EveryInterleaving`). They return every state or answer
  along the way and tie each to its step, so that the theorem is about the schedule.
- Storage and cancellation are nondeterministic. A parameter `calm` rules failures out, so contracts say both what
  a failure leaves behind and that nothing fails without one.
- Event decoding, event and header validation, SHA-256, keyed digests, JSON classification and the checks on what
  the entries of a package say are function parameters: the theorems hold for every such function, with the stated
  bounds where one is needed.
- Clocks are parameters. 64-bit counters are modelled with their saturation or wrap where it can be observed.

Properties that fail as one would first state them, with the condition under which they hold:

- After `EventExceedsSegment` the writer's last sequence can be behind the disk. `SegmentWriter.Flush` states the
  exact condition, that an earlier line of the batch had been written; it never holds above the largest event.
  `GoesStale` is a flush that ends that way.
- A summary that the recorder accepted but whose barrier failed is restored as well and so counted twice, unless
  its event had reached the queues that go down with the owner. `Pipeline.AbandonRequest` and `Pipeline.DropOwner`
  have the exact counts, `CountsTwice` a run that ends with twice the drops.
- Counts in a drop event that has not reached the disk are lost when the owner goes, which any failed append,
  recovery, forward or barrier brings about; the server therefore never settles the unknown outcome of an append.
  `EveryInterleaving` states that this happens at a step exactly when the owner goes while such an event with a count
  is in memory; `LosesCounts` is a run.
- A rate limit's hint is kept only until the next failure, whose cooldown replaces it and may be shorter, and a
  cooldown ends for good at the first look after it, also if the clock then goes back. `HeldBack` has the exact
  condition, `CutsHintShort` and `ForgetsCooldown` are runs; `BaseIsKept` and `HintIsKept` are what does hold.
- `restore` refuses states that observations reach. `RestorableUnlessStranded` has the exact condition.
- The snapshot cooldown holds only while the key is among the last 256 entered: `ForgottenExactly` and `EveryRun`
  for the condition, `CooldownForgets` for a run that breaks it.
- Deleting a file does not always destroy it. One that cannot be opened for reading and writing, or that is not a
  regular file with one link, stays as it is. One that can be opened but is not the user's with mode 0600 is emptied
  and left in a slot that no reclaim frees. `GoneExactly` has the conditions, `StrandsSharedFile` a run.
- A deletion is refused although slots are free when its search first comes to a slot whose marker is complete and
  whose tombstone the system will not open. `Removable` has the condition; `BlockedRefuses` and
  `StopsAtUnreadableTombstone` show that the next search begins behind that slot.
- A line above the limit refuses the whole batch of the session reader, including the records before it, and so does
  a failed read. If the batch had taken a line, the fingerprint is ahead of the cursor and is never given out again:
  `FingerprintAfter` for the condition, `RefusesOrKeeps` for a file and its batches.

## Model

| member | source | states |
|---|---|---|
| `SegmentScan.ScanSegment` | crates/wokcore-diagnostics/src/segment.rs:1224-1331 | The streaming scan answers the line-by-line reading of the file for every faithful reader, so it does not depend on how the file is cut into chunks; a zero chunk or line size is InvalidData |
| `SegmentScan.ScanIsLongestPrefix` | crates/wokcore-diagnostics/src/segment.rs:1224-1331 | The valid length is that of the longest prefix made of complete, decodable lines with strictly increasing sequences: such a prefix of that length exists and none is longer |
| `SegmentScan.StatusMeaning` | crates/wokcore-diagnostics/src/segment.rs:1224-1331 | Complete means everything is valid; a torn tail means a non-empty valid part followed by bytes without a newline |
| `SegmentScan.ValidateComplete` | crates/wokcore-diagnostics/src/segment.rs:1332-1350 | The whole-buffer validator succeeds exactly on non-empty byte strings that the scan calls Complete, with the same first and last sequence |
| `TextLines.LinesRoundTrip` | crates/wokcore-diagnostics/src/segment.rs:1224-1331 | Every byte string is its complete lines joined, followed by its unfinished tail |
| `TextLines.LinesOfJoin` | crates/wokcore-diagnostics/src/segment.rs:1094-1116 | Lines without newlines, joined and followed by a tail without one, are read back as those lines and that tail |
| `TextLines.TornLines` | crates/wokcore-diagnostics/src/segment.rs:1129-1149 | Whatever prefix of an append reached disk, its complete lines are a prefix of the appended lines |
| `SegmentLog.ScanOfOrdered` | crates/wokcore-diagnostics/src/segment.rs:991-1015 | On ordered lines followed by a torn tail the scan keeps exactly the lines, and reports the first and last of them |
| `SegmentLog.AppendIsSound` | crates/wokcore-diagnostics/src/segment.rs:1129-1149 | Any prefix of an append of ordered lines keeps the directory sound and adds a prefix of those lines |
| `SegmentLog.RotateIsSound` | crates/wokcore-diagnostics/src/segment.rs:1151-1177 | Creating the next segment after a closed one keeps the directory sound and adds no line |
| `SegmentLog.RepairIsSound` | crates/wokcore-diagnostics/src/segment.rs:1042-1053 | Cutting the torn tail of the active segment keeps the directory sound and loses no line |
| `SegmentLog.RetireIsSound` | crates/wokcore-diagnostics/src/retention.rs:196-230 | Taking away a closed segment keeps the directory sound and removes exactly its lines |
| `SegmentLog.SoundIsRecoverable` | crates/wokcore-diagnostics/src/segment.rs:967-1069 | Recovery never rejects a sound directory, what it cuts is exactly the torn tail, and the last event it finds is the last on disk |
| `SegmentLog.SegmentWriter.Enumerate` | crates/wokcore-diagnostics/src/segment.rs:971-1020 | InvalidData only for a directory that is not recoverable; otherwise the scans of the last two segments |
| `SegmentLog.SegmentWriter.Recover` | crates/wokcore-diagnostics/src/segment.rs:967-1069 | On success the last segment is cut to its valid length and the writer knows its length, index and last event; on failure the directory is as it was or already cut, and the writer is unchanged |
| `SegmentLog.SegmentWriter.Append` | crates/wokcore-diagnostics/src/segment.rs:1129-1149 | Success appends everything; a failure leaves some prefix of the bytes on disk and an uninitialized writer; undisturbed it succeeds |
| `SegmentLog.SegmentWriter.Rotate` | crates/wokcore-diagnostics/src/segment.rs:1151-1177 | A non-empty active segment is followed by a new empty one with the next index; an empty one stays; a failure may leave the new file and uninitializes the writer |
| `SegmentLog.SegmentWriter.Open` | crates/wokcore-diagnostics/src/segment.rs:1075-1077 | Opening an uninitialized writer on a sound directory leaves it tracking a sound directory with the same lines; it is never refused as invalid |
| `SegmentLog.SegmentWriter.CheckSequences` | crates/wokcore-diagnostics/src/segment.rs:1078-1086 | A batch passes exactly when its sequences strictly increase from the last one known |
| `SegmentLog.SegmentWriter.Write` | crates/wokcore-diagnostics/src/segment.rs:1087-1127 | An accepted batch is spread over the segments: each line goes to the last one if it fits and to a new one otherwise, although the lines are written in bigger pieces; the report names the segments added and the last index. A failure leaves that for a prefix of the lines but some end of the last segment; an oversized event leaves the writer stale exactly when earlier lines were written |
| `SegmentLog.SegmentWriter.Flush` | crates/wokcore-diagnostics/src/segment.rs:1071-1127 | Soundness is kept; success adds exactly the lines of the batch, failure a prefix; InvalidData writes nothing and means the sequences did not increase; the writer goes stale exactly when an earlier line of the batch was written before an oversized one; where the lines go, when segments are added and what a failure leaves of that are stated as for `Write`, from the repaired directory |
| `SegmentLog.SpreadIsPacked` | crates/wokcore-diagnostics/src/segment.rs:1093-1117 | Spreading lines over segments keeps the closed ones and extends the last; no segment is added exactly when everything fits the last one; a segment is closed only when the first line of the next does not fit it any more, and none is empty or above the limit |
| `SegmentLog.FlushRotates` | crates/wokcore-diagnostics/src/segment.rs:1071-1127 | A successful flush reports Written exactly when the batch fits the open segment, and otherwise how many segments it added and the last index; every segment it filled is packed |
| `SegmentLog.SmallLimitCanGoStale` | crates/wokcore-diagnostics/src/segment.rs:1094-1118 | With a limit of four bytes a batch meets the condition for a stale writer: its oversized line comes after two lines were written |
| `SegmentLog.GoesStale` | crates/wokcore-diagnostics/src/segment.rs:1071-1127 | An undisturbed flush of that batch fails with EventExceedsSegment and leaves a writer that knows no event although the log holds one |
| `SegmentLog.EventsFit` | crates/wokcore-diagnostics/src/segment.rs:1094-1100 | Above the largest event no line of a batch is oversized |
| `SegmentLog.OneStep` | crates/wokcore-diagnostics/src/segment.rs:967-1187 | One flush, recovery, crash or retirement: a flush that answers Ok adds exactly its lines and another a prefix of them, a recovery cuts the torn tail and no line, a crash changes nothing, a retirement takes exactly one closed segment; an undisturbed flush of sequences above all offered before answers Ok |
| `SegmentLog.NothingIsLost` | crates/wokcore-diagnostics/src/segment.rs:967-1187 | In every run of such steps from an empty directory, each line of each acknowledged flush is on disk or in a segment that a retirement took away, and each line on disk was offered by some flush |
| `SegmentLog.EveryRun` | crates/wokcore-diagnostics/src/segment.rs:967-1187 | Every schedule of flushes, torn appends, crashes, recoveries and retirements is such a run; at every moment sequences on disk strictly increase, no segment exceeds the limit, and recovery accepts the directory and cuts no line; acknowledged lines are on disk or retired; calm flushes of new sequences are acknowledged; every successful flush adds segments only when the next line does not fit, and reports the last index |
| `DropLedger.Pipeline.Report` | crates/wokcore-diagnostics/src/segment.rs:172-183 | A reported drop is in the counters, nothing else changes and the books stay right |
| `DropLedger.Pipeline.Forward` | crates/wokcore-server/src/observability/writer.rs:778-801 | An accepted summary becomes a queued event and stays outstanding; a refused one goes back to the counters |
| `DropLedger.Pipeline.AbandonRequest` | crates/wokcore-diagnostics/src/segment.rs:241-251 | Dropping the request restores its summary; the books stay right when it had not been forwarded; otherwise the barrier failed, the owner is on its way out, and the books hold the summary exactly twice |
| `DropLedger.CountedTwice` | crates/wokcore-server/src/observability/writer.rs:778-801 | A summary that was forwarded and is restored as well is counted exactly twice |
| `DropLedger.CountsTwice` | crates/wokcore-server/src/observability/writer.rs:778-801 | A run in which three drops were reported, their summary was accepted and the barrier then failed: the counters end with six |
| `DropLedger.Pipeline.DropOwner` | crates/wokcore-server/src/observability/writer.rs:702-753 | The owner may go at any time, with its queues. While it ran undisturbed, exactly the counts of the drop events in memory are lost, and every other count stays; after a failed barrier the summary stays counted twice exactly when its event had not reached those queues |
| `DropLedger.LosesExactly` | crates/wokcore-server/src/observability/writer.rs:702-753 | The owner takes counts with it exactly when one of the drop events in its memory has a summary that is not zero |
| `DropLedger.LosesCounts` | crates/wokcore-server/src/observability/writer.rs:702-753 | A run in which three drops for a full ingress were summarised and queued, the append of the summary failed and the owner went: the three are neither in the counters nor on disk |
| `DropLedger.Pipeline.Acknowledge` | crates/wokcore-diagnostics/src/segment.rs:232-239 | Acknowledging closes the request; the summary stays with its event |
| `DropLedger.Pipeline.Finalize` | crates/wokcore-diagnostics/src/segment.rs:347-375 | The oldest event gets the next sequence and is filtered, counted as invalid, queued, or dropped; a dropped summary returns to the counters and the drop itself is counted; the books stay right. `RunCounts` pins which counter |
| `DropLedger.Pipeline.Collect` | crates/wokcore-diagnostics/src/segment.rs:519-552 | The oldest queued event moves to the pending ones and nothing is lost |
| `DropLedger.Pipeline.Settle` | crates/wokcore-diagnostics/src/segment.rs:589-609 | The outcome of a failed append is decided by what recovery finds: the summary is on disk and the counters stay, or it is not and the counters get it back |
| `DropLedger.Pipeline.TakeBatch` | crates/wokcore-diagnostics/src/segment.rs:610-677 | A batch is the front of the queue: one summary alone, or as many ordinary events as the event and byte limits admit |
| `DropLedger.Pipeline.RequestSummary` | crates/wokcore-diagnostics/src/segment.rs:613-640 | A request is made exactly when progress was made, none is outstanding and some counter is not zero; if it cannot be sent the counters get it back |
| `DropLedger.Pipeline.WriteBatch` | crates/wokcore-diagnostics/src/segment.rs:678-709 | A written batch is on disk; a failed one counts its events as writer_unavailable, may have left any prefix on disk, and leaves a summary undecided until recovery; a retention failure comes after the batch is on disk |
| `DropLedger.Pipeline.TryProcessNext` | crates/wokcore-diagnostics/src/segment.rs:584-709 | Every outcome keeps the books and says what moved: nothing, the counters into one request, or a batch from the front of the queue to the log; undisturbed nothing fails, and queued work is written |
| `DropLedger.EveryInterleaving` | crates/wokcore-diagnostics/src/segment.rs:171-709 | In every interleaving of producers, recorder, forwarder and owner, with every outcome of appends, recoveries and barriers and the owner going at any time, each state follows from the one before by its step; at every moment each count below saturation is in exactly one of the counters, the outstanding summary, the drop events and the counts lost, plus once more what a failed barrier doubled; the counts are for each cause exactly those of the steps: reported, invalid, found the queue full or closed, in a failed batch; every accepted event waits, is on disk or was discarded by one step; counts are lost at a step exactly when the owner goes with such counts in memory; without a failed barrier nothing is doubled; at most one summary is outstanding while the owner runs; sequences increase |
| `DropLedger.RunCounts` | crates/wokcore-diagnostics/src/segment.rs:347-709 | Over every run the drops observed for a cause are those the steps count: reports, invalid events, events that found the queue open and full, or closed, and the events of failed batches |
| `DropLedger.RunMoves` | crates/wokcore-diagnostics/src/segment.rs:347-709 | Over every run the accepted events are exactly those that wait, those on disk and those that one step discarded: unwanted or without room, in a failed batch and not on disk, or in the queues of an owner that went |
| `DropLedger.DiscardsAreCounted` | crates/wokcore-diagnostics/src/segment.rs:347-709 | Every discarded event is filtered out, goes with the owner or is counted; a failed append counts its whole batch |
| `DeleteProtocol.MarkerRoundTrip` | crates/wokcore-platform/src/diagnostics.rs:1055-1081 | A marker decodes to an identity exactly when it is the encoding of that identity |
| `DeleteProtocol.OneMarker` | crates/wokcore-platform/src/diagnostics.rs:1055-1081 | The bytes of one marker: the magic, then device and inode with the lowest byte first |
| `DeleteProtocol.Directory.Reclaim` | crates/wokcore-platform/src/diagnostics.rs:1525-1656 | A slot is freed exactly when its residue may be reclaimed, and then only its two names go; it fails exactly when a complete marker guards a tombstone that the system will not open; otherwise nothing changes; an interruption leaves one of the states in between; `ClaimedIsUnguarded` says what that means for locks |
| `DeleteProtocol.ClaimedIsUnguarded` | crates/wokcore-platform/src/diagnostics.rs:1570-1625 | A slot whose tombstone or marker another handle has locked is not freed, and a locked marker does not make a reclaim fail |
| `DeleteProtocol.Directory.CreateMarker` | crates/wokcore-platform/src/diagnostics.rs:1413-1490 | A marker is a file new to the directory; a complete one holds the encoded identity, an interrupted one is a partial marker or none |
| `DeleteProtocol.Directory.Reserve` | crates/wokcore-platform/src/diagnostics.rs:925-979 | The search goes round to the first slot that can be freed or fails, and the next begins behind it; the file is renamed into the slot behind a complete marker; without interruption that fails only when the search finds no slot that can be freed, or when the file cannot be opened, and then its marker is gone again |
| `DeleteProtocol.Directory.RemoveOpenFile` | crates/wokcore-platform/src/diagnostics.rs:846-902 | Wherever it stops the file is intact under its own name, in one tombstone, behind a matching marker if it is private, or gone; no other file is touched. Undisturbed it changes nothing when the file is locked or the search finds no slot. Otherwise, by the slot found: a private file is gone; any other that can be opened is left emptied in a slot that is not residue, with a refusal; one that cannot be opened stays, with a refusal, and the slot is freed. A locked file is left alone, and so is every slot that another handle guards |
| `DeleteProtocol.Directory.InitialSlot` | crates/wokcore-platform/src/diagnostics.rs:1016-1041 | Reopening frees exactly the reclaimable slots before the first unoccupied one, answers the least usable slot, and touches nothing else, not even when it is interrupted halfway; undisturbed it fails exactly at a slot before the first unoccupied one whose reclaim fails; slots that another handle guards stay as they are |
| `DeleteProtocol.ResidueIsReclaimable` | crates/wokcore-platform/src/diagnostics.rs:1525-1656 | With the old locks released a reclaim frees exactly the slots that hold residue, in one step, and a slot whose tombstone does not match a complete marker is left alone |
| `DeleteProtocol.SweptIsSafe` | crates/wokcore-platform/src/diagnostics.rs:1525-1656 | Reclaiming slots one after the other leaves residue as residue, other slots as they were, and every other file as it was |
| `DeleteProtocol.InterruptedIsSafe` | crates/wokcore-platform/src/diagnostics.rs:1525-1656 | So does a reclaim that is interrupted halfway |
| `DeleteProtocol.Directory.ReclaimAll` | crates/wokcore-platform/src/diagnostics.rs:1525-1656 | One undisturbed reclaim of every slot frees exactly those that can be reclaimed |
| `DeleteProtocol.Reached` | crates/wokcore-platform/src/diagnostics.rs:925-979 | The search for a slot ends at one slot only; if the reclaim of that slot fails, no slot is claimed |
| `DeleteProtocol.StepKeeps` | crates/wokcore-platform/src/diagnostics.rs:846-1656 | A file that is intact or in its tombstone is so after any step, or it is private and gone; it is intact unless it was the one deleted; a marker or a new file may reuse the inode of a file that is gone |
| `DeleteProtocol.RunIsAccounted` | crates/wokcore-platform/src/diagnostics.rs:846-1656 | Between any two moments of a run: every visible file is intact or in one tombstone, or was private and gone at some moment, and is intact if nobody deleted it; every visible file was there or was created; residue stays residue unless a file that is not private took the slot; other slots are untouched |
| `DeleteProtocol.StepRespectsLocks` | crates/wokcore-platform/src/diagnostics.rs:846-1656 | No step changes a slot that holds a tombstone while another handle has the tombstone or its marker locked, and a file that is locked is not deleted |
| `DeleteProtocol.LockedSlotStays` | crates/wokcore-platform/src/diagnostics.rs:1570-1625 | Over every run a tombstone and its marker stay as they are for as long as another handle keeps one of them locked |
| `DeleteProtocol.ReclaimSettles` | crates/wokcore-platform/src/diagnostics.rs:1525-1656 | With the locks released, one reclaim of every slot leaves each file intact, or private and gone at some moment, or stuck in a slot if it is not private |
| `DeleteProtocol.GoneExactly` | crates/wokcore-platform/src/diagnostics.rs:846-979 | An undisturbed deletion takes the file from its name exactly when it is removable, that is, not locked, possible to open and with a slot that the search finds, and leaves it intact otherwise; it destroys the file exactly when it is also private to the user |
| `DeleteProtocol.StrandsSharedFile` | crates/wokcore-platform/src/diagnostics.rs:846-902 | A file that others may read: its deletion is refused, its bytes are gone, and reclaiming every slot does not remove its tombstone |
| `DeleteProtocol.BlockedRefuses` | crates/wokcore-platform/src/diagnostics.rs:925-979 | An undisturbed deletion whose search comes to a slot that fails is refused and changes nothing, and the next search begins behind that slot |
| `DeleteProtocol.StopsAtUnreadableTombstone` | crates/wokcore-platform/src/diagnostics.rs:925-979 | A directory with one unreadable tombstone behind a complete marker: the first deletion of a private file is refused, the second succeeds |
| `DeleteProtocol.EveryRun` | crates/wokcore-platform/src/diagnostics.rs:846-1656 | Every run of creations, deletions, restarts and locks from every directory and slot cursor, each stopped anywhere: the files are accounted for between any two moments as above; one later reclaim of every slot without locks frees all residue and settles every file that was ever visible; files nobody deletes are intact; no step touches what another handle has locked |
| `ExportPhase.StepKeeps` | crates/wokcore-diagnostics/src/export.rs:943-1154 | Every atomic step keeps the invariant of an export, never takes the permit back and moves the phase only forward |
| `ExportPhase.StepsRunOut` | crates/wokcore-diagnostics/src/export.rs:943-1154 | Every step uses up a bounded amount of work, so the compare-exchange loops end; an exchange fails only because the phase moved on |
| `ExportPhase.HeldExportsCommit` | crates/wokcore-diagnostics/src/export.rs:1079-1102 | While the request handle is held a working worker is Running, so its commit wins |
| `ExportPhase.EveryExportEnds` | crates/wokcore-diagnostics/src/export.rs:949-1154 | An export without handles has no step left, holds no permit, and was either cancelled or committed; with a handle left some step is enabled |
| `ExportPhase.Coordinator.TryBegin` | crates/wokcore-diagnostics/src/export.rs:905-929 | A new export is admitted exactly when no export holds the permit |
| `ExportPhase.Coordinator.Act` | crates/wokcore-diagnostics/src/export.rs:943-1154 | One step of one export; a permit given up returns to the semaphore |
| `ExportPhase.EveryInterleaving` | crates/wokcore-diagnostics/src/export.rs:893-1154 | For every schedule of begins and of steps by the holders of handles, over any number of exports, the exports are those the schedule leads to; at most one has a live worker and it holds the permit, exports without handles hold none, cancel and commit never both win, the permit is free exactly when no export holds it, and the steps that changed something are bounded by the number of exports; once the request is dropped the export is cancelled or committed, and while it is held a worker at work is not cancelled |
| `EventMerge.ReadLine` | crates/wokcore-diagnostics/src/export.rs:1520-1570 | The next line of the file, or the error for a missing newline or an over-long line, for every way the file is cut into pieces |
| `EventMerge.NextCursor` | crates/wokcore-diagnostics/src/export.rs:1753-1773 | Fetches the next event of a source, or ends exactly at the end of a source that ends in a newline; a refusal means an unfinished, over-long or invalid line |
| `EventMerge.OpenSource` | crates/wokcore-diagnostics/src/export.rs:1589-1642 | Opens a source on its first event; a refusal means the source is not well formed |
| `EventMerge.AdvanceCursor` | crates/wokcore-diagnostics/src/export.rs:1710-1751 | Moves to the next event, which is after the current one; a refusal means the source is not well formed |
| `EventMerge.Merge.Start` | crates/wokcore-diagnostics/src/export.rs:1589-1644 | All sources are opened and the heap holds exactly their heads |
| `EventMerge.Merge.DropDuplicates` | crates/wokcore-diagnostics/src/export.rs:1678-1692 | Every other cursor on the sequence just taken is advanced; a refusal means sources disagree or are not well formed |
| `EventMerge.Merge.NextEvent` | crates/wokcore-diagnostics/src/export.rs:1664-1696 | The next line is one not emitted yet, and ending means everything was emitted; the guard against repeating a sequence never fires |
| `EventMerge.UnionIsUnique` | crates/wokcore-diagnostics/src/export.rs:1578-1773 | There is only one strictly increasing sequence made of the events of all sources |
| `EventMerge.MergeAll` | crates/wokcore-diagnostics/src/export.rs:1578-1773 | Draining succeeds with the sorted union of the sources, each event once; undisturbed it succeeds exactly when every source is well formed and the sources agree byte for byte on shared sequences |
| `LittleEndian.DecodeEncode` | crates/wokcore-diagnostics/src/export.rs:2734-2761 | Encoding a number that fits and decoding it returns the number |
| `LittleEndian.EncodeDecode` | crates/wokcore-diagnostics/src/export.rs:2734-2761 | Decoding bytes and encoding the number returns the bytes |
| `LittleEndian.LowestFirst` | crates/wokcore-diagnostics/src/export.rs:2734-2740 | A number read from two parts is the first part plus the second in units of what the first can hold |
| `Crc.Update` | crates/wokcore-diagnostics/src/export.rs:2719-2727 | Feeding byte by byte, eight rounds each, computes the register |
| `Crc.FeedChunks` | crates/wokcore-diagnostics/src/export.rs:2719-2727 | Feeding chunk by chunk is feeding everything at once |
| `Crc.RoundIsInjective` | crates/wokcore-diagnostics/src/export.rs:2719-2727 | A round of the register loses no information |
| `Crc.OneByteIsDetected` | crates/wokcore-diagnostics/src/export.rs:2712-2732 | Changing one byte anywhere changes the checksum |
| `Crc.ChecksumIsRemainder` | crates/wokcore-diagnostics/src/export.rs:2712-2732 | For every message the checksum is the complement of the remainder of a long division over bits by the generator x^32 + x^26 + ... + 1, of the message followed by 32 zero bits with its first 32 bits complemented |
| `Crc.CheckValue` | crates/wokcore-diagnostics/src/export.rs:2712-2732 | The published check value: the text 123456789 has checksum 0xcbf43926 |
| `Crc.WordBits` | crates/wokcore-diagnostics/src/export.rs:2719-2727 | The shift, mask and exclusive or on a 32-bit word do what a round does on its bits |
| `Crc.PolynomialIsGenerator` | crates/wokcore-diagnostics/src/export.rs:2719-2727 | The constant 0xedb88320 holds the coefficients of the generator below x^32 |
| `ZipLayout.LocalFields` | crates/wokcore-diagnostics/src/export.rs:2191-2222 | The checks on a local header hold exactly when the written header is at that place |
| `ZipLayout.CentralFields` | crates/wokcore-diagnostics/src/export.rs:2446-2505 | The checks on a central header hold exactly when the written header is at that place |
| `ZipLayout.EndFields` | crates/wokcore-diagnostics/src/export.rs:2507-2522 | The checks on the end record hold exactly when the written record is at that place |
| `ZipLayout.Signatures` | crates/wokcore-diagnostics/src/export.rs:38-40 | The three signatures are the letters PK with 3 4, 1 2 and 5 6 |
| `ZipLayout.ReadContent` | crates/wokcore-diagnostics/src/export.rs:2223-2320 | The contents and their checksum, read in chunks, exactly when the file is long enough |
| `ZipLayout.ReadEntry` | crates/wokcore-diagnostics/src/export.rs:2187-2330 | A local entry is accepted exactly when the bytes are the header and contents of some entry within its size |
| `ZipLayout.ReadEntries` | crates/wokcore-diagnostics/src/export.rs:2187-2345 | The five entries are found exactly when the file starts with the local part of five entries within their sizes |
| `ZipLayout.ReadCentral` | crates/wokcore-diagnostics/src/export.rs:2444-2505 | The central directory is accepted exactly when it repeats what was read of each entry |
| `ZipLayout.Verify` | crates/wokcore-diagnostics/src/export.rs:2158-2527 | A byte string is accepted exactly when it is the layout of five good entries, and then those entries are the ones found |
| `ZipLayout.PackageWriter.WriteEntry` | crates/wokcore-diagnostics/src/export.rs:1862-1930 | The output grows by the local header and bytes of the entry; offset and size fit 32 bits |
| `ZipLayout.PackageWriter.WriteCentralDirectory` | crates/wokcore-diagnostics/src/export.rs:1932-1982 | After five entries the output is the whole layout; otherwise it is refused |
| `ZipLayout.ChecksumsFit` | crates/wokcore-diagnostics/src/export.rs:1845-1854 | The checksum document is at most 85 bytes an entry |
| `SupportPackage.Prepare` | crates/wokcore-diagnostics/src/export.rs:1331-1459 | The measuring and the writing pass over the sources give the same events, so every package that is written verifies; undisturbed it succeeds exactly when the sources are well formed and agree and the documents are within their sizes, free of leaks and acceptable |
| `SupportPackage.MergePass` | crates/wokcore-diagnostics/src/export.rs:1806-1843 | One pass answers the joined sorted union of the sources and its number of events; undisturbed it succeeds on all well-formed sources that agree |
| `SupportPackage.WriteScanned` | crates/wokcore-diagnostics/src/export.rs:2021-2035 | An entry is written under its measured header exactly when the chunked scan finds no leak in it |
| `LeakScan.PushCanary` | crates/wokcore-diagnostics/src/export.rs:648-658 | A canary is admitted exactly when the set stays within its limits |
| `LeakScan.ContainsForbiddenLocation` | crates/wokcore-diagnostics/src/export.rs:2576-2611 | Found exactly when a location marker or a quoted path, share or drive occurs |
| `LeakScan.ContainsFixedForbidden` | crates/wokcore-diagnostics/src/export.rs:685-687 | Found exactly when one of the fixed patterns occurs |
| `LeakScan.OccursInPieces` | crates/wokcore-diagnostics/src/export.rs:2679-2700 | A pattern occurs in the stream exactly when it occurs in what was seen or in the carried tail with the new chunk |
| `LeakScan.SoughtFits` | crates/wokcore-diagnostics/src/export.rs:660-668 | No pattern that is looked for is longer than the carried tail and one byte |
| `LeakScan.ScanLogicalBytes` | crates/wokcore-diagnostics/src/export.rs:2679-2700 | One chunk is refused exactly when the tail with the chunk leaks; otherwise the new tail is the end of it |
| `LeakScan.ScanLogicalEntry` | crates/wokcore-diagnostics/src/export.rs:2679-2700 | For every pattern set and every way of cutting an entry into chunks, the chunked scan finds a leak exactly when the whole entry has one |
| `LeakScan.ScanRawArchive` | crates/wokcore-diagnostics/src/export.rs:2636-2677 | For every way the archive is read, the raw scan finds a canary exactly when the archive contains one |
| `JsonlReader.StopsOnce` | crates/wokcore-sessions/src/cursor.rs:189-278 | A batch ends in one place only, so it does not depend on how the file is read |
| `JsonlReader.JsonlReader.FinishRawFingerprint` | crates/wokcore-sessions/src/cursor.rs:159-161 | A fingerprint is given out only for exactly as many bytes as were promoted |
| `JsonlReader.JsonlReader.Collect` | crates/wokcore-sessions/src/cursor.rs:189-278 | The lines of one batch as records, up to the place where a batch stops |
| `JsonlReader.JsonlReader.ScanBounded` | crates/wokcore-sessions/src/cursor.rs:171-297 | One batch returns the next lines with consecutive ordinals and cumulative ends and moves the cursor past exactly them; an over-long line refuses the whole batch; undisturbed it makes progress or reports the end; the fingerprint absorbs exactly the lines taken, also when the batch is refused |
| `JsonlReader.RecordsContinue` | crates/wokcore-sessions/src/cursor.rs:189-250 | The records of some lines and of the lines after them, counted on, are the records of all |
| `JsonlReader.ReadAll` | crates/wokcore-sessions/src/cursor.rs:142-297 | For every file, every choice of limits and every restart from a saved cursor: repeated scans return exactly the newline-terminated lines; undisturbed they succeed when no line is too long; a fingerprint kept from the start covers exactly the committed bytes; reading to the end succeeds only if every line is within the limit |
| `JsonlReader.FingerprintAfter` | crates/wokcore-sessions/src/cursor.rs:155-297 | For every file and every sequence of batches from its start: the fingerprint is given for the cursor, and is that of the bytes before it, exactly when no refused batch had taken a line |
| `JsonlReader.RefusesOrKeeps` | crates/wokcore-sessions/src/cursor.rs:171-278 | A short line before one that is too long: read in one batch both are refused and the fingerprint is lost; read alone first, the short line is committed and keeps its fingerprint |
| `Recorder.RecorderState.constructor` | crates/wokcore-diagnostics/src/recorder.rs:162-192 | At the start every sequence is left |
| `Recorder.RecorderState.TryReserve` | crates/wokcore-diagnostics/src/recorder.rs:236-251 | A slot is taken exactly when the channel is open and not full; DroppedClosed and DroppedFull are answered exactly when it is closed and when it is open and full |
| `Recorder.RecorderState.ReserveSequence` | crates/wokcore-diagnostics/src/recorder.rs:194-202 | A sequence is reserved exactly when one is left, and the slot then owns it |
| `Recorder.RecorderState.Send` | crates/wokcore-diagnostics/src/recorder.rs:263-268 | The template enters the queue of its channel |
| `Recorder.RecorderState.ElevateNextSequence` | crates/wokcore-diagnostics/src/recorder.rs:495-519 | Succeeds exactly when the skipped sequences are not reserved; then the next sequence is above the recovered one |
| `Recorder.RecorderState.FinalizeAndInsert` | crates/wokcore-diagnostics/src/recorder.rs:578-609 | The template gets the next sequence, nonzero and above all earlier ones, and the ring takes it |
| `Recorder.RecorderState.Receive` | crates/wokcore-diagnostics/src/recorder.rs:536-552 | The oldest template of a channel gets a sequence above every recovered one; a closed, drained ingress ends and answers the close commands |
| `Recorder.RecorderState.CloseIngress` | crates/wokcore-diagnostics/src/recorder.rs:562-569 | The ingress takes nothing more and keeps what it holds; the answer comes at once only when the ingress is over, and otherwise waits |
| `Recorder.NothingIsLost` | crates/wokcore-diagnostics/src/recorder.rs:218-609 | In every run the templates accepted through a channel are those that got a sequence, in order, followed by those still queued |
| `Recorder.LaterIsAbove` | crates/wokcore-diagnostics/src/recorder.rs:495-609 | Every sequence handed out after a successful elevation is above the recovered one |
| `Recorder.EveryInterleaving` | crates/wokcore-diagnostics/src/recorder.rs:162-609 | Every schedule of recording, elevation, finalization and closing is such a run; at every moment unreserved sequences plus reserved and queued events are the sequences left, and sequences handed out are nonzero, strictly increase and never wrap; accepted templates have one or wait for one, in order; an answered close means everything accepted has one; later sequences are above recovered ones |
| `Ring.DiagnosticRing.Insert` | crates/wokcore-diagnostics/src/ring.rs:138-163 | The ring holds the longest suffix of all inserted events that fits its budget; out of order and oversized events are refused exactly when they are |
| `Ring.DiagnosticRing.PageOf` | crates/wokcore-diagnostics/src/ring.rs:165-216 | A page is the longest run of events right after the cursor in its direction within both limits |
| `Ring.Walk` | crates/wokcore-diagnostics/src/ring.rs:165-216 | Following cursors from the start visits every retained event exactly once, in either direction, for every choice of limits |
| `Ring.NextPage` | crates/wokcore-diagnostics/src/ring.rs:165-216 | A page at the cursor of a walk continues it without a gap or a repeat, whatever was inserted or evicted since; an empty page means everything retained was visited, but for what arrived after the start of a descending walk |
| `Ring.WalkWhileInserting` | crates/wokcore-diagnostics/src/ring.rs:138-216 | For every schedule of arrivals and pages, in either direction: the ring holds the longest fitting suffix of the arrivals it takes, each page is the page of what is then retained, the walk is strictly sorted and reports only events that were taken, and at an empty page it has visited every event then retained, but for what arrived after the start of a descending walk |
| `SequenceDigits.Finalize` | crates/wokcore-diagnostics/src/event.rs:1072-1093 | Writes the twenty digits of the sequence in place and nothing else; zero is refused; the digits decode to the sequence |
| `SequenceDigits.DecodesExactly` | crates/wokcore-diagnostics/src/event.rs:1769-1780 | A text decodes to a sequence exactly when it is the twenty digits of a nonzero 64-bit number |
| `SequenceDigits.DigitsAreOrdered` | crates/wokcore-diagnostics/src/event.rs:1072-1100 | The digits of a smaller number come first in byte order |
| `SnapshotBudget.SnapshotOwner.Process` | crates/wokcore-diagnostics/src/snapshot.rs:621-715 | Suppressed for cooldown exactly when the table says so, refused when too large, suppressed when the minute would exceed the budget; otherwise recorded and charged; only the last three move the budget clock |
| `SnapshotBudget.ClockAdvances` | crates/wokcore-diagnostics/src/snapshot.rs:648-655 | Dropping old buckets leaves exactly what was published in the minute that ends now |
| `SnapshotBudget.PublishingFits` | crates/wokcore-diagnostics/src/snapshot.rs:652-695 | Publishing what fits the minute that ends now keeps every minute within the budget |
| `SnapshotBudget.RecordedTable` | crates/wokcore-diagnostics/src/snapshot.rs:702-715 | The cooldown table holds exactly the last 256 keys entered |
| `SnapshotBudget.ForgottenExactly` | crates/wokcore-diagnostics/src/snapshot.rs:702-715 | A key is forgotten exactly when 256 keys were entered after it |
| `SnapshotBudget.CooldownForgets` | crates/wokcore-diagnostics/src/snapshot.rs:621-715 | With 257 keys one key is written twice in the same second |
| `SnapshotBudget.EveryRun` | crates/wokcore-diagnostics/src/snapshot.rs:621-715 | In every run each outcome is the one that what was published and entered before calls for; no minute of the budget clock holds more published bytes than the budget; and with at most 256 distinct keys two snapshots of one key are at least 60 observed seconds apart; a snapshot is suppressed by the cooldown only if the last one of its key was less than the cooldown before |
| `SnapshotBudget.CoolingHasReason` | crates/wokcore-diagnostics/src/snapshot.rs:626-640 | A request answered as cooling follows one of the same key that was written or tried less than the cooldown before, the last one of that key |
| `Retention.ContinuesThere` | crates/wokcore-diagnostics/src/retention.rs:292-325 | Asking for the entries after the last one visited continues exactly there, whatever was removed meanwhile |
| `Retention.AgePass` | crates/wokcore-diagnostics/src/retention.rs:196-213 | Exactly the expired unleased closed segments go, and the closed bytes left are counted |
| `Retention.BytePass` | crates/wokcore-diagnostics/src/retention.rs:215-230 | Closed unleased segments go oldest first until the limit is met: started with the closed bytes of the listing, it removes the shortest such run |
| `Retention.TrimmedExactly` | crates/wokcore-diagnostics/src/retention.rs:215-230 | The byte pass removes a segment exactly when it is removable and the closed bytes up to it were over the limit |
| `Retention.TrimmedIsShortest` | crates/wokcore-diagnostics/src/retention.rs:215-230 | What the byte pass leaves is the listing without the removable segments among its oldest n entries, where n is the least that meets the limit |
| `Retention.LimitOrLeased` | crates/wokcore-diagnostics/src/retention.rs:215-230 | After the byte pass the limit is met or every closed segment left is leased |
| `Retention.YoungExactly` | crates/wokcore-diagnostics/src/retention.rs:196-213 | The age pass removes a file exactly when it is an expired, unleased, closed segment |
| `Retention.ScanOwned` | crates/wokcore-diagnostics/src/retention.rs:236-290 | Succeeds with the highest index exactly when every segment but the active one is complete and their sequences follow each other |
| `Retention.Enforce` | crates/wokcore-diagnostics/src/retention.rs:162-233 | On success the expired removable segments are gone, then the shortest oldest-first run of removable segments that meets the limit; the active and every leased segment remain; the closed bytes are within the limit or all closed segments left are leased; undisturbed it succeeds exactly when the directory checks out; a failure takes no more than removable segments; the newest segment, leased files and files that are no segment stay, also when it fails, and on success every other segment older than the limit is gone |
| `LogJoin.RecoveryReportsLastOfLog` | crates/wokcore-diagnostics/src/segment.rs:589-609 | When the lines on disk are the events of the ledger's log, recovery reports the last event of that log |
| `LogJoin.AppendToLog` | crates/wokcore-diagnostics/src/segment.rs:678-709 | A flush by the segment writer carries out the ledger's append: the disk holds the log with the whole batch on success and with a prefix of it on failure, and recovery would report its last event |
| `LogJoin.SoundIsChecked` | crates/wokcore-diagnostics/src/retention.rs:236-290 | Retention accepts every log the segment writer produced and takes its last segment for the active one |
| `LogJoin.RemovalIsSound` | crates/wokcore-diagnostics/src/retention.rs:196-230 | What retention may remove from such a log is a closed segment, and the log stays sound without it |
| `Calendar.CivilRoundTrip` | crates/wokcore-server/src/runtime.rs:105-118 | Days to date and back is the identity on every day |
| `Calendar.DateRoundTrip` | crates/wokcore-server/src/runtime.rs:74-118 | Date to days and back is the identity on every date of the Gregorian calendar |
| `Calendar.CivilFollowsCalendar` | crates/wokcore-server/src/runtime.rs:105-118 | The era arithmetic agrees with the month lengths and the leap year rule: each day is followed by the next calendar day, starting from 1970-01-01 |
| `Calendar.YearBound` | crates/wokcore-server/src/runtime.rs:58-72 | A date lies before a year exactly when its day number lies before the first day of that year, which is how the range check up to year 9999 works |
| `Calendar.ParseIsLeftInverse` | crates/wokcore-diagnostics/src/event.rs:124-168 | Every valid timestamp, rendered, parses to itself |
| `Calendar.ParseIsRightInverse` | crates/wokcore-diagnostics/src/event.rs:124-168 | Every text that parses is the rendering of what it parses to |
| `Calendar.SecondsRoundTrip` | crates/wokcore-server/src/runtime.rs:58-103 | A second is rendered exactly when it lies before the end of year 9999, and parsing the rendering returns it |
| `Calendar.TextRoundTrip` | crates/wokcore-server/src/runtime.rs:58-103 | A text has epoch seconds exactly when it is a valid timestamp from 1970 on, and those seconds render back to it |
| `Calendar.TextsAreOrdered` | crates/wokcore-server/src/runtime.rs:58-72 | Of two seconds up to year 9999 the earlier has the text that comes first in byte order |
| `Calendar.NinetySeconds` | crates/wokcore-server/src/runtime.rs:58-72 | Second 90 is 1970-01-01T00:01:30Z |
| `Accounts.UsedLessTransitive` | crates/wokcore-engine/src/accounts.rs:480-493 | The weighted comparison is a total preorder: not being used less is transitive |
| `Accounts.StillBest` | crates/wokcore-engine/src/accounts.rs:425-447 | Replacing the choice exactly by a less used candidate keeps it the least used so far, the first of equals |
| `Accounts.AccountTable.SelectFrom` | crates/wokcore-engine/src/accounts.rs:416-453 | The answer is the healthy affinity account, the least used healthy candidate, an unknown account, or none, each exactly when it should be, with the table it leaves; `AccountRuns` says which accounts that leaves eligible |
| `AccountRuns.EveryRun` | crates/wokcore-engine/src/accounts.rs:292-495 | Every run of observations and selections, with any times: each selection is answered from the history before it. The account of the affinity is chosen if it is registered and not held back; otherwise, of the candidates not held back, the one selected least for its weight, and of those the one selected longest ago, and of those the first; an unregistered candidate or none left are refused |
| `AccountRuns.HealthyExactly` | crates/wokcore-engine/src/accounts.rs:174-213 | An account is healthy exactly when its history does not hold it back: revoked credentials without a later success; the cooldown of its last failure, unless it was looked at after that; a quota of zero before its reset |
| `AccountRuns.OneAnswer` | crates/wokcore-engine/src/accounts.rs:416-462 | The history decides the answer of a selection |
| `AccountRuns.PickedIsOpen` | crates/wokcore-engine/src/accounts.rs:416-462 | A selected account is a registered candidate for the authentication and not held back |
| `AccountRuns.CooldownLengths` | crates/wokcore-engine/src/accounts.rs:311-327 | A cooldown is the base after the first failure, doubles with each further one up to the limit, and is never shorter than the hint up to the limit |
| `AccountRuns.BaseIsKept` | crates/wokcore-engine/src/accounts.rs:311-327 | After a failure an account without a success is held back for at least the base cooldown |
| `AccountRuns.HintIsKept` | crates/wokcore-engine/src/accounts.rs:311-327 | After its last failure an account without a success is held back for at least the hint up to the limit |
| `AccountRuns.CutsHintShort` | crates/wokcore-engine/src/accounts.rs:311-327 | A run in which an account with a hint of thirty seconds is selected three seconds later, because it failed again without a hint |
| `AccountRuns.ForgetsCooldown` | crates/wokcore-engine/src/accounts.rs:174-188 | A run in which a selection after the end of a cooldown clears it and the clock then goes back |
| `Accounts.NeverAhead` | crates/wokcore-engine/src/accounts.rs:416-493 | In a fair run (count_i - 1) * w_j is at most count_j * w_i for every two accounts |
| `Accounts.ExactlyProportional` | crates/wokcore-engine/src/accounts.rs:416-493 | After k times the sum of the weights every account was picked exactly k times its weight |
| `Accounts.AlwaysNearlyProportional` | crates/wokcore-engine/src/accounts.rs:416-493 | At every moment an account is at most one pick above its share and at most one pick per candidate below it |
| `Accounts.RunIsFair` | crates/wokcore-engine/src/accounts.rs:416-493 | Selections one at a time from a fresh table with fixed, healthy candidates and no affinity always answer, and their picks form a fair run |
| `Accounts.Restore` | crates/wokcore-engine/src/accounts.rs:244-286 | Succeeds exactly when the snapshots are of distinct registered accounts and each is restorable; then the states are the normalized snapshots and the sequence is the largest one seen |
| `Accounts.ReachableIsKept` | crates/wokcore-engine/src/accounts.rs:292-347 | Observing keeps a state among the reachable ones |
| `Accounts.RestorableUnlessStranded` | crates/wokcore-engine/src/accounts.rs:244-286 | A reachable state, normalized, is restorable exactly when it is not stranded: more than 64 failures, or cooling down while quarantined |
| `Accounts.ReachableYetStranded` | crates/wokcore-engine/src/accounts.rs:311-330 | A revoked credential followed by a rate limit reaches a state that restore refuses |
| `Accounts.Reconfigured` | crates/wokcore-engine/src/accounts.rs:387-399 | Carrying a reachable table over to a new set of accounts succeeds exactly when no kept account is stranded, and then keeps their states |
| `Affinity.CapacitiesAddUp` | crates/wokcore-engine/src/affinity.rs:51-62 | The capacities of the shards add up to the configured maximum |
| `Affinity.TableFits` | crates/wokcore-engine/src/affinity.rs:39-144 | The table never holds more than its maximum |
| `Affinity.AffinityTable.Bind` | crates/wokcore-engine/src/affinity.rs:71-109 | The key is bound to the account; another live binding is pushed out only from a shard full of live entries, and it is the one that expires soonest |
| `Affinity.AffinityTable.Lookup` | crates/wokcore-engine/src/affinity.rs:111-129 | A hit is the account last bound to the key, still live; while the clock does not run backwards a live binding is missed exactly when it was pushed out of a full shard |
| `Affinity.AffinityTable.Len` | crates/wokcore-engine/src/affinity.rs:131-144 | Expired entries go everywhere and the count is within the maximum |
| `Affinity.EveryRun` | crates/wokcore-engine/src/affinity.rs:39-144 | In every run of binds, lookups and counts a lookup answers only the account last bound to its key while that binding lives; while the clock does not run backwards it misses exactly when the key was never bound, its binding expired, or it was pushed out since; a bind pushes out the binding that expires soonest, exactly when its shard is full of live bindings of other keys; a count is the number of live bindings, and always within the maximum |
| `Affinity.LiveIsAlive` | crates/wokcore-engine/src/affinity.rs:71-129 | The live entries of a shard are exactly the bindings of the run that have not expired and were not pushed out since |
| `Retention.Directory.Remove` | crates/wokcore-diagnostics/src/retention.rs:371-397 | An entry goes only if its bytes are still a complete segment; a failure leaves the listing with or without it |
| `Recorder.RecorderState.Abandon` | crates/wokcore-diagnostics/src/recorder.rs:252-262 | A draft that cannot be prepared gives its slot back and nothing else changes |
| `Recorder.RecorderState.CloseAll` | crates/wokcore-diagnostics/src/recorder.rs:528-533 | Shutdown closes both channels and keeps what they hold |
| `Affinity.AffinityTable.Touch` | crates/wokcore-engine/src/affinity.rs:73-76 | The 64-bit counter wraps and the touch it hands out saturates |
| `Affinity.SoonestExists` | crates/wokcore-engine/src/affinity.rs:88-94 | A non-empty shard has an entry that expires first, ties broken by touch and digest |
| `EventMerge.ReadRange` | crates/wokcore-diagnostics/src/export.rs:1794-1804 | A read is some non-empty piece of what was asked for, or a failure |
| `DropLedger.Pipeline.PopQueue` | crates/wokcore-diagnostics/src/segment.rs:610-614 | Pending events come before queued ones, oldest first |
| `DropLedger.Pipeline.Record` | crates/wokcore-diagnostics/src/recorder.rs:218-269 | An accepted event enters the recorder's queue and the books stay right |
| `Affinity.NewTable` | crates/wokcore-engine/src/affinity.rs:39-69 | A table exists exactly for a maximum and a lifetime within their limits, and starts empty |
| `Ring.WithByteBudget` | crates/wokcore-diagnostics/src/ring.rs:126-136 | A ring exists exactly for a budget between the largest event and the largest ring, and starts empty |

## Left out

- SegmentLog.SegmentWriter.Rotate: does not model the overflow of the 64-bit segment index, which the source refuses as invalid data.
- SegmentLog.SegmentWriter.Enumerate: the directory is its listing in name order; paging by 128 entries is modelled once, in `Retention`.
- DropLedger.EveryInterleaving: conservation is stated below saturation of a counter; ordinary events lost with a dropped owner are not counted by the source either.
- DropLedger.Pipeline.WriteBatch: a failed batch counts all its events although a prefix may be on disk, as in the source.
- DeleteProtocol.Directory.RemoveOpenFile: one deletion at a time under the parent lock; locks of other handles are a set the environment chooses. Renames by other processes between the identity check and the unlink are not modelled.
- DeleteProtocol.Directory.Reserve: the retry of a lost compare-exchange when claiming a slot is not modelled.
- ExportPhase.EveryInterleaving: handles are dropped eventually or kept, never leaked; the semaphore's waiting queue is not modelled, so `begin` is `TryBegin` at the moment it is admitted.
- EventMerge.MergeAll: a line refused for a leak and one refused as invalid are the same rejection, and the 64 MiB cap on the merged file is checked by `SupportPackage.Prepare` once the pass is over.
- ZipLayout.Verify: the checks on JSON documents, event lines and leaks are the parameter `acceptable`, and all refusals are one; cancellation and buffer accounting are not modelled.
- LeakScan.ContainsFixedForbidden: the scan of decoded JSON strings is not modelled.
- JsonlReader.ReadAll: whether the last full batch already reports the end depends on how the file was read; only that it reports the end when nothing is left is stated. Changes of the file while it is read are not modelled.
- Recorder.EveryInterleaving: the early checks of the shutdown flags and the query channel are not modelled; a plain barrier says nothing about ingress that was accepted before it.
- Ring.DiagnosticRing.Insert: the refusal when nothing is left to evict cannot be reached and has no branch of its own.
- SnapshotBudget.SnapshotOwner.Process: writing the file, its numbering and the removal of old snapshots are one step that succeeds or fails.
- Retention.Enforce: sums of file lengths are not saturated at 64 bits, the number of pages scanned is not reported, and a missing directory is not modelled.
- Accounts.AccountTable.SelectFrom: the 64 shards and their locks are one map, and calls come one at a time.
- Affinity.AffinityTable.Bind: operations are atomic and happen one at a time; two keys with the same digest are the same key.
- Calendar.CivilRoundTrip: arithmetic is on unbounded integers; the source works in 64 bits on values far below their limits.
- HTTP transport, DNS, TLS, uploads and stream pumping.
- The command line, production wiring, process metrics, Windows deletion and the simulator server.
- SHA-256, UUIDs and JSON encoding and decoding themselves.
- The session directory layer, configuration and secret stores and the state database.
- Catalog and configuration validation, retry policy and diagnostics counters, which would add only easy members.
- Memory accounting, wall-clock waits and fairness of scheduling.
