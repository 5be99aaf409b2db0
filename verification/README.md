# Verified model of the KChat backup and archive engine

A Dafny model of the encrypted backup and archive engine: events are journaled, drained in batches,
grouped, sealed into segments, framed for object storage, referenced from signed and hash-linked
manifests, compacted as they age, prefetched and restored. The project states what each of these
parts promises over every input or every run, and proves it.

`dafny verify dfyconfig.toml` checks everything.

## How it is laid out

| file | what it holds |
|---|---|
| `Foundations.dfy`, `Bytes.dfy` | options, results, machine integers, digests and keys, division facts, fixed-width bytes |
| `Tombstones.dfy` | deletion by tombstone for any kind of event: compaction against sequential deletion |
| `BackupCompaction.dfy`, `ArchiveCompaction.dfy` | the two taxonomies, replay, and the two compaction passes |
| `ReplayComponents.dfy` | what a compacted group does to each conversation, message and attachment of a replay |
| `CompactionPlan.dfy` | the age and bucket planner, and running its plans to the end |
| `CompactionRun.dfy` | a whole compaction run over a ledger of segments and their events |
| `BackupCoordinator.dfy` | two mutexes and every interleaving of the calls that take them |
| `EpochKeys.dfy` | the epoch key manager and its slot in the archive coordinator |
| `Journals.dfy`, `JournalCodecs.dfy` | the append-only journals with a cursor, and how rows are read back |
| `PatternC.dfy` | the framed object codec |
| `ManifestChain.dfy` | building, signing, sealing and walking manifest chains |
| `ArchiveSegments.dfy`, `ArchiveRouting.dfy`, `TimeBuckets.dfy` | grouping, sealing, the S3 tier, monthly buckets |
| `Prefetch.dfy` | plain, routed and padded bucket fetches |
| `Base64.dfy`, `ChunkAad.dfy`, `KeyInfo.dfy`, `CivilDays.dfy`, `Perf.dfy` | encodings and arithmetic |

Code that computes by expressions is a function; a loop, a record updated in place or an object with
state is a method or a class, proved against a function of the old state, and the theorems are about
that function. AEAD, key wrap, key derivation, hashes, signatures, CBOR and zstd are values of a
datatype of functions; a predicate `Lawful` states what is asked of them (opening inverts sealing,
decoding inverts encoding, fixed output lengths) and is a premise where it is needed. No hash is ever
assumed injective: where two things could collide, the theorem's conclusion names the collision.
SQL tables are sequences and a cursor; random ids, nonces and shuffles are parameters. A byte vector
is never longer than the largest signed 64-bit number.

## Where the code and its documentation differ

The model follows the code.

- Tombstones are said to drop earlier events; the pass ignores order, so a later event of a deleted
  conversation is dropped too (`BackupCompaction.LateEventIsLost`).
- A tombstone is dropped with its group even when what it cancels lies in an older segment outside the
  group, which brings the message back (`BackupCompaction.StrandedTombstoneResurrects`).
  `BackupCompaction.ReplayExactlyWhen` says, for any ledger, exactly when one such swap leaves the replay
  as it was: what the group's tombstones name, unless later segments delete it or set it anew, must have
  the same value before the group as after the group alone. `BackupCompaction.CompactionExactlyWhen` and
  `BackupCompaction.CompactionCountsExactlyWhen` say it for the live events, and
  `CompactionRun.RunKeepsEventsExactlyWhen` for the ledger a whole run leaves.
- The archive pass drops a `ConversationCreated` event that carries a deleted message's id; the backup
  pass keeps it (`ArchiveCompaction.CreationWithDeletedMessageIsLost`). They agree on every other batch
  (`ArchiveCompaction.ArchiveAgreesWithBackup`).
- `week_start_ms` is documented as the Monday at or before its argument; before 1970-01-05 it lies after
  it, except on an exact week boundary (`CompactionPlanner.WeekStartExactlyWhen`).
- A rotation files the outgoing key before it derives the new one, so a failing derivation leaves the
  current id among the retired ones (`EpochKeys.CallTearsExactlyWhen`), and the export of such a
  manager no longer restores it (`EpochKeys.RestoreExactlyWhen`). A derivation that never refuses rules
  this out (`EpochKeys.TotalDerivationNeverTears`).
- Deleting an epoch key is described as final even with the root in hand; the key is a function of root
  and id, and a manager opened at that id has it again (`EpochKeys.DeletedKeyIsRederivable`).
- The backup journal skips rows of unknown tags so that they do not freeze the drain, but counts them
  against the batch limit first: a window full of them freezes it (`BackupJournal.ForeignRowsStarve`).
- A compaction run reads the ledger and commits its replacement under separate acquisitions of the lock,
  so it takes away what was committed in between: `BackupCoordinator.StaleCompactionLoses` gives such a
  run, `BackupCoordinator.StaleCompactionLosesExactlyWhen` says when.
- Pattern C encrypts under any chunk size; its own output is refused when chunk size plus tag passes 32
  bits (`PatternC.RoundTripExactlyWhen`, with the wrap-around of the largest sizes).
- The backend router hands the S3 object to the decrypter without the Pattern C open that the upload
  made necessary (`ArchiveRouting.RouterReturnsSealed`).
- The bucket of a timestamp is "unknown" for negative times only from a full second before the epoch on
  (`TimeBuckets.UnknownExactlyWhen`).
- The comment on the archive manifest's associated data names a V1 magic; the code uses the V2 one.

## Model

| member | source | states |
|---|---|---|
| Tombstones.CompactIsLive | crates/core/src/backup/compaction.rs:193-206 | dropping by all tombstones at once equals deleting in order exactly when no tombstone names a later event that stands |
| Tombstones.LiveIsStanding | crates/core/src/backup/compaction.rs:193-206 | the in-order meaning, independently: an event is live exactly when some occurrence of it has no tombstone after it that names it |
| Tombstones.PrefixUntouched | crates/core/src/backup/compaction.rs:234-244 | a group's tombstones leave the log before it alone exactly when they name nothing live there |
| Tombstones.SpliceIsExact | crates/core/src/backup/compaction.rs:207-284 | replacing a group by its compaction inside any log keeps the live events, under the two premises |
| Tombstones.SpliceExactlyWhen | crates/core/src/backup/compaction.rs:207-284 | in the middle of any log, for a group that repeats no earlier event: the splice is invisible exactly when every event it wrongly drops or spares is one that what follows deletes anyway |
| Tombstones.SpliceCountsExactlyWhen | crates/core/src/backup/compaction.rs:207-284 | the same with no premise, counting live events |
| Tombstones.CompactIdempotent | crates/core/src/backup/compaction.rs:207-284 | compacting twice is compacting once |
| Tombstones.TieredExactlyWhen | crates/core/src/backup/compaction.rs:207-284 | compacting `a` and then `a'` with `b` equals compacting both at once exactly when no tombstone of `a` names an event that `b` alone keeps |
| Tombstones.WeeklyThenMonthlyExactlyWhen | crates/core/src/backup/compaction.rs:50-60 | compacting each week and then the month equals compacting the month at once, exactly when the weeks' tombstones name nothing another week keeps |
| Tombstones.KeepIsSubsequence | crates/core/src/backup/compaction.rs:233-283 | the survivors are an order-preserving subsequence: exactly the positions that survive |
| Tombstones.CompactIgnoresOrder | crates/core/src/backup/compaction.rs:208-232 | permuting the log permutes the survivors |
| Tombstones.EachHasNoTombstone | crates/core/src/backup/compaction.rs:236-244 | batches that have been compacted hold no tombstone |
| Tombstones.AppendedExactlyWhen | crates/core/src/core_impl.rs:4665-4736 | any number of batches, each compacted and moved to the end of a log that is compacted again, yield the same events exactly when no tombstone of any batch names an event that remains |
| BackupEvents.TombstoneActsAsFilter | crates/core/src/backup/compaction.rs:193-206 | replaying a tombstone has the effect of filtering what it names out of the log before it |
| BackupEvents.ReplayOfLive | crates/core/src/backup/compaction.rs:193-206 | conversations, message bodies and media after a replay depend on the live events only |
| BackupCompaction.FilteredIsSurvival | crates/core/src/backup/compaction.rs:233-283 | the filter over three sets keeps an event exactly when it is no tombstone and none in the list names it |
| BackupCompaction.ApplyTombstones | crates/core/src/backup/compaction.rs:207-284 | the two-pass loop returns exactly the compaction of its input |
| BackupCompaction.CompactionPreservesReplay | crates/core/src/backup/compaction.rs:207-284 | swapping a run of segments for their compaction leaves the replay of the whole ledger unchanged, under the two premises |
| BackupCompaction.CompactionExactlyWhen | crates/core/src/backup/compaction.rs:207-284 | inside any ledger, for a group that repeats no earlier event: live events survive the swap exactly when every event wrongly dropped or spared is one the segments after the group delete anyway |
| BackupCompaction.CompactionCountsExactlyWhen | crates/core/src/backup/compaction.rs:207-284 | inside any ledger and for any group: each live event stays live as often exactly when every event a tombstone of the group names, and the segments after spare, is live as often before the group as in it |
| ReplayComponents.ReplayIsPointwise | crates/core/src/backup/compaction.rs:193-206 | replaying a log gives each conversation, message body and attachment the value that folding the log over that one component gives |
| ReplayComponents.ApartExactlyWhen | crates/core/src/backup/compaction.rs:193-206 | two different values of a component become equal under the same later events exactly when one of those deletes it or sets it anew |
| ReplayComponents.KeepAt | crates/core/src/backup/compaction.rs:207-284 | the survivors of a group leave a component that a tombstone names as it was before the group, and treat every other one as the group does |
| ReplayComponents.ReplaySplicedExactlyWhen | crates/core/src/backup/compaction.rs:207-284 | for any log, group and continuation, with no premise: the replays are equal exactly when the log before the group and the group alone agree on every component that a tombstone of the group names and the continuation does not settle |
| BackupCompaction.ReplayExactlyWhen | crates/core/src/backup/compaction.rs:207-284 | the same for a ledger of segments in which a group is swapped for its compacted segment |
| BackupCompaction.StrandedTombstoneResurrects | crates/core/src/backup/compaction.rs:238-244 | a witness: compacting a tombstone alone brings its message back |
| BackupCompaction.LateEventIsLost | crates/core/src/backup/compaction.rs:208-232 | a witness: an event after its own tombstone is dropped |
| ArchiveCompaction.FilteredIsSurvival | crates/core/src/archive/compaction.rs:73-94 | the filter over two sets keeps an event exactly when it is no tombstone and none in the list names it |
| ArchiveCompaction.ApplyArchiveTombstones | crates/core/src/archive/compaction.rs:51-95 | the loop and filter return exactly the compaction of their input under the archive rules |
| ArchiveCompaction.ArchiveAgreesWithBackup | crates/core/src/archive/compaction.rs:51-95 | compacting archive events and the backup events that mirror them agree exactly when no created-conversation event names a deleted message |
| ArchiveCompaction.CreationWithDeletedMessageIsLost | crates/core/src/archive/compaction.rs:73-94 | a witness: the archive pass drops a created conversation that carries a deleted message's id, the backup pass keeps it |
| CompactionPlanner.BucketsMonotone | crates/core/src/backup/compaction.rs:289-306 | week and month starts are monotone over all 64-bit times |
| CompactionPlanner.BucketsIdempotent | crates/core/src/backup/compaction.rs:289-306 | a bucket's start lies in its own bucket |
| CompactionPlanner.MonthStartExactly | crates/core/src/backup/compaction.rs:298-306 | the month start is the one multiple of 30 days with the time in the 30 days from it on, and before the epoch in the 30 days up to it |
| CompactionPlanner.WrapExactly | crates/core/src/backup/compaction.rs:119 | the age that is compared is the one 64-bit value that differs from the true one by a multiple of 2^64 |
| CompactionPlanner.WeekStartExactlyWhen | crates/core/src/backup/compaction.rs:286-296 | the computed week start is the Monday at or before the time exactly from 1970-01-05 on and on earlier week boundaries; elsewhere it lies in the future |
| CompactionPlanner.WeekStartExactly | crates/core/src/backup/compaction.rs:286-296 | the computed week start for every 64-bit time: the Monday at or before it, or at or after it before 1970-01-05 |
| CompactionPlanner.CollectBuckets | crates/core/src/backup/compaction.rs:112-136 | the loop files every aged segment under its bucket and no other |
| CompactionPlanner.FiledExactlyWhen | crates/core/src/backup/compaction.rs:117-135 | what is filed under a key: segments of its tier, old enough by the threshold of that tier, that begin in its week, or its month for weekly ones |
| CompactionPlanner.Plan | crates/core/src/backup/compaction.rs:111-156 | the method returns the specified plan |
| CompactionPlanner.PlanPartitions | crates/core/src/backup/compaction.rs:111-156 | a segment is in the plan as often as in the ledger, or not at all; in it exactly when it is daily and older than the first threshold, or weekly and older than the second, and enough such segments begin in its week or month |
| CompactionPlanner.PlanExactlyWhen | crates/core/src/backup/compaction.rs:111-156 | the planned segments are those, and each group is all the aged segments of one week or one month |
| CompactionPlanner.PlanIsOrdered | crates/core/src/backup/compaction.rs:107-110 | groups come out by tier and start; members are of the source tier, share a bucket and are sorted |
| CompactionPlanner.PlanIgnoresOrder | crates/core/src/backup/compaction.rs:107-110 | with identifying ids the plan depends only on which segments there are |
| CompactionPlanner.PlanSplitsLedger | crates/core/src/core_impl.rs:4662-4736 | what a plan takes and what it leaves is the ledger, each segment as often |
| CompactionPlanner.ExecutionDropsWeight | crates/core/src/core_impl.rs:4665-4736 | every executed group lowers the summed tier weights of the ledger |
| CompactionPlanner.CompactionReachesFixpoint | crates/core/src/core_impl.rs:4645-4736 | at a fixed time any run of non-empty plans is no longer than the starting weight |
| CompactionRun.SupersededIds | crates/core/src/backup/compaction.rs:172-179 | exactly the ids of the planned members |
| CompactionRun.MergeMembers | crates/core/src/core_impl.rs:4668-4690 | the members' events end to end, with the least start and the greatest end |
| CompactionRun.CompactBackup | crates/core/src/core_impl.rs:4645-4736 | the loops return the specified ledger: planned segments gone, the rest kept, one merged segment for each group that tombstones leave anything of |
| CompactionRun.SpanIs | crates/core/src/core_impl.rs:4672-4687 | the merged span holds the span of every member, and both its ends are taken from a member |
| CompactionRun.RunKeepsLedger | crates/core/src/core_impl.rs:4645-4736 | with fresh ids, every run leaves distinct ids, rows that count their events, and spans (core_impl.rs:4445-4454) that hold the times of the events |
| CompactionRun.RunSplitsLog | crates/core/src/core_impl.rs:4662-4736 | the retained segments and the planned groups hold the events of the ledger, each as often, wherever the segments sit |
| CompactionRun.RunIsExecuted | crates/core/src/core_impl.rs:4645-4736 | a run over events and segments executes its plan in the planner's sense |
| CompactionRun.RunKeepsEventsExactlyWhen | crates/core/src/core_impl.rs:4645-4736 | one run over any ledger with unique ids, all planned groups at once: a reader that drops what tombstones name (asked for at crates/core/src/restore/pipeline.rs:160-167) sees the same events, each as often, exactly when no tombstone of a planned group names an event that remains |
| CompactionRun.RunsEndAndKeepEvents | crates/core/src/core_impl.rs:4645-4736 | repeated runs end within the weight of the first ledger, and if each is safe its reader sees the events of that ledger |
| BackupCoordinator.Coordinator.constructor | crates/core/src/backup/coordinator.rs:227-232 | a new coordinator is empty |
| BackupCoordinator.Coordinator.HasKeys | crates/core/src/backup/coordinator.rs:239-244 | reports whether keys are installed |
| BackupCoordinator.Coordinator.InstallKeys | crates/core/src/backup/coordinator.rs:257-275 | keys and ledger are replaced, the manifest tail is kept |
| BackupCoordinator.Coordinator.CloneKeys | crates/core/src/backup/coordinator.rs:283-285 | a snapshot of the keys |
| BackupCoordinator.Coordinator.RequireKeys | crates/core/src/backup/coordinator.rs:299-302 | the keys, or the not-installed error |
| BackupCoordinator.Coordinator.GetPreviousManifest | crates/core/src/backup/coordinator.rs:320-327 | a snapshot of the manifest tail |
| BackupCoordinator.Coordinator.SetPreviousManifest | crates/core/src/backup/coordinator.rs:337-340 | only the manifest tail changes |
| BackupCoordinator.Coordinator.GetTrackedSegments | crates/core/src/backup/coordinator.rs:351-358 | a snapshot of the ledger |
| BackupCoordinator.Coordinator.CommitIncremental | crates/core/src/backup/coordinator.rs:383-392 | the tail is replaced and one segment appended |
| BackupCoordinator.Coordinator.CommitCompaction | crates/core/src/backup/coordinator.rs:404-421 | tail and ledger are replaced together |
| BackupCoordinator.BodyMeansApply | crates/core/src/backup/coordinator.rs:219-421 | the accesses of a call, run without interruption, have the effect and the result of the call |
| BackupCoordinator.StepKeeps | crates/core/src/backup/coordinator.rs:219-421 | every lock, access or unlock step of any thread keeps the invariant tying shared memory to the serial history |
| BackupCoordinator.EveryRunIsSerial | crates/core/src/backup/coordinator.rs:219-421 | every interleaving of any programs of calls is explained by a serial order that keeps each thread's order, every returned value and the final state |
| BackupCoordinator.NeverStuck | crates/core/src/backup/coordinator.rs:262-271 | in any state with the invariant, while a thread has work left some thread can move |
| BackupCoordinator.NoRunGetsStuck | crates/core/src/backup/coordinator.rs:262-271 | at the end of every run, while a thread has work left some thread can move |
| BackupCoordinator.CallRuns | crates/core/src/backup/coordinator.rs:219-421 | from every reachable state in which no call is in progress, any thread with a call left can take it through all its lock, access and unlock steps, with the effect and the result the call means |
| BackupCoordinator.LogsExactlyWhen | crates/core/src/backup/coordinator.rs:219-421 | the serial histories of runs are exactly the serial executions that take each thread's calls in program order: no run has another, and each is the history of a run |
| BackupCoordinator.LogOnlyGrows | crates/core/src/backup/coordinator.rs:219-421 | along a run the serial history is never rewritten |
| BackupCoordinator.RealTimeOrder | crates/core/src/backup/coordinator.rs:219-421 | in every run a call that has returned when another has not begun precedes it in the serial history |
| BackupCoordinator.HydratedMeansKeys | crates/core/src/backup/coordinator.rs:246-275 | a ledger entry only a hydration supplies implies installed keys |
| BackupCoordinator.SawHydratedSeesKeys | crates/core/src/backup/coordinator.rs:246-275 | in every run, once a call has returned a segment only a hydration supplies, every key query that any thread begins after that finds keys |
| BackupCoordinator.ThreadThatSawSeesKeys | crates/core/src/backup/coordinator.rs:246-275 | in every run the thread that was given such a segment finds keys in all its later queries |
| BackupCoordinator.TrackedExactlyWhen | crates/core/src/backup/coordinator.rs:257-421 | a segment is newly in the ledger exactly when some call since put it there and none replaced the ledger by one without it |
| BackupCoordinator.ReadsSeeLatest | crates/core/src/backup/coordinator.rs:219-421 | in every run: a call is given the keys and the manifest tail of the last call before it that set them, and the ledger of the last one that replaced it with the segments appended since, in order |
| BackupCoordinator.StaleCompactionLosesExactlyWhen | crates/core/src/core_impl.rs:4637-4786 | in every run, committing a compaction built from an earlier read takes away a segment the read had not returned exactly when its ledger lacks it and a call between the two put it there to stay |
| BackupCoordinator.StaleCompactionLoses | crates/core/src/core_impl.rs:4637-4786 | a witness: from any state, for any segment and any compacted ledger without it, a run in which the segment is committed between the read and the commit of a compaction, and is gone when all calls have returned |
| EpochKeys.EpochKeyManager.constructor | crates/core/src/archive/epoch_keys.rs:69-73 | the fields from an id and its derived key, with nothing retired |
| EpochKeys.EpochKeyManager.Open | crates/core/src/archive/epoch_keys.rs:65-74 | a fresh manager holding the key derived for its id, or the derivation's refusal |
| EpochKeys.EpochKeyManager.RotateEpoch | crates/core/src/archive/epoch_keys.rs:109-142 | the new state and error are those of the rotation, torn derivation included |
| EpochKeys.RotatesExactlyWhen | crates/core/src/archive/epoch_keys.rs:109-142 | a rotation is accepted exactly for an id that is neither current nor retired when both primitives succeed; what it leaves, and each refusal |
| EpochKeys.RotationsRetireAll | crates/core/src/archive/epoch_keys.rs:92-142 | with primitives that never refuse, rotating through any distinct ids leaves the last one current and exactly the earlier ones retired, each unwrapping to its derived key |
| EpochKeys.EpochKeyManager.UnwrapPriorEpochKey | crates/core/src/archive/epoch_keys.rs:157-172 | the unwrapped key or the reason there is none |
| EpochKeys.EpochKeyManager.DeleteEpochKey | crates/core/src/archive/epoch_keys.rs:192-194 | only that id leaves, and the answer says whether it was there |
| EpochKeys.EpochKeyManager.IngestWrappedPriorEpochKey | crates/core/src/archive/epoch_keys.rs:239-273 | files the key unless the id is current or known or the length is wrong |
| EpochKeys.ArchiveCoordinator.InstallEpochKeyManager | crates/core/src/archive/coordinator.rs:82-91 | replaces the manager by a fresh one, or leaves the slot as it was |
| EpochKeys.ArchiveCoordinator.RotateArchiveEpoch | crates/core/src/archive/coordinator.rs:139-160 | returns the outgoing id with its wrapped key; the branch that finds it missing is unreachable |
| EpochKeys.EveryRunIsSound | crates/core/src/archive/epoch_keys.rs:65-273 | in every run the current key is the one derived for the current id, and every key a rotation filed unwraps to the key derived for its id |
| EpochKeys.CallTearsExactlyWhen | crates/core/src/archive/epoch_keys.rs:109-273 | a call leaves the current id among the retired exactly when it is a rotation that is accepted, wraps, and fails to derive |
| EpochKeys.CurrentIsNotRetiredExactlyWhen | crates/core/src/archive/epoch_keys.rs:109-273 | at every point of a run the current id is not retired, exactly when no call of the run is such a rotation |
| EpochKeys.TotalDerivationNeverTears | crates/core/src/crypto/key_hierarchy.rs:138-151 | under a derivation that never refuses the current id is never retired, in any run |
| EpochKeys.RefusedDerivationTears | crates/core/src/archive/epoch_keys.rs:127-136 | a witness: a lawful key crypto that refuses one id, and the rotation to it that tears |
| EpochKeys.DeletedStaysUnreadable | crates/core/src/archive/epoch_keys.rs:186-194 | a deleted id fails to unwrap until a call names it again |
| EpochKeys.DeletedKeyIsRederivable | crates/core/src/archive/epoch_keys.rs:186-194 | the deleted key is the one a fresh manager at that id holds |
| EpochKeys.RestoreExactlyWhen | crates/core/src/archive/epoch_keys.rs:212-273 | a fresh manager that ingests the export in any order equals the original exactly when the original is not torn |
| Journals.EventJournal.constructor | crates/core/src/local_store/schema.rs:149-156 | an empty table and no cursor |
| Journals.EventJournal.WriteEvent | crates/core/src/backup/event_journal.rs:127-147 | appends one row under the next id and returns the id |
| Journals.EventJournal.ReadEventsSince | crates/core/src/backup/event_journal.rs:152-226 | the readable rows among the first `limit` past the position, in order, or the first unreadable row's error |
| Journals.EventJournal.ReadCursor | crates/core/src/backup/event_journal.rs:230-239 | the cursor, zero before any was written |
| Journals.EventJournal.AdvanceCursor | crates/core/src/backup/event_journal.rs:247-268 | moves the cursor, or refuses to move it back and changes nothing |
| Journals.EventJournal.ReadUnsegmented | crates/core/src/backup/event_journal.rs:273-280 | the batch after the cursor |
| Journals.StepKeeps | crates/core/src/backup/event_journal.rs:127-280 | every write, read, commit or abandoned batch keeps the drain invariant and never lowers the cursor |
| Journals.ExactlyOnce | crates/core/src/archive/event_journal.rs:137-277 | over every interleaving, what was delivered is every readable event up to the cursor, once, in order; cursor and deliveries only grow |
| Journals.DeliveredExactlyWhen | crates/core/src/archive/event_journal.rs:137-277 | in every run, an event has been stored under a row id exactly when a row up to the cursor has that id and reads as that event |
| Journals.RoundProgressesExactlyWhen | crates/core/src/backup/event_journal.rs:152-226 | a round moves the cursor exactly when its window holds no unreadable row and a readable one |
| Journals.DrainReaches | crates/core/src/backup/event_journal.rs:152-280 | for any table and limit, unreadable rows included, repeated rounds deliver exactly the events among the rows that whole windows reach |
| Journals.DrainsExactlyWhen | crates/core/src/backup/event_journal.rs:152-280 | for any table and limit, repeated rounds deliver everything exactly when no event lies past those rows; with no unreadable row ahead, exactly when no `limit` consecutive rows without an event precede an event |
| Journals.StallIsForever | crates/core/src/backup/event_journal.rs:157-193 | a full window of skipped rows stops the drain in every continuation that reads no bigger batches |
| Journals.UnreadableNeverPassed | crates/core/src/archive/event_journal.rs:187-222 | in every run, whatever the limits, the cursor never reaches an unreadable row and no event behind one is delivered |
| Journals.CorruptionIsForever | crates/core/src/archive/event_journal.rs:187-222 | an unreadable row in reach stops the drain, the events before it included, in every continuation whose batches reach it |
| Journals.ReachWithoutLegacy | crates/core/src/archive/event_journal.rs:162-222 | where no row is skipped, the rows reached are those before the first unreadable one, rounded down to whole windows |
| Journals.ReadableTableDrains | crates/core/src/archive/event_journal.rs:162-277 | a table of readable rows is drained by any positive limit |
| BackupJournal.TagParsesExactlyWhen | crates/core/src/backup/event_journal.rs:48-80 | a text parses to a type exactly when it is that type's tag |
| BackupJournal.StoredReadsBack | crates/core/src/backup/event_journal.rs:127-226 | a written event reads back unchanged |
| BackupJournal.ReadsExactlyWhen | crates/core/src/backup/event_journal.rs:152-226 | a row reads as an event exactly when tag and columns are the event's; it is corrupt exactly when the tag is known and an id that is there does not parse, the conversation reported first |
| BackupJournal.LegacyExactlyWhen | crates/core/src/backup/event_journal.rs:184-193 | a row is skipped exactly when its tag is none of the seven |
| BackupJournal.WrittenEventsDrain | crates/core/src/backup/event_journal.rs:127-280 | a journal written through its own writer is drained by any positive limit |
| BackupJournal.ForeignRowsStarve | crates/core/src/backup/event_journal.rs:157-193 | as many foreign rows as the limit starve every event behind them, in every run |
| ArchiveJournal.TagParsesExactlyWhen | crates/core/src/archive/event_journal.rs:61-90 | a text parses to a type exactly when it is that type's tag |
| ArchiveJournal.StoredReadsBack | crates/core/src/archive/event_journal.rs:137-222 | a written event reads back unchanged |
| ArchiveJournal.ReadsExactlyWhen | crates/core/src/archive/event_journal.rs:162-222 | a row reads as an event exactly when tag and columns are the event's; otherwise the first thing wrong is reported |
| ArchiveJournal.ArchiveDrains | crates/core/src/archive/event_journal.rs:162-277 | for any table and limit, the archive drain delivers exactly the whole windows before the first unreadable row, and everything exactly when no readable row lies past them |
| PatternC.EncryptObject | crates/core/src/crypto/convergent.rs:124-168 | the chunk loop yields the concatenated frames of the specified stream, or its first error |
| PatternC.DecryptObject | crates/core/src/crypto/convergent.rs:176-230 | the frame loop accepts and returns what the specified parser does, errors included |
| PatternC.FrameRoundTrip | crates/core/src/crypto/convergent.rs:137-163 | a sealed frame followed by anything opens to its chunk if the bound allows it |
| PatternC.RoundTripExactlyWhen | crates/core/src/crypto/convergent.rs:124-230 | decryption returns the plaintext exactly when chunk size and tag fit 32 bits, or the plaintext is empty and the bound wraps |
| PatternC.EncryptsExactlyWhen | crates/core/src/crypto/convergent.rs:124-168 | encryption succeeds exactly for a 32-byte key under which every chunk's nonce expands and every chunk seals to less than 4 GiB |
| PatternC.FramesAre | crates/core/src/crypto/convergent.rs:90-168 | for any accepted plaintext, frame `i` starts at `i` times the chunk size plus 44, with the nonce expanded over the label and the 8-byte big-endian `i`, and holds chunk `i` sealed under that nonce |
| PatternC.NoncesDiffer | crates/core/src/crypto/convergent.rs:90-97 | where the expansion separates its info strings, no two frames of a ciphertext share a nonce |
| PatternC.ZeroIsDefault | crates/core/src/crypto/convergent.rs:106-112 | a chunk size of zero means 16 MiB, on both sides |
| PatternC.CiphertextLength | crates/core/src/crypto/convergent.rs:152-162 | 44 bytes for every started chunk |
| PatternC.StreamsConcatenate | crates/core/src/crypto/convergent.rs:193-229 | a concatenation with an accepted stream decrypts to the concatenated plaintexts, or fails as the second stream does |
| PatternC.TruncationExactlyWhen | crates/core/src/crypto/convergent.rs:193-229 | a strict prefix is accepted exactly on a frame boundary, and then yields that many whole chunks |
| CivilDays.FitExactlyWhen | crates/core/benches/phase8_benchmarks.rs:272-281 | for every 32-bit year, no 32-bit intermediate overflows exactly when the year counted from March is at least 399 above the smallest |
| CivilDays.FormulaIsCalendar | crates/core/benches/phase8_benchmarks.rs:272-281 | the closed formula equals a recursive day count of the proleptic Gregorian calendar for every valid date |
| CivilDays.NextDayIsNextNumber | crates/core/benches/phase8_benchmarks.rs:272-281 | the next date has the next number |
| CivilDays.OrderPreserved | crates/core/benches/phase8_benchmarks.rs:272-281 | a date is before another exactly when its number is smaller |
| ManifestChain.ManifestDraft.Sign | crates/core/src/formats/manifest.rs:420-435 | both signature fields are set, or nothing changes |
| ManifestChain.SignedVerifies | crates/core/src/formats/manifest.rs:420-466 | what was signed verifies under the matching public key |
| ManifestChain.PayloadExactlyWhen | crates/core/src/formats/manifest.rs:381-390 | two manifests have the same payload exactly when they differ at most in the signatures |
| ManifestChain.ResigningIsIdle | crates/core/src/formats/manifest.rs:420-435 | signing again with the same key changes nothing |
| ManifestChain.ComputeSegmentMerkleRoot | crates/core/src/backup/manifest_builder.rs:236-242 | the streaming loop hashes the roots in order |
| ManifestChain.BuildAndSeal | crates/core/src/backup/manifest_builder.rs:118-185 | the builder returns the specified signed manifest sealed under its own associated data, or the first error |
| ManifestChain.BuildsExactlyWhen | crates/core/src/backup/manifest_builder.rs:118-185 | a build returns the draft with a reference for each segment at its place and the request's shards, media, tombstones and epoch keys, under both signatures; exactly when generation, predecessor, encoding and signing allow it |
| ManifestChain.RootsAre | crates/core/src/backup/manifest_builder.rs:236-242 | root `i` is bytes `32 i` to `32 i + 32` of what is hashed |
| ManifestChain.OpensExactlyWhen | crates/core/src/backup/manifest_builder.rs:190-230 | under an AEAD that binds its associated data, a sealed manifest opens exactly beside clear manifests of the same chain, id, generation, root and device |
| ManifestChain.SealOpens | crates/core/src/backup/manifest_builder.rs:209-230 | a sealed manifest opens to itself |
| ManifestChain.SealsExactlyWhen | crates/core/src/backup/manifest_builder.rs:166-230 | sealing and opening succeed exactly when codec and cipher take the encoding under that key and nonce beside the associated data |
| ManifestChain.AadInjective | crates/core/src/backup/manifest_builder.rs:190-204 | the associated data determines chain, id, generation, root and device |
| ManifestChain.LittleEndianDigit | crates/core/src/backup/manifest_builder.rs:198-200 | the generation is written lowest byte first |
| ManifestChain.BuildContinues | crates/core/src/archive/manifest_builder.rs:110-176 | one build counts the generation on, links to its predecessor's hash, and verifies |
| ManifestChain.HeaderExactlyWhen | crates/core/src/formats/manifest.rs:227-235 | the header check accepts a built manifest in its own chain and refuses it in the other, refuses other versions and unanchored first generations |
| ManifestChain.BuiltLinks | crates/core/src/backup/manifest_builder.rs:118-163 | every manifest of a built chain has its index as generation, the zero anchor or its predecessor's hash, a valid header and valid signatures |
| ManifestChain.VerifyManifestChain | crates/core/src/restore/manifest_verifier.rs:94-153 | the walk succeeds exactly when every link is sound: place, predecessor's hash, and both signatures accepted by their schemes over the payload; an error names the first fault |
| ManifestChain.VerifiesExactlyWhen | crates/core/src/formats/manifest.rs:439-466 | a manifest verifies exactly when both signatures have their length and both schemes accept them for the encoding of everything else |
| ManifestChain.AcceptedIsGenuine | crates/core/src/crypto/signing.rs:199-212 | as long as either scheme accepts only what its signer signed, a manifest changed outside its signature fields is refused |
| ManifestChain.TipFixesChain | crates/core/src/formats/manifest.rs:545-551 | two accepted chains with the same tip are equal throughout, or show two manifests with one hash |
| ArchiveSegments.GroupEventsByBucket | crates/core/src/archive/segment_builder.rs:273-289 | each key that occurs gets exactly its events, at increasing positions of the batch, and no other key occurs |
| ArchiveSegments.BatchOrderIsUnique | crates/core/src/archive/segment_builder.rs:282-286 | the group is the one sequence that lists the events of its key by increasing position |
| ArchiveSegments.SegmentAadInjective | crates/core/src/archive/segment_builder.rs:405-412 | the associated data determines segment id and root |
| ArchiveSegments.BuildsExactlyWhen | crates/core/src/archive/segment_builder.rs:295-370 | what a built segment holds, and that one is built exactly for a batch with events, of an archive type, that codec, compressor and cipher take |
| ArchiveSegments.DecryptsExactlyWhen | crates/core/src/archive/segment_builder.rs:417-448 | any segment is accepted exactly when it opens to bytes whose hash is the root and that decode to a payload with the right magic |
| ArchiveSegments.BoundToIdAndRoot | crates/core/src/archive/segment_builder.rs:405-448 | under an AEAD that binds its associated data, the ciphertext is accepted under no other id and no other root |
| ArchiveSegments.BuildDecrypts | crates/core/src/archive/segment_builder.rs:295-448 | a built segment decrypts to the payload it was built from |
| ArchiveSegments.EncodeBlob | crates/core/src/archive/download.rs:61-73 | the blob is a 72-byte header and the ciphertext |
| ArchiveSegments.BlobRoundTrip | crates/core/src/archive/download.rs:61-120 | a blob decodes to the segment's four parts |
| ArchiveSegments.BlobIsExact | crates/core/src/archive/download.rs:92-120 | a byte string decodes to a segment's parts exactly when it is that segment's blob |
| ArchiveSegments.DownloadAgrees | crates/core/src/archive/download.rs:147-202 | for every segment the download path accepts exactly what the builder's path accepts, with the same payload; errors differ only for a doubly wrong body |
| ArchiveRouting.Validate | crates/core/src/media/sinks/zk_fabric.rs:78-127 | succeeds exactly on a well-formed configuration |
| ArchiveRouting.S3ZkofArchiveAdapter.constructor | crates/core/src/archive/routing.rs:160-164 | the adapter keeps what it was given |
| ArchiveRouting.S3ZkofArchiveAdapter.Open | crates/core/src/archive/routing.rs:148-165 | an adapter exactly for a well-formed configuration and a named tenant, otherwise the first refusal |
| ArchiveRouting.S3ZkofArchiveAdapter.UploadSegment | crates/core/src/archive/routing.rs:206-220 | one object is written, or the store is unchanged |
| ArchiveRouting.S3ZkofArchiveAdapter.FetchSegment | crates/core/src/archive/routing.rs:222-232 | the stored object, still sealed |
| ArchiveRouting.SealOpens | crates/core/src/archive/routing.rs:179-203 | Pattern C open with the blob's hash inverts the seal; the length is exact |
| ArchiveRouting.UploadsExactlyWhen | crates/core/src/archive/routing.rs:179-220 | an upload succeeds exactly when tenant and hash give a key and Pattern C seals the blob under it, and then writes that one object |
| ArchiveRouting.RouterReturnsSealed | crates/core/src/archive/download.rs:298-315 | the router's S3 fetch never returns the uploaded blob, only its sealed form, which a Pattern C open would turn back |
| ArchiveRouting.RecoverAgrees | crates/core/src/archive/routing.rs:192-232 | fetch, open, decode and decrypt accept a stored segment exactly when the builder's path does |
| ArchiveRouting.UploadsStay | crates/core/src/archive/routing.rs:206-220 | later uploads of other segments leave an object alone |
| ArchiveRouting.GroupsPartition | crates/core/src/archive/segment_builder.rs:273-289 | the groups together are the batch |
| ArchiveRouting.EveryEventOnce | crates/core/src/archive/routing.rs:179-232 | grouped, sealed, uploaded, fetched and decrypted, a batch comes back whole: per key at increasing positions of the batch, no event lost or repeated |
| TimeBuckets.YearMonth | crates/core/src/archive/segment_builder.rs:383-401 | years from 1970 on, months 1 to 12 |
| TimeBuckets.MonthExactlyWhen | crates/core/src/archive/segment_builder.rs:383-401 | the exact times of every month: 30 days from its start, 35 for the last one of a 365-day year |
| TimeBuckets.NameIs | crates/core/src/archive/segment_builder.rs:396-400 | a name is the year in at least four digits, a dash and the month in two |
| TimeBuckets.UnknownExactlyWhen | crates/core/src/archive/segment_builder.rs:384-387 | there is no bucket exactly from a full second before the epoch down |
| TimeBuckets.BucketsFollowTime | crates/core/src/archive/segment_builder.rs:388-400 | later times never fall into an earlier year and month |
| TimeBuckets.SameBucketExactlyWhen | crates/core/src/archive/segment_builder.rs:396-400 | bucket names are equal exactly when year and month are |
| Prefetch.Transport.Fetch | crates/core/src/archive/prefetch.rs:130-131 | one answer, one entry in the access log |
| Prefetch.EnsureAllKChatBackend | crates/core/src/archive/prefetch.rs:41-58 | succeeds exactly when every row is a KChat row; otherwise names the first that is not |
| Prefetch.AllKChatExactlyWhen | crates/core/src/local_store/schema.rs:416-427 | only the literal S3 backend name is refused; unknown names pass |
| Prefetch.BatchPrefetchBucket | crates/core/src/archive/prefetch.rs:93-140 | the rows with their answers and exactly the requests made; a non-KChat row stops it before any request |
| Prefetch.FetchesExactlyWhen | crates/core/src/archive/prefetch.rs:129-139 | a batch succeeds exactly when every row is answered, and then holds one entry per row in order |
| Prefetch.RouterFetch | crates/core/src/archive/download.rs:291-317 | one row by its backend, with the two configuration errors |
| Prefetch.BatchPrefetchBucketWithRouter | crates/core/src/archive/prefetch.rs:148-192 | the rows with the answers of their backends and the KChat requests made |
| Prefetch.RouterAgreesOnKChat | crates/core/src/archive/prefetch.rs:148-192 | on KChat tables the router returns and requests what the plain fetch does |
| Prefetch.KChatOnlyExactlyWhen | crates/core/src/archive/download.rs:263-269 | a router without S3 serves a table exactly when the plain entry point does |
| Prefetch.ComputePaddingCount | crates/core/src/archive/privacy.rs:62-69 | none for none, otherwise twice the real count up to 32 |
| Prefetch.BatchPrefetchBucketWithPadding | crates/core/src/archive/prefetch.rs:207-277 | plain when padding is off, refused without a request on a non-KChat row, otherwise the padded fetch in shuffled order |
| Prefetch.PaddingRefinesPlain | crates/core/src/archive/prefetch.rs:217-277 | for any shuffle the padded fetch succeeds exactly when the plain one does, costs n + min(2n, 32) requests, and returns the same multiset exactly when no dummy is a real id |
| Base64.Base64UrlsafeEncode | crates/core/src/util.rs:20-39 | the loop over three-byte chunks yields the specified text |
| Base64.RoundTrip | crates/core/src/util.rs:20-39 | a decoder of section 5 of RFC 4648 without padding inverts the encoder on every byte string |
| Base64.DecodesExactlyWhen | crates/core/src/util.rs:20-39 | a text decodes to some bytes exactly when it is their encoding |
| Base64.EncodedLength | crates/core/src/util.rs:22-37 | four letters for three bytes, and none, two or three for the rest |
| Base64.EncodedIsUrlSafe | crates/core/src/util.rs:20-39 | letters, digits, dash and underscore only |
| KeyInfo.LabelsArePrefixFree | crates/core/src/crypto/key_hierarchy.rs:37-72 | no label is a prefix of another |
| KeyInfo.InfoExactlyWhen | crates/core/src/crypto/key_hierarchy.rs:146-265 | two choices of family and ids share an info string exactly when they are equal, or are two-id choices whose first ids both saturate the prefix and run together alike |
| KeyInfo.LongIdsCollide | crates/core/src/crypto/key_hierarchy.rs:249-264 | past the saturation point two different choices do share one |
| KeyInfo.SegmentInfos | crates/core/src/crypto/key_hierarchy.rs:146-205 | segment, manifest and epoch keys take label and id, end to end |
| KeyInfo.TenantInfos | crates/core/src/crypto/key_hierarchy.rs:243-330 | tenant keys with two ids take label, length of the first in four bytes, and both |
| ChunkAad.WriteVarint | crates/core/src/crypto/aead.rs:160-172 | the shifting loop appends the varint of its value |
| ChunkAad.VarintReadsBack | crates/core/src/crypto/aead.rs:160-172 | a reader gets back the value and what follows |
| ChunkAad.VarintsArePrefixFree | crates/core/src/crypto/aead.rs:160-172 | no varint is a prefix of another |
| ChunkAad.VarintLength | crates/core/src/crypto/aead.rs:160-172 | a value takes at most n bytes exactly when it is below 128 to the n |
| ChunkAad.VarintFits | crates/core/src/crypto/aead.rs:160-172 | ten bytes suffice for 64 bits |
| ChunkAad.BuildKChatChunkAad | crates/core/src/crypto/aead.rs:184-199 | the builder appends the six parts in order |
| ChunkAad.AadLayout | crates/core/src/crypto/aead.rs:184-199 | where each part lies and that chunk number and count read back big-endian |
| ChunkAad.AadInjective | crates/core/src/crypto/aead.rs:184-199 | the associated data determines all five arguments |
| Perf.PercentileMeaning | crates/core/src/perf.rs:254-268 | the percentile is one of the durations, with at least its share at most it and less than its share below it |
| Perf.PercentilesAscend | crates/core/src/perf.rs:254-268 | a higher percentage never gives a smaller percentile |
| Perf.PercentileEnds | crates/core/src/perf.rs:254-268 | a percentage of zero or less gives the fastest duration, one of 100 or more the slowest |
| Perf.SummaryMeaning | crates/core/src/perf.rs:274-297 | p50, p95, p99 and the maximum ascend; the maximum is attained; the total is the sum, saturated |
| Perf.SummaryPercentiles | crates/core/src/perf.rs:284-286 | at least 50, 95 and 99 percent of the durations are at most the reported percentile, and fewer are below it |
| Perf.SlowestIs | crates/core/src/perf.rs:274-297 | no trace ends later than its start plus the maximum, and one ends just then |
| Perf.InMemoryPerfCollector.Record | crates/core/src/perf.rs:167-171 | one trace is appended |
| Perf.InMemoryPerfCollector.Drain | crates/core/src/perf.rs:158-163 | everything is handed out and the buffer emptied |
| Perf.InMemoryPerfCollector.Summarize | crates/core/src/perf.rs:304-315 | the grouping loops return the specified summaries |
| Perf.GroupingIsComplete | crates/core/src/perf.rs:304-315 | one summary for each operation that occurs, in name order, with counts that add up to all traces |
| Perf.CheckBudgets | crates/core/src/perf.rs:331-348 | the nested loops return the specified reports |
| Perf.ReportedExactlyWhen | crates/core/src/perf.rs:331-348 | a violation is reported exactly when some summary exceeds some budget of its operation |
| Perf.ReportedOnce | crates/core/src/perf.rs:331-348 | as many reports as pairs over budget |
| Perf.ReportsFollowBudgets | crates/core/src/perf.rs:331-348 | reports come in the order of the budgets, and under one budget in the order of the summaries |

## Left out

- Percentile ranks in floating point: the rank is computed over exact rationals.
- BackupCoordinator.EveryRunIsSerial: a poisoned mutex, after a panic under the lock, is not modelled, and neither is memory reclamation.
- EpochKeys.DeletedStaysUnreadable: zeroization of key buffers is not modelled; the statement is about what the manager answers.
- Journals.ExactlyOnce: one drain and any number of writers; two drains at once, and a transaction rolled back after its rows were read, are not modelled.
- Prefetch.PaddingRefinesPlain: a transport that answers the same id differently within one batch is not modelled.
- ArchiveRouting.EveryEventOnce: the order in which the ordered map lists the keys is not modelled; any listing of them is allowed.
- ArchiveRouting.RouterReturnsSealed: whether the decrypter then rejects the sealed bytes rests on the AEAD's security, which is not modelled.
- BackupCompaction.CompactionPreservesReplay: compares logs in ledger order; the sort by timestamp in the restore pipeline is not modelled.
- BackupCompaction.CompactionExactlyWhen: the order of the live events is compared only for groups that repeat no event of the segments before them; for all others `CompactionCountsExactlyWhen` compares how often each is live.
- The subtraction of ages in the planner wraps as it does in an optimised build; an overflow panic of a debug build is not modelled.
- The internals of ciphers, hashes, signatures, key wrap, CBOR and zstd: functions with stated laws.
- The wire bundles, body payloads, the KChat upload path and the dispatch-only routing functions: single branches or easy round trips once CBOR is abstract.
- Search, media, offload, scheduling, foreign-function bridges and configuration: outside the engine.
