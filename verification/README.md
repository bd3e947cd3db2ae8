# Databox: a verified model of its protocols

Databox is a sharded, raft-replicated key-value store with versioned reads, transactions, live shard splits,
streamed snapshots and a blob layer. This project models the repository's own protocols and algorithms in Dafny and
proves what they promise. etcd-raft, Pebble, SHA-256 and Reed-Solomon are taken by their contracts.

`dafny verify dfyconfig.toml` checks the whole project.

## What is modelled

| module | subject |
|---|---|
| `Bytes`, `Layout` | byte order, ranges and pages; big-endian counters, history keys, prefix bounds |
| `Kv` | one group's replicated state machine as functions from committed state to committed state |
| `Machine` | the same state machine as an object: cached counters, a batch staged command by command, garbage collection |
| `Mvcc`, `History` | versioned reads against the write log, for one entry and for whole logs |
| `Reads`, `Imports` | exactly which entries keep and show versioned reads in any state, and the same for any log, imported records included |
| `Scan` | the two-iterator merge behind versioned listings |
| `Serving` | what a group answers: reads of the past, refusals and their exact reasons, the horizon, page sizes |
| `Occ` | optimistic transactions, and identifiers allocated by compare-and-swap |
| `Split`, `SplitProof`, `SplitFinish` | the live shard split as a state machine over its proposals, its invariant, and that it can always be finished |
| `TwoPhase`, `Isolation` | cross-group two-phase commit with crashes and the janitor; what its transactions and readers see of each other |
| `Listing` | a prefix listing across shards |
| `Node`, `NodeProof`, `Durability`, `Replay` | one replica's disk: log, compaction, snapshot receive and install, crashes, and what survives them |
| `Storage` | the raft log in the store as a plain log with a base offset |
| `Stream` | the snapshot page stream |
| `Blob`, `BlobLayout`, `BlobWrite`, `BlobRead`, `BlobEdit`, `BlobRange`, `BlobLaws`, `Placement` | blob manifests: layout, write, read, append, splice, ranged reads, placement, and the laws that join them |
| `Watch` | the change feed's ring buffer and subscriber queues |
| `Membership` | voters of the metadata group |

## Hypotheses

- **Raft.** A group has one committed log with strictly increasing indexes, from 1. Appended entries are contiguous,
  committed entries are never truncated, and a snapshot is handed over only if it is ahead of the commit index. A
  node does not start from a non-zero applied index below its compaction point.
- **Pebble.** Batches are atomic and ordered; a crash keeps every batch up to the last synced one and any number after it.
- **Revisions.** `History.TimeTravel` and the theorems of `Scan`, `Occ` and `Replay` built on it are for logs without
  `copy_in` and without a `tx_apply` that deletes a key and then puts it back (`History.CleanLog`). For every other log
  `Imports` says exactly which reads are right.
- **Split.** One controller at a time acts on current metadata and knows each proposal's outcome before the next step,
  or crashes. Clients use sets, deletes, range deletes and single-group transactions; no two-phase intents are pending in
  the moving range. Routers stop using the pre-flip map once `split_cleanup` has applied.
- **Two-phase commit.** Every issued commit or abort proposal applies, and the janitor acts once the coordinator stopped.
- **Scans.** Keys hold no NUL byte.
- **Hash and code.** SHA-256 has no collisions and resumes from its midstate. Any `dataShards` shards of a codeword give
  back all of it.

## Where the code does not deliver a property

Each has a concrete input and the exact condition under which the property holds.

- **A version lost to garbage collection.** After one `tx_apply` deletes and re-puts a key, an overwrite at a garbage
  collection index prunes the version it just archived (`History.ResurrectionLosesAVersion`). An entry leaves earlier
  reads of a key alone if and only if it does not clobber the key in this way (`Mvcc.EntryKeepsReads`).
- **Revisions that go back.** `copy_in` raises the revision above the raft index and the next writes set it back. The
  conditions below are tests of each entry in the state it finds, and hold for every log: any commands, imports anywhere.
  - Versioned reads of a key are exact at every moment if and only if every entry keeps the readable reads below its index
    and settles the reads from its index on (`Imports.TimeTravelIff`). Clean logs pass (`Imports.CleanPasses`).
  - A pinned read changes, at once (`History.CopyInMovesPinnedReads`) or only at a later write that is ahead of the
    revision it finds (`Imports.AheadMovesPinnedRead`). Reads at revisions the group ever reported stay as they were if
    and only if every entry passes `Reads.KeepsReads` up to the largest of them (`Imports.PinnedStableIff`).
  - A deleted key comes back: deleted below its imported revision (`Imports.DeletedImportIsRevived`), deleted after an
    overwrite had archived the import (`Imports.OverwrittenImportIsRevived`), or deleted at a collection index that is
    also its imported revision, where the pass removes the new tombstone (`Imports.CollectedTombstone`). A removal whose
    tombstone is kept is seen from its index on if and only if neither the removed record nor an archived version that
    outlives the entry is above that index (`Reads.RemovalSettlesIff`; any entry: `Reads.CurrentIff`).
  - A live imported key is missing from reads at the group's own revision, such as a `list_at` with revision 0, once a
    write of another key has moved the revision back (`Imports.LiveImportIsHidden`). It is there if and only if its
    revision is no larger (`Reads.LiveReadIff`; `Scan.ListsLatestIff` for whole listings). Over a log, the own revision
    shows the latest records if and only if every entry settles at the revision it reaches (`Imports.ShowsLatestIff`).
  - A stale transaction commits (`Occ.ImportedRevisionIsReused`). The check passes over a later write exactly when that
    write left the revision that was read (`Occ.CheckPassesIff`). A key read as present is safe from every continuation
    without imports if and only if the revision read is no larger than the raft index reached, or is the next index while
    the key is frozen and no prepared transaction puts it (`Occ.GuardedIff`). Against a further import nothing is safe
    (`Occ.ImportUnnoticed`).
- **Cross-group transactions are not serializable.** docs/consistency.md:56-59 promises that a transaction which would
  commit against changed data aborts, whatever the number of shards. Prepare checks the reads but leaves nothing on keys
  that are only read, so two transactions that each read what the other writes both commit (`Isolation.WriteSkew`,
  `Isolation.SkewIsOneRun`, `Isolation.CommitMakesStale`). The reads hold at a moment after the prepares if and only if
  the last write of each since then left the revision read (`Isolation.ReadsHoldIff`). Keys both read and written are
  protected from other transactions (`Isolation.ReadModifyWriteHolds`).
- **Part of a transaction is visible.** docs/consistency.md:39 says readers never observe a subset of a transaction's
  writes. A committed transaction passes through such a moment if and only if it writes in more than one group
  (`Isolation.HalfVisibleIff`).
- **A cursor before the prefix.** A listing with such a cursor also lists live records between the two. A versioned one
  lists those visible at its revision (`Scan.LowCursorListsOthers`; exactly when: `Scan.MergeIsVisible`). One across
  shards lists those in the prefix's own shard (`Listing.LowCursorWalksIn`), and exactly those (`Listing.RoutedIsTruth`).
- **Compaction ahead of the persisted applied index.** Empty raft entries move only the in-memory applied index, and
  compaction uses that one. A replica that crashes then has a log that starts above the index it restarts from, whatever
  the compaction threshold (`NodeProof.CompactionStrands`). That never happens in a run if and only if at every
  compaction the two indexes were equal or none had been persisted (`NodeProof.StaysRestartableIff`).
- **A ranged read that comes back empty.** `offset + length` is added in 64 bits (`BlobRange.OverflowLosesAByte`). With a
  readable window the result is the clamped slice if and only if that sum does not overflow
  (`BlobRange.RangeIsSliceIff`). The HTTP handler clamps the length to the blob first
  (pkg/routes/v1api/v1api.go:1000-1003), so the overflow needs a direct call.
- **Resuming a watch at the oldest revision.** One entry may publish several events with one revision, and some may be
  gone while others are kept (`Watch.ResumeAtOldestMayMiss`). A resume misses nothing, whatever the prefix, if and only
  if the newest evicted event is older than the resume revision (`Watch.ResumeCompleteIff`).

## Model

| member | source | states |
|---|---|---|
| `Layout.BigEndianRoundTrip` | pkg/store/store.go:65-69 | reading back a big-endian counter that fits its width gives the number written |
| `Layout.ReadBigEndian` | pkg/kv/mvcc.go:216-230 | the shift-and-or loop computes the big-endian value of any byte string |
| `Layout.ParseHistKeyRoundTrip` | pkg/store/store.go:137-152 | splitting a history key gives back the user key and revision it was made of |
| `Layout.HistKeyOrder` | pkg/store/store.go:137-152 | for keys without NUL bytes, raw history keys sort by user key and then by revision, in both directions |
| `Layout.PrefixUpperBound` | pkg/store/store.go:249-260 | the loop's bound makes [prefix, bound) hold exactly the keys that start with the prefix |
| `Layout.HistScan` | pkg/kv/mvcc.go:201-230 | an iterator over a history prefix yields exactly the archived versions under it, in raw key order |
| `Layout.CursorBound` | pkg/kv/localread.go:120-128 | starting a scan at cursor plus a NUL byte is the same as resuming strictly after the cursor |
| `Kv.DividesIsMod` | pkg/kv/mvcc.go:301-312 | the collection-index test used by the model is the remainder test of the code |
| `Kv.MaxRev` | pkg/kv/kv.go:781-801 | the revision after `copy_in` is the largest of the current and the imported ones |
| `Machine.StateMachine.constructor` | pkg/kv/kv.go:258-272 | opening a group loads the cached revision, horizon and freeze from the persisted records |
| `Machine.StateMachine.RefreshAfterRestore` | pkg/kv/kv.go:899-922 | after an install the cached counters again equal the persisted ones |
| `Machine.StateMachine.Apply` | pkg/kv/kv.go:282-301 | committing one entry turns the persisted state into `Kv.Apply` of it, the answer is the specified one, and the cached counters equal the persisted records |
| `Machine.StateMachine.Dispatch` | pkg/kv/kv.go:304-369 | every command stages exactly its specified effect, or nothing when it is rejected |
| `Machine.StateMachine.BumpRev` | pkg/kv/kv.go:373-381 | the cached and the staged revision both become the raft index |
| `Machine.StateMachine.PutRecord` | pkg/kv/kv.go:386-395 | a put archives the committed record it replaces before staging the new one |
| `Machine.StateMachine.DeleteRecord` | pkg/kv/kv.go:403-412 | a delete archives the committed record and leaves a tombstone, and leaves none for an absent key |
| `Machine.StateMachine.FrozenWrites` | pkg/kv/kv.go:451-458 | the loop finds a write in the frozen range if and only if there is one |
| `Machine.StateMachine.ValidateReads` | pkg/kv/kv.go:553-573 | the loop accepts if and only if every read key has its seen revision and carries no intent |
| `Machine.StateMachine.CheckWrites` | pkg/kv/kv.go:586-593 | the loop returns the error of the first write that cannot be staged, if any |
| `Machine.StateMachine.ApplySet` | pkg/kv/kv.go:502-512 | freeze and size are checked first; an accepted set stages one put at its index |
| `Machine.StateMachine.ApplyDelete` | pkg/kv/kv.go:514-521 | a frozen key is refused; otherwise the delete is staged at its index |
| `Machine.StateMachine.ApplyDeleteRange` | pkg/kv/kv.go:523-532 | a range that meets the freeze is refused whole; otherwise every committed key in it is deleted |
| `Machine.StateMachine.DeleteSpan` | pkg/kv/kv.go:538-549 | each committed key of the span is deleted once, in key order |
| `Machine.StateMachine.ApplyFreezeRange` | pkg/kv/kv.go:463-469 | the freeze is staged and cached |
| `Machine.StateMachine.ApplySplitCleanup` | pkg/kv/kv.go:484-500 | the range is deleted, and the freeze is lifted only on an exact match |
| `Machine.StateMachine.ApplyTxApply` | pkg/kv/kv.go:576-603 | freeze, reads and writes are checked in that order; an accepted list is staged in order |
| `Machine.StateMachine.ApplyTxPrepare` | pkg/kv/kv.go:606-638 | an accepted prepare stages the whole write list as an intent under every key it writes |
| `Machine.StateMachine.ApplyTxCommit` | pkg/kv/kv.go:641-672 | the transaction's intents are materialized, the first write of a key winning, and removed |
| `Machine.StateMachine.ApplyTxAbort` | pkg/kv/kv.go:675-691 | exactly the transaction's intents are removed |
| `Machine.StateMachine.ApplyCopyIn` | pkg/kv/kv.go:781-801 | records are imported with their own revisions and the revision rises to the largest |
| `Machine.StateMachine.MaybeGC` | pkg/kv/mvcc.go:301-392 | at collection indexes the horizon moves and exactly the prunable versions of the committed state are removed |
| `Machine.ReadVersion` | pkg/kv/mvcc.go:103-141 | the backwards walk returns what the key held at the revision, tombstones included |
| `Machine.ListRangeFrom` | pkg/kv/localread.go:136-149 | the page is the first `limit` records of the range past the cursor, in order, a low cursor being ignored |
| `Machine.ScanLatest` | pkg/kv/localread.go:153-172 | the iterator loop returns the first records of a key set in order, and all of them if they fit |
| `Mvcc.NewestAt` | pkg/kv/mvcc.go:103-141 | the newest archived revision at or below r: it exists, is at most r, and none in between does |
| `Mvcc.PruneKeepsReads` | pkg/kv/mvcc.go:358-384 | pruning at a cutoff hides nothing from a read at or above it |
| `Mvcc.EntryKeepsReads` | pkg/kv/mvcc.go:301-392 | one entry with its garbage collection leaves every readable earlier read of a key unchanged if and only if it does not clobber the key |
| `Mvcc.EntryKeepsInv` | pkg/kv/kv.go:386-412 | every entry keeps revisions, history and tombstones consistent |
| `History.TimeTravel` | pkg/kv/mvcc.go:103-141 | after any clean log, a read at any revision at or above the horizon returns what the key held once the log had been applied up to that revision |
| `History.ResurrectionLosesAVersion` | pkg/kv/mvcc.go:314-318 | a three-entry log after which a read at the horizon finds nothing although the key held a value |
| `History.PrunesExactly` | pkg/kv/mvcc.go:350-385 | a collection pass removes exactly the versions no readable read is answered from, and tombstones at or below the horizon with nothing after them |
| `Reads.UnchangedIff` | pkg/kv/mvcc.go:103-141 | any state, any command including copy_in, any index: reads of a key between two revisions stay as they were if and only if the entry does not touch the key, leaves the very record they see, or leaves it to the archive with no newer version in bounds and a tombstone that hides nothing |
| `Reads.CurrentIff` | pkg/kv/kv.go:373-412 | any state, any command: every read from a revision on sees what the entry left of a key if and only if a record left alive has at most that revision, and under a key left dead every version is followed by a tombstone up to it |
| `Reads.RemovalSettlesIff` | pkg/kv/kv.go:403-412 | a removal whose tombstone is kept is seen from its index on if and only if neither the removed record nor an undeleted archived version that outlives the entry has a larger revision |
| `Reads.LiveReadIff` | pkg/kv/mvcc.go:103-111 | a live key is read at a revision if and only if its own is at most that |
| `Imports.TimeTravelIff` | pkg/kv/mvcc.go:103-141 | any log: at every moment every readable read of a key from a floor on is what the key held after the log up to there, if and only if every entry keeps the reads below its index and settles those from it on |
| `Imports.CleanPasses` | pkg/kv/mvcc.go:103-141 | every entry of a clean log passes that test |
| `Imports.PinnedStableIff` | pkg/kv/mvcc.go:145-158 | any log: reads of a key at revisions the group had reported by then never change while readable, if and only if every entry keeps the reads up to the largest revision reported before it |
| `Imports.ShowsLatestIff` | pkg/kv/mvcc.go:162-178 | any log: at every moment the group's own revision shows the latest record of a key, if and only if every entry settles at the revision it reaches |
| `Imports.ImportKeepsInv` | pkg/kv/kv.go:781-801 | importing keys without history keeps revisions, history and tombstones consistent |
| `Imports.ImportedTimeTravel` | pkg/kv/kv.go:790-800 | a group that starts with imports has exact versioned reads of every key from the import on as long as every entry that moves the revision is ahead of the one it finds |
| `Imports.DeletedImportIsRevived` | pkg/kv/kv.go:790-800 | a two-entry log after which a deleted key is gone from the latest records and read at every revision from its imported one on |
| `Imports.OverwrittenImportIsRevived` | pkg/kv/kv.go:386-412 | the same for a key overwritten before the delete, whose live revision was below the delete's index |
| `Imports.CollectedTombstone` | pkg/kv/mvcc.go:314-318 | a three-entry log in which garbage collection removes the tombstone of its own entry and the deleted record is read for ever |
| `Imports.AheadMovesPinnedRead` | pkg/kv/kv.go:373-395 | a three-entry log in which a write ahead of the revision it finds changes a read at a revision reported earlier |
| `Imports.LiveImportIsHidden` | pkg/kv/mvcc.go:165-178 | a two-entry log after which a live key is not read at the revision the group reports |
| `History.CopyInMovesPinnedReads` | pkg/kv/kv.go:790-800 | a two-entry log in which a read pinned at the reported revision changes |
| `Scan.ListAt` | pkg/kv/mvcc.go:184-295 | for any cursor the first `limit` keys the merge of the two iterators resolves, in order with those records; with a proper cursor these are the keys under the prefix that readAt finds at r |
| `Scan.MergeIsVisible` | pkg/kv/mvcc.go:184-216 | the merge lists the prefix and nothing else if and only if no live record visible at r lies between a non-empty cursor and the prefix |
| `Scan.LowCursorListsOthers` | pkg/kv/mvcc.go:184-216 | a one-record state in which a cursor before the prefix lists a key outside it |
| `Scan.ListsLatestIff` | pkg/kv/mvcc.go:162-178 | a listing at a revision is the plain listing if and only if no listed live record has a larger one and no key without a live record has a version that answers |
| `Scan.ListingTimeTravel` | pkg/kv/mvcc.go:165-178 | a listing at r of the present state is the plain listing of the state the group had at r |
| `Scan.ListingContinues` | pkg/kv/mvcc.go:276-295 | following a full page's last key yields each remaining key exactly once |
| `Serving.AnsweredReadIsPast` | pkg/kv/mvcc.go:145-158 | any clean log, any revision: an answered get_at returns the record the key held once the log had been applied up to there; a refused one is TxTooOld and below the horizon |
| `Serving.AnsweredPageIsPast` | pkg/kv/mvcc.go:165-178 | the same for an answered list_at: its page is the page of the keys of that time, and every entry is a record of that time |
| `Serving.RecentReadIsAnswered` | pkg/kv/mvcc.go:301-312 | no read at one of the last historyRevisions indexes is ever refused, whatever the configuration |
| `Serving.HorizonIs` | pkg/kv/mvcc.go:301-312 | for every configuration and log, the horizon is exactly historyRevisions behind the last index that collected |
| `Serving.PinHolds` | pkg/kv/mvcc.go:99-158 | a get reports a revision, and any get_at for it that is answered later returns the record the get saw |
| `Serving.RangePageSize` | pkg/kv/localread.go:154-157 | a range listing has as many entries as were asked for, 1000 for a limit out of 1 to 10000, or as there are keys |
| `Serving.ListedPageSize` | pkg/kv/mvcc.go:185-187 | the same for versioned listings |
| `Serving.DeleteRangeRefusedIff` | pkg/kv/kv.go:437-449 | a range delete is refused for a split if and only if some key lies in both ranges, or the freeze covers no key and the span passes over it |
| `Serving.DeleteRefusedIff` | pkg/kv/kv.go:514-521 | a delete is refused if and only if its key lies in the frozen range |
| `Serving.SetRefusedIff` | pkg/kv/kv.go:502-512 | a set is refused for the freeze if its key lies in it, else for its size if that exceeds the cap, else never |
| `Serving.TxApplyAnswer` | pkg/kv/kv.go:551-603 | each answer of tx_apply if and only if its reason holds: a write in the freeze; a stale read, or a first unstageable write under an intent; a first unstageable write past the cap; none of these |
| `Serving.TxPrepareAnswer` | pkg/kv/kv.go:606-638 | the same for tx_prepare, whose own intents do not count |
| `Serving.CapHolds` | pkg/kv/kv.go:502-638 | no log stores, archives or prepares a value past the cap, unless it imports one |
| `Serving.AnswerTellsRevision` | pkg/kv/kv.go:282-381 | the group's revision is the one the answer reports, and a refused or read-only command changes no record, intent or freeze |
| `Serving.CleanupLifts` | pkg/kv/kv.go:484-500 | cleanup lifts its own freeze and no other |
| `Serving.FreezeFreezes` | pkg/kv/kv.go:463-469 | a freeze covers exactly its range |
| `Occ.ServedIsSnapshot` | pkg/kv/mvcc.go:145-158 | reads pinned at one revision all see the state at that revision |
| `Occ.CommitSeesItsReads` | pkg/kv/kv.go:551-603 | when tx_apply accepts, every read key still holds the record read, or is still absent |
| `Occ.NoWriteInBetween` | pkg/kv/kv.go:551-603 | a key read as present was written by no entry between the pinned revision and the commit |
| `Occ.ImportedRevisionIsReused` | pkg/kv/kv.go:790-800 | a two-entry log in which an imported record and a later write share a revision and the check passes |
| `Occ.WriteUnnoticedIff` | pkg/kv/kv.go:553-573 | one write of a key leaves the revision a transaction read if and only if it puts the key at that very revision, or deletes a key read as absent |
| `Occ.CheckPassesIff` | pkg/kv/kv.go:553-573 | for any log, imports included, the read check passes if and only if no read key carries an intent and the last write of each since it was read left exactly the revision read |
| `Occ.GuardedIff` | pkg/kv/kv.go:553-573 | a key read as present is guarded against every continuation without imports if and only if the revision read is no larger than the raft index reached, or is the next index while the key is frozen and no prepared transaction puts it |
| `Occ.ImportUnnoticed` | pkg/kv/kv.go:781-801 | whatever was read, an import can replace the record and leave the revision |
| `Occ.AllocationsIncrease` | pkg/cluster/cluster.go:507-540 | for any interleaving of allocators with stale readings, identifiers of committed allocations strictly increase in commit order |
| `Split.CutRange` | pkg/cluster/cluster.go:278-290 | a strictly inner split key cuts a range into two disjoint ranges that cover it |
| `Split.AcceptedNotFrozen` | pkg/kv/kv.go:429-458 | an accepted command touches no frozen key |
| `Split.ClientLatest` | pkg/kv/kv.go:502-603 | what a client command does to one key: its plain meaning if accepted, nothing otherwise |
| `SplitProof.CopyPairs` | pkg/cluster/reconcile.go:647-670 | consecutive slices of the page, in order and without gaps, each cut exactly when its values reach a megabyte |
| `SplitProof.PageProgress` | pkg/cluster/reconcile.go:587-606 | a fetched page leaves out no key between the cursor and its last key, and an empty page means the copy is complete |
| `SplitProof.BatchFits` | pkg/kv/kv.go:781-801 | copying a batch, also a second time, only ever puts the source's own records into the target |
| `SplitProof.FlipPartition` | pkg/cluster/reconcile.go:617-634 | the flipped map still covers every key exactly once with distinct groups |
| `SplitProof.FlipHolds` | pkg/cluster/reconcile.go:613-634 | once the copy is complete the target agrees with the acknowledged writes on its whole range, and the source on its own |
| `SplitProof.ClientInv` | pkg/kv/kv.go:429-458 | a client command on any group keeps the invariant, whatever the phase of the split |
| `SplitProof.FreezeInv` | pkg/cluster/reconcile.go:570-580 | freezing, also again after a crash, keeps the invariant |
| `SplitProof.FlipInv` | pkg/cluster/reconcile.go:613-634 | the atomic flip keeps the invariant |
| `SplitProof.CleanupInv` | pkg/cluster/reconcile.go:702-710 | the unfreeze-and-delete, also repeated, keeps the invariant |
| `SplitProof.StepInv` | pkg/cluster/reconcile.go:494-710 | every step of every participant keeps the invariant |
| `SplitProof.NoWriteIsLost` | pkg/cluster/reconcile.go:494-710 | in every state of every run with crashes anywhere, each key from "/" up has exactly one owner and looking it up there gives the last acknowledged write |
| `SplitProof.NoKeyBelowItsShard` | pkg/server/data.go:216-230 | no group ever holds a key below its shard's range, and beyond it only what the pending cleanup will delete |
| `SplitProof.OneSplitAtATime` | pkg/cluster/reconcile.go:310-396 | at most one shard is splitting, and none while a cleanup is pending |
| `SplitProof.CopiedPageSize` | pkg/cluster/reconcile.go:587-606 | a page of the copy holds 500 records, or what is left |
| `SplitFinish.SplitCanFinish` | pkg/cluster/reconcile.go:494-710 | from every state a run can reach, a controller that starts over can finish the split in flight: the shard is cut in two at its key and no acknowledged write changes |
| `SplitFinish.FinishedIsClean` | pkg/cluster/reconcile.go:494-710 | then no group is frozen, and each holds the acknowledged records of its own range and nothing else |
| `TwoPhase.Partition` | pkg/server/tx.go:55-94 | the parts hold exactly the reads and writes routed to each group, in order; otherwise the error is that of an unroutable read, or of the first write that cannot be staged, too large before unroutable |
| `TwoPhase.PartitionKeepsMeaning` | pkg/server/tx.go:58-91 | what a group's share does to a key it owns is what the whole write list would have done |
| `TwoPhase.OthersKeepIntents` | pkg/kv/kv.go:606-691 | no other command adds, removes or replaces a transaction's intents |
| `TwoPhase.PrepareHolds` | pkg/kv/kv.go:606-638 | an accepted prepare leaves exactly the transaction's intents, a rejected one none |
| `TwoPhase.CommitWritesOf` | pkg/kv/kv.go:641-672 | the copies of the write list under every key collapse to one, and without intents a commit writes nothing |
| `TwoPhase.CommitMaterializes` | pkg/kv/kv.go:641-672 | after the commit every key reads as the prepared writes say |
| `TwoPhase.FirstWriteWins` | pkg/kv/kv.go:641-672 | after the commit a key holds the first of its prepared writes, and a key not written what it held |
| `TwoPhase.RepeatWritesNothing` | pkg/server/tx.go:193-200 | a repeated commit, or one after an abort, changes no record |
| `TwoPhase.StepInv` | pkg/server/tx.go:104-212 | every step of coordinator, janitor, crash and environment keeps the invariant |
| `TwoPhase.AllOrNothing` | pkg/server/tx.go:104-212 | once the record is gone, no intent is left, and every group performed exactly its prepared writes once if the decision was written, and none otherwise |
| `TwoPhase.NoHalfCommit` | pkg/server/tx.go:122-141 | at every moment, if one group has performed its writes every other has too or still holds all its intents |
| `TwoPhase.JanitorResolves` | pkg/server/tx.go:168-212 | from any state a crash can leave, a janitor pass reaches a state without the record |
| `Isolation.ReadsHoldIff` | pkg/kv/kv.go:606-638 | at any moment after the prepares, every read of a transaction has the revision it saw if and only if the last write of each since its group prepared, if any, left that revision |
| `Isolation.WasPrepared` | pkg/server/tx.go:114-121 | in every run, when the coordinator is done with a group an accepted prepare of it came before |
| `Isolation.ReadModifyWriteHolds` | pkg/kv/kv.go:606-638 | a key both read and written keeps the revision read until its group resolves the transaction, as long as others write there through transactions |
| `Isolation.HalfVisibleIff` | pkg/server/tx.go:129-141 | a committed transaction is at some moment performed in one group and not yet in another if and only if it writes in more than one |
| `Isolation.WriteSkew` | pkg/server/tx.go:114-128 | a transaction that reads what its rival writes and writes what its rival reads prepares everywhere and decides to commit; so does the rival |
| `Isolation.SkewIsOneRun` | pkg/server/tx.go:114-128 | the two are views of one run: the same groups go through the same logs to the same states |
| `Isolation.CommitMakesStale` | pkg/kv/kv.go:606-672 | once either commits in a group, a prepare that reads what it wrote at the old revision is refused: no serial order accepts both |
| `Listing.ListTraced` | pkg/server/data.go:168-236 | for any cursor: the page is exactly the next page of what the walk routes to, with those records, and the cursor is given if and only if the page is full |
| `Listing.TracedPageSize` | pkg/server/data.go:169-172 | such a page has as many entries as asked for, 1000 for a limit out of 1 to 10000, or as there are keys |
| `Listing.ClipEntries` | pkg/server/data.go:216-230 | clipping keeps exactly the entries in the shard's range |
| `Listing.ClippedPage` | pkg/server/data.go:216-230 | the clipped page is the page of what the shard owns, so clipping leaves no gap |
| `Listing.SkippedHasNothing` | pkg/server/data.go:188-198 | a shard skipped by its bounds owns no key that was asked for |
| `Listing.RoutedIsTruth` | pkg/server/data.go:182-230 | in every state of every split run, what the walk routes to is what the acknowledged writes left under the prefix past the cursor, plus, for a cursor before the prefix, the keys between the two in the prefix's own shard |
| `Listing.LowCursorWalksIn` | pkg/kv/localread.go:120-128 | one shard and one live key between cursor and prefix: it is listed |
| `Listing.ReachableIsClippable` | pkg/server/data.go:216-230 | every reachable state meets the listing's condition on groups |
| `Listing.OrderShards` | pkg/cluster/cluster.go:454-468 | the list holds every shard of the map once, ordered by range start |
| `Listing.PartitionIsShardList` | pkg/cluster/cluster.go:454-468 | in every state of the protocol that list owns no key twice |
| `Listing.ListAcknowledged` | pkg/server/data.go:168-236 | a listing through the shard map, with any cursor, at any moment of any run of the split protocol: the next page of the acknowledged keys and those strays, with their records; no strays for an empty cursor or one at or past the prefix |
| `Listing.PagesFollow` | pkg/server/data.go:231-235 | two pages in a row are one longer page |
| `Listing.KeyBelowLeavesAGap` | pkg/server/data.go:216-230 | without that condition a clipped key can hide one the shard owns |
| `NodeProof.StepOk` | pkg/raft/group.go:508-715 | every append, apply, compaction, receive, install, crash and restart step keeps the invariant on every disk a crash could leave |
| `NodeProof.ApplyOk` | pkg/raft/group.go:635-690 | applying an entry of any type keeps rows, applied index and memory in step |
| `NodeProof.FinalizeOk` | pkg/raft/snapshot.go:515-584 | the final batch leaves rows at the snapshot and applied index, commit, log and compaction point all equal to its index |
| `NodeProof.CrashesLeaveGoodDisks` | pkg/raft/snapshot.go:250-261 | whatever a crash leaves, a marker means staging is exactly the snapshot it names, and without an install in progress the rows are the state at the applied index |
| `Durability.AppendSurvives` | pkg/raft/storage.go:342-383 | after a synced append every disk a crash can leave holds the appended entries at their indexes, what was kept below them, and the commit index |
| `Durability.AcknowledgedSurvives` | pkg/raft/group.go:550-558 | over any path, an acknowledged entry is on every disk any later crash can leave, or the log starts past it, until an append rewrites the log below it or a snapshot from below is installed; the commit index acknowledged with it is never lost |
| `Durability.CommittedSurvives` | pkg/raft/group.go:550-558 | in every run, an entry acknowledged together with its commit is never lost at all |
| `Durability.SyncedStepSurvives` | pkg/raft/storage.go:406-453 | a compaction, a finished receive, the start and the end of an install survive every crash after them |
| `NodeProof.ReplayIsInvisible` | pkg/raft/group.go:635-690 | whenever the group loop runs, after any number of crashes, the rows are what the committed log alone yields at the applied index |
| `NodeProof.RecoveryInstalls` | pkg/raft/snapshot.go:590-613 | an install cut short anywhere is finished by the next start and ends wholly in the snapshot |
| `NodeProof.StaysRestartableIff` | pkg/raft/group.go:697-715 | every crash of a run leaves a disk the node restarts from, if and only if every compaction found the persisted and in-memory applied indexes equal or none persisted; `CompactAgreesIff` is the one step and `CrashThenRestart` the restart |
| `NodeProof.FirstCompactionWaits` | pkg/raft/group.go:574-582 | without a snapshot a compaction needs more than the threshold of applied entries |
| `NodeProof.CompactionStrands` | pkg/raft/group.go:574-582 | for every compaction threshold and every log that exceeds it, persisted something and ends in an empty entry: a reachable crash after which the replica cannot restart |
| `Replay.ReplicaHoldsTheRun` | pkg/kv/kv.go:282-301 | decoding a running replica's rows gives the crash-free run of the log up to its applied index |
| `Replay.ReplicaTimeTravel` | pkg/kv/mvcc.go:103-141 | end to end: on any running replica, after any crashes and installs, a readable versioned read of a clean log at a revision is the record after the raft log up to that index |
| `Storage.Storage.constructor` | pkg/raft/storage.go:129-165 | reopening what any storage left behind recovers the same log |
| `Storage.Storage.Append` | pkg/raft/storage.go:342-383 | index by index: the new entries from the first new index on, what was there below it, and nothing past the last new one |
| `Storage.Storage.Entries` | pkg/raft/storage.go:206-238 | the answer is the longest run from `lo` within the size limit and never empty; compacted and out-of-bound requests get their errors |
| `Storage.Storage.Term` | pkg/raft/storage.go:242-266 | the term of an index, with the base, compacted and unavailable cases |
| `Storage.Storage.FirstIndex` | pkg/raft/storage.go:276-280 | one past the compaction point |
| `Storage.Storage.LastIndex` | pkg/raft/storage.go:269-273 | the index of the last stored entry, or the compaction point |
| `Storage.Storage.CompactStreaming` | pkg/raft/storage.go:406-453 | index by index: entries and terms above the point stay, the point answers its own term, everything below answers compacted, the last index never goes down; an older point changes nothing |
| `Storage.Storage.NoteInstalled` | pkg/raft/storage.go:460-472 | after an install the log is empty at the snapshot's index |
| `Storage.Storage.ApplyIncomingSnapshot` | pkg/raft/storage.go:481-517 | a newer snapshot replaces the log, an older one is ignored |
| `Stream.WritePages` | pkg/raft/snapshot.go:171-244 | the bytes encode all entries in order, in pages cut exactly when they reach a megabyte, then the sentinel and the trailer |
| `Stream.DecodeItem` | pkg/raft/snapshot.go:293-318 | the bounds tests accept exactly the well-formed entries and advance past them |
| `Stream.StagePage` | pkg/raft/snapshot.go:289-333 | a page is staged if and only if it parses, with its entries counted per section |
| `Stream.StagePages` | pkg/raft/snapshot.go:267-352 | a stream is accepted if and only if pages, sentinel and trailer are all there and agree, and then exactly its entries are staged |
| `Stream.StreamRoundTrip` | pkg/raft/snapshot.go:171-352 | reading back an encoded stream gives every entry in order, wherever the pages were cut |
| `Stream.ProperPrefixRefused` | pkg/raft/snapshot.go:267-352 | every proper prefix of a stream is refused |
| `Stream.TransferIsExact` | pkg/raft/snapstream.go:271-293 | a transfer of a pinned view stages exactly that view, with the counts the marker records |
| `BlobWrite.ChunkUp` | pkg/blob/blob.go:316-336 | the chunks concatenate to the stream, are full except perhaps the last, and none is empty |
| `BlobWrite.StoreStripe` | pkg/blob/blob.go:430-476 | the references are those of the padded data shards and their parity, the length that of the data |
| `BlobWrite.Write` | pkg/blob/blob.go:316-382 | the manifest describes the stream with a resumable hash, is erasure-coded exactly for streams of more than one chunk on three nodes by policy, with the policy's shard counts, and is laid out in full chunks and full stripes but for the last |
| `BlobRead.ReadStripe` | pkg/blob/blob.go:550-575 | the stripe's bytes come back if and only if at least `dataShards` shards can be fetched, padding trimmed |
| `BlobRead.Read` | pkg/blob/blob.go:519-546 | reading gives exactly the described content if every chunk or enough shards of every stripe can be fetched, and fails otherwise |
| `BlobRead.ContentUnique` | pkg/blob/blob.go:519-575 | a chunk map determines its content |
| `Blob.ComponentsAreParts` | pkg/blob/splice.go:70-75 | splitting the digest field gives the digests of the blob's parts in order, and a plain digest is the content's |
| `BlobEdit.DetachTail` | pkg/blob/append.go:166-203 | what stays and the detached tail concatenate to the content, in the same mode |
| `BlobEdit.ResumeHash` | pkg/blob/append.go:144-160 | the running hash is that of the whole content, with or without a stored midstate |
| `BlobEdit.Append` | pkg/blob/append.go:44-140 | the result describes old content followed by new, in the old mode and geometry, with a true digest and again laid out in full chunks and stripes; composites are refused |
| `BlobEdit.AddSource` | pkg/blob/splice.go:119-140 | a source of the destination's mode and geometry is joined by reference, any other is read back and re-encoded |
| `BlobEdit.Splice` | pkg/blob/splice.go:89-147 | the sources end to end for any mixture of modes, with their digests in order, in the first coded source's geometry or replicated if none is; sources of one mode need no copying |
| `BlobLayout.LayoutUnique` | pkg/blob/blob.go:366-382 | a content has one layout in a given mode, geometry and chunk size |
| `BlobLaws.WriteThenRead` | pkg/blob/blob.go:366-382 | a blob written with d data and p parity shards has stripes of d + p shards, and is read back whole if no stripe misses more than p of them, and not at all otherwise |
| `BlobLaws.AppendIsWrite` | pkg/blob/append.go:44-140 | a blob that was written and appended to has the very manifest that writing all its bytes at once gives, when that chooses the same mode |
| `BlobRange.RangeChunks` | pkg/blob/range.go:31-58 | the window of the content if every chunk the window meets can be fetched, and failure otherwise: no other chunk matters |
| `BlobRange.RangeStripes` | pkg/blob/range.go:59-93 | the window of the content if every stripe the window meets has enough shards, and failure otherwise: no other stripe matters |
| `BlobRange.SliceWriter.Write` | pkg/blob/range.go:97-115 | however the stream is cut into writes, exactly its bytes in [lo, hi) are forwarded |
| `BlobRange.ReadRange` | pkg/blob/range.go:19-93 | fails for a negative offset, returns nothing on overflow, and otherwise is the clamped slice exactly when every unit overlapping the window, by the manifest's sizes, can be read; so a readable window is the slice exactly without overflow (`RangeIsSliceIff`), and a readable blob in every part (`ReadableRange`) |
| `BlobRange.OverflowLosesAByte` | pkg/blob/range.go:23-28 | a stored two-byte blob, every copy there, of which a ranged read for the second byte returns nothing |
| `Placement.StoreReplicated` | pkg/blob/blob.go:388-419 | a success holds exactly max(min(replicas, nodes), 1) distinct nodes, the local one first and then the first that accept; it fails exactly when there are too few |
| `Placement.ReplicasAreDistinct` | pkg/blob/blob.go:384-419 | those are exactly the quorum of distinct nodes, each of which took its copy |
| `Placement.RotationCovers` | pkg/blob/blob.go:492-502 | the round-robin pass tries every node, wherever it starts |
| `Placement.WrapIsMod` | pkg/blob/blob.go:494-494 | the round-robin index used by the model is the remainder of the code |
| `Placement.PlaceShard` | pkg/blob/blob.go:485-515 | the first unused accepting node going round from the shard's index if there is one, else none when spread is required, else a least-loaded accepting one |
| `Placement.PlaceStripe` | pkg/blob/blob.go:430-476 | every shard lands on an accepting node, all distinct when there are enough nodes, loads within one of each other when every node accepts; enough nodes that accept everything make it succeed |
| `Placement.StripeSurvives` | pkg/blob/blob.go:421-429 | a stripe on distinct nodes is still readable after losing as many nodes as it has parity shards |
| `Watch.Hub.constructor` | pkg/kv/watch.go:58-63 | an empty ring of the given capacity, 4096 when none is given |
| `Watch.Hub.Publish` | pkg/kv/watch.go:69-88 | the ring holds the last min(n, capacity) events in order, at the remainder the code computes (`SlotIsMod`), and each matching subscriber with room gets the event |
| `Watch.Hub.Subscribe` | pkg/kv/watch.go:93-117 | refused exactly when the ring does not reach back; otherwise the queue is the first 1024 matching buffered events, which are the first 1024 of all published since the revision when none of those was evicted |
| `Watch.Hub.Replay` | pkg/kv/watch.go:132-144 | the matching buffered events in order, until the channel is full |
| `Watch.ResumeCompleteIff` | pkg/kv/watch.go:93-117 | the ring alone answers a resume for every prefix if and only if the newest evicted event is older |
| `Watch.ResumeAboveOldest` | pkg/kv/watch.go:100-107 | a resume strictly above the oldest retained revision misses nothing |
| `Watch.ResumeAtOldestMayMiss` | pkg/kv/watch.go:100-107 | at the oldest retained revision itself part of one entry may be gone |
| `Watch.ResumedStaysComplete` | pkg/kv/watch.go:69-88 | a queue that has missed nothing since a revision still has not after any further publishes, up to its capacity |
| `Membership.VoterTarget` | pkg/cluster/cluster.go:84-95 | 0, 1, 3 or 5 voters, never more than eligible nodes, one from 1 node on, three from 3 on, five from 8 on |
| `Membership.Tick` | pkg/cluster/reconcile.go:122-193 | one tick seats the lowest free eligible node, unseats a dead or else the highest voter but never the leader, or changes nothing |
| `Membership.Converges` | pkg/cluster/reconcile.go:122-193 | with a fixed eligible set the target is reached in as many ticks as voters are missing or surplus, without overshoot, and then nothing moves; the leader keeps its seat |
| `Membership.SeatedIsLowest` | pkg/cluster/reconcile.go:134-150 | a new voter is the eligible node with the lowest id that has no seat |
| `Membership.DeadLeaveHighest` | pkg/cluster/reconcile.go:156-174 | a dead voter that leaves has the highest id among the dead |
| `Membership.HealthyLeaveLast` | pkg/cluster/reconcile.go:156-174 | whenever a tick unseats a healthy voter, every other voter but the leader is healthy and has a lower id |

## Left out

- Elections, ReadIndex and the transport: raft's own guarantees are hypotheses.
- Two-phase intents pending in a moving range at the freeze, timed-out proposals that apply later, and two controllers at once.
- Machine.StateMachine.Apply: lock commands are not among the modelled commands. They keep one record per resource, holders with lease expiries and a fencing counter, under a key of their own in the metadata group, written and deleted like any other record; no theorem here is about those keys. The watch events an entry publishes are not part of its result either; `Watch` takes any sequence of events.
- Machine.StateMachine.Dispatch: leaves out the same lock commands.
- The conflict key reported to clients, and JSON encodings of records.
- Cancelling a watch, and the draining of subscriber channels by the API layer.
- Configuration changes: their entries are modelled by their effect on the applied index only, and the membership record is not part of a replica's disk.
- The pinned view's reference counts, and legacy snapshot bodies.
- `NextID`'s retry loop: allocations are modelled as the compare-and-swaps it proposes, from any earlier reading.
- Listing versioned keys across shards, range deletes across shards, blob repair and orphan collection.
- The linear search of the shard list for one key.
- When raft asks for a fresh snapshot view: the model allows that compaction whenever a snapshot exists.
- Revisions are unbounded in the specification; `Machine` states the 64-bit bound its key encodings need.
- BlobWrite.StoreStripe: takes whether a shard could be placed as a function of its hash; where it goes is in `Placement`.
- Placement.StoreReplicated: takes each node's answer to a push as given, independent of order.
