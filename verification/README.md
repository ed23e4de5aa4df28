# Verified models of the store layer and the stratum bridge

Two parts of the node are modelled.

**The typed store layer** (`database/src`): a bounded cache with random eviction in front of an
ordered byte-key database, and the wrappers built on it: a keyed map (`CachedDbAccess`), a single
register (`CachedDbItem`), and a map of sets (`CachedDbSetAccess`, `CachedDbSetItem`). Two of them
also read rows of an older on-disk layout. The main results say that over every run, under any
eviction choice, with direct and batched writes, foreign writes to the same database and crashes,
each wrapper answers like the plain map, register or map of sets that it stands for, and that the
rows on disk always stand for what a restart should find. Reads over the wrapper's own uncommitted
changes can break this in all three; for each, the exact condition is proved and is the proviso of
its theorem.

**The share pipeline of the stratum bridge** (`bridge/src`): the 300-slot job ring, the walk through
earlier jobs in the submit handler, the accounting of concurrent submissions, the two
de-duplication guards, the difficulty controller and its targets, the extranonce partition of the
nonce space, the job texts, the line framer and the sharing of the socket's write half. The main
results are invariants over every interleaving, exact verdicts, conservation of counters and
round trips.

## How it is organised

| files | what they hold |
|---|---|
| `Arithmetic`, `Bytes`, `Codec`, `Database`, `DbKey` | division facts, byte order and prefix intervals, codecs, rows, writers, keys |
| `Cache` | the cache class with its size accounting |
| `StoreModel`, `StoreRuns`, `StoreRecent`, `StoreLimits`, `StoreAccess` | keyed store: state machine and its steps, theorems over runs, what the cache remembers, exact limits, the class |
| `ItemModel`, `StoreItem` | single item: state machine with crash points, the class |
| `SetModel`, `StoreSet` | set store: state machine and theorems, the classes |
| `GuardQueue`, `DuplicateSubmitGuard`, `BlockSubmitGuard`, `BlockSubmission` | the guards and concurrent block submissions |
| `JobRing`, `ShareWalk`, `SubmitAccounting` | job ring, walk and verdict, lock-by-lock accounting |
| `Vardiff`, `Target` | difficulty ticks over reals, targets over integers |
| `Hex`, `Extranonce`, `JobParams` | hexadecimal text, nonces, job texts |
| `Utf8`, `LineFramer`, `WriteHalf` | lossy decoding, reading lines, sharing the write half |

Objects that the source updates in place are classes. Each method is proved to perform one step of
a state machine (`Next`) or to compute a specification function, and the theorems are about runs of
those. A run is a sequence of states and a sequence of events, so a theorem about `states[n]` is
about every reachable state. `dafny verify dfyconfig.toml` checks everything.

## Modelling decisions

- The database is a finite map from byte strings to byte strings, scanned in bytewise order.
- A codec is any pair with `decode(encode(x)) == Some(x)`; the legacy layout has a decoder of its own.
- Keys of one store have one length, and stores of one database have prefixes that do not extend one
  another; `Foreign` events are writes of the other stores.
- Random eviction is an arbitrary choice. Clocks, node replies, proof-of-work values, socket
  outcomes and job arrivals are parameters or events.
- Difficulties are reals; `sqrt`, `log2` and the products of the source come in as any functions
  within the bounds of `Vardiff.Sound`, which leave room for rounding: a product is exact only by
  the factors 2 and 1/2, and a logarithm must round to the right integer at some distance from the
  next power of two, and for the 32-bit numbers that can be configured.
- The release profile checks integer overflow, so the subtraction below job number 0 is an outcome
  of its own (`Underflow`).
- An error built with a context displays only that context (`BlockSubmission.Display`).
- A direct write may come between staged ones as long as the two do not touch the same row of the
  store; writes of other stores may come at any time.

## Findings

Where the code does not meet an expected property, an example shows it and a lemma gives the exact
condition.

- A versioned write without the `has` guard is not read back when a legacy row exists, unless that
  row decodes to the same value (`StoreLimits.UnguardedWriteReadBack`, `UnguardedWriteDisagrees`).
- A read of a key with staged writes fills the cache with the old value, which outlives the commit
  (`StoreLimits.StagedReadExact`, `StagedReadGoesStale`). A guarded write does not see a staged row
  that is no longer cached, so it may go through twice (`StoreLimits.InsertAnswerExact`,
  `StagedInsertRepeats`).
- The same for sets: a bucket read after a member is added in a batch, and before the commit, caches
  the set without it, and the member stays missing after the commit (`SetModel.StagedReadExact`,
  `StagedMemberLost`).
- The same for items: a removed item that is read before its batch is committed answers the old
  value, also after the commit (`ItemModel.StagedReadExact`, `StagedRemoveOverlooked`).
- A direct write of a row that is staged is undone by the commit unless the batch ends with the same
  write (`DirectOverStagedExact` in `StoreLimits`, `SetModel` and `ItemModel`).
- An item removal torn between its two deletes brings back a legacy value
  (`ItemModel.TornRemoveExact`, `TornRemoveResurrects`).
- The walk through earlier jobs sees the whole ring only for some submitted numbers
  (`ShareWalk.CoverageExact`); a share for a later job that is still stored is then refused
  (`ShareWalk.LaterJobMissed`). Number 0 ends in the overflow check (`ShareWalk.VerdictExact`).
- Recording an outcome renews an entry without moving it, so overdue entries behind it are still
  answered (`DuplicateSubmitGuard.OverdueKept`, `OverdueAnswered`).
- A block hash that is unmarked and marked again keeps its old queue place and is dropped early, at
  any capacity of two or more (`BlockSubmitGuard.RunSurvives`, `RemarkedDroppedFirst`,
  `SmallDropsOldest`).
- The test for duplicates in a failed block submission never succeeds, because it looks at the
  context only (`BlockSubmission.WrappedFailureUnmarks`, `DuplicateTestExact`).
- A block that the node rejects reaches the submit handler as an error, so it counts as bad; the
  handler's own case for a rejected block is not reached (`BlockSubmission.HandlerReplyExact`).
- The target of difficulty 2^k is exact up to k = 68 and constant from there on
  (`Target.Pow2TargetExact`).
- Nonces of more than 12 digits bypass the extranonce (`Extranonce.SliceExact`,
  `OtherSliceReachable`); the case of a digit changes the duplicate key but not the nonce
  (`Extranonce.KeyExact`, `CaseSplitsKey`).
- A first read that shows only "SM" of a longer line is refused (`LineFramer.FirstCheckExact`,
  `FirstCheckDependsOnSplit`).
- A character of several bytes that is cut by the end of a read is replaced, so the messages depend
  on how the stream is cut (`LineFramer.ReceivedExact`, `CutCharacterReplaced`).
- A disconnect during a write leaves the write half open in its slot (`WriteHalf.ClosedExact`,
  `WriteOutlivesDisconnect`).

## Model

| member | source | states |
|---|---|---|
| `Bytes.PrefixInterval` | database/src/set_access.rs:142-147 | the byte strings with prefix p are exactly the interval from p to its successor, also when there is no successor |
| `Database.Db.ScanFirst` | database/src/access.rs:188-240 | a prefix scan yields the least row with that prefix, or nothing if there is none |
| `Database.Db.ScanKeys` | database/src/set_access.rs:154-178 | the scan visits exactly the rows with the prefix, each once |
| `Database.Writer.Emit` | database/src/writer.rs:36-93 | a direct write changes the rows, a batched one the batch, and both change the rows overlaid with the batch alike |
| `Database.Writer.Commit` | database/src/access.rs:508-512 | committing makes the overlaid view the rows and empties the batch |
| `DbKeys.DbKey.NewWithBucket` | database/src/key.rs:19-31 | the path is prefix, bucket and key, and the prefix length covers all three |
| `DbKeys.DbKey.AddSuffix` | database/src/key.rs:72-77 | a suffix extends the path but not the prefix length |
| `Cache.Cache.constructor` | database/src/cache.rs:32-41 | a fresh cache is empty and within its policy |
| `Cache.Cache.TrackedEvict` | database/src/cache.rs:61-68 | eviction ends, the tracked size stays the sum of the stored sizes, and afterwards the size or the length is within its bound; it only removes entries |
| `Cache.Cache.InnerInsert` | database/src/cache.rs:70-84 | in count mode the key is present afterwards with its value and exactly one entry goes if the cache was full, none if there is room; in tracked mode entries go only while the size is too large; the accounting is exact |
| `Cache.Cache.UpdateIfEntryExists` | database/src/cache.rs:86-100 | an absent key stays absent, a present value is changed in place with its size accounted; in count mode nothing else changes, in tracked mode entries go only while the size is too large |
| `Cache.Cache.Insert` | database/src/cache.rs:156-162 | the same as the inner insertion; with size 0 nothing is kept |
| `Cache.Cache.InsertMany` | database/src/cache.rs:164-172 | the insertions of the items one after the other, so what is left is a part of the old entries overwritten in item order |
| `Cache.AllInserted` | database/src/cache.rs:70-84 | in count mode, items for which there is room are all kept |
| `Cache.Cache.FittingKept` | database/src/cache.rs:61-68 | in tracked mode nothing is evicted from what fits |
| `Cache.Cache.Remove` | database/src/cache.rs:102-112 | exactly the key goes, its value is returned, and the size subtraction does not underflow |
| `Cache.Cache.RemoveMany` | database/src/cache.rs:191-199 | exactly the given keys go |
| `Cache.Cache.RemoveAll` | database/src/cache.rs:201-210 | the cache is empty and its tracked size 0 |
| `StoreAccess.CachedDbAccess.Has` | database/src/access.rs:93-118 | answers true exactly if the key is cached or has a row in either layout |
| `StoreAccess.CachedDbAccess.Read` | database/src/access.rs:120-140 | performs the read step: cached value, or the decoded row, which is then inserted into the cache by its policy |
| `StoreAccess.CachedDbAccess.ReadVersioned` | database/src/access.rs:188-240 | the row found first decides: a legacy row is converted, a current row decoded, any other shape is an inconsistency |
| `StoreAccess.CachedDbAccess.BuildWriteKey` | database/src/access.rs:396-409 | the key written is the current layout's row of the logical key |
| `StoreAccess.CachedDbAccess.Write` | database/src/access.rs:325-334 | performs the write step on rows and batch, and inserts the value into the cache by its policy |
| `StoreAccess.CachedDbAccess.WriteMany` | database/src/access.rs:336-353 | performs the step that writes all items, the later of equal keys winning in cache and rows, and inserts them into the cache one after the other by its policy |
| `StoreAccess.CachedDbAccess.WriteManyWithoutCache` | database/src/access.rs:355-371 | performs the step that writes all items and empties the cache |
| `StoreAccess.CachedDbAccess.DeleteBothLayouts` | database/src/access.rs:411-421 | emits the deletes of both layouts' rows of the key |
| `StoreAccess.CachedDbAccess.Remove` | database/src/access.rs:373-379 | performs the removal step on cache and both layouts |
| `StoreAccess.CachedDbAccess.RemoveMany` | database/src/access.rs:381-391 | performs the removal step for all given keys |
| `StoreAccess.CachedDbAccess.RemoveAll` | database/src/access.rs:423-432 | performs the step that empties the cache and deletes the store's range |
| `StoreAccess.CachedDbAccess.Insert` | consensus/src/model/stores/utxo_diffs.rs:60-66 | a key with a cached or stored value is refused unchanged; in either case the store goes on standing for the same durable and current maps, with the key set, and cached by the policy, if it was written |
| `StoreModel.LookupOneRow` | database/src/access.rs:188-240 | with at most one row per key the scan-based lookup is the decode of that row, by its layout |
| `StoreModel.InconsistentExact` | database/src/access.rs:188-240 | a versioned lookup reports an inconsistency if and only if there is no legacy row and a row of another shape sorts before the current one |
| `StoreModel.RemoveAllExact` | database/src/access.rs:423-432 | the range delete erases exactly the rows with the store's prefix and keeps all others |
| `StoreModel.GuardSuffices` | database/src/access.rs:93-118 | if `has` finds no row, a write of the key cannot meet a legacy row, whatever is staged |
| `StoreModel.InsertIsWrite` | consensus/src/model/stores/utxo_diffs.rs:60-86 | a guarded write that goes through, direct or staged, is one that the theorems below allow |
| `StoreModel.StepTransparent` | database/src/access.rs:120-140 | one call, also a direct one of this or another store between staged writes, and also a crash, keeps the cache coherent with the rows overlaid by the batch and answers as if there were no cache |
| `StoreRuns.StoreIsUncached` | database/src/access.rs:325-391 | over every run, with any evictions, staging, commits, crashes and direct writes of this and other stores in between, every step is one of the store without cache and batch |
| `StoreModel.PlainStepIsMapStep` | database/src/access.rs:396-421 | a step of the two-layout store keeps at most one row per key and is the step of a plain map |
| `StoreRuns.StoreIsMap` | database/src/access.rs:93-140 | over every run of guarded writes, the other calls and crashes, from any mix of legacy and current rows, the rows stand for one plain map, what a restart finds, and the overlaid rows for another, what the process sees, both with at most one row per key; an answer is that of the current map if and only if the key is cached or the batch leaves the answer as the rows have it |
| `StoreRuns.StepIsMapStep` | database/src/access.rs:93-140 | one call or crash is a step of the durable and the current map, and is answered like the current one exactly if the key is cached or the batch leaves the answer as the rows have it |
| `StoreRuns.QueryExact` | database/src/access.rs:93-140 | the answer of a call is that of the current map exactly if its key is cached or what is staged does not change the answer |
| `StoreRuns.OneRowOnDisk` | database/src/access.rs:188-240 | from a store that was just opened, after every run with batches and crashes each key has at most one row on disk, and looking it up finds what was written directly or committed last |
| `StoreRecent.WrittenAnswered` | database/src/access.rs:120-140 | in count mode, what was written is answered by every later read, committed or not, known to `has` and protected from a guarded write, through any calls for other keys, commits and writes of other stores, as long as what is cached meanwhile has room |
| `StoreLimits.UnguardedWriteReadBack` | database/src/access.rs:325-334 | an unguarded versioned write is read back if and only if there is no legacy row or it decodes to the same value |
| `StoreLimits.UnguardedWriteDisagrees` | database/src/access.rs:188-240 | a concrete write over a legacy row: the cache answers the new value, the rows the old one |
| `Database.LastTouchDecides` | database/src/writer.rs:71-93 | a row of the overlaid view is decided by the last staged operation that touches it |
| `StoreLimits.StagedReadExact` | database/src/access.rs:120-140 | in either layout, caching what a read finds in the rows stays coherent if and only if the batch leaves the legacy row alone or leaves a current row with that value |
| `StoreLimits.InsertAnswerExact` | consensus/src/model/stores/utxo_diffs.rs:60-66 | over staged writes, a guarded write is answered as by the map if and only if its key is cached or the batch does not change whether the key has a row |
| `StoreLimits.StagedInsertRepeats` | consensus/src/model/stores/utxo_diffs.rs:60-66 | in every store, for every key and values: two guarded writes of one key into one batch both go through, the later one overwriting the earlier, if the key is evicted in between |
| `StoreLimits.DirectOverStagedExact` | database/src/access.rs:325-334 | a direct write of a staged row is what the commit leaves if and only if the batch does not touch the row or ends with putting the same value |
| `StoreLimits.StagedReadGoesStale` | database/src/access.rs:373-379 | in every store, for every key and value: staged removal, read, commit, and the removed value is still answered |
| `StoreItem.CachedDbItem.NewWithVersionSuffix` | database/src/item.rs:94-106 | live and legacy keys are the prefix with their suffixes, the legacy one bare if it has none |
| `StoreItem.CachedDbItem.Read` | database/src/item.rs:108-136 | performs the read step: cached, current or legacy value, the last one rewritten as current and its row deleted |
| `StoreItem.CachedDbItem.Write` | database/src/item.rs:138-146 | performs the write step on the cached value and the live row |
| `StoreItem.CachedDbItem.Remove` | database/src/item.rs:148-156 | performs the removal step on the cached value and both rows |
| `StoreItem.CachedDbItem.Update` | database/src/item.rs:158-181 | performs the update step: the cached, current or legacy value is changed, cached and written as current, without migrating; a missing or undecodable value changes nothing |
| `ItemModel.MigrationKeepsValue` | database/src/item.rs:108-136 | after the migration's put, and after its delete, the stored value is the one before: a crash in between loses nothing |
| `ItemModel.ReadMigrates` | database/src/item.rs:108-136 | a read that finds a value in the rows leaves it as a current row: an old row is replaced, a current one and all other rows stay |
| `ItemModel.StepIsRegisterStep` | database/src/item.rs:108-181 | each call and each crash, other than a read or update that finds a value in the rows over changes staged by the item itself, is a step of a single register |
| `ItemModel.ItemIsRegister` | database/src/item.rs:108-181 | over every run, torn reads and crashes included, in which no value is read from the rows over changes staged by the item itself, every answer is that of a register that reads never change |
| `ItemModel.StagedReadExact` | database/src/item.rs:108-136 | over any staged changes, a read or update answers like the register if and only if the item is cached, unstaged or without a value in the rows, and then goes on standing for it |
| `ItemModel.StagedRemoveOverlooked` | consensus/src/model/stores/pruning_meta.rs:81-86 | in every place, for every value: staged removal, read, commit, and the removed value is still answered |
| `ItemModel.OwnStep` | database/src/item.rs:108-181 | over a run the batch never leaves the old row put, and never leaves the live row deleted without the old row deleted too |
| `ItemModel.DirectOverStagedExact` | database/src/item.rs:138-146 | a direct write over staged changes is what the commit leaves if and only if the batch does not touch the live row or ends with putting the same value |
| `ItemModel.OldValueNeverReturns` | database/src/item.rs:138-181 | once a write, a successful update or a removal is direct or committed, the old row is never consulted again, crashes included: the rest of the run is a run with any other decoder for old rows |
| `ItemModel.PastStep` | database/src/item.rs:108-181 | no call makes the old row visible again, in the rows or through the batch |
| `ItemModel.TornRemoveExact` | database/src/item.rs:148-156 | a removal cut off after its first delete leaves no value if and only if there is no other legacy row |
| `ItemModel.TornRemoveResurrects` | database/src/item.rs:148-156 | for every place with a legacy row: write, torn removal, and the legacy value is back |
| `SetModel.BucketRangeExact` | database/src/set_access.rs:142-147 | deleting a bucket's range erases exactly the rows under the bucket |
| `SetModel.CollectMembers` | database/src/set_access.rs:184-194 | iterating a bucket yields exactly the members it represents |
| `SetModel.CollectExact` | database/src/set_access.rs:184-194 | reading a bucket fails if and only if one of its rows does not decode, and otherwise yields exactly what its rows decode to |
| `SetModel.StepIsMapStep` | database/src/set_access.rs:66-101 | each call and each crash, other than a read of an uncached bucket whose members the batch changes, is a step of a map of sets and answers like it |
| `SetModel.StoreIsMapOfSets` | database/src/set_access.rs:66-101 | over every run with any evictions, staging, commits and crashes, in which no uncached bucket is read while the batch changes its members, a read returns exactly the members added and not removed, and the rows are what was written directly or committed |
| `SetModel.StagedReadExact` | database/src/set_access.rs:66-79 | what a read finds in the rows is the current set if and only if the batch leaves every member of the bucket as the rows have it |
| `SetModel.StagedMemberLost` | consensus/src/model/stores/children.rs:51-68 | in every store, for every key and member: staged addition, read, commit, and the set is still answered without the member |
| `SetModel.DirectOverStagedExact` | database/src/set_access.rs:81-101 | a direct addition or removal of a staged member is what the commit leaves if and only if the batch does not touch the row or ends with the same change |
| `StoreSet.DbSetAccess.GetDbKey` | database/src/set_access.rs:137-140 | the row of a member is the bucket's prefix followed by the member's encoding |
| `StoreSet.DbSetAccess.CollectBucket` | database/src/set_access.rs:154-194 | the loop over the bucket's rows computes the collected set or the first decoding error |
| `StoreSet.CachedDbSetAccess.Read` | database/src/set_access.rs:66-79 | performs the read step of the set store and inserts the set into the cache by its policy |
| `StoreSet.CachedDbSetAccess.Write` | database/src/set_access.rs:81-87 | performs the add step: row put, and the cached set changed in its place if it is cached |
| `StoreSet.CachedDbSetAccess.Remove` | database/src/set_access.rs:94-101 | performs the discard step: row deleted, and the cached set changed in its place if it is cached |
| `StoreSet.CachedDbSetAccess.DeleteBucket` | database/src/set_access.rs:89-92 | performs the step that drops the cached set and the bucket's range |
| `StoreSet.UpdateRepresents` | database/src/item.rs:230-253 | discarding and then adding rows leaves rows that represent the old set without the removed and with the added members |
| `StoreSet.CachedDbSetItem.Read` | database/src/item.rs:210-228 | returns and caches the stored set |
| `StoreSet.CachedDbSetItem.Update` | database/src/item.rs:230-253 | the returned set is the old one without the removed and with the added members, an item in both being kept; the rows represent it, through the batch alone if there is one |
| `GuardQueue.PruneDrops` | bridge/src/kaspaapi.rs:70-92 | for any queue that covers the table, pruning ends within the capacity, keeps values, and drops a key only if it is expired or there is no room |
| `GuardQueue.SurvivesExact` | bridge/src/kaspaapi.rs:70-92 | for any queue that covers the table, a key survives pruning if and only if an unexpired key stands at or before its first queue item and what is left from that item on fits |
| `GuardQueue.PruneKeepsSuffix` | bridge/src/share_handler.rs:190-212 | if the queue lists exactly the keys, pruning keeps a suffix of it: past the expired front, then the newest entries that fit |
| `GuardQueue.PruneExact` | bridge/src/kaspaapi.rs:70-92 | with timestamps in queue order, exactly the unexpired among the newest entries that fit are kept |
| `DuplicateSubmitGuard.RunListed` | bridge/src/share_handler.rs:190-234 | over every run the queue lists exactly the table's keys without repetition, and the table exceeds its capacity by at most one |
| `DuplicateSubmitGuard.EvictedExact` | bridge/src/share_handler.rs:190-212 | an entry is evicted for lack of room if and only if it survives the age loop and that many newer ones fill the table |
| `DuplicateSubmitGuard.OutcomeRemembered` | bridge/src/share_handler.rs:214-234 | within its lifetime, and unless evicted or recorded anew, an outcome is returned unchanged after every run |
| `DuplicateSubmitGuard.OverdueKept` | bridge/src/share_handler.rs:228-234 | an entry survives the age loop if and only if it or an entry before it in the queue is not expired |
| `DuplicateSubmitGuard.OverdueAnswered` | bridge/src/share_handler.rs:214-234 | at any capacity of two or more, a run after which an overdue entry is still answered |
| `DuplicateSubmitGuard.DuplicateSubmitGuard.PruneNow` | bridge/src/share_handler.rs:190-212 | the two loops compute the pruned table and queue |
| `DuplicateSubmitGuard.DuplicateSubmitGuard.Get` | bridge/src/share_handler.rs:214-217 | prunes and answers the entry's outcome if it is left |
| `DuplicateSubmitGuard.DuplicateSubmitGuard.InsertInFlight` | bridge/src/share_handler.rs:219-226 | prunes and marks an absent key, leaving a present one as it is |
| `DuplicateSubmitGuard.DuplicateSubmitGuard.SetOutcome` | bridge/src/share_handler.rs:228-234 | prunes and records the outcome of a present key with a new timestamp in its old place |
| `BlockSubmitGuard.RunCovered` | bridge/src/kaspaapi.rs:70-107 | over every run each marked hash is in the queue, in spite of stale queue items, and the table exceeds its capacity by at most one |
| `BlockSubmitGuard.TwoMarksReleased` | bridge/src/kaspaapi.rs:94-107 | two successful marks of one hash have an unmark, an expiry or a capacity drop of it between them |
| `BlockSubmitGuard.MarksExact` | bridge/src/kaspaapi.rs:94-102 | a hash can be marked if and only if it is not marked, or no unexpired hash stands at or before its first queue item, or what is left from there on does not fit |
| `BlockSubmitGuard.SteadyPrune` | bridge/src/kaspaapi.rs:70-102 | in runs without unmarks pruning keeps exactly the unexpired among the newest hashes that fit |
| `BlockSubmitGuard.RunSurvives` | bridge/src/kaspaapi.rs:70-107 | after every run, unmarks included, a hash survives pruning if and only if an unexpired hash stands at or before its first queue item, stale or not, and what is left from there on fits |
| `BlockSubmitGuard.RemarkedDroppedFirst` | bridge/src/kaspaapi.rs:94-107 | at any capacity of two or more there is a run with a forward clock after which a hash that was unmarked and marked again is dropped while one marked before it stays |
| `BlockSubmitGuard.SmallDropsOldest` | bridge/src/kaspaapi.rs:70-107 | at a capacity of one or zero no run does that |
| `BlockSubmitGuard.BlockSubmitGuard.PruneNow` | bridge/src/kaspaapi.rs:70-92 | the two loops compute the pruned table and queue |
| `BlockSubmitGuard.BlockSubmitGuard.TryMark` | bridge/src/kaspaapi.rs:94-102 | succeeds exactly if the hash is absent after pruning, and then marks it |
| `BlockSubmitGuard.BlockSubmitGuard.Remove` | bridge/src/kaspaapi.rs:104-107 | prunes and unmarks the hash, leaving its queue item |
| `BlockSubmission.SubmitBlock` | bridge/src/kaspaapi.rs:386-441 | the block is sent exactly if its hash could be marked; afterwards the hash is marked if and only if the node accepted the block |
| `BlockSubmission.KeptExact` | bridge/src/kaspaapi.rs:419-441 | the mark stays if and only if the node accepted the block |
| `BlockSubmission.UnacceptedUnmarked` | bridge/src/kaspaapi.rs:419-441 | after any other reply the hash is unmarked and can be sent again |
| `BlockSubmission.WrappedFailureUnmarks` | bridge/src/kaspaapi.rs:419-431 | whatever the node replied, a failed call is not recognised as a duplicate and the mark goes |
| `BlockSubmission.DuplicateTestExact` | bridge/src/kaspaapi.rs:419-431 | the test of the displayed error agrees with the same test of the node's own text if and only if that text tells of no duplicate |
| `BlockSubmission.TwoLiveDropped` | bridge/src/kaspaapi.rs:386-441 | over every interleaving of submissions, two of one hash are both with the node or accepted by it only if the guard dropped the hash for age or lack of room |
| `BlockSubmission.HandlerReplyExact` | bridge/src/share_handler.rs:890-961 | to the submit handler a block is a duplicate if its hash was marked already, and bad if the call failed or the node rejected it with a report that does not say it is a duplicate |
| `JobRing.MiningState.AddJob` | bridge/src/mining_state.rs:54-76 | the job gets the next number and takes that number's slot |
| `JobRing.MiningState.Lookup` | bridge/src/mining_state.rs:79-85 | answers what the slot of the number holds |
| `JobRing.RunRefines` | bridge/src/mining_state.rs:54-76 | after any additions each slot holds the newest job whose number falls into it |
| `JobRing.GetJobExact` | bridge/src/mining_state.rs:79-85 | for any number the answer is the newest issued job congruent to it modulo 300, if any; for the last 300 numbers it is the job issued under that number |
| `JobRing.StoredIdsExact` | bridge/src/mining_state.rs:149-152 | the stored numbers are exactly the last 300 issued |
| `JobRing.FilledSlots` | bridge/src/mining_state.rs:54-85 | a slot is filled exactly if 300 jobs were issued or its number was |
| `ShareWalk.VisitBounds` | bridge/src/share_handler.rs:1006-1031 | however jobs arrive meanwhile, the walk makes at most 300 visits and never reaches number 0 from a positive one |
| `ShareWalk.VisitsDistinct` | bridge/src/share_handler.rs:1006-1031 | no slot is visited twice |
| `ShareWalk.VerdictExact` | bridge/src/share_handler.rs:515-1072 | the first visited job with a value up to its network target or below the pool target decides: in the first case by the reply, success crediting the share and the other three making it stale, rejected or bad, in the second case the share is credited; the number is that of the job |
| `ShareWalk.NoneMeets` | bridge/src/share_handler.rs:1053-1072 | if no visited job meets a target the verdict is low difficulty, or the overflow for number 0 |
| `ShareWalk.VisitedJob` | bridge/src/share_handler.rs:1006-1031 | each visit is to the newest job issued by then under a number congruent modulo 300, and to the one with that very number if it is among the last 300 |
| `ShareWalk.CreditedExact` | bridge/src/share_handler.rs:797-887 | a share is credited if and only if the first visited job meeting either target does not meet the network's, or the node accepts its block |
| `ShareWalk.CoverageExact` | bridge/src/share_handler.rs:1006-1031 | while no job arrives, the walk visits every filled slot if and only if 300 were issued and the number is at least 300, or fewer were and the number falls on the latest slot |
| `ShareWalk.LowDifficultyComplete` | bridge/src/share_handler.rs:1053-1072 | with such a number a low-difficulty verdict means that no stored job meets either target |
| `ShareWalk.LatestCovers` | bridge/src/mining_state.rs:54-57 | the latest issued number is such a number |
| `ShareWalk.LaterJobMissed` | bridge/src/share_handler.rs:1006-1072 | with all 300 slots filled and any number below the latest, a share that meets the target of a later stored job only is refused as low difficulty |
| `ShareWalk.ValidateShare` | bridge/src/share_handler.rs:515-1072 | the handler's loop returns the walk's verdict, or reports the job missing, and leaves the ring as the arrived jobs made it |
| `SubmitAccounting.NextInv` | bridge/src/share_handler.rs:1053-1099 | each lock-by-lock step keeps every worker's counters, and the totals, equal to what the submissions of that worker have contributed, and hands out counters of the submission's own worker only |
| `SubmitAccounting.CountersExact` | bridge/src/share_handler.rs:477-513 | over every interleaving, with pruning of statistics in between, each worker's shares are its accepted submissions, its stale counts its stale blocks and its invalid counts its low-difficulty shares and bad blocks, each counted once, and the same for the totals; answered duplicates count nowhere |
| `SubmitAccounting.RegisteredExact` | bridge/src/share_handler.rs:288-311 | as long as a worker is not pruned, its registered counters show all of its counted submissions, by verdict |
| `SubmitAccounting.TotalsConserved` | bridge/src/share_handler.rs:1174-1179 | between submissions the total shares, stale and invalid counts are the live workers' plus those of the pruned ones |
| `SubmitAccounting.TwoFreshDropped` | bridge/src/share_handler.rs:480-489 | two submissions of one key are both validated only if its guard entry expired or was evicted in between |
| `SubmitAccounting.CountedStartedFresh` | bridge/src/share_handler.rs:477-513 | every submission that is validated or counted found its key unmarked |
| `SubmitAccounting.NoDoubleCredit` | bridge/src/share_handler.rs:477-513 | two accepted submissions of one key mean that its guard entry expired or was evicted before |
| `SubmitAccounting.OutcomesJustified` | bridge/src/share_handler.rs:480-513 | over every interleaving, every outcome held by the guard or answered to a duplicate is the verdict of a submission of the same key, or says that one is in flight |
| `SubmitAccounting.DuplicateAnswered` | bridge/src/share_handler.rs:480-513 | a duplicate is answered with the outcome that the last submission of its key recorded, accepted, stale, low difficulty or bad by its verdict, unless the guard dropped the key since |
| `Vardiff.TickExact` | bridge/src/share_handler.rs:46-102 | with clamping, a tick on 2^k doubles it if and only if there were 3 shares or more in 30 seconds or more at 1.25 times the expected rate per minute or above, halves it, never below 1, if and only if there were that many at 0.75 times the rate or below, or none in 90 seconds, and leaves it otherwise |
| `Vardiff.FreeUp` | bridge/src/share_handler.rs:84-101 | without clamping, a fast worker's difficulty grows by 11 percent at least and doubles at most, as it does from four times the expected rate on |
| `Vardiff.FreeDown` | bridge/src/share_handler.rs:64-101 | without clamping, a slow worker's difficulty falls by a tenth at least, and to its half or 1 at most, as it does from a quarter of the rate down and without shares; it stays if and only if the change would be smaller than a tenth, or it is 1 |
| `Vardiff.FreeStays` | bridge/src/share_handler.rs:75-90 | in all other cases nothing changes |
| `Vardiff.StartExact` | bridge/src/stratum_server.rs:82-88 | a configured difficulty starts as the largest power of two not above it, and 0 as 4 |
| `Vardiff.NextPow2` | bridge/src/share_handler.rs:1121-1149 | every event of a worker keeps its two difficulties unset or powers of two; only jobs change the one in force, new statistics start with it, and a new job brings the two together |
| `Vardiff.TickGood` | bridge/src/share_handler.rs:1609-1622 | a tick leaves a worker's difficulty, doubles it or halves it |
| `Vardiff.RunPow2` | bridge/src/client_handler.rs:601-655 | over every run of jobs, resends, pruning and ticks a worker's difficulties are unset or powers of two, and the one in force is at least 1 from the first job on |
| `Target.Pow2TargetExact` | bridge/src/hasher.rs:155-179 | the target of 2^k is 2^(224-k) - 1 if and only if k is at most 68; beyond, all difficulties share one target |
| `Target.WholeTarget` | bridge/src/hasher.rs:155-179 | for every whole difficulty that the scaled cast can hold the target is 2^224 - 1 divided by it, rounded down |
| `Target.TargetMonotone` | bridge/src/hasher.rs:155-179 | a harder difficulty never has an easier target |
| `Target.TickTarget` | bridge/src/share_handler.rs:1609-1622 | a clamped difficulty change up halves the pool target, rounding down, and one down doubles it and sets the new bit |
| `Extranonce.AssignedDistinct` | bridge/src/client_handler.rs:104-131 | any 65536 consecutive assignments are distinct |
| `Extranonce.ExtranonceAllocator.Assign` | bridge/src/client_handler.rs:104-131 | a Bitmain miner gets none and uses none up; any other client gets the next value in four digits |
| `Extranonce.AssignedText` | bridge/src/client_handler.rs:115-116 | the text assigned for a value is four lower-case digits that read back as the value |
| `Extranonce.NonceInSlice` | bridge/src/share_handler.rs:439-472 | for every four-digit extranonce, a nonce of at most 12 characters is read as extranonce times 2^48 plus its value if it is hexadecimal, and refused otherwise |
| `Extranonce.SubmittedInSlice` | bridge/src/share_handler.rs:439-472 | the same for the text as submitted, with or without "0x" |
| `Extranonce.OwnNonce` | bridge/src/share_handler.rs:443-472 | without an extranonce, as for Bitmain miners, the nonce is the number that the text writes, with or without "0x", or refused beyond 64 bits |
| `Extranonce.StripExact` | bridge/src/share_handler.rs:439 | text without "0x" stays as it is, and otherwise the first one goes and so on behind it |
| `Extranonce.ParseExact` | bridge/src/share_handler.rs:465-472 | a text is read as v if and only if it is the hexadecimal number v of 64 bits, with or without a plus sign |
| `Hex.DigitExact` | bridge/src/share_handler.rs:465-472 | a digit is worth its place among the sixteen, small or capital |
| `Extranonce.SlicesDisjoint` | bridge/src/client_handler.rs:104-131 | two clients among 65536 consecutive assignments never produce the same nonce from such texts |
| `Extranonce.SliceExact` | bridge/src/share_handler.rs:439-472 | a nonce that is accepted lies in the client's own slice if and only if its text has at most 12 characters or its digits above the lowest twelve read as the client's extranonce |
| `Extranonce.OtherSliceReachable` | bridge/src/share_handler.rs:451-456 | for any two clients, one client's nonce written out in 16 digits is the same nonce when the other submits it |
| `Extranonce.KeyExact` | bridge/src/share_handler.rs:477-478 | for one client and any hexadecimal nonces, two duplicate keys agree in their nonce text if and only if the padded texts agree in length, nonce and the case of every digit |
| `Extranonce.KeyNamesNonce` | bridge/src/share_handler.rs:477-478 | for one client and lower-case nonces of at most 12 digits, two duplicate keys agree in their nonce text if and only if the nonces are equal |
| `Extranonce.CaseSplitsKey` | bridge/src/share_handler.rs:477-478 | two texts that differ in case give one nonce but two keys |
| `JobParams.ParamsRoundTrip` | bridge/src/hasher.rs:277-363 | the text has 80 digits and gives hash and timestamp back |
| `JobParams.ParamsDigits` | bridge/src/hasher.rs:277-363 | digit by digit: the bytes of the hash in order, then those of the timestamp from the lowest up, each in two lower-case digits |
| `JobParams.GenerateLargeJobParams` | bridge/src/hasher.rs:367-391 | five words in hexadecimal are exactly the text of the other encoder on the first 32 bytes; a shorter header ends in the index panic |
| `JobParams.GenerateJobHeader` | bridge/src/hasher.rs:253-268 | the words are as many as fit, at most four, and their little-endian bytes are the header's |
| `LineFramer.Framer.Append` | bridge/src/stratum_listener.rs:21-27 | data is appended exactly if the buffer stays within 65536 bytes |
| `LineFramer.Framer.Receive` | bridge/src/stratum_listener.rs:328-556 | one read does what the specification of a read says to buffer, messages and connection |
| `LineFramer.Framer.TakeLines` | bridge/src/stratum_listener.rs:495-556 | the loop over the buffer takes off the lines, hands over the messages and stops as the specification says |
| `LineFramer.CutLosesNothing` | bridge/src/stratum_listener.rs:495-498 | the lines with their newlines and the unfinished line are the whole stream, and none of them holds a newline |
| `LineFramer.TrimExact` | bridge/src/stratum_listener.rs:496 | trimming takes white space off both ends of a line and nothing else |
| `LineFramer.NulExact` | bridge/src/stratum_listener.rs:333 | NUL bytes are dropped wherever they are, and nothing else |
| `LineFramer.HttpLikeExact` | bridge/src/stratum_listener.rs:507-515 | the refused lines are "SM" and those that start with an HTTP/2 preface or one of six HTTP methods |
| `LineFramer.OpenExact` | bridge/src/stratum_listener.rs:333-556 | a read leaves the connection open if and only if it fits into 65536 bytes behind the pending ones, completes no HTTP line, and is not a first read that shows one; then messages and pending bytes are those of the joined text |
| `LineFramer.DrainExact` | bridge/src/stratum_listener.rs:495-556 | a buffer yields exactly its trimmed non-blank lines before the first HTTP line, is refused if and only if there is one, and otherwise keeps its unfinished line |
| `LineFramer.SplitIndependent` | bridge/src/stratum_listener.rs:485-500 | for every cutting of a stream into reads that hold whole characters and none of which is refused by itself, messages, refusal and pending bytes are those of the uncut stream |
| `LineFramer.TextIndependent` | bridge/src/stratum_listener.rs:485-500 | for any reads, also of malformed or cut characters, the same holds of the texts the reads are decoded to |
| `LineFramer.ReceivedExact` | bridge/src/stratum_listener.rs:333-485 | for a stream of valid UTF-8 the decoded texts are the stream if and only if no read ends inside a character |
| `Utf8.DecodedExact` | bridge/src/stratum_listener.rs:485 | lossy decoding part by part gives a valid text back if and only if every part is valid |
| `Utf8.ValidExact` | bridge/src/stratum_listener.rs:485 | the texts that decoding keeps are exactly the UTF-8 encodings of sequences of code points |
| `Utf8.LossyCharacter` | bridge/src/stratum_listener.rs:485 | an encoded code point in front is kept, whatever follows |
| `Utf8.LossyOther` | bridge/src/stratum_listener.rs:485 | where there is none, U+FFFD stands for the longest stretch that starts one, or for one byte |
| `LineFramer.CutCharacterReplaced` | bridge/src/stratum_listener.rs:485 | a character of two bytes that comes in two reads becomes two replacement characters |
| `LineFramer.DispatchedStarts` | bridge/src/stratum_listener.rs:485-500 | with refused reads too, the dispatched messages start the messages of the decoded texts, and an open connection has refused nothing |
| `LineFramer.BufferBounded` | bridge/src/stratum_listener.rs:14-27 | between reads the buffer is within the limit and free of newlines |
| `LineFramer.ShortLinesAccepted` | bridge/src/stratum_listener.rs:14-27 | reads whose texts fit into some room refuse nothing if each line, decoded, leaves that room in the buffer and the first read does not look like HTTP |
| `LineFramer.ReadRoom` | bridge/src/stratum_listener.rs:485-491 | a read of 1024 bytes takes that room if its characters are whole, so lines of up to 64512 bytes are accepted, and three times as much at most in any case |
| `LineFramer.FirstCheckExact` | bridge/src/stratum_listener.rs:335-397 | a refused first read belongs to an HTTP line, except exactly when it shows only "SM" of a line that goes on |
| `LineFramer.FirstCheckDependsOnSplit` | bridge/src/stratum_listener.rs:335-397 | "SMART" is refused if the first read ends after "SM" and dispatched if it comes at once |
| `WriteHalf.RunInv` | bridge/src/stratum_context.rs:490-549 | over every interleaving of any number of writers and disconnects the lock is held exactly while one task is in the write section, and the half is in exactly one place |
| `WriteHalf.MutualExclusion` | bridge/src/stratum_context.rs:497-522 | two tasks in the write section are one task, and while it holds the half nobody else has it |
| `WriteHalf.QuietReleased` | bridge/src/stratum_context.rs:497-549 | when all tasks have finished, however, the lock is free and the half is in its slot or closed |
| `WriteHalf.ClosedExact` | bridge/src/stratum_context.rs:586-629 | the half is ever closed if and only if no writer holds it when the disconnect looks into the slot |
| `WriteHalf.WriteOutlivesDisconnect` | bridge/src/stratum_context.rs:586-629 | a concrete run at whose end the client is disconnected and the half open in its slot |
| `WriteHalf.WaitFree` | bridge/src/stratum_context.rs:490-549 | whatever others do, a writer returns within 19 steps of its own and a disconnect within 2 |
| `WriteHalf.ResultExact` | bridge/src/stratum_context.rs:524-548 | over every run a writer that has returned reports success if and only if one of its own socket writes ended well |
| `WriteHalf.ThreeAttempts` | bridge/src/stratum_context.rs:496-548 | a writer makes at most three attempts, and gives up after fewer only if it met a disconnect, found no half or its write failed: a busy lock and a timeout are tried again |
| `WriteHalf.FailureDisconnects` | bridge/src/stratum_context.rs:524-640 | after a failed write or three timeouts the client is disconnected once all tasks have finished |
| `WriteHalf.StaysConnected` | bridge/src/stratum_context.rs:524-640 | without those, and unless somebody disconnects it, the client stays connected |

## Left out

- `read_with_fallback`, `has_with_fallback`, `iterator` and `seek_iterator` of the keyed store: unsupported in combination with versioned rows, or easy scans.
- Database I/O errors, RocksDB and bincode internals, `MemoryWriter`.
- StoreRuns.StoreIsMap: runs hold no unguarded write over a legacy row, no read that would cache a value other than the staged one, and no direct write of a row that is staged; `StoreLimits` says exactly what these do.
- SetModel.StoreIsMapOfSets: runs hold no read of an uncached bucket whose members the batch changes, and no direct write of a row that is staged; `SetModel.StagedReadExact` and `SetModel.DirectOverStagedExact` say exactly what these do.
- ItemModel.ItemIsRegister: runs hold no read or update that finds a value in the rows over the item's own staged changes, and no direct write over those; `ItemModel.StagedReadExact` and `ItemModel.DirectOverStagedExact` say exactly what these do.
- ItemModel.OldValueNeverReturns: a removal torn over a leftover old row is not part of a run; `ItemModel.TornRemoveExact` says what it does.
- Racing cache fills: a call of a store wrapper is one step, as the owning stores serialise them.
- Sharing of one cached set between readers through its lock: sets are values.
- ShareWalk.ValidateShare: proof of work, the node's reply and the pool target of each visit are parameters; the logging and metrics between the steps are not modelled.
- SubmitAccounting.CountersExact: the pruning task may drop any statistics, which covers the retention rule of the source; 64-bit wrap-around of the counters is not modelled, nor are the share-difficulty sums.
- Vardiff.TickExact: difficulties are reals; infinities and NaN of the source's floats are not modelled.
- Extranonce.ExtranonceAllocator.Assign: whether the application name is a Bitmain one is a parameter.
- Extranonce.NonceInSlice: text lengths are counted in characters; for text that is not ASCII the source counts bytes, and both refuse it.
- LineFramer.Framer.Receive: the message handlers are not modelled, and lines are trimmed of ASCII white space only, where the source also trims that of other scripts.
- WriteHalf.RunInv: a writer whose task is cancelled during the write, and the partial data of a write that timed out before it is repeated, are not modelled.
- BlockSubmission.SubmitBlock: the later propagation check of an accepted block is not modelled.
- `calculate_target`, `diff_to_target_alternative`, `stratum_difficulty_to_target_kaspa` and the environment switches between target formulas: easy or testing-only arithmetic.
- Header hashing, proof of work, gRPC, timers and channels: foreign code.
- Metrics, dashboards, logging, health checks, command line and configuration, address cleaning, the internal CPU miner and the polling of block colours.
