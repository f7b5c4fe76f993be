# tugboat-logdb in Dafny

A model of the per-shard Raft log database of tugboat-logdb (package `pebble`):
the component that persists, for every Raft replica `(clusterID, nodeID)`, its
persistent state, its bootstrap record, its latest snapshot, the highest saved
log index and its log entries, in one ordered key-value engine shared by the
replicas of a shard.

The database (`db` in `pebble/db.go`) is modelled as the class `LogDB.DB` over
three collaborators:

- the storage engine `KV.Engine`: an ordered map from `Keys.Key` to `KV.Value`,
  held as a strictly sorted sequence of pairs. It offers scans, point reads,
  atomic commits of a `KV.WriteBatch` (an ordered list of puts and deletes in
  which the last write to a key wins) and ranged deletes. Engine failures are
  two flags: while `readFault` is set every read fails, and while `writeFault`
  is set every write fails and changes nothing;
- the replica cache `ReplicaCache.Cache`: per replica, the max index, the last
  saved state and the last accepted snapshot index;
- the entry manager `EntryManagers.EntryManager`: kept abstract as three
  functions (`record`, `getRange`, `rangedOp`), with the contract the database
  relies on: it only writes and deletes the entry records of the replica it was
  called for.

Every method of `LogDB.DB` is proved against a function of the old state:

- `WritePath` gives the write path. `saveRaftState` is the staging loop over
  the updates followed by the entry loop and one commit; `saveSnapshots`
  stages snapshots only.
- `Maintenance` gives `removeNodeData` and `importSnapshot`.
- `ReadPath` gives `getRange`, `getSnapshot`, `listNodeInfo` and
  `hasEntryRecord`.
- `MaxIndexRecords` gives the max-index lookup, with the big-endian codec in
  `BigEndian`.

The lemmas beside those functions state what the operations achieve, in terms
of the value `KV.Get` returns for a key afterwards. `Config` models the tuning
configuration (`pebble/config.go`). `LogDBDirs` models the directory checks and
expansion done when the sharded database is created (`pebble/logdb.go`).

Panics of the code (`plog.Panicf`, `panic`, a decode of a short max-index value)
are modelled as a `Panic(reason)` status or an `Abort(reason)` result, which ends
the operation at that point.

## Model

| member | source | states |
|---|---|---|
| LogDB.HasEntryRecord | pebble/db.go:58-72 | fails exactly when the engine read fails; otherwise true exactly when the store holds some entry record |
| ReadPath.EntryScanFacts | pebble/db.go:58-72 | the scan over all entry keys is non-empty iff the store holds an entry key |
| LogDB.DB.constructor | pebble/db.go:74-88 | a database opened over the pairs already on disk has an empty cache, exactly those pairs in its engine and the given entry manager, and the empty cache agrees with the store |
| LogDB.DB.ListNodeInfo | pebble/db.go:114-129 | fails on a read fault, otherwise returns `ReadPath.NodeInfos` of the store: one entry per bootstrap record, in key order |
| ReadPath.NodeInfosFacts | pebble/db.go:114-129 | a replica is listed iff it has a bootstrap record, and no replica is listed twice |
| ReadPath.ImportAndRemoveRegisterReplica | pebble/db.go:114-129 | a replica is listed after importSnapshot and no longer listed after removeNodeData |
| LogDB.DB.GetRange | pebble/db.go:148-161 | the result is `ReadPath.GetRange` of the current max-index lookup: `(snapshotIndex, 0)` when there is no saved log or the max index equals the snapshot index, the lookup's error otherwise, else the entry manager's range up to the max index |
| ReadPath.GetRangeOfUnsavedReplica | pebble/db.go:148-161 | a replica with no cached and no stored max index has the range `(snapshotIndex, 0)` |
| ReadPath.GetRangeAfterImport | pebble/db.go:148-161 | after importSnapshot, with nothing cached, the range from the imported snapshot's index is `(index, 0)` |
| ReadPath.GetRangeAfterRemoveNodeData | pebble/db.go:431-444 | after removeNodeData the cached max index is 0: the range from snapshot index 0 is `(0, 0)`, and from any other index it is whatever the entry manager returns for max index 0 |
| LogDB.DB.StageUpdate | pebble/db.go:165-181 | one iteration of saveRaftState's first loop leaves exactly the cache and batch of `WritePath.UpdateStep` and reports whether the loop goes on, stops on a panic, or stops on a swallowed error |
| LogDB.DB.SaveRaftState | pebble/db.go:163-188 | status, cache and store afterwards are those of `WritePath.SaveRaftState` on the old store and cache |
| WritePath.StageStateOnce | pebble/db.go:291-304 | saveState stages nothing iff the state is empty or unchanged in the cache; otherwise it stages exactly one put of the state under the replica's state key; repeating the call stages nothing more |
| WritePath.AcceptedUpdateStep | pebble/db.go:165-181 | an accepted non-empty snapshot not behind its entries stages saveSnapshot's operations and the max-index put, and the cache records both indexes |
| WritePath.PanicOnlyWhenEntriesBehindSnapshot | pebble/db.go:169-176 | the loop panics only if some update has a non-empty snapshot whose index exceeds its last entry's index |
| WritePath.UpdateBehindSnapshotPanics | pebble/db.go:165-181 | when the first loop reaches, at any position, an update whose snapshot the cache then accepts and whose last entry lies below that snapshot, saveRaftState panics, whatever follows, with the store unchanged |
| WritePath.StageUpdatesStops | pebble/db.go:172-179 | once the loop has stopped, later updates change nothing |
| WritePath.NoSwallowWithoutReadFault | pebble/db.go:177-179 | the saveSnapshot error is swallowed only when the engine read fails |
| WritePath.SwallowedSnapshotIsNeverSaved | pebble/db.go:177-179 | a swallowed saveSnapshot error returns Ok with the store unchanged, and the cache has already accepted the index, so a later retry of the same update does not store that snapshot |
| WritePath.RefusedSnapshotIsNotWritten | pebble/db.go:163-188 | in a batch of any length, a replica none of whose updates carries a snapshot the cache accepts keeps every snapshot key as it was and its cached snapshot index, whatever the faults and the other updates |
| WritePath.UpdateStepLeavesReplica | pebble/db.go:165-181 | an update of another replica, or one whose snapshot is empty or refused, only appends operations that write no snapshot key of the replica, and keeps its cached snapshot index |
| WritePath.StageUpdatesLeavesReplica | pebble/db.go:165-182 | the same over the whole first loop, for updates none of which carries an accepted snapshot of the replica |
| WritePath.IdleUpdatesChangeNothing | pebble/db.go:183-187 | updates with empty state, empty snapshot and no entries leave the status Ok and the cache and the store unchanged (the empty batch is not committed) |
| WritePath.SaveRaftStateStoresSnapshot | pebble/db.go:163-188 | with no faults and no update whose entries end before its snapshot, the only update of a replica in a batch of any length, carrying a snapshot the cache accepts, stores that snapshot under its own index, deletes the replica's lower snapshots, leaves its higher ones, and the cache records the index |
| WritePath.FirstAcceptedStaged | pebble/db.go:165-181 | when the loop reaches that update, the batch is operations that write no snapshot key of the replica, then saveSnapshot's operations, then the max-index put, and the cache records the index |
| WritePath.OtherUpdateStaged | pebble/db.go:165-181 | an update of another replica keeps the loop running and appends operations that write no snapshot key of the replica |
| WritePath.AcceptedUpdateStaged | pebble/db.go:165-182 | after any number of further updates, the batch is still saveSnapshot's operations framed by operations that write no snapshot key of the replica |
| WritePath.EntriesLeaveReplica | pebble/db.go:471-480 | saveEntries appends operations that write no snapshot key |
| WritePath.AcceptedUpdateCommits | pebble/db.go:163-188 | the committed batch is saveSnapshot's operations framed by operations that write no snapshot key of the replica, and the commit succeeds |
| WritePath.SnapshotKeysThroughBatch | pebble/db.go:163-188 | applying saveSnapshot's operations amid operations that leave the replica's snapshot keys alone has saveSnapshot's effect on every snapshot key of the replica |
| WritePath.CacheAgreesAfterSaveRaftState | pebble/db.go:163-188 | with no faults, a cache whose max indexes agree with the stored ones still agrees after saveRaftState |
| WritePath.SaveRaftStateBatchFits | pebble/db.go:183-185 | every put in the committed batch stores a value of the kind its key holds |
| WritePath.StageUpdatesKeeps | pebble/db.go:165-182 | the first loop keeps the batch well-typed and keeps every pending max index stored in the batch |
| WritePath.UpdateStepKeeps | pebble/db.go:165-181 | one iteration keeps the batch well-typed and the pending max indexes |
| WritePath.StageEntriesKeeps | pebble/db.go:471-480 | saveEntries only appends entry writes and max-index puts, and leaves the cached states and snapshot indexes alone |
| WritePath.EntryStepKeeps | pebble/db.go:472-479 | one update's entries append only entry writes and leave the cached states and snapshot indexes alone; when the update has entries and record reports a max index above 0, the cache takes that index and the last operation is its put; otherwise the cached max indexes are unchanged and no max-index key is written |
| LogDB.DB.SaveEntries | pebble/db.go:471-480 | cache and batch afterwards are those of `WritePath.StageEntries` |
| LogDB.DB.SaveState | pebble/db.go:291-304 | cache and batch afterwards are those of `WritePath.StageState` |
| LogDB.DB.SetMaxIndex | pebble/db.go:227-231 | the cache records the max index and the batch gains its put |
| LogDB.DB.SaveMaxIndex | pebble/db.go:263-281 | the batch gains one put of the 8-byte big-endian encoding of the index under the replica's max-index key |
| LogDB.DB.SaveBootstrap | pebble/db.go:233-239 | the batch gains one put of the bootstrap record |
| LogDB.DB.SaveStateAllocs | pebble/db.go:283-289 | the batch gains one put of the state, unconditionally |
| LogDB.DB.ListSnapshots | pebble/db.go:365-384 | fails on a read fault, otherwise returns `StoredSnapshots`: the replica's stored snapshots up to the bound |
| SnapshotRecords.StoredSnapshotsFacts | pebble/db.go:365-384 | the listing is in strictly ascending index order and holds exactly the snapshots stored for the replica up to the bound |
| SnapshotRecords.ListedSnapshotIsStored | pebble/db.go:365-384 | every listed snapshot is stored for the replica under its own index, within the bound |
| SnapshotRecords.StoredSnapshotIsInListing | pebble/db.go:365-384 | every snapshot stored for the replica under its own index within the bound is listed |
| SnapshotRecords.StoredSnapshotIsListed | pebble/db.go:365-384 | a value under a snapshot key is a snapshot with that key's index, and it is listed |
| LogDB.DB.SaveSnapshot | pebble/db.go:241-261 | an empty snapshot stages nothing; a read fault fails with nothing staged; otherwise the batch gains `SnapshotOps` of the listing |
| SnapshotRecords.SnapshotOpsEffect | pebble/db.go:241-261 | saveSnapshot's operations store the snapshot at its own index, delete the replica's snapshots with strictly lower indexes, and leave every other key, equal and higher indexes included, as it was |
| SnapshotRecords.DeletesBelowEffect | pebble/db.go:249-255 | the loop's deletions remove exactly the listed snapshots with lower indexes |
| LogDB.DB.SaveSnapshots | pebble/db.go:330-347 | status, cache and store afterwards are those of `WritePath.SaveSnapshots` |
| WritePath.SaveSnapshotsTouchesOnlySnapshots | pebble/db.go:330-347 | saveSnapshots changes no key other than snapshot keys and leaves cached max indexes and states alone; an agreeing cache keeps agreeing |
| WritePath.SaveSnapshotsStoresSnapshot | pebble/db.go:330-347 | with no faults, the only update of a replica in a batch of any length, carrying a snapshot the cache accepts, has that snapshot stored at its index, the replica's lower snapshots deleted and its higher ones kept, and the cache records the index |
| WritePath.SaveSnapshotsLeavesRefused | pebble/db.go:330-347 | a replica none of whose updates carries a snapshot the cache accepts keeps every snapshot key and its cached snapshot index, whatever the faults and the other updates |
| WritePath.CollectLeavesReplica | pebble/db.go:334-342 | the loop over such updates stages no write of the replica's snapshot keys |
| WritePath.CollectNoSwallowWithoutReadFault | pebble/db.go:337-339 | the loop swallows an error only when the engine read fails |
| WritePath.FirstAcceptedCollected | pebble/db.go:334-342 | when the loop reaches the replica's accepted update, the batch is operations that write no snapshot key of the replica followed by saveSnapshot's operations, and something is to be saved |
| WritePath.OtherUpdateCollected | pebble/db.go:334-342 | an update of another replica keeps the loop going and appends no write of the replica's snapshot keys |
| WritePath.AcceptedSnapshotCollected | pebble/db.go:334-342 | after any number of further updates, the batch is still saveSnapshot's operations framed by operations that write no snapshot key of the replica |
| WritePath.CollectSnapshotsKeeps | pebble/db.go:334-342 | the loop stages only snapshot writes, keeps the batch well-typed, and sets `toSave` whenever it stages something |
| WritePath.CollectSnapshotsStops | pebble/db.go:337-339 | once an error is swallowed, later updates change nothing |
| LogDB.DB.GetSnapshot | pebble/db.go:349-360 | returns `ReadPath.LatestSnapshot` of the store, and records its index in the cache exactly when a snapshot is stored |
| ReadPath.LatestSnapshotIsNewest | pebble/db.go:349-360 | the result is a stored snapshot of the replica with the highest index, or the empty snapshot exactly when none is stored |
| ReadPath.GetSnapshotAfterImport | pebble/db.go:349-360 | after importing a non-empty snapshot, getSnapshot returns it |
| LogDB.DB.GetMaxIndex | pebble/db.go:386-404 | the result is `MaxIndexLookup`: the cached value; else a read fault; else ErrNoSavedLog for a missing or empty value; a panic for a value shorter than 8 bytes; the big-endian decoding otherwise |
| MaxIndexRecords.MaxIndexRoundTrip | pebble/db.go:263-281 | reading back what saveMaxIndex stored gives the saved index, for every uint64 |
| MaxIndexRecords.MaxIndexMissing | pebble/db.go:394-397 | a replica with nothing cached and no stored max index reads ErrNoSavedLog |
| MaxIndexRecords.CachedLookupMatchesStore | pebble/db.go:386-404 | with a cache that agrees with the store, dropping the cached entry changes the answer only when nothing is stored, in which case it becomes ErrNoSavedLog |
| BigEndian.Uint64PutUint64 | pebble/db.go:272 | decoding the 8-byte big-endian encoding returns the original uint64 |
| BigEndian.PutUint64Injective | pebble/db.go:272 | distinct indexes have distinct encodings |
| LogDB.DB.RemoveEntriesTo | pebble/db.go:423-429 | fails on a write fault with the store unchanged; otherwise removes exactly the keys in the entry manager's range |
| LogDB.DB.RemoveNodeData | pebble/db.go:431-444 | status, cache and store afterwards are those of `Maintenance.RemoveNodeData` |
| Maintenance.RemoveNodeDataEffect | pebble/db.go:431-462 | afterwards the replica has no state, bootstrap or max-index record and no snapshot; its entries in the removed range are gone; other replicas are untouched; the cached max index is 0; an agreeing cache keeps agreeing |
| Maintenance.RemoveNodeKeyEffect | pebble/db.go:431-462 | key by key: every record of the replica is gone except its entry records outside the removed range, and every other key is as it was |
| Maintenance.RemoveNodeDataFailureChangesNothing | pebble/db.go:434-441 | a failed removeNodeData changes neither the cache nor the store |
| LogDB.DB.SaveRemoveNodeData | pebble/db.go:446-462 | the batch gains deletions of the state, bootstrap and max-index keys, then one per listed snapshot |
| Maintenance.RemoveNodeOpsFacts | pebble/db.go:446-462 | those deletions remove exactly the three fixed keys and the listed snapshot keys, all of the replica, none an entry key |
| LogDB.SelectAtOrAbove | pebble/db.go:198-203 | the selection is the listed snapshots whose index is at least the imported one, in order |
| Maintenance.AtOrAbove | pebble/db.go:198-203 | a snapshot is selected iff it is listed and its index is at least the given one |
| LogDB.DB.StageImport | pebble/db.go:198-223 | given the listing, fails exactly when saveSnapshot's own listing fails for a non-empty snapshot; otherwise the batch built is `Maintenance.ImportOps`: the front, saveSnapshot's operations, then the max-index put |
| LogDB.DB.StageImportFront | pebble/db.go:204-215 | the batch gains the deletions of the replica's records and of the selected snapshots, then puts of the bootstrap record `{join, type}` and the state `{term, commit = index}` |
| Maintenance.ImportOpsAfter | pebble/db.go:204-223 | operation by operation: the bootstrap, state and max-index keys end up holding their new records, the imported snapshot's key holds it, lower listed snapshots and the selected ones are deleted, and every other key is as it was |
| LogDB.DB.ImportSnapshot | pebble/db.go:190-225 | status and store afterwards are those of `Maintenance.ImportSnapshot`; the cache is not touched |
| Maintenance.ImportSnapshotEffect | pebble/db.go:190-225 | on success the replica has bootstrap `{join, type}`, state `{term, commit = index}`, max index = the snapshot index, and exactly one snapshot record, the imported one (none when its index is 0); entries and other replicas are untouched |
| Maintenance.ImportKeyEffect | pebble/db.go:204-223 | key by key, the value importSnapshot's batch leaves, deletes and re-puts within the batch included |
| Maintenance.ImportSnapshotIsAtomic | pebble/db.go:190-225 | a failed import leaves the store unchanged; it panics iff the state machine type is unknown |
| ReplicaCache.Cache.TrySaveSnapshot | pebble/db.go:167-168 | accepts iff the index is strictly above the last accepted one (0 when none) and then records it |
| ReplicaCache.SnapshotAcceptanceIsStrict | pebble/db.go:167-168 | after accepting an index, a later index is accepted iff it is strictly greater |
| ReplicaCache.Cache.SetState | pebble/db.go:296 | reports whether the state differs from the cached one and records it |
| ReplicaCache.SetStateIdempotent | pebble/db.go:296 | setting the state just recorded reports no change |
| ReplicaCache.Cache.GetMaxIndex | pebble/db.go:387 | returns the cached max index and whether there is one |
| ReplicaCache.Cache.SetMaxIndex | pebble/db.go:229 | overwrites the cached max index |
| ReplicaCache.Cache.SetSnapshotIndex | pebble/db.go:356 | overwrites the cached snapshot index |
| Config.DefaultConfig | pebble/config.go:89-113 | the default has 16 shards and the default file system |
| Config.PublicDefaultConfig | pebble/config.go:48-52 | the public default is the large preset and is estimated at 8 GiB |
| Config.TinyMemConfig | pebble/config.go:54-61 | the default with four 4 MiB write buffers and nothing else changed, estimated at 256 MiB |
| Config.SmallMemConfig | pebble/config.go:63-70 | the default with four 16 MiB write buffers and nothing else changed, estimated at 1 GiB |
| Config.MediumMemConfig | pebble/config.go:72-80 | the default with four 64 MiB write buffers and nothing else changed, estimated at 4 GiB |
| Config.LargeMemConfig | pebble/config.go:82-87 | four 128 MiB write buffers on 16 shards, estimated at 8 GiB |
| Config.MemorySizeMB | pebble/config.go:115-121 | the estimate is the product of buffer size, buffer count and shards taken modulo 2^64, in whole MiB |
| Config.WrapTwice | pebble/config.go:118-119 | wrapping after each of the two multiplications equals wrapping the full product once |
| Config.WithWriteBuffers | pebble/config.go:56-60 | a preset takes the given write-buffer size and count and every other field of the default |
| Config.MemorySizeExact | pebble/config.go:115-121 | without uint64 overflow, MemorySizeMB is buffer size times buffer count times shards, in whole MiB |
| Config.PresetMemorySize | pebble/config.go:115-121 | four buffers of n MiB on the default 16 shards estimate 64 n MiB |
| Config.MemorySizeWraps | pebble/config.go:117-120 | the products wrap at 2^64: 2^32 buffers of 2^32 bytes estimate 0 MiB |
| Config.MulUint64 | pebble/config.go:118-119 | wrapping uint64 multiplication equals the exact product when that fits |
| Config.IsEmpty | pebble/config.go:123-127 | an empty configuration has no file system and a zero memory estimate |
| Config.IsEmptyFacts | pebble/config.go:123-127 | a configuration is empty iff it has no file system and every numeric field is zero; no preset is empty |
| LogDBDirs.CheckDirs | pebble/logdb.go:100-118 | directory checking panics or passes, and never returns an error |
| LogDBDirs.CheckDirsAccepts | pebble/logdb.go:100-118 | accepted: one regular dir with at most one low-latency dir, or one regular dir per shard with no low-latency dir or one per regular dir; no regular dir panics |
| LogDBDirs.ShardDirs | pebble/logdb.go:86-96 | reports `CheckDirs`, and on success returns the lists of `ExpandedDirs` |
| LogDBDirs.ExpandedDirsLengths | pebble/logdb.go:86-96 | with at least one shard and accepted lists: one regular dir per shard, no low-latency dir or one per shard, a single dir shared by all shards, several dirs passed on unchanged |
| LogDBDirs.ExpandedDirs | pebble/logdb.go:86-96 | every expanded directory is one of the given ones; a single regular directory becomes one per shard (one when there are no shards), a single low-latency directory beside it becomes as many, and every other list is passed on unchanged |
| LogDBDirs.Copies | pebble/logdb.go:90-95 | the expansion repeats the directory the given number of times |

## Left out

- `pebble/vfs.go` is a one-line delegation to the virtual file system library. There is nothing of it to model.
- Engine internals are not part of this model. This covers opening the engine, its on-disk format and compaction (`compact`, `CompactEntries`, pebble/db.go:464-469). The engine is an ordered map with atomic batch commits.
- All engine errors collapse into one `ErrIO`.
- A fault flag makes every read, or every write, fail. It does not fail one call and then let the next succeed. As a result, the second listing inside importSnapshot (pebble/db.go:216-222) cannot fail once the first has succeeded.
- The key codec is not part of this model. Keys are a datatype ordered by kind, then cluster, node and index. The order between kinds is an assumption; every scan stays within one kind.
- Scans include their upper key. This follows the `true` argument at pebble/db.go:125, 380 and 68.
- Ranged deletes remove [first, last), as the engine's range deletion does.
- Protobuf encoding is not modelled. Records are stored as the values they encode, so `MustUnmarshal` panics on corrupt data do not arise. Every stored value has the kind its key calls for (`KV.Fits`).
- The max-index record is the exception: it is bytes, and its decoding is modelled.
- Key pools, `IContext` buffers and write-batch reuse (`getWriteBatch`, `GetKey`, `GetValueBuffer`) are not modelled. Keys and values are immutable values, and every operation starts a fresh batch.
- The entry manager's implementations (plain and batched entries) are not part of this model. Neither are `iterate`, `binaryFormat` or `OpenShardedDB`.
- LogDB.DB.RemoveEntriesTo: the entry manager's `rangedOp` is modelled as handing exactly one key range to the deletion primitive.
- `iterateEntries` (pebble/db.go:482-498) and `readRaftState` (pebble/db.go:131-146) are thin wrappers over the modelled `getMaxIndex`, `getRange` and the entry manager. `iterateEntries` turns `ErrNoSavedLog` into an empty result, and `readRaftState` adds the stored state to the range. They are not modelled.
- `getState`, `getBootstrapInfo`, `saveBootstrapInfo`, `name`, `close` and `binaryFormat` (pebble/db.go:90-100, 306-328, 406-421) are single reads, single writes or delegations. They are not modelled.
- The `dn` formatting, log messages and error wrapping text are not modelled.
- `Factory` and the call to `OpenShardedDB` at the end of `NewLogDB` are left out; `LogDBDirs.ShardDirs` stops at the expanded lists.
- Config.IsEmpty: `reflect.DeepEqual` against the zero value is modelled as equality with the zero configuration, and the file system as an optional opaque value.
- Config.MemorySizeMB: the documentation calls the result an upper bound on memory use. That is a statement about the engine, so it is not proved; what is proved is the arithmetic, including its wrap-around.
- No concurrency: each method runs alone on its shard.
- Snapshot records are assumed to sit under the key that carries their own index (`KV.Fits`, required of the stored pairs by `LogDB.DB.constructor`). The code writes only such keys (pebble/db.go:257). The comment at pebble/db.go:362-364 mentions stores whose snapshot key has the index part set to the largest uint64. On such a store, `saveSnapshot` would not delete that record, and `getSnapshot` would return whichever record sorts last. Those stores are not modelled. The following rest on this assumption: `SnapshotRecords.SnapshotOpsEffect`, `Maintenance.ImportSnapshotEffect`, `ReadPath.LatestSnapshotIsNewest`, `WritePath.SaveRaftStateStoresSnapshot` and `WritePath.SaveSnapshotsStoresSnapshot`.
- LogDB.DB.constructor: `openRDB` opens the engine from a directory and can fail (pebble/db.go:74-78). The model takes the pairs already on disk as a parameter and leaves out the open error.
- WritePath.SaveRaftStateStoresSnapshot: stated for a batch in which the replica has one update and no update's entries end before its snapshot. With a second update of the same replica, the later `saveSnapshot` lists the committed store and not the pending batch, so the result depends on their order. An update whose accepted snapshot lies beyond its entries makes the call panic instead (`WritePath.UpdateBehindSnapshotPanics`).
- WritePath.SaveSnapshotsStoresSnapshot: stated for a batch in which the replica has one update, for the same reason.

## Behaviour of the code that the model follows

- `getMaxIndex` (pebble/db.go:386-404) does not write a value read from the store back into the cache.
- `saveRaftState` panics when an accepted snapshot's index exceeds the index of the last entry in the same update (pebble/db.go:169-176).
- `saveRaftState` and `saveSnapshots` return `nil` when `saveSnapshot` fails (pebble/db.go:177-179, 337-339), so nothing is committed. The cache has already accepted the snapshot index, and `WritePath.SwallowedSnapshotIsNeverSaved` shows that a retry is then refused.
- After a swallowed error or a failed commit, the cache holds values the store does not. For that reason `WritePath.CacheAgreesAfterSaveRaftState` assumes no faults.
- `saveRaftState` uses one batch for all updates, and stages all entries after all states and snapshots (pebble/db.go:183).
- The listing each `saveSnapshot` reads is the committed store, not the pending batch. Two updates of one replica in one call can therefore leave two snapshot records. For that reason the snapshot lemmas are stated for batches in which the replica has one update.
- `removeNodeData` caches a max index of 0 (pebble/db.go:442). After it, `getRange` from a non-zero snapshot index asks the entry manager for the range up to index 0 rather than reporting that no log is saved.
- `importSnapshot` with snapshot index 0 leaves no snapshot record, because `saveSnapshot` skips empty snapshots. It does not touch the cache.
