/** The read side of the log database as functions of the store:
  * getRange (pebble/db.go:148-161), getSnapshot (pebble/db.go:349-360),
  * listNodeInfo (pebble/db.go:114-129) and hasEntryRecord (pebble/db.go:58-72). */
module ReadPath {
  import opened Common
  import opened Keys
  import opened RaftPb
  import opened KV
  import opened ReplicaCache
  import opened EntryManagers
  import opened SnapshotRecords
  import opened MaxIndexRecords
  import opened WritePath
  import opened Maintenance

  /** getRange given the outcome of getMaxIndex: no saved log, or a max index
    * equal to the snapshot index, means no entries after the snapshot;
    * otherwise the entry manager computes the range up to the max index. */
  function GetRange(em: EntryManager, store: Store, maxIndex: Result<uint64>,
                    c: uint64, n: uint64, snapshotIndex: uint64): Result<(uint64, uint64)> {
    match maxIndex
    case Failure(ErrNoSavedLog) => Success((snapshotIndex, 0))
    case Failure(e) => Failure(e)
    case Abort(reason) => Abort(reason)
    case Success(mi) =>
      if snapshotIndex == mi then Success((snapshotIndex, 0))
      else em.getRange(store, c, n, snapshotIndex, mi)
  }

  /** A replica that never saved a max index has no entries after any snapshot. */
  lemma GetRangeOfUnsavedReplica(em: EntryManager, cache: CacheView, store: Store, c: uint64, n: uint64, snapshotIndex: uint64)
    requires WellTyped(store)
    requires NodeInfo(c, n) !in cache.maxIndex && Get(store, MaxIndexKey(c, n)) == None
    ensures GetRange(em, store, MaxIndexLookup(cache, store, false, c, n), c, n, snapshotIndex) == Success((snapshotIndex, 0))
  {
  }

  /** After importSnapshot, reading from the imported snapshot's index finds
    * no entries: the stored max index equals it. */
  lemma GetRangeAfterImport(em: EntryManager, cache: CacheView, store: Store, ss: Snapshot, n: uint64)
    requires Sorted(store) && WellTyped(store) && ss.smType != UnknownStateMachine
    requires NodeInfo(ss.clusterId, n) !in cache.maxIndex
    ensures var o := ImportSnapshot(store, false, false, ss, n);
      WellTyped(o.store) &&
      GetRange(em, o.store, MaxIndexLookup(cache, o.store, false, ss.clusterId, n), ss.clusterId, n, ss.index)
        == Success((ss.index, 0))
  {
    ImportSnapshotEffect(store, ss, n);
    var o := ImportSnapshot(store, false, false, ss, n);
    MaxIndexRoundTrip(cache, o.store, ss.clusterId, n, ss.index);
  }

  /** After removeNodeData the cache holds max index 0 for the replica, so
    * getRange no longer reports a missing log: from snapshot index 0 it finds
    * no entries, and from any other index it asks the entry manager for the
    * range up to 0. */
  lemma GetRangeAfterRemoveNodeData(em: EntryManager, cache: CacheView, store: Store, c: uint64, n: uint64, snapshotIndex: uint64)
    requires Sorted(store) && WellTyped(store) && ValidManager(em)
    ensures var o := RemoveNodeData(store, false, false, em, cache, c, n);
      WellTyped(o.store) &&
      GetRange(em, o.store, MaxIndexLookup(o.cache, o.store, false, c, n), c, n, snapshotIndex)
        == if snapshotIndex == 0 then Success((0, 0)) else em.getRange(o.store, c, n, snapshotIndex, 0)
  {
    RemoveNodeDataEffect(store, em, cache, c, n);
  }

  // ----- getSnapshot -----

  /** getSnapshot: the last listed snapshot of the replica, or the empty
    * snapshot when none is stored. */
  function LatestSnapshot(store: Store, readFault: bool, c: uint64, n: uint64): Result<Snapshot>
    requires Sorted(store) && WellTyped(store)
  {
    if readFault then Failure(ErrIO)
    else
      var listed := StoredSnapshots(store, c, n, MaxUint64);
      Success(if |listed| > 0 then listed[|listed| - 1] else EmptySnapshot)
  }

  /** getSnapshot returns the stored snapshot of the replica with the highest
    * index, and the empty snapshot exactly when none is stored. */
  lemma LatestSnapshotIsNewest(store: Store, c: uint64, n: uint64)
    requires Sorted(store) && WellTyped(store)
    ensures var r := LatestSnapshot(store, false, c, n).value;
      var listed := StoredSnapshots(store, c, n, MaxUint64);
      && (|listed| > 0 ==> Get(store, SnapshotKey(c, n, r.index)) == Some(SnapshotRec(r)))
      && (forall i: uint64 | Get(store, SnapshotKey(c, n, i)).Some? :: i <= r.index && |listed| > 0)
      && (|listed| == 0 ==> r == EmptySnapshot)
  {
    var listed := StoredSnapshots(store, c, n, MaxUint64);
    StoredSnapshotsFacts(store, c, n, MaxUint64);
    var r := LatestSnapshot(store, false, c, n).value;
    if |listed| > 0 {
      assert listed[|listed| - 1] in listed;
    }
    forall i: uint64 | Get(store, SnapshotKey(c, n, i)).Some? ensures i <= r.index && |listed| > 0 {
      StoredSnapshotIsListed(store, SnapshotKey(c, n, i));
      var s := Get(store, SnapshotKey(c, n, i)).value.snapshot;
      var j :| 0 <= j < |listed| && listed[j] == s;
      if j < |listed| - 1 {
        assert listed[j].index < listed[|listed| - 1].index;
      }
    }
  }

  /** Import then read back: after importSnapshot of a non-empty snapshot,
    * getSnapshot returns exactly the imported snapshot. */
  lemma GetSnapshotAfterImport(store: Store, ss: Snapshot, n: uint64)
    requires Sorted(store) && WellTyped(store) && ss.smType != UnknownStateMachine && ss.index > 0
    ensures var o := ImportSnapshot(store, false, false, ss, n);
      Sorted(o.store) && WellTyped(o.store) && LatestSnapshot(o.store, false, ss.clusterId, n) == Success(ss)
  {
    ImportSnapshotEffect(store, ss, n);
  }

  // ----- listNodeInfo -----

  /** The replica a bootstrap key belongs to. */
  function NodeOf(k: Key): NodeInfo
    requires k.BootstrapKey?
  {
    NodeInfo(k.cluster, k.node)
  }

  /** The scan listNodeInfo runs: every bootstrap record. */
  function BootstrapScan(store: Store): Store {
    Scan(store, BootstrapKey(0, 0), BootstrapKey(MaxUint64, MaxUint64))
  }

  lemma BootstrapScanFacts(store: Store)
    requires Sorted(store) && WellTyped(store)
    ensures var p := BootstrapScan(store);
      && Sorted(p)
      && (forall i | 0 <= i < |p| :: p[i].0.BootstrapKey?)
      && (forall pr :: pr in p <==> Get(store, pr.0) == Some(pr.1) && pr.0.BootstrapKey?)
  {
    var p := BootstrapScan(store);
    ScanFacts(store, BootstrapKey(0, 0), BootstrapKey(MaxUint64, MaxUint64));
    forall pr ensures pr in p <==> Get(store, pr.0) == Some(pr.1) && pr.0.BootstrapKey? {
      BootstrapRange(pr.0);
    }
    forall i | 0 <= i < |p| ensures p[i].0.BootstrapKey? {
      assert p[i] in p;
    }
  }

  /** listNodeInfo: the replica of every bootstrap record, in key order. */
  function NodeInfos(store: Store): seq<NodeInfo>
    requires Sorted(store) && WellTyped(store)
  {
    BootstrapScanFacts(store);
    var p := BootstrapScan(store);
    seq(|p|, i requires 0 <= i < |p| => NodeOf(p[i].0))
  }

  /** listNodeInfo lists exactly the replicas that have a bootstrap record,
    * each once. */
  lemma NodeInfosFacts(store: Store)
    requires Sorted(store) && WellTyped(store)
    ensures var r := NodeInfos(store);
      && (forall id :: id in r <==> Get(store, BootstrapKey(id.clusterId, id.nodeId)).Some?)
      && (forall i, j | 0 <= i < j < |r| :: r[i] != r[j])
  {
    var r := NodeInfos(store);
    var p := BootstrapScan(store);
    BootstrapScanFacts(store);
    forall id ensures id in r <==> Get(store, BootstrapKey(id.clusterId, id.nodeId)).Some? {
      var k := BootstrapKey(id.clusterId, id.nodeId);
      if id in r {
        var i :| 0 <= i < |r| && r[i] == id;
        assert p[i] in p;
        assert p[i].0 == k;
      }
      if Get(store, k).Some? {
        assert (k, Get(store, k).value) in p;
        var i :| 0 <= i < |p| && p[i] == (k, Get(store, k).value);
        assert r[i] == id;
      }
    }
    forall i, j | 0 <= i < j < |r| ensures r[i] != r[j] {
      assert Less(p[i].0, p[j].0);
    }
  }

  /** importSnapshot registers the replica with listNodeInfo and
    * removeNodeData unregisters it. */
  lemma ImportAndRemoveRegisterReplica(store: Store, em: EntryManager, cache: CacheView, ss: Snapshot, n: uint64)
    requires Sorted(store) && WellTyped(store) && ValidManager(em) && ss.smType != UnknownStateMachine
    ensures var imported := ImportSnapshot(store, false, false, ss, n).store;
      && Sorted(imported) && WellTyped(imported)
      && NodeInfo(ss.clusterId, n) in NodeInfos(imported)
      && var removed := RemoveNodeData(imported, false, false, em, cache, ss.clusterId, n).store;
         Sorted(removed) && WellTyped(removed) && NodeInfo(ss.clusterId, n) !in NodeInfos(removed)
  {
    ImportSnapshotEffect(store, ss, n);
    var imported := ImportSnapshot(store, false, false, ss, n).store;
    NodeInfosFacts(imported);
    RemoveNodeDataEffect(imported, em, cache, ss.clusterId, n);
    NodeInfosFacts(RemoveNodeData(imported, false, false, em, cache, ss.clusterId, n).store);
  }

  // ----- hasEntryRecord -----

  /** The scan hasEntryRecord runs finds a pair exactly when the store holds
    * some entry record. */
  lemma EntryScanFacts(store: Store)
    requires Sorted(store) && WellTyped(store)
    ensures |Scan(store, EntryKey(0, 0, 0), EntryKey(MaxUint64, MaxUint64, MaxUint64))| > 0
      <==> exists i | 0 <= i < |store| :: store[i].0.EntryKey?
  {
    var lo, hi := EntryKey(0, 0, 0), EntryKey(MaxUint64, MaxUint64, MaxUint64);
    var p := Scan(store, lo, hi);
    ScanFacts(store, lo, hi);
    if |p| > 0 {
      assert p[0] in p;
      EntryRange(p[0].0);
      GetMember(store, p[0].0, p[0].1);
    }
    if i :| 0 <= i < |store| && store[i].0.EntryKey? {
      EntryRange(store[i].0);
      GetMember(store, store[i].0, store[i].1);
      assert store[i] in p;
    }
  }
}
