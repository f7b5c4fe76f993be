/** The per-shard log database (pebble/db.go): a replica cache, a storage
  * engine and an entry manager. Every method stages its writes into a fresh
  * write batch and commits it once; each is proved against the functions of
  * WritePath, Maintenance and ReadPath, which say what it leaves behind. */
module LogDB {
  import opened Common
  import opened Keys
  import opened RaftPb
  import opened BigEndian
  import opened KV
  import opened ReplicaCache
  import opened EntryManagers
  import opened SnapshotRecords
  import opened MaxIndexRecords
  import WritePath
  import Maintenance
  import ReadPath

  /** hasEntryRecord: whether the engine holds any entry record. */
  method HasEntryRecord(kvs: Engine) returns (r: Result<bool>)
    requires kvs.Valid()
    ensures r.Failure? <==> kvs.readFault
    ensures !r.Abort?
    ensures r.Success? ==> (r.value <==> exists i | 0 <= i < |kvs.data| :: kvs.data[i].0.EntryKey?)
  {
    var scan := kvs.IterateValue(EntryKey(0, 0, 0), EntryKey(MaxUint64, MaxUint64, MaxUint64));
    if scan.Failure? {
      return Failure(scan.error);
    }
    ReadPath.EntryScanFacts(kvs.data);
    var located := false;
    if |scan.value| > 0 {
      // the iteration callback records the first pair and stops
      located := true;
    }
    return Success(located);
  }

  /** importSnapshot's selection loop: the listed snapshots at or beyond `index`. */
  method SelectAtOrAbove(snapshots: seq<Snapshot>, index: uint64) returns (selected: seq<Snapshot>)
    ensures selected == Maintenance.AtOrAbove(snapshots, index)
  {
    selected := [];
    var i := 0;
    while i < |snapshots|
      invariant 0 <= i <= |snapshots|
      invariant selected == Maintenance.AtOrAbove(snapshots[..i], index)
    {
      assert snapshots[..i + 1][..i] == snapshots[..i];
      if snapshots[i].index >= index {
        selected := selected + [snapshots[i]];
      }
      i := i + 1;
    }
    assert snapshots[..i] == snapshots;
  }

  class DB {
    const cs: Cache
    const kvs: Engine
    const entries: EntryManager

    ghost predicate Valid()
      reads kvs
    {
      kvs.Valid() && ValidManager(entries)
    }

    constructor (em: EntryManager, stored: Store)
      requires ValidManager(em) && Sorted(stored) && WellTyped(stored)
      ensures Valid() && fresh(cs) && fresh(kvs) && entries == em
      ensures cs.View() == EmptyCache && kvs.data == stored && !kvs.readFault && !kvs.writeFault
      ensures CacheAgrees(cs.View(), kvs.data)
    {
      cs := new Cache();
      kvs := new Engine(stored);
      entries := em;
    }

    // ----- staging helpers -----

    /** saveState */
    method SaveState(c: uint64, n: uint64, st: State, wb: WriteBatch)
      modifies cs, wb
      ensures WritePath.Staging(cs.View(), wb.ops) == WritePath.StageState(WritePath.Staging(old(cs.View()), old(wb.ops)), c, n, st)
    {
      if IsEmptyState(st) {
        return;
      }
      var changed := cs.SetState(c, n, st);
      if !changed {
        return;
      }
      wb.Put(StateKey(c, n), StateRec(st));
    }

    /** saveMaxIndex: the index as 8 big-endian bytes. */
    method SaveMaxIndex(wb: WriteBatch, c: uint64, n: uint64, index: uint64)
      modifies wb
      ensures wb.ops == old(wb.ops) + [Put(MaxIndexKey(c, n), MaxIndexValue(index))]
    {
      var data := PutUint64(index);
      wb.Put(MaxIndexKey(c, n), Raw(data));
    }

    /** setMaxIndex */
    method SetMaxIndex(wb: WriteBatch, c: uint64, n: uint64, index: uint64)
      modifies cs, wb
      ensures WritePath.Staging(cs.View(), wb.ops) == WritePath.StageMaxIndex(WritePath.Staging(old(cs.View()), old(wb.ops)), c, n, index)
    {
      cs.SetMaxIndex(c, n, index);
      SaveMaxIndex(wb, c, n, index);
    }

    /** saveBootstrap */
    method SaveBootstrap(wb: WriteBatch, c: uint64, n: uint64, bs: Bootstrap)
      modifies wb
      ensures wb.ops == old(wb.ops) + [Put(BootstrapKey(c, n), BootstrapRec(bs))]
    {
      wb.Put(BootstrapKey(c, n), BootstrapRec(bs));
    }

    /** saveStateAllocs: puts the state unconditionally. */
    method SaveStateAllocs(wb: WriteBatch, c: uint64, n: uint64, st: State)
      modifies wb
      ensures wb.ops == old(wb.ops) + [Put(StateKey(c, n), StateRec(st))]
    {
      wb.Put(StateKey(c, n), StateRec(st));
    }

    // ----- snapshots -----

    /** listSnapshots: the replica's snapshots with index at most `hi`, in
      * ascending index order. */
    method ListSnapshots(c: uint64, n: uint64, hi: uint64) returns (r: Result<seq<Snapshot>>)
      requires Valid()
      ensures r == if kvs.readFault then Failure(ErrIO) else Success(StoredSnapshots(kvs.data, c, n, hi))
    {
      var scan := kvs.IterateValue(SnapshotKey(c, n, 0), SnapshotKey(c, n, hi));
      if scan.Failure? {
        return Failure(ErrIO);
      }
      SnapshotScanFacts(kvs.data, c, n, hi);
      var pairs := scan.value;
      var snapshots: seq<Snapshot> := [];
      var i := 0;
      while i < |pairs|
        invariant 0 <= i <= |pairs|
        invariant |snapshots| == i
        invariant forall j | 0 <= j < i :: snapshots[j] == pairs[j].1.snapshot
      {
        snapshots := snapshots + [pairs[i].1.snapshot];
        i := i + 1;
      }
      assert snapshots == StoredSnapshots(kvs.data, c, n, hi);
      return Success(snapshots);
    }

    /** saveSnapshot: an empty snapshot stages nothing; otherwise delete every
      * listed snapshot of the replica with a lower index and put the new one. */
    method SaveSnapshot(wb: WriteBatch, c: uint64, n: uint64, ss: Snapshot) returns (st: Status)
      requires Valid()
      modifies wb
      ensures st == if !IsEmptySnapshot(ss) && kvs.readFault then Err(ErrIO) else Ok
      ensures wb.ops == if IsEmptySnapshot(ss) || kvs.readFault then old(wb.ops)
        else old(wb.ops) + SnapshotOps(StoredSnapshots(kvs.data, c, n, MaxUint64), c, n, ss)
    {
      if IsEmptySnapshot(ss) {
        return Ok;
      }
      var listing := ListSnapshots(c, n, MaxUint64);
      if listing.Failure? {
        return Err(listing.error);
      }
      var snapshots := listing.value;
      var i := 0;
      while i < |snapshots|
        invariant 0 <= i <= |snapshots|
        invariant wb.ops == old(wb.ops) + DeletesBelow(snapshots[..i], c, n, ss.index)
      {
        assert snapshots[..i + 1][..i] == snapshots[..i];
        if ss.index > snapshots[i].index {
          wb.Delete(SnapshotKey(c, n, snapshots[i].index));
        }
        i := i + 1;
      }
      assert snapshots[..i] == snapshots;
      wb.Put(SnapshotKey(c, n, ss.index), SnapshotRec(ss));
      return Ok;
    }

    /** saveEntries */
    method SaveEntries(updates: seq<Update>, wb: WriteBatch)
      modifies cs, wb
      ensures WritePath.Staging(cs.View(), wb.ops)
        == WritePath.StageEntries(kvs.data, entries, WritePath.Staging(old(cs.View()), old(wb.ops)), updates)
    {
      ghost var init := WritePath.Staging(cs.View(), wb.ops);
      var i := 0;
      while i < |updates|
        invariant 0 <= i <= |updates|
        invariant WritePath.Staging(cs.View(), wb.ops) == WritePath.StageEntries(kvs.data, entries, init, updates[..i])
      {
        assert updates[..i + 1][..i] == updates[..i];
        var ud := updates[i];
        if |ud.entriesToSave| > 0 {
          var staged := entries.record(kvs.data, ud.clusterId, ud.nodeId, ud.entriesToSave);
          wb.Append(staged.ops);
          if staged.maxIndex > 0 {
            SetMaxIndex(wb, ud.clusterId, ud.nodeId, staged.maxIndex);
          }
        }
        i := i + 1;
      }
      assert updates[..i] == updates;
    }

    /** One iteration of saveRaftState's first loop: the state, then an
      * accepted snapshot with its max index. `running` is false when the loop
      * stops, on a panic or on a swallowed saveSnapshot error. */
    method StageUpdate(wb: WriteBatch, ud: Update) returns (running: bool, st: Status)
      requires Valid()
      modifies cs, wb
      ensures var p := WritePath.UpdateStep(kvs.data, kvs.readFault, WritePath.Staging(old(cs.View()), old(wb.ops)), ud);
        && running == p.Running?
        && st == (if p.Aborted? then Panic(MaxIndexNotHandled) else Ok)
        && WritePath.Staging(cs.View(), wb.ops) == p.staging
    {
      var c, n := ud.clusterId, ud.nodeId;
      SaveState(c, n, ud.state, wb);
      if !IsEmptySnapshot(ud.snapshot) {
        var accepted := cs.TrySaveSnapshot(c, n, ud.snapshot.index);
        if accepted {
          if |ud.entriesToSave| > 0 {
            var lastIndex := ud.entriesToSave[|ud.entriesToSave| - 1].index;
            if ud.snapshot.index > lastIndex {
              return false, Panic(MaxIndexNotHandled);
            }
          }
          var err := SaveSnapshot(wb, c, n, ud.snapshot);
          if err != Ok {
            // saveRaftState returns nil here, dropping the error
            return false, Ok;
          }
          SetMaxIndex(wb, c, n, ud.snapshot.index);
        }
      }
      return true, Ok;
    }

    /** saveRaftState */
    method SaveRaftState(updates: seq<Update>) returns (st: Status)
      requires Valid()
      modifies cs, kvs`data
      ensures Valid()
      ensures var o := WritePath.SaveRaftState(old(kvs.data), kvs.readFault, kvs.writeFault, entries, old(cs.View()), updates);
        st == o.status && cs.View() == o.cache && kvs.data == o.store
    {
      ghost var store := kvs.data;
      ghost var init := WritePath.Staging(cs.View(), []);
      var wb := new WriteBatch();
      var i := 0;
      while i < |updates|
        invariant 0 <= i <= |updates|
        invariant kvs.data == store && Valid()
        invariant WritePath.StageUpdates(store, kvs.readFault, init, updates[..i]) == WritePath.Running(WritePath.Staging(cs.View(), wb.ops))
      {
        assert updates[..i + 1][..i] == updates[..i];
        var running, err := StageUpdate(wb, updates[i]);
        if !running {
          WritePath.StageUpdatesStops(store, kvs.readFault, init, updates, i + 1);
          return err;
        }
        i := i + 1;
      }
      assert updates[..i] == updates;
      WritePath.SaveRaftStateBatchFits(store, kvs.readFault, entries, init.cache, updates);
      SaveEntries(updates, wb);
      if wb.Count() > 0 {
        st := kvs.CommitWriteBatch(wb);
      } else {
        st := Ok;
      }
    }

    /** saveSnapshots */
    method SaveSnapshots(updates: seq<Update>) returns (st: Status)
      requires Valid()
      modifies cs, kvs`data
      ensures Valid()
      ensures var o := WritePath.SaveSnapshots(old(kvs.data), kvs.readFault, kvs.writeFault, old(cs.View()), updates);
        st == o.status && cs.View() == o.cache && kvs.data == o.store
    {
      ghost var store := kvs.data;
      ghost var cache := cs.View();
      var wb := new WriteBatch();
      var toSave := false;
      var i := 0;
      while i < |updates|
        invariant 0 <= i <= |updates|
        invariant kvs.data == store && Valid()
        invariant WritePath.CollectSnapshots(store, kvs.readFault, cache, updates[..i]) == WritePath.Collected(cs.View(), wb.ops, toSave, false)
      {
        assert updates[..i + 1][..i] == updates[..i];
        var ud := updates[i];
        if !IsEmptySnapshot(ud.snapshot) {
          var accepted := cs.TrySaveSnapshot(ud.clusterId, ud.nodeId, ud.snapshot.index);
          if accepted {
            var err := SaveSnapshot(wb, ud.clusterId, ud.nodeId, ud.snapshot);
            if err != Ok {
              WritePath.CollectSnapshotsStops(store, kvs.readFault, cache, updates, i + 1);
              return Ok;
            }
            toSave := true;
          }
        }
        i := i + 1;
      }
      assert updates[..i] == updates;
      WritePath.SaveSnapshotsBatchFits(store, kvs.readFault, cache, updates);
      if toSave {
        st := kvs.CommitWriteBatch(wb);
      } else {
        st := Ok;
      }
    }

    /** getSnapshot: the newest stored snapshot, whose index the cache then records. */
    method GetSnapshot(c: uint64, n: uint64) returns (r: Result<Snapshot>)
      requires Valid()
      modifies cs
      ensures r == ReadPath.LatestSnapshot(kvs.data, kvs.readFault, c, n)
      ensures cs.View() == if r.Success? && |StoredSnapshots(kvs.data, c, n, MaxUint64)| > 0
        then old(cs.View()).WithSnapshotIndex(NodeInfo(c, n), r.value.index) else old(cs.View())
    {
      var listing := ListSnapshots(c, n, MaxUint64);
      if listing.Failure? {
        return Failure(listing.error);
      }
      var snapshots := listing.value;
      if |snapshots| > 0 {
        var ss := snapshots[|snapshots| - 1];
        cs.SetSnapshotIndex(c, n, ss.index);
        return Success(ss);
      }
      return Success(EmptySnapshot);
    }

    // ----- reads -----

    /** getMaxIndex: cache first, then the stored big-endian value. */
    method GetMaxIndex(c: uint64, n: uint64) returns (r: Result<uint64>)
      requires Valid()
      ensures r == MaxIndexLookup(cs.View(), kvs.data, kvs.readFault, c, n)
    {
      var v, ok := cs.GetMaxIndex(c, n);
      if ok {
        return Success(v);
      }
      var got := kvs.GetValue(MaxIndexKey(c, n));
      if got.Failure? {
        return Failure(got.error);
      }
      if got.value.None? {
        return Failure(ErrNoSavedLog);
      }
      GetFits(kvs.data, MaxIndexKey(c, n));
      var data := got.value.value.bytes;
      if |data| == 0 {
        return Failure(ErrNoSavedLog);
      }
      if |data| < 8 {
        // binary.BigEndian.Uint64 panics on a short slice
        return Abort(ShortValue);
      }
      return Success(Uint64(data));
    }

    /** getRange */
    method GetRange(c: uint64, n: uint64, snapshotIndex: uint64) returns (r: Result<(uint64, uint64)>)
      requires Valid()
      ensures r == ReadPath.GetRange(entries, kvs.data, MaxIndexLookup(cs.View(), kvs.data, kvs.readFault, c, n), c, n, snapshotIndex)
    {
      var maxIndex := GetMaxIndex(c, n);
      match maxIndex {
        case Failure(ErrNoSavedLog) =>
          r := Success((snapshotIndex, 0));
        case Failure(e) =>
          r := Failure(e);
        case Abort(reason) =>
          r := Abort(reason);
        case Success(mi) =>
          if snapshotIndex == mi {
            r := Success((snapshotIndex, 0));
          } else {
            r := entries.getRange(kvs.data, c, n, snapshotIndex, mi);
          }
      }
    }

    /** listNodeInfo: the replica of every bootstrap record. */
    method ListNodeInfo() returns (r: Result<seq<NodeInfo>>)
      requires Valid()
      ensures r == if kvs.readFault then Failure(ErrIO) else Success(ReadPath.NodeInfos(kvs.data))
    {
      var scan := kvs.IterateValue(BootstrapKey(0, 0), BootstrapKey(MaxUint64, MaxUint64));
      if scan.Failure? {
        return Failure(ErrIO);
      }
      ReadPath.BootstrapScanFacts(kvs.data);
      var pairs := scan.value;
      var ni: seq<NodeInfo> := [];
      var i := 0;
      while i < |pairs|
        invariant 0 <= i <= |pairs|
        invariant |ni| == i
        invariant forall j | 0 <= j < i :: ni[j] == ReadPath.NodeOf(pairs[j].0)
      {
        ni := ni + [NodeInfo(pairs[i].0.cluster, pairs[i].0.node)];
        i := i + 1;
      }
      assert ni == ReadPath.NodeInfos(kvs.data);
      return Success(ni);
    }

    // ----- removal and import -----

    /** saveRemoveNodeData */
    method SaveRemoveNodeData(wb: WriteBatch, snapshots: seq<Snapshot>, c: uint64, n: uint64)
      modifies wb
      ensures wb.ops == old(wb.ops) + Maintenance.RemoveNodeOps(snapshots, c, n)
    {
      wb.Delete(StateKey(c, n));
      wb.Delete(BootstrapKey(c, n));
      wb.Delete(MaxIndexKey(c, n));
      ghost var fixed := wb.ops;
      var i := 0;
      while i < |snapshots|
        invariant 0 <= i <= |snapshots|
        invariant wb.ops == fixed + Maintenance.SnapshotDeletes(snapshots[..i], c, n)
      {
        assert snapshots[..i + 1][..i] == snapshots[..i];
        wb.Delete(SnapshotKey(c, n, snapshots[i].index));
        i := i + 1;
      }
      assert snapshots[..i] == snapshots;
    }

    /** removeEntriesTo: the entry manager's ranged delete up to `index`. */
    method RemoveEntriesTo(c: uint64, n: uint64, index: uint64) returns (st: Status)
      requires Valid()
      modifies kvs`data
      ensures Valid()
      ensures var range := entries.rangedOp(c, n, index);
        && st == (if old(kvs.writeFault) then Err(ErrIO) else Ok)
        && kvs.data == if old(kvs.writeFault) then old(kvs.data) else RemoveRange(old(kvs.data), range.0, range.1)
    {
      var range := entries.rangedOp(c, n, index);
      st := kvs.BulkRemoveEntries(range.0, range.1);
    }

    /** removeNodeData */
    method RemoveNodeData(c: uint64, n: uint64) returns (st: Status)
      requires Valid()
      modifies cs, kvs`data
      ensures Valid()
      ensures var o := Maintenance.RemoveNodeData(old(kvs.data), kvs.readFault, kvs.writeFault, entries, old(cs.View()), c, n);
        st == o.status && cs.View() == o.cache && kvs.data == o.store
    {
      ghost var store := kvs.data;
      var wb := new WriteBatch();
      var listing := ListSnapshots(c, n, MaxUint64);
      if listing.Failure? {
        return Err(listing.error);
      }
      SaveRemoveNodeData(wb, listing.value, c, n);
      Maintenance.RemoveNodeOpsFacts(listing.value, c, n, StateKey(c, n), None);
      st := kvs.CommitWriteBatch(wb);
      if st != Ok {
        return st;
      }
      assert listing.value == StoredSnapshots(store, c, n, MaxUint64);
      assert wb.ops == Maintenance.RemoveNodeOps(listing.value, c, n);
      assert kvs.data == Apply(store, Maintenance.RemoveNodeOps(StoredSnapshots(store, c, n, MaxUint64), c, n));
      cs.SetMaxIndex(c, n, 0);
      st := RemoveEntriesTo(c, n, MaxUint64);
    }

    /** importSnapshot's staging, from the listing on: the batch saveRemoveNodeData,
      * saveBootstrap, saveStateAllocs, saveSnapshot and saveMaxIndex build. */
    method StageImport(wb: WriteBatch, listed: seq<Snapshot>, ss: Snapshot, n: uint64) returns (st: Status)
      requires Valid() && wb.ops == []
      requires listed == StoredSnapshots(kvs.data, ss.clusterId, n, MaxUint64)
      modifies wb
      ensures st == if !IsEmptySnapshot(ss) && kvs.readFault then Err(ErrIO) else Ok
      ensures st == Ok ==> wb.ops == Maintenance.ImportOps(kvs.data, ss, n)
    {
      var c := ss.clusterId;
      var selected := SelectAtOrAbove(listed, ss.index);
      StageImportFront(wb, selected, ss, n);
      ghost var front := wb.ops;
      st := SaveSnapshot(wb, c, n, ss);
      if st != Ok {
        return;
      }
      ghost var saved := wb.ops[|front|..];
      assert wb.ops == front + saved;
      SaveMaxIndex(wb, c, n, ss.index);
      Maintenance.ImportOpsParts(kvs.data, ss, n, listed, front, saved);
    }

    /** The front of importSnapshot's batch: the removal of the replica's
      * records and of the selected snapshots, then the bootstrap record and
      * the state. */
    method StageImportFront(wb: WriteBatch, selected: seq<Snapshot>, ss: Snapshot, n: uint64)
      modifies wb
      ensures wb.ops == old(wb.ops) + Maintenance.ImportFront(selected, ss, n)
    {
      var c := ss.clusterId;
      SaveRemoveNodeData(wb, selected, c, n);
      SaveBootstrap(wb, c, n, Bootstrap(map[], true, ss.smType));
      SaveStateAllocs(wb, c, n, State(ss.term, 0, ss.index));
    }

    /** importSnapshot */
    method ImportSnapshot(ss: Snapshot, n: uint64) returns (st: Status)
      requires Valid()
      modifies kvs`data
      ensures Valid()
      ensures var o := Maintenance.ImportSnapshot(old(kvs.data), kvs.readFault, kvs.writeFault, ss, n);
        st == o.status && kvs.data == o.store
    {
      if ss.smType == UnknownStateMachine {
        return Panic(UnknownSnapshotType);
      }
      var listing := ListSnapshots(ss.clusterId, n, MaxUint64);
      if listing.Failure? {
        return Err(listing.error);
      }
      ghost var store := kvs.data;
      ghost var ops := Maintenance.ImportOps(store, ss, n);
      var wb := new WriteBatch();
      st := StageImport(wb, listing.value, ss, n);
      if st != Ok {
        return;
      }
      Maintenance.ImportOpsFit(store, ss, n);
      st := kvs.CommitWriteBatch(wb);
      assert kvs.data == if kvs.writeFault then store else Apply(store, ops);
    }
  }
}
