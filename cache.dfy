/** The in-memory replica cache consulted on the write path: the last max
  * index, the last persisted state and the last persisted snapshot index of
  * every replica. */
module ReplicaCache {
  import opened Common
  import opened RaftPb

  /** The cache's contents as a value. */
  datatype CacheView = CacheView(
    maxIndex: map<NodeInfo, uint64>,
    states: map<NodeInfo, State>,
    snapshotIndex: map<NodeInfo, uint64>)
  {
    /** setState reports a change when no state is cached or the cached one differs. */
    predicate StateChanged(id: NodeInfo, st: State) {
      id !in states || states[id] != st
    }

    /** The last accepted snapshot index, 0 when none was recorded. */
    function LastSnapshotIndex(id: NodeInfo): uint64 {
      if id in snapshotIndex then snapshotIndex[id] else 0
    }

    /** trySaveSnapshot accepts only an index beyond the last accepted one. */
    predicate SnapshotAccepted(id: NodeInfo, index: uint64) {
      index > LastSnapshotIndex(id)
    }

    function WithMaxIndex(id: NodeInfo, index: uint64): CacheView {
      this.(maxIndex := maxIndex[id := index])
    }

    function WithState(id: NodeInfo, st: State): CacheView {
      this.(states := states[id := st])
    }

    function WithSnapshotIndex(id: NodeInfo, index: uint64): CacheView {
      this.(snapshotIndex := snapshotIndex[id := index])
    }
  }

  const EmptyCache: CacheView := CacheView(map[], map[], map[])

  /** Once a snapshot index is accepted, only a strictly greater index is accepted next. */
  lemma SnapshotAcceptanceIsStrict(cv: CacheView, id: NodeInfo, accepted: uint64, later: uint64)
    requires cv.SnapshotAccepted(id, accepted)
    ensures cv.WithSnapshotIndex(id, accepted).SnapshotAccepted(id, later) <==> later > accepted
  {
  }

  /** A state just recorded is reported unchanged the next time. */
  lemma SetStateIdempotent(cv: CacheView, id: NodeInfo, st: State)
    ensures !cv.WithState(id, st).StateChanged(id, st)
  {
  }

  class Cache {
    var maxIndex: map<NodeInfo, uint64>
    var states: map<NodeInfo, State>
    var snapshotIndex: map<NodeInfo, uint64>

    function View(): CacheView
      reads this
    {
      CacheView(maxIndex, states, snapshotIndex)
    }

    constructor ()
      ensures View() == EmptyCache
    {
      maxIndex, states, snapshotIndex := map[], map[], map[];
    }

    /** getMaxIndex: the cached max index and whether there is one. */
    method GetMaxIndex(clusterId: uint64, nodeId: uint64) returns (v: uint64, ok: bool)
      ensures ok <==> NodeInfo(clusterId, nodeId) in maxIndex
      ensures ok ==> v == maxIndex[NodeInfo(clusterId, nodeId)]
      ensures !ok ==> v == 0
    {
      var id := NodeInfo(clusterId, nodeId);
      if id in maxIndex {
        return maxIndex[id], true;
      }
      return 0, false;
    }

    /** setMaxIndex: unconditional overwrite. */
    method SetMaxIndex(clusterId: uint64, nodeId: uint64, index: uint64)
      modifies this
      ensures View() == old(View()).WithMaxIndex(NodeInfo(clusterId, nodeId), index)
    {
      maxIndex := maxIndex[NodeInfo(clusterId, nodeId) := index];
    }

    /** setState: records `st` and reports true unless it equals the cached state. */
    method SetState(clusterId: uint64, nodeId: uint64, st: State) returns (changed: bool)
      modifies this
      ensures changed == old(View()).StateChanged(NodeInfo(clusterId, nodeId), st)
      ensures View() == if changed then old(View()).WithState(NodeInfo(clusterId, nodeId), st) else old(View())
    {
      var id := NodeInfo(clusterId, nodeId);
      if id in states && states[id] == st {
        return false;
      }
      states := states[id := st];
      return true;
    }

    /** trySaveSnapshot: accepts and records `index` only when it is strictly
      * greater than the last recorded snapshot index (0 when none). */
    method TrySaveSnapshot(clusterId: uint64, nodeId: uint64, index: uint64) returns (accepted: bool)
      modifies this
      ensures accepted == old(View()).SnapshotAccepted(NodeInfo(clusterId, nodeId), index)
      ensures View() == if accepted then old(View()).WithSnapshotIndex(NodeInfo(clusterId, nodeId), index) else old(View())
    {
      var id := NodeInfo(clusterId, nodeId);
      var last := if id in snapshotIndex then snapshotIndex[id] else 0;
      if index <= last {
        return false;
      }
      snapshotIndex := snapshotIndex[id := index];
      return true;
    }

    /** setSnapshotIndex: unconditional overwrite. */
    method SetSnapshotIndex(clusterId: uint64, nodeId: uint64, index: uint64)
      modifies this
      ensures View() == old(View()).WithSnapshotIndex(NodeInfo(clusterId, nodeId), index)
    {
      snapshotIndex := snapshotIndex[NodeInfo(clusterId, nodeId) := index];
    }
  }
}
