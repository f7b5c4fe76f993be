/** The entry manager: the component that encodes log entries into the key
  * space (one record per entry, or batched records). Its implementations are
  * not part of this model; it is kept abstract as three functions with the
  * contract the log database relies on. */
module EntryManagers {
  import opened Common
  import opened Keys
  import opened RaftPb
  import opened KV

  /** What `record` stages: the write-batch operations, and the new max index
    * (0 when nothing new was staged). */
  datatype Staged = Staged(ops: seq<Op>, maxIndex: uint64)

  datatype EntryManager = EntryManager(
    /** record(store, clusterID, nodeID, entries) */
    record: (Store, uint64, uint64, seq<Entry>) -> Staged,
    /** getRange(store, clusterID, nodeID, snapshotIndex, maxIndex): (firstIndex, length) */
    getRange: (Store, uint64, uint64, uint64, uint64) -> Result<(uint64, uint64)>,
    /** rangedOp(clusterID, nodeID, index): the [first, last) key range handed to the deletion primitive */
    rangedOp: (uint64, uint64, uint64) -> (Key, Key))

  /** Every operation staged by `record` writes an entry record of the replica it was called for. */
  predicate StagesOwnEntries(ops: seq<Op>, c: uint64, n: uint64) {
    forall i | 0 <= i < |ops| ::
      ops[i].key.EntryKey? && OfReplica(ops[i].key, c, n) && (ops[i].Put? ==> ops[i].value.EntryRec?)
  }

  /** A ranged operation stays inside the entry keys of its replica. */
  predicate OwnEntryRange(r: (Key, Key), c: uint64, n: uint64) {
    r.0.EntryKey? && OfReplica(r.0, c, n) && r.1.EntryKey? && OfReplica(r.1, c, n)
  }

  /** What the log database relies on from an entry manager. */
  ghost predicate ValidManager(em: EntryManager) {
    && (forall s, c, n, es :: StagesOwnEntries(em.record(s, c, n, es).ops, c, n))
    && (forall c, n, i :: OwnEntryRange(em.rangedOp(c, n, i), c, n))
  }
}
