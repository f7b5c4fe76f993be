/** What the log database reads and stages for snapshot records: the ordered
  * listing of a replica's stored snapshots (listSnapshots, pebble/db.go:365-384)
  * and the operations saveSnapshot stages (pebble/db.go:241-261). */
module SnapshotRecords {
  import opened Common
  import opened Keys
  import opened RaftPb
  import opened KV

  /** The unmarshalled snapshot values of a scan over snapshot keys. */
  function SnapshotValues(pairs: Store): (r: seq<Snapshot>)
    requires forall i | 0 <= i < |pairs| :: pairs[i].1.SnapshotRec?
  {
    seq(|pairs|, i requires 0 <= i < |pairs| => pairs[i].1.snapshot)
  }

  /** The scan listSnapshots(c, n, hi) runs: SnapshotKey(c, n, 0) to SnapshotKey(c, n, hi). */
  function SnapshotScan(store: Store, c: uint64, n: uint64, hi: uint64): Store {
    Scan(store, SnapshotKey(c, n, 0), SnapshotKey(c, n, hi))
  }

  lemma SnapshotScanFacts(store: Store, c: uint64, n: uint64, hi: uint64)
    requires Sorted(store) && WellTyped(store)
    ensures var p := SnapshotScan(store, c, n, hi);
      && Sorted(p)
      && (forall i | 0 <= i < |p| ::
            p[i].1.SnapshotRec? && p[i].0 == SnapshotKey(c, n, p[i].1.snapshot.index) && p[i].1.snapshot.index <= hi)
      && (forall pr :: pr in p <==> Get(store, pr.0) == Some(pr.1) && pr.0.SnapshotKey? && OfReplica(pr.0, c, n) && pr.0.index <= hi)
  {
    var p := SnapshotScan(store, c, n, hi);
    ScanFacts(store, SnapshotKey(c, n, 0), SnapshotKey(c, n, hi));
    forall pr ensures pr in p <==> Get(store, pr.0) == Some(pr.1) && pr.0.SnapshotKey? && OfReplica(pr.0, c, n) && pr.0.index <= hi {
      SnapshotRange(pr.0, c, n, hi);
    }
    forall i | 0 <= i < |p|
      ensures p[i].1.SnapshotRec? && p[i].0 == SnapshotKey(c, n, p[i].1.snapshot.index) && p[i].1.snapshot.index <= hi
    {
      assert p[i] in p;
      SnapshotRange(p[i].0, c, n, hi);
      assert Fits(p[i].0, p[i].1);
    }
  }

  /** listSnapshots(c, n, hi) on a store that does not fail. */
  function StoredSnapshots(store: Store, c: uint64, n: uint64, hi: uint64): seq<Snapshot>
    requires Sorted(store) && WellTyped(store)
  {
    SnapshotScanFacts(store, c, n, hi);
    SnapshotValues(SnapshotScan(store, c, n, hi))
  }

  /** The listing is in strictly ascending index order. */
  lemma StoredSnapshotsAscending(store: Store, c: uint64, n: uint64, hi: uint64)
    requires Sorted(store) && WellTyped(store)
    ensures var r := StoredSnapshots(store, c, n, hi);
      forall i, j | 0 <= i < j < |r| :: r[i].index < r[j].index
  {
    var r := StoredSnapshots(store, c, n, hi);
    var p := SnapshotScan(store, c, n, hi);
    SnapshotScanFacts(store, c, n, hi);
    forall i, j | 0 <= i < j < |r| ensures r[i].index < r[j].index {
      assert Less(p[i].0, p[j].0);
    }
  }

  /** A listed snapshot is stored for the replica under its own index, at
    * most `hi`. */
  lemma ListedSnapshotIsStored(store: Store, c: uint64, n: uint64, hi: uint64, ss: Snapshot)
    requires Sorted(store) && WellTyped(store)
    requires ss in StoredSnapshots(store, c, n, hi)
    ensures ss.index <= hi && Get(store, SnapshotKey(c, n, ss.index)) == Some(SnapshotRec(ss))
  {
    var r := StoredSnapshots(store, c, n, hi);
    var p := SnapshotScan(store, c, n, hi);
    SnapshotScanFacts(store, c, n, hi);
    var i :| 0 <= i < |r| && r[i] == ss;
    assert p[i] in p;
  }

  /** A snapshot stored for the replica under its own index, at most `hi`,
    * is listed. */
  lemma StoredSnapshotIsInListing(store: Store, c: uint64, n: uint64, hi: uint64, ss: Snapshot)
    requires Sorted(store) && WellTyped(store)
    requires ss.index <= hi && Get(store, SnapshotKey(c, n, ss.index)) == Some(SnapshotRec(ss))
    ensures ss in StoredSnapshots(store, c, n, hi)
  {
    var r := StoredSnapshots(store, c, n, hi);
    var p := SnapshotScan(store, c, n, hi);
    SnapshotScanFacts(store, c, n, hi);
    assert (SnapshotKey(c, n, ss.index), SnapshotRec(ss)) in p;
    var i :| 0 <= i < |p| && p[i] == (SnapshotKey(c, n, ss.index), SnapshotRec(ss));
    assert r[i] == ss;
  }

  /** The listing holds every snapshot stored for the replica up to `hi`, and
    * nothing else, in strictly ascending index order. */
  lemma StoredSnapshotsFacts(store: Store, c: uint64, n: uint64, hi: uint64)
    requires Sorted(store) && WellTyped(store)
    ensures var r := StoredSnapshots(store, c, n, hi);
      && (forall i, j | 0 <= i < j < |r| :: r[i].index < r[j].index)
      && (forall ss :: ss in r <==> ss.index <= hi && Get(store, SnapshotKey(c, n, ss.index)) == Some(SnapshotRec(ss)))
  {
    StoredSnapshotsAscending(store, c, n, hi);
    forall ss ensures ss in StoredSnapshots(store, c, n, hi) <==>
      ss.index <= hi && Get(store, SnapshotKey(c, n, ss.index)) == Some(SnapshotRec(ss))
    {
      if ss in StoredSnapshots(store, c, n, hi) {
        ListedSnapshotIsStored(store, c, n, hi, ss);
      }
      if ss.index <= hi && Get(store, SnapshotKey(c, n, ss.index)) == Some(SnapshotRec(ss)) {
        StoredSnapshotIsInListing(store, c, n, hi, ss);
      }
    }
  }

  /** A snapshot record stored for the replica appears in its listing. */
  lemma StoredSnapshotIsListed(store: Store, k: Key)
    requires Sorted(store) && WellTyped(store) && k.SnapshotKey?
    ensures Get(store, k).Some? ==>
      && Get(store, k).value.SnapshotRec?
      && Get(store, k).value.snapshot.index == k.index
      && Get(store, k).value.snapshot in StoredSnapshots(store, k.cluster, k.node, MaxUint64)
  {
    if Get(store, k).Some? {
      var v := Get(store, k).value;
      GetMember(store, k, v);
      var i :| 0 <= i < |store| && store[i] == (k, v);
      assert Fits(store[i].0, store[i].1);
      StoredSnapshotsFacts(store, k.cluster, k.node, MaxUint64);
    }
  }

  /** The deletions of saveSnapshot's loop: one for every listed snapshot
    * whose index is below the new snapshot's. */
  function DeletesBelow(listed: seq<Snapshot>, c: uint64, n: uint64, index: uint64): seq<Op> {
    if listed == [] then []
    else
      var last := listed[|listed| - 1];
      DeletesBelow(listed[..|listed| - 1], c, n, index)
        + (if index > last.index then [Delete(SnapshotKey(c, n, last.index))] else [])
  }

  /** saveSnapshot's operations for a non-empty snapshot, given the listing. */
  function SnapshotOps(listed: seq<Snapshot>, c: uint64, n: uint64, ss: Snapshot): seq<Op> {
    DeletesBelow(listed, c, n, ss.index) + [Put(SnapshotKey(c, n, ss.index), SnapshotRec(ss))]
  }

  /** Whether the deletions remove key `k`. */
  predicate DeletedBy(listed: seq<Snapshot>, c: uint64, n: uint64, index: uint64, k: Key) {
    exists s | s in listed :: s.index < index && k == SnapshotKey(c, n, s.index)
  }

  lemma {:induction false} DeletesBelowEffect(listed: seq<Snapshot>, c: uint64, n: uint64, index: uint64, k: Key, prior: Option<Value>)
    ensures After(DeletesBelow(listed, c, n, index), k, prior) == if DeletedBy(listed, c, n, index, k) then None else prior
  {
    if listed != [] {
      var init, last := listed[..|listed| - 1], listed[|listed| - 1];
      var tail := if index > last.index then [Delete(SnapshotKey(c, n, last.index))] else [];
      DeletesBelowEffect(init, c, n, index, k, prior);
      AfterAppend(DeletesBelow(init, c, n, index), tail, k, prior);
      assert listed == init + [last];
      if DeletedBy(listed, c, n, index, k) && !DeletedBy(init, c, n, index, k) {
        var s :| s in listed && s.index < index && k == SnapshotKey(c, n, s.index);
        assert s == last;
      }
      if DeletedBy(init, c, n, index, k) {
        var s :| s in init && s.index < index && k == SnapshotKey(c, n, s.index);
        assert s in listed;
      }
    }
  }

  /** Every operation writes a snapshot key of replica (c, n). */
  predicate SnapshotWritesOf(ops: seq<Op>, c: uint64, n: uint64) {
    forall i | 0 <= i < |ops| :: ops[i].key.SnapshotKey? && OfReplica(ops[i].key, c, n)
  }

  /** Every operation is a deletion. */
  predicate OnlyDeletes(ops: seq<Op>) {
    forall i | 0 <= i < |ops| :: ops[i].Delete?
  }

  lemma {:induction false} DeletesKeys(listed: seq<Snapshot>, c: uint64, n: uint64, index: uint64)
    ensures SnapshotWritesOf(DeletesBelow(listed, c, n, index), c, n)
    ensures OnlyDeletes(DeletesBelow(listed, c, n, index))
  {
    if listed != [] {
      var last := listed[|listed| - 1];
      var a := DeletesBelow(listed[..|listed| - 1], c, n, index);
      var tail := if index > last.index then [Delete(SnapshotKey(c, n, last.index))] else [];
      DeletesKeys(listed[..|listed| - 1], c, n, index);
      assert DeletesBelow(listed, c, n, index) == a + tail;
    }
  }

  /** Every operation saveSnapshot stages writes a snapshot key of its replica. */
  lemma SnapshotOpsKeys(listed: seq<Snapshot>, c: uint64, n: uint64, ss: Snapshot)
    ensures SnapshotWritesOf(SnapshotOps(listed, c, n, ss), c, n)
  {
    DeletesKeys(listed, c, n, ss.index);
  }

  /** saveSnapshot's operations fit the key space: its only Put stores the
    * snapshot under the key carrying the snapshot's own index. */
  lemma SnapshotOpsFit(listed: seq<Snapshot>, c: uint64, n: uint64, ss: Snapshot)
    ensures OpsFit(SnapshotOps(listed, c, n, ss))
  {
    DeletesKeys(listed, c, n, ss.index);
  }

  /** The effect of saveSnapshot on the store: the new snapshot is stored at
    * its own index, every stored snapshot of the replica with a strictly lower
    * index is removed, and every other key, including the replica's snapshots
    * at equal or higher indexes, is left alone. */
  lemma SnapshotOpsEffect(store: Store, c: uint64, n: uint64, ss: Snapshot, k: Key)
    requires Sorted(store) && WellTyped(store)
    ensures After(SnapshotOps(StoredSnapshots(store, c, n, MaxUint64), c, n, ss), k, Get(store, k))
      == if k == SnapshotKey(c, n, ss.index) then Some(SnapshotRec(ss))
         else if k.SnapshotKey? && OfReplica(k, c, n) && k.index < ss.index then None
         else Get(store, k)
  {
    var listed := StoredSnapshots(store, c, n, MaxUint64);
    var put := Put(SnapshotKey(c, n, ss.index), SnapshotRec(ss));
    AfterAppend(DeletesBelow(listed, c, n, ss.index), [put], k, Get(store, k));
    DeletesBelowEffect(listed, c, n, ss.index, k, Get(store, k));
    StoredSnapshotsFacts(store, c, n, MaxUint64);
    if k != SnapshotKey(c, n, ss.index) {
      assert After([put], k, None) == None;
      assert After([put], k, Get(store, k)) == Get(store, k);
      if DeletedBy(listed, c, n, ss.index, k) {
        var s :| s in listed && s.index < ss.index && k == SnapshotKey(c, n, s.index);
      } else if k.SnapshotKey? && OfReplica(k, c, n) {
        StoredSnapshotIsListed(store, k);
      }
    }
  }
}
