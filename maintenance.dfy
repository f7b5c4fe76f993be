/** Wiping and re-seeding a replica: removeNodeData with saveRemoveNodeData
  * (pebble/db.go:431-462) and importSnapshot (pebble/db.go:190-225). */
module Maintenance {
  import opened Common
  import opened Keys
  import opened RaftPb
  import opened KV
  import opened ReplicaCache
  import opened EntryManagers
  import opened SnapshotRecords
  import opened MaxIndexRecords
  import opened WritePath

  /** A call that writes the store but not the cache: its status and the store. */
  datatype Written = Written(status: Status, store: Store)

  /** saveRemoveNodeData's loop: a deletion for every listed snapshot. */
  function SnapshotDeletes(listed: seq<Snapshot>, c: uint64, n: uint64): seq<Op> {
    if listed == [] then []
    else SnapshotDeletes(listed[..|listed| - 1], c, n) + [Delete(SnapshotKey(c, n, listed[|listed| - 1].index))]
  }

  /** saveRemoveNodeData: delete the replica's state, bootstrap and max-index
    * records and every listed snapshot. */
  function RemoveNodeOps(listed: seq<Snapshot>, c: uint64, n: uint64): seq<Op> {
    [Delete(StateKey(c, n)), Delete(BootstrapKey(c, n)), Delete(MaxIndexKey(c, n))] + SnapshotDeletes(listed, c, n)
  }

  /** The keys saveRemoveNodeData deletes. */
  predicate ListedOrFixed(listed: seq<Snapshot>, c: uint64, n: uint64, k: Key) {
    || k == StateKey(c, n) || k == BootstrapKey(c, n) || k == MaxIndexKey(c, n)
    || exists s | s in listed :: k == SnapshotKey(c, n, s.index)
  }

  lemma {:induction false} SnapshotDeletesFacts(listed: seq<Snapshot>, c: uint64, n: uint64, k: Key, prior: Option<Value>)
    ensures After(SnapshotDeletes(listed, c, n), k, prior)
      == if exists s | s in listed :: k == SnapshotKey(c, n, s.index) then None else prior
    ensures OnlyDeletes(SnapshotDeletes(listed, c, n))
    ensures SnapshotWritesOf(SnapshotDeletes(listed, c, n), c, n)
  {
    if listed != [] {
      var init, last := listed[..|listed| - 1], listed[|listed| - 1];
      var del := Delete(SnapshotKey(c, n, last.index));
      SnapshotDeletesFacts(init, c, n, k, prior);
      AfterAppend(SnapshotDeletes(init, c, n), [del], k, prior);
      assert listed == init + [last];
      if exists s | s in init :: k == SnapshotKey(c, n, s.index) {
        var s :| s in init && k == SnapshotKey(c, n, s.index);
        assert s in listed;
      }
    }
  }

  lemma RemoveNodeOpsFacts(listed: seq<Snapshot>, c: uint64, n: uint64, k: Key, prior: Option<Value>)
    ensures After(RemoveNodeOps(listed, c, n), k, prior) == if ListedOrFixed(listed, c, n, k) then None else prior
    ensures OnlyDeletes(RemoveNodeOps(listed, c, n))
    ensures forall i | 0 <= i < |RemoveNodeOps(listed, c, n)| ::
      OfReplica(RemoveNodeOps(listed, c, n)[i].key, c, n) && !RemoveNodeOps(listed, c, n)[i].key.EntryKey?
  {
    var fixed := [Delete(StateKey(c, n)), Delete(BootstrapKey(c, n)), Delete(MaxIndexKey(c, n))];
    assert fixed == [fixed[0]] + ([fixed[1]] + [fixed[2]]);
    AfterAppend([fixed[0]], [fixed[1]] + [fixed[2]], k, prior);
    AfterAppend([fixed[1]], [fixed[2]], k, After([fixed[0]], k, prior));
    AfterAppend(fixed, SnapshotDeletes(listed, c, n), k, prior);
    SnapshotDeletesFacts(listed, c, n, k, After(fixed, k, prior));
    SnapshotDeletesFacts(listed, c, n, k, prior);
    var ops := RemoveNodeOps(listed, c, n);
    forall i | 0 <= i < |ops| ensures OfReplica(ops[i].key, c, n) && !ops[i].key.EntryKey? {
      if i >= 3 {
        assert ops[i] == SnapshotDeletes(listed, c, n)[i - 3];
      }
    }
  }

  // ----- removeNodeData -----

  /** removeNodeData: list the replica's snapshots, commit saveRemoveNodeData's
    * batch, reset the cached max index to 0, then remove every entry record
    * below MaxUint64 through the entry manager's ranged operation. */
  function RemoveNodeData(store: Store, readFault: bool, writeFault: bool, em: EntryManager,
                          cache: CacheView, c: uint64, n: uint64): Outcome
    requires Sorted(store) && WellTyped(store)
  {
    if readFault || writeFault then Outcome(Err(ErrIO), cache, store)
    else
      var cleared := Apply(store, RemoveNodeOps(StoredSnapshots(store, c, n, MaxUint64), c, n));
      var range := em.rangedOp(c, n, MaxUint64);
      Outcome(Ok, cache.WithMaxIndex(NodeInfo(c, n), 0), RemoveRange(cleared, range.0, range.1))
  }

  /** removeNodeData's effect key by key: every record of the replica is gone
    * except its entry records outside the removed range; other replicas'
    * records are untouched. */
  lemma RemoveNodeKeyEffect(store: Store, em: EntryManager, cache: CacheView, c: uint64, n: uint64)
    requires Sorted(store) && WellTyped(store) && ValidManager(em)
    ensures var o := RemoveNodeData(store, false, false, em, cache, c, n);
      var range := em.rangedOp(c, n, MaxUint64);
      && Sorted(o.store) && WellTyped(o.store)
      && forall k: Key :: Get(o.store, k) ==
           if OfReplica(k, c, n) && (!k.EntryKey? || (LessEq(range.0, k) && Less(k, range.1))) then None
           else Get(store, k)
  {
    var listed := StoredSnapshots(store, c, n, MaxUint64);
    var ops := RemoveNodeOps(listed, c, n);
    var cleared := Apply(store, ops);
    var range := em.rangedOp(c, n, MaxUint64);
    assert OwnEntryRange(range, c, n);
    assert OpsFit(ops) by {
      RemoveNodeOpsFacts(listed, c, n, StateKey(c, n), None);
    }
    ApplyGet(store, ops, StateKey(c, n));
    ApplyWellTyped(store, ops);
    RemoveRangeFacts(cleared, range.0, range.1, StateKey(c, n));
    var o := RemoveNodeData(store, false, false, em, cache, c, n);
    forall k: Key
      ensures Get(o.store, k) ==
           if OfReplica(k, c, n) && (!k.EntryKey? || (LessEq(range.0, k) && Less(k, range.1))) then None
           else Get(store, k)
    {
      RemoveRangeFacts(cleared, range.0, range.1, k);
      ApplyGet(store, ops, k);
      RemoveNodeOpsFacts(listed, c, n, k, Get(store, k));
      if LessEq(range.0, k) && Less(k, range.1) {
        ReplicaEntryRange(range.0, range.1, k, c, n);
      }
      if k.SnapshotKey? && OfReplica(k, c, n) && Get(store, k).Some? {
        StoredSnapshotIsListed(store, k);
        assert ListedOrFixed(listed, c, n, k);
      }
    }
  }

  /** After removeNodeData the replica has no state, bootstrap, max-index or
    * snapshot record and no entry record in the removed range, other
    * replicas' records are untouched, and the cached max index is 0; a cache
    * that agreed with the store still does. */
  lemma RemoveNodeDataEffect(store: Store, em: EntryManager, cache: CacheView, c: uint64, n: uint64)
    requires Sorted(store) && WellTyped(store) && ValidManager(em)
    ensures var o := RemoveNodeData(store, false, false, em, cache, c, n);
      var range := em.rangedOp(c, n, MaxUint64);
      && o.status == Ok
      && Sorted(o.store) && WellTyped(o.store)
      && Get(o.store, StateKey(c, n)) == None
      && Get(o.store, BootstrapKey(c, n)) == None
      && Get(o.store, MaxIndexKey(c, n)) == None
      && StoredSnapshots(o.store, c, n, MaxUint64) == []
      && (forall k: Key | LessEq(range.0, k) && Less(k, range.1) :: Get(o.store, k) == None)
      && (forall k: Key | !OfReplica(k, c, n) :: Get(o.store, k) == Get(store, k))
      && o.cache.maxIndex[NodeInfo(c, n)] == 0
      && (CacheAgrees(cache, store) ==> CacheAgrees(o.cache, o.store))
  {
    RemoveNodeKeyEffect(store, em, cache, c, n);
    var o := RemoveNodeData(store, false, false, em, cache, c, n);
    var range := em.rangedOp(c, n, MaxUint64);
    assert OwnEntryRange(range, c, n);
    forall k: Key | LessEq(range.0, k) && Less(k, range.1) ensures Get(o.store, k) == None {
      ReplicaEntryRange(range.0, range.1, k, c, n);
    }
    ListingOfSingleSnapshot(o.store, c, n, None);
  }

  /** A failed removeNodeData changes neither the store nor the cache. */
  lemma RemoveNodeDataFailureChangesNothing(store: Store, readFault: bool, writeFault: bool, em: EntryManager,
                                            cache: CacheView, c: uint64, n: uint64)
    requires Sorted(store) && WellTyped(store)
    ensures var o := RemoveNodeData(store, readFault, writeFault, em, cache, c, n);
      o.status != Ok ==> o.cache == cache && o.store == store
  {
  }

  // ----- importSnapshot -----

  /** The listed snapshots at or beyond `index`, in order. */
  function AtOrAbove(listed: seq<Snapshot>, index: uint64): (r: seq<Snapshot>)
    ensures forall s :: s in r <==> s in listed && s.index >= index
  {
    if listed == [] then []
    else
      var init, last := listed[..|listed| - 1], listed[|listed| - 1];
      assert listed == init + [last];
      AtOrAbove(init, index) + (if last.index >= index then [last] else [])
  }

  /** The front of importSnapshot's batch: the replica's records and the
    * selected snapshots are deleted, then the bootstrap record and the state
    * are put. */
  function ImportFront(selected: seq<Snapshot>, ss: Snapshot, n: uint64): seq<Op> {
    var c := ss.clusterId;
    RemoveNodeOps(selected, c, n)
      + [Put(BootstrapKey(c, n), BootstrapRec(Bootstrap(map[], true, ss.smType))),
         Put(StateKey(c, n), StateRec(State(ss.term, 0, ss.index)))]
  }

  /** importSnapshot's batch for replica (ss.clusterId, n): remove the
    * replica's records and its snapshots at or beyond the imported one, put
    * the bootstrap record and the state, run saveSnapshot for the imported
    * snapshot, and put the max index. */
  function ImportOps(store: Store, ss: Snapshot, n: uint64): seq<Op>
    requires Sorted(store) && WellTyped(store)
  {
    var c := ss.clusterId;
    var listed := StoredSnapshots(store, c, n, MaxUint64);
    ImportFront(AtOrAbove(listed, ss.index), ss, n)
      + (if IsEmptySnapshot(ss) then [] else SnapshotOps(listed, c, n, ss))
      + [Put(MaxIndexKey(c, n), MaxIndexValue(ss.index))]
  }

  /** ImportOps assembled from its three parts as importSnapshot stages them. */
  lemma ImportOpsParts(store: Store, ss: Snapshot, n: uint64, listed: seq<Snapshot>, front: seq<Op>, saved: seq<Op>)
    requires Sorted(store) && WellTyped(store)
    requires listed == StoredSnapshots(store, ss.clusterId, n, MaxUint64)
    requires front == ImportFront(AtOrAbove(listed, ss.index), ss, n)
    requires saved == if IsEmptySnapshot(ss) then [] else SnapshotOps(listed, ss.clusterId, n, ss)
    ensures ImportOps(store, ss, n) == front + saved + [Put(MaxIndexKey(ss.clusterId, n), MaxIndexValue(ss.index))]
  {
  }

  /** importSnapshot: panics on an unknown state machine type, fails without
    * writing when the listing or the commit fails, and otherwise commits
    * ImportOps in one batch. The cache is not touched. */
  function ImportSnapshot(store: Store, readFault: bool, writeFault: bool, ss: Snapshot, n: uint64): Written
    requires Sorted(store) && WellTyped(store)
  {
    if ss.smType == UnknownStateMachine then Written(Panic(UnknownSnapshotType), store)
    else if readFault || writeFault then Written(Err(ErrIO), store)
    else Written(Ok, Apply(store, ImportOps(store, ss, n)))
  }

  /** importSnapshot's batch fits the key space. */
  lemma ImportOpsFit(store: Store, ss: Snapshot, n: uint64)
    requires Sorted(store) && WellTyped(store)
    ensures OpsFit(ImportOps(store, ss, n))
  {
    var c := ss.clusterId;
    var listed := StoredSnapshots(store, c, n, MaxUint64);
    var a := RemoveNodeOps(AtOrAbove(listed, ss.index), c, n);
    var b := [Put(BootstrapKey(c, n), BootstrapRec(Bootstrap(map[], true, ss.smType))),
              Put(StateKey(c, n), StateRec(State(ss.term, 0, ss.index)))];
    var sn := if IsEmptySnapshot(ss) then [] else SnapshotOps(listed, c, n, ss);
    var d := [Put(MaxIndexKey(c, n), MaxIndexValue(ss.index))];
    RemoveNodeOpsFacts(AtOrAbove(listed, ss.index), c, n, StateKey(c, n), None);
    SnapshotOpsFit(listed, c, n, ss);
    OpsFitAppend(a, b);
    assert ImportFront(AtOrAbove(listed, ss.index), ss, n) == a + b;
    OpsFitAppend(a + b, sn);
    OpsFitAppend(a + b + sn, d);
  }

  lemma ImportFrontAfter(selected: seq<Snapshot>, ss: Snapshot, n: uint64, k: Key, p: Option<Value>)
    ensures var c := ss.clusterId;
      After(ImportFront(selected, ss, n), k, p) ==
        if k == BootstrapKey(c, n) then Some(BootstrapRec(Bootstrap(map[], true, ss.smType)))
        else if k == StateKey(c, n) then Some(StateRec(State(ss.term, 0, ss.index)))
        else if ListedOrFixed(selected, c, n, k) then None
        else p
  {
    var c := ss.clusterId;
    var a := RemoveNodeOps(selected, c, n);
    var b0 := Put(BootstrapKey(c, n), BootstrapRec(Bootstrap(map[], true, ss.smType)));
    var b1 := Put(StateKey(c, n), StateRec(State(ss.term, 0, ss.index)));
    assert ImportFront(selected, ss, n) == a + [b0] + [b1];
    AfterAppend(a + [b0], [b1], k, p);
    AfterAppend(a, [b0], k, p);
    RemoveNodeOpsFacts(selected, c, n, k, p);
  }

  /** saveSnapshot's part of importSnapshot's batch, on a key holding `q`. */
  lemma ImportSnapshotPartAfter(listed: seq<Snapshot>, ss: Snapshot, n: uint64, k: Key, q: Option<Value>)
    ensures var c := ss.clusterId;
      var sn := if IsEmptySnapshot(ss) then [] else SnapshotOps(listed, c, n, ss);
      After(sn, k, q) ==
        if !IsEmptySnapshot(ss) && k == SnapshotKey(c, n, ss.index) then Some(SnapshotRec(ss))
        else if !IsEmptySnapshot(ss) && DeletedBy(listed, c, n, ss.index, k) then None
        else q
  {
    var c := ss.clusterId;
    if !IsEmptySnapshot(ss) {
      var put := Put(SnapshotKey(c, n, ss.index), SnapshotRec(ss));
      AfterAppend(DeletesBelow(listed, c, n, ss.index), [put], k, q);
      DeletesBelowEffect(listed, c, n, ss.index, k, q);
      if DeletedBy(listed, c, n, ss.index, k) {
        var s :| s in listed && s.index < ss.index && k == SnapshotKey(c, n, s.index);
      }
    }
  }

  /** importSnapshot's batch, operation by operation, on a key holding `p`:
    * the three fixed records are put, the imported snapshot is put, and the
    * removed or superseded snapshot keys are deleted. */
  lemma ImportOpsAfter(store: Store, ss: Snapshot, n: uint64, k: Key, p: Option<Value>)
    requires Sorted(store) && WellTyped(store)
    ensures var c := ss.clusterId;
      var listed := StoredSnapshots(store, c, n, MaxUint64);
      After(ImportOps(store, ss, n), k, p) ==
        if k == BootstrapKey(c, n) then Some(BootstrapRec(Bootstrap(map[], true, ss.smType)))
        else if k == StateKey(c, n) then Some(StateRec(State(ss.term, 0, ss.index)))
        else if k == MaxIndexKey(c, n) then Some(MaxIndexValue(ss.index))
        else if !IsEmptySnapshot(ss) && k == SnapshotKey(c, n, ss.index) then Some(SnapshotRec(ss))
        else if !IsEmptySnapshot(ss) && DeletedBy(listed, c, n, ss.index, k) then None
        else if ListedOrFixed(AtOrAbove(listed, ss.index), c, n, k) then None
        else p
  {
    var c := ss.clusterId;
    var listed := StoredSnapshots(store, c, n, MaxUint64);
    var front := ImportFront(AtOrAbove(listed, ss.index), ss, n);
    var sn := if IsEmptySnapshot(ss) then [] else SnapshotOps(listed, c, n, ss);
    var d := [Put(MaxIndexKey(c, n), MaxIndexValue(ss.index))];
    AfterAppend(front + sn, d, k, p);
    AfterAppend(front, sn, k, p);
    ImportFrontAfter(AtOrAbove(listed, ss.index), ss, n, k, p);
    ImportSnapshotPartAfter(listed, ss, n, k, After(front, k, p));
  }

  /** The value importSnapshot leaves under key `k`. */
  lemma ImportKeyEffect(store: Store, ss: Snapshot, n: uint64, k: Key)
    requires Sorted(store) && WellTyped(store)
    ensures var c := ss.clusterId;
      After(ImportOps(store, ss, n), k, Get(store, k)) ==
        if k == BootstrapKey(c, n) then Some(BootstrapRec(Bootstrap(map[], true, ss.smType)))
        else if k == StateKey(c, n) then Some(StateRec(State(ss.term, 0, ss.index)))
        else if k == MaxIndexKey(c, n) then Some(MaxIndexValue(ss.index))
        else if k.SnapshotKey? && OfReplica(k, c, n) then
          (if ss.index > 0 && k.index == ss.index then Some(SnapshotRec(ss)) else None)
        else Get(store, k)
  {
    var c := ss.clusterId;
    var listed := StoredSnapshots(store, c, n, MaxUint64);
    var p := Get(store, k);
    ImportOpsAfter(store, ss, n, k, p);
    if k.SnapshotKey? && OfReplica(k, c, n) && !(ss.index > 0 && k.index == ss.index) && p.Some? {
      StoredSnapshotIsListed(store, k);
      var s := p.value.snapshot;
      assert s in listed && k == SnapshotKey(c, n, s.index);
      if s.index >= ss.index {
        assert s in AtOrAbove(listed, ss.index);
      } else {
        assert DeletedBy(listed, c, n, ss.index, k);
      }
    }
    if ListedOrFixed(AtOrAbove(listed, ss.index), c, n, k) && !(k.SnapshotKey? && OfReplica(k, c, n)) {
      assert k == StateKey(c, n) || k == BootstrapKey(c, n) || k == MaxIndexKey(c, n);
    }
    if !IsEmptySnapshot(ss) && DeletedBy(listed, c, n, ss.index, k) {
      var s :| s in listed && s.index < ss.index && k == SnapshotKey(c, n, s.index);
    }
  }

  lemma FrontMembers<T>(r: seq<T>)
    ensures |r| >= 1 ==> r[0] in r
    ensures |r| >= 2 ==> r[1] in r
  {
  }

  /** A listing in strictly ascending index order holding copies of one
    * snapshot only holds it once. */
  lemma AscendingCopiesAreSingle(r: seq<Snapshot>, x: Snapshot)
    requires x in r && forall y | y in r :: y == x
    requires forall i, j | 0 <= i < j < |r| :: r[i].index < r[j].index
    ensures r == [x]
  {
    FrontMembers(r);
  }

  /** A store whose snapshot keys for the replica hold exactly `ss` at its
    * index lists exactly [ss]; one holding none lists nothing. */
  lemma ListingOfSingleSnapshot(store: Store, c: uint64, n: uint64, one: Option<Snapshot>)
    requires Sorted(store) && WellTyped(store)
    requires forall i: uint64 ::
      Get(store, SnapshotKey(c, n, i)) == (if one.Some? && i == one.value.index then Some(SnapshotRec(one.value)) else None)
    ensures StoredSnapshots(store, c, n, MaxUint64) == if one.Some? then [one.value] else []
  {
    var r := StoredSnapshots(store, c, n, MaxUint64);
    StoredSnapshotsFacts(store, c, n, MaxUint64);
    forall x | x in r ensures one.Some? && x == one.value {
      assert Get(store, SnapshotKey(c, n, x.index)) == Some(SnapshotRec(x));
    }
    if one.Some? {
      assert one.value in r;
      AscendingCopiesAreSingle(r, one.value);
    } else {
      FrontMembers(r);
    }
  }

  /** After a successful importSnapshot the replica holds the bootstrap record
    * {join, type}, the state {term, commit = index}, the max index of the
    * snapshot and, for a non-empty snapshot, exactly one snapshot record, the
    * imported one; an empty snapshot leaves none. Entry records and other
    * replicas' records are untouched. */
  lemma ImportSnapshotEffect(store: Store, ss: Snapshot, n: uint64)
    requires Sorted(store) && WellTyped(store) && ss.smType != UnknownStateMachine
    ensures var o := ImportSnapshot(store, false, false, ss, n);
      var c := ss.clusterId;
      && o.status == Ok
      && Sorted(o.store) && WellTyped(o.store)
      && Get(o.store, BootstrapKey(c, n)) == Some(BootstrapRec(Bootstrap(map[], true, ss.smType)))
      && Get(o.store, StateKey(c, n)) == Some(StateRec(State(ss.term, 0, ss.index)))
      && Get(o.store, MaxIndexKey(c, n)) == Some(MaxIndexValue(ss.index))
      && StoredSnapshots(o.store, c, n, MaxUint64) == (if ss.index == 0 then [] else [ss])
      && forall k: Key | !OfReplica(k, c, n) || k.EntryKey? :: Get(o.store, k) == Get(store, k)
  {
    var c := ss.clusterId;
    var listed := StoredSnapshots(store, c, n, MaxUint64);
    var ops := ImportOps(store, ss, n);
    ImportOpsFit(store, ss, n);
    ApplyGet(store, ops, StateKey(c, n));
    ApplyWellTyped(store, ops);
    var after := Apply(store, ops);
    forall k: Key ensures Get(after, k) == After(ops, k, Get(store, k)) {
      ApplyGet(store, ops, k);
    }
    ImportKeyEffect(store, ss, n, BootstrapKey(c, n));
    ImportKeyEffect(store, ss, n, StateKey(c, n));
    ImportKeyEffect(store, ss, n, MaxIndexKey(c, n));
    forall k: Key | !OfReplica(k, c, n) || k.EntryKey? ensures Get(after, k) == Get(store, k) {
      ImportKeyEffect(store, ss, n, k);
    }
    var one := if ss.index == 0 then None else Some(ss);
    forall i: uint64 ensures Get(after, SnapshotKey(c, n, i)) ==
      if one.Some? && i == one.value.index then Some(SnapshotRec(one.value)) else None
    {
      ImportKeyEffect(store, ss, n, SnapshotKey(c, n, i));
    }
    ListingOfSingleSnapshot(after, c, n, one);
  }

  /** importSnapshot either succeeds or leaves the store as it was. */
  lemma ImportSnapshotIsAtomic(store: Store, readFault: bool, writeFault: bool, ss: Snapshot, n: uint64)
    requires Sorted(store) && WellTyped(store)
    ensures var o := ImportSnapshot(store, readFault, writeFault, ss, n);
      && (o.status != Ok ==> o.store == store)
      && (o.status.Panic? <==> ss.smType == UnknownStateMachine)
  {
  }
}
