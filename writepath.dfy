/** The write path of the log database as functions of the state it starts
  * from: what saveState, saveSnapshot, setMaxIndex, saveEntries,
  * saveRaftState and saveSnapshots (pebble/db.go) stage into a write batch,
  * how they update the replica cache, and what the store holds afterwards. */
module WritePath {
  import opened Common
  import opened Keys
  import opened RaftPb
  import opened KV
  import opened ReplicaCache
  import opened EntryManagers
  import opened SnapshotRecords
  import opened MaxIndexRecords

  /** The cache and the operations staged so far in the write batch. */
  datatype Staging = Staging(cache: CacheView, ops: seq<Op>)

  /** What a call leaves behind: its status, the cache and the store. */
  datatype Outcome = Outcome(status: Status, cache: CacheView, store: Store)

  /** saveState: an empty state, or one the cache already holds, stages nothing;
    * otherwise the cache records it and the batch puts it under the replica's
    * state key. */
  function StageState(s: Staging, c: uint64, n: uint64, st: State): Staging {
    var id := NodeInfo(c, n);
    if IsEmptyState(st) || !s.cache.StateChanged(id, st) then s
    else Staging(s.cache.WithState(id, st), s.ops + [Put(StateKey(c, n), StateRec(st))])
  }

  /** setMaxIndex: the cache and the batch both take the new max index. */
  function StageMaxIndex(s: Staging, c: uint64, n: uint64, index: uint64): Staging {
    Staging(s.cache.WithMaxIndex(NodeInfo(c, n), index), s.ops + [Put(MaxIndexKey(c, n), MaxIndexValue(index))])
  }

  /** The inconsistency saveRaftState refuses: the update's entries end before
    * its snapshot. */
  predicate EntriesBehindSnapshot(ud: Update) {
    |ud.entriesToSave| > 0 && ud.snapshot.index > ud.entriesToSave[|ud.entriesToSave| - 1].index
  }

  /** saveRaftState's first loop either runs on, stops on a swallowed
    * saveSnapshot error, or stops on a panic. */
  datatype Progress = Running(staging: Staging) | Swallowed(staging: Staging) | Aborted(staging: Staging)

  /** One iteration of saveRaftState's first loop. */
  function UpdateStep(store: Store, readFault: bool, s: Staging, ud: Update): Progress
    requires Sorted(store) && WellTyped(store)
  {
    var c, n, ss := ud.clusterId, ud.nodeId, ud.snapshot;
    var s1 := StageState(s, c, n, ud.state);
    if IsEmptySnapshot(ss) || !s1.cache.SnapshotAccepted(NodeInfo(c, n), ss.index) then Running(s1)
    else
      var s2 := s1.(cache := s1.cache.WithSnapshotIndex(NodeInfo(c, n), ss.index));
      if EntriesBehindSnapshot(ud) then Aborted(s2)
      else if readFault then Swallowed(s2)
      else
        var listed := StoredSnapshots(store, c, n, MaxUint64);
        Running(StageMaxIndex(s2.(ops := s2.ops + SnapshotOps(listed, c, n, ss)), c, n, ss.index))
  }

  /** saveRaftState's first loop over `uds`. */
  function StageUpdates(store: Store, readFault: bool, init: Staging, uds: seq<Update>): Progress
    requires Sorted(store) && WellTyped(store)
    decreases |uds|
  {
    if uds == [] then Running(init)
    else
      match StageUpdates(store, readFault, init, uds[..|uds| - 1])
      case Running(s) => UpdateStep(store, readFault, s, uds[|uds| - 1])
      case Swallowed(s) => Swallowed(s)
      case Aborted(s) => Aborted(s)
  }

  /** One iteration of saveEntries: the entry manager stages the entries and
    * a non-zero max index it reports is set. */
  function EntryStep(store: Store, em: EntryManager, s: Staging, ud: Update): Staging {
    if |ud.entriesToSave| == 0 then s
    else
      var r := em.record(store, ud.clusterId, ud.nodeId, ud.entriesToSave);
      var s1 := s.(ops := s.ops + r.ops);
      if r.maxIndex > 0 then StageMaxIndex(s1, ud.clusterId, ud.nodeId, r.maxIndex) else s1
  }

  /** saveEntries over `uds`. */
  function StageEntries(store: Store, em: EntryManager, init: Staging, uds: seq<Update>): Staging
    decreases |uds|
  {
    if uds == [] then init
    else EntryStep(store, em, StageEntries(store, em, init, uds[..|uds| - 1]), uds[|uds| - 1])
  }

  /** The end of saveRaftState: an empty batch is not committed. */
  function CommitIfAny(store: Store, writeFault: bool, s: Staging): Outcome {
    if |s.ops| == 0 then Outcome(Ok, s.cache, store)
    else if writeFault then Outcome(Err(ErrIO), s.cache, store)
    else Outcome(Ok, s.cache, Apply(store, s.ops))
  }

  /** saveRaftState: the updates' states and snapshots first, then every
    * update's entries, then one commit. A panic or a swallowed snapshot error
    * commits nothing, while the cache keeps what the loop recorded. */
  function SaveRaftState(store: Store, readFault: bool, writeFault: bool, em: EntryManager,
                         cache: CacheView, uds: seq<Update>): Outcome
    requires Sorted(store) && WellTyped(store)
  {
    match StageUpdates(store, readFault, Staging(cache, []), uds)
    case Aborted(s) => Outcome(Panic(MaxIndexNotHandled), s.cache, store)
    case Swallowed(s) => Outcome(Ok, s.cache, store)
    case Running(s) => CommitIfAny(store, writeFault, StageEntries(store, em, s, uds))
  }

  // ----- saveState -----

  /** saveState stages a write exactly when the state is non-empty and differs
    * from the cached one, and a repeated call with the same state stages nothing. */
  lemma StageStateOnce(s: Staging, c: uint64, n: uint64, st: State)
    ensures var t := StageState(s, c, n, st);
      && (t.ops == s.ops <==> IsEmptyState(st) || !s.cache.StateChanged(NodeInfo(c, n), st))
      && (t.ops != s.ops ==> t.ops == s.ops + [Put(StateKey(c, n), StateRec(st))])
      && StageState(t, c, n, st) == t
  {
    var t := StageState(s, c, n, st);
    if t.ops != s.ops {
      SetStateIdempotent(s.cache, NodeInfo(c, n), st);
    }
  }

  // ----- what each step stages -----

  /** No operation writes a max-index key. */
  predicate LeavesMaxIndex(ops: seq<Op>) {
    forall i | 0 <= i < |ops| :: !ops[i].key.MaxIndexKey?
  }

  /** The cache's max index of every replica is what the store will hold for
    * it once the staged operations are applied. */
  predicate Pending(store: Store, s: Staging) {
    forall id | id in s.cache.maxIndex ::
      StoredAs(After(s.ops, MaxIndexKey(id.clusterId, id.nodeId), Get(store, MaxIndexKey(id.clusterId, id.nodeId))),
               s.cache.maxIndex[id])
  }

  lemma AppendKeepsPending(store: Store, s: Staging, extra: seq<Op>, cache: CacheView)
    requires Pending(store, s) && LeavesMaxIndex(extra) && cache.maxIndex == s.cache.maxIndex
    ensures Pending(store, Staging(cache, s.ops + extra))
  {
    forall id | id in cache.maxIndex
      ensures StoredAs(After(s.ops + extra, MaxIndexKey(id.clusterId, id.nodeId), Get(store, MaxIndexKey(id.clusterId, id.nodeId))),
                       cache.maxIndex[id])
    {
      SkipUntouched(s.ops, extra, MaxIndexKey(id.clusterId, id.nodeId), Get(store, MaxIndexKey(id.clusterId, id.nodeId)));
    }
  }

  lemma MaxIndexKeepsPending(store: Store, s: Staging, c: uint64, n: uint64, index: uint64)
    requires Pending(store, s)
    ensures Pending(store, StageMaxIndex(s, c, n, index))
  {
    var t := StageMaxIndex(s, c, n, index);
    var put := Put(MaxIndexKey(c, n), MaxIndexValue(index));
    forall id | id in t.cache.maxIndex
      ensures StoredAs(After(t.ops, MaxIndexKey(id.clusterId, id.nodeId), Get(store, MaxIndexKey(id.clusterId, id.nodeId))),
                       t.cache.maxIndex[id])
    {
      var k := MaxIndexKey(id.clusterId, id.nodeId);
      AfterAppend(s.ops, [put], k, Get(store, k));
      assert After([put], k, After(s.ops, k, Get(store, k))) == if k == put.key then Some(put.value) else After(s.ops, k, Get(store, k));
    }
  }

  lemma UpdateStepKeeps(store: Store, readFault: bool, s: Staging, ud: Update)
    requires Sorted(store) && WellTyped(store)
    requires UpdateStep(store, readFault, s, ud).Running?
    ensures OpsFit(s.ops) ==> OpsFit(UpdateStep(store, readFault, s, ud).staging.ops)
    ensures Pending(store, s) ==> Pending(store, UpdateStep(store, readFault, s, ud).staging)
  {
    var c, n, ss := ud.clusterId, ud.nodeId, ud.snapshot;
    var s1 := StageState(s, c, n, ud.state);
    var stateOps := s1.ops[|s.ops|..];
    assert s1.ops == s.ops + stateOps && LeavesMaxIndex(stateOps) && OpsFit(stateOps);
    if OpsFit(s.ops) {
      OpsFitAppend(s.ops, stateOps);
    }
    if Pending(store, s) {
      AppendKeepsPending(store, s, stateOps, s1.cache);
    }
    if !(IsEmptySnapshot(ss) || !s1.cache.SnapshotAccepted(NodeInfo(c, n), ss.index)) {
      var s2 := s1.(cache := s1.cache.WithSnapshotIndex(NodeInfo(c, n), ss.index));
      var snapOps := SnapshotOps(StoredSnapshots(store, c, n, MaxUint64), c, n, ss);
      var s3 := s2.(ops := s2.ops + snapOps);
      SnapshotOpsKeys(StoredSnapshots(store, c, n, MaxUint64), c, n, ss);
      SnapshotOpsFit(StoredSnapshots(store, c, n, MaxUint64), c, n, ss);
      if OpsFit(s.ops) {
        OpsFitAppend(s2.ops, snapOps);
        OpsFitAppend(s3.ops, [Put(MaxIndexKey(c, n), MaxIndexValue(ss.index))]);
      }
      if Pending(store, s) {
        AppendKeepsPending(store, s1, snapOps, s2.cache);
        MaxIndexKeepsPending(store, s3, c, n, ss.index);
      }
    }
  }

  lemma {:induction false} StageUpdatesKeeps(store: Store, readFault: bool, init: Staging, uds: seq<Update>)
    requires Sorted(store) && WellTyped(store)
    requires StageUpdates(store, readFault, init, uds).Running?
    ensures OpsFit(init.ops) ==> OpsFit(StageUpdates(store, readFault, init, uds).staging.ops)
    ensures Pending(store, init) ==> Pending(store, StageUpdates(store, readFault, init, uds).staging)
    decreases |uds|
  {
    if uds != [] {
      StageUpdatesKeeps(store, readFault, init, uds[..|uds| - 1]);
      UpdateStepKeeps(store, readFault, StageUpdates(store, readFault, init, uds[..|uds| - 1]).staging, uds[|uds| - 1]);
    }
  }

  /** Every operation writes an entry record or a max index. */
  predicate EntryWrites(ops: seq<Op>) {
    forall i | 0 <= i < |ops| :: ops[i].key.EntryKey? || ops[i].key.MaxIndexKey?
  }

  lemma EntryStepKeeps(store: Store, em: EntryManager, s: Staging, ud: Update)
    requires ValidManager(em)
    ensures var t := EntryStep(store, em, s, ud);
      && t.ops[..|s.ops|] == s.ops && EntryWrites(t.ops[|s.ops|..])
      && t.cache.snapshotIndex == s.cache.snapshotIndex && t.cache.states == s.cache.states
      && (OpsFit(s.ops) ==> OpsFit(t.ops))
      && (Pending(store, s) ==> Pending(store, t))
    ensures var t := EntryStep(store, em, s, ud);
      var c, n := ud.clusterId, ud.nodeId;
      var r := em.record(store, c, n, ud.entriesToSave);
      if |ud.entriesToSave| > 0 && r.maxIndex > 0 then
        && t.cache.maxIndex == s.cache.maxIndex[NodeInfo(c, n) := r.maxIndex]
        && |t.ops| > |s.ops| && t.ops[|t.ops| - 1] == Put(MaxIndexKey(c, n), MaxIndexValue(r.maxIndex))
      else
        && t.cache.maxIndex == s.cache.maxIndex
        && LeavesMaxIndex(t.ops[|s.ops|..])
  {
    var t := EntryStep(store, em, s, ud);
    if |ud.entriesToSave| > 0 {
      var r := em.record(store, ud.clusterId, ud.nodeId, ud.entriesToSave);
      var s1 := s.(ops := s.ops + r.ops);
      assert StagesOwnEntries(r.ops, ud.clusterId, ud.nodeId);
      assert OpsFit(r.ops);
      assert LeavesMaxIndex(r.ops);
      assert s1.ops[|s.ops|..] == r.ops;
      if OpsFit(s.ops) {
        OpsFitAppend(s.ops, r.ops);
      }
      if Pending(store, s) {
        AppendKeepsPending(store, s, r.ops, s.cache);
      }
      if r.maxIndex > 0 {
        var put := Put(MaxIndexKey(ud.clusterId, ud.nodeId), MaxIndexValue(r.maxIndex));
        assert t.ops == s.ops + (r.ops + [put]);
        if OpsFit(s.ops) {
          OpsFitAppend(s1.ops, [put]);
        }
        if Pending(store, s) {
          MaxIndexKeepsPending(store, s1, ud.clusterId, ud.nodeId, r.maxIndex);
        }
      }
    }
  }

  lemma {:induction false} StageEntriesKeeps(store: Store, em: EntryManager, init: Staging, uds: seq<Update>)
    requires ValidManager(em)
    ensures var t := StageEntries(store, em, init, uds);
      && |init.ops| <= |t.ops| && t.ops[..|init.ops|] == init.ops && EntryWrites(t.ops[|init.ops|..])
      && t.cache.snapshotIndex == init.cache.snapshotIndex && t.cache.states == init.cache.states
      && (OpsFit(init.ops) ==> OpsFit(t.ops))
      && (Pending(store, init) ==> Pending(store, t))
    decreases |uds|
  {
    if uds != [] {
      var prev := StageEntries(store, em, init, uds[..|uds| - 1]);
      StageEntriesKeeps(store, em, init, uds[..|uds| - 1]);
      EntryStepKeeps(store, em, prev, uds[|uds| - 1]);
      var t := StageEntries(store, em, init, uds);
      assert t.ops[..|init.ops|] == t.ops[..|prev.ops|][..|init.ops|];
      forall i | 0 <= i < |t.ops[|init.ops|..]|
        ensures t.ops[|init.ops|..][i].key.EntryKey? || t.ops[|init.ops|..][i].key.MaxIndexKey?
      {
        if |init.ops| + i < |prev.ops| {
          assert t.ops[|init.ops| + i] == prev.ops[|init.ops|..][i];
        } else {
          assert t.ops[|init.ops| + i] == t.ops[|prev.ops|..][|init.ops| + i - |prev.ops|];
        }
      }
    }
  }

  /** The batch saveRaftState commits fits the key space. */
  lemma SaveRaftStateBatchFits(store: Store, readFault: bool, em: EntryManager, cache: CacheView, uds: seq<Update>)
    requires Sorted(store) && WellTyped(store) && ValidManager(em)
    requires StageUpdates(store, readFault, Staging(cache, []), uds).Running?
    ensures OpsFit(StageEntries(store, em, StageUpdates(store, readFault, Staging(cache, []), uds).staging, uds).ops)
  {
    StageUpdatesKeeps(store, readFault, Staging(cache, []), uds);
    StageEntriesKeeps(store, em, StageUpdates(store, readFault, Staging(cache, []), uds).staging, uds);
  }

  lemma StageOne(store: Store, readFault: bool, init: Staging, ud: Update)
    requires Sorted(store) && WellTyped(store)
    ensures StageUpdates(store, readFault, init, [ud]) == UpdateStep(store, readFault, init, ud)
  {
    assert [ud][..0] == [];
  }

  lemma EntriesOne(store: Store, em: EntryManager, init: Staging, ud: Update)
    ensures StageEntries(store, em, init, [ud]) == EntryStep(store, em, init, ud)
  {
    assert [ud][..0] == [];
  }

  /** An update whose non-empty snapshot the cache accepts, with entries that
    * do not end before it and no read fault: its state, its saveSnapshot
    * operations and its max index are staged, in that order. */
  lemma AcceptedUpdateStep(store: Store, s: Staging, ud: Update)
    requires Sorted(store) && WellTyped(store)
    requires !IsEmptySnapshot(ud.snapshot) && !EntriesBehindSnapshot(ud)
    requires s.cache.SnapshotAccepted(NodeInfo(ud.clusterId, ud.nodeId), ud.snapshot.index)
    ensures var c, n, ss := ud.clusterId, ud.nodeId, ud.snapshot;
      var s1 := StageState(s, c, n, ud.state);
      UpdateStep(store, false, s, ud) == Running(Staging(
        s1.cache.WithSnapshotIndex(NodeInfo(c, n), ss.index).WithMaxIndex(NodeInfo(c, n), ss.index),
        s1.ops + SnapshotOps(StoredSnapshots(store, c, n, MaxUint64), c, n, ss) + [Put(MaxIndexKey(c, n), MaxIndexValue(ss.index))]))
  {
    var s1 := StageState(s, ud.clusterId, ud.nodeId, ud.state);
    assert s1.cache.snapshotIndex == s.cache.snapshotIndex;
  }

  // ----- saveRaftState -----

  /** Without a read fault, saveRaftState's first loop never swallows an error. */
  lemma {:induction false} NoSwallowWithoutReadFault(store: Store, init: Staging, uds: seq<Update>)
    requires Sorted(store) && WellTyped(store)
    ensures !StageUpdates(store, false, init, uds).Swallowed?
    decreases |uds|
  {
    if uds != [] {
      NoSwallowWithoutReadFault(store, init, uds[..|uds| - 1]);
    }
  }

  /** When every max index the cache holds matches the store, a saveRaftState
    * that reads and commits successfully keeps it so: the cache's max index of
    * every replica is the one committed. */
  lemma CacheAgreesAfterSaveRaftState(store: Store, em: EntryManager, cache: CacheView, uds: seq<Update>)
    requires Sorted(store) && WellTyped(store) && ValidManager(em)
    requires CacheAgrees(cache, store)
    ensures var o := SaveRaftState(store, false, false, em, cache, uds);
      o.status.Ok? ==> CacheAgrees(o.cache, o.store)
  {
    var init := Staging(cache, []);
    assert Pending(store, init);
    var p := StageUpdates(store, false, init, uds);
    NoSwallowWithoutReadFault(store, init, uds);
    if p.Running? {
      StageUpdatesKeeps(store, false, init, uds);
      var t := StageEntries(store, em, p.staging, uds);
      StageEntriesKeeps(store, em, p.staging, uds);
      var o := SaveRaftState(store, false, false, em, cache, uds);
      assert o == CommitIfAny(store, false, t);
      forall id | id in t.cache.maxIndex
        ensures StoredAs(Get(o.store, MaxIndexKey(id.clusterId, id.nodeId)), t.cache.maxIndex[id])
      {
        var k := MaxIndexKey(id.clusterId, id.nodeId);
        assert StoredAs(After(t.ops, k, Get(store, k)), t.cache.maxIndex[id]);
        if |t.ops| > 0 {
          ApplyGet(store, t.ops, k);
        } else {
          assert After(t.ops, k, Get(store, k)) == Get(store, k);
        }
      }
    }
  }

  /** saveRaftState panics only when one of the updates carries a non-empty
    * snapshot whose index is beyond its last entry; the store is then unchanged. */
  lemma {:induction false} PanicOnlyWhenEntriesBehindSnapshot(store: Store, readFault: bool, init: Staging, uds: seq<Update>)
    requires Sorted(store) && WellTyped(store)
    ensures StageUpdates(store, readFault, init, uds).Aborted? ==>
      exists i | 0 <= i < |uds| :: !IsEmptySnapshot(uds[i].snapshot) && EntriesBehindSnapshot(uds[i])
    decreases |uds|
  {
    if uds != [] {
      var front := uds[..|uds| - 1];
      PanicOnlyWhenEntriesBehindSnapshot(store, readFault, init, front);
      if StageUpdates(store, readFault, init, front).Aborted? {
        var i :| 0 <= i < |front| && !IsEmptySnapshot(front[i].snapshot) && EntriesBehindSnapshot(front[i]);
        assert uds[i] == front[i];
      }
    }
  }

  /** Once the first loop stops, later updates change nothing. */
  lemma {:induction false} StageUpdatesStops(store: Store, readFault: bool, init: Staging, uds: seq<Update>, j: nat)
    requires Sorted(store) && WellTyped(store)
    requires j <= |uds| && !StageUpdates(store, readFault, init, uds[..j]).Running?
    ensures StageUpdates(store, readFault, init, uds) == StageUpdates(store, readFault, init, uds[..j])
    decreases |uds|
  {
    if j == |uds| {
      assert uds[..j] == uds;
    } else {
      assert uds[..|uds| - 1][..j] == uds[..j];
      StageUpdatesStops(store, readFault, init, uds[..|uds| - 1], j);
    }
  }

  /** Conversely, when the loop reaches an update whose snapshot the cache
    * then accepts and whose entries end before that snapshot, saveRaftState
    * panics, whatever follows, without committing. */
  lemma UpdateBehindSnapshotPanics(store: Store, readFault: bool, writeFault: bool, em: EntryManager,
                                   cache: CacheView, uds: seq<Update>, i: nat)
    requires Sorted(store) && WellTyped(store)
    requires i < |uds| && !IsEmptySnapshot(uds[i].snapshot) && EntriesBehindSnapshot(uds[i])
    requires var p := StageUpdates(store, readFault, Staging(cache, []), uds[..i]);
      && p.Running?
      && p.staging.cache.SnapshotAccepted(NodeInfo(uds[i].clusterId, uds[i].nodeId), uds[i].snapshot.index)
    ensures var o := SaveRaftState(store, readFault, writeFault, em, cache, uds);
      o.status == Panic(MaxIndexNotHandled) && o.store == store
  {
    var init := Staging(cache, []);
    var q := StageUpdates(store, readFault, init, uds[..i]).staging;
    assert uds[..i + 1][..i] == uds[..i];
    var s1 := StageState(q, uds[i].clusterId, uds[i].nodeId, uds[i].state);
    assert s1.cache.snapshotIndex == q.cache.snapshotIndex;
    assert StageUpdates(store, readFault, init, uds[..i + 1]).Aborted?;
    StageUpdatesStops(store, readFault, init, uds, i + 1);
  }

  /** An update with no state, no snapshot and no entries stages nothing, so
    * a batch of them commits nothing and leaves cache and store as they were. */
  lemma {:induction false} IdleUpdatesChangeNothing(store: Store, readFault: bool, writeFault: bool, em: EntryManager,
                                                    cache: CacheView, uds: seq<Update>)
    requires Sorted(store) && WellTyped(store)
    requires forall i | 0 <= i < |uds| ::
      IsEmptyState(uds[i].state) && IsEmptySnapshot(uds[i].snapshot) && |uds[i].entriesToSave| == 0
    ensures SaveRaftState(store, readFault, writeFault, em, cache, uds) == Outcome(Ok, cache, store)
  {
    var init := Staging(cache, []);
    var j := 0;
    while j < |uds|
      invariant 0 <= j <= |uds|
      invariant StageUpdates(store, readFault, init, uds[..j]) == Running(init)
      invariant StageEntries(store, em, init, uds[..j]) == init
    {
      assert uds[..j + 1][..j] == uds[..j];
      j := j + 1;
    }
    assert uds[..j] == uds;
  }

  // ----- one replica's snapshot records -----

  /** No operation writes a snapshot key of replica (c, n). */
  predicate LeavesReplicaSnapshots(ops: seq<Op>, c: uint64, n: uint64) {
    forall i | 0 <= i < |ops| :: !(ops[i].key.SnapshotKey? && OfReplica(ops[i].key, c, n))
  }

  lemma LeavesReplicaAppend(a: seq<Op>, b: seq<Op>, c: uint64, n: uint64)
    requires LeavesReplicaSnapshots(a, c, n) && LeavesReplicaSnapshots(b, c, n)
    ensures LeavesReplicaSnapshots(a + b, c, n)
  {
    forall i | |a| <= i < |a + b| ensures (a + b)[i] == b[i - |a|] {}
  }

  /** `t` is `s` followed by operations that leave replica (c, n)'s snapshot
    * keys alone. */
  predicate ExtendsLeaving(t: seq<Op>, s: seq<Op>, c: uint64, n: uint64) {
    |s| <= |t| && t[..|s|] == s && LeavesReplicaSnapshots(t[|s|..], c, n)
  }

  lemma ExtendsLeavingTrans(a: seq<Op>, b: seq<Op>, d: seq<Op>, c: uint64, n: uint64)
    requires ExtendsLeaving(b, a, c, n) && ExtendsLeaving(d, b, c, n)
    ensures ExtendsLeaving(d, a, c, n)
  {
    assert d[..|a|] == d[..|b|][..|a|];
    assert d[|a|..] == b[|a|..] + d[|b|..];
    LeavesReplicaAppend(b[|a|..], d[|b|..], c, n);
  }

  /** Every update of replica (c, n) carries an empty snapshot or one the
    * cache refuses. */
  predicate NoneAccepted(cache: CacheView, uds: seq<Update>, c: uint64, n: uint64) {
    forall j | 0 <= j < |uds| :: uds[j].clusterId == c && uds[j].nodeId == n ==>
      IsEmptySnapshot(uds[j].snapshot) || !cache.SnapshotAccepted(NodeInfo(c, n), uds[j].snapshot.index)
  }

  /** `uds[i]` is the only update of its replica. */
  predicate OnlyUpdateOf(uds: seq<Update>, i: nat)
    requires i < |uds|
  {
    forall j | 0 <= j < |uds| && j != i :: !(uds[j].clusterId == uds[i].clusterId && uds[j].nodeId == uds[i].nodeId)
  }

  /** An update of another replica, or one whose snapshot is empty or
    * refused, leaves replica (c, n)'s snapshot keys and cached snapshot index
    * alone. */
  lemma UpdateStepLeavesReplica(store: Store, readFault: bool, s: Staging, ud: Update, c: uint64, n: uint64)
    requires Sorted(store) && WellTyped(store)
    requires !(ud.clusterId == c && ud.nodeId == n) || IsEmptySnapshot(ud.snapshot)
      || !s.cache.SnapshotAccepted(NodeInfo(c, n), ud.snapshot.index)
    ensures var t := UpdateStep(store, readFault, s, ud).staging;
      && ExtendsLeaving(t.ops, s.ops, c, n)
      && t.cache.LastSnapshotIndex(NodeInfo(c, n)) == s.cache.LastSnapshotIndex(NodeInfo(c, n))
  {
    var s1 := StageState(s, ud.clusterId, ud.nodeId, ud.state);
    assert s1.cache.snapshotIndex == s.cache.snapshotIndex;
    assert ExtendsLeaving(s1.ops, s.ops, c, n);
    var ss := ud.snapshot;
    if !(IsEmptySnapshot(ss) || !s1.cache.SnapshotAccepted(NodeInfo(ud.clusterId, ud.nodeId), ss.index)) {
      var listed := StoredSnapshots(store, ud.clusterId, ud.nodeId, MaxUint64);
      var snapOps := SnapshotOps(listed, ud.clusterId, ud.nodeId, ss);
      SnapshotOpsKeys(listed, ud.clusterId, ud.nodeId, ss);
      var extra := snapOps + [Put(MaxIndexKey(ud.clusterId, ud.nodeId), MaxIndexValue(ss.index))];
      LeavesReplicaAppend(snapOps, [Put(MaxIndexKey(ud.clusterId, ud.nodeId), MaxIndexValue(ss.index))], c, n);
      assert (s1.ops + extra)[|s1.ops|..] == extra;
      assert s1.ops + snapOps + [Put(MaxIndexKey(ud.clusterId, ud.nodeId), MaxIndexValue(ss.index))] == s1.ops + extra;
      ExtendsLeavingTrans(s.ops, s1.ops, s1.ops + extra, c, n);
    }
  }

  /** saveRaftState's first loop over updates none of which carries a
    * snapshot of replica (c, n) that the cache accepts leaves that replica's
    * snapshot keys and cached snapshot index alone. */
  lemma {:induction false} StageUpdatesLeavesReplica(store: Store, readFault: bool, init: Staging, uds: seq<Update>,
                                                     c: uint64, n: uint64)
    requires Sorted(store) && WellTyped(store)
    requires NoneAccepted(init.cache, uds, c, n)
    ensures var p := StageUpdates(store, readFault, init, uds).staging;
      && ExtendsLeaving(p.ops, init.ops, c, n)
      && p.cache.LastSnapshotIndex(NodeInfo(c, n)) == init.cache.LastSnapshotIndex(NodeInfo(c, n))
    decreases |uds|
  {
    if uds == [] {
      assert init.ops[|init.ops|..] == [];
    } else {
      var front := uds[..|uds| - 1];
      forall j | 0 <= j < |front| ensures front[j] == uds[j] {}
      StageUpdatesLeavesReplica(store, readFault, init, front, c, n);
      var q := StageUpdates(store, readFault, init, front);
      if q.Running? {
        UpdateStepLeavesReplica(store, readFault, q.staging, uds[|uds| - 1], c, n);
        ExtendsLeavingTrans(init.ops, q.staging.ops, UpdateStep(store, readFault, q.staging, uds[|uds| - 1]).staging.ops, c, n);
      }
    }
  }

  /** The snapshot keys of a replica none of whose updates carries a snapshot
    * the cache accepts are left as they were, whatever the other updates and
    * the faults, and the replica's cached snapshot index is unchanged. */
  lemma RefusedSnapshotIsNotWritten(store: Store, readFault: bool, writeFault: bool, em: EntryManager,
                                    cache: CacheView, uds: seq<Update>, c: uint64, n: uint64)
    requires Sorted(store) && WellTyped(store) && ValidManager(em)
    requires NoneAccepted(cache, uds, c, n)
    ensures var o := SaveRaftState(store, readFault, writeFault, em, cache, uds);
      && o.cache.LastSnapshotIndex(NodeInfo(c, n)) == cache.LastSnapshotIndex(NodeInfo(c, n))
      && forall k: Key | k.SnapshotKey? && OfReplica(k, c, n) :: Get(o.store, k) == Get(store, k)
  {
    var init := Staging(cache, []);
    StageUpdatesLeavesReplica(store, readFault, init, uds, c, n);
    var p := StageUpdates(store, readFault, init, uds);
    if p.Running? {
      var s := p.staging;
      StageEntriesKeeps(store, em, s, uds);
      var t := StageEntries(store, em, s, uds);
      var rest := t.ops[|s.ops|..];
      assert t.ops == s.ops + rest;
      assert s.ops[0..] == s.ops;
      forall k: Key | k.SnapshotKey? && OfReplica(k, c, n)
        ensures Get(SaveRaftState(store, readFault, writeFault, em, cache, uds).store, k) == Get(store, k)
      {
        if |t.ops| > 0 && !writeFault {
          ApplyGet(store, t.ops, k);
          assert Untouched(s.ops, k);
          SkipUntouched(s.ops, rest, k, Get(store, k));
          AfterUntouched(rest, k, Get(store, k));
        }
      }
    }
  }

  /** The quirk of a failed snapshot listing: saveRaftState returns success and
    * commits nothing, yet the cache has already accepted the snapshot index,
    * so the same snapshot saved again is refused and never reaches the store. */
  lemma SwallowedSnapshotIsNeverSaved(store: Store, writeFault: bool, em: EntryManager, cache: CacheView, ud: Update)
    requires Sorted(store) && WellTyped(store) && ValidManager(em)
    requires !IsEmptySnapshot(ud.snapshot) && !EntriesBehindSnapshot(ud)
    requires cache.SnapshotAccepted(NodeInfo(ud.clusterId, ud.nodeId), ud.snapshot.index)
    ensures var o := SaveRaftState(store, true, writeFault, em, cache, [ud]);
      && o.status == Ok && o.store == store
      && var retry := SaveRaftState(store, false, false, em, o.cache, [ud]);
         var k := SnapshotKey(ud.clusterId, ud.nodeId, ud.snapshot.index);
         Get(retry.store, k) == Get(store, k)
  {
    var id := NodeInfo(ud.clusterId, ud.nodeId);
    var init := Staging(cache, []);
    StageOne(store, true, init, ud);
    var s0 := StageState(init, ud.clusterId, ud.nodeId, ud.state);
    assert s0.cache.snapshotIndex == cache.snapshotIndex;
    var o := SaveRaftState(store, true, writeFault, em, cache, [ud]);
    assert o.cache == s0.cache.WithSnapshotIndex(id, ud.snapshot.index);
    assert [ud][0] == ud;
    RefusedSnapshotIsNotWritten(store, false, false, em, o.cache, [ud], ud.clusterId, ud.nodeId);
  }

  /** Operations around saveSnapshot's that write no snapshot key of its
    * replica let saveSnapshot's effect on that replica's snapshot keys through. */
  lemma SnapshotKeysThroughBatch(store: Store, pre: seq<Op>, c: uint64, n: uint64, ss: Snapshot, post: seq<Op>)
    requires Sorted(store) && WellTyped(store)
    requires LeavesReplicaSnapshots(pre, c, n) && LeavesReplicaSnapshots(post, c, n)
    ensures var ops := pre + SnapshotOps(StoredSnapshots(store, c, n, MaxUint64), c, n, ss) + post;
      forall k: Key | k.SnapshotKey? && OfReplica(k, c, n) :: Get(Apply(store, ops), k) ==
           if k.index == ss.index then Some(SnapshotRec(ss))
           else if k.index < ss.index then None
           else Get(store, k)
  {
    var snapOps := SnapshotOps(StoredSnapshots(store, c, n, MaxUint64), c, n, ss);
    var ops := pre + snapOps + post;
    assert ops == pre + (snapOps + post);
    forall k: Key | k.SnapshotKey? && OfReplica(k, c, n)
      ensures Get(Apply(store, ops), k) ==
           if k.index == ss.index then Some(SnapshotRec(ss))
           else if k.index < ss.index then None
           else Get(store, k)
    {
      ApplyGet(store, ops, k);
      SkipUntouched(pre, snapOps + post, k, Get(store, k));
      SkipUntouched(snapOps, post, k, Get(store, k));
      SnapshotOpsEffect(store, c, n, ss, k);
    }
  }

  /** Without faults, the loop reaching the first update of a replica, an
    * accepted snapshot with entries that do not end before it, stages that
    * snapshot's saveSnapshot operations after operations that leave the
    * replica's snapshot keys alone. */
  lemma FirstAcceptedStaged(store: Store, cache: CacheView, uds: seq<Update>, i: nat) returns (pre: seq<Op>)
    requires Sorted(store) && WellTyped(store)
    requires i < |uds| && OnlyUpdateOf(uds, i)
    requires forall j | 0 <= j < |uds| :: !EntriesBehindSnapshot(uds[j])
    requires !IsEmptySnapshot(uds[i].snapshot)
    requires cache.SnapshotAccepted(NodeInfo(uds[i].clusterId, uds[i].nodeId), uds[i].snapshot.index)
    ensures var c, n, ss := uds[i].clusterId, uds[i].nodeId, uds[i].snapshot;
      var p := StageUpdates(store, false, Staging(cache, []), uds[..i + 1]);
      && p.Running?
      && p.staging.ops == pre + SnapshotOps(StoredSnapshots(store, c, n, MaxUint64), c, n, ss)
                              + [Put(MaxIndexKey(c, n), MaxIndexValue(ss.index))]
      && LeavesReplicaSnapshots(pre, c, n)
      && p.staging.cache.LastSnapshotIndex(NodeInfo(c, n)) == ss.index
  {
    var c, n := uds[i].clusterId, uds[i].nodeId;
    var init := Staging(cache, []);
    var front := uds[..i];
    assert uds[..i + 1][..i] == front;
    forall j | 0 <= j < |front| ensures front[j] == uds[j] {}
    StageUpdatesLeavesReplica(store, false, init, front, c, n);
    NoSwallowWithoutReadFault(store, init, front);
    PanicOnlyWhenEntriesBehindSnapshot(store, false, init, front);
    var q := StageUpdates(store, false, init, front).staging;
    AcceptedUpdateStep(store, q, uds[i]);
    var s1 := StageState(q, c, n, uds[i].state);
    assert ExtendsLeaving(s1.ops, q.ops, c, n);
    ExtendsLeavingTrans([], q.ops, s1.ops, c, n);
    assert s1.ops[0..] == s1.ops;
    pre := s1.ops;
  }

  /** Without faults, an update of another replica whose entries do not end
    * before its snapshot keeps the loop running and appends operations that
    * leave replica (c, n)'s snapshot keys alone. */
  lemma OtherUpdateStaged(store: Store, q: Staging, ud: Update, c: uint64, n: uint64,
                          pre: seq<Op>, snapOps: seq<Op>, post0: seq<Op>) returns (post: seq<Op>)
    requires Sorted(store) && WellTyped(store)
    requires !(ud.clusterId == c && ud.nodeId == n) && !EntriesBehindSnapshot(ud)
    requires q.ops == pre + snapOps + post0 && LeavesReplicaSnapshots(post0, c, n)
    ensures var t := UpdateStep(store, false, q, ud);
      && t.Running?
      && t.staging.ops == pre + snapOps + post && LeavesReplicaSnapshots(post, c, n)
      && t.staging.cache.LastSnapshotIndex(NodeInfo(c, n)) == q.cache.LastSnapshotIndex(NodeInfo(c, n))
  {
    UpdateStepLeavesReplica(store, false, q, ud, c, n);
    var t := UpdateStep(store, false, q, ud);
    var rest := t.staging.ops[|q.ops|..];
    assert t.staging.ops == q.ops + rest;
    LeavesReplicaAppend(post0, rest, c, n);
    post := post0 + rest;
  }

  /** Without faults, once saveRaftState's first loop has passed the only
    * update of a replica, an accepted snapshot with entries that do not end
    * before it, its batch holds that snapshot's saveSnapshot operations with
    * nothing around them touching the replica's snapshot keys. */
  lemma {:induction false} AcceptedUpdateStaged(store: Store, cache: CacheView, uds: seq<Update>, i: nat, m: nat)
    returns (pre: seq<Op>, post: seq<Op>)
    requires Sorted(store) && WellTyped(store)
    requires i < m <= |uds| && OnlyUpdateOf(uds, i)
    requires forall j | 0 <= j < |uds| :: !EntriesBehindSnapshot(uds[j])
    requires !IsEmptySnapshot(uds[i].snapshot)
    requires cache.SnapshotAccepted(NodeInfo(uds[i].clusterId, uds[i].nodeId), uds[i].snapshot.index)
    ensures var c, n, ss := uds[i].clusterId, uds[i].nodeId, uds[i].snapshot;
      var p := StageUpdates(store, false, Staging(cache, []), uds[..m]);
      && p.Running?
      && p.staging.ops == pre + SnapshotOps(StoredSnapshots(store, c, n, MaxUint64), c, n, ss) + post
      && LeavesReplicaSnapshots(pre, c, n) && LeavesReplicaSnapshots(post, c, n)
      && p.staging.cache.LastSnapshotIndex(NodeInfo(c, n)) == ss.index
    decreases m
  {
    var c, n, ss := uds[i].clusterId, uds[i].nodeId, uds[i].snapshot;
    if m == i + 1 {
      pre := FirstAcceptedStaged(store, cache, uds, i);
      post := [Put(MaxIndexKey(c, n), MaxIndexValue(ss.index))];
    } else {
      var post0;
      pre, post0 := AcceptedUpdateStaged(store, cache, uds, i, m - 1);
      assert uds[..m][..m - 1] == uds[..m - 1];
      var q := StageUpdates(store, false, Staging(cache, []), uds[..m - 1]).staging;
      post := OtherUpdateStaged(store, q, uds[m - 1], c, n, pre,
                                SnapshotOps(StoredSnapshots(store, c, n, MaxUint64), c, n, ss), post0);
    }
  }

  /** saveEntries appends operations that write no snapshot key. */
  lemma EntriesLeaveReplica(store: Store, em: EntryManager, s: Staging, uds: seq<Update>, c: uint64, n: uint64,
                            pre: seq<Op>, snapOps: seq<Op>, post0: seq<Op>) returns (post: seq<Op>)
    requires ValidManager(em)
    requires s.ops == pre + snapOps + post0 && LeavesReplicaSnapshots(post0, c, n)
    ensures var t := StageEntries(store, em, s, uds);
      && t.ops == pre + snapOps + post && LeavesReplicaSnapshots(post, c, n)
      && t.cache.snapshotIndex == s.cache.snapshotIndex
  {
    StageEntriesKeeps(store, em, s, uds);
    var t := StageEntries(store, em, s, uds);
    var rest := t.ops[|s.ops|..];
    assert t.ops == s.ops + rest;
    assert LeavesReplicaSnapshots(rest, c, n);
    LeavesReplicaAppend(post0, rest, c, n);
    post := post0 + rest;
  }

  /** Without faults, saveRaftState with an update whose snapshot the cache
    * accepts commits a batch made of that snapshot's saveSnapshot operations
    * and operations that write no snapshot key of its replica. */
  lemma AcceptedUpdateCommits(store: Store, em: EntryManager, cache: CacheView, uds: seq<Update>, i: nat)
    returns (pre: seq<Op>, post: seq<Op>)
    requires Sorted(store) && WellTyped(store) && ValidManager(em)
    requires i < |uds| && OnlyUpdateOf(uds, i)
    requires forall j | 0 <= j < |uds| :: !EntriesBehindSnapshot(uds[j])
    requires !IsEmptySnapshot(uds[i].snapshot)
    requires cache.SnapshotAccepted(NodeInfo(uds[i].clusterId, uds[i].nodeId), uds[i].snapshot.index)
    ensures var o := SaveRaftState(store, false, false, em, cache, uds);
      var c, n, ss := uds[i].clusterId, uds[i].nodeId, uds[i].snapshot;
      && LeavesReplicaSnapshots(pre, c, n) && LeavesReplicaSnapshots(post, c, n)
      && o == Outcome(Ok, o.cache, Apply(store, pre + SnapshotOps(StoredSnapshots(store, c, n, MaxUint64), c, n, ss) + post))
      && o.cache.LastSnapshotIndex(NodeInfo(c, n)) == ss.index
  {
    var c, n, ss := uds[i].clusterId, uds[i].nodeId, uds[i].snapshot;
    var snapOps := SnapshotOps(StoredSnapshots(store, c, n, MaxUint64), c, n, ss);
    var post0;
    pre, post0 := AcceptedUpdateStaged(store, cache, uds, i, |uds|);
    assert uds[..|uds|] == uds;
    var s := StageUpdates(store, false, Staging(cache, []), uds).staging;
    post := EntriesLeaveReplica(store, em, s, uds, c, n, pre, snapOps, post0);
    assert |snapOps| > 0;
  }

  /** saveRaftState without faults, on updates whose entries never end before
    * their snapshots, where `uds[i]` is the only update of its replica and
    * carries a snapshot the cache accepts: the snapshot is stored at its
    * index, the replica's older snapshots are gone, its newer ones are
    * untouched, and the cache records the snapshot index. */
  lemma SaveRaftStateStoresSnapshot(store: Store, em: EntryManager, cache: CacheView, uds: seq<Update>, i: nat)
    requires Sorted(store) && WellTyped(store) && ValidManager(em)
    requires i < |uds| && OnlyUpdateOf(uds, i)
    requires forall j | 0 <= j < |uds| :: !EntriesBehindSnapshot(uds[j])
    requires !IsEmptySnapshot(uds[i].snapshot)
    requires cache.SnapshotAccepted(NodeInfo(uds[i].clusterId, uds[i].nodeId), uds[i].snapshot.index)
    ensures var o := SaveRaftState(store, false, false, em, cache, uds);
      var c, n, ss := uds[i].clusterId, uds[i].nodeId, uds[i].snapshot;
      && o.status == Ok
      && o.cache.LastSnapshotIndex(NodeInfo(c, n)) == ss.index
      && forall k: Key | k.SnapshotKey? && OfReplica(k, c, n) :: Get(o.store, k) ==
           if k.index == ss.index then Some(SnapshotRec(ss))
           else if k.index < ss.index then None
           else Get(store, k)
  {
    var pre, post := AcceptedUpdateCommits(store, em, cache, uds, i);
    SnapshotKeysThroughBatch(store, pre, uds[i].clusterId, uds[i].nodeId, uds[i].snapshot, post);
  }

  // ----- saveSnapshots -----

  /** saveSnapshots' loop so far: the cache, the staged operations, whether
    * anything is to be committed, and whether a listing error stopped it. */
  datatype Collected = Collected(cache: CacheView, ops: seq<Op>, toSave: bool, swallowed: bool)

  /** One iteration of saveSnapshots' loop. */
  function SnapshotsStep(store: Store, readFault: bool, p: Collected, ud: Update): Collected
    requires Sorted(store) && WellTyped(store)
  {
    var c, n, ss := ud.clusterId, ud.nodeId, ud.snapshot;
    if IsEmptySnapshot(ss) || !p.cache.SnapshotAccepted(NodeInfo(c, n), ss.index) then p
    else
      var cache := p.cache.WithSnapshotIndex(NodeInfo(c, n), ss.index);
      if readFault then p.(cache := cache, swallowed := true)
      else Collected(cache, p.ops + SnapshotOps(StoredSnapshots(store, c, n, MaxUint64), c, n, ss), true, false)
  }

  function CollectSnapshots(store: Store, readFault: bool, cache: CacheView, uds: seq<Update>): Collected
    requires Sorted(store) && WellTyped(store)
    decreases |uds|
  {
    if uds == [] then Collected(cache, [], false, false)
    else
      var p := CollectSnapshots(store, readFault, cache, uds[..|uds| - 1]);
      if p.swallowed then p else SnapshotsStep(store, readFault, p, uds[|uds| - 1])
  }

  /** saveSnapshots: the accepted snapshots' saveSnapshot operations in one
    * commit, made only when at least one was staged; a listing error is
    * swallowed and nothing is committed. */
  function SaveSnapshots(store: Store, readFault: bool, writeFault: bool, cache: CacheView, uds: seq<Update>): Outcome
    requires Sorted(store) && WellTyped(store)
  {
    var p := CollectSnapshots(store, readFault, cache, uds);
    if p.swallowed || !p.toSave then Outcome(Ok, p.cache, store)
    else if writeFault then Outcome(Err(ErrIO), p.cache, store)
    else Outcome(Ok, p.cache, Apply(store, p.ops))
  }

  /** Every operation writes a snapshot key. */
  predicate SnapshotWrites(ops: seq<Op>) {
    forall i | 0 <= i < |ops| :: ops[i].key.SnapshotKey?
  }

  lemma {:induction false} CollectSnapshotsKeeps(store: Store, readFault: bool, cache: CacheView, uds: seq<Update>)
    requires Sorted(store) && WellTyped(store)
    ensures var p := CollectSnapshots(store, readFault, cache, uds);
      && SnapshotWrites(p.ops) && OpsFit(p.ops)
      && p.cache.maxIndex == cache.maxIndex && p.cache.states == cache.states
      && (p.ops != [] ==> p.toSave)
    decreases |uds|
  {
    if uds != [] {
      var ud := uds[|uds| - 1];
      var p := CollectSnapshots(store, readFault, cache, uds[..|uds| - 1]);
      CollectSnapshotsKeeps(store, readFault, cache, uds[..|uds| - 1]);
      var listed := StoredSnapshots(store, ud.clusterId, ud.nodeId, MaxUint64);
      SnapshotOpsKeys(listed, ud.clusterId, ud.nodeId, ud.snapshot);
      SnapshotOpsFit(listed, ud.clusterId, ud.nodeId, ud.snapshot);
      OpsFitAppend(p.ops, SnapshotOps(listed, ud.clusterId, ud.nodeId, ud.snapshot));
    }
  }

  /** Once saveSnapshots' loop has swallowed an error, later updates change nothing. */
  lemma {:induction false} CollectSnapshotsStops(store: Store, readFault: bool, cache: CacheView, uds: seq<Update>, j: nat)
    requires Sorted(store) && WellTyped(store)
    requires j <= |uds| && CollectSnapshots(store, readFault, cache, uds[..j]).swallowed
    ensures CollectSnapshots(store, readFault, cache, uds) == CollectSnapshots(store, readFault, cache, uds[..j])
    decreases |uds|
  {
    if j == |uds| {
      assert uds[..j] == uds;
    } else {
      assert uds[..|uds| - 1][..j] == uds[..j];
      CollectSnapshotsStops(store, readFault, cache, uds[..|uds| - 1], j);
    }
  }

  /** The batch saveSnapshots commits fits the key space. */
  lemma SaveSnapshotsBatchFits(store: Store, readFault: bool, cache: CacheView, uds: seq<Update>)
    requires Sorted(store) && WellTyped(store)
    ensures OpsFit(CollectSnapshots(store, readFault, cache, uds).ops)
  {
    CollectSnapshotsKeeps(store, readFault, cache, uds);
  }

  /** saveSnapshots writes snapshot records only: every other key, the cached
    * max indexes and states are as they were, so a cache that agreed with the
    * store still does. */
  lemma SaveSnapshotsTouchesOnlySnapshots(store: Store, readFault: bool, writeFault: bool, cache: CacheView, uds: seq<Update>)
    requires Sorted(store) && WellTyped(store)
    ensures var o := SaveSnapshots(store, readFault, writeFault, cache, uds);
      && o.cache.maxIndex == cache.maxIndex && o.cache.states == cache.states
      && (forall k: Key | !k.SnapshotKey? :: Get(o.store, k) == Get(store, k))
      && (CacheAgrees(cache, store) ==> CacheAgrees(o.cache, o.store))
  {
    var p := CollectSnapshots(store, readFault, cache, uds);
    CollectSnapshotsKeeps(store, readFault, cache, uds);
    var o := SaveSnapshots(store, readFault, writeFault, cache, uds);
    forall k: Key | !k.SnapshotKey? ensures Get(o.store, k) == Get(store, k) {
      ApplyGet(store, p.ops, k);
      AfterUntouched(p.ops, k, Get(store, k));
    }
  }

  /** saveSnapshots' loop over updates none of which carries a snapshot of
    * replica (c, n) that the cache accepts stages nothing for that replica's
    * snapshot keys and keeps its cached snapshot index. */
  lemma {:induction false} CollectLeavesReplica(store: Store, readFault: bool, cache: CacheView, uds: seq<Update>,
                                                c: uint64, n: uint64)
    requires Sorted(store) && WellTyped(store)
    requires NoneAccepted(cache, uds, c, n)
    ensures var p := CollectSnapshots(store, readFault, cache, uds);
      && LeavesReplicaSnapshots(p.ops, c, n)
      && p.cache.LastSnapshotIndex(NodeInfo(c, n)) == cache.LastSnapshotIndex(NodeInfo(c, n))
    decreases |uds|
  {
    if uds != [] {
      var front := uds[..|uds| - 1];
      forall j | 0 <= j < |front| ensures front[j] == uds[j] {}
      CollectLeavesReplica(store, readFault, cache, front, c, n);
      var q := CollectSnapshots(store, readFault, cache, front);
      var ud := uds[|uds| - 1];
      if !(ud.clusterId == c && ud.nodeId == n) {
        var listed := StoredSnapshots(store, ud.clusterId, ud.nodeId, MaxUint64);
        SnapshotOpsKeys(listed, ud.clusterId, ud.nodeId, ud.snapshot);
        LeavesReplicaAppend(q.ops, SnapshotOps(listed, ud.clusterId, ud.nodeId, ud.snapshot), c, n);
      }
    }
  }

  /** Without a read fault, saveSnapshots' loop never swallows an error. */
  lemma {:induction false} CollectNoSwallowWithoutReadFault(store: Store, cache: CacheView, uds: seq<Update>)
    requires Sorted(store) && WellTyped(store)
    ensures !CollectSnapshots(store, false, cache, uds).swallowed
    decreases |uds|
  {
    if uds != [] {
      CollectNoSwallowWithoutReadFault(store, cache, uds[..|uds| - 1]);
    }
  }

  /** The snapshot keys of a replica none of whose updates carries a snapshot
    * the cache accepts are left as they were by saveSnapshots, whatever the
    * other updates and the faults, and its cached snapshot index is unchanged. */
  lemma SaveSnapshotsLeavesRefused(store: Store, readFault: bool, writeFault: bool, cache: CacheView,
                                   uds: seq<Update>, c: uint64, n: uint64)
    requires Sorted(store) && WellTyped(store)
    requires NoneAccepted(cache, uds, c, n)
    ensures var o := SaveSnapshots(store, readFault, writeFault, cache, uds);
      && o.cache.LastSnapshotIndex(NodeInfo(c, n)) == cache.LastSnapshotIndex(NodeInfo(c, n))
      && forall k: Key | k.SnapshotKey? && OfReplica(k, c, n) :: Get(o.store, k) == Get(store, k)
  {
    var p := CollectSnapshots(store, readFault, cache, uds);
    CollectLeavesReplica(store, readFault, cache, uds, c, n);
    forall k: Key | k.SnapshotKey? && OfReplica(k, c, n)
      ensures Get(SaveSnapshots(store, readFault, writeFault, cache, uds).store, k) == Get(store, k)
    {
      ApplyGet(store, p.ops, k);
      AfterUntouched(p.ops, k, Get(store, k));
    }
  }

  /** Without a read fault, the loop reaching the first update of a replica
    * with a snapshot the cache accepts stages that snapshot's saveSnapshot
    * operations after operations that leave the replica's snapshot keys alone. */
  lemma FirstAcceptedCollected(store: Store, cache: CacheView, uds: seq<Update>, i: nat) returns (pre: seq<Op>)
    requires Sorted(store) && WellTyped(store)
    requires i < |uds| && OnlyUpdateOf(uds, i) && !IsEmptySnapshot(uds[i].snapshot)
    requires cache.SnapshotAccepted(NodeInfo(uds[i].clusterId, uds[i].nodeId), uds[i].snapshot.index)
    ensures var c, n, ss := uds[i].clusterId, uds[i].nodeId, uds[i].snapshot;
      var p := CollectSnapshots(store, false, cache, uds[..i + 1]);
      && !p.swallowed && p.toSave
      && p.ops == pre + SnapshotOps(StoredSnapshots(store, c, n, MaxUint64), c, n, ss)
      && LeavesReplicaSnapshots(pre, c, n)
      && p.cache.LastSnapshotIndex(NodeInfo(c, n)) == ss.index
  {
    var c, n := uds[i].clusterId, uds[i].nodeId;
    var front := uds[..i];
    assert uds[..i + 1][..i] == front;
    forall j | 0 <= j < |front| ensures front[j] == uds[j] {}
    CollectLeavesReplica(store, false, cache, front, c, n);
    CollectNoSwallowWithoutReadFault(store, cache, front);
    pre := CollectSnapshots(store, false, cache, front).ops;
  }

  /** Without a read fault, an update of another replica keeps saveSnapshots'
    * loop going and appends operations that leave replica (c, n)'s snapshot
    * keys alone. */
  lemma OtherUpdateCollected(store: Store, q: Collected, ud: Update, c: uint64, n: uint64,
                             pre: seq<Op>, snapOps: seq<Op>, post0: seq<Op>) returns (post: seq<Op>)
    requires Sorted(store) && WellTyped(store)
    requires !(ud.clusterId == c && ud.nodeId == n) && !q.swallowed && q.toSave
    requires q.ops == pre + snapOps + post0 && LeavesReplicaSnapshots(post0, c, n)
    ensures var t := SnapshotsStep(store, false, q, ud);
      && !t.swallowed && t.toSave
      && t.ops == pre + snapOps + post && LeavesReplicaSnapshots(post, c, n)
      && t.cache.LastSnapshotIndex(NodeInfo(c, n)) == q.cache.LastSnapshotIndex(NodeInfo(c, n))
  {
    var t := SnapshotsStep(store, false, q, ud);
    var listed := StoredSnapshots(store, ud.clusterId, ud.nodeId, MaxUint64);
    SnapshotOpsKeys(listed, ud.clusterId, ud.nodeId, ud.snapshot);
    var rest := t.ops[|q.ops|..];
    assert t.ops == q.ops + rest;
    assert rest == [] || rest == SnapshotOps(listed, ud.clusterId, ud.nodeId, ud.snapshot);
    LeavesReplicaAppend(post0, rest, c, n);
    post := post0 + rest;
  }

  /** Without a read fault, once saveSnapshots' loop has passed the only
    * update of a replica, one with a snapshot the cache accepts, it holds
    * that snapshot's saveSnapshot operations with nothing around them
    * touching the replica's snapshot keys. */
  lemma {:induction false} AcceptedSnapshotCollected(store: Store, cache: CacheView, uds: seq<Update>, i: nat, m: nat)
    returns (pre: seq<Op>, post: seq<Op>)
    requires Sorted(store) && WellTyped(store)
    requires i < m <= |uds| && OnlyUpdateOf(uds, i) && !IsEmptySnapshot(uds[i].snapshot)
    requires cache.SnapshotAccepted(NodeInfo(uds[i].clusterId, uds[i].nodeId), uds[i].snapshot.index)
    ensures var c, n, ss := uds[i].clusterId, uds[i].nodeId, uds[i].snapshot;
      var p := CollectSnapshots(store, false, cache, uds[..m]);
      && !p.swallowed && p.toSave
      && p.ops == pre + SnapshotOps(StoredSnapshots(store, c, n, MaxUint64), c, n, ss) + post
      && LeavesReplicaSnapshots(pre, c, n) && LeavesReplicaSnapshots(post, c, n)
      && p.cache.LastSnapshotIndex(NodeInfo(c, n)) == ss.index
    decreases m
  {
    var c, n, ss := uds[i].clusterId, uds[i].nodeId, uds[i].snapshot;
    if m == i + 1 {
      pre := FirstAcceptedCollected(store, cache, uds, i);
      post := [];
      assert pre + SnapshotOps(StoredSnapshots(store, c, n, MaxUint64), c, n, ss) + post
          == pre + SnapshotOps(StoredSnapshots(store, c, n, MaxUint64), c, n, ss);
    } else {
      var post0;
      pre, post0 := AcceptedSnapshotCollected(store, cache, uds, i, m - 1);
      assert uds[..m][..m - 1] == uds[..m - 1];
      var q := CollectSnapshots(store, false, cache, uds[..m - 1]);
      post := OtherUpdateCollected(store, q, uds[m - 1], c, n, pre,
                                   SnapshotOps(StoredSnapshots(store, c, n, MaxUint64), c, n, ss), post0);
    }
  }

  /** saveSnapshots without faults, where `uds[i]` is the only update of its
    * replica and carries a snapshot the cache accepts: the snapshot is stored
    * at its index, the replica's older snapshots are gone, its newer ones are
    * untouched, and the cache records the snapshot index. */
  lemma SaveSnapshotsStoresSnapshot(store: Store, cache: CacheView, uds: seq<Update>, i: nat)
    requires Sorted(store) && WellTyped(store)
    requires i < |uds| && OnlyUpdateOf(uds, i) && !IsEmptySnapshot(uds[i].snapshot)
    requires cache.SnapshotAccepted(NodeInfo(uds[i].clusterId, uds[i].nodeId), uds[i].snapshot.index)
    ensures var o := SaveSnapshots(store, false, false, cache, uds);
      var c, n, ss := uds[i].clusterId, uds[i].nodeId, uds[i].snapshot;
      && o.status == Ok
      && o.cache.LastSnapshotIndex(NodeInfo(c, n)) == ss.index
      && forall k: Key | k.SnapshotKey? && OfReplica(k, c, n) :: Get(o.store, k) ==
           if k.index == ss.index then Some(SnapshotRec(ss))
           else if k.index < ss.index then None
           else Get(store, k)
  {
    var pre, post := AcceptedSnapshotCollected(store, cache, uds, i, |uds|);
    assert uds[..|uds|] == uds;
    SnapshotKeysThroughBatch(store, pre, uds[i].clusterId, uds[i].nodeId, uds[i].snapshot, post);
  }
}
