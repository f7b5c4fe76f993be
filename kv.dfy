/** The embedded ordered key-value engine, reduced to what the log database
  * uses of it: point reads, ordered range scans, atomic write batches and a
  * ranged delete. The engine's contents are a sequence of (key, value) pairs
  * kept strictly sorted by key. */
module KV {
  import opened Common
  import opened Keys
  import opened RaftPb

  /** A stored value. Records are kept as the datatype they serialise; only the
    * max-index value is kept as bytes, since the log database decodes it itself. */
  datatype Value =
    | Raw(bytes: seq<byte>)
    | StateRec(state: State)
    | SnapshotRec(snapshot: Snapshot)
    | BootstrapRec(bootstrap: Bootstrap)
    | EntryRec(entries: seq<Entry>)

  /** One mutation staged in a write batch. */
  datatype Op = Put(key: Key, value: Value) | Delete(key: Key)

  type Store = seq<(Key, Value)>

  predicate Sorted(s: Store) {
    forall i, j | 0 <= i < j < |s| :: Less(s[i].0, s[j].0)
  }

  /** Whether a value has the form that its key's partition holds; a snapshot
    * record sits under the key carrying its own index. */
  predicate Fits(k: Key, v: Value) {
    match k
    case EntryKey(_, _, _) => v.EntryRec?
    case StateKey(_, _) => v.StateRec?
    case MaxIndexKey(_, _) => v.Raw?
    case SnapshotKey(_, _, i) => v.SnapshotRec? && v.snapshot.index == i
    case BootstrapKey(_, _) => v.BootstrapRec?
  }

  predicate WellTyped(s: Store) {
    forall i | 0 <= i < |s| :: Fits(s[i].0, s[i].1)
  }

  /** Every Put of the batch stores a value that fits its key. */
  predicate OpsFit(ops: seq<Op>) {
    forall i | 0 <= i < |ops| :: ops[i].Put? ==> Fits(ops[i].key, ops[i].value)
  }

  function Get(s: Store, k: Key): Option<Value> {
    if s == [] then None else if s[0].0 == k then Some(s[0].1) else Get(s[1..], k)
  }

  /** The pairs whose key satisfies `f`, in their original order. */
  function Keep(s: Store, f: Key -> bool): (r: Store)
    ensures |r| <= |s|
  {
    if s == [] then [] else (if f(s[0].0) then [s[0]] else []) + Keep(s[1..], f)
  }

  /** Put: insert or overwrite, keeping the order. */
  function Insert(s: Store, k: Key, v: Value): Store {
    if s == [] then [(k, v)]
    else if s[0].0 == k then [(k, v)] + s[1..]
    else if Less(k, s[0].0) then [(k, v)] + s
    else [s[0]] + Insert(s[1..], k, v)
  }

  function ApplyOp(s: Store, op: Op): Store {
    match op
    case Put(k, v) => Insert(s, k, v)
    case Delete(k) => Keep(s, j => j != k)
  }

  /** Committing a write batch: its operations in order, the last write to a key wins. */
  function Apply(s: Store, ops: seq<Op>): Store
    decreases |ops|
  {
    if ops == [] then s else Apply(ApplyOp(s, ops[0]), ops[1..])
  }

  /** The pairs between `lo` and `hi`, both included, in ascending key order. */
  function Scan(s: Store, lo: Key, hi: Key): Store {
    Keep(s, k => LessEq(lo, k) && LessEq(k, hi))
  }

  /** The store without the keys in [lo, hi): the engine's ranged delete. */
  function RemoveRange(s: Store, lo: Key, hi: Key): Store {
    Keep(s, k => !(LessEq(lo, k) && Less(k, hi)))
  }

  /** The value of `k` once `ops` have been applied over a prior value `prior`. */
  function After(ops: seq<Op>, k: Key, prior: Option<Value>): Option<Value>
    decreases |ops|
  {
    if ops == [] then prior
    else
      var next := if ops[0].key != k then prior else if ops[0].Put? then Some(ops[0].value) else None;
      After(ops[1..], k, next)
  }

  // ----- lemmas about the sorted store -----

  lemma {:induction false} GetMember(s: Store, k: Key, v: Value)
    requires Sorted(s)
    ensures Get(s, k) == Some(v) <==> (k, v) in s
  {
    if s != [] {
      GetMember(s[1..], k, v);
    }
  }

  lemma {:induction false} GetNone(s: Store, k: Key)
    ensures Get(s, k) == None <==> forall i | 0 <= i < |s| :: s[i].0 != k
  {
    if s != [] {
      GetNone(s[1..], k);
      assert forall i | 1 <= i < |s| :: s[i] == s[1..][i - 1];
    }
  }

  lemma {:induction false} KeepMember(s: Store, f: Key -> bool, p: (Key, Value))
    ensures p in Keep(s, f) <==> p in s && f(p.0)
  {
    if s != [] {
      KeepMember(s[1..], f, p);
      assert s == [s[0]] + s[1..];
    }
  }

  lemma {:induction false} KeepSorted(s: Store, f: Key -> bool)
    requires Sorted(s)
    ensures Sorted(Keep(s, f))
  {
    if s != [] {
      KeepSorted(s[1..], f);
      var t := Keep(s[1..], f);
      forall j | 0 <= j < |t| ensures Less(s[0].0, t[j].0) {
        KeepMember(s[1..], f, t[j]);
        var i :| 0 <= i < |s[1..]| && s[1..][i] == t[j];
      }
    }
  }

  lemma {:induction false} KeepWellTyped(s: Store, f: Key -> bool)
    requires WellTyped(s)
    ensures WellTyped(Keep(s, f))
  {
    var t := Keep(s, f);
    forall j | 0 <= j < |t| ensures Fits(t[j].0, t[j].1) {
      KeepMember(s, f, t[j]);
    }
  }

  lemma {:induction false} GetKeep(s: Store, f: Key -> bool, k: Key)
    requires Sorted(s)
    ensures Get(Keep(s, f), k) == if f(k) then Get(s, k) else None
  {
    KeepSorted(s, f);
    var t := Keep(s, f);
    match Get(t, k)
    case Some(v) =>
      GetMember(t, k, v);
      KeepMember(s, f, (k, v));
      GetMember(s, k, v);
    case None =>
      if f(k) && Get(s, k).Some? {
        var v := Get(s, k).value;
        GetMember(s, k, v);
        KeepMember(s, f, (k, v));
        GetMember(t, k, v);
      }
  }

  lemma {:induction false} InsertKeys(s: Store, k: Key, v: Value, p: (Key, Value))
    requires p in Insert(s, k, v)
    ensures p == (k, v) || p in s
  {
    if s != [] && s[0].0 != k && !Less(k, s[0].0) {
      if p != s[0] {
        InsertKeys(s[1..], k, v, p);
      }
    }
  }

  lemma {:induction false} InsertSorted(s: Store, k: Key, v: Value)
    requires Sorted(s)
    ensures Sorted(Insert(s, k, v))
  {
    if s == [] {
    } else if s[0].0 == k {
    } else if Less(k, s[0].0) {
      forall j | 0 <= j < |s| ensures Less(k, s[j].0) {
        if j > 0 { LessTransitive(k, s[0].0, s[j].0); }
      }
    } else {
      InsertSorted(s[1..], k, v);
      LessTotal(k, s[0].0);
      var t := Insert(s[1..], k, v);
      forall j | 0 <= j < |t| ensures Less(s[0].0, t[j].0) {
        InsertKeys(s[1..], k, v, t[j]);
      }
    }
  }

  lemma {:induction false} InsertWellTyped(s: Store, k: Key, v: Value)
    requires WellTyped(s) && Fits(k, v)
    ensures WellTyped(Insert(s, k, v))
  {
    var t := Insert(s, k, v);
    forall j | 0 <= j < |t| ensures Fits(t[j].0, t[j].1) {
      InsertKeys(s, k, v, t[j]);
    }
  }

  lemma {:induction false} GetInsert(s: Store, k: Key, v: Value, j: Key)
    requires Sorted(s)
    ensures Get(Insert(s, k, v), j) == if j == k then Some(v) else Get(s, j)
  {
    if s != [] && s[0].0 != k && !Less(k, s[0].0) {
      GetInsert(s[1..], k, v, j);
    } else if s != [] && s[0].0 == k && j != k {
      assert Get(Insert(s, k, v), j) == Get(s[1..], j);
    } else if s != [] && Less(k, s[0].0) && j != k {
      assert Get(Insert(s, k, v), j) == Get(s, j);
    }
  }

  lemma {:induction false} ApplyOpFacts(s: Store, op: Op, k: Key)
    requires Sorted(s)
    ensures Sorted(ApplyOp(s, op))
    ensures Get(ApplyOp(s, op), k) == After([op], k, Get(s, k))
  {
    match op
    case Put(key, v) =>
      InsertSorted(s, key, v);
      GetInsert(s, key, v, k);
    case Delete(key) =>
      KeepSorted(s, j => j != key);
      GetKeep(s, j => j != key, k);
  }

  /** Committing a batch leaves the store sorted, and every key ends up with
    * the value the batch's last write to it gave, or its old value if the
    * batch never wrote it. */
  lemma {:induction false} ApplyGet(s: Store, ops: seq<Op>, k: Key)
    requires Sorted(s)
    ensures Sorted(Apply(s, ops))
    ensures Get(Apply(s, ops), k) == After(ops, k, Get(s, k))
    decreases |ops|
  {
    if ops != [] {
      ApplyOpFacts(s, ops[0], k);
      ApplyGet(ApplyOp(s, ops[0]), ops[1..], k);
    }
  }

  lemma {:induction false} ApplyWellTyped(s: Store, ops: seq<Op>)
    requires WellTyped(s) && OpsFit(ops)
    ensures WellTyped(Apply(s, ops))
    decreases |ops|
  {
    if ops != [] {
      if ops[0].Put? {
        InsertWellTyped(s, ops[0].key, ops[0].value);
      } else {
        KeepWellTyped(s, j => j != ops[0].key);
      }
      assert OpsFit(ops[1..]) by {
        forall i | 0 <= i < |ops[1..]| ensures ops[1..][i].Put? ==> Fits(ops[1..][i].key, ops[1..][i].value) {
          assert ops[1..][i] == ops[i + 1];
        }
      }
      ApplyWellTyped(ApplyOp(s, ops[0]), ops[1..]);
    }
  }

  lemma {:induction false} AfterAppend(a: seq<Op>, b: seq<Op>, k: Key, prior: Option<Value>)
    ensures After(a + b, k, prior) == After(b, k, After(a, k, prior))
    decreases |a|
  {
    if a != [] {
      assert (a + b)[0] == a[0] && (a + b)[1..] == a[1..] + b;
      var next := if a[0].key != k then prior else if a[0].Put? then Some(a[0].value) else None;
      AfterAppend(a[1..], b, k, next);
      calc {
        After(a + b, k, prior);
        After((a + b)[1..], k, next);
        { assert (a + b)[1..] == a[1..] + b; }
        After(a[1..] + b, k, next);
        After(b, k, After(a[1..], k, next));
        After(b, k, After(a, k, prior));
      }
    } else {
      assert a + b == b;
    }
  }

  /** A batch that never writes `k` leaves its value alone. */
  lemma {:induction false} AfterUntouched(ops: seq<Op>, k: Key, prior: Option<Value>)
    requires forall i | 0 <= i < |ops| :: ops[i].key != k
    ensures After(ops, k, prior) == prior
    decreases |ops|
  {
    if ops != [] {
      AfterUntouched(ops[1..], k, prior);
    }
  }

  /** Operations that leave key `k` alone. */
  predicate Untouched(ops: seq<Op>, k: Key) {
    forall i | 0 <= i < |ops| :: ops[i].key != k
  }

  /** Operations that leave `k` alone can be dropped from either end of a batch. */
  lemma SkipUntouched(a: seq<Op>, b: seq<Op>, k: Key, prior: Option<Value>)
    ensures Untouched(a, k) ==> After(a + b, k, prior) == After(b, k, prior)
    ensures Untouched(b, k) ==> After(a + b, k, prior) == After(a, k, prior)
  {
    AfterAppend(a, b, k, prior);
    if Untouched(a, k) {
      AfterUntouched(a, k, prior);
    }
    if Untouched(b, k) {
      AfterUntouched(b, k, After(a, k, prior));
    }
  }

  lemma OpsFitAppend(a: seq<Op>, b: seq<Op>)
    requires OpsFit(a) && OpsFit(b)
    ensures OpsFit(a + b)
  {
    forall i | 0 <= i < |a + b| && (a + b)[i].Put? ensures Fits((a + b)[i].key, (a + b)[i].value) {
      if i >= |a| {
        assert (a + b)[i] == b[i - |a|];
      }
    }
  }

  /** A range scan yields, in strictly ascending key order, exactly the pairs
    * stored between its two bounds. */
  lemma ScanFacts(s: Store, lo: Key, hi: Key)
    requires Sorted(s) && WellTyped(s)
    ensures Sorted(Scan(s, lo, hi)) && WellTyped(Scan(s, lo, hi))
    ensures forall p :: p in Scan(s, lo, hi) <==> Get(s, p.0) == Some(p.1) && LessEq(lo, p.0) && LessEq(p.0, hi)
  {
    var f := k => LessEq(lo, k) && LessEq(k, hi);
    KeepSorted(s, f);
    KeepWellTyped(s, f);
    forall p ensures p in Scan(s, lo, hi) <==> Get(s, p.0) == Some(p.1) && LessEq(lo, p.0) && LessEq(p.0, hi) {
      KeepMember(s, f, p);
      GetMember(s, p.0, p.1);
    }
  }

  /** The ranged delete removes the keys in [lo, hi) and nothing else. */
  lemma RemoveRangeFacts(s: Store, lo: Key, hi: Key, k: Key)
    requires Sorted(s) && WellTyped(s)
    ensures Sorted(RemoveRange(s, lo, hi)) && WellTyped(RemoveRange(s, lo, hi))
    ensures Get(RemoveRange(s, lo, hi), k) == if LessEq(lo, k) && Less(k, hi) then None else Get(s, k)
  {
    var f := j => !(LessEq(lo, j) && Less(j, hi));
    KeepSorted(s, f);
    KeepWellTyped(s, f);
    GetKeep(s, f, k);
  }

  /** A write batch (pebbleWriteBatch): an ordered list of staged mutations. */
  class WriteBatch {
    var ops: seq<Op>

    constructor ()
      ensures ops == []
    {
      ops := [];
    }

    method Put(k: Key, v: Value)
      modifies this
      ensures ops == old(ops) + [Op.Put(k, v)]
    {
      ops := ops + [Op.Put(k, v)];
    }

    method Delete(k: Key)
      modifies this
      ensures ops == old(ops) + [Op.Delete(k)]
    {
      ops := ops + [Op.Delete(k)];
    }

    method Append(staged: seq<Op>)
      modifies this
      ensures ops == old(ops) + staged
    {
      ops := ops + staged;
    }

    function Count(): nat
      reads this
    {
      |ops|
    }
  }

  /** One storage engine instance. Its I/O failures are modelled by two flags:
    * while `readFault` is set every read and scan fails, while `writeFault` is
    * set every commit and ranged delete fails and changes nothing. */
  class Engine {
    var data: Store
    var readFault: bool
    var writeFault: bool

    ghost predicate Valid()
      reads this
    {
      Sorted(data) && WellTyped(data)
    }

    /** An engine over the pairs already on disk. */
    constructor (stored: Store)
      requires Sorted(stored) && WellTyped(stored)
      ensures Valid() && data == stored && !readFault && !writeFault
    {
      data, readFault, writeFault := stored, false, false;
    }

    /** IterateValue(lo, hi, true, op): the pairs in [lo, hi] in key order. */
    method IterateValue(lo: Key, hi: Key) returns (r: Result<Store>)
      requires Valid()
      ensures r.Failure? <==> readFault
      ensures r.Success? ==> r.value == Scan(data, lo, hi)
      ensures r.Success? ==> Sorted(r.value) && WellTyped(r.value)
      ensures r.Success? ==> forall p :: p in r.value <==> Get(data, p.0) == Some(p.1) && LessEq(lo, p.0) && LessEq(p.0, hi)
      ensures !r.Abort?
    {
      if readFault {
        return Failure(ErrIO);
      }
      ScanFacts(data, lo, hi);
      return Success(Scan(data, lo, hi));
    }

    /** GetValue: the stored value of `k`, None when the key is absent. */
    method GetValue(k: Key) returns (r: Result<Option<Value>>)
      ensures r == if readFault then Failure(ErrIO) else Success(Get(data, k))
    {
      if readFault {
        return Failure(ErrIO);
      }
      return Success(Get(data, k));
    }

    /** CommitWriteBatch: applies the whole batch atomically, or nothing. */
    method CommitWriteBatch(wb: WriteBatch) returns (st: Status)
      requires Valid() && OpsFit(wb.ops)
      modifies this`data
      ensures Valid()
      ensures st == if old(writeFault) then Err(ErrIO) else Ok
      ensures data == if old(writeFault) then old(data) else Apply(old(data), wb.ops)
    {
      if writeFault {
        return Err(ErrIO);
      }
      ApplyGet(data, wb.ops, EntryKey(0, 0, 0));
      ApplyWellTyped(data, wb.ops);
      data := Apply(data, wb.ops);
      return Ok;
    }

    /** BulkRemoveEntries: deletes every key in [lo, hi). */
    method BulkRemoveEntries(lo: Key, hi: Key) returns (st: Status)
      requires Valid()
      modifies this`data
      ensures Valid()
      ensures st == if old(writeFault) then Err(ErrIO) else Ok
      ensures data == if old(writeFault) then old(data) else RemoveRange(old(data), lo, hi)
    {
      if writeFault {
        return Err(ErrIO);
      }
      RemoveRangeFacts(data, lo, hi, lo);
      data := RemoveRange(data, lo, hi);
      return Ok;
    }
  }
}
