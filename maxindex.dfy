/** The max-index record of a replica: written as 8 big-endian bytes by
  * saveMaxIndex (pebble/db.go:263-281) and read cache-first by getMaxIndex
  * (pebble/db.go:386-404). */
module MaxIndexRecords {
  import opened Common
  import opened Keys
  import opened RaftPb
  import opened KV
  import opened BigEndian
  import opened ReplicaCache

  /** The value saveMaxIndex stores. */
  function MaxIndexValue(index: uint64): Value {
    Raw(PutUint64(index))
  }

  lemma {:induction false} GetFits(s: Store, k: Key)
    requires WellTyped(s) && Get(s, k).Some?
    ensures Fits(k, Get(s, k).value)
  {
    if s[0].0 != k {
      assert WellTyped(s[1..]) by {
        forall i | 0 <= i < |s[1..]| ensures Fits(s[1..][i].0, s[1..][i].1) {
          assert s[1..][i] == s[i + 1];
        }
      }
      GetFits(s[1..], k);
    }
  }

  /** getMaxIndex: the cached value when there is one; otherwise the stored
    * value decoded big-endian, with a missing or empty value reported as
    * ErrNoSavedLog and a value shorter than 8 bytes making the decoder panic. */
  function MaxIndexLookup(cache: CacheView, store: Store, readFault: bool, c: uint64, n: uint64): Result<uint64>
    requires WellTyped(store)
  {
    if NodeInfo(c, n) in cache.maxIndex then Success(cache.maxIndex[NodeInfo(c, n)])
    else if readFault then Failure(ErrIO)
    else match Get(store, MaxIndexKey(c, n))
      case None => Failure(ErrNoSavedLog)
      case Some(v) =>
        GetFits(store, MaxIndexKey(c, n));
        if |v.bytes| == 0 then Failure(ErrNoSavedLog)
        else if |v.bytes| < 8 then Abort(ShortValue)
        else Success(Uint64(v.bytes))
  }

  /** Whether a stored max-index value records `index`; a removed replica
    * has a cached 0 and no stored value. */
  predicate StoredAs(v: Option<Value>, index: uint64) {
    v == Some(MaxIndexValue(index)) || (index == 0 && v == None)
  }

  /** Every max index in the cache is the one the store holds for that replica. */
  predicate CacheAgrees(cache: CacheView, store: Store) {
    forall id | id in cache.maxIndex :: StoredAs(Get(store, MaxIndexKey(id.clusterId, id.nodeId)), cache.maxIndex[id])
  }

  /** Save-then-read: with nothing cached, the value saveMaxIndex wrote reads
    * back as the same uint64, including 0. */
  lemma MaxIndexRoundTrip(cache: CacheView, store: Store, c: uint64, n: uint64, index: uint64)
    requires WellTyped(store)
    requires NodeInfo(c, n) !in cache.maxIndex
    requires Get(store, MaxIndexKey(c, n)) == Some(MaxIndexValue(index))
    ensures MaxIndexLookup(cache, store, false, c, n) == Success(index)
  {
    Uint64PutUint64(index);
  }

  /** With nothing cached and nothing stored, the lookup reports ErrNoSavedLog. */
  lemma MaxIndexMissing(cache: CacheView, store: Store, c: uint64, n: uint64)
    requires WellTyped(store)
    requires NodeInfo(c, n) !in cache.maxIndex
    requires Get(store, MaxIndexKey(c, n)) == None
    ensures MaxIndexLookup(cache, store, false, c, n) == Failure(ErrNoSavedLog)
  {
  }

  /** While the cache agrees with the store, the cache-first lookup returns what
    * reading the store would, except that a replica whose data was removed
    * reads as 0 from the cache but as ErrNoSavedLog from the store. */
  lemma CachedLookupMatchesStore(cache: CacheView, store: Store, c: uint64, n: uint64)
    requires WellTyped(store) && CacheAgrees(cache, store)
    requires NodeInfo(c, n) in cache.maxIndex
    ensures var cold := cache.(maxIndex := cache.maxIndex - {NodeInfo(c, n)});
      var cached := MaxIndexLookup(cache, store, false, c, n);
      cached.Success? &&
      MaxIndexLookup(cold, store, false, c, n)
        == if Get(store, MaxIndexKey(c, n)) == None then Failure(ErrNoSavedLog) else cached
  {
    var id := NodeInfo(c, n);
    var cold := cache.(maxIndex := cache.maxIndex - {id});
    assert StoredAs(Get(store, MaxIndexKey(c, n)), cache.maxIndex[id]);
    if Get(store, MaxIndexKey(c, n)) != None {
      MaxIndexRoundTrip(cold, store, c, n, cache.maxIndex[id]);
    }
  }
}
