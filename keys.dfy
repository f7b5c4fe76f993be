/** The key space of one log database shard. Each record kind has its own
  * partition; within a partition keys are ordered by cluster, node and index,
  * because the codec writes every component as a fixed-width big-endian integer. */
module Keys {
  import opened Common

  datatype Key =
    | EntryKey(cluster: uint64, node: uint64, index: uint64)
    | StateKey(cluster: uint64, node: uint64)
    | MaxIndexKey(cluster: uint64, node: uint64)
    | SnapshotKey(cluster: uint64, node: uint64, index: uint64)
    | BootstrapKey(cluster: uint64, node: uint64)

  /** Position of the key's partition in the key space. */
  function Kind(k: Key): nat {
    match k
    case EntryKey(_, _, _) => 0
    case StateKey(_, _) => 1
    case MaxIndexKey(_, _) => 2
    case SnapshotKey(_, _, _) => 3
    case BootstrapKey(_, _) => 4
  }

  /** The index component; the fixed kinds carry none. */
  function IndexOf(k: Key): uint64 {
    if k.EntryKey? || k.SnapshotKey? then k.index else 0
  }

  /** The byte order of encoded keys: kind, then cluster, node and index. */
  predicate Less(a: Key, b: Key) {
    || Kind(a) < Kind(b)
    || (Kind(a) == Kind(b) && a.cluster < b.cluster)
    || (Kind(a) == Kind(b) && a.cluster == b.cluster && a.node < b.node)
    || (Kind(a) == Kind(b) && a.cluster == b.cluster && a.node == b.node && IndexOf(a) < IndexOf(b))
  }

  predicate LessEq(a: Key, b: Key) {
    a == b || Less(a, b)
  }

  lemma LessIrreflexive(a: Key)
    ensures !Less(a, a)
  {
  }

  lemma LessTransitive(a: Key, b: Key, c: Key)
    requires Less(a, b) && Less(b, c)
    ensures Less(a, c)
  {
  }

  /** Two keys that agree on every component are the same key: the order is total. */
  lemma LessTotal(a: Key, b: Key)
    ensures a == b || Less(a, b) || Less(b, a)
  {
  }

  /** The keys between SnapshotKey(c, n, 0) and SnapshotKey(c, n, hi), both included,
    * are exactly the snapshot keys of replica (c, n) with index at most hi. */
  lemma SnapshotRange(k: Key, c: uint64, n: uint64, hi: uint64)
    ensures LessEq(SnapshotKey(c, n, 0), k) && LessEq(k, SnapshotKey(c, n, hi))
        <==> k.SnapshotKey? && k.cluster == c && k.node == n && k.index <= hi
  {
  }

  /** The keys between BootstrapKey(0, 0) and BootstrapKey(MaxUint64, MaxUint64)
    * are exactly the bootstrap keys. */
  lemma BootstrapRange(k: Key)
    ensures LessEq(BootstrapKey(0, 0), k) && LessEq(k, BootstrapKey(MaxUint64, MaxUint64))
        <==> k.BootstrapKey?
  {
  }

  /** The keys between EntryKey(0, 0, 0) and EntryKey(MaxUint64, MaxUint64, MaxUint64)
    * are exactly the entry keys. */
  lemma EntryRange(k: Key)
    ensures LessEq(EntryKey(0, 0, 0), k) && LessEq(k, EntryKey(MaxUint64, MaxUint64, MaxUint64))
        <==> k.EntryKey?
  {
  }

  /** A range between two entry keys of one replica holds entry keys of that replica only. */
  lemma ReplicaEntryRange(lo: Key, hi: Key, k: Key, c: uint64, n: uint64)
    requires lo.EntryKey? && lo.cluster == c && lo.node == n
    requires hi.EntryKey? && hi.cluster == c && hi.node == n
    requires LessEq(lo, k) && Less(k, hi)
    ensures k.EntryKey? && k.cluster == c && k.node == n
  {
  }

  /** Whether a key belongs to replica (c, n). */
  predicate OfReplica(k: Key, c: uint64, n: uint64) {
    k.cluster == c && k.node == n
  }
}
