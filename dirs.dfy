/** Directory validation and expansion when the sharded log database is
  * created (pebble/logdb.go): one regular directory (and optionally one
  * low-latency directory) is shared by every shard; several directories must
  * be one per shard. */
module LogDBDirs {
  import opened Common

  /** checkDirs: which directory lists are refused, and with which panic. */
  function CheckDirs(numOfShards: uint64, dirs: seq<string>, lldirs: seq<string>): (st: Status)
    ensures !st.Err?
  {
    if |dirs| == 1 then
      if |lldirs| != 0 && |lldirs| != 1 then Panic(TooManyLowLatencyDirs) else Ok
    else if |dirs| > 1 then
      if |dirs| != numOfShards as int then Panic(ShardCountMismatch)
      else if |lldirs| > 0 && |dirs| != |lldirs| then Panic(LowLatencyDirCountMismatch)
      else Ok
    else Panic(NoRegularDir)
  }

  /** The accepted directory lists: a single regular directory with at most one
    * low-latency directory, or one regular directory per shard with either no
    * low-latency directory or one per regular directory. */
  lemma CheckDirsAccepts(numOfShards: uint64, dirs: seq<string>, lldirs: seq<string>)
    ensures CheckDirs(numOfShards, dirs, lldirs) == Ok <==>
      || (|dirs| == 1 && |lldirs| <= 1)
      || (|dirs| > 1 && |dirs| == numOfShards as int && (|lldirs| == 0 || |lldirs| == |dirs|))
    ensures |dirs| == 0 ==> CheckDirs(numOfShards, dirs, lldirs) == Panic(NoRegularDir)
  {
  }

  /** `count` copies of `d`. */
  function Copies(d: string, count: nat): (r: seq<string>)
    ensures |r| == count && forall i | 0 <= i < count :: r[i] == d
  {
    seq(count, _ => d)
  }

  /** NewLogDB's expansion: a single regular directory is repeated once per
    * shard (at least once), and a single low-latency directory alongside it;
    * every other input is passed on unchanged. */
  function ExpandedDirs(shards: uint64, dirs: seq<string>, lldirs: seq<string>): (r: (seq<string>, seq<string>))
    ensures forall d | d in r.0 :: d in dirs
    ensures forall d | d in r.1 :: d in lldirs
    ensures |dirs| == 1 ==> |r.0| == (if shards == 0 then 1 else shards as int)
    ensures |dirs| == 1 && |lldirs| == 1 ==> |r.1| == |r.0|
    ensures |dirs| != 1 || |lldirs| != 1 ==> r.1 == lldirs
    ensures |dirs| != 1 ==> r.0 == dirs
  {
    if |dirs| == 1 then
      var count := if shards == 0 then 1 else shards as int;
      (Copies(dirs[0], count), if |lldirs| == 1 then Copies(lldirs[0], count) else lldirs)
    else (dirs, lldirs)
  }

  /** NewLogDB up to opening the shards: check the lists, then expand them. */
  method ShardDirs(shards: uint64, dirs: seq<string>, lldirs: seq<string>)
    returns (st: Status, expanded: seq<string>, llExpanded: seq<string>)
    ensures st == CheckDirs(shards, dirs, lldirs)
    ensures st == Ok ==> (expanded, llExpanded) == ExpandedDirs(shards, dirs, lldirs)
  {
    st := CheckDirs(shards, dirs, lldirs);
    if st != Ok {
      return st, dirs, lldirs;
    }
    expanded, llExpanded := dirs, lldirs;
    var llDirRequired := |lldirs| == 1;
    if |dirs| == 1 {
      var i: uint64 := 1;
      while i < shards
        invariant 1 <= i as int <= if shards == 0 then 1 else shards as int
        invariant expanded == Copies(dirs[0], i as int)
        invariant llExpanded == if llDirRequired then Copies(lldirs[0], i as int) else lldirs
      {
        expanded := expanded + [dirs[0]];
        if llDirRequired {
          llExpanded := llExpanded + [lldirs[0]];
        }
        i := i + 1;
      }
      assert i as int == if shards == 0 then 1 else shards as int;
    }
  }

  /** With at least one shard and accepted lists, there is one regular
    * directory per shard and either no low-latency directory or one per
    * shard; a single regular directory is shared by all shards. */
  lemma ExpandedDirsLengths(shards: uint64, dirs: seq<string>, lldirs: seq<string>)
    requires shards >= 1 && CheckDirs(shards, dirs, lldirs) == Ok
    ensures var (d, ll) := ExpandedDirs(shards, dirs, lldirs);
      && |d| == shards as int
      && (|ll| == 0 || |ll| == shards as int)
      && (|dirs| == 1 ==> forall i | 0 <= i < |d| :: d[i] == dirs[0])
      && (|dirs| > 1 ==> d == dirs && ll == lldirs)
  {
    CheckDirsAccepts(shards, dirs, lldirs);
  }
}
