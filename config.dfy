/** The log database's tuning configuration (pebble/config.go): the default,
  * the four memory presets, the memory estimate and the emptiness test. */
module Config {
  import opened Common

  /** The file system the engine runs on; only whether one is set matters here. */
  datatype FileSystem = DefaultFS | CustomFS(id: nat)

  datatype LogDBConfig = LogDBConfig(
    fs: Option<FileSystem>,
    shards: uint64,
    kvKeepLogFileNum: uint64,
    kvMaxBackgroundCompactions: uint64,
    kvMaxBackgroundFlushes: uint64,
    kvLRUCacheSize: uint64,
    kvWriteBufferSize: uint64,
    kvMaxWriteBufferNumber: uint64,
    kvLevel0FileNumCompactionTrigger: uint64,
    kvLevel0SlowdownWritesTrigger: uint64,
    kvLevel0StopWritesTrigger: uint64,
    kvMaxBytesForLevelBase: uint64,
    kvMaxBytesForLevelMultiplier: uint64,
    kvTargetFileSizeBase: uint64,
    kvTargetFileSizeMultiplier: uint64,
    kvLevelCompactionDynamicLevelBytes: uint64,
    kvRecycleLogFileNum: uint64,
    kvNumOfLevels: uint64,
    kvBlockSize: uint64,
    saveBufferSize: uint64,
    maxSaveBufferSize: uint64)

  const DefaultLogDBShards: uint64 := 16
  const KiB: uint64 := 1024
  const MiB: uint64 := 1024 * 1024
  /** 2^64: unsigned 64-bit arithmetic is taken modulo this. */
  const Modulus: int := MaxUint64 as int + 1

  /** The zero value of the configuration. */
  const EmptyConfig := LogDBConfig(None, 0, 0, 0, 0, 0, 0, 0, 0, 0, 0, 0, 0, 0, 0, 0, 0, 0, 0, 0, 0)

  /** getDefaultLogDBConfig */
  function DefaultConfig(): (cfg: LogDBConfig)
    ensures cfg.shards == DefaultLogDBShards && cfg.fs == Some(DefaultFS)
  {
    LogDBConfig(
      fs := Some(DefaultFS),
      shards := DefaultLogDBShards,
      kvKeepLogFileNum := 16,
      kvMaxBackgroundCompactions := 2,
      kvMaxBackgroundFlushes := 2,
      kvLRUCacheSize := 0,
      kvWriteBufferSize := 128 * MiB,
      kvMaxWriteBufferNumber := 4,
      kvLevel0FileNumCompactionTrigger := 8,
      kvLevel0SlowdownWritesTrigger := 17,
      kvLevel0StopWritesTrigger := 24,
      kvMaxBytesForLevelBase := 4 * 1024 * MiB,
      kvMaxBytesForLevelMultiplier := 2,
      kvTargetFileSizeBase := 16 * MiB,
      kvTargetFileSizeMultiplier := 2,
      kvLevelCompactionDynamicLevelBytes := 0,
      kvRecycleLogFileNum := 0,
      kvNumOfLevels := 7,
      kvBlockSize := 32 * KiB,
      saveBufferSize := 32 * KiB,
      maxSaveBufferSize := 64 * MiB)
  }

  /** The presets start from the default and set the two write-buffer fields. */
  function WithWriteBuffers(bufferSize: uint64, bufferNumber: uint64): (cfg: LogDBConfig)
    ensures cfg.kvWriteBufferSize == bufferSize && cfg.kvMaxWriteBufferNumber == bufferNumber
    ensures SameButWriteBuffers(cfg, DefaultConfig())
  {
    DefaultConfig().(kvWriteBufferSize := bufferSize, kvMaxWriteBufferNumber := bufferNumber)
  }

  /** Two configurations that agree on every field except possibly the two write-buffer fields. */
  predicate SameButWriteBuffers(a: LogDBConfig, b: LogDBConfig) {
    a.(kvWriteBufferSize := b.kvWriteBufferSize, kvMaxWriteBufferNumber := b.kvMaxWriteBufferNumber) == b
  }

  /** GetTinyMemLogDBConfig: the default with four 4 MiB write buffers,
    * estimated at 256 MiB. */
  function TinyMemConfig(): (cfg: LogDBConfig)
    ensures SameButWriteBuffers(cfg, DefaultConfig())
    ensures cfg.kvWriteBufferSize == 4 * MiB && cfg.kvMaxWriteBufferNumber == 4
    ensures MemorySizeMB(cfg) == 256
  {
    PresetMemorySize(4);
    WithWriteBuffers(4 * MiB, 4)
  }

  /** GetSmallMemLogDBConfig: the default with four 16 MiB write buffers,
    * estimated at 1 GiB. */
  function SmallMemConfig(): (cfg: LogDBConfig)
    ensures SameButWriteBuffers(cfg, DefaultConfig())
    ensures cfg.kvWriteBufferSize == 16 * MiB && cfg.kvMaxWriteBufferNumber == 4
    ensures MemorySizeMB(cfg) == 1024
  {
    PresetMemorySize(16);
    WithWriteBuffers(16 * MiB, 4)
  }

  /** GetMediumMemLogDBConfig: the default with four 64 MiB write buffers,
    * estimated at 4 GiB. */
  function MediumMemConfig(): (cfg: LogDBConfig)
    ensures SameButWriteBuffers(cfg, DefaultConfig())
    ensures cfg.kvWriteBufferSize == 64 * MiB && cfg.kvMaxWriteBufferNumber == 4
    ensures MemorySizeMB(cfg) == 4096
  {
    PresetMemorySize(64);
    WithWriteBuffers(64 * MiB, 4)
  }

  /** GetLargeMemLogDBConfig: the default itself, four 128 MiB write buffers
    * on 16 shards, estimated at 8 GiB. */
  function LargeMemConfig(): (cfg: LogDBConfig)
    ensures SameButWriteBuffers(cfg, DefaultConfig())
    ensures cfg.kvWriteBufferSize == 128 * MiB && cfg.kvMaxWriteBufferNumber == 4
    ensures cfg.shards == DefaultLogDBShards
    ensures MemorySizeMB(cfg) == 8192
  {
    PresetMemorySize(128);
    assert DefaultConfig() == WithWriteBuffers(128 * MiB, 4);
    DefaultConfig()
  }

  /** GetDefaultLogDBConfig: the large preset, estimated at 8 GiB. */
  function PublicDefaultConfig(): (cfg: LogDBConfig)
    ensures cfg == LargeMemConfig() && MemorySizeMB(cfg) == 8192
  {
    LargeMemConfig()
  }

  /** Unsigned 64-bit multiplication, wrapping around. */
  function MulUint64(a: uint64, b: uint64): (r: uint64)
    ensures a as int * b as int < Modulus ==> r as int == a as int * b as int
  {
    ((a as int * b as int) % Modulus) as uint64
  }

  /** MemorySizeMB: write-buffer size times buffer count times shards, in
    * MiB, computed in wrapping unsigned 64-bit arithmetic. */
  function MemorySizeMB(cfg: LogDBConfig): (r: uint64)
    ensures r as int
      == (cfg.kvWriteBufferSize as int * cfg.kvMaxWriteBufferNumber as int * cfg.shards as int) % Modulus / (1024 * 1024)
  {
    WrapTwice(cfg.kvWriteBufferSize as int * cfg.kvMaxWriteBufferNumber as int, cfg.shards as int);
    MulUint64(MulUint64(cfg.kvWriteBufferSize, cfg.kvMaxWriteBufferNumber), cfg.shards) / MiB
  }

  /** Wrapping after each multiplication is wrapping once at the end. */
  lemma WrapTwice(x: int, c: int)
    ensures (x % Modulus * c) % Modulus == (x * c) % Modulus
  {
    var q, y := x / Modulus, x % Modulus;
    assert x * c == (q * c) * Modulus + y * c;
    MultipleVanishes(q * c, y * c);
  }

  lemma MultipleVanishes(q: int, y: int)
    ensures (q * Modulus + y) % Modulus == y % Modulus
  {
    var z := y % Modulus;
    assert y == (y / Modulus) * Modulus + z;
    assert q * Modulus + y == (q + y / Modulus) * Modulus + z;
  }

  /** Without overflow the estimate is the exact product, in whole MiB. */
  lemma MemorySizeExact(cfg: LogDBConfig)
    requires cfg.kvWriteBufferSize as int * cfg.kvMaxWriteBufferNumber as int * cfg.shards as int < Modulus
    ensures MemorySizeMB(cfg) as int
      == cfg.kvWriteBufferSize as int * cfg.kvMaxWriteBufferNumber as int * cfg.shards as int / (1024 * 1024)
  {
    var ss := cfg.kvWriteBufferSize as int * cfg.kvMaxWriteBufferNumber as int;
    if cfg.shards > 0 {
      assert ss <= ss * cfg.shards as int;
      assert MulUint64(cfg.kvWriteBufferSize, cfg.kvMaxWriteBufferNumber) as int == ss;
    } else {
      assert ss * cfg.shards as int == 0;
      assert MulUint64(MulUint64(cfg.kvWriteBufferSize, cfg.kvMaxWriteBufferNumber), 0) == 0;
    }
  }

  /** A preset of the default shape with `n`-MiB write buffers, four of them,
    * estimates 64 * n MiB. */
  lemma PresetMemorySize(n: uint64)
    requires 0 < n <= 1024
    ensures MemorySizeMB(WithWriteBuffers(n * MiB, 4)) as int == 64 * n as int
  {
    var cfg := WithWriteBuffers(n * MiB, 4);
    assert cfg.kvWriteBufferSize as int * 4 * 16 == n as int * (1024 * 1024) * 64;
    MemorySizeExact(cfg);
  }

  /** The estimate wraps: write buffers of 2^32 bytes, 2^32 of them, on one
    * shard, estimate 0 MiB. */
  lemma MemorySizeWraps()
    ensures var cfg := DefaultConfig().(kvWriteBufferSize := 0x1_0000_0000, kvMaxWriteBufferNumber := 0x1_0000_0000, shards := 1);
      MemorySizeMB(cfg) == 0
  {
    assert 0x1_0000_0000 * 0x1_0000_0000 == Modulus;
  }

  /** IsEmpty: the configuration equals the zero value, no file system included. */
  function IsEmpty(cfg: LogDBConfig): (b: bool)
    ensures b ==> MemorySizeMB(cfg) == 0 && cfg.fs.None?
  {
    cfg == EmptyConfig
  }

  /** A configuration is empty exactly when it has no file system and every
    * numeric field is zero; none of the presets is empty. */
  lemma IsEmptyFacts(cfg: LogDBConfig)
    ensures IsEmpty(cfg) <==> (
      && cfg.fs.None? && cfg.shards == 0 && cfg.kvKeepLogFileNum == 0
      && cfg.kvMaxBackgroundCompactions == 0 && cfg.kvMaxBackgroundFlushes == 0 && cfg.kvLRUCacheSize == 0
      && cfg.kvWriteBufferSize == 0 && cfg.kvMaxWriteBufferNumber == 0
      && cfg.kvLevel0FileNumCompactionTrigger == 0 && cfg.kvLevel0SlowdownWritesTrigger == 0
      && cfg.kvLevel0StopWritesTrigger == 0 && cfg.kvMaxBytesForLevelBase == 0
      && cfg.kvMaxBytesForLevelMultiplier == 0 && cfg.kvTargetFileSizeBase == 0
      && cfg.kvTargetFileSizeMultiplier == 0 && cfg.kvLevelCompactionDynamicLevelBytes == 0
      && cfg.kvRecycleLogFileNum == 0 && cfg.kvNumOfLevels == 0 && cfg.kvBlockSize == 0
      && cfg.saveBufferSize == 0 && cfg.maxSaveBufferSize == 0)
    ensures !IsEmpty(DefaultConfig()) && !IsEmpty(TinyMemConfig()) && !IsEmpty(SmallMemConfig()) && !IsEmpty(MediumMemConfig())
  {
  }
}
