/** Integer widths, optional values and the error outcomes shared by every module. */
module Common {

  const MaxUint64: int := 0xFFFF_FFFF_FFFF_FFFF

  /** Go's uint64, as an unbounded integer kept inside its range. */
  type uint64 = x: int | 0 <= x <= MaxUint64

  type byte = x: int | 0 <= x < 256

  datatype Option<+T> = None | Some(value: T)

  /** The error values the log database returns to its caller. */
  datatype Error =
    | ErrNoSavedLog   // raftio.ErrNoSavedLog: nothing stored for the replica
    | ErrIO           // a failure reported by the storage engine

  /** Why a call panics (Go `panic` / `plog.Panicf`): the process stops. */
  datatype PanicReason =
    | MaxIndexNotHandled    // a snapshot beyond the last entry of the same update
    | UnknownSnapshotType   // importing a snapshot of unknown state-machine type
    | ShortValue            // big-endian decoding of fewer than 8 bytes
    | TooManyLowLatencyDirs
    | ShardCountMismatch
    | LowLatencyDirCountMismatch
    | NoRegularDir

  /** The outcome of a call that returns only an `error` (or panics). */
  datatype Status = Ok | Err(error: Error) | Panic(reason: PanicReason)

  /** The outcome of a call that returns a value and an `error` (or panics). */
  datatype Result<+T> = Success(value: T) | Failure(error: Error) | Abort(reason: PanicReason)
}
