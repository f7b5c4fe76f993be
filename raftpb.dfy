/** The consensus engine's record types that the log database stores. Their
  * serialised form is opaque here: a record is stored as the datatype value. */
module RaftPb {
  import opened Common

  datatype StateMachineType =
    | UnknownStateMachine
    | RegularStateMachine
    | ConcurrentStateMachine
    | OnDiskStateMachine

  /** The persistent consensus state of one replica. */
  datatype State = State(term: uint64, vote: uint64, commit: uint64)

  datatype Entry = Entry(index: uint64, term: uint64, cmd: seq<byte>)

  /** Snapshot metadata; the fields the log database never looks at are kept
    * only as far as they make two snapshots distinguishable. */
  datatype Snapshot = Snapshot(
    index: uint64,
    term: uint64,
    smType: StateMachineType,
    clusterId: uint64,
    filepath: string,
    fileSize: uint64)

  datatype Bootstrap = Bootstrap(addresses: map<uint64, string>, join: bool, smType: StateMachineType)

  /** What one replica asks the log database to persist. */
  datatype Update = Update(
    clusterId: uint64,
    nodeId: uint64,
    state: State,
    snapshot: Snapshot,
    entriesToSave: seq<Entry>)

  /** raftio.NodeInfo: the identity of one replica. */
  datatype NodeInfo = NodeInfo(clusterId: uint64, nodeId: uint64)

  /** The zero value `pb.Snapshot{}`. */
  const EmptySnapshot: Snapshot := Snapshot(0, 0, UnknownStateMachine, 0, "", 0)

  /** pb.IsEmptyState: term, vote and commit are all zero. */
  predicate IsEmptyState(st: State) {
    st.term == 0 && st.vote == 0 && st.commit == 0
  }

  /** pb.IsEmptySnapshot: a snapshot at index 0 is no snapshot. */
  predicate IsEmptySnapshot(ss: Snapshot) {
    ss.index == 0
  }
}
