/** The engine with the RRC table of doc_of_central_unit/planning.md. */
module FsmRrc {
  import opened Fsm
  import opened FsmConcurrency
  import opened FsmTheorems
  import opened FsmTrace

  const IDLE: StateType := "Idle"
  const CONNECTED: StateType := "Connected"
  const INACTIVE: StateType := "ConnectedInactive"
  const RELEASING: StateType := "Releasing"

  const RRC_TABLE: Table := map[
    Tuple(IDLE, "PowerOn") := IDLE,
    Tuple(IDLE, "AttachRRCConnect") := CONNECTED,
    Tuple(CONNECTED, "DetachRRCRelease") := RELEASING,
    Tuple(CONNECTED, "ConnectionFailure") := IDLE,
    Tuple(CONNECTED, "InactivityTimerExpiry") := INACTIVE,
    Tuple(CONNECTED, "ReestablishmentRequest") := CONNECTED,
    Tuple(INACTIVE, "ResumeRequest") := CONNECTED,
    Tuple(INACTIVE, "ReestablishmentRequest") := CONNECTED,
    Tuple(INACTIVE, "DetachRRCRelease") := RELEASING,
    Tuple(INACTIVE, "ConnectionFailure") := IDLE,
    Tuple(RELEASING, "DetachRRCRelease") := IDLE,
    Tuple(RELEASING, "ConnectionFailure") := IDLE]

  /** The connection was set up at block k and not lost since. */
  ghost predicate AttachedAt(bs: seq<Block>, k: nat) {
    && k < |bs|
    && bs[k].Edge? && bs[k].from == IDLE && bs[k].ev.evType == "AttachRRCConnect" && bs[k].to == CONNECTED
    && (forall j :: k < j < |bs| && bs[j].Edge? ==> bs[j].to != IDLE)
  }

  lemma LeavesIdle(fsm: Fsm, ev: EventData, to: StateType)
    requires fsm.transitions == RRC_TABLE && IsEdge(fsm, ev, IDLE, to) && to != IDLE
    ensures ev.evType == "AttachRRCConnect" && to == CONNECTED
  {}

  lemma {:induction false} AttachedOnPath(fsm: Fsm, bs: seq<Block>, e: StateType) returns (k: nat)
    requires fsm.transitions == RRC_TABLE && IsPath(fsm, IDLE, bs, e) && e != IDLE
    ensures AttachedAt(bs, k)
  {
    var n := |bs| - 1;
    match bs[n]
    case Generic(_) =>
      k := AttachedOnPath(fsm, bs[..n], e);
    case Edge(from, ev, to) =>
      if from == IDLE {
        LeavesIdle(fsm, ev, to);
        k := n;
      } else {
        k := AttachedOnPath(fsm, bs[..n], from);
      }
  }

  /** At every moment of every run with this table, whatever the callbacks do and however
      the events are scheduled: a UE that is not idle has been attached, and nothing took
      it back to idle since.  The blocks are those of the callback trace. */
  lemma NotIdleMeansAttached(fsm: Fsm, info: Info, acts: seq<Action>) returns (bs: seq<Block>, k: nat)
    requires fsm.transitions == RRC_TABLE
    ensures var sys := Exec(fsm, Boot(Start(IDLE, info)), acts);
      && LockInv(sys)
      && Grown(fsm, IDLE, bs, sys.mem, HolderPc(sys))
      && (sys.mem.current != IDLE ==> AttachedAt(bs, k))
  {
    bs := AlwaysGrown(fsm, IDLE, info, acts);
    k := 0;
    var sys := Exec(fsm, Boot(Start(IDLE, info)), acts);
    if sys.mem.current != IDLE {
      k := AttachedOnPath(fsm, bs, sys.mem.current);
    }
  }
}
