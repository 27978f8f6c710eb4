/**
  The compact per-connection record: role, local port, remote socket, flow
  correlation id, payload counter, server index, release cause and the state
  history. The hardware cycle counter read by `init` (client uid) and
  `push_state` is the parameter `now`.
 */
module ConRecords {
  import opened Wrappers
  import opened Ints
  import opened Tcp
  import SH = StateHistory

  datatype ConRecord = ConRecord(
    log: SH.StateLog,
    role: TcpRole,
    port: uint16,
    sock: Option<Sock>,
    uid: uint64,
    payloadPackets: usize,
    serverIndex: usize,
    releaseCause: ReleaseCause)

  predicate Valid(r: ConRecord) {
    SH.Valid(r.log)
  }

  /** The default record the stores are pre-filled with: no states yet. */
  function New(): (r: ConRecord)
    ensures Valid(r)
    ensures States(r) == [] && r.log.stateCount == 0
    ensures r.role == Client && r.sock.None? && r.releaseCause == Unknown
    ensures GetFirstStamp(r).None? && GetLastStamp(r).None?
  {
    ConRecord(SH.NewLog(), Client, 0, None, 0, 0, 0, Unknown)
  }

  /**
    Re-initialises a record for a newly admitted connection. A client gets the
    current cycle count as uid; a server gets 0 (it later takes the uid of the
    associated client connection). The release cause and the delta array are
    not touched.
   */
  function Init(r: ConRecord, role: TcpRole, port: uint16, sock: Option<Sock>, now: uint64): (r': ConRecord)
    requires Valid(r)
    ensures Valid(r')
    ensures r'.log.stateCount == 1
    ensures States(r') == [if role == Client then Closed else Listen]
    ensures r'.payloadPackets == 0 && r'.serverIndex == 0 && r'.log.baseStamp == 0
    ensures r'.uid == (if role == Client then now else 0)
    ensures r'.role == role && r'.port == port && r'.sock == sock
    ensures r'.releaseCause == r.releaseCause && r'.log.stamps == r.log.stamps
    ensures GetFirstStamp(r').None? && GetLastStamp(r').None?
  {
    ConRecord(
      SH.InitLog(r.log, role), role, port, sock,
      if role == Client then now else 0,
      0, 0, r.releaseCause)
  }

  function Released(r: ConRecord, cause: ReleaseCause): (r': ConRecord)
    ensures GetReleaseCause(r') == cause
    ensures r' == r.(releaseCause := cause)
  {
    r.(releaseCause := cause)
  }

  function GetReleaseCause(r: ConRecord): ReleaseCause {
    r.releaseCause
  }

  /** Appends a state, stamping it with the cycle count `now`. */
  function PushState(r: ConRecord, s: TcpState, now: uint64): (r': ConRecord)
    requires Valid(r) && SH.PushAllowed(r.log, now)
    ensures Valid(r')
    ensures States(r') == States(r) + [s]
    ensures LastState(r') == s
    ensures GetFirstStamp(r') == Some(if r.log.stateCount == 1 then now else r.log.baseStamp)
    ensures r' == r.(log := r'.log)
  {
    r.(log := SH.PushState(r.log, s, now))
  }

  function LastState(r: ConRecord): (s: TcpState)
    requires Valid(r) && r.log.stateCount >= 1
    ensures s == States(r)[|States(r)| - 1]
  {
    SH.LastState(r.log)
  }

  function GetLastStamp(r: ConRecord): Option<uint64>
    requires Valid(r)
  {
    SH.GetLastStamp(r.log)
  }

  function GetFirstStamp(r: ConRecord): Option<uint64> {
    SH.GetFirstStamp(r.log)
  }

  function States(r: ConRecord): seq<TcpState>
    requires Valid(r)
  {
    SH.States(r.log)
  }

  function Uid(r: ConRecord): uint64 {
    r.uid
  }

  function SetUid(r: ConRecord, uid: uint64): (r': ConRecord)
    ensures Uid(r') == uid
    ensures r' == r.(uid := uid)
  {
    r.(uid := uid)
  }

  function DeltasSinceSynsentOrSynrecv(r: ConRecord): seq<uint32>
    requires Valid(r)
  {
    SH.Deltas(r.log)
  }

  /**
    A record initialised at some point and then given the pushes `ps` (at most
    seven, the clock never behind the first push): its states are the role's
    starting state followed by the pushed states, its first stamp is the time
    of the first push and its last stamp is never before the first.
   */
  lemma {:induction false} InitThenPushes(r: ConRecord, role: TcpRole, port: uint16, sock: Option<Sock>, now: uint64, ps: seq<SH.Push>)
    requires Valid(r) && |ps| <= 7
    requires forall i :: 0 <= i < |ps| ==> ps[i].at >= ps[0].at
    ensures var r0 := Init(r, role, port, sock, now);
            && SH.Replayable(r0.log, ps)
            && var r1 := r0.(log := SH.Replay(r0.log, ps));
            && States(r1) == [StartState(role)] + SH.StatesOf(ps)
            && GetFirstStamp(r1) == (if ps == [] then None else Some(ps[0].at))
            && (ps != [] ==> ps[0].at <= GetLastStamp(r1).value)
  {
    var r0 := Init(r, role, port, sock, now);
    assert SH.Origin(r0.log, ps) == if ps == [] then 0 else ps[0].at;
    SH.HistoryAfterInit(r0.log, ps);
  }
}
