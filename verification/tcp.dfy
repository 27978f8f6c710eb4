/**
  The TCP vocabulary the connection records store: roles, protocol states and
  release causes. The states are kept in the records as `u16` codes; the
  encoding below is a closed, total mapping with a partial inverse.
 */
module Tcp {
  import opened Wrappers
  import opened Ints

  datatype TcpRole = Client | Server

  datatype TcpState =
    | Closed
    | Listen
    | SynSent
    | SynReceived
    | Established
    | FinWait
    | Closing
    | LastAck
    | TimeWait

  /** Why a connection was torn down; only `Unknown` is fixed, the rest is a code. */
  datatype ReleaseCause = Unknown | Cause(code: uint16)

  /** The state a freshly initialised record of a role starts in. */
  function StartState(role: TcpRole): TcpState {
    if role == Client then Closed else Listen
  }

  /** The `u16` code of a state, as stored in a record's state array. */
  function Code(s: TcpState): (c: uint16)
    ensures c < 9
    ensures Decode(c) == Some(s)
  {
    match s
    case Closed => 0
    case Listen => 1
    case SynSent => 2
    case SynReceived => 3
    case Established => 4
    case FinWait => 5
    case Closing => 6
    case LastAck => 7
    case TimeWait => 8
  }

  /** The state a code stands for, if any. */
  function Decode(c: uint16): (r: Option<TcpState>)
    ensures r.Some? <==> c < 9
  {
    if c == 0 then Some(Closed)
    else if c == 1 then Some(Listen)
    else if c == 2 then Some(SynSent)
    else if c == 3 then Some(SynReceived)
    else if c == 4 then Some(Established)
    else if c == 5 then Some(FinWait)
    else if c == 6 then Some(Closing)
    else if c == 7 then Some(LastAck)
    else if c == 8 then Some(TimeWait)
    else None
  }

  predicate IsCode(c: uint16) {
    Decode(c).Some?
  }

  /** Decoding a valid code and re-encoding the state gives the code back. */
  lemma DecodeThenCode(c: uint16)
    requires IsCode(c)
    ensures Code(Decode(c).value) == c
  {
  }

  /** Distinct states have distinct codes, so a stored code determines its state. */
  lemma CodeInjective(s: TcpState, t: TcpState)
    ensures Code(s) == Code(t) <==> s == t
  {
  }
}
