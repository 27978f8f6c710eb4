/**
  The connection record as the generic stores and their handle layer see it:
  the same state history, a socket that is always present (address 0 meaning
  "unset") and an 8-bit server index. Only its getters and setters are used,
  so each is a plain field access.
 */
module StoredRecords {
  import opened Ints
  import opened Tcp
  import SH = StateHistory

  datatype StoredRecord = StoredRecord(
    log: SH.StateLog,
    port: uint16,
    sock: Sock,
    uid: uint64,
    payloadPackets: nat,
    serverIndex: uint8,
    releaseCause: ReleaseCause)

  predicate Valid(r: StoredRecord) {
    SH.Valid(r.log)
  }

  /** A default record: empty history, unset socket. */
  function Blank(): (r: StoredRecord)
    ensures Valid(r) && r.log.stateCount == 0 && r.sock.0 == 0
  {
    StoredRecord(SH.NewLog(), 0, (0, 0), 0, 0, 0, Unknown)
  }
}
