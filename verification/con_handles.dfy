/**
  Connection handles over the non-wrapping record store. A handle is a slot
  number; the store it refers to is passed explicitly. Every operation looks
  up the record at the handle's slot (faulting on `unwrap` unless the slot is
  live), reads it or writes an updated copy back, and leaves every other slot
  as it was.
 */
module ConHandles {
  import opened Wrappers
  import opened Ints
  import opened Tcp
  import SH = StateHistory
  import CR = ConRecords
  import SlotStore

  type Store = SlotStore.RecordStore<CR.ConRecord>

  /** The handle's slot is live and its record well formed. */
  predicate Live(st: Store, h: nat) {
    SlotStore.Valid(st) && h < SlotStore.Len(st) && CR.Valid(st.store[h])
  }

  /** The record behind a live handle (`get(con_rec()).unwrap()`). */
  function Record(st: Store, h: nat): (r: CR.ConRecord)
    requires Live(st, h)
    ensures SlotStore.Get(st, h) == Some(r)
  {
    SlotStore.Get(st, h).value
  }

  /** `st'` differs from `st` at most in the record at slot `h`; the records past `len()` are as they were. */
  ghost predicate OnlyAt(st: Store, st': Store, h: nat)
    requires SlotStore.Valid(st)
  {
    && SlotStore.Valid(st')
    && SlotStore.Len(st') == SlotStore.Len(st)
    && SlotStore.Capacity(st') == SlotStore.Capacity(st)
    && (forall other :: other != h ==> SlotStore.Get(st', other) == SlotStore.Get(st, other))
    && st'.store[SlotStore.Len(st)..] == st.store[SlotStore.Len(st)..]
  }

  /** Writes `r` back at the handle's slot (`get_mut(con_rec()).unwrap()`). */
  function Write(st: Store, h: nat, r: CR.ConRecord): (st': Store)
    requires SlotStore.Valid(st) && h < SlotStore.Len(st)
    ensures OnlyAt(st, st', h)
    ensures SlotStore.Get(st', h) == Some(r)
  {
    SlotStore.Put(st, h, r)
  }

  function Port(st: Store, h: nat): uint16
    requires Live(st, h)
  {
    Record(st, h).port
  }

  function ServerIndex(st: Store, h: nat): usize
    requires Live(st, h)
  {
    Record(st, h).serverIndex
  }

  function PayloadPackets(st: Store, h: nat): usize
    requires Live(st, h)
  {
    Record(st, h).payloadPackets
  }

  function LastState(st: Store, h: nat): TcpState
    requires Live(st, h) && Record(st, h).log.stateCount >= 1
  {
    CR.LastState(Record(st, h))
  }

  function States(st: Store, h: nat): seq<TcpState>
    requires Live(st, h)
  {
    CR.States(Record(st, h))
  }

  function GetDutSock(st: Store, h: nat): Option<Sock>
    requires Live(st, h)
  {
    Record(st, h).sock
  }

  function GetUid(st: Store, h: nat): uint64
    requires Live(st, h)
  {
    CR.Uid(Record(st, h))
  }

  /** Appends a state to the handle's record at cycle `now`. */
  function PushState(st: Store, h: nat, s: TcpState, now: uint64): (st': Store)
    requires Live(st, h) && SH.PushAllowed(Record(st, h).log, now)
    ensures OnlyAt(st, st', h) && Live(st', h)
    ensures States(st', h) == States(st, h) + [s]
    ensures LastState(st', h) == s
    ensures Record(st', h) == Record(st, h).(log := Record(st', h).log)
  {
    Write(st, h, CR.PushState(Record(st, h), s, now))
  }

  /** Records the transition to `Established`. */
  function ConEstablished(st: Store, h: nat, now: uint64): (st': Store)
    requires Live(st, h) && SH.PushAllowed(Record(st, h).log, now)
    ensures OnlyAt(st, st', h) && Live(st', h)
    ensures States(st', h) == States(st, h) + [Established]
  {
    PushState(st, h, Established, now)
  }

  /** Records the transition to `SynSent` on the server side. */
  function ServerSynSent(st: Store, h: nat, now: uint64): (st': Store)
    requires Live(st, h) && SH.PushAllowed(Record(st, h).log, now)
    ensures OnlyAt(st, st', h) && Live(st', h)
    ensures States(st', h) == States(st, h) + [SynSent]
  {
    PushState(st, h, SynSent, now)
  }

  function SetServerIndex(st: Store, h: nat, index: usize): (st': Store)
    requires Live(st, h)
    ensures OnlyAt(st, st', h) && Live(st', h)
    ensures ServerIndex(st', h) == index
    ensures Record(st', h) == Record(st, h).(serverIndex := index)
  {
    Write(st, h, Record(st, h).(serverIndex := index))
  }

  /** Counts one more payload packet; the `usize` counter must not be at its maximum. */
  function IncrementPayloadPackets(st: Store, h: nat): (st': Store)
    requires Live(st, h) && PayloadPackets(st, h) < TWO_TO_THE_64 - 1
    ensures OnlyAt(st, st', h) && Live(st', h)
    ensures PayloadPackets(st', h) == PayloadPackets(st, h) + 1
    ensures Record(st', h) == Record(st, h).(payloadPackets := PayloadPackets(st', h))
  {
    var r := Record(st, h);
    Write(st, h, r.(payloadPackets := r.payloadPackets + 1))
  }

  function Released(st: Store, h: nat, cause: ReleaseCause): (st': Store)
    requires Live(st, h)
    ensures OnlyAt(st, st', h) && Live(st', h)
    ensures CR.GetReleaseCause(Record(st', h)) == cause
    ensures Record(st', h) == Record(st, h).(releaseCause := cause)
  {
    Write(st, h, CR.Released(Record(st, h), cause))
  }

  function SetPort(st: Store, h: nat, port: uint16): (st': Store)
    requires Live(st, h)
    ensures OnlyAt(st, st', h) && Live(st', h)
    ensures Port(st', h) == port
    ensures Record(st', h) == Record(st, h).(port := port)
  {
    Write(st, h, Record(st, h).(port := port))
  }

  /** Stores the socket of the device under test; it reads back as present. */
  function SetDutSock(st: Store, h: nat, sock: Sock): (st': Store)
    requires Live(st, h)
    ensures OnlyAt(st, st', h) && Live(st', h)
    ensures GetDutSock(st', h) == Some(sock)
    ensures Record(st', h) == Record(st, h).(sock := Some(sock))
  {
    Write(st, h, Record(st, h).(sock := Some(sock)))
  }

  function SetUid(st: Store, h: nat, uid: uint64): (st': Store)
    requires Live(st, h)
    ensures OnlyAt(st, st', h) && Live(st', h)
    ensures GetUid(st', h) == uid
    ensures Record(st', h) == Record(st, h).(uid := uid)
  {
    Write(st, h, CR.SetUid(Record(st, h), uid))
  }

  /**
    Two handles on different slots do not see each other's writes: an update
    through one leaves every getter of the other unchanged.
   */
  lemma {:induction false} DistinctHandlesIndependent(st: Store, h: nat, g: nat, port: uint16)
    requires Live(st, h) && Live(st, g) && h != g
    ensures Live(SetPort(st, h, port), g)
    ensures Record(SetPort(st, h, port), g) == Record(st, g)
  {
    var st' := SetPort(st, h, port);
    assert SlotStore.Get(st', g) == SlotStore.Get(st, g);
  }
}
