/**
  Connection handles over any store that can look up a record by slot: the
  single-array store of records and the dual-array store (the two
  implementations of the simple-store interface). Operations read or write
  the record at the handle's slot through that interface and touch nothing
  else.
 */
module StoreHandles {
  import opened Wrappers
  import opened Ints
  import opened Tcp
  import SH = StateHistory
  import opened StoredRecords
  import SlotStore
  import DualStore

  datatype AnyStore<T> =
    | Single(single: SlotStore.RecordStore<StoredRecord>)
    | Dual(dual: DualStore.Store64<T>)

  predicate Valid<T>(st: AnyStore<T>) {
    match st
    case Single(s) => SlotStore.Valid(s)
    case Dual(d) => DualStore.Valid(d)
  }

  function Len<T>(st: AnyStore<T>): nat {
    match st
    case Single(s) => SlotStore.Len(s)
    case Dual(d) => DualStore.Len(d)
  }

  /** The interface's `get`/`get_mut`: the record at a live slot. */
  function SimpleGet<T>(st: AnyStore<T>, slot: nat): (r: Option<StoredRecord>)
    requires Valid(st)
    ensures r.Some? <==> slot < Len(st)
  {
    match st
    case Single(s) => if slot < s.usedSlots then Some(s.store[slot]) else None
    case Dual(d) => if slot < d.usedSlots then Some(d.store0[slot]) else None
  }

  /** The interface implementations agree with each store's own `get`. */
  lemma SimpleGetAgreesWithStores<T>(st: AnyStore<T>, slot: nat)
    requires Valid(st)
    ensures st.Single? ==> SimpleGet(st, slot) == SlotStore.Get(st.single, slot)
    ensures st.Dual? ==> SimpleGet(st, slot) == DualStore.Get(st.dual, slot)
  {
  }

  /** Writes a record at a live slot through `get_mut`; a dual store keeps its payloads. */
  function SimplePut<T>(st: AnyStore<T>, slot: nat, r: StoredRecord): (st': AnyStore<T>)
    requires Valid(st) && slot < Len(st)
    ensures OnlyAt(st, st', slot)
    ensures SimpleGet(st', slot) == Some(r)
  {
    match st
    case Single(s) => Single(SlotStore.Put(s, slot, r))
    case Dual(d) => Dual(DualStore.Put(d, slot, r))
  }

  /**
    `st'` is the same kind of store as `st` and differs at most in the record
    at `h`: the records past `len()` and a dual store's payloads are as they were.
   */
  ghost predicate OnlyAt<T>(st: AnyStore<T>, st': AnyStore<T>, h: nat)
    requires Valid(st)
  {
    && st'.Single? == st.Single?
    && Valid(st')
    && Len(st') == Len(st)
    && (forall other :: other != h ==> SimpleGet(st', other) == SimpleGet(st, other))
    && (st.Single? ==> st'.single.store[Len(st)..] == st.single.store[Len(st)..])
    && (st.Dual? ==> st'.dual.store0[Len(st)..] == st.dual.store0[Len(st)..])
    && (st.Dual? ==> st'.dual.store1 == st.dual.store1)
  }

  predicate Live<T>(st: AnyStore<T>, h: nat) {
    Valid(st) && h < Len(st) && StoredRecords.Valid(SimpleGet(st, h).value)
  }

  function Record<T>(st: AnyStore<T>, h: nat): (r: StoredRecord)
    requires Live(st, h)
    ensures SimpleGet(st, h) == Some(r)
  {
    SimpleGet(st, h).value
  }

  function Port<T>(st: AnyStore<T>, h: nat): uint16
    requires Live(st, h)
  {
    Record(st, h).port
  }

  /** The 8-bit server index, widened to `usize`. */
  function ServerIndex<T>(st: AnyStore<T>, h: nat): usize
    requires Live(st, h)
  {
    Record(st, h).serverIndex
  }

  function PayloadPackets<T>(st: AnyStore<T>, h: nat): nat
    requires Live(st, h)
  {
    Record(st, h).payloadPackets
  }

  function LastState<T>(st: AnyStore<T>, h: nat): TcpState
    requires Live(st, h) && Record(st, h).log.stateCount >= 1
  {
    SH.LastState(Record(st, h).log)
  }

  function States<T>(st: AnyStore<T>, h: nat): seq<TcpState>
    requires Live(st, h)
  {
    SH.States(Record(st, h).log)
  }

  /** The remote socket, absent while its address is 0. */
  function Sock<T>(st: AnyStore<T>, h: nat): (r: Option<Sock>)
    requires Live(st, h)
    ensures r.None? <==> Record(st, h).sock.0 == 0
    ensures r.Some? ==> r.value == Record(st, h).sock
  {
    var s := Record(st, h).sock;
    if s.0 != 0 then Some(s) else None
  }

  function GetUid<T>(st: AnyStore<T>, h: nat): uint64
    requires Live(st, h)
  {
    Record(st, h).uid
  }

  function PushState<T>(st: AnyStore<T>, h: nat, s: TcpState, now: uint64): (st': AnyStore<T>)
    requires Live(st, h) && SH.PushAllowed(Record(st, h).log, now)
    ensures OnlyAt(st, st', h) && Live(st', h)
    ensures States(st', h) == States(st, h) + [s]
    ensures LastState(st', h) == s
    ensures Record(st', h) == Record(st, h).(log := Record(st', h).log)
  {
    var r := Record(st, h);
    SimplePut(st, h, r.(log := SH.PushState(r.log, s, now)))
  }

  function ConEstablished<T>(st: AnyStore<T>, h: nat, now: uint64): (st': AnyStore<T>)
    requires Live(st, h) && SH.PushAllowed(Record(st, h).log, now)
    ensures OnlyAt(st, st', h) && Live(st', h)
    ensures States(st', h) == States(st, h) + [Established]
  {
    PushState(st, h, Established, now)
  }

  function ServerSynSent<T>(st: AnyStore<T>, h: nat, now: uint64): (st': AnyStore<T>)
    requires Live(st, h) && SH.PushAllowed(Record(st, h).log, now)
    ensures OnlyAt(st, st', h) && Live(st', h)
    ensures States(st', h) == States(st, h) + [SynSent]
  {
    PushState(st, h, SynSent, now)
  }

  /** Stores the index truncated to 8 bits (`as u8`), so it reads back modulo 256. */
  function SetServerIndex<T>(st: AnyStore<T>, h: nat, index: usize): (st': AnyStore<T>)
    requires Live(st, h)
    ensures OnlyAt(st, st', h) && Live(st', h)
    ensures ServerIndex(st', h) == index % 256
    ensures index < 256 ==> ServerIndex(st', h) == index
    ensures Record(st', h) == Record(st, h).(serverIndex := ServerIndex(st', h))
  {
    Write(st, h, Record(st, h).(serverIndex := index % TWO_TO_THE_8))
  }

  /** Counts one more payload packet and returns the new count. */
  function IncrementPayloadPackets<T>(st: AnyStore<T>, h: nat): (r: (AnyStore<T>, nat))
    requires Live(st, h)
    ensures OnlyAt(st, r.0, h) && Live(r.0, h)
    ensures r.1 == PayloadPackets(r.0, h) == PayloadPackets(st, h) + 1
    ensures Record(r.0, h) == Record(st, h).(payloadPackets := r.1)
  {
    var rec := Record(st, h);
    var count := rec.payloadPackets + 1;
    (Write(st, h, rec.(payloadPackets := count)), count)
  }

  function SetReleaseCause<T>(st: AnyStore<T>, h: nat, cause: ReleaseCause): (st': AnyStore<T>)
    requires Live(st, h)
    ensures OnlyAt(st, st', h) && Live(st', h)
    ensures Record(st', h).releaseCause == cause
    ensures Record(st', h) == Record(st, h).(releaseCause := cause)
  {
    Write(st, h, Record(st, h).(releaseCause := cause))
  }

  function SetPort<T>(st: AnyStore<T>, h: nat, port: uint16): (st': AnyStore<T>)
    requires Live(st, h)
    ensures OnlyAt(st, st', h) && Live(st', h)
    ensures Port(st', h) == port
    ensures Record(st', h) == Record(st, h).(port := port)
  {
    Write(st, h, Record(st, h).(port := port))
  }

  /** Stores a socket; it reads back as present exactly when its address is not 0. */
  function SetSock<T>(st: AnyStore<T>, h: nat, sock: Sock): (st': AnyStore<T>)
    requires Live(st, h)
    ensures OnlyAt(st, st', h) && Live(st', h)
    ensures Sock(st', h) == if sock.0 == 0 then None else Some(sock)
    ensures Record(st', h) == Record(st, h).(sock := sock)
  {
    Write(st, h, Record(st, h).(sock := sock))
  }

  function SetUid<T>(st: AnyStore<T>, h: nat, uid: uint64): (st': AnyStore<T>)
    requires Live(st, h)
    ensures OnlyAt(st, st', h) && Live(st', h)
    ensures GetUid(st', h) == uid
    ensures Record(st', h) == Record(st, h).(uid := uid)
  {
    Write(st, h, Record(st, h).(uid := uid))
  }

  function Write<T>(st: AnyStore<T>, h: nat, r: StoredRecord): (st': AnyStore<T>)
    requires Live(st, h) && StoredRecords.Valid(r)
    ensures OnlyAt(st, st', h) && Live(st', h) && Record(st', h) == r
  {
    SimplePut(st, h, r)
  }

  /**
    A handle whose slot was given up by a wrap no longer reaches a record once
    the slot is past the new `len()`; a stale slot below it reaches whatever
    record now lives there.
   */
  lemma StaleHandleAfterWrap<T>(s: SlotStore.RecordStore<StoredRecord>, h: nat)
    requires SlotStore.Valid(s) && SlotStore.Capacity(s) >= 1 && SlotStore.Len(s) == SlotStore.Capacity(s)
    ensures var wrapped: AnyStore<T> := Single(SlotStore.GetUnusedSlotWrapping(s).0);
            && (h >= 1 ==> SimpleGet(wrapped, h).None?)
            && (h == 0 ==> SimpleGet(wrapped, h) == Some(s.store[0]))
  {
  }
}
