/**
  The dual-array store: connection records in one array, caller-defined
  payloads of type `T` in a parallel array, one slot number for both.
 */
module DualStore {
  import opened Wrappers
  import Sorting
  import SlotStore
  import opened StoredRecords

  datatype Store64<T> = Store64(store0: seq<StoredRecord>, store1: seq<T>, usedSlots: nat)

  /** Both arrays have the same capacity and hold the live prefix. */
  predicate Valid<T>(s: Store64<T>) {
    |s.store0| == |s.store1| && s.usedSlots <= |s.store0|
  }

  function Len<T>(s: Store64<T>): nat {
    s.usedSlots
  }

  function WithCapacity<T>(capacity: nat, blank: T): (s: Store64<T>)
    ensures Valid(s) && |s.store0| == capacity && Len(s) == 0
    ensures forall slot :: Get(s, slot).None? && Get1(s, slot).None?
    ensures forall i :: 0 <= i < capacity ==> s.store0[i] == Blank() && s.store1[i] == blank
  {
    Store64(seq(capacity, _ => Blank()), seq(capacity, _ => blank), 0)
  }

  /**
    Allocation as written: the guard `used >= store_0.len() || used <
    store_1.len()` holds for every count when the arrays are equally long, so
    every call restarts at slot 0.
   */
  function GetUnusedSlotAsWritten<T>(s: Store64<T>): (r: (Store64<T>, nat))
    ensures r.0.store0 == s.store0 && r.0.store1 == s.store1
  {
    var used := if s.usedSlots >= |s.store0| || s.usedSlots < |s.store1| then 0 else s.usedSlots;
    (s.(usedSlots := used + 1), used)
  }

  /** Every as-written allocation returns slot 0 and leaves exactly one live slot. */
  lemma AsWrittenAlwaysRestarts<T>(s: Store64<T>)
    requires |s.store0| == |s.store1|
    ensures GetUnusedSlotAsWritten(s).1 == 0
    ensures Len(GetUnusedSlotAsWritten(s).0) == 1
  {
  }

  /**
    A concrete witness: on a fresh store of capacity 2 the second allocation
    should return slot 1 but returns slot 0 again, so two connections share
    one record.
   */
  lemma AsWrittenReusesSlotZero()
    ensures var s := WithCapacity(2, 0);
            var (s1, a) := GetUnusedSlotAsWritten(s);
            var (s2, b) := GetUnusedSlotAsWritten(s1);
            a == 0 && b == 0 && Len(s2) == 1
  {
  }

  /** Allocation as intended: wrap only when either array is exhausted. */
  function GetUnusedSlot<T>(s: Store64<T>): (r: (Store64<T>, nat))
    ensures r.0.store0 == s.store0 && r.0.store1 == s.store1
    ensures s.usedSlots < |s.store0| && s.usedSlots < |s.store1| ==>
              r.1 == s.usedSlots && Len(r.0) == s.usedSlots + 1
    ensures s.usedSlots >= |s.store0| || s.usedSlots >= |s.store1| ==> r.1 == 0 && Len(r.0) == 1
    ensures Valid(s) && |s.store0| > 0 ==> Valid(r.0)
  {
    var used := if s.usedSlots >= |s.store0| || s.usedSlots >= |s.store1| then 0 else s.usedSlots;
    (s.(usedSlots := used + 1), used)
  }

  /** The record array with the shared count, as a single-array store. */
  function Records<T>(s: Store64<T>): SlotStore.RecordStore<StoredRecord> {
    SlotStore.RecordStore(s.store0, s.usedSlots)
  }

  /** The corrected allocation advances the record array exactly as the single-array wrapping store does. */
  lemma GetUnusedSlotMatchesSingleStore<T>(s: Store64<T>)
    requires |s.store0| == |s.store1|
    ensures Records(GetUnusedSlot(s).0) == SlotStore.GetUnusedSlotWrapping(Records(s)).0
    ensures GetUnusedSlot(s).1 == SlotStore.GetUnusedSlotWrapping(Records(s)).1
  {
  }

  function ClaimMany<T>(s: Store64<T>, n: nat): (r: (Store64<T>, seq<nat>))
    ensures |r.1| == n && r.0.store0 == s.store0 && r.0.store1 == s.store1
    decreases n
  {
    if n == 0 then (s, [])
    else
      var (s1, slot) := GetUnusedSlot(s);
      var (s2, slots) := ClaimMany(s1, n - 1);
      (s2, [slot] + slots)
  }

  lemma {:induction false} ClaimManyMatchesSingleStore<T>(s: Store64<T>, n: nat)
    requires |s.store0| == |s.store1|
    ensures Records(ClaimMany(s, n).0) == SlotStore.ClaimWrapping(Records(s), n).0
    ensures ClaimMany(s, n).1 == SlotStore.ClaimWrapping(Records(s), n).1
    decreases n
  {
    if n > 0 {
      GetUnusedSlotMatchesSingleStore(s);
      ClaimManyMatchesSingleStore(GetUnusedSlot(s).0, n - 1);
    }
  }

  /**
    With the corrected guard, a fresh store of capacity N >= 1 hands out
    0..N-1, and the (N+1)-th allocation wraps to slot 0 with `len() == 1`.
   */
  lemma FreshStoreWraps<T>(capacity: nat, blank: T)
    requires capacity >= 1
    ensures var (full, slots) := ClaimMany(WithCapacity(capacity, blank), capacity);
            && slots == SlotStore.Range(0, capacity) && Len(full) == capacity
            && GetUnusedSlot(full).1 == 0 && Len(GetUnusedSlot(full).0) == 1
  {
    var s := WithCapacity(capacity, blank);
    ClaimManyMatchesSingleStore(s, capacity);
    SlotStore.FreshStoreWraps(capacity, Blank());
    assert Records(s) == SlotStore.WithCapacity(capacity, Blank());
  }

  /** The record at a live slot (`get`, `get_mut`). */
  function Get<T>(s: Store64<T>, slot: nat): (r: Option<StoredRecord>)
    requires Valid(s)
    ensures r.Some? <==> slot < Len(s)
    ensures r == SlotStore.Get(Records(s), slot)
  {
    if slot < s.usedSlots then Some(s.store0[slot]) else None
  }

  /** The payload at a live slot (`get_1`, `get_mut_1`); same bound as `Get`. */
  function Get1<T>(s: Store64<T>, slot: nat): (r: Option<T>)
    requires Valid(s)
    ensures r.Some? <==> Get(s, slot).Some?
  {
    if slot < s.usedSlots then Some(s.store1[slot]) else None
  }

  function Iter0<T>(s: Store64<T>): (r: seq<StoredRecord>)
    requires Valid(s)
    ensures |r| == Len(s) && forall i :: 0 <= i < |r| ==> Get(s, i) == Some(r[i])
  {
    s.store0[0..s.usedSlots]
  }

  function Iter1<T>(s: Store64<T>): (r: seq<T>)
    requires Valid(s)
    ensures |r| == Len(s) && forall i :: 0 <= i < |r| ==> Get1(s, i) == Some(r[i])
  {
    s.store1[0..s.usedSlots]
  }

  /** Overwrites the live record at `slot`. */
  function Put<T>(s: Store64<T>, slot: nat, v: StoredRecord): (s': Store64<T>)
    requires Valid(s) && slot < Len(s)
    ensures Valid(s') && Len(s') == Len(s) && s'.store1 == s.store1
    ensures Get(s', slot) == Some(v)
    ensures forall other :: other != slot ==> Get(s', other) == Get(s, other)
    ensures s'.store0[Len(s)..] == s.store0[Len(s)..]
  {
    s.(store0 := s.store0[slot := v])
  }

  /** Overwrites the live payload at `slot`. */
  function Put1<T>(s: Store64<T>, slot: nat, v: T): (s': Store64<T>)
    requires Valid(s) && slot < Len(s)
    ensures Valid(s') && Len(s') == Len(s) && s'.store0 == s.store0
    ensures Get1(s', slot) == Some(v)
    ensures forall other :: other != slot ==> Get1(s', other) == Get1(s, other)
    ensures s'.store1[Len(s)..] == s.store1[Len(s)..]
  {
    s.(store1 := s.store1[slot := v])
  }

  /** Sorts the live records only; the payload array is left entirely as it was. */
  function Sort0By<T>(s: Store64<T>, cmp: (StoredRecord, StoredRecord) -> Sorting.Ordering): (s': Store64<T>)
    requires Valid(s)
    ensures Valid(s') && Len(s') == Len(s)
    ensures multiset(Iter0(s')) == multiset(Iter0(s))
    ensures s'.store0[Len(s)..] == s.store0[Len(s)..]
    ensures s'.store1 == s.store1
  {
    var sorted := SlotStore.SortBy(Records(s), cmp);
    s.(store0 := sorted.store)
  }

  /** With a total comparator the live records come out in comparator order. */
  lemma Sort0ByOrders<T>(s: Store64<T>, cmp: (StoredRecord, StoredRecord) -> Sorting.Ordering)
    requires Valid(s) && Sorting.Total(cmp)
    ensures Sorting.Sorted(cmp, Iter0(Sort0By(s, cmp)))
  {
    SlotStore.SortByOrders(Records(s), cmp);
    assert Iter0(Sort0By(s, cmp)) == SlotStore.Iter(SlotStore.SortBy(Records(s), cmp));
  }

  /** Orders records by local port. */
  function ByPort(a: StoredRecord, b: StoredRecord): Sorting.Ordering {
    if a.port < b.port then Sorting.Less
    else if a.port == b.port then Sorting.Equal
    else Sorting.Greater
  }

  /**
    Sorting the records does not move their payloads, so a record and the
    payload that shared its slot can end up in different slots: here the
    record of port 1 moves to slot 0 while slot 0 keeps the payload of the
    port-2 record.
   */
  lemma Sort0BySplitsPairs()
    ensures var s := Store64([Blank().(port := 2), Blank().(port := 1)], [20, 10], 2);
            var s' := Sort0By(s, ByPort);
            Get(s', 0) == Some(Blank().(port := 1)) && Get1(s', 0) == Some(20)
  {
    var r0 := Blank().(port := 2);
    var r1 := Blank().(port := 1);
    assert [r0, r1][1..] == [r1];
    assert [r1][1..] == [];
    assert Sorting.SortBy(ByPort, [r1]) == [r1];
    assert Sorting.Insert(ByPort, r0, [r1]) == [r1, r0];
    assert Sorting.SortBy(ByPort, [r0, r1]) == [r1, r0];
  }
}
