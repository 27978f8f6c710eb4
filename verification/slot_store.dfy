/**
  The single-array record store: `capacity` pre-filled records, of which the
  first `usedSlots` are live. Two allocation policies exist: the store next to
  the record definition refuses to allocate past its capacity (an assertion),
  the generic store wraps back to slot 0 and reuses the records from there.
  `get_mut` followed by an in-place write is modelled by `Put`.
 */
module SlotStore {
  import opened Wrappers
  import Sorting

  datatype RecordStore<T> = RecordStore(store: seq<T>, usedSlots: nat)

  /** The live prefix lies within the array. */
  predicate Valid<T>(s: RecordStore<T>) {
    s.usedSlots <= |s.store|
  }

  function Capacity<T>(s: RecordStore<T>): nat {
    |s.store|
  }

  function Len<T>(s: RecordStore<T>): nat {
    s.usedSlots
  }

  /** A store of `capacity` copies of the default record, none of them live. */
  function WithCapacity<T>(capacity: nat, blank: T): (s: RecordStore<T>)
    ensures Valid(s) && Capacity(s) == capacity && Len(s) == 0
    ensures forall i :: 0 <= i < capacity ==> s.store[i] == blank
    ensures forall slot :: Get(s, slot).None?
  {
    RecordStore(seq(capacity, _ => blank), 0)
  }

  /** The record at a slot, if the slot is live (`get` and `get_mut`). */
  function Get<T>(s: RecordStore<T>, slot: nat): (r: Option<T>)
    requires Valid(s)
    ensures r.Some? <==> slot < Len(s)
  {
    if slot < s.usedSlots then Some(s.store[slot]) else None
  }

  /** The live records in slot order. */
  function Iter<T>(s: RecordStore<T>): (r: seq<T>)
    requires Valid(s)
    ensures |r| == Len(s)
    ensures forall i :: 0 <= i < |r| ==> Get(s, i) == Some(r[i])
  {
    s.store[0..s.usedSlots]
  }

  /** Overwrites the live record at `slot`; `get_mut(slot).unwrap()` faults otherwise. */
  function Put<T>(s: RecordStore<T>, slot: nat, v: T): (s': RecordStore<T>)
    requires Valid(s) && slot < Len(s)
    ensures Valid(s') && Len(s') == Len(s) && Capacity(s') == Capacity(s)
    ensures Get(s', slot) == Some(v)
    ensures forall other :: other != slot ==> Get(s', other) == Get(s, other)
    ensures s'.store[Len(s)..] == s.store[Len(s)..]
  {
    s.(store := s.store[slot := v])
  }

  /** Sorts the live prefix with `cmp`; records past it stay where they are. */
  function SortBy<T>(s: RecordStore<T>, cmp: (T, T) -> Sorting.Ordering): (s': RecordStore<T>)
    requires Valid(s)
    ensures Valid(s') && Len(s') == Len(s) && Capacity(s') == Capacity(s)
    ensures multiset(Iter(s')) == multiset(Iter(s))
    ensures s'.store[Len(s)..] == s.store[Len(s)..]
  {
    var sorted := Sorting.SortBy(cmp, s.store[0..s.usedSlots]);
    assert (sorted + s.store[s.usedSlots..])[0..s.usedSlots] == sorted;
    s.(store := sorted + s.store[s.usedSlots..])
  }

  lemma SortByOrders<T(!new)>(s: RecordStore<T>, cmp: (T, T) -> Sorting.Ordering)
    requires Valid(s) && Sorting.Total(cmp)
    ensures Sorting.Sorted(cmp, Iter(SortBy(s, cmp)))
  {
    var sorted := Sorting.SortBy(cmp, s.store[0..s.usedSlots]);
    Sorting.SortBySorted(cmp, s.store[0..s.usedSlots]);
    assert Iter(SortBy(s, cmp)) == sorted;
  }

  /** Non-wrapping allocation: asserts that a record is free and hands out the next slot. */
  function GetUnusedSlot<T>(s: RecordStore<T>): (r: (RecordStore<T>, nat))
    requires s.usedSlots < |s.store|
    ensures Valid(r.0) && r.0.store == s.store
    ensures r.1 == Len(s) && Len(r.0) == Len(s) + 1
    ensures Get(r.0, r.1).Some?
  {
    (s.(usedSlots := s.usedSlots + 1), s.usedSlots)
  }

  /**
    Wrapping allocation: once every record has been handed out, starts over
    at slot 0, giving up all live slots but the new one.
   */
  function GetUnusedSlotWrapping<T>(s: RecordStore<T>): (r: (RecordStore<T>, nat))
    ensures r.0.store == s.store
    ensures s.usedSlots < |s.store| ==> r.1 == s.usedSlots && Len(r.0) == s.usedSlots + 1
    ensures s.usedSlots >= |s.store| ==> r.1 == 0 && Len(r.0) == 1
    ensures Valid(s) && Capacity(s) > 0 ==> Valid(r.0)
  {
    var used := if s.usedSlots >= |s.store| then 0 else s.usedSlots;
    (s.(usedSlots := used + 1), used)
  }

  /** `len() <= capacity` holds after every wrapping allocation from a valid store of positive capacity. */
  lemma WrappingKeepsLenWithinCapacity<T>(s: RecordStore<T>)
    requires Valid(s) && Capacity(s) >= 1
    ensures Len(GetUnusedSlotWrapping(s).0) <= Capacity(s)
    ensures Get(GetUnusedSlotWrapping(s).0, GetUnusedSlotWrapping(s).1).Some?
  {
  }

  /**
    With capacity 0 the wrapping store hands out slot 0 over an empty array:
    `len()` becomes 1, past the capacity, so a following `get(0)` would index
    out of bounds. Capacity must be positive.
   */
  lemma ZeroCapacityOverruns<T>(s: RecordStore<T>)
    requires Capacity(s) == 0
    ensures GetUnusedSlotWrapping(s).1 == 0
    ensures !Valid(GetUnusedSlotWrapping(s).0)
  {
  }

  /** The slots `from, from + 1, ..., from + n - 1`. */
  function Range(from: nat, n: nat): (r: seq<nat>)
    ensures |r| == n && forall i :: 0 <= i < n ==> r[i] == from + i
  {
    seq(n, i requires 0 <= i < n => from + i)
  }

  /** `n` wrapping allocations in a row: the final store and the slots handed out. */
  function ClaimWrapping<T>(s: RecordStore<T>, n: nat): (r: (RecordStore<T>, seq<nat>))
    ensures |r.1| == n && r.0.store == s.store
    decreases n
  {
    if n == 0 then (s, [])
    else
      var (s1, slot) := GetUnusedSlotWrapping(s);
      var (s2, slots) := ClaimWrapping(s1, n - 1);
      (s2, [slot] + slots)
  }

  /** `n` non-wrapping allocations in a row. */
  function Claim<T>(s: RecordStore<T>, n: nat): (r: (RecordStore<T>, seq<nat>))
    requires s.usedSlots + n <= |s.store|
    ensures |r.1| == n && r.0.store == s.store
    decreases n
  {
    if n == 0 then (s, [])
    else
      var (s1, slot) := GetUnusedSlot(s);
      var (s2, slots) := Claim(s1, n - 1);
      (s2, [slot] + slots)
  }

  /** Non-wrapping allocations hand out consecutive slots and `len()` counts them. */
  lemma {:induction false} ClaimConsecutive<T>(s: RecordStore<T>, n: nat)
    requires s.usedSlots + n <= |s.store|
    ensures Claim(s, n) == (s.(usedSlots := s.usedSlots + n), Range(s.usedSlots, n))
    decreases n
  {
    if n > 0 {
      var (s1, slot) := GetUnusedSlot(s);
      ClaimConsecutive(s1, n - 1);
      assert [slot] + Range(s1.usedSlots, n - 1) == Range(s.usedSlots, n);
    }
  }

  /** Before the array is full, wrapping allocation behaves like non-wrapping allocation. */
  lemma {:induction false} WrappingAgreesBeforeFull<T>(s: RecordStore<T>, n: nat)
    requires s.usedSlots + n <= |s.store|
    ensures ClaimWrapping(s, n) == Claim(s, n)
    decreases n
  {
    if n > 0 {
      WrappingAgreesBeforeFull(GetUnusedSlot(s).0, n - 1);
    }
  }

  /**
    On a fresh store of capacity N >= 1, N allocations return 0..N-1 and leave
    `len() == N`; the next one wraps, returns 0 and leaves `len() == 1`, after
    which slot 0 names the reused first record and every older slot is gone.
   */
  lemma FreshStoreWraps<T>(capacity: nat, blank: T)
    requires capacity >= 1
    ensures var s := WithCapacity(capacity, blank);
            var (full, slots) := ClaimWrapping(s, capacity);
            && slots == Range(0, capacity) && Len(full) == capacity
            && var (wrapped, slot) := GetUnusedSlotWrapping(full);
            && slot == 0 && Len(wrapped) == 1
            && Get(wrapped, 0) == Some(blank)
            && forall stale :: 1 <= stale ==> Get(wrapped, stale).None?
  {
    var s := WithCapacity(capacity, blank);
    WrappingAgreesBeforeFull(s, capacity);
    ClaimConsecutive(s, capacity);
  }
}
