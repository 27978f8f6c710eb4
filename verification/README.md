# netfcts connection tracking, modelled in Dafny

This project models the connection-tracking core of netfcts, a Rust helper
library for packet-processing network functions. It covers three parts.

- **Connection records.** A `ConRecord` holds one TCP connection's role,
  local port, remote socket, correlation id (uid), payload counter, server
  index, release cause and a bounded state history. The history is 8 state
  codes, one absolute base cycle stamp and 6 deltas. Each delta is compressed
  by dividing by 1000 and truncating to `u32`.
- **Record stores.** These are fixed-capacity arrays of records that hand out
  slot numbers:
  - the non-wrapping store next to the record, which asserts when it is full;
  - the generic store, which wraps back to slot 0;
  - the dual-array `Store64`, which keeps records and caller payloads side by
    side;
  - the default methods of the two `ConRecordOperations` traits, through
    which a connection handle reads and writes its record.
- **The socket index** `Sock2Index`. It maps `(ipv4, port)` to a `u16` slot
  number, using at most 8 address banks of 65,535 entries each. This part
  also covers the port shuffling helper.

Modules, one per source concept:

| module | file | models |
|---|---|---|
| `Tcp` | tcp.dfy | roles, states, release causes and the `u16` state codes |
| `StateHistory` | state_history.dfy | the state/stamp arrays of a record and their operations |
| `ConRecords` | con_record.dfy | `ConRecord` in src/lib.rs |
| `Sorting` | sorting.dfy | `sort_by` with a three-way comparator |
| `SlotStore` | slot_store.dfy | the non-wrapping `RecordStore` (src/lib.rs) and the wrapping `RecordStore<T>` (src/recstore.rs) |
| `StoredRecords` | stored_record.dfy | the record as the generic stores see it |
| `DualStore` | store64.dfy | `Store64<T>` |
| `ConHandles` | con_handles.dfy | the `ConRecordOperations` defaults in src/lib.rs |
| `StoreHandles` | store_handles.dfy | the `SimpleStore` impls and the `ConRecordOperations<S>` defaults in src/recstore.rs |
| `SockIndex` | sock_index.dfy | `Sock2Index` |
| `Ports` | ports.dfy | `shuffle_ports` |

Modelling conventions:

- Every store and record is an immutable value. An operation that mutates in
  the source returns the updated value here.
- A connection handle is a slot number, and the store it refers to is passed
  explicitly.
- A panic in the source (array index out of bounds, `unwrap` on `None`, a
  failing `assert!`) becomes a precondition. So does integer overflow or
  underflow (`rdtsc - base_stamp`, `payload_packets += 1`,
  `last_port + 1`): it panics in debug builds and wraps in release builds,
  and both are excluded here by precondition. The
  exception is the socket index running out of banks: it is modelled as the
  error result `BanksExhausted`, so that the exhaustion can be stated.
- The cycle counter read by `rdtsc_unsafe` is the parameter `now`.
- The random generator of `shuffle_ports` is the sequence `draws`.
- `tcp_common` is not part of this model. The state codes are assumed to be
  the declaration order `Closed = 0 … TimeWait = 8`, and only the fact that
  the encoding is injective is used (`Tcp.CodeInjective`, applied in
  `StateHistory.ReplayStates`).

## Model

| member | source | states |
|---|---|---|
| Tcp.Code | src/lib.rs:114 | every state has a code below 9 that decodes back to that state |
| Tcp.Decode | src/lib.rs:124-126 | a code decodes to a state exactly when it is below 9 |
| Tcp.DecodeThenCode | src/lib.rs:148-154 | decoding a valid stored code and re-encoding the state restores the code |
| StateHistory.ReduceDelta | src/lib.rs:118 | the compressed delta never overstates the elapsed cycles, and below 2^32·1000 cycles it understates them by less than 1000 |
| StateHistory.NewLog | src/lib.rs:95-110 | a default record's history is valid, has no states and has neither a first nor a last stamp |
| StateHistory.InitLog | src/lib.rs:66-82 | after `init` the history is exactly the role's starting state with base stamp 0; the delta array and the other state slots are untouched |
| StateHistory.PushState | src/lib.rs:113-121 | a push keeps the history valid, appends exactly the pushed state, fixes the base stamp on the first push after `init`, writes the compressed delta into slot count−2 on later pushes, and leaves all other deltas alone |
| StateHistory.States | src/lib.rs:148-154 | `states()` has one entry per pushed state, each the state whose code is in that slot |
| StateHistory.LastState | src/lib.rs:124-126 | `last_state()` is the last element of `states()` |
| StateHistory.GetFirstStamp | src/lib.rs:139-145 | there is a first stamp exactly when a transition was pushed after `init`, and it is the base stamp |
| StateHistory.GetLastStamp | src/lib.rs:129-136 | there is a last stamp exactly when the count is at least 2, and it is never before the base stamp |
| StateHistory.Deltas | src/lib.rs:162-169 | `deltas_since_synsent_or_synrecv()` is a prefix of the delta array, count−3 long once the count is at least 3 and empty before |
| StateHistory.FirstNotAfterLast | src/lib.rs:129-145 | the first and last stamps are both present or both absent, and the first is never after the last |
| StateHistory.ReplayCount | src/lib.rs:113-121 | pushing a sequence adds one to the count per push and sets the base to the time of the first push after `init` |
| StateHistory.ReplayCodes | src/lib.rs:113-121 | pushing a sequence keeps the codes already logged and writes the pushed states' codes after them |
| StateHistory.ReplayStates | src/lib.rs:113-154 | after a sequence of pushes, `states()` is the earlier states followed by the pushed states in call order |
| StateHistory.ReplayStamps | src/lib.rs:113-121 | every push from the second on lands its compressed delta from the base in its own slot, and earlier deltas are kept |
| StateHistory.ReplayStampAt | src/lib.rs:113-121 | the push at position j leaves its compressed delta from the base stamp in slot count + j − 2, and it survives all later pushes |
| StateHistory.HistoryAfterInit | src/lib.rs:66-145 | after `init` and n pushes: the states are the start state followed by the pushed ones, the first stamp is the time of the first push, and the last stamp is that time plus the decompressed span to the latest push |
| StateHistory.FirstStampAfterInit | src/lib.rs:113-145 | after `init` and a sequence of pushes `get_first_stamp()` is absent without pushes and otherwise the cycle count of the first push |
| StateHistory.LastStampAfterInit | src/lib.rs:113-136 | after `init` and a sequence of pushes `get_last_stamp()` is absent without pushes and otherwise the first push time plus the decompressed span to the latest push |
| StateHistory.LastStampAfterPushes | src/lib.rs:129-136 | after two or more pushes from `init`, the count, the base and the delta the last stamp is read from are those of the first and latest pushes |
| StateHistory.DeltasAfterInit | src/lib.rs:113-169 | after `init` and n pushes, the listed deltas are the n−2 compressed spans from the first push to each push in between |
| StateHistory.DeltaAfterInit | src/lib.rs:113-121 | after `init` and pushes, delta slot i holds the compressed span from the first push to push i + 1 |
| StateHistory.LastStampAccuracy | src/lib.rs:129-136 | within 2^32·1000 cycles of the first push, the decompressed last stamp is within 1000 cycles below the true time of the latest push |
| ConRecords.New | src/lib.rs:95-110 | the default record is a client record with no states, no socket, release cause `Unknown` and no stamps |
| ConRecords.Init | src/lib.rs:66-82 | `init` sets role, port and socket, zeroes counters and index, starts the history with the role's state, sets uid to `now` for a client and 0 for a server, and keeps the release cause and the deltas |
| ConRecords.Released | src/lib.rs:85-92 | the release cause reads back as set, and nothing else changes |
| ConRecords.PushState | src/lib.rs:113-121 | a push appends the state, makes it the last state, sets the first stamp on the first push, and changes nothing but the history |
| ConRecords.LastState | src/lib.rs:124-126 | the last state is the final element of `states()` |
| ConRecords.SetUid | src/lib.rs:157-160 | the uid reads back as set, and nothing else changes |
| ConRecords.GetReleaseCause | src/lib.rs:90-92 | `get_release_cause()` reads the cause; `Released` states that a set cause reads back |
| ConRecords.Uid | src/lib.rs:157 | `uid()` reads the uid; `Init` and `SetUid` state what it reads back |
| ConRecords.GetFirstStamp | src/lib.rs:139-145 | `get_first_stamp()` on the record is the history's first stamp (StateHistory.GetFirstStamp) |
| ConRecords.GetLastStamp | src/lib.rs:129-136 | `get_last_stamp()` on the record is the history's decompressed last stamp (StateHistory.GetLastStamp, HistoryAfterInit) |
| ConRecords.States | src/lib.rs:148-154 | `states()` on the record is the decoded history (StateHistory.States); `PushState` and `InitThenPushes` state its growth |
| ConRecords.DeltasSinceSynsentOrSynrecv | src/lib.rs:162-169 | `deltas_since_synsent_or_synrecv()` is the history's delta prefix (StateHistory.Deltas, DeltasAfterInit) |
| ConRecords.InitThenPushes | src/lib.rs:66-145 | a record initialised and then given up to seven pushes can take them all; its states are the start state followed by the pushes, its first stamp is the first push time, and its last stamp is not before the first |
| Sorting.Insert | src/recstore.rs:83-86 | inserting keeps all elements (as a multiset) plus the new one |
| Sorting.InsertSorted | src/recstore.rs:83-86 | inserting into a sorted sequence keeps it sorted under a total comparator |
| Sorting.SortBy | src/recstore.rs:83-86 | sorting permutes its input |
| Sorting.SortBySorted | src/recstore.rs:83-86 | with a total comparator the result of sorting is in order |
| SlotStore.WithCapacity | src/lib.rs:203-208 | a new store has the requested capacity, every slot holds the default record, and no slot is live |
| SlotStore.Len | src/lib.rs:218-220 | `len()` is the number of live slots; `Get` is `Some` exactly below it |
| SlotStore.Get | src/lib.rs:228-243 | `get`/`get_mut` return a record exactly for the slots below `len()` |
| SlotStore.Iter | src/lib.rs:223-225 | `iter()` yields exactly the live records, in slot order |
| SlotStore.Put | src/lib.rs:228-234 | a write through `get_mut` reads back, leaves every other slot and the records past `len()` unchanged, and keeps `len()` |
| SlotStore.SortBy | src/lib.rs:245-248 | `sort_by` permutes the live records and leaves the rest of the array in place |
| SlotStore.SortByOrders | src/lib.rs:245-248 | with a total comparator the live records come out in order |
| SlotStore.GetUnusedSlot | src/lib.rs:211-215 | the non-wrapping store hands out slot `len()`, which becomes live |
| SlotStore.ClaimConsecutive | src/lib.rs:211-220 | n non-wrapping allocations hand out n consecutive slots starting at `len()`, and `len()` grows by n |
| SlotStore.GetUnusedSlotWrapping | src/recstore.rs:45-53 | the wrapping store hands out slot `len()` while there is room, otherwise slot 0 with `len()` reset to 1 |
| SlotStore.WrappingKeepsLenWithinCapacity | src/recstore.rs:45-58 | with capacity at least 1, `len()` never exceeds the capacity and the slot handed out is live |
| SlotStore.ZeroCapacityOverruns | src/recstore.rs:37-53 | with capacity 0, allocation hands out slot 0 of an empty array and `len()` becomes 1, past the capacity |
| SlotStore.WrappingAgreesBeforeFull | src/recstore.rs:45-53 | until the array is full, the wrapping store allocates exactly like the non-wrapping one |
| SlotStore.FreshStoreWraps | src/recstore.rs:37-81 | a fresh store of capacity N hands out 0..N−1; the next allocation returns slot 0 with `len()` 1, and every older slot is gone |
| DualStore.WithCapacity | src/recstore.rs:124-131 | a new dual store has equal-capacity arrays filled with the default record and the default payload, and no live slot in either |
| DualStore.Len | src/recstore.rs:144-146 | `len()` is the number of live slots of both arrays; `Get` and `Get1` are `Some` exactly below it |
| DualStore.GetUnusedSlotAsWritten | src/recstore.rs:133-141 | the allocation as written moves neither array |
| DualStore.AsWrittenAlwaysRestarts | src/recstore.rs:133-141 | with equally long arrays the allocation as written always returns slot 0 and leaves `len()` at 1 |
| DualStore.AsWrittenReusesSlotZero | src/recstore.rs:133-141 | on a fresh store of capacity 2, two allocations as written both return slot 0 |
| DualStore.GetUnusedSlot | src/recstore.rs:133-141 | the corrected allocation hands out `len()` while both arrays have room and otherwise wraps to slot 0 |
| DualStore.GetUnusedSlotMatchesSingleStore | src/recstore.rs:133-141 | the corrected allocation moves the record array exactly as the wrapping single-array store does |
| DualStore.ClaimManyMatchesSingleStore | src/recstore.rs:133-141 | any number of corrected allocations agree with the single-array store, slot for slot |
| DualStore.FreshStoreWraps | src/recstore.rs:124-141 | with the corrected guard, a fresh store of capacity N hands out 0..N−1 and then wraps to slot 0 |
| DualStore.Get | src/recstore.rs:159-176 | `get`/`get_mut` return a record exactly for the live slots, and agree with the single-array store over the record array |
| DualStore.Get1 | src/recstore.rs:178-193 | `get_1`/`get_mut_1` return a payload exactly where `get` returns a record |
| DualStore.Iter0 | src/recstore.rs:149-152 | `iter_0()` yields exactly the live records, in slot order |
| DualStore.Iter1 | src/recstore.rs:154-157 | `iter_1()` yields exactly the live payloads, in slot order |
| DualStore.Put | src/recstore.rs:159-166 | a record write reads back, leaves other slots, the records past `len()` and the payload array unchanged |
| DualStore.Put1 | src/recstore.rs:178-185 | a payload write reads back, leaves other slots, the payloads past `len()` and the record array unchanged |
| DualStore.Sort0By | src/recstore.rs:195-198 | `sort_0_by` permutes the live records and does not touch the payload array |
| DualStore.Sort0ByOrders | src/recstore.rs:195-198 | with a total comparator `sort_0_by` leaves the live records in comparator order |
| DualStore.Sort0BySplitsPairs | src/recstore.rs:195-198 | after sorting by port, slot 0 holds the port-1 record but still the payload of the port-2 record |
| ConHandles.Record | src/lib.rs:286-289 | a live handle reads the record `get` returns for its slot |
| ConHandles.Port | src/lib.rs:286-288 | `port()` reads the handle's record; `SetPort` states that a set port reads back |
| ConHandles.ServerIndex | src/lib.rs:294-296 | `server_index()` reads the handle's record; `SetServerIndex` states the read-back |
| ConHandles.PayloadPackets | src/lib.rs:304-306 | `payload_packets()` reads the handle's record; `IncrementPayloadPackets` states its growth by one |
| ConHandles.LastState | src/lib.rs:314-316 | `last_state()` of the handle's record; `PushState` states that it is the state just pushed |
| ConHandles.States | src/lib.rs:319-321 | `states()` of the handle's record; `PushState` states that a push appends to it |
| ConHandles.GetDutSock | src/lib.rs:339-341 | `get_dut_sock()` reads the handle's record; `SetDutSock` states that it reads back as present |
| ConHandles.GetUid | src/lib.rs:354-356 | `get_uid()` reads the handle's record uid; `SetUid` states the read-back |
| ConHandles.Write | src/lib.rs:228-234 | writing through a handle reads back and changes no other live slot and no record past `len()` |
| ConHandles.PushState | src/lib.rs:324-327 | `push_state` appends the state to the handle's record, makes it the last state, and changes no other slot and no other field |
| ConHandles.ConEstablished | src/lib.rs:275-278 | `con_established` appends `Established` |
| ConHandles.ServerSynSent | src/lib.rs:280-284 | `server_syn_sent` appends `SynSent` |
| ConHandles.SetServerIndex | src/lib.rs:299-302 | the server index reads back as set, and no other slot or field changes |
| ConHandles.IncrementPayloadPackets | src/lib.rs:309-312 | the payload counter grows by exactly one, and no other slot or field changes |
| ConHandles.Released | src/lib.rs:329-332 | the release cause reads back as set, and no other slot or field changes |
| ConHandles.SetPort | src/lib.rs:334-337 | the port reads back as set, and no other slot or field changes |
| ConHandles.SetDutSock | src/lib.rs:344-347 | the socket reads back as present and equal to the one set |
| ConHandles.SetUid | src/lib.rs:349-352 | the uid reads back as set, and no other slot or field changes |
| ConHandles.DistinctHandlesIndependent | src/lib.rs:334-337 | a write through one handle leaves the record seen by a handle on another slot unchanged |
| StoreHandles.SimpleGet | src/recstore.rs:201-208 | the interface's `get` returns a record exactly for the live slots |
| StoreHandles.SimpleGetAgreesWithStores | src/recstore.rs:89-104 | the interface implementations return what each store's own `get` returns |
| StoreHandles.SimplePut | src/recstore.rs:209-215 | a write through the interface reads back, changes no other live slot and no record past `len()`, and leaves a dual store's payloads alone |
| StoreHandles.Port | src/recstore.rs:253-255 | `port()` reads the handle's record; `SetPort` states that a set port reads back |
| StoreHandles.ServerIndex | src/recstore.rs:261-263 | `server_index()` widens the 8-bit index; `SetServerIndex` states it reads back modulo 256 |
| StoreHandles.PayloadPackets | src/recstore.rs:271-273 | `payload_packets()` reads the handle's record; `IncrementPayloadPackets` states its growth by one |
| StoreHandles.LastState | src/recstore.rs:281-283 | `last_state()` of the handle's record; `PushState` states that it is the state just pushed |
| StoreHandles.States | src/recstore.rs:286-288 | `states()` of the handle's record; `PushState` states that a push appends to it |
| StoreHandles.GetUid | src/recstore.rs:322-324 | `get_uid()` reads the handle's record uid; `SetUid` states the read-back |
| StoreHandles.PushState | src/recstore.rs:291-294 | `push_state` appends the state, makes it the last state, and changes nothing else: no other live record, no record past `len()`, and no payload of a dual store |
| StoreHandles.ConEstablished | src/recstore.rs:242-245 | `con_established` appends `Established` |
| StoreHandles.ServerSynSent | src/recstore.rs:247-251 | `server_syn_sent` appends `SynSent` |
| StoreHandles.SetServerIndex | src/recstore.rs:266-269 | the index is stored truncated to 8 bits, so it reads back modulo 256 and unchanged below 256 |
| StoreHandles.IncrementPayloadPackets | src/recstore.rs:276-279 | the counter grows by one and the new count is returned |
| StoreHandles.SetReleaseCause | src/recstore.rs:296-299 | the release cause reads back as set |
| StoreHandles.SetPort | src/recstore.rs:301-304 | the port reads back as set |
| StoreHandles.Sock | src/recstore.rs:306-310 | `sock()` is absent exactly when the stored address is 0, and otherwise is the stored socket |
| StoreHandles.SetSock | src/recstore.rs:312-315 | a socket set through the handle reads back as present exactly when its address is not 0 |
| StoreHandles.SetUid | src/recstore.rs:317-320 | the uid reads back as set |
| StoreHandles.StaleHandleAfterWrap | src/recstore.rs:45-81 | after the wrapping store wraps, a handle on slot 1 or above finds no record, and slot 0 finds the reused first record |
| SockIndex.New | src/utils.rs:55-61 | a new index is well formed and maps no socket |
| SockIndex.BanksPartitioned | src/utils.rs:48-61 | every bank id is held by exactly one of the address map and the free list |
| SockIndex.Get | src/utils.rs:63-76 | `get` never returns slot 0, and returns nothing for an unknown address |
| SockIndex.AddAddress | src/utils.rs:78-88 | a new address gets the bank at the head of the free list, the next unused bank id |
| SockIndex.Insert | src/utils.rs:78-91 | `insert` fails exactly for a new address when all 8 banks are taken; otherwise the index stays well formed and only a new address is added to the map |
| SockIndex.InsertThenGet | src/utils.rs:63-91 | after `insert`, `get` returns the stored slot, or nothing if it was 0 |
| SockIndex.InsertKeepsOthers | src/utils.rs:63-91 | `insert` leaves `get` unchanged for every other socket |
| SockIndex.Remove | src/utils.rs:93-107 | an unknown address returns `None` and changes nothing, for any port; for a known address `remove` returns what `get` returned before, afterwards `get` finds nothing, and the address keeps its bank |
| SockIndex.RemoveKeepsOthers | src/utils.rs:63-107 | `remove` leaves `get` unchanged for every other socket |
| SockIndex.InsertAllKeepsBanks | src/utils.rs:78-91 | an address keeps its bank through any later inserts |
| SockIndex.DistinctAddressesGetBanksInOrder | src/utils.rs:78-91 | inserts for distinct new addresses succeed while banks remain, and the addresses get the free banks in first-come order |
| SockIndex.NinthAddressExhaustsBanks | src/utils.rs:78-88 | eight distinct addresses fit, and the first insert for a ninth distinct address fails |
| SockIndex.SortedKeys | src/utils.rs:109-111 | the addresses are listed once each, in ascending order, as the ordered map walks them |
| SockIndex.EntriesSorted | src/utils.rs:109-120 | the listed entries ascend by address and then by port |
| SockIndex.EntriesExact | src/utils.rs:109-120 | an entry is listed exactly when `get` returns its slot for its socket |
| SockIndex.Values | src/utils.rs:109-120 | `values()` is the slot of each listed entry in address-then-port order, and never 0 |
| Ports.PortRange | src/utils.rs:37-38 | the range first..last in ascending order, empty when first > last |
| Ports.ShufflePorts | src/utils.rs:37-44 | the result is a permutation of first..last, so each port appears once and nothing outside the range appears |
| Ports.SumOfPermutation | src/utils.rs:125-129 | reordering a sequence does not change its sum |
| Ports.SumOfRange | src/utils.rs:125-129 | the ports first..last sum to the arithmetic series |
| Ports.ShuffledSum | src/utils.rs:125-129 | any shuffle of first..last sums to the arithmetic series |
| Ports.ShuffledHundredSums | src/utils.rs:125-129 | any shuffle of 0..100 sums to 5050 |

## Left out

- The `Display` and `Debug` impls only format values. The `warn!` logging in the wrapping allocators is left out too.
- `release_conrec`, `in_use`, `store` and `con_rec` are required trait methods with no default body. The model replaces the `Rc<RefCell<…>>` store reference by an explicit store and the handle by its slot number.
- The `Iterator` impls for `RecordStore` in src/lib.rs:250-258 and src/recstore.rs:106-114 are commented out in the source, so they do not exist in the program.
- Everything else in src/lib.rs is left out: the KNI setup, the flow-director setup and `get_tcp_port_base`. They configure NICs and Linux network namespaces.
- src/io.rs, src/comm.rs, src/system.rs and `TimeAdder` in src/utils.rs are not part of this model. They cover I/O, messaging, system calls and printing statistics.
- `rdtsc_unsafe` and the random generator are parameters (`now`, `draws`) rather than models of the hardware or of `rand`.
- `tcp_common` is not part of this model. The numeric state codes are assumed to follow declaration order, and `TcpState::from` is assumed to invert the cast.
- StoredRecords.StoredRecord: the record type used by the generic stores is not part of this model. Its getters and setters are modelled as plain field accesses with these assumptions:
  - `sock` is a plain `(u32, u16)` with address 0 meaning unset;
  - `server_index` is a `u8`;
  - `increment_payload_packets` returns the new count;
  - the payload counter is unbounded, so its width and overflow are not modelled;
  - `push_state`, `last_state` and `states` are assumed to behave as `ConRecord`'s in src/lib.rs:113-154, so `StoreHandles.PushState`, `LastState`, `States`, `ConEstablished` and `ServerSynSent` share the `StateHistory` model.
- ConHandles.IncrementPayloadPackets: `payload_packets += 1` at 2^64−1 panics in debug builds and wraps to 0 in release builds; both are excluded by precondition.
- Sorting.SortBy: the library sort is stable, but stability is not proved; only permutation and order are.
- StateHistory.GetLastStamp: after more than 2^32·1000 cycles the truncated delta wraps around. LastStampAccuracy is therefore stated only within that span.
- StateHistory.PushState: pushing into a full history (8 states), into a default record that was never initialised (count 0), panics in the source. So does a clock behind the base stamp in a debug build, where `rdtsc - base_stamp` underflows; a release build wraps it to a huge delta instead. These cases are excluded by precondition.
- SockIndex.Insert: a ninth address panics in the source. The model returns `BanksExhausted` instead, so that the exhaustion can be stated.
- Ports.ShufflePorts: `last_port + 1` overflows for `last_port = 65535`. A debug build panics, and a release build wraps it to 0 and returns an empty vector. That case is excluded by precondition. The distribution check on the two halves in the shuffling test is statistical and is not modelled.
- SockIndex.Values: the port banks are flat arrays of 65,535 entries. `Values` is defined through an explicit walk in address-then-port order rather than by iterating the arrays.

## Findings

| source | as written | input that shows it | evidently intended | confidence | as-written member | corrected member |
|---|---|---|---|---|---|---|
| src/recstore.rs:135 | `Store64::get_unused_slot` resets when `used_slots >= store_0.len()` or `used_slots < store_1.len()`. With both arrays equally long, the second test holds whenever the first fails, so every call resets to slot 0. | A fresh `Store64` of capacity 2: the first and second `get_unused_slot` calls both return 0, so two connections share one record. | Reset only when either array is exhausted (`used_slots >= store_1.len()`), as the single-array store does. | not executed | DualStore.AsWrittenAlwaysRestarts | DualStore.FreshStoreWraps |
