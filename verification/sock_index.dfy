/**
  The socket-to-slot index: an ordered map from IPv4 address to a bank id,
  bank ids handed out first-in first-out from a free list of 8, and per bank a
  flat array of 65,535 slot numbers indexed by `port - 1`, where 0 means
  "no entry". Banks are never returned to the free list.
 */
module SockIndex {
  import opened Wrappers
  import opened Ints

  const BANKS: nat := 8
  const PORTS: nat := 0xFFFF

  datatype Sock2Index = Sock2Index(
    sockTree: map<uint32, nat>,
    portMaps: seq<seq<uint16>>,
    freeMaps: seq<nat>)

  /** The one way `insert` can abort: a ninth distinct address. */
  datatype IndexError = BanksExhausted

  /** 8 banks of 65,535 entries each. */
  ghost predicate Shaped(x: Sock2Index) {
    && |x.portMaps| == BANKS
    && forall b :: 0 <= b < BANKS ==> |x.portMaps[b]| == PORTS
  }

  /** The n known addresses hold banks 0..n-1, one bank each. */
  ghost predicate Assigned(tree: map<uint32, nat>) {
    && (forall ip :: ip in tree ==> tree[ip] < |tree|)
    && (forall a, b :: a in tree && b in tree && a != b ==> tree[a] != tree[b])
    && (forall bank :: 0 <= bank < |tree| ==> bank in tree.Values)
  }

  /** The free list once n banks are taken: n, n+1, ..., 7. */
  function FreeList(n: nat): (r: seq<nat>)
    requires n <= BANKS
    ensures |r| == BANKS - n && forall i :: 0 <= i < |r| ==> r[i] == n + i
  {
    seq(BANKS - n, i requires 0 <= i < BANKS - n => n + i)
  }

  /** A bank with no entries. */
  function EmptyBank(): (bank: seq<uint16>)
    ensures |bank| == PORTS && forall p :: 0 <= p < PORTS ==> bank[p] == 0
  {
    seq(PORTS, _ => 0)
  }

  /** Banks still on the free list hold no entries. */
  ghost predicate FreeBanksEmpty(x: Sock2Index)
    requires Shaped(x)
  {
    forall b :: |x.sockTree| <= b < BANKS ==> x.portMaps[b] == EmptyBank()
  }

  /** What every reachable index satisfies. */
  ghost predicate Valid(x: Sock2Index) {
    && Shaped(x)
    && |x.sockTree| <= BANKS
    && Assigned(x.sockTree)
    && x.freeMaps == FreeList(|x.sockTree|)
    && FreeBanksEmpty(x)
  }

  /** Giving a new address the next bank keeps the assignment one-to-one and gapless. */
  lemma AssignNext(tree: map<uint32, nat>, ip: uint32)
    requires Assigned(tree) && ip !in tree
    ensures |tree[ip := |tree|]| == |tree| + 1
    ensures Assigned(tree[ip := |tree|])
  {
    var tree' := tree[ip := |tree|];
    assert tree'.Keys == tree.Keys + {ip};
    forall bank | 0 <= bank < |tree'|
      ensures bank in tree'.Values
    {
      if bank < |tree| {
        assert bank in tree.Values;
        var owner :| owner in tree && tree[owner] == bank;
        assert tree'[owner] == bank;
      } else {
        assert tree'[ip] == bank;
      }
    }
  }

  /** Every bank id 0..7 is either held by an address or on the free list, never both. */
  lemma BanksPartitioned(x: Sock2Index, b: nat)
    requires Valid(x) && b < BANKS
    ensures (b in x.sockTree.Values) != (b in x.freeMaps)
  {
    if b >= |x.sockTree| {
      assert x.freeMaps[b - |x.sockTree|] == b;
    }
  }

  function New(): (x: Sock2Index)
    ensures Valid(x)
    ensures forall ip: uint32, port: uint16 :: 1 <= port ==> Get(x, (ip, port)).None?
  {
    Sock2Index(map[], seq(BANKS, _ => EmptyBank()), FreeList(0))
  }

  /** The slot stored for a socket; none for an unknown address or an empty entry. Port 0 is refused. */
  function Get(x: Sock2Index, sock: Sock): (r: Option<uint16>)
    requires Valid(x) && sock.1 >= 1
    ensures r.Some? ==> r.value != 0
    ensures sock.0 !in x.sockTree ==> r.None?
  {
    var (ip, port) := sock;
    if ip !in x.sockTree then None
    else
      var v := x.portMaps[x.sockTree[ip]][port - 1];
      if v == 0 then None else Some(v)
  }

  /** Gives a new address the bank at the head of the free list. */
  function AddAddress(x: Sock2Index, ip: uint32): (x': Sock2Index)
    requires Valid(x) && ip !in x.sockTree && |x.freeMaps| > 0
    ensures Valid(x')
    ensures x'.sockTree == x.sockTree[ip := |x.sockTree|]
    ensures |x'.sockTree| == |x.sockTree| + 1
    ensures x'.portMaps == x.portMaps
  {
    AssignNext(x.sockTree, ip);
    assert x.freeMaps[1..] == FreeList(|x.sockTree| + 1);
    x.(sockTree := x.sockTree[ip := x.freeMaps[0]], freeMaps := x.freeMaps[1..])
  }

  /** Overwrites one entry of an assigned bank. */
  function Write(x: Sock2Index, bank: nat, port: uint16, index: uint16): (x': Sock2Index)
    requires Valid(x) && bank < |x.sockTree| && port >= 1
    ensures Valid(x') && x'.sockTree == x.sockTree && x'.freeMaps == x.freeMaps
    ensures x'.portMaps[bank] == x.portMaps[bank][port - 1 := index]
    ensures forall b :: 0 <= b < BANKS && b != bank ==> x'.portMaps[b] == x.portMaps[b]
  {
    var row: seq<uint16> := x.portMaps[bank][port - 1 := index];
    x.(portMaps := x.portMaps[bank := row])
  }

  /**
    Stores `index` for `sock`, first giving a new address the bank at the
    head of the free list; aborts if the list is empty.
   */
  function Insert(x: Sock2Index, sock: Sock, index: uint16): (r: Result<Sock2Index, IndexError>)
    requires Valid(x) && sock.1 >= 1
    ensures r.Failure? <==> sock.0 !in x.sockTree && |x.sockTree| == BANKS
    ensures r.Success? ==> Valid(r.value)
    ensures r.Success? && sock.0 in x.sockTree ==> r.value.sockTree == x.sockTree
    ensures r.Success? && sock.0 !in x.sockTree ==> r.value.sockTree == x.sockTree[sock.0 := |x.sockTree|]
  {
    var (ip, port) := sock;
    if ip in x.sockTree then
      Success(Write(x, x.sockTree[ip], port, index))
    else if |x.freeMaps| == 0 then
      Failure(BanksExhausted)
    else
      var grown := AddAddress(x, ip);
      Success(Write(grown, grown.sockTree[ip], port, index))
  }

  /** After `insert`, the socket maps to the index, or to nothing for index 0. */
  lemma InsertThenGet(x: Sock2Index, sock: Sock, index: uint16)
    requires Valid(x) && sock.1 >= 1
    requires Insert(x, sock, index).Success?
    ensures Get(Insert(x, sock, index).value, sock) == if index == 0 then None else Some(index)
  {
    var x' := Insert(x, sock, index).value;
    if sock.0 in x.sockTree {
      assert x' == Write(x, x.sockTree[sock.0], sock.1, index);
    } else {
      var grown := AddAddress(x, sock.0);
      assert x' == Write(grown, grown.sockTree[sock.0], sock.1, index);
    }
  }

  /** `insert` leaves the entry of every other socket as it was. */
  lemma InsertKeepsOthers(x: Sock2Index, sock: Sock, index: uint16, other: Sock)
    requires Valid(x) && sock.1 >= 1 && other.1 >= 1 && other != sock
    requires Insert(x, sock, index).Success?
    ensures Get(Insert(x, sock, index).value, other) == Get(x, other)
  {
    if sock.0 in x.sockTree {
      KnownInsertKeepsOthers(x, sock, index, other);
    } else {
      NewInsertKeepsOthers(x, sock, index, other);
    }
  }

  lemma KnownInsertKeepsOthers(x: Sock2Index, sock: Sock, index: uint16, other: Sock)
    requires Valid(x) && sock.1 >= 1 && other.1 >= 1 && other != sock
    requires sock.0 in x.sockTree
    ensures Get(Insert(x, sock, index).value, other) == Get(x, other)
  {
    var bank := x.sockTree[sock.0];
    assert Insert(x, sock, index).value == Write(x, bank, sock.1, index);
    if other.0 in x.sockTree && other.0 != sock.0 {
      assert x.sockTree[other.0] != bank;
    }
  }

  lemma NewInsertKeepsOthers(x: Sock2Index, sock: Sock, index: uint16, other: Sock)
    requires Valid(x) && sock.1 >= 1 && other.1 >= 1 && other != sock
    requires sock.0 !in x.sockTree && |x.sockTree| < BANKS
    ensures Get(Insert(x, sock, index).value, other) == Get(x, other)
  {
    var grown := AddAddress(x, sock.0);
    var bank := grown.sockTree[sock.0];
    assert Insert(x, sock, index).value == Write(grown, bank, sock.1, index);
    if other.0 == sock.0 {
      assert x.portMaps[bank] == EmptyBank();
    } else if other.0 in x.sockTree {
      assert grown.sockTree[other.0] == x.sockTree[other.0] < bank;
    }
  }

  /**
    Clears the socket's entry and returns what it held; the address keeps its
    bank. An unknown address returns `None` before the port is looked at, so
    port 0 faults only for a known address.
   */
  function Remove(x: Sock2Index, sock: Sock): (r: (Sock2Index, Option<uint16>))
    requires Valid(x) && (sock.1 >= 1 || sock.0 !in x.sockTree)
    ensures Valid(r.0)
    ensures sock.0 !in x.sockTree ==> r == (x, None)
    ensures sock.1 >= 1 ==> r.1 == Get(x, sock) && Get(r.0, sock).None?
    ensures r.0.sockTree == x.sockTree && r.0.freeMaps == x.freeMaps
  {
    var (ip, port) := sock;
    if ip !in x.sockTree then (x, None)
    else
      var bank := x.sockTree[ip];
      var previous := x.portMaps[bank][port - 1];
      (Write(x, bank, port, 0), if previous == 0 then None else Some(previous))
  }

  /** `remove` leaves the entry of every other socket as it was. */
  lemma RemoveKeepsOthers(x: Sock2Index, sock: Sock, other: Sock)
    requires Valid(x) && (sock.1 >= 1 || sock.0 !in x.sockTree) && other.1 >= 1 && other != sock
    ensures Get(Remove(x, sock).0, other) == Get(x, other)
  {
    if sock.0 in x.sockTree && other.0 in x.sockTree && other.0 != sock.0 {
      assert x.sockTree[other.0] != x.sockTree[sock.0];
    }
  }

  /** `insert` applied to each socket in turn, all with the same index. */
  function InsertAll(x: Sock2Index, socks: seq<Sock>, index: uint16): (r: Result<Sock2Index, IndexError>)
    requires Valid(x) && forall i :: 0 <= i < |socks| ==> socks[i].1 >= 1
    ensures r.Success? ==> Valid(r.value)
    decreases |socks|
  {
    if socks == [] then Success(x)
    else
      match Insert(x, socks[0], index)
      case Failure(e) => Failure(e)
      case Success(x1) => InsertAll(x1, socks[1..], index)
  }

  /** Addresses already known keep their banks through further inserts. */
  lemma {:induction false} InsertAllKeepsBanks(x: Sock2Index, socks: seq<Sock>, index: uint16, ip: uint32)
    requires Valid(x) && forall i :: 0 <= i < |socks| ==> socks[i].1 >= 1
    requires ip in x.sockTree
    requires InsertAll(x, socks, index).Success?
    ensures ip in InsertAll(x, socks, index).value.sockTree
    ensures InsertAll(x, socks, index).value.sockTree[ip] == x.sockTree[ip]
    decreases |socks|
  {
    if socks != [] {
      var x1 := Insert(x, socks[0], index).value;
      InsertAllKeepsBanks(x1, socks[1..], index, ip);
    }
  }

  /**
    Inserting sockets of distinct new addresses succeeds while banks remain,
    and the addresses get the next free banks in order.
   */
  lemma {:induction false} DistinctAddressesGetBanksInOrder(x: Sock2Index, socks: seq<Sock>, index: uint16)
    requires Valid(x) && forall i :: 0 <= i < |socks| ==> socks[i].1 >= 1
    requires forall i :: 0 <= i < |socks| ==> socks[i].0 !in x.sockTree
    requires forall i, j :: 0 <= i < j < |socks| ==> socks[i].0 != socks[j].0
    requires |x.sockTree| + |socks| <= BANKS
    ensures InsertAll(x, socks, index).Success?
    ensures |InsertAll(x, socks, index).value.sockTree| == |x.sockTree| + |socks|
    ensures forall i :: 0 <= i < |socks| ==> socks[i].0 in InsertAll(x, socks, index).value.sockTree
    ensures forall i :: 0 <= i < |socks| ==>
              InsertAll(x, socks, index).value.sockTree[socks[i].0] == |x.sockTree| + i
    decreases |socks|
  {
    if socks != [] {
      var x1 := Insert(x, socks[0], index).value;
      var rest := socks[1..];
      AssignNext(x.sockTree, socks[0].0);
      assert |x1.sockTree| == |x.sockTree| + 1;
      forall i | 0 <= i < |rest|
        ensures rest[i].0 !in x1.sockTree
      {
        assert rest[i] == socks[i + 1];
      }
      DistinctAddressesGetBanksInOrder(x1, rest, index);
      assert InsertAll(x, socks, index) == InsertAll(x1, rest, index);
      InsertAllKeepsBanks(x1, rest, index, socks[0].0);
      var r := InsertAll(x1, rest, index).value;
      forall i | 0 <= i < |socks|
        ensures socks[i].0 in r.sockTree && r.sockTree[socks[i].0] == |x.sockTree| + i
      {
        if i > 0 {
          assert rest[i - 1] == socks[i];
        }
      }
    }
  }

  /**
    Eight distinct addresses fit; the first insert for a ninth distinct
    address aborts with bank exhaustion.
   */
  lemma NinthAddressExhaustsBanks(socks: seq<Sock>, index: uint16)
    requires |socks| == BANKS + 1 && forall i :: 0 <= i < |socks| ==> socks[i].1 >= 1
    requires forall i, j :: 0 <= i < j < |socks| ==> socks[i].0 != socks[j].0
    ensures InsertAll(New(), socks[..BANKS], index).Success?
    ensures Insert(InsertAll(New(), socks[..BANKS], index).value, socks[BANKS], index).Failure?
  {
    var first := socks[..BANKS];
    DistinctAddressesGetBanksInOrder(New(), first, index);
    var x := InsertAll(New(), first, index).value;
    KnownAreListed(x.sockTree, first);
    forall i | 0 <= i < BANKS
      ensures first[i].0 != socks[BANKS].0
    {
      assert first[i] == socks[i];
    }
  }

  /** When `socks[i]` holds bank `i` for every bank, no other address is known. */
  lemma KnownAreListed(tree: map<uint32, nat>, socks: seq<Sock>)
    requires Assigned(tree)
    requires forall i :: 0 <= i < |socks| ==> socks[i].0 in tree && tree[socks[i].0] == i
    requires |socks| == |tree|
    ensures forall ip :: ip in tree ==> ip == socks[tree[ip]].0
  {
    forall ip | ip in tree
      ensures ip == socks[tree[ip]].0
    {
      var b := tree[ip];
      assert tree[socks[b].0] == b;
    }
  }

  /** The least element of a nonempty set of addresses. */
  lemma Least(keys: set<uint32>) returns (m: uint32)
    requires keys != {}
    ensures m in keys && forall k :: k in keys ==> m <= k
    decreases keys
  {
    var x :| x in keys;
    var others := keys - {x};
    assert forall k :: k in keys ==> k == x || k in others;
    if others == {} {
      m := x;
    } else {
      var rest := Least(others);
      m := if x < rest then x else rest;
    }
  }

  lemma HasLeast(keys: set<uint32>)
    requires keys != {}
    ensures exists m :: m in keys && forall k :: k in keys ==> m <= k
  {
    var m := Least(keys);
    assert m in keys && forall k :: k in keys ==> m <= k;
  }

  /** The least address of a nonempty set. */
  function LeastKey(keys: set<uint32>): (m: uint32)
    requires keys != {}
    ensures m in keys && forall k :: k in keys ==> m <= k
  {
    HasLeast(keys);
    var m :| m in keys && forall k :: k in keys ==> m <= k;
    m
  }

  /** The addresses in ascending order, as the ordered map iterates them. */
  function SortedKeys(keys: set<uint32>): (r: seq<uint32>)
    ensures forall k :: k in r <==> k in keys
    ensures forall i, j :: 0 <= i < j < |r| ==> r[i] < r[j]
    decreases |keys|
  {
    if keys == {} then []
    else
      var m := LeastKey(keys);
      [m] + SortedKeys(keys - {m})
  }

  /** A mapped socket: address, port and the slot stored for it. */
  type Entry = (uint32, uint16, uint16)

  /** `e` is what `get` returns for its socket. */
  ghost predicate Maps(x: Sock2Index, e: Entry)
    requires Valid(x)
  {
    e.1 >= 1 && Get(x, (e.0, e.1)) == Some(e.2)
  }

  /** Ascending by address, then by port. */
  predicate Before(a: Entry, b: Entry) {
    a.0 < b.0 || (a.0 == b.0 && a.1 < b.1)
  }

  /** The nonzero entries of one bank at ports above `from`, in port order. */
  function BankEntries(ip: uint32, bank: seq<uint16>, from: nat): (r: seq<Entry>)
    requires |bank| == PORTS && from <= PORTS
    ensures forall e :: e in r <==> e.0 == ip && from < e.1 && bank[e.1 - 1] == e.2 != 0
    ensures forall k :: 0 <= k < |r| ==> r[k].0 == ip && r[k].2 != 0
    ensures Ascending(r)
    decreases PORTS - from
  {
    if from == PORTS then []
    else
      var rest := BankEntries(ip, bank, from + 1);
      if bank[from] != 0 then [(ip, from + 1, bank[from])] + rest else rest
  }

  /** The entries of the banks `rows` of the addresses `ips`, bank after bank. */
  function Listing(ips: seq<uint32>, rows: seq<seq<uint16>>): (r: seq<Entry>)
    requires |rows| == |ips| && forall k :: 0 <= k < |rows| ==> |rows[k]| == PORTS
    ensures forall k :: 0 <= k < |r| ==> r[k].0 in ips && r[k].2 != 0
    decreases |ips|
  {
    if ips == [] then []
    else BankEntries(ips[0], rows[0], 0) + Listing(ips[1..], rows[1..])
  }

  /** Entries strictly ascending by address and then by port. */
  predicate Ascending(r: seq<Entry>) {
    forall k, l :: 0 <= k < l < |r| ==> Before(r[k], r[l])
  }

  /** Two ascending runs whose addresses are separated by `ip` join into one. */
  lemma JoinAscending(a: seq<Entry>, b: seq<Entry>, ip: uint32)
    requires Ascending(a) && Ascending(b)
    requires forall k :: 0 <= k < |a| ==> a[k].0 == ip
    requires forall k :: 0 <= k < |b| ==> ip < b[k].0
    ensures Ascending(a + b)
  {
    var r := a + b;
    forall k, l | 0 <= k < l < |r|
      ensures Before(r[k], r[l])
    {
      if l < |a| {
        assert r[k] == a[k] && r[l] == a[l];
      } else if k >= |a| {
        assert r[k] == b[k - |a|] && r[l] == b[l - |a|];
      } else {
        assert r[k] == a[k] && r[l] == b[l - |a|];
      }
    }
  }

  /** With ascending addresses the listing ascends by address and then by port. */
  lemma {:induction false} ListingSorted(ips: seq<uint32>, rows: seq<seq<uint16>>)
    requires |rows| == |ips| && forall k :: 0 <= k < |rows| ==> |rows[k]| == PORTS
    requires forall i, j :: 0 <= i < j < |ips| ==> ips[i] < ips[j]
    ensures Ascending(Listing(ips, rows))
    decreases |ips|
  {
    if ips != [] {
      ListingSorted(ips[1..], rows[1..]);
      var head := BankEntries(ips[0], rows[0], 0);
      var tail := Listing(ips[1..], rows[1..]);
      assert forall k :: 0 <= k < |tail| ==> ips[0] < tail[k].0;
      JoinAscending(head, tail, ips[0]);
    }
  }

  /** An entry of the address at position `k` is listed exactly when its bank holds its slot. */
  lemma {:induction false} ListingExact(ips: seq<uint32>, rows: seq<seq<uint16>>, k: nat, e: Entry)
    requires |rows| == |ips| && forall j :: 0 <= j < |rows| ==> |rows[j]| == PORTS
    requires forall i, j :: 0 <= i < j < |ips| ==> ips[i] < ips[j]
    requires k < |ips| && ips[k] == e.0
    ensures e in Listing(ips, rows) <==> 0 < e.1 && rows[k][e.1 - 1] == e.2 != 0
    decreases k
  {
    var head := BankEntries(ips[0], rows[0], 0);
    var tail := Listing(ips[1..], rows[1..]);
    assert Listing(ips, rows) == head + tail;
    if k == 0 {
      assert e !in tail by {
        assert forall j :: 0 <= j < |tail| ==> tail[j].0 != ips[0];
      }
    } else {
      assert e !in head;
      ListingExact(ips[1..], rows[1..], k - 1, e);
    }
  }

  /** The banks of the known addresses `ips`. */
  function RowsOf(x: Sock2Index, ips: seq<uint32>): (r: seq<seq<uint16>>)
    requires Shaped(x)
    requires forall k :: 0 <= k < |ips| ==> ips[k] in x.sockTree && x.sockTree[ips[k]] < BANKS
    ensures |r| == |ips|
    ensures forall k :: 0 <= k < |r| ==> r[k] == x.portMaps[x.sockTree[ips[k]]] && |r[k]| == PORTS
    decreases |ips|
  {
    if ips == [] then [] else [x.portMaps[x.sockTree[ips[0]]]] + RowsOf(x, ips[1..])
  }

  /** The known addresses in ascending order. */
  function Addresses(x: Sock2Index): (r: seq<uint32>)
    ensures forall k :: 0 <= k < |r| ==> r[k] in x.sockTree
    ensures forall ip :: ip in x.sockTree ==> ip in r
    ensures forall i, j :: 0 <= i < j < |r| ==> r[i] < r[j]
  {
    SortedKeys(x.sockTree.Keys)
  }

  /** Every mapped socket with its slot, as the ordered map walks them. */
  function Entries(x: Sock2Index): (r: seq<Entry>)
    requires Valid(x)
    ensures forall k :: 0 <= k < |r| ==> r[k].2 != 0
  {
    var ips := Addresses(x);
    Listing(ips, RowsOf(x, ips))
  }

  /** `Entries` ascends by address and then by port. */
  lemma EntriesSorted(x: Sock2Index)
    requires Valid(x)
    ensures Ascending(Entries(x))
  {
    var ips := Addresses(x);
    ListingSorted(ips, RowsOf(x, ips));
  }

  /** The listed entries are exactly the sockets `get` finds a slot for. */
  lemma EntriesExact(x: Sock2Index, e: Entry)
    requires Valid(x)
    ensures e in Entries(x) <==> Maps(x, e)
  {
    if e.0 in x.sockTree {
      KnownEntryExact(x, e);
      KnownMaps(x, e);
    } else {
      UnknownEntryAbsent(x, e);
    }
  }

  lemma KnownEntryExact(x: Sock2Index, e: Entry)
    requires Valid(x) && e.0 in x.sockTree
    ensures e in Entries(x) <==> 0 < e.1 && x.portMaps[x.sockTree[e.0]][e.1 - 1] == e.2 != 0
  {
    var ips := Addresses(x);
    var rows := RowsOf(x, ips);
    var k := AddressAt(x, e.0);
    assert rows[k] == x.portMaps[x.sockTree[e.0]];
    ListingExact(ips, rows, k, e);
  }

  /** Where a known address sits among `Addresses`. */
  lemma AddressAt(x: Sock2Index, ip: uint32) returns (k: nat)
    requires ip in x.sockTree
    ensures k < |Addresses(x)| && Addresses(x)[k] == ip
  {
    var ips := Addresses(x);
    assert ip in ips;
    k :| 0 <= k < |ips| && ips[k] == ip;
  }

  lemma KnownMaps(x: Sock2Index, e: Entry)
    requires Valid(x) && e.0 in x.sockTree
    ensures Maps(x, e) <==> 0 < e.1 && x.portMaps[x.sockTree[e.0]][e.1 - 1] == e.2 != 0
  {
  }

  lemma UnknownEntryAbsent(x: Sock2Index, e: Entry)
    requires Valid(x) && e.0 !in x.sockTree
    ensures e !in Entries(x) && !Maps(x, e)
  {
    var ips := Addresses(x);
    var listed := Listing(ips, RowsOf(x, ips));
    assert forall j :: 0 <= j < |listed| ==> listed[j].0 != e.0;
  }

  /** `values()`: the stored slot numbers, ordered by address and then by port. */
  function Values(x: Sock2Index): (r: seq<uint16>)
    requires Valid(x)
    ensures |r| == |Entries(x)|
    ensures forall i :: 0 <= i < |r| ==> r[i] == Entries(x)[i].2 && r[i] != 0
  {
    SlotsOf(Entries(x))
  }

  /** The slot component of each entry, in order. */
  function SlotsOf(es: seq<Entry>): (r: seq<uint16>)
    ensures |r| == |es| && forall i :: 0 <= i < |r| ==> r[i] == es[i].2
  {
    if es == [] then [] else [es[0].2] + SlotsOf(es[1..])
  }
}
