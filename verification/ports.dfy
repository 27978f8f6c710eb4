/**
  `shuffle_ports`: the ports first..last in a random order. The random source
  is a parameter: `draws[i]` is the value the generator yields at the step
  that fills position `i`, reduced to the range 0..i.
 */
module Ports {
  import opened Ints

  /** The ports first..last in ascending order; empty when first > last. */
  function PortRange(first: uint16, last: uint16): (r: seq<uint16>)
    requires last < TWO_TO_THE_16 - 1
    ensures |r| == if first <= last then last - first + 1 else 0
    ensures forall i :: 0 <= i < |r| ==> r[i] == first + i
  {
    if first > last then []
    else seq(last - first + 1, i requires 0 <= i < last - first + 1 => (first + i) as uint16)
  }

  /** `s` with the elements at `i` and `j` exchanged. */
  function Swap(s: seq<uint16>, i: nat, j: nat): (r: seq<uint16>)
    requires i < |s| && j < |s|
    ensures |r| == |s| && multiset(r) == multiset(s)
    ensures r[i] == s[j] && r[j] == s[i]
    ensures forall k :: 0 <= k < |s| && k != i && k != j ==> r[k] == s[k]
  {
    s[i := s[j]][j := s[i]]
  }

  /**
    Allocates the range first..last and shuffles it in place, walking the
    positions from the back and exchanging each with a drawn position not
    after it. `last + 1` overflows `u16` for last = 65535, so that port is
    excluded.
   */
  method ShufflePorts(first: uint16, last: uint16, draws: seq<nat>) returns (ports: seq<uint16>)
    requires last < TWO_TO_THE_16 - 1
    requires |draws| >= |PortRange(first, last)|
    ensures multiset(ports) == multiset(PortRange(first, last))
    ensures |ports| == |PortRange(first, last)|
    ensures forall p :: p in ports ==> first <= p <= last
  {
    ports := [];
    var next: int := first;
    while next <= last
      invariant first <= next <= last + 1 || (first > last && next == first)
      invariant ports == PortRange(first, last)[..next - first]
      decreases last + 1 - next
    {
      ports := ports + [next as uint16];
      next := next + 1;
    }
    assert ports == PortRange(first, last);
    var i := |ports|;
    while i > 1
      invariant 0 <= i <= |ports|
      invariant multiset(ports) == multiset(PortRange(first, last))
      invariant |ports| == |PortRange(first, last)|
    {
      i := i - 1;
      ports := Swap(ports, i, draws[i] % (i + 1));
    }
    forall p | p in ports
      ensures first <= p <= last
    {
      assert p in multiset(PortRange(first, last));
    }
  }

  /** The sum of the elements of `s`. */
  function Sum(s: seq<uint16>): nat {
    if s == [] then 0 else s[0] + Sum(s[1..])
  }

  /** Summing around one removed element. */
  lemma {:induction false} SumRemove(s: seq<uint16>, k: nat)
    requires k < |s|
    ensures Sum(s) == s[k] + Sum(s[..k] + s[k + 1..])
    decreases |s|
  {
    if k > 0 {
      SumRemove(s[1..], k - 1);
      assert s[1..][..k - 1] + s[1..][k..] == (s[..k] + s[k + 1..])[1..];
    } else {
      assert s[..k] + s[k + 1..] == s[1..];
    }
  }

  /** Dropping one element drops one occurrence. */
  lemma RemoveOne(s: seq<uint16>, k: nat)
    requires k < |s|
    ensures multiset(s[..k] + s[k + 1..]) == multiset(s) - multiset{s[k]}
  {
    assert s == s[..k] + [s[k]] + s[k + 1..];
    assert multiset(s) == multiset(s[..k]) + multiset{s[k]} + multiset(s[k + 1..]);
  }

  /** Reordering does not change a sum. */
  lemma {:induction false} SumOfPermutation(a: seq<uint16>, b: seq<uint16>)
    requires multiset(a) == multiset(b)
    ensures Sum(a) == Sum(b)
    decreases |a|
  {
    if a != [] {
      assert a[0] in multiset(b);
      var k :| 0 <= k < |b| && b[k] == a[0];
      var rest := b[..k] + b[k + 1..];
      RemoveOne(b, k);
      assert a == [a[0]] + a[1..];
      assert multiset(a) == multiset{a[0]} + multiset(a[1..]);
      SumOfPermutation(a[1..], rest);
      SumRemove(b, k);
    } else {
      assert |b| == |multiset(b)| == 0;
    }
  }

  /** The ports first..last sum to the arithmetic series. */
  lemma {:induction false} SumOfRange(first: uint16, last: uint16)
    requires first <= last < TWO_TO_THE_16 - 1
    ensures 2 * Sum(PortRange(first, last)) == (first + last) * (last - first + 1)
    decreases last - first
  {
    var r := PortRange(first, last);
    if first < last {
      SumOfRange(first + 1, last);
      assert r[1..] == PortRange(first + 1, last);
    } else {
      assert r == [first];
    }
  }

  /** However a range is shuffled, it adds up to the arithmetic series. */
  lemma ShuffledSum(first: uint16, last: uint16, ports: seq<uint16>)
    requires first <= last < TWO_TO_THE_16 - 1
    requires multiset(ports) == multiset(PortRange(first, last))
    ensures 2 * Sum(ports) == (first + last) * (last - first + 1)
  {
    SumOfPermutation(ports, PortRange(first, last));
    SumOfRange(first, last);
  }

  /** However the ports 0..100 are shuffled, they add up to 5050. */
  lemma ShuffledHundredSums(ports: seq<uint16>)
    requires multiset(ports) == multiset(PortRange(0, 100))
    ensures Sum(ports) == 5050
  {
    ShuffledSum(0, 100, ports);
  }
}
