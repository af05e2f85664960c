/** IPv4 addresses as 32-bit numbers, and the positions of addresses relative to the start of
    a scope. */
module Address {
  import opened Basics

  /** `dhcp.IPRange`: how many addresses from start to stop, negative or zero when descending. */
  function IPRange(start: u32, stop: u32): int {
    stop - start + 1
  }

  /** `dhcp.IPAdd`: unsigned 32-bit addition of a possibly negative offset. */
  function IPAdd(start: u32, add: int): u32 {
    (start + add) % TWO_32
  }

  /** Unsigned 32-bit subtraction, as Discover and the configuration compute positions. */
  function Position(start: u32, address: u32): u32 {
    (address - start) % TWO_32
  }

  /** `binary.BigEndian.Uint32`. */
  function BigEndian32(b: seq<u8>): (r: u32)
    requires |b| >= 4
  {
    ((b[0] * TWO_8 + b[1]) * TWO_8 + b[2]) * TWO_8 + b[3]
  }

  /** The two ways of computing an index agree on the addresses of the scope, tell them from all
      others, and lead back to the address, also for a static address outside the scope. */
  lemma IndexArithmetic(start: u32, end: u32, a: u32)
    requires start <= end
    ensures Position(start, a) < IPRange(start, end) <==> start <= a <= end
    ensures 0 <= IPRange(start, a) - 1 < IPRange(start, end) <==> start <= a <= end
    ensures start <= a <= end ==> Position(start, a) == IPRange(start, a) - 1
    ensures IPAdd(start, Position(start, a)) == a
  {
  }

  /** Inside a scope that does not wrap, an index and its address determine each other. */
  lemma IndexRoundTrip(start: u32, range: nat, i: nat)
    requires i < range && start + range <= TWO_32
    ensures IPAdd(start, i) == start + i
    ensures Position(start, IPAdd(start, i)) == i
    ensures IPRange(start, IPAdd(start, i)) - 1 == i
  {
  }

  /** Different positions are different addresses. */
  lemma AddressInjective(start: u32, i: u32, j: u32)
    requires IPAdd(start, i) == IPAdd(start, j)
    ensures i == j
  {
  }
}
