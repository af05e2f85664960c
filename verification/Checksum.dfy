/** The Internet checksum of the raw packets: sections 1 and 2 of RFC 1071, with the rule of RFC 768
    that a zero checksum is sent as all ones. */
module Checksum {
  import opened Basics

  type Bytes = seq<u8>

  const ALL_ONES: int := 0xffff

  /** The sum of the big-endian 16-bit words, an odd last byte being padded with zero. */
  function WordSum(b: Bytes): nat {
    if |b| == 0 then 0
    else if |b| == 1 then b[0] * TWO_8
    else b[0] * TWO_8 + b[1] + WordSum(b[2..])
  }

  function Words(b: Bytes): nat {
    (|b| + 1) / 2
  }

  /** One's-complement end-around carry until the sum fits 16 bits. */
  function Fold(sum: nat): (r: nat)
    ensures r <= ALL_ONES
  {
    if sum <= ALL_ONES then sum else Fold(sum / TWO_16 + sum % TWO_16)
  }

  /** The one's-complement sum a receiver computes. */
  function OnesSum(b: Bytes): nat {
    Fold(WordSum(b))
  }

  function Complement(sum: nat): (r: u16)
    requires sum <= ALL_ONES
    ensures r != 0
  {
    if sum == ALL_ONES then ALL_ONES else ALL_ONES - sum
  }

  /** What `checksum` returns. */
  function ChecksumOf(b: Bytes): u16 {
    Complement(OnesSum(b))
  }

  // ---------- Folding is reduction modulo 65535 ----------

  /** Folding keeps the residue modulo 65535 and only zero folds to zero. */
  lemma {:induction false} FoldIsResidue(n: nat)
    ensures Fold(n) == if n == 0 then 0 else (n - 1) % ALL_ONES + 1
  {
    if n > ALL_ONES {
      var k := n / TWO_16 + n % TWO_16;
      FoldIsResidue(k);
      assert n - 1 == (k - 1) + (n / TWO_16) * ALL_ONES;
      ModPlusMultiple(k - 1, n / TWO_16);
    } else if n > 0 {
      assert (n - 1) % ALL_ONES == n - 1;
    }
  }

  lemma {:induction false} ModPlusMultiple(a: nat, k: nat)
    ensures (a + k * ALL_ONES) % ALL_ONES == a % ALL_ONES
  {
  }

  /** Adding the checksum of a sum makes it fold to all ones. */
  lemma ComplementCompletes(n: nat)
    ensures Fold(n + Complement(Fold(n))) == ALL_ONES
  {
    var f := Fold(n);
    var m := n + Complement(f);
    FoldIsResidue(n);
    FoldIsResidue(m);
    var q := if n == 0 then 0 else (n - 1) / ALL_ONES;
    assert n == q * ALL_ONES + f;
    if f == ALL_ONES {
      assert m - 1 == ALL_ONES - 1 + (q + 1) * ALL_ONES;
      ModPlusMultiple(ALL_ONES - 1, q + 1);
    } else {
      assert m - 1 == ALL_ONES - 1 + q * ALL_ONES;
      ModPlusMultiple(ALL_ONES - 1, q);
    }
  }

  // ---------- The implementation ----------

  lemma {:induction false} WordSumBound(b: Bytes)
    ensures WordSum(b) <= Words(b) * ALL_ONES
  {
    if |b| >= 2 {
      WordSumBound(b[2..]);
      assert Words(b) == Words(b[2..]) + 1;
    }
  }

  /** Up to 65537 words the 32-bit accumulator holds the exact sum. */
  lemma NoOverflow(b: Bytes)
    requires Words(b) <= 65537
    ensures WordSum(b) < TWO_32
  {
    WordSumBound(b);
  }

  /** n words of all ones. */
  function OnesWords(n: nat): (b: Bytes)
    ensures |b| == 2 * n && Words(b) == n
  {
    if n == 0 then [] else [0xff, 0xff] + OnesWords(n - 1)
  }

  lemma {:induction false} OnesWordsSum(n: nat)
    ensures WordSum(OnesWords(n)) == n * ALL_ONES
  {
    if n > 0 {
      OnesWordsSum(n - 1);
      assert OnesWords(n)[2..] == OnesWords(n - 1);
    }
  }

  /** The bound is exact: from 65538 words on some buffer overflows the accumulator. */
  lemma OverflowBoundIsExact(n: nat)
    ensures (forall b: Bytes :: Words(b) == n ==> WordSum(b) < TWO_32) <==> n <= 65537
  {
    if n <= 65537 {
      forall b: Bytes | Words(b) == n
        ensures WordSum(b) < TWO_32
      {
        NoOverflow(b);
      }
    } else {
      OnesWordsSum(n);
      assert Words(OnesWords(n)) == n;
    }
  }

  /** The 32-bit accumulator after the buffer; it wraps around. */
  method Accumulate(buf: Bytes) returns (sum: nat)
    ensures sum == WordSum(buf) % TWO_32
  {
    sum := 0;
    var rest := buf;
    while |rest| >= 2
      invariant sum < TWO_32 && (sum + WordSum(rest)) % TWO_32 == WordSum(buf) % TWO_32
      decreases |rest|
    {
      WrapAdd(sum + rest[0] * TWO_8 + rest[1], WordSum(rest[2..]));
      sum := (sum + rest[0] * TWO_8 + rest[1]) % TWO_32;
      rest := rest[2..];
    }
    if |rest| > 0 {
      sum := (sum + rest[0] * TWO_8) % TWO_32;
    }
  }

  /** The checksum as computed. */
  method Sum(buf: Bytes) returns (csum: u16)
    ensures csum == Complement(Fold(WordSum(buf) % TWO_32))
    ensures Words(buf) <= 65537 ==> csum == ChecksumOf(buf)
    ensures csum != 0
  {
    var sum: nat := Accumulate(buf);
    if Words(buf) <= 65537 {
      NoOverflow(buf);
    }
    while sum > ALL_ONES
      invariant Fold(sum) == Fold(WordSum(buf) % TWO_32)
      decreases sum
    {
      sum := sum / TWO_16 + sum % TWO_16;
    }
    csum := ALL_ONES - sum;
    if csum == 0 {
      csum := ALL_ONES;
    }
  }

  lemma WrapAdd(a: nat, b: nat)
    ensures (a % TWO_32 + b) % TWO_32 == (a + b) % TWO_32
  {
  }

  // ---------- Inserting the checksum ----------

  function BigEndian16(x: u16): (b: Bytes)
    ensures |b| == 2
  {
    [x / TWO_8, x % TWO_8]
  }

  lemma {:induction false} WordSumAppend(a: Bytes, b: Bytes)
    requires |a| % 2 == 0
    ensures WordSum(a + b) == WordSum(a) + WordSum(b)
  {
    if a == [] {
      assert a + b == b;
    } else {
      WordSumAppend(a[2..], b);
      assert (a + b)[2..] == a[2..] + b;
    }
  }

  /** An odd length acts as if padded with a zero byte. */
  lemma {:induction false} OddIsPadded(b: Bytes)
    requires |b| % 2 == 1
    ensures WordSum(b) == WordSum(b + [0])
  {
    if |b| >= 3 {
      OddIsPadded(b[2..]);
      assert (b + [0])[2..] == b[2..] + [0];
    }
  }

  lemma WordSumField(before: Bytes, x: u16, after: Bytes)
    requires |before| % 2 == 0
    ensures WordSum(before + BigEndian16(x) + after) == WordSum(before) + x + WordSum(after)
  {
    WordSumAppend(before + BigEndian16(x), after);
    WordSumAppend(before, BigEndian16(x));
    assert BigEndian16(x)[2..] == [];
  }

  /** The central law: with the checksum computed over a zeroed field inserted into that field, the
      receiver's sum is all ones. */
  lemma InsertedChecksumVerifies(before: Bytes, after: Bytes)
    requires |before| % 2 == 0
    ensures OnesSum(before + BigEndian16(ChecksumOf(before + BigEndian16(0) + after)) + after) == ALL_ONES
  {
    var zeroed := before + BigEndian16(0) + after;
    WordSumField(before, 0, after);
    WordSumField(before, ChecksumOf(zeroed), after);
    ComplementCompletes(WordSum(zeroed));
  }

  // ---------- The headers ----------

  type Address4 = b: Bytes | |b| == 4 witness [0, 0, 0, 0]

  class IpHeader {
    var vhl: u8
    var tos: u8
    var iplen: u16
    var id: u16
    var off: u16
    var ttl: u8
    var proto: u8
    var csum: u16
    var src: Address4
    var dst: Address4

    function Before(): (b: Bytes)
      reads this
      ensures |b| == 10
    {
      [vhl, tos] + BigEndian16(iplen) + BigEndian16(id) + BigEndian16(off) + [ttl, proto]
    }

    /** The header as `binary.Write` lays it out. */
    function Layout(): (b: Bytes)
      reads this
      ensures |b| == 20
    {
      Before() + BigEndian16(csum) + (src + dst)
    }

    constructor (proto: u8, src: Address4, dst: Address4)
      ensures this.proto == proto && this.src == src && this.dst == dst
      ensures vhl == 0x45 && ttl == 128 && tos == 0 && id == 0 && off == 0
    {
      vhl, tos, iplen, id, off, ttl := 0x45, 0, 0, 0, 0, 128;
      this.proto, csum, this.src, this.dst := proto, 0, src, dst;
    }

    method SetChecksum()
      modifies this`csum
      ensures OnesSum(Layout()) == ALL_ONES && csum != 0
    {
      csum := 0;
      var c := Sum(Layout());
      InsertedChecksumVerifies(Before(), src + dst);
      csum := c;
    }
  }

  class UdpHeader {
    var src: u16
    var dst: u16
    var ulen: u16
    var csum: u16

    function Before(): (b: Bytes)
      reads this
      ensures |b| == 6
    {
      BigEndian16(src) + BigEndian16(dst) + BigEndian16(ulen)
    }

    function Layout(): (b: Bytes)
      reads this
      ensures |b| == 8
    {
      Before() + BigEndian16(csum)
    }

    /** The pseudo header of RFC 768. */
    function Pseudo(ip: IpHeader): (b: Bytes)
      reads this, ip
      ensures |b| == 12
    {
      ip.src + ip.dst + [0, ip.proto] + BigEndian16(ulen)
    }

    /** What the receiver sums: pseudo header, header and payload. */
    function Covered(ip: IpHeader, payload: Bytes): Bytes
      reads this, ip
    {
      Pseudo(ip) + Layout() + payload
    }

    constructor (src: u16, dst: u16, ulen: u16)
      ensures this.src == src && this.dst == dst && this.ulen == ulen
    {
      this.src, this.dst, this.ulen, csum := src, dst, ulen, 0;
    }

    method SetChecksum(ip: IpHeader, payload: Bytes)
      modifies this`csum
      ensures csum != 0
      ensures |payload| <= 65535 - 8 ==> OnesSum(Covered(ip, payload)) == ALL_ONES
    {
      csum := 0;
      var c := Sum(Covered(ip, payload));
      ghost var before := Pseudo(ip) + Before();
      assert Covered(ip, payload) == before + BigEndian16(0) + payload;
      InsertedChecksumVerifies(before, payload);
      csum := c;
      assert Covered(ip, payload) == before + BigEndian16(c) + payload;
    }
  }

  /** The bytes of the packet a receiver looks at, by their offsets in RFC 791 and RFC 768. */
  ghost predicate Laid(packet: Bytes, dhcp: Bytes, srcIP: Address4, dstIP: Address4) {
    && |packet| == 28 + |dhcp|
    && packet[0] == 0x45 && packet[1] == 0 && packet[4..8] == [0, 0, 0, 0]
    && packet[8] == 128 && packet[9] == 17
    && packet[12..16] == srcIP && packet[16..20] == dstIP
    && packet[20..24] == [0, 67, 0, 68] && packet[28..] == dhcp
  }

  /** A receiver accepts the packet: both length fields are the real lengths, the header sums to all ones, and so
      does the datagram after the pseudo header made of its addresses, protocol and length. */
  ghost predicate Accepted(packet: Bytes)
    requires |packet| >= 28
  {
    && packet[2] as int * 256 + packet[3] as int == |packet|
    && packet[24] as int * 256 + packet[25] as int == |packet| - 20
    && OnesSum(packet[..20]) == ALL_ONES
    && OnesSum(packet[12..20] + [0, packet[9]] + packet[24..26] + packet[20..]) == ALL_ONES
  }

  lemma LaidOut(ip: IpHeader, udp: UdpHeader, dhcp: Bytes)
    ensures var packet := ip.Layout() + (udp.Layout() + dhcp);
            && |packet| == 28 + |dhcp| && packet[..20] == ip.Layout() && packet[20..] == udp.Layout() + dhcp
            && packet[0] == ip.vhl && packet[1] == ip.tos && packet[2..4] == BigEndian16(ip.iplen)
            && packet[4..8] == BigEndian16(ip.id) + BigEndian16(ip.off) && packet[8] == ip.ttl && packet[9] == ip.proto
            && packet[12..16] == ip.src && packet[16..20] == ip.dst
            && packet[20..24] == BigEndian16(udp.src) + BigEndian16(udp.dst)
            && packet[24..26] == BigEndian16(udp.ulen) && packet[28..] == dhcp
  {
    var packet := ip.Layout() + (udp.Layout() + dhcp);
    assert packet[..20] == ip.Layout() && packet[20..] == udp.Layout() + dhcp;
    assert packet[..10] == ip.Before();
    assert packet[12..20] == ip.src + ip.dst;
    assert packet[20..26] == udp.Before();
    assert packet[20..28] == udp.Layout();
  }

  lemma PseudoOf(ip: IpHeader, udp: UdpHeader, dhcp: Bytes)
    ensures var packet := ip.Layout() + (udp.Layout() + dhcp);
            && |packet| >= 28
            && packet[12..20] + [0, packet[9]] + packet[24..26] + packet[20..] == udp.Covered(ip, dhcp)
  {
    LaidOut(ip, udp, dhcp);
    var packet := ip.Layout() + (udp.Layout() + dhcp);
    assert packet[12..20] == packet[12..16] + packet[16..20];
    assert udp.Covered(ip, dhcp) == udp.Pseudo(ip) + (udp.Layout() + dhcp);
  }

  lemma PacketLaid(ip: IpHeader, udp: UdpHeader, dhcp: Bytes, srcIP: Address4, dstIP: Address4)
    requires ip.vhl == 0x45 && ip.tos == 0 && ip.id == 0 && ip.off == 0 && ip.ttl == 128 && ip.proto == 17
    requires ip.src == srcIP && ip.dst == dstIP && udp.src == 67 && udp.dst == 68
    ensures Laid(ip.Layout() + (udp.Layout() + dhcp), dhcp, srcIP, dstIP)
  {
    LaidOut(ip, udp, dhcp);
  }

  lemma PacketAccepted(ip: IpHeader, udp: UdpHeader, dhcp: Bytes)
    requires ip.iplen == 28 + |dhcp| && udp.ulen == 8 + |dhcp|
    requires OnesSum(ip.Layout()) == ALL_ONES && OnesSum(udp.Covered(ip, dhcp)) == ALL_ONES
    ensures |ip.Layout() + (udp.Layout() + dhcp)| >= 28 && Accepted(ip.Layout() + (udp.Layout() + dhcp))
  {
    var packet := ip.Layout() + (udp.Layout() + dhcp);
    LaidOut(ip, udp, dhcp);
    PseudoOf(ip, udp, dhcp);
    assert packet[2] == packet[2..4][0] && packet[3] == packet[2..4][1];
    assert packet[24] == packet[24..26][0] && packet[25] == packet[24..26][1];
  }

  /** The packet `sendDHCP` puts into the frame. For every payload that fits, the length fields are the
      real lengths and both checksums verify at the receiver. */
  method BuildPacket(dhcp: Bytes, srcIP: Address4, dstIP: Address4)
    returns (packet: Bytes, ghost ip: IpHeader, ghost udp: UdpHeader)
    ensures fresh(ip) && fresh(udp)
    ensures packet == ip.Layout() + (udp.Layout() + dhcp)
    ensures ip.csum != 0 && udp.csum != 0
    ensures Laid(packet, dhcp, srcIP, dstIP)
    ensures OnesSum(packet[..20]) == ALL_ONES
    ensures |dhcp| <= 65535 - 28 ==> Accepted(packet)
  {
    var i := new IpHeader(17, srcIP, dstIP);
    var udplen := 8 + |dhcp|;
    var u := new UdpHeader(67, 68, udplen % TWO_16);
    u.SetChecksum(i, dhcp);
    ghost var pseudo := u.Pseudo(i);
    i.iplen := (20 + udplen) % TWO_16;
    i.SetChecksum();
    assert u.Pseudo(i) == pseudo;
    packet := i.Layout() + (u.Layout() + dhcp);
    LaidOut(i, u, dhcp);
    PacketLaid(i, u, dhcp, srcIP, dstIP);
    if |dhcp| <= 65535 - 28 {
      PacketAccepted(i, u, dhcp);
    }
    ip, udp := i, u;
  }
}
