/**
 * The arithmetic of an address block: octets, network and broadcast
 * addresses, the usable host range and the host count.
 */
module Blocks {
  import opened Ipv4

  /** Every octet of a word is at most 255. */
  lemma OctetsBounded(ip: bv32)
    ensures forall i :: 0 <= i < 4 ==> Octets(ip)[i] <= 255
  {
  }

  /** Splitting a word into octets and packing them again gives the word back. */
  lemma PackOctets(ip: bv32)
    ensures Pack(Octets(ip)[0], Octets(ip)[1], Octets(ip)[2], Octets(ip)[3]) == ip
  {
  }

  /** Packing four octets and splitting the word again gives the octets back. */
  lemma OctetsOfPack(a0: bv32, a1: bv32, a2: bv32, a3: bv32)
    requires a0 <= 255 && a1 <= 255 && a2 <= 255 && a3 <= 255
    ensures Octets(Pack(a0, a1, a2, a3)) == [a0, a1, a2, a3]
  {
  }

  /** The octets of a value built from four octets are those octets. */
  lemma FromOctetsToOctets(a0: bv32, a1: bv32, a2: bv32, a3: bv32, p: bv32)
    requires a0 <= 255 && a1 <= 255 && a2 <= 255 && a3 <= 255 && p <= 32
    ensures Cidr.FromOctets(a0, a1, a2, a3, p).ToOctets() == [a0, a1, a2, a3]
  {
    OctetsOfPack(a0, a1, a2, a3);
  }

  lemma ClearedBits(a: bv32, m: bv32)
    ensures (a & m) & m == a & m
    ensures (a & m) & !m == 0
  {
  }

  lemma SetBits(a: bv32, m: bv32)
    ensures (a | !m) & m == a & m
    ensures (a | !m) & !m == !m
  {
  }

  /**
   * The network address agrees with the address on the bits the mask
   * selects and is zero on the others.
   */
  lemma NetworkBits(c: Cidr)
    ensures c.Network().address & c.netmask == c.address & c.netmask
    ensures c.Network().address & !c.netmask == 0
  {
    ClearedBits(c.address, c.netmask);
  }

  /**
   * The broadcast address agrees with the address on the bits the mask
   * selects and is one on the others.
   */
  lemma BroadcastBits(c: Cidr)
    ensures c.Broadcast().address & c.netmask == c.address & c.netmask
    ensures c.Broadcast().address & !c.netmask == !c.netmask
  {
    SetBits(c.address, c.netmask);
  }

  /** The address lies between the network and the broadcast address. */
  lemma AddressWithinBlock(c: Cidr)
    ensures c.Network().address <= c.address <= c.Broadcast().address
  {
  }

  /** Every word that agrees with the address on the masked bits lies in the block. */
  lemma BlockMember(c: Cidr, x: bv32)
    requires x & c.netmask == c.address & c.netmask
    ensures c.Network().address <= x <= c.Broadcast().address
  {
  }

  /** A block of prefix length 32 is the single address. */
  lemma SingleAddress(c: Cidr)
    requires c.netmask == Mask(32)
    ensures c.Network().address == c.address == c.Broadcast().address
  {
  }

  /** A mask of prefix length at most 30 leaves the two lowest bits clear. */
  lemma TwoHostBits(p: bv32)
    requires p <= 30
    ensures Mask(p) & 3 == 0
  {
  }

  /** The first host follows the network address and the last host precedes the broadcast address. */
  lemma HostEndsOfBlock(c: Cidr)
    ensures c.HostMin().address == c.Network().address + 1
    ensures c.HostMax().address == c.Broadcast().address - 1
  {
  }

  /** The first host lies above the network address: adding one to it cannot wrap around. */
  lemma FirstAbove(x: bv32)
    requires x & 3 == 0
    ensures x < x + 1
  {
  }

  /** The last host lies below the broadcast address: subtracting one from it cannot wrap around. */
  lemma LastBelow(b: bv32)
    requires b & 3 == 3
    ensures b - 1 < b
  {
  }

  /** With two host bits the block holds at least four addresses, so the first host is not past the last. */
  lemma FirstBeforeLast(a: bv32, m: bv32)
    requires m & 3 == 0
    ensures (a & m) + 1 <= (a | !m) - 1
  {
  }

  lemma NetworkBeforeHostMin(c: Cidr)
    requires c.netmask & 3 == 0
    ensures c.Network().address < c.HostMin().address
  {
    FirstAbove(c.address & c.netmask);
  }

  lemma HostMinBeforeHostMax(c: Cidr)
    requires c.netmask & 3 == 0
    ensures c.HostMin().address <= c.HostMax().address
  {
    FirstBeforeLast(c.address, c.netmask);
  }

  lemma HostMaxBeforeBroadcast(c: Cidr)
    requires c.netmask & 3 == 0
    ensures c.HostMax().address < c.Broadcast().address
  {
    LastBelow(c.address | !c.netmask);
  }

  /**
   * With at least two host bits the first and last host lie strictly
   * inside the block, first before last.
   */
  lemma HostRange(c: Cidr, p: bv32)
    requires p <= 30 && c.netmask == Mask(p)
    ensures c.Network().address < c.HostMin().address <= c.HostMax().address < c.Broadcast().address
  {
    TwoHostBits(p);
    NetworkBeforeHostMin(c);
    HostMinBeforeHostMax(c);
    HostMaxBeforeBroadcast(c);
  }

  // The host count. Each lemma below either unfolds one definition or
  // rewrites one term, so that the solver never has to match arithmetic
  // against an unfolded definition.

  /** Setting the host bits adds them, since the network address has none of them set. */
  lemma DisjointSum(a: bv32, m: bv32)
    ensures a | !m == (a & m) + !m
  {
  }

  lemma Cancel(x: bv32, n: bv32)
    ensures ((x + n) - 1) - (x + 1) + 1 == n - 1
  {
  }

  /** The host count as the program computes it, on the address and mask words. */
  lemma HostCount(a: bv32, m: bv32)
    ensures ((a | !m) - 1) - ((a & m) + 1) + 1 == !m - 1
  {
    DisjointSum(a, m);
    Cancel(a & m, !m);
  }

  lemma SpanValue(first: bv32, last: bv32)
    ensures Span(first, last) == last - first + 1
  {
  }

  /** From the first to the last host of a block there are as many addresses as host-bit patterns, less two. */
  lemma SpanOfBlock(a: bv32, m: bv32)
    ensures Span((a & m) + 1, (a | !m) - 1) == !m - 1
  {
    calc {
      Span((a & m) + 1, (a | !m) - 1);
      { SpanValue((a & m) + 1, (a | !m) - 1); }
      ((a | !m) - 1) - ((a & m) + 1) + 1;
      { HostCount(a, m); }
      !m - 1;
    }
  }

  lemma HostMinValue(c: Cidr)
    ensures c.HostMin() == Cidr((c.address & c.netmask) + 1, 0)
  {
  }

  lemma HostMaxValue(c: Cidr)
    ensures c.HostMax() == Cidr((c.address | !c.netmask) - 1, 0)
  {
  }

  lemma NumHostsValue(c: Cidr)
    ensures c.NumHosts() == Span(c.HostMin().address, c.HostMax().address)
  {
  }

  lemma HostEnds(c: Cidr)
    ensures Span(c.HostMin().address, c.HostMax().address)
         == Span((c.address & c.netmask) + 1, (c.address | !c.netmask) - 1)
  {
    HostMinValue(c);
    HostMaxValue(c);
  }

  lemma NumHostsSpan(c: Cidr)
    ensures c.NumHosts() == Span((c.address & c.netmask) + 1, (c.address | !c.netmask) - 1)
  {
    NumHostsValue(c);
    HostEnds(c);
  }

  /** The host count is the number of host-bit patterns less two, in 32-bit arithmetic. */
  lemma NumHostsOfMask(c: Cidr)
    ensures c.NumHosts() == !c.netmask - 1
  {
    NumHostsSpan(c);
    SpanOfBlock(c.address, c.netmask);
  }

  /** The host bits of prefix length p form the number 2^(32 - p) - 1. */
  lemma HostPatterns(p: bv32)
    requires p <= 32
    ensures !Mask(p) == (1 << (32 - p)) - 1
  {
  }

  /** The host count of prefix length p is 2^(32 - p) - 2, modulo 2^32. */
  lemma NumHostsOfPrefix(c: Cidr, p: bv32)
    requires p <= 32 && c.netmask == Mask(p)
    ensures c.NumHosts() == (1 << (32 - p)) - 2
  {
    calc {
      c.NumHosts();
      { NumHostsOfMask(c); }
      !c.netmask - 1;
      !Mask(p) - 1;
      { HostPatterns(p); }
      ((1 << (32 - p)) - 1) - 1;
      (1 << (32 - p)) - 2;
    }
  }

  /** Host counts of common prefix lengths. */
  lemma NumHostsExamples(c: Cidr)
    ensures c.netmask == Mask(24) ==> c.NumHosts() == 254
    ensures c.netmask == Mask(8) ==> c.NumHosts() == 16777214
    ensures c.netmask == Mask(30) ==> c.NumHosts() == 2
  {
    NumHostsOfMask(c);
  }

  /**
   * The prefix lengths without two host bits wrap around: /31 has no
   * hosts, /32 has 2^32 - 1 of them. /0 has 2^32 - 2.
   */
  lemma NumHostsWrapped(c: Cidr)
    ensures c.netmask == Mask(31) ==> c.NumHosts() == 0
    ensures c.netmask == Mask(32) ==> c.NumHosts() == 0xffff_ffff
    ensures c.netmask == Mask(0) ==> c.NumHosts() == 0xffff_fffe
  {
    NumHostsOfMask(c);
  }
}
