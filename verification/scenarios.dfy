/** The report for one block worked out in full: 192.168.1.0/24. */
module Scenarios {
  import opened Numerals
  import opened Ipv4
  import opened Blocks
  import opened Renderings

  lemma Dec168()
    ensures Dec(168) == "168"
  {
    assert Dec(16) == "16";
  }

  lemma Dec192()
    ensures Dec(192) == "192"
  {
    assert Dec(19) == "19";
  }

  lemma Dec254()
    ensures Dec(254) == "254"
  {
    assert Dec(25) == "25";
  }

  lemma Dec255()
    ensures Dec(255) == "255"
  {
    assert Dec(25) == "25";
  }

  lemma Dotted(ip: bv32, a0: bv32, a1: bv32, a2: bv32, a3: bv32)
    requires a0 <= 255 && a1 <= 255 && a2 <= 255 && a3 <= 255 && ip == Pack(a0, a1, a2, a3)
    ensures Cidr.ToString(ip) == Dec(a0 as nat) + "." + Dec(a1 as nat) + "." + Dec(a2 as nat) + "." + Dec(a3 as nat)
  {
    OctetsOfPack(a0, a1, a2, a3);
  }

  lemma Mask24()
    ensures Cidr.ToString(Mask(24)) == "255.255.255.0"
  {
    Dotted(Mask(24), 255, 255, 255, 0);
    Dec255();
  }

  lemma Host(last: bv32, text: string)
    requires last <= 255 && text == Dec(last as nat)
    ensures Cidr.ToString(Pack(192, 168, 1, last)) == "192.168.1." + text
  {
    Dotted(Pack(192, 168, 1, last), 192, 168, 1, last);
    Dec192();
    Dec168();
  }

  lemma Reverse()
    ensures Cidr.ToString(Pack(0, 1, 168, 192)) == "0.1.168.192"
  {
    Dotted(Pack(0, 1, 168, 192), 0, 1, 168, 192);
    Dec192();
    Dec168();
  }

  /**
   * For 192.168.1.0/24 the mask is 255.255.255.0, the block runs from
   * 192.168.1.0 to 192.168.1.255, the hosts from 192.168.1.1 to
   * 192.168.1.254, there are 254 of them, and the reverse-lookup name is
   * 0.1.168.192.in-addr.arpa.
   */
  lemma Block24()
    ensures var c := Cidr.FromOctets(192, 168, 1, 0, 24);
            c.Netmask().ToStringIp() == "255.255.255.0" &&
            c.Network().ToStringIp() == "192.168.1.0" &&
            c.HostMin().ToStringIp() == "192.168.1.1" &&
            c.HostMax().ToStringIp() == "192.168.1.254" &&
            c.Broadcast().ToStringIp() == "192.168.1.255" &&
            c.NumHosts() == 254 &&
            c.ReverseDns() == "0.1.168.192.in-addr.arpa"
  {
    var c := Cidr.FromOctets(192, 168, 1, 0, 24);
    assert c.Network().address == Pack(192, 168, 1, 0);
    assert c.HostMin().address == Pack(192, 168, 1, 1);
    assert c.HostMax().address == Pack(192, 168, 1, 254);
    assert c.Broadcast().address == Pack(192, 168, 1, 255);
    assert ByteSwap(c.address) == Pack(0, 1, 168, 192);
    Mask24();
    Host(0, "0");
    Host(1, "1");
    Dec254();
    Host(254, "254");
    Dec255();
    Host(255, "255");
    NumHostsExamples(c);
    ReverseDnsName(c);
    Reverse();
  }
}
