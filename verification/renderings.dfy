/**
 * What the text renderings of an address say: the dotted-decimal form
 * reads back to the octets, the reverse-lookup name is the dotted form of
 * the byte-swapped address, and the hexadecimal and binary forms have
 * fixed widths and read back to the address.
 */
module Renderings {
  import opened Wrappers
  import opened Bits
  import opened Numerals
  import opened Grammar
  import opened Ipv4
  import opened Blocks

  /** The dotted-quad pattern: four groups of 1-3 digits joined by dots. */
  const Quad: seq<nat> := [3, 3, 3, 3]
  const Dots: string := "..."

  /** The four decimal numerals of the octets of ip, most significant first. */
  function Fields(ip: bv32): (f: seq<string>)
    ensures |f| == 4
    ensures forall i :: 0 <= i < 4 ==> AllDigits(f[i]) && Value(f[i]) == Octets(ip)[i] as nat
  {
    seq(4, i requires 0 <= i < 4 => Dec(Octets(ip)[i] as nat))
  }

  /** Each numeral is one to three digits long, since each octet is at most 255. */
  lemma FieldsFit(ip: bv32)
    ensures Fits(Fields(ip), Quad)
  {
    OctetsBounded(ip);
    forall i | 0 <= i < 4
      ensures 1 <= |Fields(ip)[i]| <= 3
    {
      DecLength(Octets(ip)[i] as nat);
    }
  }

  /** Four texts joined by a separator, grouped to the right or to the left. */
  lemma Regroup(a: string, b: string, c: string, d: string, x: char)
    ensures a + [x] + (b + [x] + (c + [x] + d)) == a + [x] + b + [x] + c + [x] + d
  {
  }

  lemma DottedJoin(ip: bv32)
    ensures Join(Fields(ip), Dots) == Cidr.ToString(ip)
  {
    var f := Fields(ip);
    var t3 := Join(f[3..], "");
    var t2 := Join(f[2..], ".");
    var t1 := Join(f[1..], "..");
    assert t3 == f[3];
    assert t2 == f[2] + ['.'] + t3 by { assert f[2..][1..] == f[3..]; }
    assert t1 == f[1] + ['.'] + t2 by { assert f[1..][1..] == f[2..]; }
    assert Join(f, Dots) == f[0] + ['.'] + t1;
    Regroup(f[0], f[1], f[2], f[3], '.');
  }

  /**
   * The dotted-decimal form of an address is four decimal numerals joined
   * by dots, and read back with the dotted-quad pattern they are the
   * octets of the address, most significant first.
   */
  lemma DottedReadBack(ip: bv32)
    ensures var g := Scan(Cidr.ToString(ip), Quad, Dots);
            g.Some? && |g.value| == 4 &&
            forall i :: 0 <= i < 4 ==> Value(g.value[i]) == Octets(ip)[i] as nat
  {
    FieldsFit(ip);
    DottedJoin(ip);
    ScanComplete(Fields(ip), Quad, Dots);
  }

  /** Distinct addresses have distinct dotted-decimal forms. */
  lemma DottedInjective(x: bv32, y: bv32)
    requires Cidr.ToString(x) == Cidr.ToString(y)
    ensures x == y
  {
    DottedReadBack(x);
    DottedReadBack(y);
    var ox, oy := Octets(x), Octets(y);
    WordOfValue(ox[0]);
    WordOfValue(ox[1]);
    WordOfValue(ox[2]);
    WordOfValue(ox[3]);
    WordOfValue(oy[0]);
    WordOfValue(oy[1]);
    WordOfValue(oy[2]);
    WordOfValue(oy[3]);
    PackOctets(x);
    PackOctets(y);
  }

  /** The address and mask pattern: two dotted quads separated by '/'. */
  const Octet8: seq<nat> := [3, 3, 3, 3, 3, 3, 3, 3]
  const DotsSlashDots: string := ".../..."

  lemma BothFit(x: bv32, y: bv32)
    ensures Fits(Fields(x) + Fields(y), Octet8)
  {
    FieldsFit(x);
    FieldsFit(y);
    FitsAppend(Fields(x), Fields(y), Quad, Quad);
    assert Quad + Quad == Octet8;
  }

  lemma BothJoin(x: bv32, y: bv32)
    ensures Join(Fields(x) + Fields(y), DotsSlashDots) == Cidr.ToString(x) + "/" + Cidr.ToString(y)
  {
    assert DotsSlashDots == Dots + ['/'] + Dots;
    JoinAppend(Fields(x), Fields(y), Dots, '/', Dots);
    DottedJoin(x);
    DottedJoin(y);
  }

  /**
   * The address-and-mask form reads back, with the pattern of two dotted
   * quads separated by '/', to the numerals of the octets of the address
   * followed by those of the mask.
   */
  lemma SubnetReadBack(c: Cidr)
    ensures Scan(c.ToStringIpSubnet(), Octet8, DotsSlashDots) == Some(Fields(c.address) + Fields(c.netmask))
  {
    BothFit(c.address, c.netmask);
    BothJoin(c.address, c.netmask);
    ScanComplete(Fields(c.address) + Fields(c.netmask), Octet8, DotsSlashDots);
  }

  // ---------------------------------------------------------------------
  // Reverse lookup name

  /** The address with its octets in the opposite order. */
  function ByteSwap(ip: bv32): bv32
  {
    var o := Octets(ip);
    Pack(o[3], o[2], o[1], o[0])
  }

  lemma ByteSwapOctets(ip: bv32)
    ensures Octets(ByteSwap(ip)) == [Octets(ip)[3], Octets(ip)[2], Octets(ip)[1], Octets(ip)[0]]
  {
    OctetsBounded(ip);
    var o := Octets(ip);
    OctetsOfPack(o[3], o[2], o[1], o[0]);
  }

  /** Swapping the bytes twice gives the address back. */
  lemma ByteSwapInvolution(ip: bv32)
    ensures ByteSwap(ByteSwap(ip)) == ip
  {
    ByteSwapOctets(ip);
    PackOctets(ip);
  }

  /**
   * The reverse-lookup name is the dotted-decimal form of the byte-swapped
   * address followed by ".in-addr.arpa".
   */
  lemma ReverseDnsName(c: Cidr)
    ensures c.ReverseDns() == Cidr.ToString(ByteSwap(c.address)) + ".in-addr.arpa"
  {
    ByteSwapOctets(c.address);
  }

  // ---------------------------------------------------------------------
  // Fixed-width forms

  /** The hexadecimal form is eight lower-case hexadecimal digits that read back to the address. */
  lemma HexForm(c: Cidr)
    ensures |c.ToStringHex()| == 8
    ensures forall i :: 0 <= i < 8 ==> IsHexDigit(c.ToStringHex()[i])
    ensures ReadHex(c.ToStringHex()) == c.address
  {
    EightNibbles(c.address);
    ReadHexDigits(c.address, 8);
  }

  /** An octet written in eight binary digits reads back to the octet. */
  lemma OctetBits(o: bv32)
    requires o <= 255
    ensures ReadBin(Binary8(o)) == o
  {
    OctetFits(o);
    ReadBinDigits(o, 8);
  }

  /** Where the four texts of eight characters sit in their join. */
  lemma Slices(a: string, b: string, c: string, d: string, x: char)
    requires |a| == |b| == |c| == |d| == 8
    ensures var s := a + [x] + b + [x] + c + [x] + d;
            |s| == 35 && s[8] == s[17] == s[26] == x &&
            s[0..8] == a && s[9..17] == b && s[18..26] == c && s[27..35] == d
  {
  }

  /** The binary form is the binary numerals of the four octets joined by dots. */
  lemma BinaryLayout(c: Cidr)
    ensures var s, o := c.ToStringBinary(), Octets(c.address);
            |s| == 35 && s[8] == s[17] == s[26] == '.' &&
            s[0..8] == Binary8(o[0]) && s[9..17] == Binary8(o[1]) &&
            s[18..26] == Binary8(o[2]) && s[27..35] == Binary8(o[3])
  {
    var o := Octets(c.address);
    Slices(Binary8(o[0]), Binary8(o[1]), Binary8(o[2]), Binary8(o[3]), '.');
  }

  /**
   * The binary form is 35 characters: four groups of eight binary digits
   * with dots at positions 8, 17 and 26, and the groups, read as bits and
   * packed most significant first, are the address.
   */
  lemma BinaryForm(c: Cidr)
    ensures |c.ToStringBinary()| == 35
    ensures c.ToStringBinary()[8] == c.ToStringBinary()[17] == c.ToStringBinary()[26] == '.'
    ensures forall i :: 0 <= i < 35 && i != 8 && i != 17 && i != 26 ==> IsBinDigit(c.ToStringBinary()[i])
    ensures var s := c.ToStringBinary();
            Pack(ReadBin(s[0..8]), ReadBin(s[9..17]), ReadBin(s[18..26]), ReadBin(s[27..35])) == c.address
  {
    var ip := c.address;
    var o := Octets(ip);
    var s := c.ToStringBinary();
    BinaryLayout(c);
    forall i | 0 <= i < 35 && i != 8 && i != 17 && i != 26
      ensures IsBinDigit(s[i])
    {
      if i < 8 {
        assert s[i] == s[0..8][i];
      } else if i < 17 {
        assert s[i] == s[9..17][i - 9];
      } else if i < 26 {
        assert s[i] == s[18..26][i - 18];
      } else {
        assert s[i] == s[27..35][i - 27];
      }
    }
    OctetsBounded(ip);
    OctetBits(o[0]);
    OctetBits(o[1]);
    OctetBits(o[2]);
    OctetBits(o[3]);
    PackOctets(ip);
  }
}
