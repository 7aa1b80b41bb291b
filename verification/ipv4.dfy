/**
 * An IPv4 address together with its network mask, in CIDR notation
 * (section 3.1 of RFC 4632): the `CIDR` value of the address calculator.
 *
 * Both fields are unsigned 32-bit words and all arithmetic on them wraps
 * around modulo 2^32, as in a release build of the program.
 */
module Ipv4 {
  import opened Wrappers
  import opened Bits
  import opened Numerals
  import opened Grammar

  /**
   * The netmask of prefix length p: p one bits followed by 32 - p zero bits.
   * At p = 0 the shift is by the full width and gives 0; MaskAsWritten
   * shows what the program computes there instead.
   */
  function Mask(p: bv32): bv32
    requires p <= 32
  {
    0xffff_ffff << (32 - p)
  }

  /**
   * The same expression as a release build evaluates it: Rust reduces the
   * shift count of a 32-bit shift to its low five bits, so a shift by 32 is
   * a shift by 0. (A debug build stops with an overflow panic instead.)
   */
  function MaskAsWritten(p: bv32): bv32
    requires p <= 32
  {
    0xffff_ffff << ((32 - p) & 31)
  }

  /** Four octets packed into one word, most significant first. */
  function Pack(a0: bv32, a1: bv32, a2: bv32, a3: bv32): bv32
  {
    (a0 << 24) | (a1 << 16) | (a2 << 8) | a3
  }

  /** The four octets of a word, most significant first. */
  function Octets(ip: bv32): (o: seq<bv32>)
    ensures |o| == 4
  {
    [(ip >> 24) & 0xff, (ip >> 16) & 0xff, (ip >> 8) & 0xff, ip & 0xff]
  }

  /** Prefix length read off a mask: 32 minus the number of its trailing zero bits. */
  function PrefixLength(m: bv32): nat
  {
    32 - LowZeros(m, 32)
  }

  /** `{:08b}` of a value below 256: exactly eight binary digits. */
  function Binary8(o: bv32): string
  {
    BinDigits(o, 8)
  }

  /** How many addresses run from first to last inclusive, in 32-bit arithmetic. */
  function Span(first: bv32, last: bv32): bv32
  {
    last - first + 1
  }

  /** The pattern of the parser: four groups of 1-3 digits joined by dots, then '/' and 1-2 digits. */
  const Widths: seq<nat> := [3, 3, 3, 3, 2]
  const Separators: string := ".../"

  /** Upper bounds of the captured numbers, indexed by capture group (group 0 is the whole match). */
  const Limits: seq<nat> := [0, 255, 255, 255, 255, 32]

  const Invalid: string := "invalid cidr"

  /** The values of the captured digit groups. */
  function Numbers(g: seq<string>): (n: seq<nat>)
    requires forall i :: 0 <= i < |g| ==> AllDigits(g[i])
    ensures |n| == |g|
    ensures forall i :: 0 <= i < |g| ==> n[i] == Value(g[i])
  {
    seq(|g|, i requires 0 <= i < |g| => Value(g[i]))
  }

  /** Each of the five numbers is within the limit of its capture group. */
  predicate WithinLimits(n: seq<nat>)
  {
    |n| == 5 && forall i :: 0 <= i < 5 ==> n[i] <= Limits[i + 1]
  }

  /** The five checked numbers as the `u32` values from_octets receives. */
  function FromNumbers(n: seq<nat>): Cidr
    requires WithinLimits(n)
  {
    assert n[0] <= 255 && n[1] <= 255 && n[2] <= 255 && n[3] <= 255;
    SmallWord(n[4]);
    Cidr.FromOctets(Word(n[0]), Word(n[1]), Word(n[2]), Word(n[3]), Word(n[4]))
  }

  /** The outcome for the capture groups g of a matching text. */
  function Accept(g: seq<string>): Result<Cidr, string>
    requires Fits(g, Widths)
  {
    var n := Numbers(g);
    if WithinLimits(n) then Ok(FromNumbers(n)) else Err(Invalid)
  }

  datatype Cidr = Cidr(address: bv32, netmask: bv32)
  {
    /** The value whose address is the four octets and whose mask has the given prefix length. */
    static function FromOctets(a0: bv32, a1: bv32, a2: bv32, a3: bv32, netmask: bv32): Cidr
      requires netmask <= 32
    {
      Cidr(Pack(a0, a1, a2, a3), Mask(netmask))
    }

    /** Network address: the address with its host bits cleared. */
    function Network(): Cidr
    {
      Cidr(address & netmask, 0)
    }

    /** The mask itself, as an address. */
    function Netmask(): Cidr
    {
      Cidr(netmask, 0)
    }

    /** Broadcast address: the address with its host bits set. */
    function Broadcast(): Cidr
    {
      Cidr(address | !netmask, 0)
    }

    function HostMin(): Cidr
    {
      Cidr((address & netmask) + 1, 0)
    }

    function HostMax(): Cidr
    {
      Cidr((address | !netmask) - 1, 0)
    }

    function NumHosts(): bv32
    {
      Span(HostMin().address, HostMax().address)
    }

    function ToOctets(): seq<bv32>
    {
      Octets(address)
    }

    /** Dotted-decimal form of a word. */
    static function ToString(ip: bv32): string
    {
      var o := Octets(ip);
      Dec(o[0] as nat) + "." + Dec(o[1] as nat) + "." + Dec(o[2] as nat) + "." + Dec(o[3] as nat)
    }

    function ToStringIp(): string
    {
      ToString(address)
    }

    /** Address and mask, both dotted, separated by '/'. */
    function ToStringIpSubnet(): string
    {
      ToString(address) + "/" + ToString(netmask)
    }

    /**
     * Address and prefix length in CIDR notation: for a nonzero mask, the
     * text ToStringCidr builds. At a zero mask it reads "/0", which the
     * program's printer never produces.
     */
    function CidrString(): string
    {
      ToString(address) + "/" + Dec(PrefixLength(netmask))
    }

    /**
     * Counts the prefix length down from 32, once per trailing zero bit of
     * the mask. The loop never ends on a zero mask, hence the precondition.
     */
    method ToStringCidr() returns (s: string)
      requires netmask != 0
      ensures 1 <= PrefixLength(netmask) <= 32
      ensures s == CidrString()
    {
      var c: int := 32;
      var mask := netmask;
      NonZeroLowZeros(netmask);
      while mask & 1 == 0
        invariant 0 <= c <= 32
        invariant LowZeros(mask, c) < c
        invariant c - LowZeros(mask, c) == PrefixLength(netmask)
        decreases c
      {
        mask := mask >> 1;
        c := c - 1;
      }
      s := ToString(address) + "/" + Dec(c);
    }

    /** `{:08x}` of the address: eight lower-case hexadecimal digits. */
    function ToStringHex(): string
    {
      HexDigits(address, 8)
    }

    /** The four octets in binary, eight digits each, joined by dots. */
    function ToStringBinary(): string
    {
      var o := ToOctets();
      Binary8(o[0]) + "." + Binary8(o[1]) + "." + Binary8(o[2]) + "." + Binary8(o[3])
    }

    /** The reverse-lookup name of the address (section 3.5 of RFC 1035). */
    function ReverseDns(): string
    {
      var o := ToOctets();
      Dec(o[3] as nat) + "." + Dec(o[2] as nat) + "." + Dec(o[1] as nat) + "." + Dec(o[0] as nat) + ".in-addr.arpa"
    }

    /** What FromString returns for s. */
    static function Parse(s: string): Result<Cidr, string>
    {
      match Scan(s, Widths, Separators)
      case None => Err(Invalid)
      case Some(g) => Accept(g)
    }

    /** Matches s against the pattern, then reads the captured numbers. */
    static method FromString(s: string) returns (r: Result<Cidr, string>)
      ensures r == Parse(s)
    {
      var captures := Scan(s, Widths, Separators);
      if captures.None? {
        return Err(Invalid);
      }
      r := ReadCaptures(captures.value);
    }

    /**
     * The loop of FromString: reads the five captured numbers in order,
     * rejecting the first one above its limit, and builds the value from
     * them once all five have passed.
     */
    static method ReadCaptures(g: seq<string>) returns (r: Result<Cidr, string>)
      requires Fits(g, Widths)
      ensures r == Accept(g)
    {
      ghost var numbers := Numbers(g);
      var e: seq<nat> := [];
      for x := 1 to 6
        invariant |e| == x - 1
        invariant forall i :: 0 <= i < x - 1 ==> e[i] == numbers[i] <= Limits[i + 1]
      {
        var n := Value(g[x - 1]);
        if n > Limits[x] {
          assert numbers[x - 1] > Limits[x];
          return Err(Invalid);
        }
        e := e + [n];
      }
      assert e == numbers;
      return Ok(FromNumbers(e));
    }
  }
}
