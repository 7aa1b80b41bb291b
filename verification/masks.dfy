/**
 * The netmask of a prefix length: its bits, its trailing zeros, and what
 * the unguarded shift of the program makes of prefix length 0.
 */
module Masks {
  import opened Bits
  import opened Ipv4

  /** A bit position below 32 keeps its value through the cast to a vector. */
  lemma SmallCast(j: nat)
    requires j < 32
    ensures (j as bv32) as nat == j
    ensures (j as bv32) <= 31
  {
  }

  lemma HostWidth(p: bv32)
    requires p <= 32
    ensures (32 - p) as nat == 32 - p as nat
  {
  }

  /**
   * The mask of prefix length p is p one bits followed by 32 - p zero
   * bits: bit j is set exactly when j >= 32 - p.
   */
  lemma MaskBit(p: bv32, j: nat)
    requires p <= 32 && j < 32
    ensures Bit(Mask(p), j) <==> 32 - p as nat <= j
  {
    SmallCast(j);
    HostWidth(p);
    ShrIsShift(Mask(p), j as bv32);
    OnesShiftedBit(32 - p, j as bv32);
  }

  /** The trailing zeros of a nonzero mask are its 32 - p host bits. */
  lemma MaskLowZeros(p: bv32)
    requires 1 <= p <= 32
    ensures LowZeros(Mask(p), 32) == 32 - p as nat
  {
    var z := LowZeros(Mask(p), 32);
    var h := 32 - p as nat;
    LowZerosBits(Mask(p), 32);
    MaskBit(p, h);
    if z < 32 {
      MaskBit(p, z);
    }
  }

  /** The prefix length read off the mask of p is p. */
  lemma PrefixOfMask(p: bv32)
    requires p <= 32
    ensures PrefixLength(Mask(p)) == p as nat
  {
    if p == 0 {
      assert Mask(0) == 0;
      ZeroLowZeros(32);
    } else {
      MaskLowZeros(p);
    }
  }

  /** The mask of a value, shown as an address, reads back as the prefix length it was built from. */
  lemma NetmaskPrefix(c: Cidr, p: bv32)
    requires p <= 32 && c.netmask == Mask(p)
    ensures PrefixLength(c.Netmask().address) == p as nat
  {
    PrefixOfMask(p);
  }

  lemma {:induction false} ZeroLowZeros(k: nat)
    ensures LowZeros(0, k) == k
    decreases k
  {
    if k > 0 {
      ZeroLowZeros(k - 1);
    }
  }

  /** Distinct prefix lengths have distinct masks. */
  lemma MaskInjective(p: bv32, q: bv32)
    requires p <= 32 && q <= 32
    ensures Mask(p) == Mask(q) <==> p == q
  {
    if Mask(p) == Mask(q) {
      PrefixOfMask(p);
      PrefixOfMask(q);
    }
  }

  lemma MaskEnds()
    ensures Mask(32) == 0xffff_ffff
    ensures Mask(24) == 0xffff_ff00
    ensures Mask(0) == 0
  {
  }

  /**
   * As written, prefix length 0 yields the mask of prefix length 32 ...
   */
  lemma MaskAsWrittenAtZero()
    ensures MaskAsWritten(0) == MaskAsWritten(32) == 0xffff_ffff
    ensures MaskAsWritten(0) != Mask(0)
    ensures PrefixLength(MaskAsWritten(0)) == 32
  {
    PrefixOfMask(32);
  }

  /** ... and every other prefix length yields the intended mask. */
  lemma MaskAsWrittenElsewhere(p: bv32)
    requires 1 <= p <= 32
    ensures MaskAsWritten(p) == Mask(p)
  {
  }
}
