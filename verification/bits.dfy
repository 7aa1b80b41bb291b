/**
 * Bit-level vocabulary for 32-bit words.
 *
 * The recursive definitions walk a word one position at a time (`m >> 1`,
 * `m & 1`) and count positions with `nat`. Where a fact is about Dafny's
 * own shift by a variable amount, the lemma counts with a `bv32` that
 * decreases instead, and `Pred` moves between the two kinds of count.
 */
module Bits {

  /** m shifted right by k places, one place at a time. */
  function Shr(m: bv32, k: nat): bv32
    decreases k
  {
    if k == 0 then m else Shr(m >> 1, k - 1)
  }

  /** Bit j of m (bit 0 is the least significant one). */
  predicate Bit(m: bv32, j: nat)
  {
    Shr(m, j) & 1 == 1
  }

  /** Number of zero bits at the low end of m, looking at no more than k of them. */
  function LowZeros(m: bv32, k: nat): (z: nat)
    ensures z <= k
    decreases k
  {
    if k == 0 || m & 1 == 1 then 0 else 1 + LowZeros(m >> 1, k - 1)
  }

  /** A number below 2^32 as a 32-bit word. */
  function Word(n: nat): bv32
    requires n < 0x1_0000_0000
  {
    n as bv32
  }

  /** The value of a word, converted back, is the word. */
  lemma WordOfValue(a: bv32)
    ensures Word(a as nat) == a
  {
  }

  lemma SmallWord(n: nat)
    requires n <= 32
    ensures Word(n) <= 32
  {
  }

  /** Counting down by one is the same on a small vector and on its value. */
  lemma Pred(k: bv32)
    requires 1 <= k <= 32
    ensures (k - 1) as nat == k as nat - 1
  {
  }

  lemma ShiftRightOnce(m: bv32, a: bv32)
    requires a <= 31
    ensures (m >> 1) >> a == m >> (a + 1)
  {
  }

  /** Shifting one place at a time is Dafny's shift. */
  lemma {:induction false} ShrIsShift(m: bv32, k: bv32)
    requires k <= 32
    ensures Shr(m, k as nat) == m >> k
    decreases k
  {
    if k > 0 {
      Pred(k);
      ShrIsShift(m >> 1, k - 1);
      ShiftRightOnce(m, k - 1);
    }
  }

  /**
   * LowZeros(m, k) is the position of the lowest set bit of m: every bit
   * below it is clear and, unless all k inspected bits are clear, the bit
   * at that position is set.
   */
  lemma {:induction false} LowZerosBits(m: bv32, k: nat)
    ensures forall j :: 0 <= j < LowZeros(m, k) ==> !Bit(m, j)
    ensures LowZeros(m, k) < k ==> Bit(m, LowZeros(m, k))
    decreases k
  {
    if k > 0 && m & 1 == 0 {
      LowZerosBits(m >> 1, k - 1);
      forall j | 0 <= j < LowZeros(m, k)
        ensures !Bit(m, j)
      {
        if j > 0 {
          assert !Bit(m >> 1, j - 1);
        }
      }
    }
  }

  /** A word whose k lowest bits are clear and whose remaining bits are clear is zero. */
  lemma {:induction false} AllLowZeros(m: bv32, k: nat)
    requires LowZeros(m, k) == k
    requires Shr(m, k) == 0
    ensures m == 0
    decreases k
  {
    if k > 0 {
      AllLowZeros(m >> 1, k - 1);
    }
  }

  /** A nonzero word has a set bit among its 32 bits. */
  lemma NonZeroLowZeros(m: bv32)
    requires m != 0
    ensures LowZeros(m, 32) < 32
  {
    if LowZeros(m, 32) == 32 {
      ShrIsShift(m, 32);
      AllLowZeros(m, 32);
    }
  }

  /** Bit b of the all-ones word shifted left by a is set exactly when a <= b. */
  lemma OnesShiftedBit(a: bv32, b: bv32)
    requires a <= 32 && b <= 31
    ensures (((0xffff_ffff as bv32) << a) >> b) & 1 == 1 <==> a <= b
  {
  }
}
