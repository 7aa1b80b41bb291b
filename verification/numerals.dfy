/**
 * Numerals as the program reads and writes them: decimal (`str::parse::<u32>`
 * and the `{}` format), fixed-width lower-case hexadecimal (`{:08x}`) and
 * fixed-width binary (`{:08b}`).
 */
module Numerals {
  import opened Bits

  /** The ASCII decimal digits. */
  predicate IsDigit(ch: char)
  {
    '0' <= ch <= '9'
  }

  predicate AllDigits(s: string)
  {
    forall i :: 0 <= i < |s| ==> IsDigit(s[i])
  }

  function DigitValue(ch: char): (d: nat)
    requires IsDigit(ch)
    ensures d < 10
  {
    ch as int - '0' as int
  }

  function DigitChar(d: nat): (ch: char)
    requires d < 10
    ensures IsDigit(ch) && DigitValue(ch) == d
  {
    ('0' as int + d) as char
  }

  /** The value of a decimal numeral, read most significant digit first. */
  function Value(s: string): nat
    requires AllDigits(s)
  {
    if s == [] then 0 else 10 * Value(s[..|s| - 1]) + DigitValue(s[|s| - 1])
  }

  /** The decimal numeral of n, with no leading zero, as `{}` prints it. */
  function Dec(n: nat): (s: string)
    ensures 1 <= |s| && AllDigits(s)
    ensures Value(s) == n
    ensures |s| > 1 ==> s[0] != '0'
  {
    if n < 10 then [DigitChar(n)]
    else
      var s := Dec(n / 10) + [DigitChar(n % 10)];
      assert s[..|s| - 1] == Dec(n / 10);
      s
  }

  /** Numbers below 10, 100 and 1000 take at most one, two and three digits. */
  lemma DecLength(n: nat)
    ensures n < 10 ==> |Dec(n)| == 1
    ensures n < 100 ==> |Dec(n)| <= 2
    ensures n < 1000 ==> |Dec(n)| <= 3
  {
    if n >= 10 {
      DecLength(n / 10);
    }
  }

  /** A numeral of at most k digits is below 10^k; for k <= 3 it fits any `u32`. */
  lemma {:induction false} ValueBound(s: string)
    requires AllDigits(s)
    ensures |s| <= 1 ==> Value(s) < 10
    ensures |s| <= 2 ==> Value(s) < 100
    ensures |s| <= 3 ==> Value(s) < 1000
    decreases |s|
  {
    if s != [] {
      ValueBound(s[..|s| - 1]);
    }
  }

  // ---------------------------------------------------------------------
  // Hexadecimal

  predicate IsHexDigit(ch: char)
  {
    '0' <= ch <= '9' || 'a' <= ch <= 'f'
  }

  /** The lower-case hexadecimal digit for the low nibble of d. */
  function HexChar(d: bv32): (ch: char)
    requires d < 16
    ensures IsHexDigit(ch)
  {
    if d < 10 then ('0' as int + d as int) as char else ('a' as int + d as int - 10) as char
  }

  function HexValue(ch: char): (d: bv32)
    requires IsHexDigit(ch)
    ensures d < 16
  {
    if ch <= '9' then (ch as int - '0' as int) as bv32 else (ch as int - 'a' as int + 10) as bv32
  }

  lemma HexCharValue(d: bv32)
    requires d < 16
    ensures HexValue(HexChar(d)) == d
  {
  }

  /** m shifted right by k nibbles, one nibble at a time. */
  function ShrNibbles(m: bv32, k: nat): bv32
    decreases k
  {
    if k == 0 then m else ShrNibbles(m >> 4, k - 1)
  }

  /** The k lowest nibbles of x as hexadecimal digits, most significant first. */
  function HexDigits(x: bv32, k: nat): (s: string)
    ensures |s| == k
    ensures forall i :: 0 <= i < |s| ==> IsHexDigit(s[i])
    decreases k
  {
    if k == 0 then [] else HexDigits(x >> 4, k - 1) + [HexChar(x & 0xf)]
  }

  /** The value of a hexadecimal numeral, most significant digit first, in 32 bits. */
  function ReadHex(s: string): bv32
    requires forall i :: 0 <= i < |s| ==> IsHexDigit(s[i])
  {
    if s == [] then 0 else (ReadHex(s[..|s| - 1]) << 4) | HexValue(s[|s| - 1])
  }

  lemma NibbleSplit(x: bv32, hi: bv32, lo: bv32)
    requires hi == x >> 4 && lo == x & 0xf
    ensures (hi << 4) | lo == x
  {
  }

  /** Reading k digits of x back is reading the first k - 1 of them and then the lowest nibble. */
  lemma HexStep(x: bv32, k: nat)
    requires k > 0
    ensures ReadHex(HexDigits(x, k)) == (ReadHex(HexDigits(x >> 4, k - 1)) << 4) | (x & 0xf)
  {
    var s := HexDigits(x, k);
    assert s[..|s| - 1] == HexDigits(x >> 4, k - 1);
    HexCharValue(x & 0xf);
  }

  /** Reading back k hexadecimal digits of x gives x, when x fits in k nibbles. */
  lemma {:induction false} ReadHexDigits(x: bv32, k: nat)
    requires ShrNibbles(x, k) == 0
    ensures ReadHex(HexDigits(x, k)) == x
    decreases k
  {
    if k > 0 {
      ReadHexDigits(x >> 4, k - 1);
      HexStep(x, k);
      NibbleSplit(x, x >> 4, x & 0xf);
    }
  }

  /** Shifting by k nibbles is shifting by 4k bits. */
  lemma {:induction false} ShrNibblesBits(x: bv32, k: nat)
    ensures ShrNibbles(x, k) == Shr(x, 4 * k)
    decreases k
  {
    if k > 0 {
      ShrNibblesBits(x >> 4, k - 1);
      var n := 4 * k;
      calc {
        Shr(x, n);
        Shr(x >> 1, n - 1);
        Shr((x >> 1) >> 1, n - 2);
        Shr(((x >> 1) >> 1) >> 1, n - 3);
        Shr((((x >> 1) >> 1) >> 1) >> 1, n - 4);
        { assert (((x >> 1) >> 1) >> 1) >> 1 == x >> 4; }
        Shr(x >> 4, 4 * (k - 1));
      }
    }
  }

  /** Every 32-bit word fits in eight nibbles. */
  lemma EightNibbles(x: bv32)
    ensures ShrNibbles(x, 8) == 0
  {
    ShrNibblesBits(x, 8);
    ShrIsShift(x, 32);
  }

  // ---------------------------------------------------------------------
  // Binary

  predicate IsBinDigit(ch: char)
  {
    ch == '0' || ch == '1'
  }

  /** The k lowest bits of x as binary digits, most significant first. */
  function BinDigits(x: bv32, k: nat): (s: string)
    ensures |s| == k
    ensures forall i :: 0 <= i < |s| ==> IsBinDigit(s[i])
    decreases k
  {
    if k == 0 then [] else BinDigits(x >> 1, k - 1) + [if x & 1 == 1 then '1' else '0']
  }

  /** The value of a binary numeral, most significant digit first, in 32 bits. */
  function ReadBin(s: string): bv32
    requires forall i :: 0 <= i < |s| ==> IsBinDigit(s[i])
  {
    if s == [] then 0 else (ReadBin(s[..|s| - 1]) << 1) | (if s[|s| - 1] == '1' then 1 else 0)
  }

  /** Reading back k binary digits of x gives x, when x fits in k bits. */
  lemma {:induction false} ReadBinDigits(x: bv32, k: nat)
    requires Shr(x, k) == 0
    ensures ReadBin(BinDigits(x, k)) == x
    decreases k
  {
    if k > 0 {
      var s := BinDigits(x, k);
      assert s[..|s| - 1] == BinDigits(x >> 1, k - 1);
      ReadBinDigits(x >> 1, k - 1);
    }
  }

  /** A word no larger than 255 fits in eight bits. */
  lemma OctetFits(o: bv32)
    requires o <= 255
    ensures Shr(o, 8) == 0
  {
    ShrIsShift(o, 8);
  }
}
