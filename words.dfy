/**
 * The unsigned value of a 16-bit register as an integer, written as the sum
 * of its set bits, and how the register operations act on that value. This
 * is how the Python loops, which compute on integers, are related to the
 * 16-bit register of module Crc16.
 */
module Words {
  import opened Bytes

  /** Bit `mask` of `x`, as 0 or 1. */
  function Bit(x: bv16, mask: bv16): int {
    if x & mask != 0 then 1 else 0
  }

  /** A `uint16_t` read as an unsigned integer. It is not written `x as int`
      because conversions between integers and bit-vectors make the solver
      slow; the sum of the set bits keeps every proof about it in linear
      arithmetic and single-bit tests. */
  function Value(x: bv16): int {
    0x8000 * Bit(x, 0x8000)
      + 0x4000 * Bit(x, 0x4000)
      + 0x2000 * Bit(x, 0x2000)
      + 0x1000 * Bit(x, 0x1000)
      + 0x0800 * Bit(x, 0x0800)
      + 0x0400 * Bit(x, 0x0400)
      + 0x0200 * Bit(x, 0x0200)
      + 0x0100 * Bit(x, 0x0100)
      + 0x0080 * Bit(x, 0x0080)
      + 0x0040 * Bit(x, 0x0040)
      + 0x0020 * Bit(x, 0x0020)
      + 0x0010 * Bit(x, 0x0010)
      + 0x0008 * Bit(x, 0x0008)
      + 0x0004 * Bit(x, 0x0004)
      + 0x0002 * Bit(x, 0x0002)
      + 0x0001 * Bit(x, 0x0001)
  }

  lemma BitRange(x: bv16, m: bv16)
    ensures 0 <= Bit(x, m) <= 1
  {
  }

  lemma ValueRange(x: bv16)
    ensures 0 <= Value(x) < 0x10000
  {
    BitRange(x, 0x0001);
    BitRange(x, 0x0002);
    BitRange(x, 0x0004);
    BitRange(x, 0x0008);
    BitRange(x, 0x0010);
    BitRange(x, 0x0020);
    BitRange(x, 0x0040);
    BitRange(x, 0x0080);
    BitRange(x, 0x0100);
    BitRange(x, 0x0200);
    BitRange(x, 0x0400);
    BitRange(x, 0x0800);
    BitRange(x, 0x1000);
    BitRange(x, 0x2000);
    BitRange(x, 0x4000);
    BitRange(x, 0x8000);
  }

  lemma ShrBit(x: bv16, m: bv16, m2: bv16)
    requires m2 == m << 1 && m2 != 0
    ensures Bit(x >> 1, m) == Bit(x, m2)
  {
  }

  lemma ShlBit(x: bv16, m: bv16, m2: bv16)
    requires m2 == m << 1 && m & 0x8000 == 0
    ensures Bit(x << 1, m2) == Bit(x, m)
  {
  }

  /** Shifting right halves the value and drops bit 0. */
  lemma ValueHalf(x: bv16)
    ensures Value(x) == 2 * Value(x >> 1) + Bit(x, 0x0001)
  {
    ShrBit(x, 0x0001, 0x0002);
    ShrBit(x, 0x0002, 0x0004);
    ShrBit(x, 0x0004, 0x0008);
    ShrBit(x, 0x0008, 0x0010);
    ShrBit(x, 0x0010, 0x0020);
    ShrBit(x, 0x0020, 0x0040);
    ShrBit(x, 0x0040, 0x0080);
    ShrBit(x, 0x0080, 0x0100);
    ShrBit(x, 0x0100, 0x0200);
    ShrBit(x, 0x0200, 0x0400);
    ShrBit(x, 0x0400, 0x0800);
    ShrBit(x, 0x0800, 0x1000);
    ShrBit(x, 0x1000, 0x2000);
    ShrBit(x, 0x2000, 0x4000);
    ShrBit(x, 0x4000, 0x8000);
    assert Bit(x >> 1, 0x8000) == 0;
  }

  /** Shifting left doubles the value and drops bit 15. */
  lemma ValueDouble(x: bv16)
    ensures 2 * Value(x) == Value(x << 1) + 0x10000 * Bit(x, 0x8000)
  {
    ShlBit(x, 0x0001, 0x0002);
    ShlBit(x, 0x0002, 0x0004);
    ShlBit(x, 0x0004, 0x0008);
    ShlBit(x, 0x0008, 0x0010);
    ShlBit(x, 0x0010, 0x0020);
    ShlBit(x, 0x0020, 0x0040);
    ShlBit(x, 0x0040, 0x0080);
    ShlBit(x, 0x0080, 0x0100);
    ShlBit(x, 0x0100, 0x0200);
    ShlBit(x, 0x0200, 0x0400);
    ShlBit(x, 0x0400, 0x0800);
    ShlBit(x, 0x0800, 0x1000);
    ShlBit(x, 0x1000, 0x2000);
    ShlBit(x, 0x2000, 0x4000);
    ShlBit(x, 0x4000, 0x8000);
    assert Bit(x << 1, 0x0001) == 0;
  }

  /** `x >> 1` is floor division by two; bit 0 is the value's parity. */
  lemma ValueShr(x: bv16)
    ensures Value(x >> 1) == Value(x) / 2
    ensures Value(x) % 2 == Bit(x, 0x0001)
  {
    ValueHalf(x);
    ValueRange(x >> 1);
  }

  /** `x << 1` is doubling modulo 0x10000. */
  lemma ValueShl(x: bv16)
    ensures Value(x << 1) == (2 * Value(x)) % 0x10000
  {
    ValueDouble(x);
    ValueRange(x << 1);
  }

  /** Bit 15 is the parity of the value divided by 0x8000. */
  lemma ValueTop(x: bv16)
    ensures (Value(x) / 0x8000) % 2 == Bit(x, 0x8000)
  {
  }

  lemma WidenBit(b: bv8, m: bv8)
    ensures Bit(b as bv16, m as bv16) * (m as bv16 as int) == BitWeight(b, m, m as int)
  {
  }

  lemma WidenHighBit(b: bv8, m: bv8, m2: bv16)
    requires m2 == (m as bv16) << 8
    ensures Bit((b as bv16) << 8, m2) == (if b & m != 0 then 1 else 0)
  {
  }

  /** A byte widened to 16 bits keeps its value. */
  lemma ValueOfByte(b: bv8)
    ensures Value(b as bv16) == Count(b) as int
  {
    WidenBit(b, 0x01);
    WidenBit(b, 0x02);
    WidenBit(b, 0x04);
    WidenBit(b, 0x08);
    WidenBit(b, 0x10);
    WidenBit(b, 0x20);
    WidenBit(b, 0x40);
    WidenBit(b, 0x80);
  }

  /** A byte widened and shifted into the high byte is worth 256 times as much. */
  lemma ValueOfHighByte(b: bv8)
    ensures Value((b as bv16) << 8) == 256 * Count(b) as int
  {
    WidenHighBit(b, 0x01, 0x0100);
    WidenHighBit(b, 0x02, 0x0200);
    WidenHighBit(b, 0x04, 0x0400);
    WidenHighBit(b, 0x08, 0x0800);
    WidenHighBit(b, 0x10, 0x1000);
    WidenHighBit(b, 0x20, 0x2000);
    WidenHighBit(b, 0x40, 0x4000);
    WidenHighBit(b, 0x80, 0x8000);
  }

  // ---------------------------------------------------------------------
  // The value from the top bit down
  // ---------------------------------------------------------------------

  /** The value of the bits of `x` from the single bit `m`, of weight `w`,
      down to bit 0. */
  function Low(x: bv16, m: bv16, w: nat): int
    decreases w
  {
    if w == 0 then 0 else (if x & m != 0 then w else 0) + Low(x, m >> 1, w / 2)
  }

  /** `m` and `w` step down together: `m` is a single bit while `w` is
      positive, and both reach zero together. */
  predicate Ladder(m: bv16, w: nat)
    decreases w
  {
    if w == 0 then m == 0 else m != 0 && m & (m - 1) == 0 && Ladder(m >> 1, w / 2)
  }

  /** The bits from weight `w` down are worth less than `2 * w`. */
  lemma {:induction false} LowRange(x: bv16, m: bv16, w: nat)
    ensures w == 0 ==> Low(x, m, w) == 0
    ensures w > 0 ==> 0 <= Low(x, m, w) < 2 * w
    decreases w
  {
    if w > 0 {
      BitRange(x, m);
      LowRange(x, m >> 1, w / 2);
    }
  }

  /** Bit `m` of `x ^ y` is set when exactly one of `x` and `y` has it. */
  lemma XorBit(x: bv16, y: bv16, m: bv16)
    requires m != 0 && m & (m - 1) == 0
    ensures ((x ^ y) & m != 0) == ((x & m != 0) != (y & m != 0))
  {
  }

  /** The sixteen bits of a register, from bit 15 down, form a ladder. */
  lemma TopLadder()
    ensures Ladder(0x8000, 0x8000)
  {
    assert Ladder(0, 0);
    assert Ladder(0x0001, 0x0001);
    assert Ladder(0x0002, 0x0002);
    assert Ladder(0x0004, 0x0004);
    assert Ladder(0x0008, 0x0008);
    assert Ladder(0x0010, 0x0010);
    assert Ladder(0x0020, 0x0020);
    assert Ladder(0x0040, 0x0040);
    assert Ladder(0x0080, 0x0080);
    assert Ladder(0x0100, 0x0100);
    assert Ladder(0x0200, 0x0200);
    assert Ladder(0x0400, 0x0400);
    assert Ladder(0x0800, 0x0800);
    assert Ladder(0x1000, 0x1000);
    assert Ladder(0x2000, 0x2000);
    assert Ladder(0x4000, 0x4000);
    assert Ladder(0x8000, 0x8000);
  }

  /** One level of `Low`. */
  lemma LowStep(x: bv16, m: bv16, w: nat, m': bv16, w': nat)
    requires w > 0 && m' == m >> 1 && w' == w / 2
    ensures Low(x, m, w) == w * Bit(x, m) + Low(x, m', w')
    ensures Low(x, m, w) == (if x & m != 0 then w else 0) + Low(x, m', w')
  {
  }

  /** `Low` unfolded four levels at a time into the terms of `Value`. */
  lemma LowNibble0(x: bv16)
    ensures Low(x, 0x0008, 0x0008)
            == 0x0008 * Bit(x, 0x0008) + 0x0004 * Bit(x, 0x0004)
               + 0x0002 * Bit(x, 0x0002) + 0x0001 * Bit(x, 0x0001)
               + Low(x, 0, 0)
  {
    LowStep(x, 0x0008, 0x0008, 0x0004, 0x0004);
    LowStep(x, 0x0004, 0x0004, 0x0002, 0x0002);
    LowStep(x, 0x0002, 0x0002, 0x0001, 0x0001);
    LowStep(x, 0x0001, 0x0001, 0x0000, 0x0000);
  }

  lemma LowNibble1(x: bv16)
    ensures Low(x, 0x0080, 0x0080)
            == 0x0080 * Bit(x, 0x0080) + 0x0040 * Bit(x, 0x0040)
               + 0x0020 * Bit(x, 0x0020) + 0x0010 * Bit(x, 0x0010)
               + Low(x, 0x0008, 0x0008)
  {
    LowStep(x, 0x0080, 0x0080, 0x0040, 0x0040);
    LowStep(x, 0x0040, 0x0040, 0x0020, 0x0020);
    LowStep(x, 0x0020, 0x0020, 0x0010, 0x0010);
    LowStep(x, 0x0010, 0x0010, 0x0008, 0x0008);
  }

  lemma LowNibble2(x: bv16)
    ensures Low(x, 0x0800, 0x0800)
            == 0x0800 * Bit(x, 0x0800) + 0x0400 * Bit(x, 0x0400)
               + 0x0200 * Bit(x, 0x0200) + 0x0100 * Bit(x, 0x0100)
               + Low(x, 0x0080, 0x0080)
  {
    LowStep(x, 0x0800, 0x0800, 0x0400, 0x0400);
    LowStep(x, 0x0400, 0x0400, 0x0200, 0x0200);
    LowStep(x, 0x0200, 0x0200, 0x0100, 0x0100);
    LowStep(x, 0x0100, 0x0100, 0x0080, 0x0080);
  }

  lemma LowNibble3(x: bv16)
    ensures Low(x, 0x8000, 0x8000)
            == 0x8000 * Bit(x, 0x8000) + 0x4000 * Bit(x, 0x4000)
               + 0x2000 * Bit(x, 0x2000) + 0x1000 * Bit(x, 0x1000)
               + Low(x, 0x0800, 0x0800)
  {
    LowStep(x, 0x8000, 0x8000, 0x4000, 0x4000);
    LowStep(x, 0x4000, 0x4000, 0x2000, 0x2000);
    LowStep(x, 0x2000, 0x2000, 0x1000, 0x1000);
    LowStep(x, 0x1000, 0x1000, 0x0800, 0x0800);
  }

  /** The flat sum and the top-down sum are the same value. */
  lemma ValueIsLow(x: bv16)
    ensures Value(x) == Low(x, 0x8000, 0x8000)
  {
    LowNibble0(x);
    LowNibble1(x);
    LowNibble2(x);
    LowNibble3(x);
  }
}
