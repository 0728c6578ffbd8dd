/**
 * CRC-16 over the CCITT generator polynomial x^16 + x^12 + x^5 + 1, with
 * initial remainder 0xFFFF and no final XOR, computed one bit at a time in
 * both bit orders:
 *
 *   - most significant bit first, polynomial 0x1021 (CRC-16/IBM-3740, also
 *     called CCITT-FALSE, in the CRC RevEng catalogue of parametrised CRC
 *     algorithms);
 *   - least significant bit first, reflected polynomial 0x8408
 *     (CRC-16/MCRF4XX in the same catalogue).
 *
 * These are the reference definitions that both the C++ loops (module Comms)
 * and the Python loops (module PyComms) are proved to compute. The remainder
 * is a 16-bit register, so every intermediate value is already masked to 16
 * bits.
 */
module Crc16 {

  const POLYNOMIAL: bv16 := 0x1021
  const POLYNOMIAL_REFLECTED: bv16 := 0x8408
  const INITIAL_REMAINDER: bv16 := 0xFFFF
  /** Number of one-bit shifts applied per input byte. */
  const SHIFTS_PER_BYTE: nat := 8

  // ---------------------------------------------------------------------
  // Most significant bit first
  // ---------------------------------------------------------------------

  /** One shift of the register: shift left, then XOR the polynomial in
      when the bit shifted out (bit 15) was set. */
  function MsbShift(rem: bv16): bv16 {
    if rem & 0x8000 != 0 then (rem << 1) ^ POLYNOMIAL else rem << 1
  }

  /** `n` successive one-bit shifts. */
  function MsbShifts(rem: bv16, n: nat): bv16
    decreases n
  {
    if n == 0 then rem else MsbShift(MsbShifts(rem, n - 1))
  }

  /** One byte: XOR it into the high byte of the register, then shift 8 times. */
  function MsbByte(rem: bv16, b: bv8): bv16 {
    MsbShifts(rem ^ ((b as bv16) << 8), SHIFTS_PER_BYTE)
  }

  /** The register after feeding `data`, in order, starting from `rem`. */
  function MsbFrom(rem: bv16, data: seq<bv8>): bv16
    decreases |data|
  {
    if |data| == 0 then rem
    else MsbByte(MsbFrom(rem, data[..|data| - 1]), data[|data| - 1])
  }

  /** CRC-16/IBM-3740 of `data`. */
  function Msb(data: seq<bv8>): bv16 {
    MsbFrom(INITIAL_REMAINDER, data)
  }

  // ---------------------------------------------------------------------
  // Least significant bit first
  // ---------------------------------------------------------------------

  /** One shift of the register: shift right, then XOR the reflected
      polynomial in when the bit shifted out (bit 0) was set. */
  function LsbShift(rem: bv16): bv16 {
    if rem & 0x0001 != 0 then (rem >> 1) ^ POLYNOMIAL_REFLECTED else rem >> 1
  }

  function LsbShifts(rem: bv16, n: nat): bv16
    decreases n
  {
    if n == 0 then rem else LsbShift(LsbShifts(rem, n - 1))
  }

  /** One byte: XOR it into the low byte of the register, then shift 8 times. */
  function LsbByte(rem: bv16, b: bv8): bv16 {
    LsbShifts(rem ^ (b as bv16), SHIFTS_PER_BYTE)
  }

  function LsbFrom(rem: bv16, data: seq<bv8>): bv16
    decreases |data|
  {
    if |data| == 0 then rem
    else LsbByte(LsbFrom(rem, data[..|data| - 1]), data[|data| - 1])
  }

  /** CRC-16/MCRF4XX of `data`. */
  function Lsb(data: seq<bv8>): bv16 {
    LsbFrom(INITIAL_REMAINDER, data)
  }

  // ---------------------------------------------------------------------
  // Prefix compositionality: the remainder after a prefix is all the state
  // the computation carries into the rest of the input.
  // ---------------------------------------------------------------------

  lemma {:induction false} MsbFromAppend(rem: bv16, a: seq<bv8>, b: seq<bv8>)
    ensures MsbFrom(rem, a + b) == MsbFrom(MsbFrom(rem, a), b)
    decreases |b|
  {
    if |b| == 0 {
      assert a + b == a;
    } else {
      var b' := b[..|b| - 1];
      assert (a + b)[..|a + b| - 1] == a + b';
      assert (a + b)[|a + b| - 1] == b[|b| - 1];
      MsbFromAppend(rem, a, b');
    }
  }

  lemma {:induction false} LsbFromAppend(rem: bv16, a: seq<bv8>, b: seq<bv8>)
    ensures LsbFrom(rem, a + b) == LsbFrom(LsbFrom(rem, a), b)
    decreases |b|
  {
    if |b| == 0 {
      assert a + b == a;
    } else {
      var b' := b[..|b| - 1];
      assert (a + b)[..|a + b| - 1] == a + b';
      assert (a + b)[|a + b| - 1] == b[|b| - 1];
      LsbFromAppend(rem, a, b');
    }
  }

  /** The CRC of `data` is the CRC of any prefix, continued over the rest. */
  lemma CrcSplit(data: seq<bv8>, k: nat)
    requires k <= |data|
    ensures Msb(data) == MsbFrom(Msb(data[..k]), data[k..])
    ensures Lsb(data) == LsbFrom(Lsb(data[..k]), data[k..])
  {
    assert data == data[..k] + data[k..];
    MsbFromAppend(INITIAL_REMAINDER, data[..k], data[k..]);
    LsbFromAppend(INITIAL_REMAINDER, data[..k], data[k..]);
  }

  // ---------------------------------------------------------------------
  // The two bit orders are mirror images of each other.
  // ---------------------------------------------------------------------

  /** Bit reversal of a 16-bit word: bit i moves to bit 15 - i. */
  function Reflect16(x: bv16): bv16 {
    var a := ((x >> 1) & 0x5555) | ((x & 0x5555) << 1);
    var b := ((a >> 2) & 0x3333) | ((a & 0x3333) << 2);
    var c := ((b >> 4) & 0x0F0F) | ((b & 0x0F0F) << 4);
    (c >> 8) | (c << 8)
  }

  /** Bit reversal of a byte: bit i moves to bit 7 - i. */
  function Reflect8(x: bv8): bv8 {
    var a := ((x >> 1) & 0x55) | ((x & 0x55) << 1);
    var b := ((a >> 2) & 0x33) | ((a & 0x33) << 2);
    (b >> 4) | (b << 4)
  }

  /** Every byte of `data` bit-reversed. */
  function ReflectBytes(data: seq<bv8>): seq<bv8> {
    seq(|data|, i requires 0 <= i < |data| => Reflect8(data[i]))
  }

  /** 0x8408 is the bit reversal of 0x1021, as the constants' names claim. */
  lemma ReflectedPolynomial()
    ensures Reflect16(POLYNOMIAL) == POLYNOMIAL_REFLECTED
  {
  }

  lemma ReflectXor(a: bv16, b: bv16)
    ensures Reflect16(a ^ b) == Reflect16(a) ^ Reflect16(b)
  {
  }

  lemma ReflectShiftLeft(x: bv16)
    ensures Reflect16(x << 1) == Reflect16(x) >> 1
  {
  }

  lemma ReflectTopBit(x: bv16)
    ensures (Reflect16(x) & 0x0001 != 0) == (x & 0x8000 != 0)
  {
  }

  lemma LsbShiftMirrorsMsbShift(rem: bv16)
    ensures LsbShift(Reflect16(rem)) == Reflect16(MsbShift(rem))
  {
    ReflectTopBit(rem);
    ReflectShiftLeft(rem);
    ReflectXor(rem << 1, POLYNOMIAL);
    ReflectedPolynomial();
  }

  lemma {:induction false} LsbShiftsMirrorMsbShifts(rem: bv16, n: nat)
    ensures LsbShifts(Reflect16(rem), n) == Reflect16(MsbShifts(rem, n))
    decreases n
  {
    if n > 0 {
      LsbShiftsMirrorMsbShifts(rem, n - 1);
      LsbShiftMirrorsMsbShift(MsbShifts(rem, n - 1));
    }
  }

  lemma WidenedReflect8(b: bv8)
    ensures Reflect8(b) as bv16 == Reflect16(b as bv16) >> 8
    ensures (b as bv16) & 0xFF00 == 0
  {
  }

  /** XORing a byte into the low end of the reflected register is XORing its
      reflection into the high end of the register. */
  lemma FeedMirror(rem: bv16, w: bv16, v: bv16)
    requires w & 0xFF00 == 0 && v == Reflect16(w) >> 8
    ensures Reflect16(rem) ^ w == Reflect16(rem ^ (v << 8))
  {
  }

  lemma LsbByteMirrorsMsbByte(rem: bv16, b: bv8)
    ensures LsbByte(Reflect16(rem), b) == Reflect16(MsbByte(rem, Reflect8(b)))
  {
    var w, v := b as bv16, Reflect8(b) as bv16;
    calc {
      LsbByte(Reflect16(rem), b);
      LsbShifts(Reflect16(rem) ^ w, SHIFTS_PER_BYTE);
      { WidenedReflect8(b);
        FeedMirror(rem, w, v);
        LsbShiftsMirrorMsbShifts(rem ^ (v << 8), SHIFTS_PER_BYTE); }
      Reflect16(MsbShifts(rem ^ (v << 8), SHIFTS_PER_BYTE));
      Reflect16(MsbByte(rem, Reflect8(b)));
    }
  }

  lemma {:induction false} LsbFromMirrorsMsbFrom(rem: bv16, data: seq<bv8>)
    ensures LsbFrom(Reflect16(rem), data) == Reflect16(MsbFrom(rem, ReflectBytes(data)))
    decreases |data|
  {
    if |data| > 0 {
      var n := |data| - 1;
      assert ReflectBytes(data)[..n] == ReflectBytes(data[..n]);
      LsbFromMirrorsMsbFrom(rem, data[..n]);
      LsbByteMirrorsMsbByte(MsbFrom(rem, ReflectBytes(data[..n])), data[n]);
    }
  }

  /** The LSB-first CRC of `data` is the bit reversal of the MSB-first CRC of
      `data` with every byte bit-reversed: the two variants are the same CRC
      read in opposite bit orders. */
  lemma LsbMirrorsMsb(data: seq<bv8>)
    ensures Lsb(data) == Reflect16(Msb(ReflectBytes(data)))
  {
    assert Reflect16(INITIAL_REMAINDER) == INITIAL_REMAINDER;
    LsbFromMirrorsMsbFrom(INITIAL_REMAINDER, data);
  }

  // ---------------------------------------------------------------------
  // Pinned values
  // ---------------------------------------------------------------------

  /** The vector both source files feed to their debug routine. */
  lemma DebugVector()
    ensures Msb([0x12, 0x34, 0x56]) == 0x12FD
    ensures Lsb([0x12, 0x34, 0x56]) == 0xEF6F
  {
    assert [0x12, 0x34, 0x56][..2] == [0x12, 0x34];
    assert [0x12, 0x34][..1] == [0x12];
    assert [0x12][..0] == [];
    assert MsbFrom(0xFFFF, [0x12]) == 0xD383;
    assert MsbFrom(0xFFFF, [0x12, 0x34]) == 0x0EC9;
    assert LsbFrom(0xFFFF, [0x12]) == 0x3C14;
    assert LsbFrom(0xFFFF, [0x12, 0x34]) == 0x213E;
    assert MsbFrom(0xFFFF, [0x12, 0x34, 0x56]) == 0x12FD;
    assert LsbFrom(0xFFFF, [0x12, 0x34, 0x56]) == 0xEF6F;
  }

  /** The catalogue's check values, the CRCs of the ASCII string
      "123456789", identify the two variants. */
  lemma CheckValues()
    ensures Msb([0x31, 0x32, 0x33, 0x34, 0x35, 0x36, 0x37, 0x38, 0x39]) == 0x29B1
    ensures Lsb([0x31, 0x32, 0x33, 0x34, 0x35, 0x36, 0x37, 0x38, 0x39]) == 0x6F91
  {
    var s: seq<bv8> := [0x31, 0x32, 0x33, 0x34, 0x35, 0x36, 0x37, 0x38, 0x39];
    assert s[..0] == [];
    assert MsbFrom(0xFFFF, s[..1]) == 0xC782;
    assert LsbFrom(0xFFFF, s[..1]) == 0x2F8D;
    assert s[..2][..1] == s[..1];
    assert MsbFrom(0xFFFF, s[..2]) == 0x3DBA;
    assert LsbFrom(0xFFFF, s[..2]) == 0x4D53;
    assert s[..3][..2] == s[..2];
    assert MsbFrom(0xFFFF, s[..3]) == 0x5BCE;
    assert LsbFrom(0xFFFF, s[..3]) == 0x634B;
    assert s[..4][..3] == s[..3];
    assert MsbFrom(0xFFFF, s[..4]) == 0x5349;
    assert LsbFrom(0xFFFF, s[..4]) == 0x8B13;
    assert s[..5][..4] == s[..4];
    assert MsbFrom(0xFFFF, s[..5]) == 0x4560;
    assert LsbFrom(0xFFFF, s[..5]) == 0x44BF;
    assert s[..6][..5] == s[..5];
    assert MsbFrom(0xFFFF, s[..6]) == 0x2EF4;
    assert LsbFrom(0xFFFF, s[..6]) == 0x198D;
    assert s[..7][..6] == s[..6];
    assert MsbFrom(0xFFFF, s[..7]) == 0x7718;
    assert LsbFrom(0xFFFF, s[..7]) == 0x1AC8;
    assert s[..8][..7] == s[..7];
    assert MsbFrom(0xFFFF, s[..8]) == 0xA12B;
    assert LsbFrom(0xFFFF, s[..8]) == 0xF795;
    assert s[..9][..8] == s[..8];
    assert MsbFrom(0xFFFF, s[..9]) == 0x29B1;
    assert LsbFrom(0xFFFF, s[..9]) == 0x6F91;
    assert s[..9] == s;
  }

  // ---------------------------------------------------------------------
  // Error detection: the LSB-first CRC catches every single-byte change.
  // ---------------------------------------------------------------------

  /** The two branches of `LsbShift`, as facts to cite. */
  lemma LsbShiftOdd(x: bv16)
    requires x & 1 != 0
    ensures LsbShift(x) == (x >> 1) ^ POLYNOMIAL_REFLECTED
  {
  }

  lemma LsbShiftEven(x: bv16)
    requires x & 1 == 0
    ensures LsbShift(x) == x >> 1
  {
  }

  /** Bit 15 of the shifted register is the bit shifted out: `x >> 1`
      clears it and the reflected polynomial sets it. */
  lemma LsbShiftTopBit(x: bv16)
    ensures (LsbShift(x) & 0x8000 != 0) == (x & 1 != 0)
  {
    if x & 1 != 0 {
      LsbShiftOdd(x);
    } else {
      LsbShiftEven(x);
    }
  }

  /** A register is determined by its bit 0 and its upper 15 bits. */
  lemma HalfAndLowBit(a: bv16, b: bv16)
    ensures a >> 1 == b >> 1 && (a & 1 != 0) == (b & 1 != 0) ==> a == b
  {
  }

  /** XOR with a fixed word is injective, on either side. */
  lemma XorCancel(u: bv16, v: bv16, p: bv16)
    ensures u ^ p == v ^ p ==> u == v
  {
  }

  lemma XorCancelLeft(u: bv16, v: bv16, p: bv16)
    ensures p ^ u == p ^ v ==> u == v
  {
  }

  lemma WidenInjective(b: bv8, c: bv8)
    ensures b as bv16 == c as bv16 ==> b == c
  {
  }

  /** One shift is injective: it loses no information about the register. */
  lemma LsbShiftInjective(a: bv16, b: bv16)
    ensures LsbShift(a) == LsbShift(b) ==> a == b
  {
    LsbShiftTopBit(a);
    LsbShiftTopBit(b);
    if a & 1 != 0 { LsbShiftOdd(a); } else { LsbShiftEven(a); }
    if b & 1 != 0 { LsbShiftOdd(b); } else { LsbShiftEven(b); }
    XorCancel(a >> 1, b >> 1, POLYNOMIAL_REFLECTED);
    HalfAndLowBit(a, b);
  }

  /** Any number of shifts is injective. */
  lemma {:induction false} LsbShiftsInjective(a: bv16, b: bv16, n: nat)
    ensures LsbShifts(a, n) == LsbShifts(b, n) ==> a == b
    decreases n
  {
    if n > 0 {
      LsbShiftsInjective(a, b, n - 1);
      LsbShiftInjective(LsbShifts(a, n - 1), LsbShifts(b, n - 1));
    }
  }

  /** `LsbByte` unfolded, as a fact the byte lemmas below can cite. */
  lemma LsbByteDef(x: bv16, b: bv8)
    ensures LsbByte(x, b) == LsbShifts(x ^ (b as bv16), SHIFTS_PER_BYTE)
  {
  }

  /** XORing the same word into two registers, then shifting, keeps them
      apart. */
  lemma LsbFeedInjective(x: bv16, y: bv16, w: bv16, n: nat)
    ensures LsbShifts(x ^ w, n) == LsbShifts(y ^ w, n) ==> x == y
  {
    XorCancel(x, y, w);
    LsbShiftsInjective(x ^ w, y ^ w, n);
  }

  /** XORing two different words into the same register, then shifting,
      keeps the results apart. */
  lemma LsbFeedDistinguishes(r: bv16, v: bv16, w: bv16, n: nat)
    ensures LsbShifts(r ^ v, n) == LsbShifts(r ^ w, n) ==> v == w
  {
    XorCancelLeft(v, w, r);
    LsbShiftsInjective(r ^ v, r ^ w, n);
  }

  /** Feeding the same byte into two registers keeps them apart. */
  lemma LsbByteInjective(x: bv16, y: bv16, b: bv8)
    ensures LsbByte(x, b) == LsbByte(y, b) ==> x == y
  {
    LsbByteDef(x, b);
    LsbByteDef(y, b);
    LsbFeedInjective(x, y, b as bv16, SHIFTS_PER_BYTE);
  }

  /** The byte lemma below, before narrowing the widened bytes. */
  lemma LsbByteWidened(r: bv16, b: bv8, c: bv8)
    ensures LsbByte(r, b) == LsbByte(r, c) ==> b as bv16 == c as bv16
  {
    var v, w := b as bv16, c as bv16;
    LsbByteDef(r, b);
    LsbByteDef(r, c);
    assert LsbByte(r, b) == LsbShifts(r ^ v, SHIFTS_PER_BYTE);
    assert LsbByte(r, c) == LsbShifts(r ^ w, SHIFTS_PER_BYTE);
    LsbFeedDistinguishes(r, v, w, SHIFTS_PER_BYTE);
  }

  /** Feeding two different bytes into the same register gives different
      registers. */
  lemma LsbByteDistinguishes(r: bv16, b: bv8, c: bv8)
    ensures LsbByte(r, b) == LsbByte(r, c) ==> b == c
  {
    LsbByteWidened(r, b, c);
    WidenInjective(b, c);
  }

  /** The remainder after a string determines the register it started
      from. */
  lemma {:induction false} LsbFromInjective(x: bv16, y: bv16, data: seq<bv8>)
    ensures LsbFrom(x, data) == LsbFrom(y, data) ==> x == y
    decreases |data|
  {
    if |data| > 0 {
      var n := |data| - 1;
      LsbFromInjective(x, y, data[..n]);
      LsbByteInjective(LsbFrom(x, data[..n]), LsbFrom(y, data[..n]), data[n]);
    }
  }

  /** Changing any one byte of a string changes its LSB-first CRC. */
  lemma LsbDetectsByteChange(data: seq<bv8>, i: nat, b: bv8)
    requires i < |data| && b != data[i]
    ensures Lsb(data[i := b]) != Lsb(data)
  {
    var d' := data[i := b];
    var r := Lsb(data[..i]);
    assert data == data[..i] + ([data[i]] + data[i + 1..]);
    assert d' == data[..i] + ([b] + data[i + 1..]);
    assert d'[..i] == data[..i];
    LsbFromAppend(INITIAL_REMAINDER, data[..i], [data[i]] + data[i + 1..]);
    LsbFromAppend(INITIAL_REMAINDER, data[..i], [b] + data[i + 1..]);
    LsbFromAppend(r, [data[i]], data[i + 1..]);
    LsbFromAppend(r, [b], data[i + 1..]);
    assert [data[i]][..0] == [] && [b][..0] == [];
    LsbByteDistinguishes(r, data[i], b);
    LsbFromInjective(LsbByte(r, data[i]), LsbByte(r, b), data[i + 1..]);
  }
}
