/**
 * The controller side of the packet layer
 * (raspberry-pi/controller/lib/comms.py): the same two CRC-16 loops, written
 * over Python integers.
 *
 * Python integers are unbounded and the code masks with `& 0xFFFF` after
 * every step. The model computes on `int` as Python does: each operator the
 * loops use is defined arithmetically below (`<<` as doubling, `>>` as floor
 * division, `& 0xFFFF` as the remainder modulo 0x10000, `^` bit by bit from
 * the top). The lemmas at the end show that on byte-valued data the two
 * loops return the value of the 16-bit register of module Crc16, that is,
 * the same CRCs as the microcontroller.
 */
module PyComms {
  import Crc16
  import opened Bytes
  import opened Words

  const CRC_16_CCITT_POLYNOMIAL: int := 0x1021
  const CRC_16_CCITT_POLYNOMIAL_REVERSED: int := 0x8408
  const BYTE_SIZE: nat := 8

  /** Values of the 16-bit register. */
  predicate InRange(x: int) {
    0 <= x < 0x10000
  }

  // ---------------------------------------------------------------------
  // Python's operators on integers
  // ---------------------------------------------------------------------

  /** `x << k`: `k` doublings, for negative `x` too. */
  function Shl(x: int, k: nat): int
    decreases k
  {
    if k == 0 then x else 2 * Shl(x, k - 1)
  }

  /** `x >> 1`: division by two rounding down, which is also what Dafny's
      `/` does for a positive divisor. */
  function Shr1(x: int): int {
    x / 2
  }

  /** `x & 0xFFFF`: for every integer, negative ones included, the remainder
      modulo 0x10000. */
  function Mask16(x: int): (r: int)
    ensures InRange(r)
  {
    x % 0x10000
  }

  /** Whether `x & m` is non-zero, for a mask `m` with a single bit set:
      the quotient by `m`, rounded down, is odd. */
  predicate HasBit(x: int, m: int)
    requires m > 0
  {
    (x / m) % 2 == 1
  }

  /** `a ^ b` for `0 <= a, b < 2 * w`, where `w` is a power of two: the bit
      of weight `w` is set in the result when it is set in exactly one
      operand, and the bits below it follow from the remainders. */
  function XorTop(a: int, b: int, w: nat): int
    decreases w, 1
  {
    if w == 0 then 0 else XorTopBit(a, b, w)
  }

  function XorTopBit(a: int, b: int, w: nat): int
    requires w > 0
    decreases w, 0
  {
    (if (a >= w) != (b >= w) then w else 0)
    + XorTop(if a >= w then a - w else a, if b >= w then b - w else b, w / 2)
  }

  /** `(a ^ b) & 0xFFFF`. Each bit of `a ^ b` depends only on the same bit of
      `a` and `b`, negative operands included (Python's `^` acts on the
      two's complement representation), so the low sixteen bits of the
      result are the XOR of `a & 0xFFFF` and `b & 0xFFFF`. */
  function Xor16(a: int, b: int): (r: int)
    ensures InRange(r)
  {
    XorTopRange(Mask16(a), Mask16(b), 0x8000);
    XorTop(Mask16(a), Mask16(b), 0x8000)
  }

  // ---------------------------------------------------------------------
  // The CRCs as Python computes them
  // ---------------------------------------------------------------------

  /** One pass of the inner loop of `crc16_msb`. */
  function MsbShift(rem: int): (r: int)
    ensures InRange(r)
  {
    if HasBit(rem, 0x8000) then Xor16(Shl(rem, 1), CRC_16_CCITT_POLYNOMIAL)
    else Mask16(Shl(rem, 1))
  }

  function MsbShifts(rem: int, n: nat): (r: int)
    ensures InRange(rem) ==> InRange(r)
    decreases n
  {
    if n == 0 then rem else MsbShift(MsbShifts(rem, n - 1))
  }

  /** The first statement of the outer loop of `crc16_msb`. */
  function MsbFeed(rem: int, d: int): (r: int)
    ensures InRange(r)
  {
    Xor16(rem, Shl(d, BYTE_SIZE))
  }

  /** The remainder after the outer loop of `crc16_msb` has consumed `data`,
      starting from `rem`. */
  function MsbFrom(rem: int, data: seq<int>): (r: int)
    ensures InRange(rem) ==> InRange(r)
    decreases |data|
  {
    if |data| == 0 then rem
    else MsbShifts(MsbFeed(MsbFrom(rem, data[..|data| - 1]), data[|data| - 1]), 8)
  }

  /** What `crc16_msb(data, len(data))` returns. */
  function Msb(data: seq<int>): int {
    MsbFrom(0xFFFF, data)
  }

  /** One pass of the inner loop of `crc16_lsb`. */
  function LsbShift(rem: int): (r: int)
    ensures InRange(r)
  {
    if HasBit(rem, 0x0001) then Xor16(Shr1(rem), CRC_16_CCITT_POLYNOMIAL_REVERSED)
    else Mask16(Shr1(rem))
  }

  function LsbShifts(rem: int, n: nat): (r: int)
    ensures InRange(rem) ==> InRange(r)
    decreases n
  {
    if n == 0 then rem else LsbShift(LsbShifts(rem, n - 1))
  }

  /** The first statement of the outer loop of `crc16_lsb`. */
  function LsbFeed(rem: int, d: int): (r: int)
    ensures InRange(r)
  {
    Xor16(rem, d)
  }

  function LsbFrom(rem: int, data: seq<int>): (r: int)
    ensures InRange(rem) ==> InRange(r)
    decreases |data|
  {
    if |data| == 0 then rem
    else LsbShifts(LsbFeed(LsbFrom(rem, data[..|data| - 1]), data[|data| - 1]), 8)
  }

  /** What `crc16_lsb(data, len(data))` returns. */
  function Lsb(data: seq<int>): int {
    LsbFrom(0xFFFF, data)
  }

  // ---------------------------------------------------------------------
  // The loops
  // ---------------------------------------------------------------------

  /** `crc16_msb(data, length)`: the CRC of the first `length` items, and of
      none when `length` is zero or negative (`range` is then empty). An
      index past the end of `data` raises `IndexError`; that call is
      excluded. */
  method Crc16Msb(data: seq<int>, length: int) returns (rem: int)
    requires length <= |data|
    ensures rem == Msb(data[..if length < 0 then 0 else length])
    ensures InRange(rem)
    ensures length <= 0 ==> rem == 0xFFFF
  {
    rem := 0xFFFF;
    var i := 0;
    while i < length
      invariant 0 <= i <= if length < 0 then 0 else length
      invariant rem == MsbFrom(0xFFFF, data[..i])
    {
      rem := Xor16(rem, Shl(data[i], BYTE_SIZE));
      ghost var fed := rem;
      var j := 0;
      while j < 8
        invariant 0 <= j <= 8
        invariant rem == MsbShifts(fed, j)
      {
        if HasBit(rem, 0x8000) {
          rem := Xor16(Shl(rem, 1), CRC_16_CCITT_POLYNOMIAL);
        } else {
          rem := Mask16(Shl(rem, 1));
        }
        j := j + 1;
      }
      assert data[..i + 1][..i] == data[..i];
      i := i + 1;
    }
    assert data[..i] == data[..if length < 0 then 0 else length];
  }

  /** `crc16_lsb(data, length)`, with the same treatment of `length`. */
  method Crc16Lsb(data: seq<int>, length: int) returns (rem: int)
    requires length <= |data|
    ensures rem == Lsb(data[..if length < 0 then 0 else length])
    ensures InRange(rem)
    ensures length <= 0 ==> rem == 0xFFFF
  {
    rem := 0xFFFF;
    var i := 0;
    while i < length
      invariant 0 <= i <= if length < 0 then 0 else length
      invariant rem == LsbFrom(0xFFFF, data[..i])
    {
      rem := Xor16(rem, data[i]);
      ghost var fed := rem;
      var j := 0;
      while j < 8
        invariant 0 <= j <= 8
        invariant rem == LsbShifts(fed, j)
      {
        if HasBit(rem, 0x0001) {
          rem := Xor16(Shr1(rem), CRC_16_CCITT_POLYNOMIAL_REVERSED);
        } else {
          rem := Mask16(Shr1(rem));
        }
        j := j + 1;
      }
      assert data[..i + 1][..i] == data[..i];
      i := i + 1;
    }
    assert data[..i] == data[..if length < 0 then 0 else length];
  }


  // ---------------------------------------------------------------------
  // Prefix compositionality
  // ---------------------------------------------------------------------

  lemma {:induction false} MsbFromAppend(rem: int, a: seq<int>, b: seq<int>)
    ensures MsbFrom(rem, a + b) == MsbFrom(MsbFrom(rem, a), b)
    decreases |b|
  {
    if |b| == 0 {
      assert a + b == a;
    } else {
      var b' := b[..|b| - 1];
      assert (a + b)[..|a + b| - 1] == a + b';
      assert (a + b)[|a + b| - 1] == b[|b| - 1];
      MsbFromAppend(rem, a, b');
    }
  }

  lemma {:induction false} LsbFromAppend(rem: int, a: seq<int>, b: seq<int>)
    ensures LsbFrom(rem, a + b) == LsbFrom(LsbFrom(rem, a), b)
    decreases |b|
  {
    if |b| == 0 {
      assert a + b == a;
    } else {
      var b' := b[..|b| - 1];
      assert (a + b)[..|a + b| - 1] == a + b';
      assert (a + b)[|a + b| - 1] == b[|b| - 1];
      LsbFromAppend(rem, a, b');
    }
  }

  /** The CRC of the first `k + j` items is the CRC of the first `k`,
      continued over the next `j`: a caller may feed the list in pieces. */
  lemma CrcSplit(data: seq<int>, k: nat, j: nat)
    requires k + j <= |data|
    ensures Msb(data[..k + j]) == MsbFrom(Msb(data[..k]), data[k..k + j])
    ensures Lsb(data[..k + j]) == LsbFrom(Lsb(data[..k]), data[k..k + j])
  {
    assert data[..k + j] == data[..k] + data[k..k + j];
    MsbFromAppend(0xFFFF, data[..k], data[k..k + j]);
    LsbFromAppend(0xFFFF, data[..k], data[k..k + j]);
  }

  // ---------------------------------------------------------------------
  // The operators on register values
  // ---------------------------------------------------------------------

  /** The bits from weight `w` down add up to less than `2 * w`. */
  lemma {:induction false} XorTopRange(a: int, b: int, w: nat)
    ensures w == 0 ==> XorTop(a, b, w) == 0
    ensures w > 0 ==> 0 <= XorTop(a, b, w) < 2 * w
    decreases w
  {
    if w > 0 {
      XorTopRange(if a >= w then a - w else a, if b >= w then b - w else b, w / 2);
    }
  }

  /** One level of `XorTop`: the operands' bits of weight `w` decide that
      level, and the rest goes on to the next. */
  lemma XorTopSplit(a: int, b: int, w: nat, hasA: bool, hasB: bool, restA: int, restB: int)
    requires w > 0 && 0 <= restA < w && 0 <= restB < w
    requires a == (if hasA then w else 0) + restA
    requires b == (if hasB then w else 0) + restB
    ensures XorTop(a, b, w) == (if hasA != hasB then w else 0) + XorTop(restA, restB, w / 2)
  {
  }

  /** On the bits of two registers, from bit `m` of weight `w` down,
      `XorTop` is the register XOR. */
  lemma {:induction false} XorTopLow(x: bv16, y: bv16, m: bv16, w: nat)
    requires Ladder(m, w)
    ensures XorTop(Low(x, m, w), Low(y, m, w), w) == Low(x ^ y, m, w)
    decreases w
  {
    if w > 0 {
      var m', w' := m >> 1, w / 2;
      assert m != 0 && m & (m - 1) == 0 && Ladder(m', w');
      LowStep(x, m, w, m', w');
      LowStep(y, m, w, m', w');
      LowStep(x ^ y, m, w, m', w');
      LowRange(x, m', w');
      LowRange(y, m', w');
      XorBit(x, y, m);
      XorTopSplit(Low(x, m, w), Low(y, m, w), w, x & m != 0, y & m != 0,
                  Low(x, m', w'), Low(y, m', w'));
      XorTopLow(x, y, m', w');
    }
  }

  lemma MaskIdentity(a: int)
    requires InRange(a)
    ensures Mask16(a) == a
  {
  }

  lemma XorOfValues(x: bv16, y: bv16)
    ensures Xor16(Value(x), Value(y)) == Value(x ^ y)
  {
    ValueRange(x);
    ValueRange(y);
    MaskIdentity(Value(x));
    MaskIdentity(Value(y));
    ValueIsLow(x);
    ValueIsLow(y);
    ValueIsLow(x ^ y);
    TopLadder();
    XorTopLow(x, y, 0x8000, 0x8000);
  }

  /** `Xor16` reads only the low sixteen bits of its operands. */
  lemma XorOfMasks(a: int, b: int)
    ensures Xor16(a, b) == Xor16(Mask16(a), Mask16(b))
  {
    MaskIdentity(Mask16(a));
    MaskIdentity(Mask16(b));
  }

  lemma ShlByte(x: int)
    ensures Shl(x, BYTE_SIZE) == 256 * x
  {
    assert Shl(x, 2) == 4 * x;
    assert Shl(x, 4) == 16 * x;
    assert Shl(x, 6) == 64 * x;
  }

  // ---------------------------------------------------------------------
  // On byte-valued input, the Python loops compute the C++ register
  // ---------------------------------------------------------------------

  /** The test of the inner loop of `crc16_msb` reads bit 15. */
  lemma TopBitAgrees(x: bv16)
    ensures HasBit(Value(x), 0x8000) == (x & 0x8000 != 0)
  {
    ValueTop(x);
  }

  /** `(rem << 1) & 0xFFFF` on a register value is the register shifted left. */
  lemma DoubleAgrees(x: bv16)
    ensures Mask16(Shl(Value(x), 1)) == Value(x << 1)
  {
    ValueShl(x);
    assert Shl(Value(x), 1) == 2 * Value(x);
  }

  /** The inner loop body of `crc16_msb` is one shift of the register. */
  lemma MsbShiftAgrees(x: bv16)
    ensures MsbShift(Value(x)) == Value(Crc16.MsbShift(x))
  {
    TopBitAgrees(x);
    DoubleAgrees(x);
    if x & 0x8000 != 0 {
      XorOfMasks(Shl(Value(x), 1), CRC_16_CCITT_POLYNOMIAL);
      assert Mask16(CRC_16_CCITT_POLYNOMIAL) == Value(Crc16.POLYNOMIAL);
      XorOfValues(x << 1, Crc16.POLYNOMIAL);
    }
  }

  lemma {:induction false} MsbShiftsAgree(x: bv16, n: nat)
    ensures MsbShifts(Value(x), n) == Value(Crc16.MsbShifts(x, n))
    decreases n
  {
    if n > 0 {
      MsbShiftsAgree(x, n - 1);
      MsbShiftAgrees(Crc16.MsbShifts(x, n - 1));
    }
  }

  /** The test of the inner loop of `crc16_lsb` reads bit 0. */
  lemma LowBitAgrees(x: bv16)
    ensures HasBit(Value(x), 0x0001) == (x & 0x0001 != 0)
  {
    ValueShr(x);
  }

  /** `rem >> 1` on a register value is the register shifted right. */
  lemma HalfAgrees(x: bv16)
    ensures Mask16(Shr1(Value(x))) == Shr1(Value(x)) == Value(x >> 1)
  {
    ValueShr(x);
    ValueRange(x >> 1);
    MaskIdentity(Value(x >> 1));
  }

  /** The inner loop body of `crc16_lsb` is one shift of the register. */
  lemma LsbShiftAgrees(x: bv16)
    ensures LsbShift(Value(x)) == Value(Crc16.LsbShift(x))
  {
    LowBitAgrees(x);
    HalfAgrees(x);
    if x & 0x0001 != 0 {
      assert CRC_16_CCITT_POLYNOMIAL_REVERSED == Value(Crc16.POLYNOMIAL_REFLECTED);
      XorOfValues(x >> 1, Crc16.POLYNOMIAL_REFLECTED);
    }
  }

  lemma {:induction false} LsbShiftsAgree(x: bv16, n: nat)
    ensures LsbShifts(Value(x), n) == Value(Crc16.LsbShifts(x, n))
    decreases n
  {
    if n > 0 {
      LsbShiftsAgree(x, n - 1);
      LsbShiftAgrees(Crc16.LsbShifts(x, n - 1));
    }
  }

  /** The integer value of each byte of `bytes`, as a Python list of byte
      values holds them. */
  function Counts(bytes: seq<bv8>): seq<int> {
    seq(|bytes|, i requires 0 <= i < |bytes| => Count(bytes[i]) as int)
  }

  /** One pass of the outer loop of `crc16_msb` on a byte value is one
      byte step of the register. */
  lemma MsbByteAgrees(r: bv16, b: bv8)
    ensures MsbShifts(MsbFeed(Value(r), Count(b) as int), 8) == Value(Crc16.MsbByte(r, b))
  {
    ValueOfHighByte(b);
    ShlByte(Count(b) as int);
    ValueRange((b as bv16) << 8);
    MaskIdentity(Value((b as bv16) << 8));
    XorOfMasks(Value(r), Shl(Count(b) as int, BYTE_SIZE));
    XorOfValues(r, (b as bv16) << 8);
    MsbShiftsAgree(r ^ ((b as bv16) << 8), 8);
  }

  lemma {:induction false} MsbFromAgrees(x: bv16, bytes: seq<bv8>, data: seq<int>)
    requires |data| == |bytes|
    requires forall i :: 0 <= i < |bytes| ==> data[i] == Count(bytes[i]) as int
    ensures MsbFrom(Value(x), data) == Value(Crc16.MsbFrom(x, bytes))
    decreases |bytes|
  {
    if |bytes| > 0 {
      var n := |bytes| - 1;
      MsbFromAgrees(x, bytes[..n], data[..n]);
      MsbByteAgrees(Crc16.MsbFrom(x, bytes[..n]), bytes[n]);
    }
  }

  /** One pass of the outer loop of `crc16_lsb` on a byte value is one
      byte step of the register. */
  lemma LsbByteAgrees(r: bv16, b: bv8)
    ensures LsbShifts(LsbFeed(Value(r), Count(b) as int), 8) == Value(Crc16.LsbByte(r, b))
  {
    ValueOfByte(b);
    XorOfValues(r, b as bv16);
    LsbShiftsAgree(r ^ (b as bv16), 8);
  }

  lemma {:induction false} LsbFromAgrees(x: bv16, bytes: seq<bv8>, data: seq<int>)
    requires |data| == |bytes|
    requires forall i :: 0 <= i < |bytes| ==> data[i] == Count(bytes[i]) as int
    ensures LsbFrom(Value(x), data) == Value(Crc16.LsbFrom(x, bytes))
    decreases |bytes|
  {
    if |bytes| > 0 {
      var n := |bytes| - 1;
      LsbFromAgrees(x, bytes[..n], data[..n]);
      LsbByteAgrees(Crc16.LsbFrom(x, bytes[..n]), bytes[n]);
    }
  }

  /** On the same bytes, the Python loops return the values of the C++
      registers: CRC-16/IBM-3740 and CRC-16/MCRF4XX. */
  lemma MatchesCpp(bytes: seq<bv8>)
    ensures Msb(Counts(bytes)) == Value(Crc16.Msb(bytes))
    ensures Lsb(Counts(bytes)) == Value(Crc16.Lsb(bytes))
  {
    assert Value(Crc16.INITIAL_REMAINDER) == 0xFFFF;
    MsbFromAgrees(Crc16.INITIAL_REMAINDER, bytes, Counts(bytes));
    LsbFromAgrees(Crc16.INITIAL_REMAINDER, bytes, Counts(bytes));
  }

  /** `debug_crc`'s vector gives the values the C++ side computes. */
  lemma DebugVector()
    ensures Msb([0x12, 0x34, 0x56]) == 0x12FD
    ensures Lsb([0x12, 0x34, 0x56]) == 0xEF6F
  {
    var bytes: seq<bv8> := [0x12, 0x34, 0x56];
    assert Counts(bytes) == [0x12, 0x34, 0x56];
    MatchesCpp(bytes);
    Crc16.DebugVector();
    assert Value(0x12FD) == 0x12FD;
    assert Value(0xEF6F) == 0xEF6F;
  }
}
