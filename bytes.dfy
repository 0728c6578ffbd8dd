/**
 * The integer conversions the microcontroller code performs between bytes,
 * counts and 16-bit words, written out so that each truncation is visible.
 */
module Bytes {

  /** A `uint8_t` used as a count or an index. Bytes that the code combines
      bit by bit are `bv8`; counts are integers in the same range, so that
      the arithmetic on them stays linear. */
  newtype uint8 = x: int | 0 <= x < 256

  /** Storing a wider unsigned value into a `uint8_t` keeps its low 8 bits. */
  function Low8(x: bv16): bv8 {
    (x & 0xFF) as bv8
  }

  /** The weight of one bit of a byte: `weight` when the bit under `mask` is
      set, else 0. */
  function BitWeight(b: bv8, mask: bv8, weight: int): int {
    if b & mask != 0 then weight else 0
  }

  /** A byte read as an unsigned count (`*length = packetBuffer[1]`), as the
      sum of the weights of its set bits; `CountIsValue` shows that this is
      the byte's unsigned value. It is not written `b as int` because
      conversions between integers and bit-vectors make the solver slow in
      the proofs that use counts. */
  function Count(b: bv8): (n: uint8)
  {
    (BitWeight(b, 0x80, 128) + BitWeight(b, 0x40, 64) + BitWeight(b, 0x20, 32)
     + BitWeight(b, 0x10, 16) + BitWeight(b, 0x08, 8) + BitWeight(b, 0x04, 4)
     + BitWeight(b, 0x02, 2) + BitWeight(b, 0x01, 1)) as uint8
  }

  lemma CountIsValue(b: bv8)
    ensures Count(b) as int == b as int
  {
  }

  /** Different bytes read as different counts. */
  lemma CountInjective(b: bv8, c: bv8)
    ensures Count(b) == Count(c) ==> b == c
  {
    CountIsValue(b);
    CountIsValue(c);
  }

  /** A count stored into a byte (`buffer[1] = length`), counted up one at
      a time; `CountOfByte` shows that `Count` reads it back. It is not
      written `k as bv8`, for the same reason as `Count`: integer to
      bit-vector conversions make the solver slow. */
  function ByteOf(k: uint8): (b: bv8)
    decreases k
  {
    if k == 0 then 0 else ByteOf(k - 1) + 1
  }

  /** Adding one to a byte that is not 0xFF adds one to its value. */
  lemma CountSucc(b: bv8)
    requires b != 0xFF
    ensures Count(b + 1) as int == Count(b) as int + 1
  {
  }

  /** Storing a count into a byte and reading it back gives the count. */
  lemma {:induction false} CountOfByte(k: uint8)
    ensures Count(ByteOf(k)) == k
    decreases k
  {
    if k != 0 {
      CountOfByte(k - 1);
      CountSucc(ByteOf(k - 1));
    }
  }

  /** `crc << 8` stored into a `uint8_t` is always 0. */
  lemma ShiftedLow8IsZero(x: bv16)
    ensures Low8(x << 8) == 0
  {
  }

  /** `(hi << 8 | lo) & 0xFFFF` stored into a `uint16_t`. */
  function BigEndian(hi: bv8, lo: bv8): (w: bv16)
    ensures Low8(w >> 8) == hi && Low8(w) == lo
  {
    ((hi as bv16) << 8) | (lo as bv16)
  }

  /** Two big-endian words are equal only when both their bytes are. */
  lemma BigEndianInjective(hi: bv8, lo: bv8, hi': bv8, lo': bv8)
    requires BigEndian(hi, lo) == BigEndian(hi', lo')
    ensures hi == hi' && lo == lo'
  {
  }

  /** A word is the big-endian combination of its two bytes. */
  lemma BigEndianOfBytes(w: bv16)
    ensures BigEndian(Low8(w >> 8), Low8(w)) == w
  {
  }

  /** A word equals the word built from a zero high byte and its own low
      byte exactly when its high byte is zero. */
  lemma LowByteOnly(w: bv16)
    ensures (BigEndian(0, Low8(w & 0xFF)) == w) == (w >> 8 == 0)
  {
  }
}
