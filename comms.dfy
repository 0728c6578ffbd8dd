/**
 * The microcontroller side of the packet layer (arduino/lib/comms/comms.cpp):
 * the two bit-by-bit CRC-16 loops, and the `Communication` object with its
 * one-slot receive mailbox, its packet builder and its packet reader.
 *
 * The COBS framing library underneath is not modelled: what it delivers to
 * the packet handler is the `buffer` argument of `OnPacketReceived`, and what
 * `sendPacket` hands to it is the `sent` result of `SendPacket`.
 *
 * The model follows the code as written, including three defects that the
 * lemmas at the end exhibit; `IntendedFrame` and `IntendedExamine` are the
 * corrected builder and reader, with the round trip the code was meant to
 * have.
 */
module Comms {
  import opened Wrappers
  import Crc16
  import opened Bytes

  const CRC_16_CCITT_POLYNOMIAL: bv16 := Crc16.POLYNOMIAL
  const CRC_16_CCITT_POLYNOMIAL_REVERSED: bv16 := Crc16.POLYNOMIAL_REFLECTED
  const BYTE_SIZE: bv16 := 8

  /** Capacity of the receive buffer and of the frame `sendPacket` builds.
      comms.cpp uses this name, but neither it nor comms.h defines it. 255
      is the frame limit of the protocol (so `length + 4 >= 255` rejects a
      251-byte payload), and it keeps every held length representable in
      the `uint8_t packetLength`. */
  const MAX_BUFFER_LENGTH: nat := 255

  // ---------------------------------------------------------------------
  // CRC-16 over the first `length` bytes of an array
  // ---------------------------------------------------------------------

  /** `crc16_msb`. The register is a `uint16_t`; C++ evaluates each
      expression in `int` and truncates on assignment, which is what 16-bit
      bit-vector arithmetic does, so `rem &= 0xFFFF` changes nothing. */
  method Crc16Msb(data: array<bv8>, length: uint8) returns (rem: bv16)
    requires length as int <= data.Length
    ensures rem == Crc16.Msb(data[..length as int])
    ensures length == 0 ==> rem == 0xFFFF
  {
    rem := 0xFFFF;
    for i := 0 to length as int
      invariant rem == Crc16.MsbFrom(0xFFFF, data[..i])
    {
      rem := rem ^ ((data[i] as bv16) << BYTE_SIZE);
      ghost var fed := rem;
      for j := 0 to 8
        invariant rem == Crc16.MsbShifts(fed, j)
      {
        if rem & 0x8000 != 0 {
          rem := (rem << 1) ^ CRC_16_CCITT_POLYNOMIAL;
        } else {
          rem := rem << 1;
        }
        rem := rem & 0xFFFF;
      }
      assert data[..i + 1][..i] == data[..i];
    }
  }

  /** `crc16_lsb`, the bit-reversed variant. */
  method Crc16Lsb(data: array<bv8>, length: uint8) returns (rem: bv16)
    requires length as int <= data.Length
    ensures rem == Crc16.Lsb(data[..length as int])
    ensures length == 0 ==> rem == 0xFFFF
  {
    rem := 0xFFFF;
    for i := 0 to length as int
      invariant rem == Crc16.LsbFrom(0xFFFF, data[..i])
    {
      rem := rem ^ (data[i] as bv16);
      ghost var fed := rem;
      for j := 0 to 8
        invariant rem == Crc16.LsbShifts(fed, j)
      {
        if rem & 0x0001 != 0 {
          rem := (rem >> 1) ^ CRC_16_CCITT_POLYNOMIAL_REVERSED;
        } else {
          rem := rem >> 1;
        }
        rem := rem & 0xFFFF;
      }
      assert data[..i + 1][..i] == data[..i];
    }
  }

  // ---------------------------------------------------------------------
  // What `sendPacket` and `readPacket` compute, as functions
  // ---------------------------------------------------------------------

  /** The bytes `sendPacket` hands to the framing library for a payload of
      `length` bytes: command, length, payload, then the two trailer bytes
      as the code stores them (`crc << 8` and `crc & 0xFF`, each truncated
      to a byte). */
  function SentFrame(cmd: bv8, payload: seq<bv8>): seq<bv8>
    requires |payload| < 256
  {
    var header := [cmd, ByteOf(|payload| as uint8)];
    var crc := Crc16.Lsb(header + payload);
    header + payload + [Low8(crc << 8), Low8(crc & 0xFF)]
  }

  /** `SentFrame` is the header and payload followed by the trailer built
      from their CRC. */
  lemma SentFrameTrailer(cmd: bv8, payload: seq<bv8>, crc: bv16)
    requires |payload| < 256
    requires crc == Crc16.Lsb([cmd, ByteOf(|payload| as uint8)] + payload)
    ensures SentFrame(cmd, payload)
            == [cmd, ByteOf(|payload| as uint8)] + payload + [Low8(crc << 8), Low8(crc & 0xFF)]
  {
  }

  /** What `readPacket` does, by the path it takes: which of the caller's
      variables it has written (`*cmd`, `*length`, and the first `length`
      bytes of `payload`). It returns true on `Accepted` and false on the
      other paths except `CrcReadBeforeBuffer`, where the value is left
      open. */
  datatype ReadResult =
    | NoPacket
    | TooShort
    | LengthMismatch(cmd: bv8, length: bv8)
      /** The declared length is 0 or 1, so the received CRC is read from
          `packetBuffer[length - 2]`, index -2 or -1, before the start of
          the array: behaviour undefined. Whatever that read yields, the
          code goes on to the CRC comparison, which clears the slot on both
          of its outcomes; the model does not say which one is taken. */
    | CrcReadBeforeBuffer(cmd: bv8, length: bv8, payload: seq<bv8>)
    | CrcMismatch(cmd: bv8, length: bv8, payload: seq<bv8>)
    | Accepted(cmd: bv8, length: bv8, payload: seq<bv8>)
  {
    /** Whether the path clears `hasPacket`: every path that reaches the
        CRC comparison. */
    predicate ClearsSlot() {
      CrcReadBeforeBuffer? || CrcMismatch? || Accepted?
    }
  }

  /** `readPacket` on a held packet `held`, from line 80 on. */
  function Examine(held: seq<bv8>): ReadResult {
    if |held| < 4 then TooShort
    else
      var cmd, length := held[0], held[1];
      var n := Count(length) as int;
      if n + 4 != |held| then LengthMismatch(cmd, length)
      else
        var payload := held[2..2 + n];
        if n < 2 then CrcReadBeforeBuffer(cmd, length, payload)
        else
          var received := BigEndian(held[n - 2], held[n - 1]);
          var recalculated := Crc16.Lsb(held[..n - 2]);
          if recalculated != received then CrcMismatch(cmd, length, payload)
          else Accepted(cmd, length, payload)
  }

  /** `Examine` of the first `len` bytes of a buffer, with every read
      taken from the buffer itself, as `readPacket` takes them. */
  lemma ExamineOfBuffer(buf: seq<bv8>, len: int)
    requires 0 <= len <= |buf|
    ensures Examine(buf[..len])
            == if len < 4 then TooShort
               else
                 var n := Count(buf[1]) as int;
                 if n + 4 != len then LengthMismatch(buf[0], buf[1])
                 else if n < 2 then CrcReadBeforeBuffer(buf[0], buf[1], buf[2..2 + n])
                 else if Crc16.Lsb(buf[..n - 2]) != BigEndian(buf[n - 2], buf[n - 1])
                 then CrcMismatch(buf[0], buf[1], buf[2..2 + n])
                 else Accepted(buf[0], buf[1], buf[2..2 + n])
  {
    if 4 <= len {
      var n := Count(buf[1]) as int;
      if n + 4 == len {
        ExamineOfBufferPayload(buf, len, n);
      }
    }
  }

  lemma ExamineOfBufferPayload(buf: seq<bv8>, len: int, n: int)
    requires 4 <= len <= |buf| && n == Count(buf[1]) as int && n + 4 == len
    ensures Examine(buf[..len])
            == if n < 2 then CrcReadBeforeBuffer(buf[0], buf[1], buf[2..2 + n])
               else if Crc16.Lsb(buf[..n - 2]) != BigEndian(buf[n - 2], buf[n - 1])
               then CrcMismatch(buf[0], buf[1], buf[2..2 + n])
               else Accepted(buf[0], buf[1], buf[2..2 + n])
  {
    var held := buf[..len];
    assert held[2..2 + n] == buf[2..2 + n];
    if 2 <= n {
      assert held[..n - 2] == buf[..n - 2];
    }
  }

  // ---------------------------------------------------------------------
  // The Communication object
  // ---------------------------------------------------------------------

  class Communication {
    var packetBuffer: array<bv8>
    var packetLength: uint8
    var hasPacket: bool

    ghost predicate Valid()
      reads this
    {
      packetBuffer.Length == MAX_BUFFER_LENGTH
    }

    /** The packet currently in the mailbox (meaningful when `hasPacket`). */
    ghost function Held(): seq<bv8>
      requires Valid()
      reads this, packetBuffer
    {
      packetBuffer[..packetLength as int]
    }

    /** The field initialisers: an empty mailbox. The initial contents of
        `packetBuffer` are not specified. */
    constructor ()
      ensures Valid() && fresh(packetBuffer)
      ensures packetLength == 0 && !hasPacket
    {
      packetBuffer := new bv8[MAX_BUFFER_LENGTH];
      packetLength := 0;
      hasPacket := false;
    }

    /** The packet handler: copies the decoded packet into the mailbox,
        replacing whatever it held. The code does no bounds check, so a
        packet longer than the buffer is excluded by the precondition. */
    method OnPacketReceived(buffer: seq<bv8>)
      requires Valid()
      requires |buffer| <= MAX_BUFFER_LENGTH
      modifies this`packetLength, this`hasPacket, packetBuffer
      ensures Valid()
      ensures packetBuffer[..|buffer|] == buffer
      ensures packetBuffer[|buffer|..] == old(packetBuffer[|buffer|..])
      ensures packetLength as int == |buffer| % 256
      ensures hasPacket
      ensures Held() == buffer
    {
      for i := 0 to |buffer|
        invariant packetBuffer[..i] == buffer[..i]
        invariant packetBuffer[i..] == old(packetBuffer[i..])
      {
        packetBuffer[i] := buffer[i];
      }
      packetLength := (|buffer| % 256) as uint8;
      hasPacket := true;
    }

    /** `sendPacket`: rejects a payload that leaves no room for the four
        header and trailer bytes; otherwise builds the frame in a local
        buffer and sends its first `length + 4` bytes. `sent` is what reaches
        `packetSerial.send` (`None`: it is not called). Only the `length`
        bytes that are copied must exist. */
    method SendPacket(cmd: bv8, length: uint8, payload: seq<bv8>)
      returns (ok: bool, sent: Option<seq<bv8>>)
      requires length as int + 4 < MAX_BUFFER_LENGTH ==> length as int <= |payload|
      ensures ok == (length as int + 4 < MAX_BUFFER_LENGTH)
      ensures !ok ==> sent == None
      ensures ok ==> sent == Some(SentFrame(cmd, payload[..length]))
    {
      var n := length as int;
      if n + 4 >= MAX_BUFFER_LENGTH {
        return false, None;
      }
      var buffer := new bv8[MAX_BUFFER_LENGTH];
      buffer[0] := cmd;
      buffer[1] := ByteOf(length);
      ghost var header := [cmd, ByteOf(length)];
      for i := 0 to n
        invariant buffer[..2 + i] == header + payload[..i]
      {
        buffer[2 + i] := payload[i];
        assert buffer[..2 + i + 1] == buffer[..2 + i] + [payload[i]];
      }
      var crc := Crc16Lsb(buffer, length + 2);
      ghost var body := buffer[..n + 2];
      buffer[n + 2] := Low8(crc << 8);
      buffer[n + 3] := Low8(crc & 0xFF);
      ok, sent := true, Some(buffer[..n + 4]);
      assert buffer[..n + 2] == body;
      assert buffer[..n + 4] == body + [Low8(crc << 8), Low8(crc & 0xFF)];
      assert |payload[..n]| as uint8 == length;
      SentFrameTrailer(cmd, payload[..n], crc);
    }

    /** `readPacket`. A packet that fails the size or length check stays in
        the mailbox; one that reaches the CRC comparison is consumed whether
        or not it passes. */
    method ReadPacket() returns (r: ReadResult)
      requires Valid()
      modifies this`hasPacket
      ensures Valid()
      ensures r == (if old(hasPacket) then Examine(old(Held())) else NoPacket)
      ensures hasPacket == (old(hasPacket) && !r.ClearsSlot())
    {
      ghost var buf := packetBuffer[..];
      if !hasPacket {
        return NoPacket;
      }
      ExamineOfBuffer(buf, packetLength as int);
      if packetLength < 4 {
        return TooShort;
      }
      var cmd := packetBuffer[0];
      var length := packetBuffer[1];
      if Count(length) as int + 4 != packetLength as int {
        return LengthMismatch(cmd, length);
      }
      var n := Count(length) as int;
      var payload := packetBuffer[2..2 + n];
      if n < 2 {
        hasPacket := false;
        return CrcReadBeforeBuffer(cmd, length, payload);
      }
      var crcReceived := BigEndian(packetBuffer[n - 2], packetBuffer[n - 1]);
      var crcRecalculated := Crc16Lsb(packetBuffer, Count(length) - 2);
      if crcRecalculated != crcReceived {
        hasPacket := false;
        return CrcMismatch(cmd, length, payload);
      }
      hasPacket := false;
      return Accepted(cmd, length, payload);
    }
  }

  // ---------------------------------------------------------------------
  // The code as written does not round-trip
  // ---------------------------------------------------------------------

  /** The frame layout: two header bytes, the payload, two trailer bytes,
      and a length byte that `readPacket`'s length check accepts. */
  lemma SentFrameLayout(cmd: bv8, payload: seq<bv8>)
    requires |payload| + 4 < MAX_BUFFER_LENGTH
    ensures var f := SentFrame(cmd, payload);
            && |f| == |payload| + 4
            && f[0] == cmd
            && Count(f[1]) as int == |payload|
            && f[2..|payload| + 2] == payload
            && f[|payload| + 3] == Low8(Crc16.Lsb(f[..|payload| + 2]))
  {
    var f := SentFrame(cmd, payload);
    CountOfByte(|payload| as uint8);
    assert f[..|payload| + 2] == [cmd, ByteOf(|payload| as uint8)] + payload;
  }

  /** `buffer[length + 2] = crc << 8` always stores 0: the high byte of the
      CRC never leaves the device. */
  lemma SentTrailerHighByteIsZero(cmd: bv8, payload: seq<bv8>)
    requires |payload| < 256
    ensures SentFrame(cmd, payload)[|payload| + 2] == 0
  {
    var crc := Crc16.Lsb([cmd, ByteOf(|payload| as uint8)] + payload);
    ShiftedLow8IsZero(crc);
  }

  /** A payload of 0 or 1 bytes sends the reader to
      `packetBuffer[length - 2]`, index -2 or -1. */
  lemma ShortPayloadReadsBeforeBuffer(cmd: bv8, payload: seq<bv8>)
    requires |payload| < 2
    ensures Examine(SentFrame(cmd, payload)).CrcReadBeforeBuffer?
  {
    SentFrameLayout(cmd, payload);
  }

  /** A packet whose length byte is 2 is rejected, whatever its other bytes:
      the reader takes the command and length bytes as the received CRC and
      compares them with the CRC of no bytes at all, 0xFFFF. */
  lemma TwoBytePayloadRejected(held: seq<bv8>)
    requires |held| == 6 && Count(held[1]) == 2
    ensures Examine(held).CrcMismatch?
  {
    assert held[..0] == [];
    CountIsValue(held[1]);
    assert BigEndian(held[0], held[1]) & 0xFF == 2;
  }

  /** In particular, every two-byte packet the device sends is refused by
      the device's own reader. */
  lemma TwoByteFrameRejected(cmd: bv8, payload: seq<bv8>)
    requires |payload| == 2
    ensures Examine(SentFrame(cmd, payload)).CrcMismatch?
  {
    SentFrameLayout(cmd, payload);
    TwoBytePayloadRejected(SentFrame(cmd, payload));
  }

  // ---------------------------------------------------------------------
  // The evidently intended builder and reader
  // ---------------------------------------------------------------------

  /** `sendPacket` with the trailer written as `crc >> 8`, `crc & 0xFF`. */
  function IntendedFrame(cmd: bv8, payload: seq<bv8>): seq<bv8>
    requires |payload| < 256
  {
    var header := [cmd, ByteOf(|payload| as uint8)];
    var crc := Crc16.Lsb(header + payload);
    header + payload + [Low8(crc >> 8), Low8(crc)]
  }

  /** `readPacket` with the received CRC read from the two bytes after the
      payload, and the CRC recomputed over header and payload. */
  function IntendedExamine(held: seq<bv8>): ReadResult {
    if |held| < 4 then TooShort
    else
      var cmd, length := held[0], held[1];
      var n := Count(length) as int;
      if n + 4 != |held| then LengthMismatch(cmd, length)
      else
        var payload := held[2..2 + n];
        var received := BigEndian(held[n + 2], held[n + 3]);
        var recalculated := Crc16.Lsb(held[..n + 2]);
        if recalculated != received then CrcMismatch(cmd, length, payload)
        else Accepted(cmd, length, payload)
  }

  /** `IntendedExamine` of a packet of the right shape: it accepts exactly
      when the trailer bytes are the CRC of header and payload. */
  lemma IntendedExamineOfShape(cmd: bv8, payload: seq<bv8>, hi: bv8, lo: bv8)
    requires |payload| + 4 < MAX_BUFFER_LENGTH
    ensures var header := [cmd, ByteOf(|payload| as uint8)];
            IntendedExamine(header + payload + [hi, lo])
            == if Crc16.Lsb(header + payload) != BigEndian(hi, lo)
               then CrcMismatch(cmd, ByteOf(|payload| as uint8), payload)
               else Accepted(cmd, ByteOf(|payload| as uint8), payload)
  {
    var n := |payload|;
    var header := [cmd, ByteOf(n as uint8)];
    var held := header + payload + [hi, lo];
    CountOfByte(n as uint8);
    IntendedExamineOfLength(held, n);
    assert held[..n + 2] == header + payload;
    assert held[2..2 + n] == payload;
    assert held[n + 2] == hi && held[n + 3] == lo;
  }

  /** `IntendedExamine` of a packet whose length byte counts its payload. */
  lemma IntendedExamineOfLength(held: seq<bv8>, n: nat)
    requires |held| == n + 4 && Count(held[1]) as int == n
    ensures IntendedExamine(held)
            == if Crc16.Lsb(held[..n + 2]) != BigEndian(held[n + 2], held[n + 3])
               then CrcMismatch(held[0], held[1], held[2..2 + n])
               else Accepted(held[0], held[1], held[2..2 + n])
  {
  }

  /** Every frame the corrected sender builds is accepted by the corrected
      reader, which returns the command, the length and the payload. */
  lemma IntendedRoundTrip(cmd: bv8, payload: seq<bv8>)
    requires |payload| + 4 < MAX_BUFFER_LENGTH
    ensures IntendedExamine(IntendedFrame(cmd, payload))
            == Accepted(cmd, ByteOf(|payload| as uint8), payload)
  {
    var crc := Crc16.Lsb([cmd, ByteOf(|payload| as uint8)] + payload);
    IntendedExamineOfShape(cmd, payload, Low8(crc >> 8), Low8(crc));
    BigEndianOfBytes(crc);
  }

  /** The corrected reader refuses a frame whose trailer no longer matches:
      changing either CRC byte of a corrected frame is detected. */
  lemma IntendedDetectsTrailerChange(cmd: bv8, payload: seq<bv8>, i: nat, b: bv8)
    requires |payload| + 4 < MAX_BUFFER_LENGTH
    requires i == |payload| + 2 || i == |payload| + 3
    requires b != IntendedFrame(cmd, payload)[i]
    ensures IntendedExamine(IntendedFrame(cmd, payload)[i := b]).CrcMismatch?
  {
    var n := |payload|;
    var header := [cmd, ByteOf(n as uint8)];
    var crc := Crc16.Lsb(header + payload);
    var hi, lo := Low8(crc >> 8), Low8(crc);
    var f := IntendedFrame(cmd, payload);
    var g := f[i := b];
    var hi', lo' := if i == n + 2 then b else hi, if i == n + 3 then b else lo;
    assert g == header + payload + [hi', lo'];
    IntendedExamineOfShape(cmd, payload, hi', lo');
    BigEndianOfBytes(crc);
    if BigEndian(hi', lo') == crc {
      BigEndianInjective(hi, lo, hi', lo');
    }
  }

  /** The corrected reader refuses a corrected frame in which any one byte
      was changed: a changed length byte fails the length check, and any
      other changed byte fails the CRC comparison, because changing one
      byte of header and payload always changes their CRC. */
  lemma IntendedDetectsByteChange(cmd: bv8, payload: seq<bv8>, i: nat, b: bv8)
    requires |payload| + 4 < MAX_BUFFER_LENGTH
    requires i < |payload| + 4
    requires b != IntendedFrame(cmd, payload)[i]
    ensures i == 1 ==> IntendedExamine(IntendedFrame(cmd, payload)[i := b]).LengthMismatch?
    ensures i != 1 ==> IntendedExamine(IntendedFrame(cmd, payload)[i := b]).CrcMismatch?
  {
    var n := |payload|;
    if i == 1 {
      IntendedLengthByteChange(cmd, payload, b);
    } else if i < n + 2 {
      IntendedBodyByteChange(cmd, payload, i, b);
    } else {
      IntendedDetectsTrailerChange(cmd, payload, i, b);
    }
  }

  /** A changed length byte no longer counts the payload. */
  lemma IntendedLengthByteChange(cmd: bv8, payload: seq<bv8>, b: bv8)
    requires |payload| + 4 < MAX_BUFFER_LENGTH
    requires b != IntendedFrame(cmd, payload)[1]
    ensures IntendedExamine(IntendedFrame(cmd, payload)[1 := b]).LengthMismatch?
  {
    var f := IntendedFrame(cmd, payload);
    var k := |payload| as uint8;
    CountOfByte(k);
    CountInjective(b, ByteOf(k));
    assert |f| == |payload| + 4 && f[1] == ByteOf(k);
  }

  /** A changed command or payload byte changes the CRC of header and
      payload, so the unchanged trailer no longer matches. */
  lemma IntendedBodyByteChange(cmd: bv8, payload: seq<bv8>, i: nat, b: bv8)
    requires |payload| + 4 < MAX_BUFFER_LENGTH
    requires i < |payload| + 2 && i != 1
    requires b != IntendedFrame(cmd, payload)[i]
    ensures IntendedExamine(IntendedFrame(cmd, payload)[i := b]).CrcMismatch?
  {
    var n := |payload|;
    var body := [cmd, ByteOf(n as uint8)] + payload;
    var crc := Crc16.Lsb(body);
    var hi, lo := Low8(crc >> 8), Low8(crc);
    IntendedFrameWithBodyByte(cmd, payload, i, b);
    CountOfByte(n as uint8);
    assert body[i := b][1] == ByteOf(n as uint8);
    BigEndianOfBytes(crc);
    Crc16.LsbDetectsByteChange(body, i, b);
    IntendedRejectsWrongTrailer(body[i := b], hi, lo, n);
  }

  /** Changing a header or payload byte of a corrected frame leaves its
      trailer in place. */
  lemma IntendedFrameWithBodyByte(cmd: bv8, payload: seq<bv8>, i: nat, b: bv8)
    requires |payload| < 256 && i < |payload| + 2
    ensures var body := [cmd, ByteOf(|payload| as uint8)] + payload;
            var crc := Crc16.Lsb(body);
            IntendedFrame(cmd, payload)[i := b] == body[i := b] + [Low8(crc >> 8), Low8(crc)]
  {
    var body := [cmd, ByteOf(|payload| as uint8)] + payload;
    var crc := Crc16.Lsb(body);
    UpdateBeforeSuffix(body, [Low8(crc >> 8), Low8(crc)], i, b);
  }

  /** Updating an element of `a` in `a + t` leaves `t` in place. */
  lemma UpdateBeforeSuffix(a: seq<bv8>, t: seq<bv8>, i: nat, b: bv8)
    requires i < |a|
    ensures (a + t)[i := b] == a[i := b] + t
  {
  }

  /** A packet whose length byte counts its payload, but whose trailer is
      not the CRC of header and payload, fails the CRC comparison. */
  lemma IntendedRejectsWrongTrailer(body: seq<bv8>, hi: bv8, lo: bv8, n: nat)
    requires |body| == n + 2 && Count(body[1]) as int == n
    requires Crc16.Lsb(body) != BigEndian(hi, lo)
    ensures IntendedExamine(body + [hi, lo]).CrcMismatch?
  {
    var held := body + [hi, lo];
    assert held[..n + 2] == body;
    IntendedExamineOfLength(held, n);
  }

  /** The corrected reader accepts a frame from the code as written exactly
      when the CRC happens to have a zero high byte. */
  lemma IntendedAcceptsSentFrameIff(cmd: bv8, payload: seq<bv8>)
    requires |payload| + 4 < MAX_BUFFER_LENGTH
    ensures IntendedExamine(SentFrame(cmd, payload)).Accepted?
            <==> Crc16.Lsb([cmd, ByteOf(|payload| as uint8)] + payload) >> 8 == 0
  {
    var header := [cmd, ByteOf(|payload| as uint8)];
    var crc := Crc16.Lsb(header + payload);
    SentFrameTrailer(cmd, payload, crc);
    ShiftedLow8IsZero(crc);
    assert SentFrame(cmd, payload) == header + payload + [0, Low8(crc & 0xFF)];
    IntendedExamineOfShape(cmd, payload, 0, Low8(crc & 0xFF));
    LowByteOnly(crc);
  }

  /** The smallest frame shows the difference: command 0, no payload. */
  lemma EmptyFrameExample()
    ensures SentFrame(0, []) == [0, 0, 0x00, 0xB8]
    ensures IntendedFrame(0, []) == [0, 0, 0xF0, 0xB8]
    ensures IntendedExamine(SentFrame(0, [])).CrcMismatch?
    ensures Examine(SentFrame(0, [])).CrcReadBeforeBuffer?
  {
    assert ByteOf(0) == 0;
    assert [0 as bv8, 0] + [] == [0, 0];
    assert [0 as bv8, 0][..1] == [0];
    assert [0 as bv8][..0] == [];
    assert Crc16.LsbFrom(0xFFFF, [0]) == 0x0F87;
    assert Crc16.Lsb([0, 0]) == 0xF0B8;
    CountOfByte(0);
  }
}
