# Packet layer of the robot link: CRC-16 and the microcontroller mailbox

This project models the packet layer shared by the two ends of a serial link
between a Raspberry Pi controller and an Arduino board, and proves properties
of that model.

- **CRC-16, two bit orders.** Both ends compute a CRC-16 over the CCITT
  polynomial with initial remainder 0xFFFF, one bit at a time. Most
  significant bit first uses polynomial 0x1021 (CRC-16/IBM-3740 in the
  CRC RevEng catalogue of parametrised CRC algorithms). Least significant
  bit first uses the reflected polynomial 0x8408 (CRC-16/MCRF4XX in the
  same catalogue). Module `Crc16` (`crc16.dfy`) holds
  the reference definitions on a 16-bit register and their laws:
  - prefix compositionality;
  - 0x8408 is the bit reversal of 0x1021;
  - the LSB-first CRC is the MSB-first CRC read in the opposite bit order;
  - the catalogue's check values and the values of the debug vector
    `[0x12, 0x34, 0x56]`;
  - changing any one byte of a string changes its LSB-first CRC.
- **The microcontroller side** (`comms.dfy`, module `Comms`).
  - `crc16_msb` and `crc16_lsb` are loops over a byte array, proved to
    compute the reference CRCs.
  - The `Communication` object is a class with the fields `packetBuffer`,
    `packetLength` and `hasPacket`. Its methods are `OnPacketReceived`
    (the packet handler), `SendPacket` (the frame builder) and
    `ReadPacket` (the frame reader). The frame layout is command byte,
    length byte, payload, then two CRC bytes.
  - The code is modelled as written. Three defects show up, and the lemmas
    under "## Findings" exhibit each one. `IntendedFrame` and
    `IntendedExamine` are the corrected builder and reader, with the round
    trip proved.
- **The controller side** (`comms_py.dfy`, module `PyComms`).
  - `crc16_msb` and `crc16_lsb` are written over unbounded integers, with
    Python's operators defined arithmetically.
  - Both loops are proved against specification functions.
  - On byte-valued lists they return the value of the C++ register, so
    the two ends agree.
- **Helpers.**
  - `bytes.dfy` (module `Bytes`) writes out the C++ integer conversions
    (`uint8_t` truncation, reading a byte as a count).
  - `words.dfy` (module `Words`) relates a 16-bit register to its unsigned
    integer value.
  - `wrappers.dfy` holds an `Option` type.

The CRC loops keep the source's form: nested `for`/`while` loops updating the
remainder, with invariants tying it to the reference functions. The mailbox is
a class whose methods update its fields in place. A function describes each
packet operation's result (`SentFrame`, `Examine`), and each method's
`ensures` ties the method to that function.

## Model

| member | source | states |
|---|---|---|
| Crc16.MsbFromAppend | arduino/lib/comms/comms.cpp:110-121 | The MSB-first remainder after `a + b` is the remainder after `a`, continued over `b`. |
| Crc16.LsbFromAppend | arduino/lib/comms/comms.cpp:129-140 | The same prefix compositionality for the LSB-first loop. |
| Crc16.CrcSplit | arduino/lib/comms/comms.cpp:107-143 | Both CRCs of any byte string are the CRC of a prefix continued over the rest. |
| Crc16.ReflectedPolynomial | arduino/lib/comms/comms.cpp:12-13 | `CRC_16_CCITT_POLYNOMIAL_REVERSED` (0x8408) is the 16-bit reversal of `CRC_16_CCITT_POLYNOMIAL` (0x1021). |
| Crc16.LsbMirrorsMsb | arduino/lib/comms/comms.cpp:107-143 | The LSB-first CRC equals the reversal of the MSB-first CRC over the bit-reversed bytes, so the two loops are one CRC in opposite bit orders. |
| Crc16.DebugVector | arduino/lib/comms/comms.cpp:147-151 | The vector `{0x12, 0x34, 0x56}` gives 0x12FD MSB-first and 0xEF6F LSB-first. |
| Crc16.CheckValues | arduino/lib/comms/comms.cpp:107-143 | The ASCII string "123456789" gives 0x29B1 MSB-first and 0x6F91 LSB-first, the catalogue's check values for CRC-16/IBM-3740 and CRC-16/MCRF4XX. |
| Crc16.LsbDetectsByteChange | arduino/lib/comms/comms.cpp:126-143 | Changing any one byte of a string, at any position, changes its LSB-first CRC. |
| Bytes.ShiftedLow8IsZero | arduino/lib/comms/comms.cpp:67 | `crc << 8` stored into a byte is 0 for every `crc`. |
| Bytes.CountOfByte | arduino/lib/comms/comms.cpp:62 | A length stored into a byte (`buffer[1] = length`) reads back (`*length = packetBuffer[1]`, line 83) as the same count. |
| Bytes.BigEndian | arduino/lib/comms/comms.cpp:88 | The received CRC, `hi << 8` or-ed with `lo` and masked to 16 bits, is a word whose high byte is `hi` and whose low byte is `lo`. |
| Comms.Crc16Msb | arduino/lib/comms/comms.cpp:107-124 | The loop returns the CRC-16/IBM-3740 of the first `length` bytes, and 0xFFFF when `length` is 0. |
| Comms.Crc16Lsb | arduino/lib/comms/comms.cpp:126-143 | The loop returns the CRC-16/MCRF4XX of the first `length` bytes, and 0xFFFF when `length` is 0. |
| Comms.Communication.constructor | arduino/lib/comms/comms.cpp:19-21 | A new object has an empty mailbox: `packetLength` is 0 and `hasPacket` is false. |
| Comms.Communication.OnPacketReceived | arduino/lib/comms/comms.cpp:32-36 | The delivered bytes are copied to the front of `packetBuffer` and the rest is unchanged. `packetLength` becomes the size modulo 256 and `hasPacket` becomes true, so the held packet is the delivered one. |
| Comms.Communication.SendPacket | arduino/lib/comms/comms.cpp:56-73 | Returns false and sends nothing exactly when `length + 4 >= MAX_BUFFER_LENGTH`. Otherwise it sends `SentFrame` of the first `length` payload bytes. |
| Comms.Communication.ReadPacket | arduino/lib/comms/comms.cpp:78-98 | Returns `NoPacket` when the slot is empty; otherwise returns `Examine` of the held packet. The slot is cleared exactly when the CRC comparison is reached, whether it passes or fails, and also after the read before the buffer, which goes on to that comparison. The buffer is unchanged. |
| Comms.SentFrameLayout | arduino/lib/comms/comms.cpp:56-73 | A built frame is `length + 4` bytes long. Its command and length bytes satisfy the reader's length check, the payload sits at bytes 2 onward, and the last byte is the CRC's low byte. |
| Comms.SentTrailerHighByteIsZero | arduino/lib/comms/comms.cpp:67 | The first trailer byte of every built frame is 0. |
| Comms.ShortPayloadReadsBeforeBuffer | arduino/lib/comms/comms.cpp:88 | For a payload of 0 or 1 bytes, the reader indexes before the start of `packetBuffer`. |
| Comms.TwoBytePayloadRejected | arduino/lib/comms/comms.cpp:88-91 | Every held 6-byte packet with length byte 2 fails the CRC comparison, whatever its other bytes. |
| Comms.TwoByteFrameRejected | arduino/lib/comms/comms.cpp:84-93 | The reader rejects every frame that the builder makes for a 2-byte payload. |
| Comms.IntendedExamineOfShape | arduino/lib/comms/comms.cpp:78-98 | The corrected reader accepts a well-shaped packet exactly when its two trailer bytes are the big-endian CRC of header and payload. It then returns the command, length and payload. |
| Comms.IntendedRoundTrip | arduino/lib/comms/comms.cpp:56-98 | The corrected reader accepts every frame that the corrected builder makes, and returns the same command and payload. |
| Comms.IntendedDetectsByteChange | arduino/lib/comms/comms.cpp:76-94 | The corrected reader refuses a corrected frame in which any one byte was changed: a changed length byte fails the length check, and a changed command, payload or CRC byte fails the CRC comparison. |
| Comms.IntendedAcceptsSentFrameIff | arduino/lib/comms/comms.cpp:66-68 | The corrected reader accepts a frame from the builder as written exactly when the CRC's high byte is 0. |
| Comms.EmptyFrameExample | arduino/lib/comms/comms.cpp:56-98 | For command 0 and no payload, the builder sends `[0, 0, 0x00, 0xB8]` where `[0, 0, 0xF0, 0xB8]` was meant. The corrected reader rejects it and the reader as written indexes before the buffer. |
| PyComms.MsbFrom | raspberry-pi/controller/lib/comms.py:12-19 | Every pass of the loops keeps the remainder in 0..0xFFFF. |
| PyComms.LsbFrom | raspberry-pi/controller/lib/comms.py:26-33 | Every pass of the loops keeps the remainder in 0..0xFFFF. |
| PyComms.Crc16Msb | raspberry-pi/controller/lib/comms.py:9-21 | Returns the MSB-first CRC of `data[0:length]`, or of nothing when `length <= 0`, in which case the result is 0xFFFF. The result is in 0..0xFFFF. |
| PyComms.Crc16Lsb | raspberry-pi/controller/lib/comms.py:23-35 | The same for the LSB-first loop. |
| PyComms.MsbFromAppend | raspberry-pi/controller/lib/comms.py:12-19 | The remainder after `a + b` is the remainder after `a`, continued over `b`. |
| PyComms.LsbFromAppend | raspberry-pi/controller/lib/comms.py:26-33 | The same for the LSB-first loop. |
| PyComms.CrcSplit | raspberry-pi/controller/lib/comms.py:9-35 | The CRC of the first `k + j` items is the CRC of the first `k`, continued over the next `j`. |
| PyComms.XorOfValues | raspberry-pi/controller/lib/comms.py:13 | On two register values, `(a ^ b) & 0xFFFF` is the value of the register XOR. |
| PyComms.MsbShiftAgrees | raspberry-pi/controller/lib/comms.py:16-19 | One pass of the inner loop on a register value is one shift of the C++ register. |
| PyComms.LsbShiftAgrees | raspberry-pi/controller/lib/comms.py:30-33 | One pass of the inner loop on a register value is one shift of the C++ register. |
| PyComms.MsbByteAgrees | raspberry-pi/controller/lib/comms.py:13-19 | One pass of the outer loop on a byte value is one byte step of the C++ register. |
| PyComms.LsbByteAgrees | raspberry-pi/controller/lib/comms.py:27-33 | One pass of the outer loop on a byte value is one byte step of the C++ register. |
| PyComms.MsbFromAgrees | raspberry-pi/controller/lib/comms.py:9-21 | On any list of byte values, the loop ends at the value of the C++ register over those bytes. |
| PyComms.LsbFromAgrees | raspberry-pi/controller/lib/comms.py:23-35 | On any list of byte values, the loop ends at the value of the C++ register over those bytes. |
| PyComms.MatchesCpp | raspberry-pi/controller/lib/comms.py:9-35 | For byte-valued input, Python `crc16_msb` and `crc16_lsb` return exactly the C++ CRCs. |
| PyComms.DebugVector | raspberry-pi/controller/lib/comms.py:37-43 | `debug_crc`'s list `[0x12, 0x34, 0x56]` gives 0x12FD and 0xEF6F, the same values as the C++ debug routine. |

## Left out

- The COBS framing library (`PacketSerial`) is left out. So are `initCom`, `update` and the static callback trampoline (comms.cpp:24-26, 43-50, 102-104). They are serial I/O through a foreign library. `OnPacketReceived` takes the decoded bytes as a parameter, and `SendPacket` returns the bytes it would send.
- `MAX_BUFFER_LENGTH` is used by comms.cpp, but neither comms.cpp nor comms.h defines it. The model fixes it at 255: the protocol's frame limit, which also fits the `uint8_t packetLength`.
- Comms.Communication.OnPacketReceived: requires the delivered packet to fit `packetBuffer`. The code's `memcpy` does no bounds check, and a longer packet overflows the buffer (undefined behaviour).
- Comms.Communication.ReadPacket: with a length byte of 0 or 1, the code reads `packetBuffer[length - 2]`, index -2 or -1 (undefined behaviour). The model returns `CrcReadBeforeBuffer` at that point and clears the slot, as both outcomes of the CRC comparison that follows do. It does not say whether that comparison returns true or false, since it depends on the bytes before the buffer.
- Comms.Communication.ReadPacket: the writes through the caller's `cmd`, `length` and `payload` pointers are fields of the result. The size of the caller's payload array is not modelled.
- Comms.Communication.SendPacket: the payload is a sequence that must hold the `length` bytes the code copies. A shorter array in the caller would be read out of bounds; that case is not modelled.
- PyComms.Crc16Msb: requires `length <= len(data)`. A longer `length` makes Python raise `IndexError` partway through the loop; that path is not modelled.
- PyComms.Crc16Lsb: the same `IndexError` exclusion.
- PyComms.Xor16: models `(a ^ b) & 0xFFFF` as the XOR of `a & 0xFFFF` and `b & 0xFFFF`. The model does not define Python's `^` on negative integers; it relies on each bit of `a ^ b` depending only on the same bit of the operands. The loops apply it to the remainder, sometimes shifted left once (up to 0x1FFFE, comms.py:17), to a list item, shifted (comms.py:13) or not (comms.py:27), and to a polynomial constant.
- `debug_crc`'s printing, `main`, and the `DEBUG` switches of both files are left out, as output. Their CRC values are stated by the two `DebugVector` lemmas.
- Python list items of types other than `int` are left out, as is list mutation during the call.

## Findings

| source | as written | input that shows it | evidently intended | confidence | as-written member | corrected member |
|---|---|---|---|---|---|---|
| arduino/lib/comms/comms.cpp:67 | `buffer[length + 2] = crc << 8` stores the low byte of `crc << 8`, which is always 0. The CRC's high byte is never sent. | Command 0, empty payload: the CRC is 0xF0B8, and the frame sent is `[0, 0, 0x00, 0xB8]`. | `crc >> 8`, giving `[0, 0, 0xF0, 0xB8]` | high; not executed | Comms.SentTrailerHighByteIsZero | Comms.IntendedRoundTrip |
| arduino/lib/comms/comms.cpp:88-89 | The received CRC is read from `packetBuffer[length - 2]` and `[length - 1]`, which lie inside the header and payload. The CRC is recomputed over the first `length - 2` bytes. | Any 6-byte packet with length byte 2, such as the frame sent for a 2-byte payload, is always rejected. | Read `[length + 2]` and `[length + 3]`, and recompute over the first `length + 2` bytes, as the sender does. | high; not executed | Comms.TwoByteFrameRejected | Comms.IntendedRoundTrip |
| arduino/lib/comms/comms.cpp:88 | With a length byte of 0 or 1, `packetBuffer[*length - 2]` reads index -2 or -1, before the array. | The frame sent for command 0 and an empty payload. | The CRC bytes follow the payload, so every length from 0 up is in bounds. | high; not executed | Comms.ShortPayloadReadsBeforeBuffer | Comms.IntendedExamineOfShape |
