# HLW8032 frame reader

A Dafny model of the HLW8032 energy-meter driver. The model covers the part that reads frames:

- polling the serial port;
- checking and decoding the 24-byte transmission into the raw registers;
- the two integer getters `GetPF` and `GetPFAll`;
- the coefficient setters.

The project has three modules:

- `Layout` (`layout.dfy`) covers the transmission itself:
  - the frame length;
  - the memory map;
  - the check value `0x5A`;
  - big-endian decoding of 24-bit and 16-bit registers, with its inverse;
  - the 8-bit checksum over bytes 2 to 22;
  - the bit tests on the update register (byte 20).
- `Reader` (`reader.dfy`) states the reader as values:
  - the register state (`Registers`) and the state of a new reader (`Initial`);
  - what an accepted frame does to the registers (`ApplyFrame`);
  - what one poll of the port does (`Poll`);
  - what a sequence of polls does (`Run`, `ApplyAll`).
- `Meter` (`meter.dfy`) is the driver object, a class with the source's fields:
  - the 24-byte `transmission` buffer as an `array`;
  - the register fields, `readSuccess`, the overflow counter `PFData`, `bytesInRXBuffer` and the two coefficients.

  Its methods update those fields in place, with the source's loops:
  - the fill loop;
  - the drain loop;
  - the checksum accumulator.

  Each method is proved against the `Reader` and `Layout` functions.

The serial port is not an object in the model. A poll gets two byte sequences:

- `rx`, the bytes pending when the reader first asks `available()`;
- `settled`, the bytes that arrive during the settle delay.

The poll returns the bytes the port still holds afterwards.

- When nothing is pending the poll returns at once, and the bytes of `settled` arrive after it, so they are still pending at the next poll.
- Exactly 24 bytes are read into the buffer, and any further bytes stay pending.
- A sync error (wrong check register) drains the port.
- So does a count below 24.

Arithmetic follows the source's types:

- 24-bit and 16-bit register values are built from bytes;
- the checksum accumulator is a byte, so it wraps modulo 256;
- `PFData++` and `PFData * PF` are 32-bit unsigned, so they wrap modulo 2^32.

The constructor (`HLW8032.cpp:15-18`) sets nothing, so the members without an initialiser in the class (`HLW8032.h:160-167`, the buffer and the coefficients) start at zero only when the driver is a global object, as it is in an Arduino sketch. The model assumes that: a new reader (`Initial`, the constructor) has them at zero. `PFData` starts at one and `readSuccess` starts false, as the class declares.

The checksum comparison in `HLW8032.cpp:133` names `check`, an identifier declared nowhere in the source. The function's documentation (`HLW8032.h:146-151`) and the accumulator `check_sum` on the line above show what is meant. The model compares `check_sum` with byte 23.

## Model

| member | source | states |
|---|---|---|
| Layout.Be24Bytes | HLW8032.cpp:82-84 | a 24-bit register is its high byte times 2^16 plus its middle byte times 2^8 plus its low byte, and each byte is recovered from the value |
| Layout.Be16Bytes | HLW8032.cpp:118-119 | the PF register is its high byte times 256 plus its low byte, and each byte is recovered from the value |
| Layout.Encode24 | HLW8032.h:73-79 | three bytes, high byte first, whose big-endian reading is the given 24-bit value |
| Layout.Encode16 | HLW8032.h:73-79 | two bytes, high byte first, whose big-endian reading is the given 16-bit value |
| Layout.DecodeEncode | HLW8032.h:12-23 | laying named register values out in the memory map and reading them back returns them unchanged |
| Layout.EncodeDecode | HLW8032.h:12-23 | every 24-byte frame is the layout of the registers read from it: the memory map uses every byte exactly once |
| Layout.ByteSum | HLW8032.cpp:131-132 | a byte accumulator that adds each byte in turn equals the plain sum modulo 256 |
| Layout.Covered | HLW8032.h:146-151 | the checksum covers 21 bytes, those at offsets 2 through 22 |
| Layout.ChecksumOk | HLW8032.h:146-151 | a frame passes exactly when the sum of bytes 2 to 22, modulo 256, equals byte 23 |
| Layout.SingleByteErrorDetected | HLW8032.h:146-151 | changing any one covered byte of a frame that passes makes it fail |
| Layout.ChecksumSkipsStateAndCheck | HLW8032.h:146-148 | the state and check registers (offsets 0 and 1) have no effect on the checksum |
| Layout.ShiftRightStep | HLW8032.cpp:87 | the shift by `k` places used by the bit tests is the byte itself for `k` = 0 and half the shift by `k - 1` places, rounded down, otherwise: the recurrence that defines `b >> k` |
| Layout.BitReadUpdateBits | HLW8032.cpp:87-122 | the tests of bits 7, 6, 5 and 4 of the update register, in plain arithmetic |
| Layout.UpdateRegister | HLW8032.h:21 | an update register built from four flags keeps the given low nibble |
| Layout.BitReadUpdateRegister | HLW8032.cpp:87-122 | each of the four flags is read back by its own bit test |
| Reader.ApplyFrameRegisters | HLW8032.cpp:70-125 | an accepted frame raises the success flag. It always sets each parameter from bytes 2-4, 8-10 and 14-16 (each below 2^24) and PF from bytes 21-22 (below 2^16). It sets each register value from bytes 5-7, 11-13 or 17-19 when bit 6, 5 or 4 of byte 20 is set, and keeps the old value otherwise. It adds one to the overflow counter, modulo 2^32, when bit 7 is set |
| Reader.ApplyFrameFields | HLW8032.cpp:82-125 | each register the reader stores is the field of the same name in the memory-map decoding of the frame, with the register values and the overflow counter gated by their update bits |
| Reader.Poll | HLW8032.cpp:33-127 | no data: nothing changes, nothing is consumed, and the bytes arriving after the poll stay pending. Fewer than 24 bytes: all drained, registers kept. Otherwise the first 24 bytes become the buffer, in order. A wrong check register drains the rest and keeps the registers. A failing checksum keeps the registers and leaves the rest pending. Only a frame passing both checks changes the registers, by `ApplyFrame`; the bytes after it stay pending |
| Reader.PFAll | HLW8032.cpp:203 | the accumulated PF equals the PF register while the overflow counter is at its initial value |
| Reader.OverflowCount | HLW8032.cpp:121-125 | the number of overflow frames never exceeds the number of frames |
| Reader.OverflowCounter | HLW8032.cpp:121-125 | after a series of accepted frames, the overflow counter has grown, modulo 2^32, by exactly the number of frames with bit 7 set |
| Reader.StickyRegisters | HLW8032.cpp:86-119 | after a series of accepted frames, each register value is that of the last frame with its update bit set (or the old value). Each parameter and PF are those of the last frame. The success flag is raised exactly when it was raised before or some frame was accepted |
| Reader.PFAllAfterFrames | HLW8032.cpp:203 | a new reader that accepted frames reports the last PF times one more than the number of overflow frames, modulo 2^32 |
| Reader.RunAppliesAccepted | HLW8032.cpp:64-71 | over any run of polls the registers change only through accepted frames, and every accepted frame has the right check register and checksum |
| Reader.ReadSuccessSticky | HLW8032.h:143 | over any run of polls the success flag is never lowered, and is raised exactly when some frame was accepted |
| Reader.PFAllAfterRun | HLW8032.h:161 | over any run of polls of a new reader (counter starting at one), the accumulated PF is (1 + overflow frames) times the last PF, modulo 2^32 |
| Reader.ExampleFrameSum | HLW8032.cpp:129-136 | the covered bytes of a sample frame sum to 412, so its checksum register is 0x9C |
| Reader.ExampleFrameAcceptable | HLW8032.cpp:58-64 | the sample frame passes the check register and the checksum |
| Reader.ExampleFrameDecoded | HLW8032.cpp:82-92 | the sample frame gives a new reader voltage parameter 100 and voltage register 200, and leaves the overflow counter at one |
| Reader.ExampleFrameAccepted | HLW8032.cpp:33-127 | a new reader that finds exactly the sample frame accepts it, decodes it and leaves nothing pending |
| Reader.StoredCount | HLW8032.h:142 | the byte-typed pending count equals the real one while fewer than 256 bytes are pending |
| Reader.PollAsStoredAgrees | HLW8032.cpp:41-44 | a poll that stores the pending count in a byte, as the source does, behaves exactly as `Poll` while fewer than 256 bytes are pending |
| Reader.PollAsStoredDropsFrames | HLW8032.cpp:41-49 | with 256 bytes pending, the byte-stored count makes the poll drain everything and keep the registers, where `Poll` reads the first frame |
| Meter.Drain | HLW8032.cpp:47 | reading until the port reports no byte leaves it empty |
| Meter.HLW8032.constructor | HLW8032.h:141-167 | a new reader, taken to be a global object, has a 24-byte buffer. Its buffer, registers and coefficients start at zero, the overflow counter at one and the success flag lowered |
| Meter.HLW8032.SerialReadLoop | HLW8032.cpp:33-127 | the new registers, buffer, pending bytes and outcome are exactly the ones `Poll` gives for the old state. The stored count is the number of bytes pending after the settle delay, or unchanged when nothing was available |
| Meter.HLW8032.ReadFrame | HLW8032.cpp:51-55 | the buffer holds the first 24 pending bytes, in order, and the bytes after them are returned |
| Meter.HLW8032.Store | HLW8032.cpp:70-125 | the register fields become exactly `ApplyFrame` of their old values and the buffer |
| Meter.HLW8032.StoreVoltage | HLW8032.cpp:82-92 | the voltage parameter is bytes 2-4. The voltage register becomes bytes 5-7 when bit 6 is set and is kept otherwise |
| Meter.HLW8032.StoreCurrent | HLW8032.cpp:94-104 | the current parameter is bytes 8-10. The current register becomes bytes 11-13 when bit 5 is set and is kept otherwise |
| Meter.HLW8032.StorePower | HLW8032.cpp:106-116 | the power parameter is bytes 14-16. The power register becomes bytes 17-19 when bit 4 is set and is kept otherwise |
| Meter.HLW8032.StorePF | HLW8032.cpp:118-125 | PF is bytes 21-22, and the overflow counter rises by one, modulo 2^32, exactly when bit 7 is set |
| Meter.HLW8032.Checksum | HLW8032.cpp:129-136 | the result is true exactly when the sum of buffer bytes 2 to 22, modulo 256, equals byte 23, which is `ChecksumOk` of the buffer |
| Meter.HLW8032.SetVCoeff | HLW8032.cpp:140 | the voltage coefficient takes the given value; nothing else changes |
| Meter.HLW8032.SetCCoeff | HLW8032.cpp:142 | the current coefficient takes the given value; nothing else changes |
| Meter.HLW8032.GetPF | HLW8032.cpp:201 | the PF register of the register state |
| Meter.HLW8032.GetPFAll | HLW8032.cpp:203 | the overflow counter times PF in 32-bit arithmetic, as `PFAll` of the register state |

## Left out

- Reader.Poll: the pending count is compared with 24 in full. The source stores it in the byte `bytesInRXBuffer` first, which wraps modulo 256. That poll is `PollAsStored`; the two agree whenever fewer than 256 bytes are pending (`PollAsStoredAgrees`), and `PollAsStoredDropsFrames` shows what differs at 256. The rest of the model uses `Poll`.
- Meter.HLW8032.SerialReadLoop: the same; `bytesInRXBuffer` is kept as a natural number.
- `begin` (HLW8032.cpp:22-31): serial-port configuration and the floating-point coefficient formulas are hardware set-up and float arithmetic. The coefficients start at zero here.
- The serial port's `available()` and `read()` calls are replaced by the byte sequences described above.
- The 56 ms settle delay (HLW8032.cpp:38) is a clock. The bytes that arrive during it are the `settled` parameter.
- The checksum-error message sent to `Serial.println` (HLW8032.cpp:66) is output. The poll reports the `ChecksumError` outcome instead.
- The float getters `GetEffVoltage`, `GetDividerVoltage`, `GetEffCurrent`, `GetShuntVoltage`, `GetActivePower`, `GetApparentPower` and `GetPowerFactor` (HLW8032.cpp:147-198) are left out. They are floating-point arithmetic on unguarded quotients.
- `GetKWh` (HLW8032.cpp:205-214) is left out for the same reason.
- Meter.HLW8032.SetVCoeff: the coefficients are `real`, not 32-bit `float`, so float rounding is not modelled.
- Meter.HLW8032.SetCCoeff: the same.
- A driver object that is not global (a local or heap-allocated `HLW8032`) starts with indeterminate register fields, buffer and coefficients; the model covers only the global object, whose members start at zero.
- Interrupt-driven arrival of bytes while the reader runs is not modelled, apart from the settle delay.
