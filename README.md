# SCD30 I2C driver — protocol model

A Dafny model of the protocol engine of an Arduino driver for the Sensirion SCD30
CO2 / temperature / humidity sensor (`class SCD30`). The driver turns the command
set of sections 1.4.1 to 1.4.9 of the Sensirion SCD30 Interface Description into
I2C transactions. It protects every 16-bit argument with a CRC-8 checksum, reads
16-bit registers, and decodes the 18-byte measurement frame into a cache of three
raw 32-bit words (CO2, temperature, humidity). The lazy accessors refresh this
cache only when the sensor's ready-status register reads 1.

Modules, one per part of the program:

- `Scd30Defs` (`scd30_defs.dfy`): the device address and the eleven op-codes of the header.
- `Checksum` (`checksum.dfy`): the CRC-8 (polynomial 0x31, init 0xFF, MSB first, no
  reflection, no final XOR). It has a specification function `Crc8`, the driver's
  nested-loop routine `ComputeCrc8` proved equal to it, and the checksum's properties.
- `Framing` (`framing.dfy`): big-endian byte splitting, the 2- and 5-byte command
  frames, the register-read value, and the pure range rules of the setters.
- `MeasurementFrame` (`measurement.dfy`): the 18-byte frame. `Decode` is the layout
  definition (fixed byte positions). `ShiftInFrame` is the driver's positional
  receive loop, proved equal to it. `EncodeFrame` is the frame as the sensor sends it.
- `Driver` (`driver.dfy`): the class `Scd30` with the cached words as fields and a
  ghost `trace` of every bus transaction. Its methods are the driver's public operations.

The bus is abstract. Each method takes, for every transaction it starts, a
`Response`: whether the device acknowledges the write, and the bytes it then
makes available to the read. The object appends each addressed write
(`Write(address, bytes)`) and each read request (`Request(address, count)`) to
`trace`. `Valid()` is the object invariant: every transaction goes to address
0x61, every write is a bare 2-byte command or a 5-byte command whose argument
passes the checksum, and every read request asks for 2 or 18 bytes.

Where the driver reads more bytes than arrived, the Arduino `Wire.read()` call
returns -1. The driver stores this in a `uint8_t`, so it becomes 0xFF.
`Framing.ReadByte` models exactly that.

An acknowledged measurement read that delivers no byte zeroes the cache: the
three accumulators start at 0 (src/SCD30_I2C_lib.cpp:187-189) and are copied into
the cache unconditionally (src/SCD30_I2C_lib.cpp:248-251).
`MeasurementFrame.MeasurementOfNothing` states this.

## Model

| member | source | states |
|---|---|---|
| `Scd30Defs.CommandsDistinct` | src/SCD30_I2C_lib.h:35-45 | the eleven op-codes are pairwise distinct |
| `Scd30Defs.AddressIsSevenBit` | src/SCD30_I2C_lib.h:32 | the device address 0x61 fits in 7 bits |
| `Checksum.ComputeCrc8` | src/SCD30_I2C_lib.cpp:372-392 | the nested bit loop computes exactly `Crc8` of the data |
| `Checksum.Crc8Append` | src/SCD30_I2C_lib.cpp:377-389 | one more data byte is one more XOR-in plus eight bit steps of the register |
| `Checksum.Crc8Empty` | src/SCD30_I2C_lib.cpp:374 | the checksum of no data is the initial value 0xFF |
| `Checksum.Crc8OfChecked` | src/SCD30_I2C_lib.cpp:372-392 | running the checksum over data followed by its own checksum yields 0, because there is no final XOR |
| `Checksum.KnownVectors` | src/SCD30_I2C_lib.cpp:372-392 | 0xBEEF gives 0x92, argument 0 gives 0x81, argument 2 gives 0xE3 |
| `Checksum.CrcByteInjectiveInData` | src/SCD30_I2C_lib.cpp:379-388 | from a fixed register, distinct data bytes give distinct registers |
| `Checksum.CrcByteInjectiveInRegister` | src/SCD30_I2C_lib.cpp:379-388 | for a fixed data byte, distinct registers stay distinct |
| `Checksum.DetectsSingleByteError` | src/SCD30_I2C_lib.cpp:372-392 | two equal-length byte sequences that differ in exactly one byte have different checksums |
| `Framing.Join16` | src/SCD30_I2C_lib.cpp:359-360 | shifting the MSB left by 8 and OR-ing in the LSB equals MSB * 256 + LSB |
| `Framing.JoinSplit` | src/SCD30_I2C_lib.cpp:324-325 | splitting a word into `>> 8` and `& 0xFF` and joining them gives the word back |
| `Framing.SplitJoin` | src/SCD30_I2C_lib.cpp:356-360 | joining two bytes and splitting the result gives both bytes back |
| `Framing.CommandFrame` | src/SCD30_I2C_lib.cpp:307-317 | a bare command is 2 bytes, MSB first, from which the receiver recovers the op-code |
| `Framing.ArgumentFrame` | src/SCD30_I2C_lib.cpp:321-339 | a command with argument is 5 bytes: the command frame, the argument MSB first, and the checksum of the two argument bytes; the receiver's checksum over the last 3 bytes is 0 |
| `Framing.RegisterValueCases` | src/SCD30_I2C_lib.cpp:343-366 | a register read gives 0 without an acknowledge or with no bytes, and otherwise MSB * 256 + LSB of the two bytes read, the LSB being 0xFF when only one byte arrived |
| `Framing.RegisterValueRoundTrip` | src/SCD30_I2C_lib.cpp:343-366 | a register value sent by the device as its two bytes (followed by anything) is read back exactly |
| `Framing.RegisterIsOne` | src/SCD30_I2C_lib.cpp:72-78 | a register reads 1 if and only if the write was acknowledged and the bytes read are 0x00, 0x01 |
| `Framing.SetThenGet` | src/SCD30_I2C_lib.cpp:142-180 | a value written with an argument command, stored as its two argument bytes, reads back as that value |
| `Framing.AmbientPressureArgument` | src/SCD30_I2C_lib.cpp:123-131 | values from 700 to 1200 mBar are sent unchanged, any other as 0, so the argument sent is always 0 or in range |
| `Framing.FirmwareVersion` | src/SCD30_I2C_lib.cpp:396-402 | (major, minor) are the two bytes of the version register and join back to it |
| `MeasurementFrame.SlotOfMatchesLayout` | src/SCD30_I2C_lib.cpp:208-243 | inside the frame, the switch skips a byte exactly at the checksum positions 2, 5, 8, 11, 14 and 17, and sends every other byte to the word of its 6-byte group |
| `MeasurementFrame.WordValue` | src/SCD30_I2C_lib.cpp:216-217 | four bytes joined MSB first make b3 * 2^24 + b2 * 2^16 + b1 * 2^8 + b0 |
| `MeasurementFrame.AccumulateDecodes` | src/SCD30_I2C_lib.cpp:204-243 | after 18 bytes, the CO2 word is built from bytes 0, 1, 3, 4, temperature from 6, 7, 9, 10, and humidity from 12, 13, 15, 16 |
| `MeasurementFrame.DecodeIgnoresChecksums` | src/SCD30_I2C_lib.cpp:239-242 | frames that agree outside the checksum bytes decode to the same words |
| `MeasurementFrame.ShiftInFrame` | src/SCD30_I2C_lib.cpp:187-245 | the receive loop returns all-zero words when nothing arrived, and otherwise the layout decoding of the 18 bytes read |
| `MeasurementFrame.Checked` | src/SCD30_I2C_lib.cpp:239-242 | a 16-bit half as the sensor sends it carries its two bytes and a checksum that validates |
| `MeasurementFrame.WordBytesRoundTrip` | src/SCD30_I2C_lib.cpp:216-217 | the data bytes of a sent word rebuild the word |
| `MeasurementFrame.DecodeEncode` | src/SCD30_I2C_lib.cpp:204-243 | decoding the frame the sensor sends for a measurement yields that measurement |
| `MeasurementFrame.EncodeFrameChecksums` | src/SCD30_I2C_lib.cpp:239-242 | each of the six 3-byte groups of a sent frame passes the checksum |
| `MeasurementFrame.MeasurementOfSent` | src/SCD30_I2C_lib.cpp:200-251 | a full frame from the sensor is stored as exactly the measurement it encodes |
| `MeasurementFrame.MeasurementOfNothing` | src/SCD30_I2C_lib.cpp:187-251 | an acknowledged read that delivers no byte stores all-zero words |
| `Driver.NotReadyKeepsCache` | src/SCD30_I2C_lib.cpp:257-304 | when the ready status is not 1, a lazy accessor leaves the cache unchanged and issues no read-measurement command |
| `Driver.ReadyRefreshesCache` | src/SCD30_I2C_lib.cpp:257-304 | when the ready status is 1 and the sensor answers with a full frame, the cache holds exactly the measurement it encodes |
| `Driver.Scd30.constructor` | src/SCD30_I2C_lib.h:100-102 | the cached words start at zero and the bus is unused |
| `Driver.Scd30.SendCommand` | src/SCD30_I2C_lib.cpp:307-317 | writes exactly the 2-byte command frame to 0x61; true if and only if acknowledged |
| `Driver.Scd30.SendCommandWithArgument` | src/SCD30_I2C_lib.cpp:321-339 | writes exactly the 5-byte argument frame with its checksum; true if and only if acknowledged |
| `Driver.Scd30.ReadRegister` | src/SCD30_I2C_lib.cpp:343-366 | writes the register address, requests 2 bytes only after an acknowledge, returns the register value |
| `Driver.Scd30.DataAvailable` | src/SCD30_I2C_lib.cpp:72-78 | reads register 0x0202; true if and only if it reads 1 |
| `Driver.Scd30.ReadMeasurement` | src/SCD30_I2C_lib.cpp:185-254 | without an acknowledge: false, no read request, cache unchanged; otherwise true, an 18-byte request, and the cache holds the decoded frame (zeros if nothing arrived) |
| `Driver.Scd30.Poll` | src/SCD30_I2C_lib.cpp:259-261 | a status read, then a measurement read only when the status is 1 |
| `Driver.Scd30.GetCo2` | src/SCD30_I2C_lib.cpp:297-304 | polls, then returns the cached CO2 word |
| `Driver.Scd30.GetTemperatureC` | src/SCD30_I2C_lib.cpp:267-274 | polls, then returns the cached temperature word |
| `Driver.Scd30.GetHumidity` | src/SCD30_I2C_lib.cpp:257-264 | polls, then returns the cached humidity word |
| `Driver.Scd30.BeginMeasuringWithPressure` | src/SCD30_I2C_lib.cpp:58-61 | sends op 0x0010 with the pressure argument, unchecked |
| `Driver.Scd30.BeginMeasuring` | src/SCD30_I2C_lib.cpp:51-54 | sends op 0x0010 with argument 0 |
| `Driver.Scd30.Begin` | src/SCD30_I2C_lib.cpp:33-45 | sends start with argument 0; only if acknowledged, then sets interval 2; returns the start command's acknowledge |
| `Driver.Scd30.StopMeasuring` | src/SCD30_I2C_lib.cpp:65-68 | sends op 0x0104 without argument |
| `Driver.Scd30.EnableAutomaticSelfCalibration` | src/SCD30_I2C_lib.cpp:82-85 | sends op 0x5306 with argument 1 |
| `Driver.Scd30.DisableAutomaticSelfCalibration` | src/SCD30_I2C_lib.cpp:89-92 | sends op 0x5306 with argument 0 |
| `Driver.Scd30.SetForcedRecalibrationValue` | src/SCD30_I2C_lib.cpp:97-101 | no bus traffic outside 400..2000; otherwise sends op 0x5204 with the value |
| `Driver.Scd30.SetMeasurementInterval` | src/SCD30_I2C_lib.cpp:106-109 | sends op 0x4600 with the interval, unchecked |
| `Driver.Scd30.SetTemperatureOffset` | src/SCD30_I2C_lib.cpp:113-117 | sends op 0x5403 with the offset in ticks |
| `Driver.Scd30.SetAmbientPressure` | src/SCD30_I2C_lib.cpp:123-131 | sends op 0x0010 with the pressure, or 0 when outside 700..1200 |
| `Driver.Scd30.SetAltitudeCompensation` | src/SCD30_I2C_lib.cpp:135-138 | sends op 0x5102 with the altitude, unchecked |
| `Driver.Scd30.GetMeasurementInterval` | src/SCD30_I2C_lib.cpp:142-146 | reads register 0x4600, the op-code its setter writes |
| `Driver.Scd30.GetAutomaticSelfCalibration` | src/SCD30_I2C_lib.cpp:150-155 | reads register 0x5306; true if and only if it reads 1 |
| `Driver.Scd30.GetForcedRecalibrationValue` | src/SCD30_I2C_lib.cpp:160-164 | reads register 0x5204, the op-code its setter writes |
| `Driver.Scd30.GetTemperatureOffset` | src/SCD30_I2C_lib.cpp:168-172 | reads register 0x5403, the op-code its setter writes |
| `Driver.Scd30.GetAltitudeCompensation` | src/SCD30_I2C_lib.cpp:176-180 | reads register 0x5102, the op-code its setter writes |
| `Driver.Scd30.GetFirmwareVersion` | src/SCD30_I2C_lib.cpp:396-402 | reads register 0xD100 and returns its two bytes, which join back to the register value |
| `Driver.Scd30.SoftReset` | src/SCD30_I2C_lib.cpp:406-409 | sends op 0xD304 without argument |

## Left out

- The Arduino `Wire` transport (`Wire.begin` in `begin`, `beginTransmission`, `write`, `endTransmission`, `requestFrom`, `available`, `read`). It is replaced by a `Response` parameter per transaction and the ghost `trace`. Timeouts and bus errors appear only as a missing acknowledge.
- `attachExternalInterrupt`: it only registers a platform interrupt callback, which the model has no notion of. Concurrent access to the cache from that callback is not modelled.
- The IEEE-754 reinterpretation by `memcpy` in `readMeasurement`: the cache holds the raw 32-bit words. A float's bit pattern is that word, so no information is lost.
- `getTemperatureF` and `getTemperatureK`: they poll exactly like `getTemperatureC` (`Driver.Scd30.Poll`). Their floating-point conversions (`* 1.8 + 32`, `+ 273.15`) are not modelled, so they are not separate members.
- Driver.Scd30.GetCo2: returns the raw 32-bit CO2 word. The conversion of the float to `uint16_t` in the source's return statement is floating-point and is not modelled.
- Driver.Scd30.SetTemperatureOffset: takes the offset already in ticks of 0.01 °C. The float multiplication and truncating cast `tempOffset * 100` are not modelled.
- Driver.Scd30.GetFirmwareVersion: returns the two bytes as a pair. The source writes them through an uninitialised pointer, which is undefined behaviour.
- The header declares `getAltituteCompensation`, but the source defines `getAltitudeCompensation`. Only the defined behaviour is modelled.
- The empty constructor body and the destructor do nothing beyond the field initialisers.
- The per-field checksum bytes of the measurement frame are discarded by the driver, as in the source. The model does not validate them either; `EncodeFrameChecksums` only states what a correct frame carries.
