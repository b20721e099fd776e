# HTU21D driver model

A Dafny model of the protocol engine of the HTU21D temperature and humidity
sensor driver (`src/HTU21D.cpp`, `src/HTU21D.h`), with proofs about it.

The model has four modules:

- `Crc8` (`crc8.dfy`): the checksum, which is an 8-bit CRC with
  polynomial x^8 + x^5 + x^4 + 1 (0x31) and initial value 0. It runs most
  significant bit first, with no reflection and no final XOR. `Crc` is the
  bit-by-bit specification. `CheckCrc8` is the driver's validator, written
  as the same two nested loops over an 8-bit register and proved equal to the
  specification. The lemmas show that the register is linear and injective,
  so a change confined to one byte, and in particular any single-bit error,
  always changes the checksum. The datasheet's worked examples are also
  proved.
- `Protocol` (`protocol.dfy`): the constants of the header and the pure
  steps of the driver:
  - the four resolutions and their codes;
  - the command codes and the default address 0x40;
  - the conversion-time tables;
  - extraction of the 16-bit raw word with the status bits masked off;
  - packing of a resolution into the user-register byte (bits 0 and 7,
    with bit 1 set) and its inverse;
  - the temperature and humidity conversions, the temperature compensation
    and the clamp to 0..100 %.
- `Driver` (`driver.dfy`): the driver object as a class `Sensor` with the
  source's state: the cached `resolution`, and `temperature` and `humidity`.
  A reading is `None` where the C++ code stores NaN. The methods are
  `MeasureTemperature`, `MeasureHumidity`, `Measure`, `SetResolution`,
  `GetResolution`, `Reset`, `Begin` and the getters. The sensor invariant
  `Valid()` says that a stored temperature lies in the range of the
  conversion formula, and that a stored humidity comes with a temperature
  and lies in [0, 100]. The constructors establish it and every mutating
  method keeps it.
- `Wrappers` (`wrappers.dfy`): the `Option` type.

Every read from the bus becomes a method parameter: the bytes that the bus
had available after the request. Every write and every delay is appended to
a ghost log `bus`. This lets the contracts state which commands are sent and
in which order, which delay the table chooses, and that `Measure` never
requests a humidity conversion after a failed temperature step.

## Model

| member | source | states |
|---|---|---|
| `Crc8.CheckCrc8` | src/HTU21D.cpp:43-54 | The nested-loop validator accepts a 3-byte frame exactly when byte 2 equals the CRC of bytes 0 and 1. The register is 8 bits wide, starts at 0, and is shifted MSB-first with polynomial 0x31. |
| `Crc8.StepsZero` | src/HTU21D.cpp:47-50 | However many times the register is clocked, it is zero exactly when it started at zero. This holds because the polynomial's low bit is 1. |
| `Crc8.StepsLinear` | src/HTU21D.cpp:47-50 | Clocking the register any number of times distributes over XOR: the shift register is linear over GF(2). |
| `Crc8.StepsInjective` | src/HTU21D.cpp:47-50 | Two registers give the same value after n clocks exactly when they were equal. |
| `Crc8.XorStepsInjective` | src/HTU21D.cpp:46-50 | Take one register value and one byte value, and change at most one of them. Clocking the register XOR the byte then gives the same result only if nothing changed. |
| `Crc8.UpdateByteInjective` | src/HTU21D.cpp:45-51 | Feeding a byte into the register is injective in the register for a fixed byte, and in the byte for a fixed register. |
| `Crc8.OneByteChangeDetected` | src/HTU21D.cpp:43-54 | Two equal-length messages that differ in exactly one byte have different checksums. |
| `Crc8.CorruptedFrameRejected` | src/HTU21D.cpp:43-54 | Take a frame whose checksum byte is right and invert any one of its 16 data bits. The validator's condition then fails, while the checksum byte stays as it was. |
| `Crc8.DatasheetExamples` | src/HTU21D.cpp:43-54 | The checksum is 0x79 for 0xDC, 0x7C for 0x683A and 0x6B for 0x4E85, as in the sensor's datasheet. |
| `Protocol.FromCode` | src/HTU21D.h:14-19 | Each two-bit code 0..3 names the resolution whose enumerator value is that code. |
| `Protocol.CodesAreTwoBits` | src/HTU21D.h:14-19 | Every resolution's code is below 4, and decoding it gives the same resolution, so the four variants have exactly the codes 0..3. |
| `Protocol.CommandCodesDistinct` | src/HTU21D.h:38-42 | The five commands 0xF3, 0xF5, 0xE6, 0xE7 and 0xFE have pairwise distinct codes. |
| `Protocol.TemperatureDelay` | src/HTU21D.cpp:26 | The temperature wait is one of the entries of the table [50, 13, 25, 7]. Looking it up by the resolution code never goes out of range. |
| `Protocol.HumidityDelay` | src/HTU21D.cpp:27 | The humidity wait is one of the entries of the table [16, 3, 5, 8]. Looking it up by the resolution code never goes out of range. |
| `Protocol.DelaysFollowResolution` | src/HTU21D.cpp:23-27 | One resolution has a shorter temperature wait than another exactly when it has fewer temperature bits. The same holds for humidity waits and humidity bits. |
| `Protocol.RawWord` | src/HTU21D.cpp:75 | The raw word is a multiple of 4 and at most 0xFFFC. |
| `Protocol.RawWordSplits` | src/HTU21D.cpp:75 | The raw word's high byte is data[0]. Its low byte is data[1] with the status bits cleared. |
| `Protocol.RawWordIgnoresStatus` | src/HTU21D.cpp:100 | Two replies give the same raw word exactly when they agree on the first byte and on the second byte outside the two status bits. |
| `Protocol.ConfigByte` | src/HTU21D.cpp:132 | In the register byte, bit 0 is the code's low bit and bit 7 is the code's high bit. Bit 1 is set and bits 2..6 are clear. |
| `Protocol.ConfigByteRoundTrip` | src/HTU21D.cpp:132 | Decoding the byte written for a resolution gives that resolution back. |
| `Protocol.RegisterRoundTrip` | src/HTU21D.cpp:132 | Re-encoding the resolution decoded from any register byte keeps bits 0 and 7 of that byte, sets bit 1 and clears the rest. |
| `Protocol.ConfigByteInjective` | src/HTU21D.cpp:132 | Two resolutions are written as the same byte only if they are equal. |
| `Protocol.DefaultConfigIsResetRegister` | src/HTU21D.cpp:172-174 | The default resolution has code 0. Its register byte is exactly 0x02, the value reset accepts, and no other resolution is written as 0x02. |
| `Protocol.SampleRejectsBitFlip` | src/HTU21D.cpp:69-73 | A valid reply with any one of its 16 data bits inverted yields no raw word. |
| `Protocol.CelsiusRange` | src/HTU21D.cpp:76 | Every raw word converts to a temperature in [-46.85, 128.87), and the conversion is monotone in the word. |
| `Protocol.CelsiusEndpoints` | src/HTU21D.cpp:76 | Raw 0x0000 gives exactly -46.85 degrees. Raw 0xFFFC gives a value between 128.85 and 128.86. |
| `Protocol.Clamp` | src/HTU21D.cpp:103 | The result lies in [lo, hi]. It equals x inside the interval, lo below it and hi above it. |
| `Protocol.HumidityIsPercentage` | src/HTU21D.cpp:101-103 | The reported humidity is in [0, 100]. If the corrected value is below 0 the result is exactly 0, and if it is above 100 the result is exactly 100. |
| `Protocol.CompensationDirection` | src/HTU21D.cpp:102 | At 25 degrees the correction vanishes. Above 25 degrees it can only raise the reading, and below 25 degrees it can only lower it. |
| `Driver.CycleReadings` | src/HTU21D.cpp:112-121 | After a cycle, a temperature is present exactly when the temperature reply was valid. A humidity is present exactly when both replies were valid. Present readings lie in their physical ranges. |
| `Driver.CycleUsesItsOwnTemperature` | src/HTU21D.cpp:117-119 | A cycle's humidity is corrected with that same cycle's temperature. When the temperature step fails, the cycle yields no readings, whatever the humidity reply would have been. |
| `Driver.Sensor.constructor` | src/HTU21D.cpp:39 | A new driver has the given address, the default resolution, no readings and an empty bus log. |
| `Driver.Sensor.Default` | src/HTU21D.h:49 | Constructed without arguments, the driver uses address 0x40. |
| `Driver.Sensor.ReadFrame` | src/HTU21D.cpp:71-72 | The 3 available bytes are copied, in order, into a fresh frame buffer. |
| `Driver.Sensor.MeasureTemperature` | src/HTU21D.cpp:56-79 | It keeps the sensor invariant. It sends 0xF3 without stop, waits the table delay for the current resolution, and requests 3 bytes. It succeeds exactly when the reply is valid. On success it stores the converted temperature. On failure the temperature is unchanged. Humidity and resolution are never touched. |
| `Driver.Sensor.MeasureHumidity` | src/HTU21D.cpp:81-106 | It keeps the sensor invariant. It sends 0xF5, waits the humidity delay and requests 3 bytes. It succeeds exactly when the reply is valid. On success it stores the humidity, corrected with the stored temperature and clamped. On failure the humidity is unchanged. |
| `Driver.Sensor.Measure` | src/HTU21D.cpp:112-121 | The stored readings are exactly `CycleReadings` of this cycle's replies, and the sensor invariant holds afterwards. It succeeds exactly when both replies are valid. The bus log shows the temperature acquisition, followed by the humidity acquisition only when the temperature step succeeded. |
| `Driver.Sensor.GetTemperature` | src/HTU21D.cpp:185-187 | Returns the stored temperature. |
| `Driver.Sensor.GetHumidity` | src/HTU21D.cpp:195-197 | Returns the stored humidity. |
| `Driver.Sensor.SetResolution` | src/HTU21D.cpp:129-136 | It keeps the sensor invariant. It writes 0xE6 followed by the packed register byte. It then stores the new resolution unconditionally and leaves the readings alone. |
| `Driver.Sensor.GetResolution` | src/HTU21D.cpp:143-145 | Returns the cached resolution without any bus access. |
| `Driver.Sensor.Reset` | src/HTU21D.cpp:160-177 | It keeps the sensor invariant. It sends soft reset 0xFE, waits 15 ms, then sends 0xE7 and requests 1 byte. It succeeds exactly when the reply is the single byte 0x02. Only then does the resolution become the default; otherwise it is unchanged. The readings are never touched. |
| `Driver.Sensor.Begin` | src/HTU21D.cpp:151-154 | Same outcome, bus log and invariant as `Reset`. |
| `Driver.ResolutionRoundTrip` | src/HTU21D.cpp:129-145 | After setting any resolution, reading it back returns that resolution, and the read-back adds nothing to the bus log. |
| `Driver.FailedCycleAfterGoodCycle` | src/HTU21D.cpp:112-121 | A successful cycle followed by a cycle whose temperature step fails leaves neither reading behind. |

## Left out

- The two-wire transport. `beginTransmission`, `write`, `endTransmission`, `requestFrom`, `available` and `read` are replaced by the bytes-available parameters and the ghost `bus` log. `Wire.begin()` in `begin` is not modelled.
- The return value of `endTransmission` is ignored by the source everywhere, so a write that the sensor does not acknowledge is not modelled.
- `delay` is recorded in the log as `Wait(ms)` and does not block. The AVR `PROGMEM`/`pgm_read_byte_near` placement of the tables is dropped; only their values are kept.
- Floating point. The conversions, the -0.15 coefficient and the clamp are computed in exact real arithmetic, so float and double rounding is not modelled. NaN is modelled as `None`.
- The hold-master commands 0xE3 and 0xE5 are declared in the header but never sent, so they are not modelled.
- Driver.Sensor.constructor: starts with no readings. In C++ the constructor leaves `temperature` and `humidity` uninitialised; they are zero for an instance with static storage.
- Driver.Sensor.MeasureHumidity: requires a stored temperature. Its only caller, `measure`, calls it right after a successful temperature step. Called on its own after a failed step, the C++ code would compute NaN.
- The address is an 8-bit value. The header declares it as `int`, but only 7-bit addresses are meaningful on the bus.

## Notes on the code and the design

- `setResolution` stores the new resolution whether or not the register write succeeds. `reset` leaves the readings and, on failure, the resolution untouched. The model follows the code in both cases.
