# SHT4x driver core, modelled in Dafny

This project models the protocol core of `sht4x-rjw`, a Rust driver for the
Sensirion SHT4x humidity and temperature sensor, and proves properties of it.
The sensor answers the serial-number and measurement commands with a six-byte frame
`[d0, d1, c0, d2, d3, c1]`, where each `c` is a CRC-8 of the two data bytes
before it. The driver validates both CRCs and then turns the four data bytes
into a serial number or a raw measurement. Fixed-point arithmetic converts the
raw readings to degrees and percent relative humidity. A blocking session
object runs the write, delay, read and decode sequence against an I2C bus and
a delay provider.

Files and modules:

- `wrappers.dfy` (`Wrappers`): the `Option` and `Result` types.
- `bytes.dfy` (`Bytes`):
  - the `u8`, `u16` and `u32` types;
  - `from_be_bytes` reassembly, shown to be reversible.
- `crc.dfy` (`Crc`), for `src/crc.rs`:
  - the CRC-8 of section 4.4 of the SHT4x datasheet as a function;
  - the three-byte `crc8` loop, proved equal to that function;
  - `validate_crc`;
  - the algebra of the check byte;
  - the test vectors.
- `utils.dfy` (`Utils`), for `src/utils.rs`: the slice version of `crc8`, proved equal to the same function, and its test vectors.
- `conversions.dfy` (`FixedPoint`), for `src/conversions.rs`:
  - the `fixed_point` submodule, with 16.16 values as integer counts of 2^-16;
  - each conversion proved within one rounding step of the formula in section 4.6 of the datasheet.
- `error.dfy` (`Errors`): `CrcFailureReason`, and `Error` with its `CrcValidationFailed` and `I2c` variants.
- `common.dfy` (`Common`), for `src/common.rs`:
  - the command constants;
  - the frame decoder `Unvalidated::try_get_bytes` and its `check_crc!` checks;
  - the reading and delay modes with their command-byte and delay tables;
  - `Config::default`;
  - `Measurement` and its accessors;
  - `serial_number_from_read_bytes`.
- `types.dfy` (`Types`), for `src/types.rs`: the earlier revision of the tables and of `Config`, proved to agree with `common.rs`.
- `blocking.dfy` (`Blocking`), for `src/blocking.rs`:
  - `SHT40` as a class that owns a bus and a six-byte read buffer;
  - the bus and the delay provider as objects that record their events, in order, on one shared `Timeline`;
  - what the bus answers comes from an oracle indexed by transaction number.

## Model

| member | source | states |
|---|---|---|
| Crc.Crc8 | src/crc.rs:25-51 | The nested loop over three bytes computes the CRC-8 with polynomial 0x31, initial value 0xFF and no reflection or final XOR. |
| Crc.ValidateCrc | src/crc.rs:55-60 | Returns Ok exactly when the CRC of all three bytes is 0. That happens exactly when the third byte is the CRC of the first two. Otherwise the error carries that non-zero CRC. |
| Crc.ZeroIffCheckByte | src/crc.rs:3-5 | The running CRC over `xs + [c]` is 0 if and only if `c` is the CRC of `xs`. |
| Crc.ShiftsZero | src/crc.rs:36-47 | Any number of shift-register steps maps a byte to 0 only when the byte was 0. |
| Crc.ShiftsInjective | src/crc.rs:36-47 | The shift-register steps are injective, so eight of them form a bijection on bytes. |
| Crc.ShiftStepInjective | src/crc.rs:37-46 | One shift step, with or without the polynomial, is injective. |
| Crc.AbsorbInjective | src/crc.rs:35-47 | XOR-ing in a byte and then shifting eight times is injective in the register and in the byte. |
| Crc.RegisterSnoc | src/utils.rs:15-29 | The fold runs left to right: the CRC of `xs + [b]` is `b` absorbed into the register left by `xs`. |
| Crc.RegisterAppend | src/utils.rs:15-29 | The register after a concatenation is the register after the first part, run on the second part. |
| Crc.RegisterInjective | src/utils.rs:15-29 | Two different registers stay different after absorbing the same bytes. |
| Crc.AppendOwnCrc | src/utils.rs:14-29 | For every byte sequence, appending its own CRC gives a running CRC of 0. |
| Crc.SingleByteChangeDetected | src/utils.rs:15-29 | Changing any one byte anywhere in a sequence changes its CRC. |
| Crc.CrcEmpty | src/utils.rs:14-15 | The CRC of no bytes is the initial value 0xFF. |
| Crc.ZeroPairVector | src/crc.rs:67-69 | The CRC of `[0x00, 0x00, 0x81]` is 0. |
| Crc.DatasheetVector | src/crc.rs:72-75 | The CRC of `[0xBE, 0xEF, 0x92]` is 0, as in the datasheet example. |
| Utils.Crc8 | src/utils.rs:6-32 | The nested loop over a slice of any length computes the same CRC-8. |
| Utils.AgreesWithTripleCrc | src/utils.rs:6-32 | On three bytes, the slice `crc8` and the `[u8; 3]` `crc8` of crc.rs return the same value. |
| Utils.TestVectors | src/utils.rs:46-56 | The CRC of no bytes is 0xFF. The CRC of `[0x00, 0x00]` is 0x81 and of `[0xBE, 0xEF]` is 0x92. Each pair followed by its CRC gives 0. |
| Bytes.U16FromBeBytes | src/common.rs:306-307 | The high and low bytes can be read back from the 16-bit result. |
| Bytes.U32FromBeBytes | src/common.rs:364 | All four bytes can be read back from the 32-bit result, most significant first. |
| FixedPoint.Fraction | src/conversions.rs:62 | The reading as a fraction of 65535, rounded down to a multiple of 2^-16. It lies in [0, 1], equals 1 exactly at reading 65535, and is at most one step below the true quotient. |
| FixedPoint.UnclampedHumidity | src/conversions.rs:63-64 | `-6 + 125 * fraction` is at most 125 * 2^-16 below the datasheet value `-6 + 125 * reading / 65535`. |
| FixedPoint.HumidityReadingToPercentRh | src/conversions.rs:60-66 | The result lies in [0, 100] %RH and is at most 125 * 2^-16 below the datasheet value clamped to [0, 100]. |
| FixedPoint.TemperatureReadingToCelsius | src/conversions.rs:69-73 | The result is at most 175 * 2^-16 °C below `-45 + 175 * reading / 65535`. |
| FixedPoint.TemperatureReadingToFahrenheit | src/conversions.rs:76-80 | The result is at most 315 * 2^-16 °F below `-49 + 315 * reading / 65535`. |
| FixedPoint.FractionBelowFullScale | src/conversions.rs:62 | Below 65535 the truncated fraction is exactly the reading in 2^-16 units. |
| FixedPoint.Boundaries | src/conversions.rs:63-79 | Reading 0 gives -45 °C and -49 °F exactly, and 65535 gives 130 °C and 266 °F. For humidity, 0 gives 0 (clamped from -6) and 65535 gives 100 (clamped from 119). |
| FixedPoint.Monotone | src/conversions.rs:60-80 | A larger reading never converts to a smaller temperature or humidity. |
| FixedPoint.ClampInactiveInRange | src/conversions.rs:63-65 | When `-6 + 125 * fraction` lies in [0, 100], the clamp returns it unchanged. |
| Common.EncodeFrame | src/common.rs:42-44 | Builds the frame the sensor would send for four data bytes. Each half's third byte checks, and the data bytes sit at positions 0, 1, 3 and 4. |
| Common.Unvalidated.TryGetBytes | src/common.rs:15-62 | Ok exactly when both CRC bytes check, and then the value is `[s0, s1, s3, s4]`. If the first triple fails, the error names the first meaning, `[d0, d1, c0]` and its non-zero CRC. The second triple's error is reported only when the first passed. |
| Common.DecodeEncode | src/common.rs:50-62 | A frame encoded from four data bytes decodes to those bytes, whatever the failure meanings. |
| Common.EncodeDecode | src/common.rs:50-62 | Every frame that decodes is the encoding of what it decodes to. |
| Common.PairCorruptionDetected | src/common.rs:17 | Changing any one of a data pair's two bytes or its CRC byte makes the check fail. |
| Common.FirstHalfCorrupted | src/common.rs:59 | Changing a byte of a frame's first half spoils its first check. |
| Common.SecondHalfCorrupted | src/common.rs:60 | Changing a byte of a frame's second half spoils its second check and leaves the first half alone. |
| Common.CorruptionDetected | src/common.rs:58-61 | Changing any one byte of a frame that decodes makes decoding fail. The error's reason names the half the byte lies in. |
| Common.ReadingMode.CommandByte | src/common.rs:162-176 | Each reading mode's command byte is one of the nine measurement commands 0xFD, 0xF6, 0xE0, 0x39, 0x32, 0x2F, 0x24, 0x1E and 0x15, and never 0x89 or 0x94. |
| Common.DelayMode.UsForReadingMode | src/common.rs:200-242 | A typical delay is one of 1.3, 3.7, 6.9, 100 and 1,000 ms, and a maximum delay is one of 1.6, 4.5, 8.3, 110 and 1,100 ms, as the delay modes document. |
| Common.Config.Default | src/common.rs:266-274 | The default configuration is high precision with typical delays. |
| Common.CommandByteInjective | src/common.rs:162-176 | The nine reading modes have nine distinct command bytes. None of them is the serial-number command 0x89 or the soft-reset command 0x94. |
| Common.MaximumDelayIncrease | src/common.rs:189-242 | For every reading mode, the maximum delay exceeds the typical delay by the documented 0.3, 0.8, 1.4, 10 or 100 ms, and the typical delay is positive. |
| Common.HeaterDelayIgnoresPower | src/common.rs:237-240 | The delay of a heated measurement depends on the heater duration, never on the heater power. |
| Common.MeasurementFromReadBytes | src/common.rs:297-309 | Ok exactly when the frame decodes. Then the raw temperature is `s0 * 256 + s1` and the raw humidity is `s3 * 256 + s4`, and the raw accessors return them. CRC errors are tagged with the temperature or humidity reason. |
| Common.SerialNumberFromReadBytes | src/common.rs:356-365 | Ok exactly when the frame decodes. The value is `s0 * 2^24 + s1 * 2^16 + s3 * 2^8 + s4`. CRC errors are tagged with the first or second serial-number pair. |
| Common.DocumentationPairs | src/blocking.rs:29-33 | The CRC bytes 0x17, 0x68, 0x37 and 0x7D of the documentation example check. |
| Common.DocumentationFrames | src/blocking.rs:29-33 | The documentation example's frames decode to serial number 0x01020304 and to raw temperature 0x1234 with raw humidity 0x5678. |
| Types.Config.Default | src/types.rs:168-177 | The earlier default configuration is high precision, typical delays, Celsius and CRC validation on. |
| Types.CommandByte | src/types.rs:57-71 | The earlier revision's command byte is one of the nine measurement commands. |
| Types.UsForReadingMode | src/types.rs:90-131 | The earlier revision's delay is one of the documented typical values for `Typical` and one of the documented maximum values for `Maximum`. |
| Types.CommandTable | src/types.rs:57-71 | The earlier command table maps the nine modes injectively onto 0xFD, 0xF6, 0xE0, 0x39, 0x32, 0x2F, 0x24, 0x1E and 0x15. |
| Types.DelayTable | src/types.rs:80-131 | In the earlier delay table, maximum exceeds typical by the documented increase, and heated delays ignore the heater power. |
| Types.RevisionsAgree | src/types.rs:57-177 | Both revisions' command and delay tables agree entry for entry, and their defaults have the same reading and delay modes. |
| Blocking.Sht40.constructor | src/blocking.rs:91-98 | The new session holds the given bus and configuration, address 0x44 and a fresh zeroed six-byte buffer. |
| Blocking.Sht40.Destroy | src/blocking.rs:101-103 | Returns the owned bus handle. |
| Blocking.Sht40.SerialNumber | src/blocking.rs:112-124 | Writes `[0x89]` to the address and then reads six bytes from it, with no delay in between. A failed write ends the call with `I2c`, and so does a failed read. After a failed write or read the buffer is unchanged. Otherwise the buffer holds the frame, and the result is `serial_number_from_read_bytes` of it. Address and configuration are unchanged. |
| Blocking.Sht40.SoftReset | src/blocking.rs:131-135 | Writes `[0x94]` and then waits 1 ms, without reading. A failed write ends the call with `I2c` before the wait. |
| Blocking.Sht40.Measure | src/blocking.rs:143-145 | Acts as `measure_with_settings` with the configured reading and delay modes. |
| Blocking.Sht40.MeasureWithSettings | src/blocking.rs:161-175 | Writes the mode's command byte, waits the mode's delay in microseconds, reads six bytes and decodes them with `Measurement::from_read_bytes`. A failed write ends the call before the wait and the read, and a failed read ends it before the decode. Both leave the buffer unchanged. Address and configuration are unchanged. |
| Blocking.I2cBus.Write | src/blocking.rs:121 | A write records its event on the timeline, counts one transaction, and fails exactly when the bus rejects that transaction. |
| Blocking.I2cBus.Read | src/blocking.rs:122 | A successful read overwrites the six-byte buffer in place with the bus's frame. |
| Blocking.Delay.DelayUs | src/blocking.rs:171 | A microsecond wait is recorded on the shared timeline, after everything that came before it. |
| Blocking.Delay.DelayMs | src/blocking.rs:133 | A millisecond wait is recorded on the shared timeline, after everything that came before it. |
| Blocking.ExampleSession | src/blocking.rs:19-39 | With the default configuration and a bus that accepts both writes, the session emits exactly write 0x89, read, write 0xFD, wait 6900 µs, read, at address 0x44. The results are the decodes of the two frames read. |
| Blocking.DocumentationExample | src/blocking.rs:19-39 | The documentation example yields serial number 0x01020304 and the measurement with raw readings 0x1234 and 0x5678. |

## Left out

- The floating-point conversions are not modelled: `src/conversions.rs` lines 22-38, the `f32` methods of `Measurement`, `reading_to_humidity` in `src/utils.rs`, and `TemperatureUnit::convert_reading` with the float `Measurement` of `src/types.rs`. The fixed-point submodule is their exact counterpart and is modelled instead.
- The `fixed` crate is not part of this model. `I16F16` and `U16F16` are integers scaled by 2^16. The model assumes that `from_num` on a whole number is exact, that division truncates and that multiplication rounds down. Every operand in these conversions is non-negative, so truncation and flooring agree.
- FixedPoint.HumidityReadingToPercentRh, FixedPoint.TemperatureReadingToCelsius and FixedPoint.TemperatureReadingToFahrenheit: each contract bounds the result within one rounding step of the real formula rather than giving its exact value. The exact value is the `I16F16` arithmetic itself.
- `src/asynch.rs` is not part of this model. It runs the same write, delay, read and decode sequence with `.await` suspension points, and suspension belongs to the host executor.
- The `embedded_hal` `I2c` and `DelayNs` traits are represented only by the recording bus and delay objects.
  - The bus's answers are an oracle indexed by transaction number.
  - The model assumes a failed read leaves the buffer unchanged.
  - Bus-level details are not modelled: START/STOP conditions, NACK timing, and the `SevenBitAddress` range.
- `defmt` logging in `check_crc!` is a side effect only and is not modelled.
- The `Display` implementation of `src/error.rs` is not modelled, because it formats an older error shape. The error type follows `src/common.rs`: the struct variant `CrcValidationFailed { reason, received_bytes, calculated_crc }`, plus `I2c` for bus errors.
- `src/blocking.rs` imports `ReadingDelayMode` from `common.rs`, which calls that enum `DelayMode`. The model treats them as one enum, `Common.DelayMode`. `src/types.rs` declares its own `HeaterPower`, `HeaterDuration`, `ReadingMode` and `ReadingDelayMode` enums with the same variants, and `Types` reuses the `Common` ones for all four.
- `should_validate_crc` and `temperature_unit` of the older `Config` have no consumer in the source. Only their default values are modelled.
- `tests/mcp2221.rs` is a hardware test against a USB bridge and is not part of this model. `src/lib.rs` is module wiring only.
- `Measurement::humidity_fixed_point`, `celsius_fixed_point` and `fahrenheit_fixed_point` are one-line delegations, modelled as `Common.Measurement` members that call the `FixedPoint` functions. Their properties are the rows above.
- `SHT40`'s `address` and `config` are public fields the caller may reassign between calls. Every operation is proved to leave them unchanged and to use their current values.
- Blocking.Sht40.Destroy: Rust's `destroy(self)` consumes the session, so no later call is possible. The model returns the bus but leaves the `Sht40` object usable, so move semantics are not captured.
- `Unvalidated` keeps its frame in a private field in the source, so the data bytes can only be read through `try_get_bytes`. A Dafny datatype field is public, so that privacy is not captured. The session hands the frame only to the two decoders.
