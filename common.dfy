/** common.rs: command bytes and timings, the CRC-checked decoding of the
    sensor's six-byte responses, and the values built from them. */
module Common {
  import opened Bytes
  import opened Wrappers
  import opened Errors
  import Crc
  import FixedPoint

  const ReadSerialNumberCommand: Byte := 0x89
  const SoftResetCommand: Byte := 0x94

  /** A response as read from the sensor: `[d0, d1, crc0, d2, d3, crc1]`. */
  type Frame = s: seq<Byte> | |s| == 6 witness [0, 0, 0, 0, 0, 0]
  /** The four data bytes of a frame whose CRCs both passed. */
  type Quad = s: seq<Byte> | |s| == 4 witness [0, 0, 0, 0]

  /** Whether a two-byte pair is followed by its correct CRC byte. */
  predicate PairChecks(d0: Byte, d1: Byte, c: Byte) {
    c == Crc.Crc([d0, d1])
  }

  /** What the sensor sends for four data bytes: each pair followed by its
      CRC. */
  function EncodeFrame(data: Quad): (frame: Frame)
    ensures PairChecks(frame[0], frame[1], frame[2]) && PairChecks(frame[3], frame[4], frame[5])
    ensures [frame[0], frame[1], frame[3], frame[4]] == data
  {
    assert data[..2] == [data[0], data[1]] && data[2..] == [data[2], data[3]];
    [data[0], data[1], Crc.Crc(data[..2]), data[2], data[3], Crc.Crc(data[2..])]
  }

  /** `Unvalidated`: the six bytes read from the sensor. The session hands
      them only to the decoders, which go through the CRC check of
      `TryGetBytes`; the source's field privacy is not captured. */
  datatype Unvalidated = Unvalidated(frame: Frame) {

    /** `try_get_bytes`: check the first triple, then the second, and
        return `[s0, s1, s3, s4]`; a failing triple is reported with its
        meaning, its three bytes and the non-zero CRC computed over them,
        and the second is looked at only when the first passed. */
    function TryGetBytes<E>(firstMeaning: CrcFailureReason, secondMeaning: CrcFailureReason)
      : (r: Result<Quad, Error<E>>)
      ensures r.Ok? <==> PairChecks(frame[0], frame[1], frame[2]) && PairChecks(frame[3], frame[4], frame[5])
      ensures r.Ok? ==> r.value == [frame[0], frame[1], frame[3], frame[4]]
      ensures !PairChecks(frame[0], frame[1], frame[2]) ==>
        r == Err(CrcValidationFailed(firstMeaning, frame[..3], Crc.Crc(frame[..3]))) && Crc.Crc(frame[..3]) != 0
      ensures PairChecks(frame[0], frame[1], frame[2]) && !PairChecks(frame[3], frame[4], frame[5]) ==>
        r == Err(CrcValidationFailed(secondMeaning, frame[3..], Crc.Crc(frame[3..]))) && Crc.Crc(frame[3..]) != 0
    {
      var first: Crc.Triple := frame[..3];
      var second: Crc.Triple := frame[3..];
      assert first[..2] == [frame[0], frame[1]];
      assert second[..2] == [frame[3], frame[4]];
      match Crc.ValidateCrc(first)
      case Err(crc) => Err(CrcValidationFailed(firstMeaning, first, crc))
      case Ok(_) =>
        match Crc.ValidateCrc(second)
        case Err(crc) => Err(CrcValidationFailed(secondMeaning, second, crc))
        case Ok(_) => Ok([frame[0], frame[1], frame[3], frame[4]])
    }
  }

  // ---------------------------------------------------------------------
  // Reading modes, command bytes and delays

  /** Power applied to the sensor heater before measuring. */
  datatype HeaterPower = High | Medium | Low

  /** Length of time the heater runs before measuring. */
  datatype HeaterDuration = Long | Short

  /** Repeatability of a measurement, optionally after heating. */
  datatype ReadingMode =
    | HighPrecision
    | MediumPrecision
    | LowPrecision
    | HighPrecisionWithHeater(power: HeaterPower, duration: HeaterDuration)
  {
    /** `command_byte`: the I2C command that starts a measurement in this
        mode, one of the nine measurement commands of the datasheet and
        never the serial-number or soft-reset command. */
    function CommandByte(): (b: Byte)
      ensures b in {0xFD, 0xF6, 0xE0, 0x39, 0x32, 0x2F, 0x24, 0x1E, 0x15}
      ensures b != ReadSerialNumberCommand && b != SoftResetCommand
    {
      match this
      case HighPrecision => 0xFD
      case MediumPrecision => 0xF6
      case LowPrecision => 0xE0
      case HighPrecisionWithHeater(power, duration) =>
        match (power, duration)
        case (High, Long) => 0x39
        case (High, Short) => 0x32
        case (Medium, Long) => 0x2F
        case (Medium, Short) => 0x24
        case (Low, Long) => 0x1E
        case (Low, Short) => 0x15
    }
  }

  /** Which of the two published timing tables to wait by. */
  datatype DelayMode = Typical | Maximum {

    /** `us_for_reading_mode`: microseconds to wait between starting a
        measurement in `mode` and reading its result, drawn from the typical
        list (1.3, 3.7, 6.9, 100 and 1,000 ms) or the maximum list (1.6,
        4.5, 8.3, 110 and 1,100 ms) documented on the delay modes. */
    function UsForReadingMode(mode: ReadingMode): (us: uint32)
      ensures this == Typical ==> us in {1_300, 3_700, 6_900, 100_000, 1_000_000}
      ensures this == Maximum ==> us in {1_600, 4_500, 8_300, 110_000, 1_100_000}
    {
      match (mode, this)
      case (HighPrecision, Typical) => 6_900
      case (HighPrecision, Maximum) => 8_300
      case (MediumPrecision, Typical) => 3_700
      case (MediumPrecision, Maximum) => 4_500
      case (LowPrecision, Typical) => 1_300
      case (LowPrecision, Maximum) => 1_600
      case (HighPrecisionWithHeater(_, Long), Typical) => 1_000_000
      case (HighPrecisionWithHeater(_, Long), Maximum) => 1_100_000
      case (HighPrecisionWithHeater(_, Short), Typical) => 100_000
      case (HighPrecisionWithHeater(_, Short), Maximum) => 110_000
    }
  }

  /** Default reading and delay modes of a sensor session. */
  datatype Config = Config(readingMode: ReadingMode, delayMode: DelayMode) {

    /** `Config::default()`: high-precision readings with typical delays. */
    static function Default(): (c: Config)
      ensures c.readingMode == HighPrecision && c.delayMode == Typical
    {
      Config(HighPrecision, Typical)
    }
  }

  /** The increase from typical to maximum delay listed in the delay mode's
      documentation, in microseconds: 0.3, 0.8 and 1.4 ms for low, medium
      and high precision, 10 and 100 ms for short and long heating. */
  function DocumentedIncrease(mode: ReadingMode): nat {
    match mode
    case LowPrecision => 300
    case MediumPrecision => 800
    case HighPrecision => 1_400
    case HighPrecisionWithHeater(_, Short) => 10_000
    case HighPrecisionWithHeater(_, Long) => 100_000
  }

  /** Distinct reading modes have distinct command bytes, and none of them
      is the serial-number or soft-reset command. */
  lemma CommandByteInjective(a: ReadingMode, b: ReadingMode)
    ensures a.CommandByte() == b.CommandByte() <==> a == b
    ensures a.CommandByte() != ReadSerialNumberCommand && a.CommandByte() != SoftResetCommand
  {
  }

  /** The maximum delay exceeds the typical one by the documented increase. */
  lemma MaximumDelayIncrease(mode: ReadingMode)
    ensures Maximum.UsForReadingMode(mode) == Typical.UsForReadingMode(mode) + DocumentedIncrease(mode)
    ensures Typical.UsForReadingMode(mode) > 0
  {
  }

  /** A heated measurement's delay depends on the heater's duration, never
      on its power. */
  lemma HeaterDelayIgnoresPower(delay: DelayMode, p1: HeaterPower, p2: HeaterPower, d: HeaterDuration)
    ensures delay.UsForReadingMode(HighPrecisionWithHeater(p1, d))
         == delay.UsForReadingMode(HighPrecisionWithHeater(p2, d))
  {
  }

  // ---------------------------------------------------------------------
  // Measurements and serial numbers

  /** A temperature and humidity measurement, as the raw 16-bit readings. */
  datatype Measurement = Measurement(rawTemp: uint16, rawHumidity: uint16) {

    /** `raw_temperature_reading`. */
    function RawTemperatureReading(): uint16 {
      rawTemp
    }

    /** `raw_humidity_reading`. */
    function RawHumidityReading(): uint16 {
      rawHumidity
    }

    /** `humidity_fixed_point`. */
    function HumidityFixedPoint(): FixedPoint.I16F16 {
      FixedPoint.HumidityReadingToPercentRh(rawHumidity)
    }

    /** `celsius_fixed_point`. */
    function CelsiusFixedPoint(): FixedPoint.I16F16 {
      FixedPoint.TemperatureReadingToCelsius(rawTemp)
    }

    /** `fahrenheit_fixed_point`. */
    function FahrenheitFixedPoint(): FixedPoint.I16F16 {
      FixedPoint.TemperatureReadingToFahrenheit(rawTemp)
    }
  }

  /** `Measurement::from_read_bytes`: the temperature is the first validated
      pair and the humidity the second, each read big-endian; CRC failures
      are tagged as temperature or humidity bytes. */
  function MeasurementFromReadBytes<E>(sensorData: Unvalidated): (r: Result<Measurement, Error<E>>)
    ensures r.Ok? <==> sensorData.TryGetBytes<E>(TemperatureBytes, HumidityBytes).Ok?
    ensures r.Ok? ==>
      var f := sensorData.frame;
      r.value.RawTemperatureReading() == f[0] as int * 0x100 + f[1] as int &&
      r.value.RawHumidityReading() == f[3] as int * 0x100 + f[4] as int
    ensures r.Err? ==> r.error.CrcValidationFailed? && r.error.reason in {TemperatureBytes, HumidityBytes}
    ensures r.Err? ==> r.error == sensorData.TryGetBytes<E>(TemperatureBytes, HumidityBytes).error
  {
    match sensorData.TryGetBytes(TemperatureBytes, HumidityBytes)
    case Err(e) => Err(e)
    case Ok(bytes) =>
      Ok(Measurement(U16FromBeBytes(bytes[0], bytes[1]), U16FromBeBytes(bytes[2], bytes[3])))
  }

  /** `serial_number_from_read_bytes`: the four validated data bytes as one
      big-endian 32-bit number; CRC failures are tagged as the serial
      number's first or second pair. */
  function SerialNumberFromReadBytes<E>(sensorData: Unvalidated): (r: Result<uint32, Error<E>>)
    ensures r.Ok? <==> sensorData.TryGetBytes<E>(SerialNumberFirstPair, SerialNumberSecondPair).Ok?
    ensures r.Ok? ==>
      var f := sensorData.frame;
      r.value == f[0] as int * 0x100_0000 + f[1] as int * 0x1_0000 + f[3] as int * 0x100 + f[4] as int
    ensures r.Err? ==> r.error.CrcValidationFailed? && r.error.reason in {SerialNumberFirstPair, SerialNumberSecondPair}
    ensures r.Err? ==> r.error == sensorData.TryGetBytes<E>(SerialNumberFirstPair, SerialNumberSecondPair).error
  {
    match sensorData.TryGetBytes(SerialNumberFirstPair, SerialNumberSecondPair)
    case Err(e) => Err(e)
    case Ok(bytes) => Ok(U32FromBeBytes(bytes[0], bytes[1], bytes[2], bytes[3]))
  }

  // ---------------------------------------------------------------------
  // Properties of the decoder

  /** A frame as the sensor encodes it always decodes to its data bytes. */
  lemma DecodeEncode<E>(data: Quad, first: CrcFailureReason, second: CrcFailureReason)
    ensures Unvalidated(EncodeFrame(data)).TryGetBytes<E>(first, second) == Ok(data)
  {
  }

  /** The only frames that decode are encodings of what they decode to. */
  lemma EncodeDecode<E>(frame: Frame, first: CrcFailureReason, second: CrcFailureReason)
    requires Unvalidated(frame).TryGetBytes<E>(first, second).Ok?
    ensures EncodeFrame(Unvalidated(frame).TryGetBytes<E>(first, second).value) == frame
  {
  }

  /** A data pair and its CRC byte stop checking once any one of the three
      bytes changes. */
  lemma PairCorruptionDetected(d0: Byte, d1: Byte, c: Byte, x: Byte)
    requires PairChecks(d0, d1, c)
    ensures x != d0 ==> !PairChecks(x, d1, c)
    ensures x != d1 ==> !PairChecks(d0, x, c)
    ensures x != c ==> !PairChecks(d0, d1, x)
  {
    if x != d0 {
      Crc.SingleByteChangeDetected([], d0, x, [d1]);
      assert [] + [d0] + [d1] == [d0, d1] && [] + [x] + [d1] == [x, d1];
    }
    if x != d1 {
      Crc.SingleByteChangeDetected([d0], d1, x, []);
      assert [d0] + [d1] + [] == [d0, d1] && [d0] + [x] + [] == [d0, x];
    }
  }

  /** Changing any one byte of a frame that decodes makes it fail, and the
      error names the half the byte lies in. */
  lemma CorruptionDetected<E>(frame: Frame, i: nat, b: Byte, first: CrcFailureReason, second: CrcFailureReason)
    requires Unvalidated(frame).TryGetBytes<E>(first, second).Ok?
    requires i < 6 && b != frame[i]
    ensures var r := Unvalidated(frame[i := b]).TryGetBytes<E>(first, second);
      r.Err? && r.error.CrcValidationFailed? &&
      r.error.reason == (if i < 3 then first else second)
  {
    var g: Frame := frame[i := b];
    if i < 3 {
      FirstHalfCorrupted(frame, i, b);
    } else {
      SecondHalfCorrupted(frame, i, b);
      assert g[0] == frame[0] && g[1] == frame[1] && g[2] == frame[2];
    }
  }

  /** Changing a byte of the first half of a frame spoils its first CRC. */
  lemma FirstHalfCorrupted(frame: Frame, i: nat, b: Byte)
    requires PairChecks(frame[0], frame[1], frame[2])
    requires i < 3 && b != frame[i]
    ensures var g := frame[i := b]; !PairChecks(g[0], g[1], g[2])
  {
    PairCorruptionDetected(frame[0], frame[1], frame[2], b);
  }

  /** Changing a byte of the second half of a frame spoils its second CRC
      and leaves the first half alone. */
  lemma SecondHalfCorrupted(frame: Frame, i: nat, b: Byte)
    requires PairChecks(frame[3], frame[4], frame[5])
    requires 3 <= i < 6 && b != frame[i]
    ensures var g := frame[i := b]; !PairChecks(g[3], g[4], g[5]) && g[..3] == frame[..3]
  {
    PairCorruptionDetected(frame[3], frame[4], frame[5], b);
    var g := frame[i := b];
    assert g[..3] == frame[..3];
  }

  /** The CRC bytes of the driver's documentation example check. */
  lemma DocumentationPairs()
    ensures PairChecks(0x01, 0x02, 0x17) && PairChecks(0x03, 0x04, 0x68)
    ensures PairChecks(0x12, 0x34, 0x37) && PairChecks(0x56, 0x78, 0x7D)
  {
    Crc.ShiftsEight(0xFE);
    Crc.ShiftsEight(0x9F);
    assert Crc.Absorb(0xFF, 0x01) == 0x9D && Crc.Absorb(0x9D, 0x02) == 0x17;
    Crc.ShiftsEight(0xFC);
    Crc.ShiftsEight(0xFB);
    assert Crc.Absorb(0xFF, 0x03) == 0xFF && Crc.Absorb(0xFF, 0x04) == 0x68;
    Crc.ShiftsEight(0xED);
    Crc.ShiftsEight(0xB9);
    assert Crc.Absorb(0xFF, 0x12) == 0x8D && Crc.Absorb(0x8D, 0x34) == 0x37;
    Crc.ShiftsEight(0xA9);
    Crc.ShiftsEight(0x0C);
    assert Crc.Absorb(0xFF, 0x56) == 0x74 && Crc.Absorb(0x74, 0x78) == 0x7D;
  }

  /** The frames of the driver's documentation example decode: the serial
      number 0x01020304, and the measurement with raw temperature 0x1234 and
      raw humidity 0x5678. */
  lemma DocumentationFrames<E>()
    ensures SerialNumberFromReadBytes<E>(Unvalidated([0x01, 0x02, 0x17, 0x03, 0x04, 0x68])) == Ok(0x0102_0304)
    ensures MeasurementFromReadBytes<E>(Unvalidated([0x12, 0x34, 0x37, 0x56, 0x78, 0x7D]))
         == Ok(Measurement(0x1234, 0x5678))
  {
    DocumentationPairs();
  }
}
