/** types.rs: an earlier revision of the command and delay tables and of
    the configuration, which also carried a temperature unit and a CRC
    switch. The reading and delay modes are those of `Common`. */
module Types {
  import opened Bytes
  import opened Common

  /** Unit a temperature reading is converted to. */
  datatype TemperatureUnit = Celsius | Fahrenheit

  /** The earlier configuration. */
  datatype Config = Config(
    readingMode: ReadingMode,
    delayMode: DelayMode,
    temperatureUnit: TemperatureUnit,
    shouldValidateCrc: bool)
  {
    /** `Config::default()`: high precision, typical delays, Celsius, and
        CRC validation on. */
    static function Default(): (c: Config)
      ensures c.readingMode == HighPrecision && c.delayMode == Typical
      ensures c.temperatureUnit == Celsius && c.shouldValidateCrc
    {
      Config.Config(HighPrecision, Typical, Celsius, true)
    }
  }

  /** `ReadingMode::command_byte` of this revision: one of the nine
      measurement commands. */
  function CommandByte(mode: ReadingMode): (b: Byte)
    ensures b in {0xFD, 0xF6, 0xE0, 0x39, 0x32, 0x2F, 0x24, 0x1E, 0x15}
  {
    match mode
    case HighPrecision => 0xFD
    case MediumPrecision => 0xF6
    case LowPrecision => 0xE0
    case HighPrecisionWithHeater(High, Long) => 0x39
    case HighPrecisionWithHeater(High, Short) => 0x32
    case HighPrecisionWithHeater(Medium, Long) => 0x2F
    case HighPrecisionWithHeater(Medium, Short) => 0x24
    case HighPrecisionWithHeater(Low, Long) => 0x1E
    case HighPrecisionWithHeater(Low, Short) => 0x15
  }

  /** `ReadingDelayMode::us_for_reading_mode` of this revision: a value
      from the typical or the maximum list documented on the delay modes. */
  function UsForReadingMode(delay: DelayMode, mode: ReadingMode): (us: uint32)
    ensures delay == Typical ==> us in {1_300, 3_700, 6_900, 100_000, 1_000_000}
    ensures delay == Maximum ==> us in {1_600, 4_500, 8_300, 110_000, 1_100_000}
  {
    match (mode, delay)
    case (HighPrecision, Typical) => 6_900
    case (HighPrecision, Maximum) => 8_300
    case (MediumPrecision, Typical) => 3_700
    case (MediumPrecision, Maximum) => 4_500
    case (LowPrecision, Typical) => 1_300
    case (LowPrecision, Maximum) => 1_600
    case (HighPrecisionWithHeater(_, Long), Typical) => 1_000_000
    case (HighPrecisionWithHeater(_, Long), Maximum) => 1_100_000
    case (HighPrecisionWithHeater(_, Short), Typical) => 100_000
    case (HighPrecisionWithHeater(_, Short), Maximum) => 110_000
  }

  /** The command table maps the nine modes to nine distinct bytes, the
      datasheet's 0xFD, 0xF6, 0xE0, 0x39, 0x32, 0x2F, 0x24, 0x1E and 0x15. */
  lemma CommandTable(a: ReadingMode, b: ReadingMode)
    ensures CommandByte(a) == CommandByte(b) <==> a == b
    ensures CommandByte(a) in {0xFD, 0xF6, 0xE0, 0x39, 0x32, 0x2F, 0x24, 0x1E, 0x15}
  {
  }

  /** Maximum exceeds typical by the documented increase, and a heated
      measurement's delay does not depend on the heater power. */
  lemma DelayTable(mode: ReadingMode, p1: HeaterPower, p2: HeaterPower, d: HeaterDuration)
    ensures UsForReadingMode(Maximum, mode) == UsForReadingMode(Typical, mode) + DocumentedIncrease(mode)
    ensures UsForReadingMode(Typical, HighPrecisionWithHeater(p1, d)) == UsForReadingMode(Typical, HighPrecisionWithHeater(p2, d))
    ensures UsForReadingMode(Maximum, HighPrecisionWithHeater(p1, d)) == UsForReadingMode(Maximum, HighPrecisionWithHeater(p2, d))
  {
  }

  /** Both revisions' tables agree entry for entry, and so do the reading
      and delay modes of their default configurations. */
  lemma RevisionsAgree(mode: ReadingMode, delay: DelayMode)
    ensures CommandByte(mode) == mode.CommandByte()
    ensures UsForReadingMode(delay, mode) == delay.UsForReadingMode(mode)
    ensures Config.Default().readingMode == Common.Config.Default().readingMode
    ensures Config.Default().delayMode == Common.Config.Default().delayMode
  {
  }
}
