/** The `fixed_point` conversions of conversions.rs: the transfer functions
    of section 4.6 of the SHT4x datasheet evaluated in 16.16 fixed point.

    A fixed-point value is modelled by its bits: the integer count of
    2^-16 units it stands for. The operations of the `fixed` crate that the
    conversions use are written out below under the stated rounding
    assumptions; every operand they see here is non-negative, where
    truncation and flooring coincide. */
module FixedPoint {
  import opened Bytes

  /** 1.0 in 16.16 fixed point. */
  const One := 0x1_0000

  /** `I16F16`: a signed 32-bit count of 2^-16 units. */
  type I16F16 = bits: int | -0x8000_0000 <= bits < 0x8000_0000
  /** `U16F16`: an unsigned 32-bit count of 2^-16 units. */
  type U16F16 = bits: int | 0 <= bits < 0x1_0000_0000

  /** The number a fixed-point value stands for. */
  function ToReal(bits: int): real {
    bits as real / 65536.0
  }

  // ---------------------------------------------------------------------
  // The `fixed` crate operations used by the conversions

  /** `U16F16::from_num(n)` for a `u16`. */
  function U16F16FromU16(n: uint16): U16F16 {
    n * One
  }

  /** `I16F16::from_num(n)` for an integer in range. */
  function I16F16FromInt(n: int): I16F16
    requires -0x8000 <= n < 0x8000
  {
    n * One
  }

  /** `I16F16::from_num(x)` for a `U16F16` that fits. */
  function I16F16FromU16F16(x: U16F16): I16F16
    requires x < 0x8000_0000
  {
    x
  }

  /** `U16F16 / U16F16`, truncating; the caller shows the quotient fits. */
  function DivU16F16(a: U16F16, b: U16F16): int
    requires b > 0
  {
    a * One / b
  }

  /** `I16F16 * I16F16`, rounding down; the caller shows the product fits. */
  function MulI16F16(a: I16F16, b: I16F16): int {
    a * b / One
  }

  /** `Ord::clamp`. */
  function Clamp(x: I16F16, lo: I16F16, hi: I16F16): I16F16
    requires lo <= hi
  {
    if x < lo then lo else if x > hi then hi else x
  }

  // ---------------------------------------------------------------------
  // The datasheet formulas over the reals, the reference for the above

  function ExactCelsius(reading: uint16): real {
    -45.0 + 175.0 * (reading as real) / 65535.0
  }

  function ExactFahrenheit(reading: uint16): real {
    -49.0 + 315.0 * (reading as real) / 65535.0
  }

  function ExactHumidity(reading: uint16): real {
    -6.0 + 125.0 * (reading as real) / 65535.0
  }

  function ClampReal(x: real, lo: real, hi: real): real {
    if x < lo then lo else if x > hi then hi else x
  }

  // ---------------------------------------------------------------------
  // The conversions

  /** `U16F16::from_num(reading) / U16F16::from_num(u16::MAX)`: the reading
      as a fraction of full scale, rounded down to a multiple of 2^-16. It
      lies in [0, 1] and is exactly 1 only at full scale. */
  function Fraction(reading: uint16): (f: U16F16)
    ensures 0 <= f <= One
    ensures f == One <==> reading == 0xFFFF
    ensures f * 0xFFFF <= reading * One < (f + 1) * 0xFFFF
  {
    DivU16F16(U16F16FromU16(reading), U16F16FromU16(0xFFFF))
  }

  /** `-6 + 125 * fraction` before the clamp. */
  function UnclampedHumidity(reading: uint16): (h: I16F16)
    ensures ToReal(h) <= ExactHumidity(reading) < ToReal(h) + 125.0 / 65536.0
  {
    var fraction := I16F16FromU16F16(Fraction(reading));
    MulByWhole(125, fraction);
    FractionAsReal(reading);
    I16F16FromInt(-6) + MulI16F16(I16F16FromInt(125), fraction)
  }

  /** The truncated fraction in real terms: the fixed-point fraction is at
      most one 2^-16 step below `reading / 65535`. */
  lemma FractionAsReal(reading: uint16)
    ensures ToReal(Fraction(reading)) <= (reading as real) / 65535.0 < ToReal(Fraction(reading)) + 1.0 / 65536.0
  {
    var f := Fraction(reading);
    assert (f as real) * 65535.0 <= (reading as real) * 65536.0 < (f as real + 1.0) * 65535.0;
  }

  /** Multiplying by a whole number of units is exact. */
  lemma MulByWhole(n: int, x: I16F16)
    requires -0x8000 <= n < 0x8000
    ensures MulI16F16(I16F16FromInt(n), x) == n * x
  {
    assert I16F16FromInt(n) * x == (n * x) * One;
  }

  /** `humidity_reading_to_percent_rh`: within [0, 100] %RH, and at most one
      step of 125 * 2^-16 %RH below the clamped datasheet value. */
  function HumidityReadingToPercentRh(reading: uint16): (h: I16F16)
    ensures 0 <= h <= 100 * One
    ensures ToReal(h) <= ClampReal(ExactHumidity(reading), 0.0, 100.0) < ToReal(h) + 125.0 / 65536.0
  {
    Clamp(UnclampedHumidity(reading), I16F16FromInt(0), I16F16FromInt(100))
  }

  /** `temperature_reading_to_celsius`: at most one step of 175 * 2^-16 °C
      below the datasheet value. */
  function TemperatureReadingToCelsius(reading: uint16): (t: I16F16)
    ensures ToReal(t) <= ExactCelsius(reading) < ToReal(t) + 175.0 / 65536.0
  {
    var fraction := I16F16FromU16F16(Fraction(reading));
    MulByWhole(175, fraction);
    FractionAsReal(reading);
    I16F16FromInt(-45) + MulI16F16(I16F16FromInt(175), fraction)
  }

  /** `temperature_reading_to_fahrenheit`: at most one step of 315 * 2^-16 °F
      below the datasheet value. */
  function TemperatureReadingToFahrenheit(reading: uint16): (t: I16F16)
    ensures ToReal(t) <= ExactFahrenheit(reading) < ToReal(t) + 315.0 / 65536.0
  {
    var fraction := I16F16FromU16F16(Fraction(reading));
    MulByWhole(315, fraction);
    FractionAsReal(reading);
    I16F16FromInt(-49) + MulI16F16(I16F16FromInt(315), fraction)
  }

  // ---------------------------------------------------------------------
  // Properties

  /** Below full scale the truncated fraction is the reading itself in
      2^-16 units, so the scale is 65536 rather than 65535 there. */
  lemma FractionBelowFullScale(reading: uint16)
    requires reading < 0xFFFF
    ensures Fraction(reading) == reading
  {
  }

  /** The end points of the scale convert exactly. */
  lemma Boundaries()
    ensures TemperatureReadingToCelsius(0) == -45 * One
    ensures TemperatureReadingToFahrenheit(0) == -49 * One
    ensures TemperatureReadingToCelsius(0xFFFF) == 130 * One
    ensures TemperatureReadingToFahrenheit(0xFFFF) == 266 * One
    ensures UnclampedHumidity(0) == -6 * One && HumidityReadingToPercentRh(0) == 0
    ensures UnclampedHumidity(0xFFFF) == 119 * One && HumidityReadingToPercentRh(0xFFFF) == 100 * One
  {
  }

  /** A larger reading never converts to a smaller value. */
  lemma Monotone(r1: uint16, r2: uint16)
    requires r1 <= r2
    ensures TemperatureReadingToCelsius(r1) <= TemperatureReadingToCelsius(r2)
    ensures TemperatureReadingToFahrenheit(r1) <= TemperatureReadingToFahrenheit(r2)
    ensures HumidityReadingToPercentRh(r1) <= HumidityReadingToPercentRh(r2)
  {
    assert Fraction(r1) <= Fraction(r2);
  }

  /** Inside [0, 100] %RH the clamp leaves the value alone. */
  lemma ClampInactiveInRange(reading: uint16)
    requires 0 <= UnclampedHumidity(reading) <= 100 * One
    ensures HumidityReadingToPercentRh(reading) == UnclampedHumidity(reading)
    ensures HumidityReadingToPercentRh(reading) == -6 * One + 125 * Fraction(reading)
  {
  }
}
