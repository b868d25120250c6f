/** The driver's error type: a CRC failure that says which byte pair failed,
    what was received and what CRC was computed over it, or a bus error
    passed through from the I2C implementation unchanged. */
module Errors {
  import opened Bytes

  /** Which pair of data bytes failed CRC validation. */
  datatype CrcFailureReason =
    | SerialNumberFirstPair
    | SerialNumberSecondPair
    | TemperatureBytes
    | HumidityBytes

  /** `Error<I>`, generic in the bus's own error type. */
  datatype Error<E> =
    | CrcValidationFailed(reason: CrcFailureReason, receivedBytes: seq<Byte>, calculatedCrc: Byte)
    | I2c(busError: E)
}
