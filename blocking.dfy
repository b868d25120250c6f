/** blocking.rs: the blocking SHT4x session.

    The I2C bus and the delay provider are host capabilities; here they are
    a scripted bus and a delay object that record, on one shared timeline,
    every transaction and every wait in the order they happen. What the bus
    answers is an oracle indexed by transaction number. */
module Blocking {
  import opened Bytes
  import opened Wrappers
  import opened Errors
  import opened Common

  /** The sensor's default seven-bit I2C address. */
  const DefaultAddress: Byte := 0x44

  /** What the session does on the bus and with the delay provider. */
  datatype Event =
    | Write(address: Byte, bytes: seq<Byte>)
    | Read(address: Byte)
    | DelayUs(us: uint32)
    | DelayMs(ms: uint32)

  /** The events of the bus and of the delay provider, in order. */
  class Timeline {
    var events: seq<Event>

    constructor ()
      ensures events == []
    {
      events := [];
    }

    method Record(e: Event)
      modifies this
      ensures events == old(events) + [e]
    {
      events := events + [e];
    }
  }

  /** An I2C bus whose answers are given in advance: the n-th transaction,
      counting from 0, fails with `writeOutcome(n)` when it is a write that
      the oracle rejects, and otherwise delivers `readOutcome(n)` when it
      is a read. Each transaction stands for a complete, STOP-terminated I2C
      transaction; the bus conditions themselves are not modelled. */
  class I2cBus<E> {
    const timeline: Timeline
    const writeOutcome: nat -> Option<E>
    const readOutcome: nat -> Result<Frame, E>
    var transactions: nat

    constructor (timeline: Timeline, writeOutcome: nat -> Option<E>, readOutcome: nat -> Result<Frame, E>)
      ensures this.timeline == timeline && transactions == 0
      ensures this.writeOutcome == writeOutcome && this.readOutcome == readOutcome
    {
      this.timeline := timeline;
      this.writeOutcome := writeOutcome;
      this.readOutcome := readOutcome;
      transactions := 0;
    }

    /** `I2c::write`. */
    method Write(address: Byte, bytes: seq<Byte>) returns (r: Result<(), E>)
      modifies this, timeline
      ensures transactions == old(transactions) + 1
      ensures timeline.events == old(timeline.events) + [Event.Write(address, bytes)]
      ensures r == match writeOutcome(old(transactions)) case Some(e) => Err(e) case None => Ok(())
    {
      timeline.Record(Event.Write(address, bytes));
      r := match writeOutcome(transactions) case Some(e) => Err(e) case None => Ok(());
      transactions := transactions + 1;
    }

    /** `I2c::read` of six bytes into `buffer`, which is filled only when
        the read succeeds. */
    method Read(address: Byte, buffer: array<Byte>) returns (r: Result<(), E>)
      requires buffer.Length == 6
      modifies this, timeline, buffer
      ensures transactions == old(transactions) + 1
      ensures timeline.events == old(timeline.events) + [Event.Read(address)]
      ensures match readOutcome(old(transactions))
        case Ok(frame) => r == Ok(()) && buffer[..] == frame
        case Err(e) => r == Err(e) && buffer[..] == old(buffer[..])
    {
      timeline.Record(Event.Read(address));
      match readOutcome(transactions) {
        case Ok(frame) =>
          for i := 0 to 6
            invariant buffer[..i] == frame[..i]
            modifies buffer
          {
            buffer[i] := frame[i];
          }
          r := Ok(());
        case Err(e) =>
          r := Err(e);
      }
      transactions := transactions + 1;
    }
  }

  /** `DelayNs`: waits are recorded on the timeline they share with a bus. */
  class Delay {
    const timeline: Timeline

    constructor (timeline: Timeline)
      ensures this.timeline == timeline
    {
      this.timeline := timeline;
    }

    method DelayUs(us: uint32)
      modifies timeline
      ensures timeline.events == old(timeline.events) + [Event.DelayUs(us)]
    {
      timeline.Record(Event.DelayUs(us));
    }

    method DelayMs(ms: uint32)
      modifies timeline
      ensures timeline.events == old(timeline.events) + [Event.DelayMs(ms)]
    {
      timeline.Record(Event.DelayMs(ms));
    }
  }

  /** `SHT40`: a sensor session owning its bus and a six-byte response
      buffer reused by every read, with a public address and configuration
      that no operation changes. */
  class Sht40<E> {
    const i2c: I2cBus<E>
    const readBuffer: array<Byte>
    var address: Byte
    var config: Config

    ghost predicate Valid() {
      readBuffer.Length == 6
    }

    /** `SHT40::new`: the given bus and configuration, the default address
        and a zeroed buffer. */
    constructor (i2c: I2cBus<E>, config: Config)
      ensures Valid() && fresh(readBuffer)
      ensures this.i2c == i2c && this.config == config && address == DefaultAddress
      ensures readBuffer[..] == [0, 0, 0, 0, 0, 0]
    {
      this.i2c := i2c;
      this.config := config;
      address := DefaultAddress;
      readBuffer := new Byte[6](_ => 0);
    }

    /** `SHT40::destroy`: hand back the bus. */
    method Destroy() returns (bus: I2cBus<E>)
      ensures bus == i2c
    {
      bus := i2c;
    }

    /** `SHT40::serial_number`: write the serial-number command, then read
        the six-byte response with no delay in between, and decode it. A bus
        error on the write ends the call before the read. */
    method SerialNumber() returns (r: Result<uint32, Error<E>>)
      requires Valid()
      modifies i2c, i2c.timeline, readBuffer
      ensures address == old(address) && config == old(config)
      ensures i2c.writeOutcome(old(i2c.transactions)).Some? ==>
        r == Err(I2c(i2c.writeOutcome(old(i2c.transactions)).value)) &&
        i2c.transactions == old(i2c.transactions) + 1 &&
        i2c.timeline.events == old(i2c.timeline.events) + [Event.Write(address, [ReadSerialNumberCommand])] &&
        readBuffer[..] == old(readBuffer[..])
      ensures i2c.writeOutcome(old(i2c.transactions)).None? ==>
        i2c.transactions == old(i2c.transactions) + 2 &&
        i2c.timeline.events == old(i2c.timeline.events) + [Event.Write(address, [ReadSerialNumberCommand]), Event.Read(address)]
      ensures i2c.writeOutcome(old(i2c.transactions)).None? && i2c.readOutcome(old(i2c.transactions) + 1).Err? ==>
        r == Err(I2c(i2c.readOutcome(old(i2c.transactions) + 1).error)) &&
        readBuffer[..] == old(readBuffer[..])
      ensures i2c.writeOutcome(old(i2c.transactions)).None? && i2c.readOutcome(old(i2c.transactions) + 1).Ok? ==>
        readBuffer[..] == i2c.readOutcome(old(i2c.transactions) + 1).value &&
        r == SerialNumberFromReadBytes(Unvalidated(i2c.readOutcome(old(i2c.transactions) + 1).value))
    {
      var written := i2c.Write(address, [ReadSerialNumberCommand]);
      if written.Err? {
        return Err(I2c(written.error));
      }
      var read := i2c.Read(address, readBuffer);
      if read.Err? {
        return Err(I2c(read.error));
      }
      r := SerialNumberFromReadBytes(Unvalidated(readBuffer[..]));
    }

    /** `SHT40::soft_reset`: write the reset command, then wait 1 ms; no
        response is read. */
    method SoftReset(delay: Delay) returns (r: Result<(), Error<E>>)
      requires delay.timeline == i2c.timeline
      modifies i2c, i2c.timeline
      ensures address == old(address) && config == old(config)
      ensures i2c.transactions == old(i2c.transactions) + 1
      ensures var before := old(i2c.timeline.events);
        var write := Event.Write(address, [SoftResetCommand]);
        match i2c.writeOutcome(old(i2c.transactions))
        case Some(e) => r == Err(I2c(e)) && i2c.timeline.events == before + [write]
        case None => r == Ok(()) && i2c.timeline.events == before + [write, Event.DelayMs(1)]
    {
      var written := i2c.Write(address, [SoftResetCommand]);
      if written.Err? {
        return Err(I2c(written.error));
      }
      delay.DelayMs(1);
      r := Ok(());
    }

    /** `SHT40::measure`: a measurement with the stored reading and delay
        modes. */
    method Measure(delay: Delay) returns (r: Result<Measurement, Error<E>>)
      requires Valid() && delay.timeline == i2c.timeline
      modifies i2c, i2c.timeline, readBuffer
      ensures address == old(address) && config == old(config)
      ensures i2c.writeOutcome(old(i2c.transactions)).Some? ==>
        r == Err(I2c(i2c.writeOutcome(old(i2c.transactions)).value)) &&
        i2c.transactions == old(i2c.transactions) + 1 &&
        i2c.timeline.events == old(i2c.timeline.events) + [Event.Write(address, [config.readingMode.CommandByte()])] &&
        readBuffer[..] == old(readBuffer[..])
      ensures i2c.writeOutcome(old(i2c.transactions)).None? ==>
        i2c.transactions == old(i2c.transactions) + 2 &&
        i2c.timeline.events == old(i2c.timeline.events) +
          [Event.Write(address, [config.readingMode.CommandByte()]), Event.DelayUs(config.delayMode.UsForReadingMode(config.readingMode)), Event.Read(address)]
      ensures i2c.writeOutcome(old(i2c.transactions)).None? && i2c.readOutcome(old(i2c.transactions) + 1).Err? ==>
        r == Err(I2c(i2c.readOutcome(old(i2c.transactions) + 1).error)) &&
        readBuffer[..] == old(readBuffer[..])
      ensures i2c.writeOutcome(old(i2c.transactions)).None? && i2c.readOutcome(old(i2c.transactions) + 1).Ok? ==>
        readBuffer[..] == i2c.readOutcome(old(i2c.transactions) + 1).value &&
        r == MeasurementFromReadBytes(Unvalidated(i2c.readOutcome(old(i2c.transactions) + 1).value))
    {
      r := MeasureWithSettings(delay, config.readingMode, config.delayMode);
    }

    /** `SHT40::measure_with_settings`: write the mode's command byte, wait
        the mode's delay, read the six-byte response and decode it. A bus
        error on the write ends the call before the wait and the read. */
    method MeasureWithSettings(delay: Delay, readingMode: ReadingMode, delayMode: DelayMode)
      returns (r: Result<Measurement, Error<E>>)
      requires Valid() && delay.timeline == i2c.timeline
      modifies i2c, i2c.timeline, readBuffer
      ensures address == old(address) && config == old(config)
      ensures i2c.writeOutcome(old(i2c.transactions)).Some? ==>
        r == Err(I2c(i2c.writeOutcome(old(i2c.transactions)).value)) &&
        i2c.transactions == old(i2c.transactions) + 1 &&
        i2c.timeline.events == old(i2c.timeline.events) + [Event.Write(address, [readingMode.CommandByte()])] &&
        readBuffer[..] == old(readBuffer[..])
      ensures i2c.writeOutcome(old(i2c.transactions)).None? ==>
        i2c.transactions == old(i2c.transactions) + 2 &&
        i2c.timeline.events == old(i2c.timeline.events) +
          [Event.Write(address, [readingMode.CommandByte()]), Event.DelayUs(delayMode.UsForReadingMode(readingMode)), Event.Read(address)]
      ensures i2c.writeOutcome(old(i2c.transactions)).None? && i2c.readOutcome(old(i2c.transactions) + 1).Err? ==>
        r == Err(I2c(i2c.readOutcome(old(i2c.transactions) + 1).error)) &&
        readBuffer[..] == old(readBuffer[..])
      ensures i2c.writeOutcome(old(i2c.transactions)).None? && i2c.readOutcome(old(i2c.transactions) + 1).Ok? ==>
        readBuffer[..] == i2c.readOutcome(old(i2c.transactions) + 1).value &&
        r == MeasurementFromReadBytes(Unvalidated(i2c.readOutcome(old(i2c.transactions) + 1).value))
    {
      var command := readingMode.CommandByte();
      var us := delayMode.UsForReadingMode(readingMode);
      var written := i2c.Write(address, [command]);
      if written.Err? {
        return Err(I2c(written.error));
      }
      delay.DelayUs(us);
      var read := i2c.Read(address, readBuffer);
      if read.Err? {
        return Err(I2c(read.error));
      }
      r := MeasurementFromReadBytes(Unvalidated(readBuffer[..]));
    }
  }

  /** Bus answers that deliver `serialFrame` to transaction 1 and
      `measurementFrame` to transaction 3. */
  function ExampleReply<E>(serialFrame: Frame, measurementFrame: Frame, failure: E, n: nat): Result<Frame, E> {
    if n == 1 then Ok(serialFrame) else if n == 3 then Ok(measurementFrame) else Err(failure)
  }

  /** The events of the serial-number read followed by those of the
      measurement make up the documentation example's five events. */
  lemma ExampleEventsJoin(serialEvents: seq<Event>, measureEvents: seq<Event>)
    requires serialEvents == [Write(0x44, [0x89]), Read(0x44)]
    requires measureEvents == [Write(0x44, [0xFD]), DelayUs(6_900), Read(0x44)]
    ensures serialEvents + measureEvents
         == [Write(0x44, [0x89]), Read(0x44), Write(0x44, [0xFD]), DelayUs(6_900), Read(0x44)]
  {
  }

  /** The driver's documentation example, for any two response frames:
      with the default configuration at address 0x44, a bus that accepts
      both writes and answers the reads with `serialFrame` and
      `measurementFrame` sees exactly the transactions and the wait the
      example expects, and the session decodes those two frames. */
  method ExampleSession<E>(serialFrame: Frame, measurementFrame: Frame, failure: E)
    returns (serial: Result<uint32, Error<E>>, measurement: Result<Measurement, Error<E>>, ghost events: seq<Event>)
    ensures serial == SerialNumberFromReadBytes(Unvalidated(serialFrame))
    ensures measurement == MeasurementFromReadBytes(Unvalidated(measurementFrame))
    ensures events == [Write(0x44, [0x89]), Read(0x44), Write(0x44, [0xFD]), DelayUs(6_900), Read(0x44)]
  {
    var timeline := new Timeline();
    var bus := new I2cBus(timeline, n => None, n => ExampleReply(serialFrame, measurementFrame, failure, n));
    var sensor := new Sht40(bus, Config.Default());
    var delay := new Delay(timeline);
    assert bus.writeOutcome(0) == None && bus.readOutcome(1) == Ok(serialFrame);
    serial := sensor.SerialNumber();
    assert bus.transactions == 2 && timeline.events == [Write(0x44, [0x89]), Read(0x44)];
    assert bus.writeOutcome(2) == None && bus.readOutcome(3) == Ok(measurementFrame);
    assert sensor.address == 0x44 && sensor.config == Config(HighPrecision, Typical);
    assert HighPrecision.CommandByte() == 0xFD && Typical.UsForReadingMode(HighPrecision) == 6_900;
    ghost var before := timeline.events;
    measurement := sensor.Measure(delay);
    events := timeline.events;
    ExampleEventsJoin(before, [Write(0x44, [0xFD]), DelayUs(6_900), Read(0x44)]);
  }

  /** The documentation example itself: its frames decode to serial number
      0x01020304 and to raw temperature 0x1234 and raw humidity 0x5678. */
  method DocumentationExample<E>(failure: E)
    returns (serial: Result<uint32, Error<E>>, measurement: Result<Measurement, Error<E>>, ghost events: seq<Event>)
    ensures serial == Ok(0x0102_0304)
    ensures measurement == Ok(Measurement(0x1234, 0x5678))
    ensures events == [Write(0x44, [0x89]), Read(0x44), Write(0x44, [0xFD]), DelayUs(6_900), Read(0x44)]
  {
    DocumentationFrames<E>();
    serial, measurement, events := ExampleSession([0x01, 0x02, 0x17, 0x03, 0x04, 0x68],
      [0x12, 0x34, 0x37, 0x56, 0x78, 0x7D], failure);
  }
}
