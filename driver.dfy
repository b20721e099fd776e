/**
 * The HTU21D driver object: the cached resolution, the last readings and
 * the measurement, configuration and reset sequences it runs on the bus.
 *
 * The bus is not modelled as a device. Each read is replaced by the bytes
 * the bus had available after the request, passed in by the caller; each
 * write and each wait is appended to the ghost log `bus`, so that contracts
 * can say which commands are sent, in which order, and how long the driver
 * waits.
 */
module Driver {
  import opened Wrappers
  import opened Protocol
  import Crc8

  /** One thing the driver does on the bus or the clock. */
  datatype BusOp =
    | Transmit(address: bv8, bytes: seq<bv8>, stop: bool)  // a write transaction; stop == false keeps the bus for a read
    | Wait(ms: nat)                                        // a blocking delay
    | Request(address: bv8, count: nat)                    // a read request for count bytes

  /** Trigger a no-hold conversion, wait the conversion time, then request the 3-byte reply. */
  function Acquisition(address: bv8, trigger: Command, ms: nat): seq<BusOp> {
    [Transmit(address, [trigger.Code()], false), Wait(ms), Request(address, 3)]
  }

  /** Send the soft reset, let the sensor settle, then request the user register. */
  function ResetSequence(address: bv8): seq<BusOp> {
    [Transmit(address, [SoftReset.Code()], true), Wait(ResetDelay),
     Transmit(address, [ReadUserReg.Code()], false), Request(address, 1)]
  }

  /** The two readings, each possibly absent. */
  datatype Readings = Readings(temperature: Option<real>, humidity: Option<real>)

  /**
   * The readings a measurement cycle leaves, from the bytes available after
   * the temperature request and after the humidity request. Nothing of the
   * state before the cycle enters: a reading is present only if this cycle
   * produced it, and a humidity only together with its temperature.
   */
  function CycleReadings(tReply: seq<bv8>, hReply: seq<bv8>): (r: Readings)
    ensures r.temperature.Some? <==> Sample(tReply).Some?
    ensures r.humidity.Some? <==> Sample(tReply).Some? && Sample(hReply).Some?
    ensures r.temperature.Some? ==> -46.85 <= r.temperature.value < 128.87
    ensures r.humidity.Some? ==> 0.0 <= r.humidity.value <= 100.0
  {
    match Sample(tReply)
    case None => Readings(None, None)
    case Some(st) =>
      CelsiusRange(st, st);
      var t := Celsius(st);
      match Sample(hReply)
      case None => Readings(Some(t), None)
      case Some(srh) =>
        HumidityIsPercentage(srh, t);
        Readings(Some(t), Some(CompensatedHumidity(srh, t)))
  }

  /**
   * The humidity of a successful cycle is corrected with the temperature of
   * that same cycle, and a cycle whose temperature step fails yields no
   * reading at all, whatever the humidity reply would have been.
   */
  lemma CycleUsesItsOwnTemperature(tReply: seq<bv8>, hReply: seq<bv8>, hReply': seq<bv8>)
    ensures CycleReadings(tReply, hReply).humidity.Some? ==>
      CycleReadings(tReply, hReply).humidity.value ==
        CompensatedHumidity(Sample(hReply).value, CycleReadings(tReply, hReply').temperature.value)
    ensures Sample(tReply).None? ==>
      CycleReadings(tReply, hReply) == CycleReadings(tReply, hReply') == Readings(None, None)
  {
  }

  /** The driver for one sensor on the bus. */
  class Sensor {
    /** The sensor's bus address, fixed at construction. */
    const address: bv8
    /** The resolution last selected; it is never read back from the sensor. */
    var resolution: Resolution
    /** The temperature of the last cycle, in degrees Celsius; None after a failed cycle. */
    var temperature: Option<real>
    /** The corrected relative humidity of the last cycle, in percent; None after a failed cycle. */
    var humidity: Option<real>
    /** Everything sent to the bus or waited for, oldest first. */
    ghost var bus: seq<BusOp>

    /**
     * A stored temperature lies in the range of the conversion formula; a
     * stored humidity always comes with a temperature and is a percentage.
     */
    ghost predicate Valid()
      reads this
    {
      (temperature.Some? ==> -46.85 <= temperature.value < 128.87) &&
      (humidity.Some? ==> temperature.Some? && 0.0 <= humidity.value <= 100.0)
    }

    /** A driver for the sensor at the given address, set to the default resolution. */
    constructor (address: bv8)
      ensures Valid()
      ensures this.address == address && resolution == DefaultResolution
      ensures temperature == None && humidity == None && bus == []
    {
      this.address := address;
      resolution := DefaultResolution;
      temperature, humidity := None, None;
      bus := [];
    }

    /** A driver for the sensor at its default address. */
    constructor Default()
      ensures Valid()
      ensures address == DefaultAddress && resolution == DefaultResolution
      ensures temperature == None && humidity == None && bus == []
    {
      address := DefaultAddress;
      resolution := DefaultResolution;
      temperature, humidity := None, None;
      bus := [];
    }

    /** Copies the 3 bytes the bus has available into a frame buffer. */
    static method ReadFrame(reply: seq<bv8>) returns (data: array<bv8>)
      requires |reply| == 3
      ensures fresh(data) && data[..] == reply
    {
      data := new bv8[3];
      for i := 0 to 3
        invariant data[..i] == reply[..i]
      {
        data[i] := reply[i];
      }
    }

    /**
     * One temperature acquisition. It fails, leaving the stored temperature
     * as it was, when the bus does not have exactly 3 bytes or the checksum
     * is wrong; it never touches the humidity or the resolution.
     */
    method MeasureTemperature(reply: seq<bv8>) returns (ok: bool)
      requires Valid()
      modifies this
      ensures Valid()
      ensures ok <==> Sample(reply).Some?
      ensures temperature == if ok then Some(Celsius(Sample(reply).value)) else old(temperature)
      ensures humidity == old(humidity) && resolution == old(resolution)
      ensures bus == old(bus) + Acquisition(address, TriggerTempNoHold, TemperatureDelay(resolution))
    {
      bus := bus + Acquisition(address, TriggerTempNoHold, TemperatureDelay(resolution));
      if |reply| != 3 {
        return false;
      }
      var data := ReadFrame(reply);
      ok := Crc8.CheckCrc8(data);
      if !ok {
        return;
      }
      var st := RawWord(data[0], data[1]);
      CelsiusRange(st, st);
      temperature := Some(Celsius(st));
    }

    /**
     * One humidity acquisition, corrected with the stored temperature (the
     * only caller, Measure, has just stored it). Failure cases as for the
     * temperature; it never touches the temperature or the resolution.
     */
    method MeasureHumidity(reply: seq<bv8>) returns (ok: bool)
      requires Valid() && temperature.Some?
      modifies this
      ensures Valid()
      ensures temperature == old(temperature) && resolution == old(resolution)
      ensures ok <==> Sample(reply).Some?
      ensures humidity == if ok then Some(CompensatedHumidity(Sample(reply).value, temperature.value)) else old(humidity)
      ensures bus == old(bus) + Acquisition(address, TriggerHumNoHold, HumidityDelay(resolution))
    {
      bus := bus + Acquisition(address, TriggerHumNoHold, HumidityDelay(resolution));
      if |reply| != 3 {
        return false;
      }
      var data := ReadFrame(reply);
      ok := Crc8.CheckCrc8(data);
      if !ok {
        return;
      }
      var srh := RawWord(data[0], data[1]);
      HumidityIsPercentage(srh, temperature.value);
      humidity := Some(CompensatedHumidity(srh, temperature.value));
    }

    /**
     * A measurement cycle: clear both readings, acquire the temperature,
     * and only if that worked acquire the humidity. It succeeds exactly when
     * both acquisitions do, and what it stores depends only on this cycle.
     */
    method Measure(tReply: seq<bv8>, hReply: seq<bv8>) returns (ok: bool)
      requires Valid()
      modifies this
      ensures Valid()
      ensures ok <==> Sample(tReply).Some? && Sample(hReply).Some?
      ensures Readings(temperature, humidity) == CycleReadings(tReply, hReply)
      ensures resolution == old(resolution)
      ensures bus == old(bus) + Acquisition(address, TriggerTempNoHold, TemperatureDelay(resolution))
                    + (if Sample(tReply).Some? then Acquisition(address, TriggerHumNoHold, HumidityDelay(resolution)) else [])
    {
      temperature := None;
      humidity := None;
      ok := MeasureTemperature(tReply);
      if !ok {
        return;
      }
      ok := MeasureHumidity(hReply);
    }

    /** The temperature of the last cycle. */
    method GetTemperature() returns (t: Option<real>)
      ensures t == temperature
    {
      t := temperature;
    }

    /** The humidity of the last cycle. */
    method GetHumidity() returns (h: Option<real>)
      ensures h == humidity
    {
      h := humidity;
    }

    /**
     * Writes the user-register byte for r and records r as the resolution,
     * whether or not the sensor acknowledged the write.
     */
    method SetResolution(r: Resolution)
      requires Valid()
      modifies this
      ensures Valid()
      ensures resolution == r
      ensures temperature == old(temperature) && humidity == old(humidity)
      ensures bus == old(bus) + [Transmit(address, [WriteUserReg.Code(), ConfigByte(r)], true)]
    {
      bus := bus + [Transmit(address, [WriteUserReg.Code(), ConfigByte(r)], true)];
      resolution := r;
    }

    /** The cached resolution; the bus is not used. */
    method GetResolution() returns (r: Resolution)
      ensures r == resolution
    {
      r := resolution;
    }

    /**
     * Soft reset. It succeeds exactly when the bus has one byte available
     * and that byte is the power-on register value; only then does the
     * cached resolution return to the default. The readings are untouched.
     */
    method Reset(reply: seq<bv8>) returns (ok: bool)
      requires Valid()
      modifies this
      ensures Valid()
      ensures ok <==> reply == [ResetRegister]
      ensures resolution == if ok then DefaultResolution else old(resolution)
      ensures temperature == old(temperature) && humidity == old(humidity)
      ensures bus == old(bus) + ResetSequence(address)
    {
      bus := bus + ResetSequence(address);
      if |reply| != 1 {
        return false;
      }
      if reply[0] != ResetRegister {
        return false;
      }
      resolution := DefaultResolution;
      return true;
    }

    /** Start-up: the reset sequence (opening the bus itself is not modelled). */
    method Begin(reply: seq<bv8>) returns (ok: bool)
      requires Valid()
      modifies this
      ensures Valid()
      ensures ok <==> reply == [ResetRegister]
      ensures resolution == if ok then DefaultResolution else old(resolution)
      ensures temperature == old(temperature) && humidity == old(humidity)
      ensures bus == old(bus) + ResetSequence(address)
    {
      ok := Reset(reply);
    }
  }

  /**
   * Selecting a resolution and reading it back gives the same resolution,
   * and the read-back adds nothing to the bus.
   */
  method ResolutionRoundTrip(s: Sensor, r: Resolution) returns (got: Resolution)
    requires s.Valid()
    modifies s
    ensures got == r
    ensures s.bus == old(s.bus) + [Transmit(s.address, [WriteUserReg.Code(), ConfigByte(r)], true)]
  {
    s.SetResolution(r);
    got := s.GetResolution();
  }

  /**
   * A cycle whose temperature step fails leaves no reading behind, even
   * when an earlier cycle had stored both.
   */
  method FailedCycleAfterGoodCycle(s: Sensor, tGood: seq<bv8>, hGood: seq<bv8>, tBad: seq<bv8>, hAny: seq<bv8>)
    returns (first: bool, second: bool)
    requires s.Valid()
    requires Sample(tGood).Some? && Sample(hGood).Some? && Sample(tBad).None?
    modifies s
    ensures first && !second
    ensures s.temperature == None && s.humidity == None
  {
    first := s.Measure(tGood, hGood);
    assert s.humidity.Some?;
    second := s.Measure(tBad, hAny);
  }
}
