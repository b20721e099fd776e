/**
 * The fixed vocabulary of the HTU21D protocol: resolutions, command codes,
 * the default address, the conversion-time tables, and the pure decoding
 * and encoding steps the driver applies to the bytes it exchanges.
 */
module Protocol {
  import opened Wrappers
  import Crc8

  /** Measurement resolution: bits of relative humidity and of temperature. */
  datatype Resolution = RH12_T14 | RH8_T12 | RH10_T13 | RH11_T11 {

    /** The enumerator's numeric value. */
    function Code(): bv8 {
      match this
      case RH12_T14 => 0
      case RH8_T12 => 1
      case RH10_T13 => 2
      case RH11_T11 => 3
    }

    /** Bits of the humidity conversion at this resolution. */
    function HumidityBits(): nat {
      match this
      case RH12_T14 => 12
      case RH8_T12 => 8
      case RH10_T13 => 10
      case RH11_T11 => 11
    }

    /** Bits of the temperature conversion at this resolution. */
    function TemperatureBits(): nat {
      match this
      case RH12_T14 => 14
      case RH8_T12 => 12
      case RH10_T13 => 13
      case RH11_T11 => 11
    }
  }

  /** The resolution after power-on, after a soft reset and in a fresh driver. */
  const DefaultResolution: Resolution := RH12_T14

  /** The resolution whose enumerator value is the two-bit code c. */
  function FromCode(c: bv8): (r: Resolution)
    requires c < 4
    ensures r.Code() == c
  {
    if c == 0 then RH12_T14 else if c == 1 then RH8_T12 else if c == 2 then RH10_T13 else RH11_T11
  }

  /** The enumeration has exactly four values, numbered 0 to 3, so each fits in two bits. */
  lemma CodesAreTwoBits(r: Resolution)
    ensures r.Code() < 4
    ensures FromCode(r.Code()) == r
  {
  }

  /** Commands the driver sends (the hold-master triggers are declared by the source but never sent). */
  datatype Command = TriggerTempNoHold | TriggerHumNoHold | WriteUserReg | ReadUserReg | SoftReset {

    function Code(): bv8 {
      match this
      case TriggerTempNoHold => 0xF3
      case TriggerHumNoHold => 0xF5
      case WriteUserReg => 0xE6
      case ReadUserReg => 0xE7
      case SoftReset => 0xFE
    }
  }

  /** No two commands share a code, so the sensor can tell every request apart. */
  lemma CommandCodesDistinct(a: Command, b: Command)
    ensures a.Code() == b.Code() <==> a == b
  {
  }

  /** The sensor's fixed bus address. */
  const DefaultAddress: bv8 := 0x40

  /** The value of the user register after a soft reset: resolution code 0, heater off, reserved bit 1 set. */
  const ResetRegister: bv8 := 0x02

  /** Wait in milliseconds after the soft-reset command. */
  const ResetDelay: nat := 15

  /** Milliseconds to wait for a temperature conversion, indexed by resolution code. */
  const TemperatureDelays: seq<nat> := [50, 13, 25, 7]

  /** Milliseconds to wait for a humidity conversion, indexed by resolution code. */
  const HumidityDelays: seq<nat> := [16, 3, 5, 8]

  /** The table entry the driver waits for before reading a temperature. */
  function TemperatureDelay(r: Resolution): (ms: nat)
    ensures ms in TemperatureDelays
  {
    TemperatureDelays[r.Code()]
  }

  /** The table entry the driver waits for before reading a humidity. */
  function HumidityDelay(r: Resolution): (ms: nat)
    ensures ms in HumidityDelays
  {
    HumidityDelays[r.Code()]
  }

  /**
   * The tables are ordered as the conversions are: a finer conversion
   * never gets a shorter wait than a coarser one, for either quantity.
   */
  lemma DelaysFollowResolution(a: Resolution, b: Resolution)
    ensures a.TemperatureBits() < b.TemperatureBits() <==> TemperatureDelay(a) < TemperatureDelay(b)
    ensures a.HumidityBits() < b.HumidityBits() <==> HumidityDelay(a) < HumidityDelay(b)
  {
  }

  /** An unsigned 16-bit value. */
  type Word = w: nat | w < 0x1_0000

  /** The status bits occupy the two low bits of the second data byte. */
  const StatusMask: bv8 := 0x03

  /**
   * The 16-bit raw sample: the first byte is the high byte, the second the
   * low byte with its two status bits cleared.
   */
  function RawWord(msb: bv8, lsb: bv8): (w: Word)
    ensures w % 4 == 0 && w <= 0xFFFC
  {
    msb as int * 256 + (lsb & 0xFC) as int
  }

  /** The raw word splits back into the high byte and the low byte without its status bits. */
  lemma RawWordSplits(msb: bv8, lsb: bv8)
    ensures RawWord(msb, lsb) / 256 == msb as int
    ensures RawWord(msb, lsb) % 256 == (lsb & 0xFC) as int
    ensures (lsb & 0xFC) & StatusMask == 0
  {
  }

  /**
   * Two replies give the same raw word exactly when they agree on the high
   * byte and on the low byte outside the status bits.
   */
  lemma RawWordIgnoresStatus(msb: bv8, lsb: bv8, msb': bv8, lsb': bv8)
    ensures RawWord(msb, lsb) == RawWord(msb', lsb') <==> msb == msb' && lsb & 0xFC == lsb' & 0xFC
  {
    RawWordSplits(msb, lsb);
    RawWordSplits(msb', lsb');
    var a, a' := lsb & 0xFC, lsb' & 0xFC;
    assert a == a' <==> a as int == a' as int;
    assert msb == msb' <==> msb as int == msb' as int;
  }

  /**
   * The user-register byte for a resolution: code bit 0 in register bit 0,
   * code bit 1 in register bit 7, reserved bit 1 set, all other bits clear.
   */
  function ConfigByte(r: Resolution): (b: bv8)
    ensures b & 0x01 == r.Code() & 0x01
    ensures (b & 0x80 != 0) == (r.Code() & 0x02 != 0)
    ensures b & 0x7E == 0x02
  {
    (r.Code() & 0x01) | ((r.Code() & 0x02) << 6) | 0x02
  }

  /** The resolution a user-register byte selects, read from bits 7 and 0. */
  function ResolutionOfRegister(b: bv8): Resolution {
    FromCode((b & 0x01) | ((b >> 6) & 0x02))
  }

  /** Reading back the byte written for r selects r again. */
  lemma ConfigByteRoundTrip(r: Resolution)
    ensures ResolutionOfRegister(ConfigByte(r)) == r
  {
  }

  /** Writing the resolution bits of any register value back produces that value's resolution bits with bit 1 set. */
  lemma RegisterRoundTrip(b: bv8)
    ensures ConfigByte(ResolutionOfRegister(b)) == (b & 0x81) | 0x02
  {
  }

  /** Distinct resolutions are written as distinct bytes. */
  lemma ConfigByteInjective(a: Resolution, b: Resolution)
    ensures ConfigByte(a) == ConfigByte(b) <==> a == b
  {
  }

  /**
   * The default resolution has code 0 and is written as exactly the byte a
   * freshly reset sensor reports, and it is the only resolution written so.
   */
  lemma DefaultConfigIsResetRegister(r: Resolution)
    ensures DefaultResolution.Code() == 0
    ensures ConfigByte(r) == ResetRegister <==> r == DefaultResolution
  {
  }

  /** The raw word a 3-byte reply carries, when it is exactly 3 bytes long and its checksum is right. */
  function Sample(reply: seq<bv8>): Option<Word> {
    if |reply| == 3 && reply[2] == Crc8.Crc(reply[..2]) then Some(RawWord(reply[0], reply[1])) else None
  }

  /** A reply with a correct checksum is spoiled by flipping any one of its 16 data bits. */
  lemma SampleRejectsBitFlip(reply: seq<bv8>, k: nat)
    requires Sample(reply).Some?
    requires k < 16
    ensures Sample(Crc8.FlipBit(reply, k)).None?
  {
    Crc8.CorruptedFrameRejected(reply, k);
  }

  // Physical conversions, in exact real arithmetic.

  /** The temperature coefficient of the humidity reading, in %RH per degree Celsius. */
  const TempCoefficient: real := -0.15

  /** Degrees Celsius for a raw temperature word. */
  function Celsius(raw: Word): real {
    -46.85 + 175.72 * (raw as real) / 65536.0
  }

  /** Uncompensated relative humidity in percent for a raw humidity word. */
  function RelativeHumidity(raw: Word): real {
    -6.0 + 125.0 * (raw as real) / 65536.0
  }

  /** x limited to the closed interval from lo to hi. */
  function Clamp(x: real, lo: real, hi: real): (r: real)
    requires lo <= hi
    ensures lo <= r <= hi
    ensures lo <= x <= hi ==> r == x
    ensures x < lo ==> r == lo
    ensures x > hi ==> r == hi
  {
    if x < lo then lo else if x > hi then hi else x
  }

  /** Relative humidity corrected for the temperature measured in the same cycle, limited to 0..100 %. */
  function CompensatedHumidity(raw: Word, celsius: real): real {
    Clamp(RelativeHumidity(raw) + (25.0 - celsius) * TempCoefficient, 0.0, 100.0)
  }

  /** Every raw word converts to a temperature between -46.85 and 128.87 degrees, increasing with the word. */
  lemma CelsiusRange(raw: Word, raw': Word)
    ensures -46.85 <= Celsius(raw) < 128.87
    ensures raw <= raw' ==> Celsius(raw) <= Celsius(raw')
  {
  }

  /** The endpoints of the temperature formula. */
  lemma CelsiusEndpoints()
    ensures Celsius(0x0000) == -46.85
    ensures 128.85 < Celsius(0xFFFC) < 128.86
  {
  }

  /** The reported humidity is always a percentage, and lies exactly on a bound when the corrected value is outside. */
  lemma HumidityIsPercentage(raw: Word, celsius: real)
    ensures 0.0 <= CompensatedHumidity(raw, celsius) <= 100.0
    ensures RelativeHumidity(raw) + (25.0 - celsius) * TempCoefficient < 0.0 ==> CompensatedHumidity(raw, celsius) == 0.0
    ensures RelativeHumidity(raw) + (25.0 - celsius) * TempCoefficient > 100.0 ==> CompensatedHumidity(raw, celsius) == 100.0
  {
  }

  /** At 25 degrees the correction vanishes; above it the reading can only rise, below it only fall. */
  lemma CompensationDirection(raw: Word, celsius: real)
    ensures celsius == 25.0 ==> CompensatedHumidity(raw, celsius) == Clamp(RelativeHumidity(raw), 0.0, 100.0)
    ensures celsius > 25.0 ==> CompensatedHumidity(raw, celsius) >= Clamp(RelativeHumidity(raw), 0.0, 100.0)
    ensures celsius < 25.0 ==> CompensatedHumidity(raw, celsius) <= Clamp(RelativeHumidity(raw), 0.0, 100.0)
  {
  }
}
