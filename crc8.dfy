/**
 * The HTU21D checksum: an 8-bit CRC with generator polynomial
 * x^8 + x^5 + x^4 + 1, initial value 0, processed most significant bit
 * first, without reflection and without a final XOR.
 */
module Crc8 {

  /** The generator polynomial with its implicit x^8 term dropped. */
  const Polynomial: bv8 := 0x31

  /**
   * One clock of the shift register: shift left with 8-bit truncation and
   * fold the polynomial in when the bit shifted out was set.
   */
  function Step(crc: bv8): bv8 {
    if crc & 0x80 != 0 then (crc << 1) ^ Polynomial else crc << 1
  }

  /** n clocks of the shift register. */
  function Steps(crc: bv8, n: nat): bv8 {
    if n == 0 then crc else Step(Steps(crc, n - 1))
  }

  /** Feeds one message byte into the register: XOR it in, then clock eight times. */
  function UpdateByte(crc: bv8, b: bv8): bv8 {
    Steps(crc ^ b, 8)
  }

  /** The checksum of a whole message, bytes taken in transmission order. */
  function Crc(s: seq<bv8>): bv8 {
    if s == [] then 0 else UpdateByte(Crc(s[..|s| - 1]), s[|s| - 1])
  }

  /**
   * The driver's validator: a 3-byte frame is accepted exactly when its
   * third byte is the checksum of the first two. The register is an 8-bit
   * variable updated bit by bit in two nested loops.
   */
  method CheckCrc8(data: array<bv8>) returns (ok: bool)
    requires data.Length == 3
    ensures ok <==> data[2] == Crc(data[..2])
  {
    var crc: bv8 := 0;
    for i := 0 to 2
      invariant crc == Crc(data[..i])
    {
      ghost var before := crc;
      crc := crc ^ data[i];
      var b := 7;
      while b >= 0
        invariant -1 <= b <= 7
        invariant crc == Steps(before ^ data[i], 7 - b)
      {
        if crc & 0x80 != 0 {
          crc := (crc << 1) ^ 0x31;
        } else {
          crc := crc << 1;
        }
        b := b - 1;
      }
      assert data[..i + 1][..i] == data[..i];
    }
    assert data[..2] == data[..2][..2];
    ok := crc == data[2];
  }

  /** Clocking is linear over GF(2): XOR commutes with the shift register. */
  lemma StepLinear(x: bv8, y: bv8)
    ensures Step(x ^ y) == Step(x) ^ Step(y)
  {
    var hx, hy := x & 0x80 != 0, y & 0x80 != 0;
    assert ((x ^ y) & 0x80 != 0) == (hx != hy);
    assert (x ^ y) << 1 == (x << 1) ^ (y << 1);
    if hx && hy {
      assert Step(x) ^ Step(y) == (x << 1) ^ (y << 1);
    } else if hx {
      assert Step(x) ^ Step(y) == ((x << 1) ^ (y << 1)) ^ Polynomial;
    } else if hy {
      assert Step(x) ^ Step(y) == ((x << 1) ^ (y << 1)) ^ Polynomial;
    }
  }

  /** The low bit of the polynomial is 1, so a clock never turns a non-zero register into zero. */
  lemma StepZero(x: bv8)
    ensures Step(x) == 0 <==> x == 0
  {
  }

  /** However often it is clocked, the register is zero exactly when it started at zero. */
  lemma {:induction false} StepsZero(x: bv8, n: nat)
    ensures Steps(x, n) == 0 <==> x == 0
  {
    if n > 0 {
      StepsZero(x, n - 1);
      StepZero(Steps(x, n - 1));
    }
  }

  /** Any number of clocks is linear over GF(2). */
  lemma {:induction false} StepsLinear(x: bv8, y: bv8, n: nat)
    ensures Steps(x ^ y, n) == Steps(x, n) ^ Steps(y, n)
  {
    if n > 0 {
      StepsLinear(x, y, n - 1);
      StepLinear(Steps(x, n - 1), Steps(y, n - 1));
    }
  }

  /** Clocking loses no information: different registers stay different. */
  lemma StepsInjective(x: bv8, y: bv8, n: nat)
    ensures Steps(x, n) == Steps(y, n) <==> x == y
  {
    StepsLinear(x, y, n);
    StepsZero(x ^ y, n);
    assert Steps(x, n) ^ Steps(y, n) == 0 <==> Steps(x, n) == Steps(y, n);
    assert x ^ y == 0 <==> x == y;
  }

  /** Clocking a register that differs in either the old state or the new byte gives a different result. */
  lemma XorStepsInjective(c: bv8, a: bv8, d: bv8, b: bv8, n: nat)
    requires c == d || a == b
    ensures Steps(c ^ a, n) == Steps(d ^ b, n) <==> c == d && a == b
  {
    var x, y := c ^ a, d ^ b;
    assert x == y <==> c == d && a == b by {
      if c == d && a != b {
        assert x ^ y == a ^ b;
      } else if c != d {
        assert x ^ y == c ^ d;
      }
    }
    StepsInjective(x, y, n);
  }

  /**
   * Feeding one byte is injective in the byte for a fixed register, and in
   * the register for a fixed byte.
   */
  lemma UpdateByteInjective(c: bv8, a: bv8, d: bv8, b: bv8)
    requires c == d || a == b
    ensures UpdateByte(c, a) == UpdateByte(d, b) <==> c == d && a == b
  {
    XorStepsInjective(c, a, d, b, 8);
  }

  /** Two messages of equal length that differ in exactly one byte have different checksums. */
  lemma {:induction false} OneByteChangeDetected(s: seq<bv8>, t: seq<bv8>, k: nat)
    requires |s| == |t| && k < |s| && s[k] != t[k]
    requires forall i :: 0 <= i < |s| && i != k ==> s[i] == t[i]
    ensures Crc(s) != Crc(t)
  {
    var n := |s| - 1;
    if n == k {
      assert s[..n] == t[..n];
    } else {
      OneByteChangeDetected(s[..n], t[..n], k);
    }
    UpdateByteInjective(Crc(s[..n]), s[n], Crc(t[..n]), t[n]);
  }

  /** The mask of bit k of a message in transmission order (bit 0 is the top bit of the first byte). */
  function BitMask(k: nat): (m: bv8)
    ensures m != 0
  {
    (0x80 as bv8) >> (k % 8)
  }

  /** The message with bit k, counted in transmission order, inverted. */
  function FlipBit(s: seq<bv8>, k: nat): (r: seq<bv8>)
    requires k < 8 * |s|
    ensures |r| == |s|
    ensures r[k / 8] != s[k / 8]
    ensures forall i :: 0 <= i < |s| && i != k / 8 ==> r[i] == s[i]
  {
    s[k / 8 := s[k / 8] ^ BitMask(k)]
  }

  /**
   * A frame whose checksum byte is right is rejected by the validator once
   * any one of its 16 data bits is inverted in transit.
   */
  lemma CorruptedFrameRejected(frame: seq<bv8>, k: nat)
    requires |frame| == 3 && frame[2] == Crc(frame[..2])
    requires k < 16
    ensures FlipBit(frame, k)[2] == frame[2]
    ensures FlipBit(frame, k)[2] != Crc(FlipBit(frame, k)[..2])
  {
    var bad := FlipBit(frame, k);
    OneByteChangeDetected(frame[..2], bad[..2], k / 8);
  }

  /** The worked examples of the sensor's datasheet. */
  lemma DatasheetExamples()
    ensures Crc([0xDC]) == 0x79
    ensures Crc([0x68, 0x3A]) == 0x7C
    ensures Crc([0x4E, 0x85]) == 0x6B
  {
    assert [0xDC][..0] == [];
    assert UpdateByte(0, 0xDC) == 0x79;
    assert [0x68, 0x3A][..1] == [0x68] && [0x68][..0] == [];
    assert UpdateByte(0, 0x68) == 0x02;
    assert UpdateByte(0x02, 0x3A) == 0x7C;
    assert [0x4E, 0x85][..1] == [0x4E] && [0x4E][..0] == [];
    assert UpdateByte(0, 0x4E) == 0x22;
    assert UpdateByte(0x22, 0x85) == 0x6B;
  }
}
