/** The five-byte motion burst, as the firmware reads it (firmware/src/drivers/sensor_1855.cpp:94-128)
    and as the capture tool prints it (captures/sensor_1855_dasm.py:193-194, 357-364). */
module Motion {

  type Byte = b: nat | b < 256

  function Int16(x: int): int { (x + 0x8000) % 0x1_0000 - 0x8000 }

  lemma Int16Small(x: int) requires -0x8000 <= x < 0x8000 ensures Int16(x) == x {}

  /** A burst: header, status, low bytes of X and Y, and both high nibbles. */
  datatype Burst = Burst(hdr: Byte, status: Byte, xLow: Byte, yLow: Byte, high: Byte)

  function Sign12(v: nat): int { if v / 0x800 % 2 == 1 then v - 0x1000 else v }

  /** Sign extension by filling the top four bits of a 16-bit word. */
  function Extend(raw: nat): (v: int)
    requires raw < 0x1000
    ensures v == Sign12(raw) && -2048 <= v < 2048
  {
    Int16(if raw / 0x800 % 2 == 1 then raw + 0xF000 else raw)
  }

  function Join12(nibble: nat, low: Byte): (v: nat)
    requires nibble < 16
    ensures v < 0x1000
  {
    nibble * 256 + low
  }

  /** read_motion: nothing unless the motion flag of the status byte is set. */
  function ReadMotion(b: Burst): (r: (int, int))
    ensures -2048 <= r.0 < 2048 && -2048 <= r.1 < 2048
  {
    if b.status / 0x80 == 0 then (0, 0)
    else (Extend(Join12(b.high / 16, b.xLow)), Extend(Join12(b.high % 16, b.yLow)))
  }

  /** decode_poll: the same fields, whatever the status. */
  function DecodePoll(b: Burst): (int, int) {
    (Sign12(Join12(b.high / 16, b.xLow)), Sign12(Join12(b.high % 16, b.yLow)))
  }

  /** The burst a sensor would send for a movement. */
  function Encode(x: int, y: int): Burst
    requires -2048 <= x < 2048 && -2048 <= y < 2048
  {
    var u, v := x % 0x1000, y % 0x1000;
    Burst(0, 0x80, u % 256, v % 256, u / 256 * 16 + v / 256)
  }

  /** Every signed 12-bit movement survives the encoding, in the firmware and in the tool alike. */
  lemma MotionRoundTrip(x: int, y: int)
    requires -2048 <= x < 2048 && -2048 <= y < 2048
    ensures ReadMotion(Encode(x, y)) == (x, y) == DecodePoll(Encode(x, y))
  {
    var e := Encode(x, y);
    Nibbles(x % 0x1000 / 256, y % 0x1000 / 256);
    assert e.high / 16 == x % 0x1000 / 256 && e.high % 16 == y % 0x1000 / 256;
    Axis(x);
    Axis(y);
    assert DecodePoll(e) == (x, y);
  }

  lemma Nibbles(a: nat, b: nat)
    requires a < 16 && b < 16
    ensures (a * 16 + b) / 16 == a && (a * 16 + b) % 16 == b
  {
  }

  lemma Axis(x: int)
    requires -2048 <= x < 2048
    ensures var u := x % 0x1000; u / 256 < 16 && Sign12(Join12(u / 256, u % 256)) == x
  {
    var u := x % 0x1000;
    assert u == if x < 0 then x + 0x1000 else x;
  }

  /** Which bits of a burst with the motion flag are which: modulo 2^12 the counts are the low bytes with the
      upper nibble for X and the lower one for Y, and their sign is that of two's complement. */
  lemma BurstFields(b: Burst)
    requires b.status >= 0x80
    ensures var (x, y) := ReadMotion(b);
            x % 0x1000 == b.xLow + 0x100 * (b.high / 16) && y % 0x1000 == b.yLow + 0x100 * (b.high % 16) &&
            -0x800 <= x < 0x800 && -0x800 <= y < 0x800
  {
    SignKeepsBits(Join12(b.high / 16, b.xLow));
    SignKeepsBits(Join12(b.high % 16, b.yLow));
  }

  lemma SignKeepsBits(v: nat)
    requires v < 0x1000
    ensures Sign12(v) % 0x1000 == v
  {
  }

  /** Firmware and tool agree on a burst exactly when the motion flag is set or the movement is zero. */
  lemma FirmwareAndToolAgree(b: Burst)
    ensures b.status < 0x80 ==> ReadMotion(b) == (0, 0)
    ensures ReadMotion(b) == DecodePoll(b) <==> b.status >= 0x80 || DecodePoll(b) == (0, 0)
  {
  }
}
