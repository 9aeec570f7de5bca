/** 32-bit words as the firmware uses them: wrapping clock arithmetic and little-endian fields in bytes. */
module Word32 {

  /** The modulus of uint32_t arithmetic. */
  const WORD: nat := 0x1_0000_0000

  // ---------------------------------------------------------------- the millisecond clock

  /** now - since on a 32-bit clock. */
  function Elapsed(now: nat, since: nat): nat { (now - since) % WORD }

  /** However often the clock has wrapped, the difference never overstates the time that has passed. */
  lemma ElapsedAtMost(now: nat, since: nat)
    requires since <= now
    ensures Elapsed(now % WORD, since % WORD) <= now - since
  {
    var d := now - since;
    assert (now % WORD - since % WORD) % WORD == d % WORD;
  }

  /** Within one turn of the clock it is exactly that time. */
  lemma ElapsedExact(now: nat, since: nat)
    requires since <= now < since + WORD
    ensures Elapsed(now % WORD, since % WORD) == now - since
  {
    var d := now - since;
    assert (now % WORD - since % WORD) % WORD == d % WORD;
  }

  // ---------------------------------------------------------------- little-endian fields

  function Byte(w: bv32, k: nat): bv8
    requires k < 4
  {
    if k == 0 then (w & 0xFF) as bv8
    else if k == 1 then ((w >> 8) & 0xFF) as bv8
    else if k == 2 then ((w >> 16) & 0xFF) as bv8
    else ((w >> 24) & 0xFF) as bv8
  }

  function Join4(b0: bv8, b1: bv8, b2: bv8, b3: bv8): bv32 {
    (b0 as bv32) | ((b1 as bv32) << 8) | ((b2 as bv32) << 16) | ((b3 as bv32) << 24)
  }

  function Lo(w: bv16): bv8 { (w & 0xFF) as bv8 }

  function Hi(w: bv16): bv8 { ((w >> 8) & 0xFF) as bv8 }

  function Join2(lo: bv8, hi: bv8): bv16 { (lo as bv16) | ((hi as bv16) << 8) }

  lemma JoinBytes(w: bv32) ensures Join4(Byte(w, 0), Byte(w, 1), Byte(w, 2), Byte(w, 3)) == w {}
  lemma BytesOfJoin(b0: bv8, b1: bv8, b2: bv8, b3: bv8)
    ensures Byte(Join4(b0, b1, b2, b3), 0) == b0 && Byte(Join4(b0, b1, b2, b3), 1) == b1
    ensures Byte(Join4(b0, b1, b2, b3), 2) == b2 && Byte(Join4(b0, b1, b2, b3), 3) == b3
  {
  }
  lemma JoinHalves(w: bv16) ensures Join2(Lo(w), Hi(w)) == w {}
  lemma HalvesOfJoin(lo: bv8, hi: bv8) ensures Lo(Join2(lo, hi)) == lo && Hi(Join2(lo, hi)) == hi {}

  function WordBytes(w: bv32): (s: seq<bv8>) ensures |s| == 4 { [Byte(w, 0), Byte(w, 1), Byte(w, 2), Byte(w, 3)] }

  function WordAt(p: seq<bv8>, at: nat): bv32
    requires at + 4 <= |p|
  {
    Join4(p[at], p[at + 1], p[at + 2], p[at + 3])
  }

  function HalfAt(p: seq<bv8>, at: nat): bv16
    requires at + 2 <= |p|
  {
    Join2(p[at], p[at + 1])
  }
}
