/** firmware/src/drivers/lighting.cpp: binary code modulation of nine LED channels by a timer interrupt,
    concurrent with the main loop that rewrites the duties. Pins are numbers in a port's set of high
    outputs; a BSRR write is the pair of sets it raises and drops. */
module Lighting {
  import opened Word32

  const PHASES: nat := 10

  datatype Port = PortA | PortB

  datatype Pin = Pin(port: Port, num: nat)

  /** The cathodes in channel order: LED1 RGB, LED2 RGB, LED3 RGB. */
  const PINS: seq<Pin> := [Pin(PortB, 9), Pin(PortB, 8), Pin(PortA, 2),
                           Pin(PortA, 6), Pin(PortA, 3), Pin(PortA, 4),
                           Pin(PortA, 7), Pin(PortB, 1), Pin(PortB, 0)]

  lemma PinsDistinct()
    ensures |PINS| == 9 && forall i, j | 0 <= i < j < 9 :: PINS[i] != PINS[j]
  {
  }

  function Pow2(n: nat): (p: nat) ensures p >= 1 { if n == 0 then 1 else 2 * Pow2(n - 1) }

  /** Bit n of a duty. */
  predicate Lit(duty: nat, n: nat) { duty / Pow2(n) % 2 == 1 }

  // ---------------------------------------------------------------- breathing arithmetic

  /** The triangular wave: up for 256 steps of 8 ms, down for 256. */
  function Bright(now: nat): (b: nat)
    ensures b <= 255
  {
    var t := now / 8 % 512;
    if t < 256 then t else 511 - t
  }

  function Gamma(bright: nat): nat { (bright * bright * 1023 + 32512) / 65025 }

  function Scaled(base: nat, bq: nat): nat { (base * bq + 127) / 255 }

  /** The duty of a channel with this base colour at this brightness. */
  function DutyFor(base: nat, bright: nat): nat { Scaled(base, Gamma(bright)) }

  /** The top of the wave gives the base colour its full ten bits, the bottom nothing. */
  lemma TopAndBottom(base: nat, now: nat)
    requires base <= 255
    ensures 2040 <= now % 4096 < 2056 ==> DutyFor(base, Bright(now)) == (1023 * base + 127) / 255
    ensures now % 4096 < 8 || 4088 <= now % 4096 ==> DutyFor(base, Bright(now)) == 0
  {
    WavePosition(now);
    assert Gamma(255) == 1023 && Gamma(0) == 0;
  }

  lemma WavePosition(now: nat)
    ensures now / 8 % 512 == now % 4096 / 8
  {
  }

  // ---------------------------------------------------------------- the driver

  /** The fields, the two ports' high outputs and the timer's reload register. */
  datatype State = State(duty: seq<nat>, phase: nat, outA: set<nat>, outB: set<nat>, arr: nat)

  predicate Valid(s: State) { |s.duty| == 9 && s.phase < PHASES }

  predicate High(outA: set<nat>, outB: set<nat>, p: Pin) { if p.port == PortA then p.num in outA else p.num in outB }

  /** The LED pins of one port whose channel has (or has not) bit n set. */
  function Group(duty: seq<nat>, port: Port, n: nat, lit: bool, upto: nat): set<nat>
    requires |duty| == 9 && upto <= 9
  {
    set i | 0 <= i < upto && PINS[i].port == port && Lit(duty[i], n) == lit :: PINS[i].num
  }

  /** The reload value for a phase; zero would stop the timer, so phase 0 gets one. */
  function Reload(phase: nat): nat { Pow2(phase) - (if phase == 0 then 0 else 1) }

  function Ticked(s: State): State
    requires Valid(s)
  {
    var p := (s.phase + 1) % PHASES;
    State(s.duty, p,
          s.outA - Group(s.duty, PortA, p, false, 9) + Group(s.duty, PortA, p, true, 9),
          s.outB - Group(s.duty, PortB, p, false, 9) + Group(s.duty, PortB, p, true, 9),
          Reload(p))
  }

  class Driver {
    const duty: array<nat>
    const base: array<nat>
    var phase: nat
    var outA: set<nat>
    var outB: set<nat>
    var arr: nat
    var lastBreath: nat

    ghost predicate ValidDriver()
      reads this, base
    {
      duty.Length == 9 && base.Length == 9 && duty != base && phase < PHASES && lastBreath < WORD &&
      forall i | 0 <= i < 9 :: base[i] <= 255
    }

    ghost function Now(): State
      requires ValidDriver()
      reads this, duty, base
    {
      State(duty[..], phase, outA, outB, arr)
    }

    constructor ()
      ensures ValidDriver() && fresh(duty) && fresh(base)
      ensures Now() == State(seq(9, i => 0), 0, {}, {}, 511)
    {
      duty := new nat[9](i => 0);
      base := new nat[9](i => 0);
      phase, outA, outB, arr, lastBreath := 0, {}, {}, 511, 0;
    }

    /** on_tick. */
    method OnTick()
      requires ValidDriver()
      modifies this`phase, this`outA, this`outB, this`arr
      ensures ValidDriver() && Now() == Ticked(old(Now()))
    {
      phase := (phase + 1) % PHASES;
      var setA, clrA := Masks(PortA, phase);
      var setB, clrB := Masks(PortB, phase);
      outA := outA - clrA + setA;
      outB := outB - clrB + setB;
      arr := Pow2(phase) - (if phase == 0 then 0 else 1);
    }

    /** The set and clear masks of one port for one bit of the duties. */
    method Masks(port: Port, bit: nat) returns (raised: set<nat>, dropped: set<nat>)
      requires ValidDriver()
      ensures raised == Group(duty[..], port, bit, true, 9) && dropped == Group(duty[..], port, bit, false, 9)
    {
      raised, dropped := {}, {};
      for i := 0 to 9
        invariant raised == Group(duty[..], port, bit, true, i)
        invariant dropped == Group(duty[..], port, bit, false, i)
      {
        GroupGrows(duty[..], port, bit, true, i);
        GroupGrows(duty[..], port, bit, false, i);
        if PINS[i].port == port {
          if duty[i] / Pow2(bit) % 2 == 1 {
            raised := raised + {PINS[i].num};
          } else {
            dropped := dropped + {PINS[i].num};
          }
        }
      }
    }

    /** set(): LEDs are numbered from 1; any other number is ignored. */
    method Set(led: nat, r: nat, g: nat, b: nat)
      requires ValidDriver()
      modifies duty
      ensures ValidDriver()
      ensures duty[..] == if 1 <= led <= 3 then old(duty[..])[3 * led - 3 := r][3 * led - 2 := g][3 * led - 1 := b]
                          else old(duty[..])
    {
      if led < 1 || led > 3 { return; }
      var first := (led - 1) * 3;
      duty[first], duty[first + 1], duty[first + 2] := r, g, b;
    }

    method SetBase(led: nat, r: nat, g: nat, b: nat)
      requires ValidDriver() && r <= 255 && g <= 255 && b <= 255
      modifies base
      ensures ValidDriver()
      ensures base[..] == if 1 <= led <= 3 then old(base[..])[3 * led - 3 := r][3 * led - 2 := g][3 * led - 1 := b]
                          else old(base[..])
    {
      if led < 1 || led > 3 { return; }
      var first := (led - 1) * 3;
      base[first], base[first + 1], base[first + 2] := r, g, b;
    }

    /** off(): zero every duty and drop the lines at once. */
    method Off()
      requires ValidDriver()
      modifies this`outA, this`outB, duty
      ensures ValidDriver()
      ensures duty[..] == seq(9, i => 0)
      ensures forall p | p in PINS :: !High(outA, outB, p)
      ensures forall p | p !in PINS :: High(outA, outB, p) == old(High(outA, outB, p))
    {
      for i := 0 to 9
        invariant outA == old(outA) && outB == old(outB)
        invariant forall k | 0 <= k < i :: duty[k] == 0
      {
        duty[i] := 0;
      }
      for i := 0 to 9
        invariant forall k | 0 <= k < 9 :: duty[k] == 0
        invariant forall k | 0 <= k < i :: !High(outA, outB, PINS[k])
        invariant forall p | p !in PINS :: High(outA, outB, p) == old(High(outA, outB, p))
      {
        if PINS[i].port == PortA { outA := outA - {PINS[i].num}; } else { outB := outB - {PINS[i].num}; }
      }
      forall p | p in PINS ensures !High(outA, outB, p) {
        var k :| 0 <= k < |PINS| && PINS[k] == p;
        assert !High(outA, outB, PINS[k]);
      }
    }

    /** tick(): at most every 8 ms, recompute the nine duties from the clock. */
    method Tick(now: nat)
      requires ValidDriver() && now < WORD
      modifies this`lastBreath, duty
      ensures ValidDriver()
      ensures var due := Elapsed(now, old(lastBreath)) >= 8;
              lastBreath == (if due then now else old(lastBreath)) &&
              forall i | 0 <= i < 9 ::
                duty[i] == if due then DutyFor(base[i], Bright(now)) else old(duty[i])
      ensures Elapsed(now, old(lastBreath)) >= 8 && 2040 <= now % 4096 < 2056 ==>
                forall i | 0 <= i < 9 :: duty[i] == (1023 * base[i] + 127) / 255
      ensures Elapsed(now, old(lastBreath)) >= 8 && (now % 4096 < 8 || 4088 <= now % 4096) ==>
                forall i | 0 <= i < 9 :: duty[i] == 0
    {
      if Elapsed(now, lastBreath) < 8 { return; }
      lastBreath := now;
      var t := now / 8 % 512;
      var bright := if t < 256 then t else 511 - t;
      var b2 := bright * bright;
      var bq := (b2 * 1023 + 32512) / 65025;
      assert bright == Bright(now) && bq == Gamma(bright);
      ScaleAll(bq);
      forall i | 0 <= i < 9 { TopAndBottom(base[i], now); }
    }

    method ScaleAll(bq: nat)
      requires ValidDriver()
      modifies duty
      ensures forall k | 0 <= k < 9 :: duty[k] == Scaled(base[k], bq)
    {
      for i := 0 to 9
        invariant forall k | 0 <= k < i :: duty[k] == Scaled(base[k], bq)
      {
        duty[i] := (base[i] * bq + 127) / 255;
      }
    }
  }

  lemma GroupGrows(duty: seq<nat>, port: Port, n: nat, lit: bool, i: nat)
    requires |duty| == 9 && i < 9
    ensures Group(duty, port, n, lit, i + 1) ==
            Group(duty, port, n, lit, i) +
            (if PINS[i].port == port && Lit(duty[i], n) == lit then {PINS[i].num} else {})
  {
  }

  // ---------------------------------------------------------------- one interrupt

  /** After an interrupt every LED pin is high exactly if its channel's duty has the new phase's bit, no
      other pin has moved, and the set and clear masks of each port are disjoint LED masks. */
  lemma TickShowsBit(s: State, i: nat)
    requires Valid(s) && i < 9
    ensures High(Ticked(s).outA, Ticked(s).outB, PINS[i]) <==> Lit(s.duty[i], Ticked(s).phase)
  {
    PinsDistinct();
    var p := Ticked(s).phase;
    forall port { DisjointGroups(s.duty, port, p); }
    var g, h := Group(s.duty, PINS[i].port, p, true, 9), Group(s.duty, PINS[i].port, p, false, 9);
    if Lit(s.duty[i], p) { assert PINS[i].num in g; } else { assert PINS[i].num in h; }
  }

  lemma DisjointGroups(duty: seq<nat>, port: Port, n: nat)
    requires |duty| == 9
    ensures Group(duty, port, n, true, 9) !! Group(duty, port, n, false, 9)
    ensures forall k | k in Group(duty, port, n, true, 9) + Group(duty, port, n, false, 9) :: Pin(port, k) in PINS
  {
    PinsDistinct();
  }

  lemma OtherPinsKept(s: State, p: Pin)
    requires Valid(s) && p !in PINS
    ensures High(Ticked(s).outA, Ticked(s).outB, p) == High(s.outA, s.outB, p)
  {
    DisjointGroups(s.duty, p.port, Ticked(s).phase);
  }
}
