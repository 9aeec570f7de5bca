/** firmware/src/drivers/encoder_quad.hpp: the Gray-code wheel decoder, and the physical movement its
    step table stands for. */
module Encoder {

  function Int8(x: int): int { (x + 128) % 256 - 128 }

  const K_STEP: seq<int> := [0, -1, 1, 0, 1, 0, 0, -1, -1, 0, 0, 1, 0, 1, -1, 0]

  function Clamp(t: int): int { if t > 127 then 127 else if t < -127 then -127 else t }

  /** The three fields; a phase is A + 2B. */
  datatype Quad = Quad(last: nat, accum: int, ticks: int)

  predicate Valid(q: Quad) { q.last < 4 && -1 <= q.accum <= 1 && -127 <= q.ticks <= 127 }

  function StepOf(q: Quad, now: nat): int
    requires q.last < 4 && now < 4
  {
    K_STEP[4 * q.last + now]
  }

  /** The tick, if any, that a new phase completes. */
  function TickOf(q: Quad, now: nat): int
    requires q.last < 4 && now < 4
  {
    var a := q.accum + StepOf(q, now);
    if a >= 2 then 1 else if a <= -2 then -1 else 0
  }

  /** One poll: every half detent becomes one tick, the remainder is carried. */
  function Polled(q: Quad, now: nat): (r: Quad)
    requires Valid(q) && now < 4
    ensures Valid(r)
  {
    Quad(now, q.accum + StepOf(q, now) - 2 * TickOf(q, now), Clamp(q.ticks + TickOf(q, now)))
  }

  lemma TickRange(q: Quad, now: nat)
    requires Valid(q) && now < 4
    ensures -1 <= StepOf(q, now) <= 1 && -1 <= TickOf(q, now) <= 1
    ensures q.ticks == 0 ==> Polled(q, now).ticks == TickOf(q, now)
  {
  }

  class QuadEncoder {
    var last: nat
    var accum: int
    var ticks: int

    ghost function Now(): Quad
      reads this
    {
      Quad(last, accum, ticks)
    }

    constructor (phase: nat)
      requires phase < 4
      ensures Now() == Quad(phase, 0, 0)
    {
      last, accum, ticks := phase, 0, 0;
    }

    method Emit(step: int)
      requires step == 1 || step == -1
      requires -127 <= ticks <= 127
      modifies this`ticks
      ensures ticks == Clamp(old(ticks) + step)
      ensures ticks == if old(ticks) + step == 128 then 127 else if old(ticks) + step == -128 then -127
                       else old(ticks) + step
    {
      var next := ticks + step;
      if next > 127 { next := 127; }
      if next < -127 { next := -127; }
      ticks := Int8(next);
    }

    method Poll(now: nat)
      requires Valid(Now()) && now < 4
      modifies this
      ensures Now() == Polled(old(Now()), now)
    {
      if now == last { return; }
      var d := K_STEP[4 * last + now];
      ghost var sum := accum + d;
      last := now;
      accum := Int8(accum + d);
      while accum >= 2
        invariant last == now && -127 <= ticks <= 127
        invariant if accum >= 2 then accum == sum && ticks == old(ticks)
                  else accum == (if sum >= 2 then sum - 2 else sum) &&
                       ticks == (if sum >= 2 then Clamp(old(ticks) + 1) else old(ticks))
        invariant -2 <= accum <= 2
      {
        Emit(1);
        accum := Int8(accum - 2);
      }
      while accum <= -2
        invariant last == now && -127 <= ticks <= 127
        invariant if accum <= -2 then accum == sum && ticks == old(ticks)
                  else Quad(last, accum, ticks) == Polled(old(Now()), now)
        invariant -2 <= accum <= 2
      {
        Emit(-1);
        accum := Int8(accum + 2);
      }
    }

    method ConsumeTicks() returns (t: int)
      modifies this`ticks
      ensures t == old(ticks) && ticks == 0
    {
      t := ticks;
      ticks := 0;
    }
  }

  // ---------------------------------------------------------------- the wheel behind the phases

  /** The phase the contacts show at a position counted in quarter detents: 0, 2, 3, 1 and round again. */
  function PhaseAt(pos: int): (phase: nat)
    ensures phase < 4
  {
    var k := pos % 4;
    if k == 0 then 0 else if k == 1 then 2 else if k == 2 then 3 else 1
  }

  /** The entry for a movement depends only on how far it goes round. */
  lemma TableEntry(p: int, q: int)
    ensures K_STEP[4 * PhaseAt(p) + PhaseAt(q)] ==
            if (q - p) % 4 == 1 then 1 else if (q - p) % 4 == 3 then -1 else 0
  {
    var k, j := p % 4, q % 4;
    Turn(p, q);
    if k == 0 {
      assert PhaseAt(p) == 0;
    } else if k == 1 {
      assert PhaseAt(p) == 2;
    } else if k == 2 {
      assert PhaseAt(p) == 3;
    } else {
      assert PhaseAt(p) == 1;
    }
  }

  lemma Turn(p: int, q: int)
    ensures (q - p) % 4 == if q % 4 >= p % 4 then q % 4 - p % 4 else q % 4 - p % 4 + 4
  {
  }

  /** The table reads a movement correctly exactly when it is at most one phase; a larger one is misread,
      always by an even amount. */
  lemma TableReadsMovement(p: int, q: int)
    ensures var step := K_STEP[4 * PhaseAt(p) + PhaseAt(q)];
            -1 <= step <= 1 && (step == q - p <==> -1 <= q - p <= 1) && (q - p - step) % 2 == 0
  {
    TableEntry(p, q);
    ExactWhenSmall(q - p, K_STEP[4 * PhaseAt(p) + PhaseAt(q)]);
  }

  lemma ExactWhenSmall(d: int, step: int)
    requires step == if d % 4 == 1 then 1 else if d % 4 == 3 then -1 else 0
    ensures -1 <= step <= 1 && (step == d <==> -1 <= d <= 1) && (d - step) % 2 == 0
  {
  }
}
