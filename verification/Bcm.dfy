/** What the LED modulation does over time: exact on-times under any interleaving of interrupts and duty
    writes, and how close the breathing light comes to the ideal. */
module Bcm {
  import opened Word32
  import opened Lighting

  /** The timer interrupt, or a write of one channel's duty by the main loop. */
  datatype Event = Irq | Write(channel: nat, value: nat)

  type Events = s: seq<Event> | forall e | e in s :: e.Write? ==> e.channel < 9

  function Step(s: State, e: Event): (r: State)
    requires Valid(s) && (e.Write? ==> e.channel < 9)
    ensures Valid(r)
  {
    match e
    case Irq => Ticked(s)
    case Write(ch, v) => s.(duty := s.duty[ch := v])
  }

  function Run(s: State, evs: Events): (r: State)
    requires Valid(s)
    ensures Valid(r)
    decreases |evs|
  {
    if evs == [] then s else Step(Run(s, evs[..|evs| - 1]), evs[|evs| - 1])
  }

  /** Timer ticks during which the channel's pin is high: each interrupt sets the pin and the reload
      register, and the next one comes arr + 1 ticks later. */
  function OnTime(s: State, evs: Events, ch: nat): nat
    requires Valid(s) && ch < 9
    decreases |evs|
  {
    if evs == [] then 0
    else
      var before, after := evs[..|evs| - 1], Run(s, evs);
      OnTime(s, before, ch) +
      if evs[|evs| - 1].Irq? && High(after.outA, after.outB, PINS[ch]) then after.arr + 1 else 0
  }

  function TimerTicks(s: State, evs: Events): nat
    requires Valid(s)
    decreases |evs|
  {
    if evs == [] then 0
    else TimerTicks(s, evs[..|evs| - 1]) + if evs[|evs| - 1].Irq? then Run(s, evs).arr + 1 else 0
  }

  // ---------------------------------------------------------------- read off the history

  function Irqs(evs: seq<Event>): nat
    decreases |evs|
  {
    if evs == [] then 0 else Irqs(evs[..|evs| - 1]) + if evs[|evs| - 1].Irq? then 1 else 0
  }

  /** The duty of a channel after these events. */
  function DutyAfter(initial: nat, evs: seq<Event>, ch: nat): nat
    decreases |evs|
  {
    if evs == [] then initial
    else match evs[|evs| - 1]
      case Write(c, v) => if c == ch then v else DutyAfter(initial, evs[..|evs| - 1], ch)
      case Irq => DutyAfter(initial, evs[..|evs| - 1], ch)
  }

  /** The length of a phase in timer ticks: 2 for phase 0, 2^n for the others. */
  function Length(n: nat): nat { if n == 0 then 2 else Pow2(n) }

  /** The share of a phase that a duty lights. */
  function Weight(d: nat, n: nat): nat { if Lit(d, n) then Length(n) else 0 }

  /** Phase by phase, the bit of the duty seen at that interrupt times the phase's length. */
  function SeenWeight(initial: nat, phase: nat, evs: seq<Event>, ch: nat): nat
    decreases |evs|
  {
    if evs == [] then 0
    else
      var before := evs[..|evs| - 1];
      SeenWeight(initial, phase, before, ch) +
      if evs[|evs| - 1].Irq? then Weight(DutyAfter(initial, before, ch), (phase + Irqs(evs)) % PHASES) else 0
  }

  lemma NextPhase(k: nat) ensures (k % PHASES + 1) % PHASES == (k + 1) % PHASES {}

  lemma {:induction false} RunByHistory(s: State, evs: Events, ch: nat)
    requires Valid(s) && ch < 9
    ensures Run(s, evs).phase == (s.phase + Irqs(evs)) % PHASES
    ensures Run(s, evs).duty[ch] == DutyAfter(s.duty[ch], evs, ch)
    decreases |evs|
  {
    if evs != [] {
      RunByHistory(s, evs[..|evs| - 1], ch);
      NextPhase(s.phase + Irqs(evs[..|evs| - 1]));
    }
  }

  /** For every interleaving of interrupts and duty writes, a channel's on-time is exactly the sum over the
      interrupts of the entered phase's bit in the duty seen then, times that phase's length. */
  lemma {:induction false} OnTimeExact(s: State, evs: Events, ch: nat)
    requires Valid(s) && ch < 9
    ensures OnTime(s, evs, ch) == SeenWeight(s.duty[ch], s.phase, evs, ch)
    decreases |evs|
  {
    if evs != [] {
      var before := evs[..|evs| - 1];
      OnTimeExact(s, before, ch);
      RunByHistory(s, before, ch);
      RunByHistory(s, evs, ch);
      if evs[|evs| - 1].Irq? { TickShowsBit(Run(s, before), ch); }
    }
  }

  // ---------------------------------------------------------------- a full cycle

  /** The weights of n consecutive phases after phase p. */
  function Cycle(d: nat, p: nat, n: nat): nat { if n == 0 then 0 else Cycle(d, p, n - 1) + Weight(d, (p + n) % PHASES) }

  /** The k-th interrupt after phase p enters phase n. */
  predicate Enters(p: nat, k: nat, n: nat) { (p + k) % PHASES == n }

  /** Ten consecutive interrupts enter every phase exactly once, wherever they start. */
  lemma EachPhaseOnce(p: nat, n: nat) returns (k: nat)
    requires p < PHASES && n < PHASES
    ensures 1 <= k <= PHASES && Enters(p, k, n)
    ensures forall j | 1 <= j <= PHASES && Enters(p, j, n) :: j == k
  {
    k := if n > p then n - p else n + PHASES - p;
  }

  predicate NoWrites(evs: seq<Event>, ch: nat) { forall e | e in evs :: e.Write? ==> e.channel != ch }

  lemma {:induction false} ConstantDuty(initial: nat, phase: nat, evs: seq<Event>, ch: nat)
    requires NoWrites(evs, ch)
    ensures DutyAfter(initial, evs, ch) == initial
    ensures SeenWeight(initial, phase, evs, ch) == Cycle(initial, phase, Irqs(evs))
    decreases |evs|
  {
    if evs != [] {
      assert evs[|evs| - 1] in evs;
      ConstantDuty(initial, phase, evs[..|evs| - 1], ch);
    }
  }

  lemma {:induction false} CycleShift(d: nat, p: nat, n: nat)
    ensures Weight(d, (p + 1) % PHASES) + Cycle(d, p + 1, n) == Cycle(d, p, n + 1)
    decreases n
  {
    if n > 0 { CycleShift(d, p, n - 1); }
  }

  /** Ten phases weigh the same wherever the cycle starts. */
  lemma {:induction false} CycleAnyStart(d: nat, p: nat, n: nat)
    requires p <= 9 && n == PHASES
    ensures Cycle(d, p, n) == Cycle(d, 9, n)
    decreases 9 - p
  {
    if p < 9 {
      CycleShift(d, p, n);
      CycleAnyStart(d, p + 1, n);
    }
  }

  lemma ModUnique(d: nat, k: nat, a: nat, r: nat)
    requires d == k * a + r && r < k
    ensures d % k == r
  {
    var q := d / k;
    assert d == k * q + d % k;
    if q < a {
      TimesMonotone(k, q + 1, a);
    } else if a < q {
      TimesMonotone(k, a + 1, q);
    }
  }

  lemma TimesMonotone(k: nat, x: nat, y: nat)
    requires x <= y
    ensures k * x <= k * y && k * (x - 1) == k * x - k
  {
  }

  lemma BitSplit(d: nat, m: nat)
    requires m > 0
    ensures d % (2 * m) == d % m + (if d / m % 2 == 1 then m else 0)
  {
    var q := d / m;
    assert d == m * q + d % m;
    var a, b := q / 2, q % 2;
    assert m * q == 2 * m * a + m * b by { assert q == 2 * a + b; }
    ModUnique(d, 2 * m, a, (if b == 1 then m else 0) + d % m);
  }

  lemma {:induction false} BitsAddUp(d: nat, n: nat)
    requires 1 <= n <= 10
    ensures Cycle(d, 9, n) == d % Pow2(n) + d % 2
    decreases n
  {
    assert (9 + n) % PHASES == n - 1;
    assert Cycle(d, 9, n) == Cycle(d, 9, n - 1) + Weight(d, n - 1);
    if n == 1 {
      assert Pow2(0) == 1 && Pow2(1) == 2;
    } else {
      BitsAddUp(d, n - 1);
      BitSplit(d, Pow2(n - 1));
    }
  }

  /** Any ten consecutive interrupts take 1024 ticks and light a channel whose 10-bit duty is not written
      meanwhile for d + (d mod 2) of them, from any phase, whatever happens to the other channels. */
  lemma FullCycle(s: State, evs: Events, ch: nat)
    requires Valid(s) && ch < 9 && Irqs(evs) == 10 && NoWrites(evs, ch) && s.duty[ch] < 1024
    ensures OnTime(s, evs, ch) == s.duty[ch] + s.duty[ch] % 2
    ensures TimerTicks(s, evs) == 1024
  {
    var d := s.duty[ch];
    OnTimeExact(s, evs, ch);
    ConstantDuty(d, s.phase, evs, ch);
    CycleOfTen(d, s.phase, Irqs(evs));
    TimerTicksAllLit(s, evs);
    CycleOfTen(1023, s.phase, Irqs(evs));
  }

  lemma CycleOfTen(d: nat, p: nat, n: nat)
    requires d < 1024 && p < PHASES && n == PHASES
    ensures Cycle(d, p, n) == d + d % 2
  {
    CycleAnyStart(d, p, n);
    BitsAddUp(d, n);
    TenBits(d, n);
  }

  lemma TenBits(d: nat, n: nat)
    requires d < 1024 && n == 10
    ensures d % Pow2(n) == d
  {
    Pow2Of10();
  }

  lemma Pow2Of10()
    ensures Pow2(10) == 1024
  {
    assert Pow2(4) == 16;
    assert Pow2(7) == 128;
  }

  lemma {:induction false} TimerTicksAllLit(s: State, evs: Events)
    requires Valid(s)
    ensures TimerTicks(s, evs) == Cycle(1023, s.phase, Irqs(evs))
    decreases |evs|
  {
    if evs != [] {
      TimerTicksAllLit(s, evs[..|evs| - 1]);
      RunByHistory(s, evs, 0);
      if evs[|evs| - 1].Irq? {
        AllLit(Run(s, evs).phase);
        assert Weight(1023, Run(s, evs).phase) == Weight(1023, (s.phase + Irqs(evs)) % PHASES);
      }
    }
  }

  lemma AllLit(n: nat)
    requires n < 10
    ensures Lit(1023, n)
  {
    assert Pow2(2) == 4;
    assert Pow2(4) == 16;
    assert Pow2(6) == 64;
    assert Pow2(8) == 256;
  }

  // ---------------------------------------------------------------- the breathing light

  /** 255 * 65025, the scale of the two divisions. */
  const FULL: int := 16581375

  /** The duty is within strictly less than one step of 1023 * base * bright^2 / (255 * 65025), never
      exceeds 1023, and no intermediate value leaves 32 bits. */
  lemma DutyAccuracy(base: nat, bright: nat)
    requires base <= 255 && bright <= 255
    ensures -FULL < DutyFor(base, bright) * FULL - 1023 * (base * (bright * bright)) < FULL
    ensures DutyFor(base, bright) <= 1023
    ensures bright * bright * 1023 + 32512 < WORD && base * Gamma(bright) + 127 < WORD
  {
    var sq, g := bright * bright, Gamma(bright);
    Square(bright);
    GammaError(sq, g);
    Product(base, g);
    ScaledError(base * g, DutyFor(base, bright));
    ErrorSum(base, sq, g, DutyFor(base, bright));
  }

  lemma Square(b: nat) requires b <= 255 ensures b * b <= 65025 {}

  lemma Product(base: nat, g: nat) requires base <= 255 && g <= 1023 ensures base * g <= 260865 {}

  lemma GammaError(sq: nat, g: nat)
    requires sq <= 65025 && g == (sq * 1023 + 32512) / 65025
    ensures -32512 <= 65025 * g - 1023 * sq <= 32512 && g <= 1023
  {
  }

  lemma ScaledError(x: nat, d: nat)
    requires x <= 260865 && d == (x + 127) / 255
    ensures -127 <= 255 * d - x <= 127 && d <= 1023
  {
  }

  lemma ErrorSum(base: int, sq: int, g: int, d: int)
    requires 0 <= base <= 255 && -32512 <= 65025 * g - 1023 * sq <= 32512 && -127 <= 255 * d - base * g <= 127
    ensures -FULL < d * FULL - 1023 * (base * sq) < FULL
  {
    Distribute(base, g, sq);
    BaseTimes(base, 65025 * g - 1023 * sq);
  }

  lemma Distribute(a: int, g: int, s: int)
    ensures a * (65025 * g - 1023 * s) == 65025 * (a * g) - 1023 * (a * s)
  {
  }

  lemma BaseTimes(a: int, e: int)
    requires 0 <= a <= 255 && -32512 <= e <= 32512
    ensures -8290560 <= a * e <= 8290560
  {
    if e >= 0 { AtMost(a, e); } else { AtMost(a, -e); }
  }

  lemma AtMost(a: int, e: int)
    requires 0 <= a <= 255 && e >= 0
    ensures 0 <= a * e <= 255 * e && a * -e == -(a * e)
  {
    assert 255 * e - a * e == (255 - a) * e;
  }

  /** Brighter or stronger never gives a smaller duty. */
  lemma DutyMonotone(base: nat, base': nat, bright: nat, bright': nat)
    requires base <= base' && bright <= bright'
    ensures DutyFor(base, bright) <= DutyFor(base', bright')
  {
    ProductMonotone(bright, bright', bright, bright');
    var g, g' := Gamma(bright), Gamma(bright');
    assert g <= g' by { QuotientMonotone(bright * bright * 1023 + 32512, bright' * bright' * 1023 + 32512, 65025); }
    ProductMonotone(base, base', g, g');
    QuotientMonotone(base * g + 127, base' * g' + 127, 255);
  }

  lemma ProductMonotone(a: nat, b: nat, c: nat, d: nat)
    requires a <= b && c <= d
    ensures a * c <= b * d
  {
    assert a * c <= b * c;
    assert b * c <= b * d;
  }

  lemma QuotientMonotone(a: nat, b: nat, k: nat)
    requires a <= b && k > 0
    ensures a / k <= b / k
  {
    var q, r := a / k, b / k;
    assert a == k * q + a % k && b == k * r + b % k;
    if r < q { TimesMonotone(k, r + 1, q); }
  }

  /** The wave moves by at most one per 8 ms, also where the 32-bit clock wraps. */
  lemma WaveIsSmooth(now: nat, later: nat)
    requires now < WORD && later < WORD && Elapsed(later, now) <= 8
    ensures -1 <= Bright(later) - Bright(now) <= 1
  {
    var m := now % 4096;
    var n := ClockStep(now, later);
    WavePosition(now);
    WavePosition(later);
    assert n / 8 == m / 8 || n / 8 == (m / 8 + 1) % 512;
  }

  /** 2^32 ms is a whole number of waves, so the position within a wave steps evenly across the wrap. */
  lemma ClockStep(now: nat, later: nat) returns (n: nat)
    requires now < WORD && later < WORD && Elapsed(later, now) <= 8
    ensures n == later % 4096
    ensures var d := Elapsed(later, now); n == if now % 4096 + d < 4096 then now % 4096 + d else now % 4096 + d - 4096
  {
    n := later % 4096;
    var d := Elapsed(later, now);
    assert later == if now + d < WORD then now + d else now + d - WORD;
  }

  /** The shape of the wave: dark at 0, up by one every 8 ms to 255, down by one every 8 ms to dark again, and
      twice as long at both turns; so it is at its top and its bottom once every 4096 ms. */
  lemma WaveShape(now: nat)
    ensures Bright(0) == 0
    ensures Bright(now + 8) - Bright(now) ==
            if now % 4096 < 2040 then 1 else if 2048 <= now % 4096 < 4088 then -1 else 0
    ensures Bright(now) == 255 <==> 2040 <= now % 4096 < 2056
    ensures Bright(now) == 0 <==> now % 4096 < 8 || 4088 <= now % 4096
    ensures Bright(now + 4096) == Bright(now)
  {
    WaveStep(now);
    WaveTurns(now);
    WaveRepeats(now);
  }

  lemma WaveRepeats(now: nat)
    ensures Bright(now + 4096) == Bright(now)
  {
    WavePosition(now);
    WavePosition(now + 4096);
    OneTurnLater(now);
  }

  lemma OneTurnLater(now: nat)
    ensures (now + 4096) % 4096 == now % 4096
  {
  }

  lemma WaveStep(now: nat)
    ensures Bright(now + 8) - Bright(now) ==
            if now % 4096 < 2040 then 1 else if 2048 <= now % 4096 < 4088 then -1 else 0
  {
    var m := now % 4096;
    EightLater(now);
    WavePosition(now);
    WavePosition(now + 8);
    assert m < 4088 ==> (m + 8) / 8 == m / 8 + 1;
  }

  lemma EightLater(now: nat)
    ensures (now + 8) % 4096 == if now % 4096 < 4088 then now % 4096 + 8 else now % 4096 - 4088
  {
  }

  lemma WaveTurns(now: nat)
    ensures Bright(now) == 255 <==> 2040 <= now % 4096 < 2056
    ensures Bright(now) == 0 <==> now % 4096 < 8 || 4088 <= now % 4096
  {
    WavePosition(now);
  }

  /** End to end: over any ten interrupts the light is on within two ticks of the ideal share. */
  lemma BreathingOnTime(s: State, evs: Events, ch: nat, base: nat, now: nat)
    requires Valid(s) && ch < 9 && Irqs(evs) == 10 && NoWrites(evs, ch) && base <= 255
    requires s.duty[ch] == DutyFor(base, Bright(now))
    ensures var ideal := 1023 * (base * (Bright(now) * Bright(now)));
            -2 * FULL < OnTime(s, evs, ch) * FULL - ideal < 2 * FULL
  {
    DutyAccuracy(base, Bright(now));
    FullCycle(s, evs, ch);
  }
}
