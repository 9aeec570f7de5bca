/** The endless loop of firmware/src/app/main.cpp: wheel, motion and button reports, and the long press
    that hands over to the bootloader. */
module MainLoop {
  import opened Encoder
  import opened Word32
  import opened Motion

  const DPI_HOLD_MS: nat := 3000

  datatype Report = Report(buttons: nat, dx: int, dy: int, wheel: int)

  /** What one iteration reads: clock, encoder contacts, button bitmap, what read_motion() returns once the
      sensor is ready (two 12-bit counts, by the contract of Motion.ReadMotion), and the DPI button. */
  datatype Input = Input(now: nat, phase: nat, buttons: nat, ready: bool, x: int, y: int, dpi: bool)

  predicate Good(i: Input) {
    i.now < WORD && i.phase < 4 && i.buttons < 32 && -2048 <= i.x < 2048 && -2048 <= i.y < 2048
  }

  datatype State = State(quad: Quad, lastButtons: nat, dpiSince: nat, dpiWas: bool, rebooting: bool)

  predicate ValidState(s: State) { Encoder.Valid(s.quad) && s.quad.ticks == 0 && s.dpiSince < WORD }

  function Start(phase: nat): State { State(Quad(phase, 0, 0), 0xFF, 0, false, false) }

  function MotionOf(i: Input): (int, int) { if i.ready then (i.x, i.y) else (0, 0) }

  /** The report an iteration would send. */
  function ReportOf(s: State, i: Input): Report
    requires ValidState(s) && Good(i)
  {
    Report(i.buttons, Int16(MotionOf(i).1), Int16(-MotionOf(i).0), Polled(s.quad, i.phase).ticks)
  }

  predicate Sends(s: State, r: Report) { r.buttons != s.lastButtons || r.wheel != 0 || r.dx != 0 || r.dy != 0 }

  function Since(s: State, i: Input): nat { if i.dpi && !s.dpiWas then i.now else s.dpiSince }

  function Next(s: State, i: Input): (r: State)
    requires ValidState(s) && Good(i)
    ensures ValidState(r)
  {
    State(Polled(s.quad, i.phase).(ticks := 0),
          if Sends(s, ReportOf(s, i)) then i.buttons else s.lastButtons,
          Since(s, i), i.dpi,
          i.dpi && Elapsed(i.now, Since(s, i)) >= DPI_HOLD_MS)
  }

  // ---------------------------------------------------------------- the loop body

  class Firmware {
    const encoder: QuadEncoder
    var lastButtons: nat
    var dpiSince: nat
    var dpiWas: bool
    var rebooting: bool
    var sent: seq<Report>

    ghost function Now(): State
      reads this, encoder
    {
      State(encoder.Now(), lastButtons, dpiSince, dpiWas, rebooting)
    }

    constructor (phase: nat)
      requires phase < 4
      ensures Now() == Start(phase) && sent == [] && fresh(encoder)
    {
      encoder := new QuadEncoder(phase);
      lastButtons, dpiSince, dpiWas, rebooting, sent := 0xFF, 0, false, false, [];
    }

    method Iterate(i: Input)
      requires ValidState(Now()) && Good(i) && !rebooting
      modifies this, encoder
      ensures Now() == Next(old(Now()), i)
      ensures var r := ReportOf(old(Now()), i);
              sent == old(sent) + (if Sends(old(Now()), r) then [r] else [])
    {
      ghost var was := Now();
      ghost var r := ReportOf(was, i);
      encoder.Poll(i.phase);
      var wheel := encoder.ConsumeTicks();
      var sx, sy := 0, 0;
      if i.ready { sx, sy := i.x, i.y; }
      var dx, dy := Int16(sy), Int16(-sx);
      assert Report(i.buttons, dx, dy, wheel) == r;
      if i.buttons != lastButtons || wheel != 0 || dx != 0 || dy != 0 {
        sent := sent + [Report(i.buttons, dx, dy, wheel)];
        lastButtons := i.buttons;
      }
      if i.dpi && !dpiWas { dpiSince := i.now; }
      if i.dpi && Elapsed(i.now, dpiSince) >= DPI_HOLD_MS { rebooting := true; }
      dpiWas := i.dpi;
    }
  }

  // ---------------------------------------------------------------- runs

  type Inputs = s: seq<Input> | forall i | i in s :: Good(i)

  function Run(s: State, ins: Inputs): (r: State)
    requires ValidState(s)
    ensures ValidState(r)
    decreases |ins|
  {
    if ins == [] then s else Next(Run(s, ins[..|ins| - 1]), ins[|ins| - 1])
  }

  function Reports(s: State, ins: Inputs): seq<Report>
    requires ValidState(s)
    decreases |ins|
  {
    if ins == [] then []
    else
      var before, i := ins[..|ins| - 1], ins[|ins| - 1];
      var r := ReportOf(Run(s, before), i);
      if Sends(Run(s, before), r) then Reports(s, before) + [r] else Reports(s, before)
  }

  function SumWheel(rs: seq<Report>): int { if rs == [] then 0 else SumWheel(rs[..|rs| - 1]) + rs[|rs| - 1].wheel }
  function SumDx(rs: seq<Report>): int { if rs == [] then 0 else SumDx(rs[..|rs| - 1]) + rs[|rs| - 1].dx }
  function SumDy(rs: seq<Report>): int { if rs == [] then 0 else SumDy(rs[..|rs| - 1]) + rs[|rs| - 1].dy }

  function SumX(ins: seq<Input>): int { if ins == [] then 0 else SumX(ins[..|ins| - 1]) + MotionOf(ins[|ins| - 1]).0 }
  function SumY(ins: seq<Input>): int { if ins == [] then 0 else SumY(ins[..|ins| - 1]) + MotionOf(ins[|ins| - 1]).1 }

  /** The encoder positions behind the phases: pos[0] at start, pos[k + 1] at iteration k. */
  predicate Behind(pos: seq<int>, ins: Inputs) {
    |pos| == |ins| + 1 && forall k | 0 <= k < |ins| :: ins[k].phase == PhaseAt(pos[k + 1])
  }

  predicate SlowEnough(pos: seq<int>) { forall k | 0 < k < |pos| :: -1 <= pos[k] - pos[k - 1] <= 1 }

  lemma SumsGrow(rs: seq<Report>, r: Report)
    ensures SumWheel(rs + [r]) == SumWheel(rs) + r.wheel
    ensures SumDx(rs + [r]) == SumDx(rs) + r.dx && SumDy(rs + [r]) == SumDy(rs) + r.dy
  {
    assert (rs + [r])[..|rs|] == rs;
  }

  /** Wheel conservation: if the wheel moves at most one phase an iteration, twice the reported ticks plus
      the carried remainder is the distance moved. */
  lemma {:induction false} WheelConserved(ins: Inputs, pos: seq<int>)
    requires Behind(pos, ins) && SlowEnough(pos)
    ensures var s := Start(PhaseAt(pos[0]));
            2 * SumWheel(Reports(s, ins)) + Run(s, ins).quad.accum == pos[|ins|] - pos[0] &&
            Run(s, ins).quad.last == PhaseAt(pos[|ins|])
    decreases |ins|
  {
    if ins != [] {
      var n := |ins| - 1;
      var was := pos[..n + 1];
      assert was[0] == pos[0] && was[n] == pos[n];
      WheelConserved(ins[..n], was);
      WheelGrows(Start(PhaseAt(pos[0])), ins, pos[n], pos[n + 1]);
    }
  }

  lemma WheelGrows(s: State, ins: Inputs, p: int, q: int)
    requires ValidState(s) && ins != [] && ins[|ins| - 1].phase == PhaseAt(q) && -1 <= q - p <= 1
    requires Run(s, ins[..|ins| - 1]).quad.last == PhaseAt(p)
    ensures var before := ins[..|ins| - 1];
            2 * SumWheel(Reports(s, ins)) + Run(s, ins).quad.accum ==
            2 * SumWheel(Reports(s, before)) + Run(s, before).quad.accum + q - p
    ensures Run(s, ins).quad.last == PhaseAt(q)
  {
    var before, i := ins[..|ins| - 1], ins[|ins| - 1];
    WheelStep(Run(s, before), i, p, q);
    ReportFacts(Run(s, before), i);
    SumsGrow(Reports(s, before), ReportOf(Run(s, before), i));
  }

  /** No report carries more than one tick, so the clamp at 127 is never reached, however fast the wheel. */
  lemma {:induction false} WheelNeverClamped(phase: nat, ins: Inputs)
    requires phase < 4
    ensures forall r | r in Reports(Start(phase), ins) :: -1 <= r.wheel <= 1
    decreases |ins|
  {
    if ins != [] {
      var before := ins[..|ins| - 1];
      WheelNeverClamped(phase, before);
      ReportFacts(Run(Start(phase), before), ins[|ins| - 1]);
    }
  }

  lemma WheelStep(s: State, i: Input, p: int, q: int)
    requires ValidState(s) && Good(i) && s.quad.last == PhaseAt(p) && i.phase == PhaseAt(q) && -1 <= q - p <= 1
    ensures 2 * TickOf(s.quad, i.phase) + Next(s, i).quad.accum == s.quad.accum + q - p
    ensures Next(s, i).quad.last == PhaseAt(q)
  {
    TableReadsMovement(p, q);
  }

  lemma ReportFacts(s: State, i: Input)
    requires ValidState(s) && Good(i)
    ensures var r := ReportOf(s, i);
            r.dx == MotionOf(i).1 && r.dy == -MotionOf(i).0 && r.wheel == TickOf(s.quad, i.phase) &&
            -1 <= r.wheel <= 1 &&
            (!Sends(s, r) ==> r.dx == 0 && r.dy == 0 && r.wheel == 0 && r.buttons == s.lastButtons)
  {
    Int16Small(MotionOf(i).1);
    Int16Small(-MotionOf(i).0);
    TickRange(s.quad, i.phase);
  }

  /** Motion conservation: the reported deltas sum to the sensor's, turned by the mounting; iterations
      without a report lose nothing; and the buttons last reported are the current ones. */
  lemma {:induction false} MotionConserved(phase: nat, ins: Inputs)
    requires phase < 4
    ensures var rs := Reports(Start(phase), ins);
            SumDx(rs) == SumY(ins) && SumDy(rs) == -SumX(ins) &&
            (ins != [] ==> rs != [] && rs[|rs| - 1].buttons == ins[|ins| - 1].buttons ==
                           Run(Start(phase), ins).lastButtons)
    decreases |ins|
  {
    if ins != [] {
      MotionConserved(phase, ins[..|ins| - 1]);
      MotionGrows(Start(phase), ins);
      ButtonsReported(Start(phase), ins);
    }
  }

  lemma ButtonsReported(s: State, ins: Inputs)
    requires ValidState(s) && ins != []
    requires var before := ins[..|ins| - 1];
             var rs := Reports(s, before);
             if before == [] then s.lastButtons == 0xFF
             else rs != [] && rs[|rs| - 1].buttons == Run(s, before).lastButtons
    ensures var rs, b := Reports(s, ins), ins[|ins| - 1].buttons;
            rs != [] && rs[|rs| - 1].buttons == b == Run(s, ins).lastButtons
  {
    var before, i := ins[..|ins| - 1], ins[|ins| - 1];
    assert i.buttons < 32;
    ReportFacts(Run(s, before), i);
  }

  lemma MotionGrows(s: State, ins: Inputs)
    requires ValidState(s) && ins != []
    ensures var before, i := ins[..|ins| - 1], ins[|ins| - 1];
            SumDx(Reports(s, ins)) == SumDx(Reports(s, before)) + MotionOf(i).1 &&
            SumDy(Reports(s, ins)) == SumDy(Reports(s, before)) - MotionOf(i).0
  {
    var before, i := ins[..|ins| - 1], ins[|ins| - 1];
    ReportFacts(Run(s, before), i);
    SumsGrow(Reports(s, before), ReportOf(Run(s, before), i));
  }

  // ---------------------------------------------------------------- the long press

  /** The iteration at which the press that includes the last iteration began. */
  function PressStart(ins: seq<Input>): (k: nat)
    requires ins != [] && ins[|ins| - 1].dpi
    ensures k < |ins|
    decreases |ins|
  {
    if |ins| >= 2 && ins[|ins| - 2].dpi then PressStart(ins[..|ins| - 1]) else |ins| - 1
  }

  /** The firmware hands over to the bootloader exactly in the iterations where the button is down and
      the clock reads at least 3 s, modulo 2^32 ms, past the iteration that first saw this press. */
  lemma {:induction false} RebootIff(phase: nat, ins: Inputs)
    requires phase < 4 && ins != []
    ensures Run(Start(phase), ins).rebooting <==>
            ins[|ins| - 1].dpi && Elapsed(ins[|ins| - 1].now, ins[PressStart(ins)].now) >= DPI_HOLD_MS
    ensures Run(Start(phase), ins).dpiWas == ins[|ins| - 1].dpi
    ensures ins[|ins| - 1].dpi ==> Run(Start(phase), ins).dpiSince == ins[PressStart(ins)].now
    decreases |ins|
  {
    if |ins| > 1 { RebootIff(phase, ins[..|ins| - 1]); }
  }

  /** The clock readings of a run are these real times, in milliseconds, modulo 2^32. */
  predicate AtTimes(ins: Inputs, times: seq<nat>) {
    |times| == |ins| && forall k | 0 <= k < |ins| :: ins[k].now == times[k] % WORD
  }

  /** In real time: as long as the press that includes the last iteration has lasted less than 2^32 ms, the
      firmware hands over exactly when it has lasted at least 3000 ms since the iteration that saw it begin. */
  lemma LongPress(phase: nat, ins: Inputs, times: seq<nat>)
    requires phase < 4 && ins != [] && AtTimes(ins, times) && ins[|ins| - 1].dpi
    requires times[PressStart(ins)] <= times[|ins| - 1] < times[PressStart(ins)] + WORD
    ensures Run(Start(phase), ins).rebooting <==> times[|ins| - 1] - times[PressStart(ins)] >= 3000
  {
    RebootIff(phase, ins);
    ElapsedExact(times[|ins| - 1], times[PressStart(ins)]);
  }

  /** A press begins at an iteration that sees the button down after one that did not. */
  lemma {:induction false} PressBegins(ins: seq<Input>)
    requires ins != [] && ins[|ins| - 1].dpi
    ensures var k := PressStart(ins);
            (forall j | k <= j < |ins| :: ins[j].dpi) && (k > 0 ==> !ins[k - 1].dpi)
    decreases |ins|
  {
    if |ins| >= 2 && ins[|ins| - 2].dpi { PressBegins(ins[..|ins| - 1]); }
  }

  // ---------------------------------------------------------------- when a report is sent

  /** What an iteration sends: a report if it is the first, the buttons differ from those of the iteration
      before, the sensor is ready and has moved, or the wheel completes a tick; the report carries the sensor's
      Y as X and its negated X as Y. */
  function Due(before: seq<Input>, i: Input, tick: int): seq<Report> {
    var (x, y) := if i.ready then (i.x, i.y) else (0, 0);
    if before == [] || i.buttons != before[|before| - 1].buttons || x != 0 || y != 0 || tick != 0
    then [Report(i.buttons, y, -x, tick)]
    else []
  }

  lemma ReportSentIff(phase: nat, ins: Inputs)
    requires phase < 4 && ins != []
    ensures var before, i := ins[..|ins| - 1], ins[|ins| - 1];
            Reports(Start(phase), ins) ==
            Reports(Start(phase), before) + Due(before, i, TickOf(Run(Start(phase), before).quad, i.phase))
  {
    var before, i := ins[..|ins| - 1], ins[|ins| - 1];
    var s := Run(Start(phase), before);
    MotionConserved(phase, before);
    assert i.buttons < 32;
    DueIff(s, before, i);
  }

  lemma DueIff(s: State, before: seq<Input>, i: Input)
    requires ValidState(s) && Good(i)
    requires s.lastButtons == if before == [] then 0xFF else before[|before| - 1].buttons
    ensures Due(before, i, TickOf(s.quad, i.phase)) == if Sends(s, ReportOf(s, i)) then [ReportOf(s, i)] else []
  {
    ReportIs(s, i);
    SendsIff(s, i);
  }

  lemma ReportIs(s: State, i: Input)
    requires ValidState(s) && Good(i)
    ensures var (x, y) := if i.ready then (i.x, i.y) else (0, 0);
            ReportOf(s, i) == Report(i.buttons, y, -x, TickOf(s.quad, i.phase))
  {
    ReportFacts(s, i);
  }

  lemma SendsIff(s: State, i: Input)
    requires ValidState(s) && Good(i)
    ensures var (x, y) := if i.ready then (i.x, i.y) else (0, 0);
            Sends(s, ReportOf(s, i)) <==>
            i.buttons != s.lastButtons || x != 0 || y != 0 || TickOf(s.quad, i.phase) != 0
  {
    ReportFacts(s, i);
  }

  // ---------------------------------------------------------------- the wheel in one direction

  predicate Rising(pos: seq<int>) { forall k | 0 < k < |pos| :: 0 <= pos[k] - pos[k - 1] <= 1 }

  predicate Falling(pos: seq<int>) { forall k | 0 < k < |pos| :: -1 <= pos[k] - pos[k - 1] <= 0 }

  /** A wheel turned one way, at most one phase an iteration, reports one tick for every two phases: the
      distance halved and rounded toward zero. */
  lemma {:induction false} TurnForward(ins: Inputs, pos: seq<int>)
    requires Behind(pos, ins) && Rising(pos)
    ensures var s := Start(PhaseAt(pos[0]));
            SumWheel(Reports(s, ins)) == (pos[|ins|] - pos[0]) / 2 &&
            Run(s, ins).quad.last == PhaseAt(pos[|ins|]) && Run(s, ins).quad.accum == (pos[|ins|] - pos[0]) % 2
    decreases |ins|
  {
    if ins != [] {
      var n := |ins| - 1;
      TurnForward(ins[..n], pos[..n + 1]);
      OneTurn(Start(PhaseAt(pos[0])), ins, pos[n], pos[n + 1]);
    }
  }

  lemma {:induction false} TurnBackward(ins: Inputs, pos: seq<int>)
    requires Behind(pos, ins) && Falling(pos)
    ensures var s := Start(PhaseAt(pos[0]));
            SumWheel(Reports(s, ins)) == -((pos[0] - pos[|ins|]) / 2) &&
            Run(s, ins).quad.last == PhaseAt(pos[|ins|]) && Run(s, ins).quad.accum == -((pos[0] - pos[|ins|]) % 2)
    decreases |ins|
  {
    if ins != [] {
      var n := |ins| - 1;
      TurnBackward(ins[..n], pos[..n + 1]);
      OneTurn(Start(PhaseAt(pos[0])), ins, pos[n], pos[n + 1]);
    }
  }

  /** One iteration of at most one phase: the tick comes with the second phase in the same direction. */
  lemma OneTurn(s: State, ins: Inputs, p: int, q: int)
    requires ValidState(s) && ins != [] && ins[|ins| - 1].phase == PhaseAt(q) && -1 <= q - p <= 1
    requires Run(s, ins[..|ins| - 1]).quad.last == PhaseAt(p)
    ensures var before := ins[..|ins| - 1];
            var a := Run(s, before).quad.accum + q - p;
            var tick := if a == 2 then 1 else if a == -2 then -1 else 0;
            SumWheel(Reports(s, ins)) == SumWheel(Reports(s, before)) + tick &&
            Run(s, ins).quad.accum == a - 2 * tick && Run(s, ins).quad.last == PhaseAt(q)
  {
    var before, i := ins[..|ins| - 1], ins[|ins| - 1];
    OnePoll(Run(s, before).quad, p, q);
    ReportFacts(Run(s, before), i);
    SumsGrow(Reports(s, before), ReportOf(Run(s, before), i));
  }

  lemma OnePoll(quad: Quad, p: int, q: int)
    requires Encoder.Valid(quad) && quad.last == PhaseAt(p) && -1 <= q - p <= 1
    ensures var a := quad.accum + q - p;
            var tick := if a == 2 then 1 else if a == -2 then -1 else 0;
            TickOf(quad, PhaseAt(q)) == tick && Polled(quad, PhaseAt(q)).accum == a - 2 * tick &&
            Polled(quad, PhaseAt(q)).last == PhaseAt(q)
  {
    TableReadsMovement(p, q);
  }
}
