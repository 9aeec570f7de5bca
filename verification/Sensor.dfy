/** The timed bring-up of the optical sensor (firmware/src/drivers/sensor_1855.cpp:53-92, 130-146):
    which frames go out, in which order, and how far apart, for any sequence of calls. */
module Sensor {
  import opened Word32

  const VCC_SETTLE_MS: nat := 100
  const PASS_GAP_MS: nat := 166

  type Frame = seq<bv8>

  datatype InitState = Idle | WaitVcc | Pass1 | WaitGap | Pass2 | SetDpi | Ready

  /** The driver's two fields and everything it has put on the bus. */
  datatype State = State(state: InitState, started: nat, sent: seq<Frame>)

  function DpiFrame(code: bv8): Frame { [0x20, code, 0x21, 0xFA, 0x22, 0xC8, 0x23, 0x97, 0x24, code] }

  const COMMIT: Frame := [0x02, 0x80]

  predicate Waiting(s: State, now: nat) {
    (s.state == WaitVcc && Elapsed(now, s.started) < VCC_SETTLE_MS) ||
    (s.state == WaitGap && Elapsed(now, s.started) < PASS_GAP_MS) || s.state == Idle || s.state == Ready
  }

  function Tick(frames: seq<Frame>, s: State, now: nat): State {
    if Waiting(s, now) then s
    else match s.state
      case Idle => s
      case WaitVcc => s.(state := Pass1)
      case Pass1 => State(WaitGap, now, s.sent + frames)
      case WaitGap => s.(state := Pass2)
      case Pass2 => s.(state := SetDpi, sent := s.sent + frames)
      case SetDpi => s.(state := Ready, sent := s.sent + [DpiFrame(0x08), COMMIT])
      case Ready => s
  }

  class Driver {
    const frames: seq<Frame>
    var state: InitState
    var started: nat
    var sent: seq<Frame>

    ghost function Now(): State
      reads this
    {
      State(state, started, sent)
    }

    /** The replay table has ten frames; nothing happens before init_start. */
    constructor (frames: seq<Frame>)
      requires |frames| == 10
      ensures this.frames == frames && Now() == State(Idle, 0, [])
    {
      this.frames := frames;
      state, started, sent := Idle, 0, [];
    }

    /** init_start at clock reading now. */
    method InitStart(now: nat)
      requires now < WORD
      modifies this`state, this`started
      ensures Now() == State(WaitVcc, now, old(sent))
    {
      state, started := WaitVcc, now;
    }

    method SendFrame(f: Frame)
      modifies this`sent
      ensures sent == old(sent) + [f]
    {
      sent := sent + [f];
    }

    method Replay()
      requires |frames| == 10
      modifies this`sent
      ensures sent == old(sent) + frames
    {
      for i := 0 to 10
        invariant sent == old(sent) + frames[..i]
      {
        SendFrame(frames[i]);
        assert frames[..i + 1] == frames[..i] + [frames[i]];
      }
    }

    method SetDpiCode(code: bv8)
      modifies this`sent
      ensures sent == old(sent) + [DpiFrame(code), COMMIT]
    {
      SendFrame([0x20, code, 0x21, 0xFA, 0x22, 0xC8, 0x23, 0x97, 0x24, code]);
      SendFrame([0x02, 0x80]);
    }

    /** init_tick. */
    method InitTick(now: nat)
      requires |frames| == 10 && now < WORD
      modifies this
      ensures Now() == Tick(frames, old(Now()), now)
    {
      match state
      case Idle => return;
      case Ready => return;
      case WaitVcc =>
        if Elapsed(now, started) < VCC_SETTLE_MS { return; }
        state := Pass1;
      case Pass1 =>
        Replay();
        state, started := WaitGap, now;
      case WaitGap =>
        if Elapsed(now, started) < PASS_GAP_MS { return; }
        state := Pass2;
      case Pass2 =>
        Replay();
        state := SetDpi;
      case SetDpi =>
        SetDpiCode(0x08);
        state := Ready;
    }
  }

  // ---------------------------------------------------------------- runs

  /** The driver after init_start at time start and calls at the given times, in milliseconds since some
      origin; the clock it reads is the time modulo 2^32. */
  function Run(frames: seq<Frame>, start: nat, times: seq<nat>): State
    decreases |times|
  {
    if times == [] then State(WaitVcc, start % WORD, [])
    else Tick(frames, Run(frames, start, times[..|times| - 1]), times[|times| - 1] % WORD)
  }

  predicate InOrder(start: nat, times: seq<nat>) {
    (forall i | 0 <= i < |times| :: start <= times[i]) && forall i, j | 0 <= i < j < |times| :: times[i] <= times[j]
  }

  function Expected(frames: seq<Frame>, s: InitState): seq<Frame> {
    match s
    case Idle => []
    case WaitVcc => []
    case Pass1 => []
    case WaitGap => frames
    case Pass2 => frames
    case SetDpi => frames + frames
    case Ready => frames + frames + [DpiFrame(0x08), COMMIT]
  }

  /** What has been sent is determined by the state; in particular Ready means: all frames, all frames
      again, the DPI frame, the commit - and nothing since. */
  lemma {:induction false} SentByState(frames: seq<Frame>, start: nat, times: seq<nat>)
    ensures var s := Run(frames, start, times); s.sent == Expected(frames, s.state)
    decreases |times|
  {
    if times != [] { SentByState(frames, start, times[..|times| - 1]); }
  }

  /** The call with index i ran the first pass. */
  predicate RanPass1(frames: seq<Frame>, start: nat, times: seq<nat>, i: nat) {
    i < |times| && Run(frames, start, times[..i]).state == Pass1
  }

  /** The clock reading kept while waiting is that of init_start, then that of the first pass. */
  lemma {:induction false} StartedByHistory(frames: seq<Frame>, start: nat, times: seq<nat>)
    ensures var s := Run(frames, start, times);
            (s.state == WaitVcc || s.state == Pass1 ==> s.started == start % WORD) &&
            (s.state == WaitGap || s.state == Pass2 ==>
               exists i: nat :: RanPass1(frames, start, times, i) && s.started == times[i] % WORD)
    decreases |times|
  {
    if times != [] {
      var n := |times| - 1;
      var before := times[..n];
      StartedByHistory(frames, start, before);
      var s := Run(frames, start, before);
      if s.state == Pass1 {
        assert RanPass1(frames, start, times, n);
      } else if s.state == WaitGap {
        var i: nat :| RanPass1(frames, start, before, i) && s.started == before[i] % WORD;
        assert times[..i] == before[..i];
        assert RanPass1(frames, start, times, i);
      }
    }
  }

  /** The waits are long enough in real time, across any number of clock wraps: the supply has had at
      least 100 ms when WaitVcc is left, and the first pass is at least 166 ms old when WaitGap is. */
  lemma WaitsLongEnough(frames: seq<Frame>, start: nat, times: seq<nat>)
    requires times != [] && InOrder(start, times)
    ensures var n := |times| - 1;
            var was, left := Run(frames, start, times[..n]).state, Run(frames, start, times).state;
            (was == WaitVcc && left == Pass1 ==> times[n] - start >= 100) &&
            (was == WaitGap && left == Pass2 ==>
               exists i: nat :: RanPass1(frames, start, times, i) && times[n] - times[i] >= 166)
  {
    var n := |times| - 1;
    var before := times[..n];
    StartedByHistory(frames, start, before);
    var s := Run(frames, start, before);
    ElapsedAtMost(times[n], start);
    if s.state == WaitGap {
      var i: nat :| RanPass1(frames, start, before, i) && s.started == before[i] % WORD;
      assert times[..i] == before[..i];
      assert RanPass1(frames, start, times, i);
      ElapsedAtMost(times[n], times[i]);
    }
  }

  function Rank(s: InitState): nat {
    match s
    case Idle => 6
    case WaitVcc => 5
    case Pass1 => 4
    case WaitGap => 3
    case Pass2 => 2
    case SetDpi => 1
    case Ready => 0
  }

  /** Every call either changes nothing at all or comes one state closer to Ready; only the two waits may
      stay, and before init_start and after Ready nothing happens. */
  lemma ProgressOrWait(frames: seq<Frame>, s: State, now: nat)
    ensures var t := Tick(frames, s, now);
            (t == s || Rank(t.state) == Rank(s.state) - 1) &&
            (s.state == Idle || s.state == Ready ==> t == s) &&
            (s.state == Pass1 || s.state == Pass2 || s.state == SetDpi ==> t != s)
  {
  }

  // ---------------------------------------------------------------- the waits end

  /** From the first pass on, the reading kept is that of the call that ran it. */
  lemma {:induction false} AfterPass1(frames: seq<Frame>, start: nat, times: seq<nat>, i: nat)
    requires RanPass1(frames, start, times, i)
    ensures var s := Run(frames, start, times);
            Rank(s.state) <= 3 && (s.state == WaitGap || s.state == Pass2 ==> s.started == times[i] % WORD)
    decreases |times|
  {
    var n := |times| - 1;
    if i < n {
      assert times[..i] == times[..n][..i];
      AfterPass1(frames, start, times[..n], i);
    }
  }

  /** No wait is longer than asked for: a call at least 100 ms after init_start leaves WaitVcc, and one at
      least 166 ms after the first pass leaves WaitGap, if it comes within one turn of the clock. */
  lemma WaitsEnd(frames: seq<Frame>, start: nat, times: seq<nat>)
    requires times != [] && InOrder(start, times)
    ensures var n := |times| - 1;
            var was, left := Run(frames, start, times[..n]).state, Run(frames, start, times).state;
            (was == WaitVcc && 100 <= times[n] - start < WORD ==> left == Pass1) &&
            (forall i: nat | RanPass1(frames, start, times[..n], i) ::
               was == WaitGap && 166 <= times[n] - times[i] < WORD ==> left == Pass2)
  {
    var n := |times| - 1;
    var before := times[..n];
    var s := Run(frames, start, before);
    StartedByHistory(frames, start, before);
    if times[n] < start + WORD { ElapsedExact(times[n], start); }
    forall i: nat | RanPass1(frames, start, before, i)
      ensures s.state == WaitGap && 166 <= times[n] - times[i] < WORD ==> Run(frames, start, times).state == Pass2
    {
      AfterPass1(frames, start, before, i);
      if times[n] < times[i] + WORD { ElapsedExact(times[n], times[i]); }
    }
  }

  /** Call k comes within g ms of the one before it, the first one of init_start. */
  predicate InPace(start: nat, times: seq<nat>, g: nat, k: nat)
    requires k < |times|
  {
    if k == 0 then start <= times[0] <= start + g else times[k - 1] <= times[k] <= times[k - 1] + g
  }

  predicate Paced(start: nat, times: seq<nat>, g: nat) { forall k | 0 <= k < |times| :: InPace(start, times, g, k) }

  function LastTime(start: nat, times: seq<nat>): nat { if times == [] then start else times[|times| - 1] }

  /** How far a bring-up that is not finished can be in time, state by state; tau is the time of the first
      pass while that matters. */
  predicate OnSchedule(s: State, start: nat, now: nat, g: nat, tau: nat) {
    match s.state
    case Idle => false
    case WaitVcc => now < start + 100
    case Pass1 => now < start + 100 + g
    case WaitGap =>
      s.started == tau % WORD && start <= tau <= now < tau + 166 && tau < start + 100 + 2 * g
    case Pass2 => now < start + 266 + 3 * g
    case SetDpi => now < start + 266 + 4 * g
    case Ready => true
  }

  lemma {:induction false} KeepsSchedule(frames: seq<Frame>, start: nat, times: seq<nat>, g: nat) returns (tau: nat)
    requires Paced(start, times, g) && g + 166 <= WORD
    ensures start <= LastTime(start, times)
    ensures OnSchedule(Run(frames, start, times), start, LastTime(start, times), g, tau)
    ensures var s := Run(frames, start, times);
            s.state == WaitVcc || s.state == Pass1 ==> s.started == start % WORD
    decreases |times|
  {
    if times == [] {
      tau := 0;
    } else {
      var n := |times| - 1;
      var before := times[..n];
      assert InPace(start, times, g, n);
      forall k | 0 <= k < n ensures InPace(start, before, g, k) { assert InPace(start, times, g, k); }
      var tau' := KeepsSchedule(frames, start, before, g);
      assert LastTime(start, before) == if n == 0 then start else times[n - 1];
      tau := ScheduleStep(frames, Run(frames, start, before), start, LastTime(start, before), times[n], g, tau');
    }
  }

  lemma ScheduleStep(frames: seq<Frame>, s: State, start: nat, was: nat, now: nat, g: nat, tau: nat)
    returns (tau': nat)
    requires start <= was <= now <= was + g && g + 166 <= WORD && OnSchedule(s, start, was, g, tau)
    requires s.state == WaitVcc || s.state == Pass1 ==> s.started == start % WORD
    ensures var t := Tick(frames, s, now % WORD);
            OnSchedule(t, start, now, g, tau') &&
            (t.state == WaitVcc || t.state == Pass1 ==> t.started == start % WORD)
  {
    tau' := if s.state == Pass1 then now else tau;
    if s.state == WaitVcc { ElapsedExact(now, start); }
    if s.state == WaitGap { ElapsedExact(now, tau); }
  }

  /** Bring-up completes: if init_tick is called at least every g ms, then 266 + 4 g ms after init_start the
      sensor is ready and the whole trace has been sent, however the clock wraps. */
  lemma BringUpCompletes(frames: seq<Frame>, start: nat, times: seq<nat>, g: nat)
    requires Paced(start, times, g) && g + 166 <= WORD && LastTime(start, times) >= start + 266 + 4 * g
    ensures Run(frames, start, times) ==
            State(Ready, Run(frames, start, times).started, frames + frames + [DpiFrame(0x08), COMMIT])
  {
    var tau := KeepsSchedule(frames, start, times, g);
    SentByState(frames, start, times);
  }

  /** The DPI frame: the five registers 0x20 to 0x24 in one frame, with the code in both of X and Y. */
  lemma DpiFrameSetsBoth(code: bv8)
    ensures |DpiFrame(code)| == 10
    ensures forall k | 0 <= k < 5 :: DpiFrame(code)[2 * k] == [0x20, 0x21, 0x22, 0x23, 0x24][k]
    ensures DpiFrame(code)[1] == DpiFrame(code)[9] == code && DpiFrame(code)[3] == 0xFA
    ensures DpiFrame(code)[5] == 0xC8 && DpiFrame(code)[7] == 0x97 && COMMIT == [0x02, 0x80]
  {
  }
}
