/** What the settings store promises over whole runs: crash safety with the documented checksum
    range, and exactly when the range as coded keeps anything at all. */
module SettingsSafety {
  import opened Word32
  import opened SettingsLog
  import opened SettingsProtocol
  import opened SettingsRuns

  // ---------------------------------------------------------------- crash safety, documented range

  /** The only hypothesis: a page stopped in mid-save, with the crc field or part of the payload
      missing, does not happen to check. Stops outside 5..18 half-words need no hypothesis. */
  predicate NoCollision(st: State, e: Event)
    requires WellFormed(st)
  {
    match e
    case Store(Stopped(k)) =>
      5 <= k <= 18 && Torn(NewBlob(AsDocumented, st), k) != Whole(NewBlob(AsDocumented, st)) ==>
        Read(AsDocumented, Torn(NewBlob(AsDocumented, st), k)) == Refused
    case _ => true
  }

  predicate NoCollisionRun(st: State, events: Events)
    requires WellFormed(st)
    decreases |events|
  {
    events == [] || (NoCollision(st, events[0]) && NoCollisionRun(StepState(AsDocumented, st, events[0]), events[1..]))
  }

  lemma TornHeadNotWhole(range: CrcRange, seqNo: bv16, payload: seq<bv8>, k: nat)
    requires |payload| == PAYLOAD_SIZE && k <= 4
    ensures Torn(Blob(range, seqNo, payload), k) != Whole(Blob(range, seqNo, payload))
  {
    var blob := Blob(range, seqNo, payload);
    WholePrefix(blob);
    assert blob[8] == Header(seqNo, StagedCrc(range, seqNo, payload))[8] == 0x1A;
    assert Whole(blob)[..BLOB_SIZE][8] == Whole(blob)[8];
    assert Torn(blob, k)[8] == 0xFF;
  }

  lemma SoundEvent(st: State, e: Event)
    requires WellFormed(st) && NoCollision(st, e)
    ensures Sound(AsDocumented, st, e)
  {
    DocumentedAccepted(Succ(st.seqNo), st.store);
    match e
    case Store(Stopped(k)) =>
      if k <= 4 {
        TornHeadRejected(AsDocumented, Succ(st.seqNo), st.store, k);
        TornHeadNotWhole(AsDocumented, Succ(st.seqNo), st.store, k);
      } else if k >= 19 {
        TornTailRejected(Succ(st.seqNo), st.store, k);
      }
    case _ =>
  }

  lemma {:induction false} SoundEvents(st: State, events: Events)
    requires WellFormed(st) && NoCollisionRun(st, events)
    ensures SoundRun(AsDocumented, st, events)
    decreases |events|
  {
    if events != [] {
      SoundEvent(st, events[0]);
      SoundEvents(StepState(AsDocumented, st, events[0]), events[1..]);
    }
  }

  lemma FactoryLog(range: CrcRange)
    ensures LogOf(range, Factory()) == Log(Refused, Refused, Factory().store, None, 0)
  {
    BlankRefused(range);
  }

  /** Crash safety: from a new chip, any sequence of boots, edits and saves - each save completing,
      failing, or being cut off after any half-word - behaves like a store without a flash, in which a
      boot brings back the last completed save or one that landed whole since; and whenever both
      pages are valid, their sequence numbers are neighbours and load() takes the later one. */
  lemma CrashSafe(events: Events)
    requires NoCollisionRun(Factory(), events)
    ensures var st := Run(AsDocumented, Factory(), events);
            Inv(LogOf(AsDocumented, st)) &&
            UserRun(View(Factory().store, DEFAULTS, None), events, ViewOf(LogOf(AsDocumented, st)))
  {
    FactoryLog(AsDocumented);
    SoundEvents(Factory(), events);
    RunRefines(AsDocumented, Factory(), events);
  }

  /** Edits and saves that do not succeed. */
  predicate Failing(events: seq<Event>) {
    forall e | e in events :: e.Change? || (e.Store? && !e.outcome.Completed?)
  }

  /** The settings that the stopped saves of events tried to write, starting from a given RAM copy. */
  function Attempts(store: seq<bv8>, events: seq<Event>): set<seq<bv8>>
    decreases |events|
  {
    if events == [] then {}
    else match events[0]
      case Change(payload) => Attempts(payload, events[1..])
      case Store(Stopped(_)) => {store} + Attempts(store, events[1..])
      case _ => Attempts(store, events[1..])
  }

  /** In the store without a flash, failing saves leave the committed settings alone. */
  lemma {:induction false} FailuresKeepCommitted(v: View, events: seq<Event>, w: View)
    requires Failing(events) && UserRun(v, events, w)
    ensures w.committed == v.committed
    ensures w.landed.Some? ==> w.landed == v.landed || w.landed.value in Attempts(v.store, events)
    decreases |events|
  {
    if events != [] {
      var u :| UserStep(v, events[0], u) && UserRun(u, events[1..], w);
      assert events[0] in events;
      FailuresKeepCommitted(u, events[1..], w);
      if events[0].Store? && events[0].outcome.Stopped? {
        assert Attempts(v.store, events) == {v.store} + Attempts(v.store, events[1..]);
      }
    }
  }

  /** After a completed save, whatever unsuccessful saves follow, the next boot brings back the saved
      settings or those of a save that was in flight. */
  lemma SavedOrInFlight(st: State, events: Events)
    requires WellFormed(st) && Inv(LogOf(AsDocumented, st)) && Failing(events)
    requires NoCollisionRun(SaveState(AsDocumented, st, Completed), events)
    ensures var last := Run(AsDocumented, SaveState(AsDocumented, st, Completed), events);
            var booted := LoadState(AsDocumented, last).store;
            booted == st.store || booted in Attempts(st.store, events)
  {
    var saved := SaveState(AsDocumented, st, Completed);
    SoundEvent(st, Store(Completed));
    StepRefined(AsDocumented, st, Store(Completed));
    SoundEvents(saved, events);
    RunRefines(AsDocumented, saved, events);
    var last := Run(AsDocumented, saved, events);
    FailuresKeepCommitted(ViewOf(LogOf(AsDocumented, saved)), events, ViewOf(LogOf(AsDocumented, last)));
    LoadReads(AsDocumented, last);
    BootStep(LogOf(AsDocumented, last));
  }

  // ---------------------------------------------------------------- a page that is not one

  /** A page without the right magic, version and size bytes is passed over by load(), whatever else it
      holds: the other page is taken if it is valid, and the defaults if it is not. */
  lemma WrongFieldSkipped(range: CrcRange, st: State, p: PageId)
    requires WellFormed(st) && !StartsRight(PageOf(st, p))
    ensures var q := if p == A then B else A;
            var other := PageOf(st, q);
            LoadState(range, st) ==
            if HeaderValid(range, other)
            then st.(store := other[16..42], active := Some(q), seqNo := HalfAt(other, 6))
            else st.(store := DEFAULTS, active := None, seqNo := 0)
  {
    WrongFieldRefused(range, PageOf(st, p));
  }

  // ---------------------------------------------------------------- save then load, either range

  function OtherPage(st: State): PageId { if TargetPage(st) == A then B else A }

  /** The page that the next save will keep is refused or carries the sequence number in RAM. */
  predicate KeptIsCurrent(range: CrcRange, st: State)
    requires WellFormed(st)
  {
    HeaderValid(range, PageOf(st, OtherPage(st))) ==> SeqNo(PageOf(st, OtherPage(st))) == st.seqNo
  }

  /** A new chip, or any contents of the two pages once load() has been called. */
  predicate Started(range: CrcRange, st: State) {
    st == Factory() || (WellFormed(st) && LoadState(range, st) == st)
  }

  lemma WholeSeqNo(range: CrcRange, st: State)
    requires WellFormed(st)
    ensures SeqNo(Whole(NewBlob(range, st))) == Succ(st.seqNo) && Payload(Whole(NewBlob(range, st))) == st.store
  {
    Fields(range, Succ(st.seqNo), st.store);
  }

  lemma KeptAtStart(range: CrcRange, st: State)
    requires Started(range, st)
    ensures KeptIsCurrent(range, st)
  {
    if st == Factory() { BlankRefused(range); }
  }

  /** Every boot, edit and save, however it ends, keeps it, for either range and with no hypothesis. */
  lemma KeptStep(range: CrcRange, st: State, e: Event)
    requires WellFormed(st) && (e.Change? ==> |e.payload| == PAYLOAD_SIZE) && KeptIsCurrent(range, st)
    ensures KeptIsCurrent(range, StepState(range, st, e))
  {
    match e
    case PowerOn => KeptAfterLoad(range, st);
    case Change(_) =>
    case Store(EraseFailed(_)) => KeptAfterRewrite(range, st, Blank(PAGE_SIZE));
    case Store(Stopped(k)) => KeptAfterRewrite(range, st, Torn(NewBlob(range, st), k));
    case Store(Completed) => KeptAfterSave(range, st);
  }

  lemma KeptAfterRewrite(range: CrcRange, st: State, page: seq<bv8>)
    requires WellFormed(st) && |page| == PAGE_SIZE && KeptIsCurrent(range, st)
    ensures KeptIsCurrent(range, Replace(st, TargetPage(st), page))
  {
    assert PageOf(Replace(st, TargetPage(st), page), OtherPage(st)) == PageOf(st, OtherPage(st));
  }

  lemma KeptAfterSave(range: CrcRange, st: State)
    requires WellFormed(st)
    ensures KeptIsCurrent(range, SaveState(range, st, Completed))
  {
    var saved := SaveState(range, st, Completed);
    WholeSeqNo(range, st);
    assert OtherPage(saved) == TargetPage(st) && PageOf(saved, TargetPage(st)) == Whole(NewBlob(range, st));
  }

  lemma KeptAfterLoad(range: CrcRange, st: State)
    requires WellFormed(st)
    ensures KeptIsCurrent(range, LoadState(range, st))
  {
  }

  lemma {:induction false} KeptAlways(range: CrcRange, st: State, events: Events)
    requires WellFormed(st) && KeptIsCurrent(range, st)
    ensures KeptIsCurrent(range, Run(range, st, events))
    decreases |events|
  {
    if events != [] {
      KeptStep(range, st, events[0]);
      KeptAlways(range, StepState(range, st, events[0]), events[1..]);
    }
  }

  /** If the page just written is accepted, load() prefers it to the page that was kept. */
  lemma NewPageWins(range: CrcRange, st: State)
    requires WellFormed(st) && KeptIsCurrent(range, st)
    ensures WinnerPage(range, SaveState(range, st, Completed)) == Some(TargetPage(st)) <==>
            HeaderValid(range, Whole(NewBlob(range, st)))
  {
    var saved := SaveState(range, st, Completed);
    assert PageOf(saved, TargetPage(st)) == Whole(NewBlob(range, st));
    assert PageOf(saved, OtherPage(st)) == PageOf(st, OtherPage(st));
    WholeSeqNo(range, st);
    SuccFacts(st.seqNo);
  }

  lemma SavedComesBackIff(range: CrcRange, st: State)
    requires WellFormed(st) && KeptIsCurrent(range, st)
    ensures var saved := SaveState(range, st, Completed);
            LoadState(range, saved) == saved <==> HeaderValid(range, Whole(NewBlob(range, st)))
  {
    var saved := SaveState(range, st, Completed);
    NewPageWins(range, st);
    WholeSeqNo(range, st);
    assert PageOf(saved, TargetPage(st)) == Whole(NewBlob(range, st));
    assert LoadState(range, saved).active == WinnerPage(range, saved);
  }

  /** In every reachable state, for either range and whatever the saves before it met with, loading right
      after a completed save gives back payload, sequence number and active page exactly when the page
      that was written is accepted. */
  lemma SaveThenLoad(range: CrcRange, start: State, events: Events)
    requires Started(range, start)
    ensures var st := Run(range, start, events);
            var saved := SaveState(range, st, Completed);
            LoadState(range, saved) == saved <==> HeaderValid(range, Whole(NewBlob(range, st)))
  {
    KeptAtStart(range, start);
    KeptAlways(range, start, events);
    SavedComesBackIff(range, Run(range, start, events));
  }

  /** With the documented range that is always: no hypothesis about collisions is needed. */
  lemma DocumentedRoundTrip(start: State, events: Events)
    requires Started(AsDocumented, start)
    ensures var saved := SaveState(AsDocumented, Run(AsDocumented, start, events), Completed);
            LoadState(AsDocumented, saved) == saved
  {
    var st := Run(AsDocumented, start, events);
    DocumentedAccepted(Succ(st.seqNo), st.store);
    SaveThenLoad(AsDocumented, start, events);
  }

  /** As coded it is exactly when the checksum word happens to be zero. */
  lemma CodedRoundTripIff(start: State, events: Events)
    requires Started(AsCoded, start)
    ensures var st := Run(AsCoded, start, events);
            var saved := SaveState(AsCoded, st, Completed);
            LoadState(AsCoded, saved) == saved <==> StagedCrc(AsCoded, Succ(st.seqNo), st.store) == 0
  {
    var st := Run(AsCoded, start, events);
    CodedAcceptedIff(Succ(st.seqNo), st.store);
    SaveThenLoad(AsCoded, start, events);
  }

  lemma LoadKeepsPages(range: CrcRange, st: State)
    requires WellFormed(st)
    ensures LoadState(range, st).a == st.a && LoadState(range, st).b == st.b
  {
  }

  /** The checksum word of a completed save is not zero, and no stopped page checks. */
  predicate NothingChecks(st: State, e: Event)
    requires WellFormed(st)
  {
    match e
    case Store(Completed) => StagedCrc(AsCoded, Succ(st.seqNo), st.store) != 0
    case Store(Stopped(k)) => Read(AsCoded, Torn(NewBlob(AsCoded, st), k)) == Refused
    case _ => true
  }

  predicate NothingChecksRun(st: State, events: Events)
    requires WellFormed(st)
    decreases |events|
  {
    events == [] || (NothingChecks(st, events[0]) && NothingChecksRun(StepState(AsCoded, st, events[0]), events[1..]))
  }

  /** As coded, unless a checksum word is zero or a page checks by accident, nothing is ever kept:
      both pages stay refused and every boot restores the defaults. */
  lemma {:induction false} CodedNeverRecovers(st: State, events: Events)
    requires WellFormed(st) && Read(AsCoded, st.a) == Refused && Read(AsCoded, st.b) == Refused
    requires NothingChecksRun(st, events)
    ensures var last := Run(AsCoded, st, events);
            Read(AsCoded, last.a) == Refused && Read(AsCoded, last.b) == Refused &&
            LoadState(AsCoded, last).store == DEFAULTS
    decreases |events|
  {
    if events != [] {
      var next := StepState(AsCoded, st, events[0]);
      CodedStep(st, events[0]);
      CodedNeverRecovers(next, events[1..]);
    }
  }

  lemma CodedStep(st: State, e: Event)
    requires WellFormed(st) && Read(AsCoded, st.a) == Refused && Read(AsCoded, st.b) == Refused
    requires (e.Change? ==> |e.payload| == PAYLOAD_SIZE) && NothingChecks(st, e)
    ensures var next := StepState(AsCoded, st, e); Read(AsCoded, next.a) == Refused && Read(AsCoded, next.b) == Refused
  {
    match e
    case PowerOn => LoadKeepsPages(AsCoded, st);
    case Change(_) =>
    case Store(EraseFailed(_)) => BlankRefused(AsCoded);
    case Store(Stopped(_)) =>
    case Store(Completed) => CodedAcceptedIff(Succ(st.seqNo), st.store);
  }
}
