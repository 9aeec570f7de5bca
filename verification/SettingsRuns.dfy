/** Runs of the settings store on bytes: load() and save() over two pages of flash and the RAM copy,
    with saves that may be stopped after any half-word, and what a boot then finds. */
module SettingsRuns {
  import opened Word32
  import opened SettingsLog
  import opened SettingsProtocol

  /** The two settings pages, and the statics store_, active_addr_ and active_seq_. */
  datatype State = State(a: seq<bv8>, b: seq<bv8>, store: seq<bv8>, active: Option<PageId>, seqNo: bv16)

  predicate WellFormed(st: State) { |st.a| == PAGE_SIZE && |st.b| == PAGE_SIZE && |st.store| == PAYLOAD_SIZE }

  function PageOf(st: State, p: PageId): seq<bv8> { if p == A then st.a else st.b }

  function Replace(st: State, p: PageId, page: seq<bv8>): State {
    if p == A then st.(a := page) else st.(b := page)
  }

  // ---------------------------------------------------------------- the two operations

  function WinnerPage(range: CrcRange, st: State): Option<PageId>
    requires WellFormed(st)
  {
    var va, vb := HeaderValid(range, st.a), HeaderValid(range, st.b);
    if va && vb then (if Newer(SeqNo(st.a), SeqNo(st.b)) then Some(A) else Some(B))
    else if va then Some(A)
    else if vb then Some(B)
    else None
  }

  function LoadState(range: CrcRange, st: State): (r: State)
    requires WellFormed(st)
    ensures WellFormed(r)
  {
    match WinnerPage(range, st)
    case Some(p) => st.(store := Payload(PageOf(st, p)), active := Some(p), seqNo := SeqNo(PageOf(st, p)))
    case None => st.(store := DEFAULTS, active := None, seqNo := 0)
  }

  /** How far a save got: the erase flagged an error, k half-words reached the flash before an
      error or a power cut, or everything succeeded. A power cut is Stopped followed by Boot. */
  datatype Outcome = EraseFailed(erased: bool) | Stopped(k: nat) | Completed

  function TargetPage(st: State): PageId { if st.active == Some(A) then B else A }

  function NewBlob(range: CrcRange, st: State): (blob: seq<bv8>)
    requires WellFormed(st)
    ensures |blob| == BLOB_SIZE
  {
    Blob(range, Succ(st.seqNo), st.store)
  }

  function SaveState(range: CrcRange, st: State, o: Outcome): (r: State)
    requires WellFormed(st)
    ensures WellFormed(r)
  {
    match o
    case EraseFailed(erased) => if erased then Replace(st, TargetPage(st), Blank(PAGE_SIZE)) else st
    case Stopped(k) => Replace(st, TargetPage(st), Torn(NewBlob(range, st), k))
    case Completed =>
      Replace(st, TargetPage(st), Whole(NewBlob(range, st))).(active := Some(TargetPage(st)), seqNo := Succ(st.seqNo))
  }

  datatype Event = PowerOn | Change(payload: seq<bv8>) | Store(outcome: Outcome)

  type Events = s: seq<Event> | forall e | e in s :: e.Change? ==> |e.payload| == PAYLOAD_SIZE

  function StepState(range: CrcRange, st: State, e: Event): (r: State)
    requires WellFormed(st) && (e.Change? ==> |e.payload| == PAYLOAD_SIZE)
    ensures WellFormed(r)
  {
    match e
    case PowerOn => LoadState(range, st)
    case Change(payload) => st.(store := payload)
    case Store(o) => SaveState(range, st, o)
  }

  function Run(range: CrcRange, st: State, events: Events): (r: State)
    requires WellFormed(st)
    ensures WellFormed(r)
    decreases |events|
  {
    if events == [] then st else Run(range, StepState(range, st, events[0]), events[1..])
  }

  /** A new chip: both pages erased, statics zero. */
  function Factory(): (st: State)
    ensures WellFormed(st)
  {
    State(Blank(PAGE_SIZE), Blank(PAGE_SIZE), seq(PAYLOAD_SIZE, i => 0), None, 0)
  }

  // ---------------------------------------------------------------- reading the bytes

  function Read(range: CrcRange, page: seq<bv8>): Reading
    requires |page| == PAGE_SIZE
  {
    if HeaderValid(range, page) then Holds(SeqNo(page), Payload(page)) else Refused
  }

  function LogOf(range: CrcRange, st: State): Log
    requires WellFormed(st)
  {
    Log(Read(range, st.a), Read(range, st.b), st.store, st.active, st.seqNo)
  }

  /** The assumption about the checksum: the page a stopped save leaves is refused unless it is
      whole, and a whole page is accepted. */
  predicate Sound(range: CrcRange, st: State, e: Event)
    requires WellFormed(st)
  {
    match e
    case Store(Completed) => Read(range, Whole(NewBlob(range, st))).Holds?
    case Store(Stopped(k)) =>
      Read(range, Torn(NewBlob(range, st), k)).Holds? <==> Torn(NewBlob(range, st), k) == Whole(NewBlob(range, st))
    case _ => true
  }

  predicate SoundRun(range: CrcRange, st: State, events: Events)
    requires WellFormed(st)
    decreases |events|
  {
    events == [] || (Sound(range, st, events[0]) && SoundRun(range, StepState(range, st, events[0]), events[1..]))
  }

  function ActionOf(range: CrcRange, st: State, e: Event): Action
    requires WellFormed(st)
  {
    match e
    case PowerOn => Boot
    case Change(payload) => Edit(payload)
    case Store(EraseFailed(erased)) => Saving(if erased then Spoilt else Kept)
    case Store(Stopped(k)) =>
      Saving(if Torn(NewBlob(range, st), k) == Whole(NewBlob(range, st)) then Landed else Spoilt)
    case Store(Completed) => Saving(Succeeded)
  }

  lemma BlankRefused(range: CrcRange)
    ensures Read(range, Blank(PAGE_SIZE)) == Refused
  {
    HalvesOfJoin(0xFF, 0xFF);
    assert Lo(SIZE_FIELD) == 0x1A;
  }

  lemma WholeReads(range: CrcRange, seqNo: bv16, payload: seq<bv8>)
    requires |payload| == PAYLOAD_SIZE && Read(range, Whole(Blob(range, seqNo, payload))).Holds?
    ensures Read(range, Whole(Blob(range, seqNo, payload))) == Holds(seqNo, payload)
  {
    Fields(range, seqNo, payload);
  }

  lemma LoadReads(range: CrcRange, st: State)
    requires WellFormed(st)
    ensures LogOf(range, LoadState(range, st)) == Load(LogOf(range, st))
  {
    WinnerReads(range, st);
  }

  lemma WinnerReads(range: CrcRange, st: State)
    requires WellFormed(st)
    ensures WinnerPage(range, st) == Winner(LogOf(range, st))
    ensures WinnerPage(range, st).Some? ==>
              var p := WinnerPage(range, st).value;
              Page(LogOf(range, st), p) == Holds(SeqNo(PageOf(st, p)), Payload(PageOf(st, p)))
  {
  }

  lemma ReplaceReads(range: CrcRange, st: State, page: seq<bv8>, r: Reading)
    requires WellFormed(st) && |page| == PAGE_SIZE && Read(range, page) == r
    ensures LogOf(range, Replace(st, TargetPage(st), page)) == WithPage(LogOf(range, st), Target(LogOf(range, st)), r)
  {
  }

  lemma StoppedReads(range: CrcRange, st: State, k: nat)
    requires WellFormed(st) && Sound(range, st, Store(Stopped(k)))
    ensures LogOf(range, SaveState(range, st, Stopped(k))) ==
            Step(LogOf(range, st), ActionOf(range, st, Store(Stopped(k))))
  {
    TornReads(range, st, k);
    StoppedStep(LogOf(range, st), Torn(NewBlob(range, st), k) == Whole(NewBlob(range, st)));
    ReplaceReads(range, st, Torn(NewBlob(range, st), k), Read(range, Torn(NewBlob(range, st), k)));
  }

  lemma StoppedStep(log: Log, whole: bool)
    ensures Step(log, Saving(if whole then Landed else Spoilt)) ==
            WithPage(log, Target(log), if whole then Holds(Succ(log.seqNo), log.store) else Refused)
  {
  }

  lemma TornReads(range: CrcRange, st: State, k: nat)
    requires WellFormed(st) && Sound(range, st, Store(Stopped(k)))
    ensures Read(range, Torn(NewBlob(range, st), k)) ==
            if Torn(NewBlob(range, st), k) == Whole(NewBlob(range, st)) then Holds(Succ(st.seqNo), st.store)
            else Refused
  {
    if Torn(NewBlob(range, st), k) == Whole(NewBlob(range, st)) { WholeReads(range, Succ(st.seqNo), st.store); }
  }

  lemma CompletedReads(range: CrcRange, st: State)
    requires WellFormed(st) && Sound(range, st, Store(Completed))
    ensures LogOf(range, SaveState(range, st, Completed)) == Save(LogOf(range, st), Succeeded)
  {
    var page, log := Whole(NewBlob(range, st)), LogOf(range, st);
    var rewritten := Replace(st, TargetPage(st), page);
    WholeReads(range, Succ(st.seqNo), st.store);
    ReplaceReads(range, st, page, Holds(Succ(st.seqNo), st.store));
    StaticsReads(range, rewritten, Some(TargetPage(st)), Succ(st.seqNo));
    SucceededStep(log);
  }

  lemma SucceededStep(log: Log)
    ensures Save(log, Succeeded) ==
            WithPage(log, Target(log), Holds(Succ(log.seqNo), log.store))
              .(active := Some(Target(log)), seqNo := Succ(log.seqNo))
  {
  }

  lemma StaticsReads(range: CrcRange, st: State, active: Option<PageId>, seqNo: bv16)
    requires WellFormed(st)
    ensures LogOf(range, st.(active := active, seqNo := seqNo)) ==
            LogOf(range, st).(active := active, seqNo := seqNo)
  {
  }

  lemma EraseReads(range: CrcRange, st: State, erased: bool)
    requires WellFormed(st)
    ensures LogOf(range, SaveState(range, st, EraseFailed(erased))) ==
            Save(LogOf(range, st), if erased then Spoilt else Kept)
  {
    BlankRefused(range);
    ReplaceReads(range, st, Blank(PAGE_SIZE), Refused);
  }

  /** One step on the bytes is one step of the protocol. */
  lemma StepReads(range: CrcRange, st: State, e: Event)
    requires WellFormed(st) && (e.Change? ==> |e.payload| == PAYLOAD_SIZE) && Sound(range, st, e)
    ensures LogOf(range, StepState(range, st, e)) == Step(LogOf(range, st), ActionOf(range, st, e))
  {
    match e
    case PowerOn => LoadReads(range, st);
    case Change(_) =>
    case Store(EraseFailed(erased)) => EraseReads(range, st, erased);
    case Store(Stopped(k)) => StoppedReads(range, st, k);
    case Store(Completed) => CompletedReads(range, st);
  }

  // ---------------------------------------------------------------- what a user may see

  /** The store without a flash, event by event. Only a stopped save has two possible effects, and
      one that programmed every half-word has landed. */
  predicate UserStep(v: View, e: Event, w: View) {
    match e
    case PowerOn => w == View(Recovered(v), Recovered(v), None)
    case Change(payload) => w == v.(store := payload)
    case Store(Completed) => w == View(v.store, v.store, None)
    case Store(EraseFailed(erased)) => w == if erased then v.(landed := None) else v
    case Store(Stopped(k)) => w == v.(landed := Some(v.store)) || (k < HALF_WORDS && w == v.(landed := None))
  }

  ghost predicate UserRun(v: View, events: seq<Event>, w: View)
    decreases |events|
  {
    if events == [] then v == w else exists u :: UserStep(v, events[0], u) && UserRun(u, events[1..], w)
  }

  lemma UserStepOf(range: CrcRange, st: State, e: Event, v: View)
    requires WellFormed(st) && v.store == st.store
    ensures UserStep(v, e, ViewStep(v, ActionOf(range, st, e)))
  {
  }

  lemma StepRefined(range: CrcRange, st: State, e: Event)
    requires WellFormed(st) && (e.Change? ==> |e.payload| == PAYLOAD_SIZE) && Sound(range, st, e)
    requires Inv(LogOf(range, st))
    ensures Inv(LogOf(range, StepState(range, st, e)))
    ensures UserStep(ViewOf(LogOf(range, st)), e, ViewOf(LogOf(range, StepState(range, st, e))))
  {
    StepReads(range, st, e);
    StepRefines(LogOf(range, st), ActionOf(range, st, e));
    UserStepOf(range, st, e, ViewOf(LogOf(range, st)));
  }

  /** Every run refines a run of the store without a flash. */
  lemma {:induction false} RunRefines(range: CrcRange, st: State, events: Events)
    requires WellFormed(st) && Inv(LogOf(range, st)) && SoundRun(range, st, events)
    ensures Inv(LogOf(range, Run(range, st, events)))
    ensures UserRun(ViewOf(LogOf(range, st)), events, ViewOf(LogOf(range, Run(range, st, events))))
    decreases |events|
  {
    if events != [] {
      var next := StepState(range, st, events[0]);
      StepRefined(range, st, events[0]);
      RunRefines(range, next, events[1..]);
      assert UserStep(ViewOf(LogOf(range, st)), events[0], ViewOf(LogOf(range, next)));
    }
  }
}
