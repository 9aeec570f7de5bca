/** The A/B settings log with the bytes abstracted away: each page is either refused or reads as a
    sequence number and a payload. Here lives the argument that load() finds the right page. */
module SettingsProtocol {

  datatype Option<+T> = None | Some(value: T)

  datatype PageId = A | B

  /** What header_valid() and the header fields make of a page. */
  datatype Reading = Refused | Holds(seqNo: bv16, payload: seq<bv8>)

  /** Both pages as read, and the statics store_, active_addr_ and active_seq_. */
  datatype Log = Log(a: Reading, b: Reading, store: seq<bv8>, active: Option<PageId>, seqNo: bv16)

  function Page(log: Log, p: PageId): Reading { if p == A then log.a else log.b }

  function WithPage(log: Log, p: PageId, r: Reading): Log { if p == A then log.(a := r) else log.(b := r) }

  /** The payload that load_defaults() builds from the two slots' defaults. */
  const DEFAULTS: seq<bv8> := [1, 255, 255, 0, 0, 0, 255, 0, 0, 0, 255, 0,
                               0x20, 0x03, 0x40, 0x06, 0x60, 0x09, 0x80, 0x0C, 0x00, 0x00, 4, 1, 0, 0]

  // ---------------------------------------------------------------- sequence numbers

  function Succ(s: bv16): bv16 { s + 1 }

  /** The int16 comparison of load(): x is at least as new as y. */
  predicate Newer(x: bv16, y: bv16) { (x - y) & 0x8000 == 0 }

  lemma SuccFacts(s: bv16)
    ensures Newer(Succ(s), s) && !Newer(s, Succ(s)) && Succ(Succ(s)) != s && Succ(s) != s
  {
  }

  lemma SuccMoves(s: bv16) ensures Succ(s) != s && Succ(Succ(s)) != s {}

  // ---------------------------------------------------------------- load and save

  function Winner(log: Log): Option<PageId> {
    if log.a.Holds? && log.b.Holds? then (if Newer(log.a.seqNo, log.b.seqNo) then Some(A) else Some(B))
    else if log.a.Holds? then Some(A)
    else if log.b.Holds? then Some(B)
    else None
  }

  function Load(log: Log): Log {
    match Winner(log)
    case Some(p) =>
      assert Page(log, p).Holds?;
      log.(store := Page(log, p).payload, active := Some(p), seqNo := Page(log, p).seqNo)
    case None => log.(store := DEFAULTS, active := None, seqNo := 0)
  }

  function Target(log: Log): PageId { if log.active == Some(A) then B else A }

  /** What a save did to its page: nothing, spoilt it, wrote all of it without returning success,
      or succeeded. */
  datatype Landing = Kept | Spoilt | Landed | Succeeded

  function Save(log: Log, landing: Landing): Log {
    var entry := Holds(Succ(log.seqNo), log.store);
    match landing
    case Kept => log
    case Spoilt => WithPage(log, Target(log), Refused)
    case Landed => WithPage(log, Target(log), entry)
    case Succeeded => WithPage(log, Target(log), entry).(active := Some(Target(log)), seqNo := Succ(log.seqNo))
  }

  datatype Action = Boot | Edit(payload: seq<bv8>) | Saving(landing: Landing)

  function Step(log: Log, e: Action): Log {
    match e
    case Boot => Load(log)
    case Edit(payload) => log.(store := payload)
    case Saving(landing) => Save(log, landing)
  }

  // ---------------------------------------------------------------- the store without a flash

  /** What matters to the user: the settings in RAM, those a reboot would otherwise bring back, and
      those of an unsuccessful save that nevertheless reached the flash in full. */
  datatype View = View(store: seq<bv8>, committed: seq<bv8>, landed: Option<seq<bv8>>)

  function Recovered(v: View): seq<bv8> { if v.landed.Some? then v.landed.value else v.committed }

  function ViewStep(v: View, e: Action): View {
    match e
    case Boot => View(Recovered(v), Recovered(v), None)
    case Edit(payload) => v.(store := payload)
    case Saving(Kept) => v
    case Saving(Spoilt) => v.(landed := None)
    case Saving(Landed) => v.(landed := Some(v.store))
    case Saving(Succeeded) => View(v.store, v.store, None)
  }

  /** The page not in use holds the very next sequence number. */
  predicate Ahead(log: Log) {
    var t := Page(log, Target(log));
    t.Holds? && t.seqNo == Succ(log.seqNo)
  }

  function ActivePayload(log: Log): seq<bv8> {
    if log.active.None? then DEFAULTS
    else var p := Page(log, log.active.value); if p.Holds? then p.payload else []
  }

  function ViewOf(log: Log): View {
    View(log.store, ActivePayload(log), if Ahead(log) then Some(Page(log, Target(log)).payload) else None)
  }

  // ---------------------------------------------------------------- the invariant

  /** RAM mirrors its active page; the other page is refused, one behind, or one ahead. */
  predicate Inv(log: Log) {
    var t := Page(log, Target(log));
    match log.active
    case Some(p) =>
      Page(log, p).Holds? && Page(log, p).seqNo == log.seqNo &&
      (t.Holds? ==> Succ(t.seqNo) == log.seqNo || t.seqNo == Succ(log.seqNo))
    case None =>
      log.seqNo == 0 && log.b == Refused && (t.Holds? ==> t.seqNo == Succ(0))
  }

  /** Whenever both pages are valid their sequence numbers are neighbours modulo 2^16, and the
      comparison of load() picks the later one. */
  lemma NeighboursAndNewest(log: Log)
    requires Inv(log) && log.a.Holds? && log.b.Holds?
    ensures log.a.seqNo == log.b.seqNo + 1 <==> Winner(log) == Some(A)
    ensures log.b.seqNo == log.a.seqNo + 1 <==> Winner(log) == Some(B)
    ensures Winner(log).Some?
  {
    SuccFacts(log.a.seqNo);
    SuccFacts(log.b.seqNo);
  }

  /** A boot takes the page that is ahead, if there is one, and the active page otherwise. */
  lemma BootWinner(log: Log)
    requires Inv(log)
    ensures Winner(log) == if Ahead(log) then Some(Target(log)) else log.active
  {
    SuccFacts(log.seqNo);
    if Page(log, Target(log)).Holds? { SuccFacts(Page(log, Target(log)).seqNo); }
  }

  lemma BootStep(log: Log)
    requires Inv(log)
    ensures Inv(Load(log)) && ViewOf(Load(log)) == ViewStep(ViewOf(log), Boot)
  {
    BootWinner(log);
    SuccMoves(log.seqNo);
    var next := Load(log);
    if Page(next, Target(next)).Holds? { SuccMoves(Page(next, Target(next)).seqNo); }
  }

  lemma SaveStep(log: Log, landing: Landing)
    requires Inv(log)
    ensures Inv(Save(log, landing)) && ViewOf(Save(log, landing)) == ViewStep(ViewOf(log), Saving(landing))
  {
    match landing
    case Kept =>
    case Spoilt => TargetRewritten(log, Refused);
    case Landed => TargetRewritten(log, Holds(Succ(log.seqNo), log.store));
    case Succeeded => SaveSucceeds(log);
  }

  /** Rewriting the page that is not active keeps the invariant and changes only what has landed. */
  lemma TargetRewritten(log: Log, r: Reading)
    requires Inv(log) && (r.Holds? ==> r.seqNo == Succ(log.seqNo))
    ensures var next := WithPage(log, Target(log), r);
            Inv(next) && ViewOf(next) == ViewOf(log).(landed := if r.Holds? then Some(r.payload) else None)
  {
  }

  lemma SaveSucceeds(log: Log)
    requires Inv(log)
    ensures Inv(Save(log, Succeeded)) && ViewOf(Save(log, Succeeded)) == View(log.store, log.store, None)
  {
    var target, next := Target(log), Save(log, Succeeded);
    assert Page(next, target) == Holds(Succ(log.seqNo), log.store) && Target(next) != target;
    assert Page(next, Target(next)) == Page(log, Target(next));
    SuccMoves(log.seqNo);
  }

  /** One step of the log, whatever became of a save, is one step of the store without a flash:
      the saved settings survive every failed save, and a boot recovers them. */
  lemma StepRefines(log: Log, e: Action)
    requires Inv(log)
    ensures Inv(Step(log, e)) && ViewOf(Step(log, e)) == ViewStep(ViewOf(log), e)
  {
    match e
    case Boot => BootStep(log);
    case Edit(_) =>
    case Saving(landing) => SaveStep(log, landing);
  }
}
