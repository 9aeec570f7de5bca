/** What every reachable state of the DFU machine says about the requests before it, for request
    sequences of any length and content. The definitions here read the history only; none of them
    runs the machine. A DETACH in a history is one after which the bootloader comes up again; Boot shows
    when that is, and that nothing else happens to the machine between resets. */
module DfuHistory {
  import opened Word32
  import opened Flash
  import opened BootFlash
  import opened Dfu

  type History = h: seq<Event> | forall e | e in h :: WellFormed(e.setup)

  function Run(s: Sys, h: History): (r: Sys)
    requires ValidSys(s)
    ensures ValidSys(r)
    decreases |h|
  {
    if h == [] then s else Step(Run(s, h[..|h| - 1]), h[|h| - 1])
  }

  // ---------------------------------------------------------------- reading a history

  datatype Kind = DataBlock | EndOfTransfer | Oversize | GetStatus | ClrStatus | Abort | Detach | Inert

  function KindOf(p: Setup): Kind {
    if !IsClassRequest(p) then Inert
    else if p.request == DFU_DNLOAD then
      if |p.data| == 0 then EndOfTransfer else if |p.data| > TRANSFER_SIZE then Oversize else DataBlock
    else if p.request == DFU_GETSTATUS then GetStatus
    else if p.request == DFU_CLRSTATUS then ClrStatus
    else if p.request == DFU_ABORT then Abort
    else if p.request == DFU_DETACH then Detach
    else Inert
  }

  /** A request as it is remembered: its kind, its block number and data, and how a flash write went if it
      caused one. */
  datatype Request = Request(kind: Kind, block: nat, data: seq<bv8>, written: bool)

  function RequestOf(x: Event): (r: Request)
    ensures r.kind == DataBlock ==> 1 <= |r.data| <= TRANSFER_SIZE
  {
    Request(KindOf(x.setup), x.setup.value, x.setup.data, x.outcome.Success?)
  }

  /** The requests since the last reset by DETACH, without those that change nothing. */
  function Effective(h: History): (e: seq<Request>)
    ensures forall r | r in e :: r.kind == DataBlock ==> 1 <= |r.data| <= TRANSFER_SIZE
    decreases |h|
  {
    if h == [] then [] else Extended(Effective(h[..|h| - 1]), RequestOf(h[|h| - 1]))
  }

  function Extended(e: seq<Request>, r: Request): seq<Request> {
    match r.kind
    case Detach => []
    case Inert => e
    case _ => e + [r]
  }

  predicate LastIs(e: seq<Request>, k: Kind) { |e| >= 1 && e[|e| - 1].kind == k }

  predicate LastTwoAre(e: seq<Request>, j: Kind, k: Kind) {
    |e| >= 2 && e[|e| - 2].kind == j && e[|e| - 1].kind == k
  }

  /** An end of transfer followed at once by two status requests, somewhere in the history. */
  predicate ManifestedAt(e: seq<Request>, i: nat) {
    i + 2 < |e| && e[i].kind == EndOfTransfer && e[i + 1].kind == GetStatus && e[i + 2].kind == GetStatus
  }

  /** This request makes the bootloader write the block received just before it. */
  predicate Commits(before: History, x: Event) {
    KindOf(x.setup) == GetStatus && LastIs(Effective(before), DataBlock)
  }

  function CommittedBlock(before: History): nat
    requires LastIs(Effective(before), DataBlock)
  {
    var e := Effective(before); e[|e| - 1].block
  }

  function CommittedData(before: History): seq<bv8>
    requires LastIs(Effective(before), DataBlock)
  {
    var e := Effective(before); e[|e| - 1].data
  }

  /** The status a host should see: that of the latest failure since the last CLRSTATUS or reset. */
  function LatestFailure(h: History): Status
    decreases |h|
  {
    if h == [] then StatusOk
    else
      var before, e := h[..|h| - 1], h[|h| - 1];
      if KindOf(e.setup) == ClrStatus || KindOf(e.setup) == Detach then StatusOk
      else if KindOf(e.setup) == Oversize then ErrUnknown
      else if Commits(before, e) && (CommittedBlock(before) >= FIRMWARE_PAGES || e.outcome.Fault?) then ErrWrite
      else LatestFailure(before)
  }

  /** What the latest write to a firmware page left there, if it was ever written. */
  datatype Entry = Good(data: seq<bv8>) | Unknown

  function Ledger(h: History): map<nat, Entry>
    decreases |h|
  {
    if h == [] then map[]
    else
      var before, e := h[..|h| - 1], h[|h| - 1];
      if Commits(before, e) && CommittedBlock(before) < FIRMWARE_PAGES then
        Ledger(before)[CommittedBlock(before) :=
          if e.outcome.Success? then Good(CommittedData(before)) else Unknown]
      else Ledger(before)
  }

  // ---------------------------------------------------------------- writes stay in the firmware region

  /** For every block number and pending length the address does not wrap, the write is taken exactly for
      the first 56 blocks, and it touches exactly that block's page. */
  lemma WriteAcceptedIff(block: nat, len: nat)
    requires block < 0x1_0000 && 1 <= len <= TRANSFER_SIZE
    ensures BlockAddress(block) == FIRMWARE_BASE + block * TRANSFER_SIZE < WORD - len
    ensures Accepted(block, len) <==> block < FIRMWARE_PAGES
    ensures var at := BlockAddress(block) - FLASH_BASE;
            PageFloor(at) == at == PageOffset(block) && PageCeil(at + len) == at + PAGE_SIZE
  {
    AddressInWord(block);
  }

  function PageOffset(p: nat): nat { FIRMWARE_BASE - FLASH_BASE + p * PAGE_SIZE }

  function FirmwarePage(mem: seq<bv8>, p: nat): seq<bv8>
    requires |mem| == FLASH_SIZE && p < FIRMWARE_PAGES
  {
    mem[PageOffset(p)..PageOffset(p) + PAGE_SIZE]
  }

  predicate PageHolds(page: seq<bv8>, data: seq<bv8>) {
    |page| == PAGE_SIZE && |data| <= PAGE_SIZE &&
    page[..|data|] == data && forall i | |data| <= i < PAGE_SIZE :: page[i] == 0xFF
  }

  // ---------------------------------------------------------------- states by history

  /** How many status requests the history ends with. */
  function Polls(e: seq<Request>): (n: nat)
    ensures n <= |e|
    decreases |e|
  {
    if LastIs(e, GetStatus) then Polls(e[..|e| - 1]) + 1 else 0
  }

  /** How many requests there are before those. */
  function Decided(e: seq<Request>): nat { |e| - Polls(e) }

  predicate Landed(block: Request, status: Request) { block.block < FIRMWARE_PAGES && status.written }

  /** The state that a request other than GETSTATUS leads to after so many of those; landed says whether the
      first of them wrote the block. */
  function StateAfter(k: Kind, polls: nat, landed: bool): DfuState {
    match k
    case DataBlock => if polls == 0 then DnloadSync else if landed then DnloadIdle else ErrorState
    case EndOfTransfer => if polls == 0 then ManifestSync else if polls == 1 then Manifest else Idle
    case Oversize => ErrorState
    case _ => Idle
  }

  /** The kind of the last request other than GETSTATUS; none counts as ABORT, which also leads to Idle. */
  function Decider(e: seq<Request>): Kind {
    if Decided(e) == 0 then Abort else e[Decided(e) - 1].kind
  }

  predicate BlockLanded(e: seq<Request>) { 0 < Decided(e) < |e| && Landed(e[Decided(e) - 1], e[Decided(e)]) }

  function StateSaid(e: seq<Request>): DfuState { StateAfter(Decider(e), Polls(e), BlockLanded(e)) }

  datatype Buffer = Buffer(data: seq<bv8>, block: nat)

  /** The last data block since the reset, written or not. */
  function LastBlock(e: seq<Request>): Buffer
    decreases |e|
  {
    if e == [] then Buffer([], 0)
    else if LastIs(e, DataBlock) then Buffer(e[|e| - 1].data, e[|e| - 1].block)
    else LastBlock(e[..|e| - 1])
  }

  predicate Describes(m: Machine, e: seq<Request>) {
    m.state == StateSaid(e) && Buffer(m.pending, m.block) == LastBlock(e)
  }

  /** In every reachable state the state of the machine and its buffer are those that the requests since the
      last reset say. */
  lemma {:induction false} StateByHistory(mem: seq<bv8>, h: History)
    requires |mem| == FLASH_SIZE
    ensures Describes(Run(Started(mem), h).m, Effective(h))
    decreases |h|
  {
    if h != [] {
      var before, x := h[..|h| - 1], h[|h| - 1];
      var s, e := Run(Started(mem), before), Effective(before);
      StateByHistory(mem, before);
      PendingIsLast(e);
      if KindOf(x.setup) == GetStatus { StatusDescribed(s, e, x); } else { RequestDescribed(s, e, x); }
    }
  }

  lemma PendingIsLast(e: seq<Request>)
    requires forall r | r in e :: r.kind == DataBlock ==> 1 <= |r.data| <= TRANSFER_SIZE
    ensures StateSaid(e) == DnloadSync <==> LastIs(e, DataBlock)
    ensures LastIs(e, DataBlock) ==> 1 <= |LastBlock(e).data| <= TRANSFER_SIZE
  {
    PollsStop(e);
    if LastIs(e, DataBlock) { assert e[|e| - 1] in e; }
  }

  lemma StatusDescribed(s: Sys, e: seq<Request>, x: Event)
    requires ValidSys(s) && WellFormed(x.setup) && KindOf(x.setup) == GetStatus && Describes(s.m, e)
    requires LastIs(e, DataBlock) ==> 1 <= |LastBlock(e).data|
    ensures Describes(Step(s, x).m, e + [RequestOf(x)])
  {
    PolledOnce(e, RequestOf(x));
    if s.m.state == DnloadSync { WriteAcceptedIff(s.m.block, |s.m.pending|); }
  }

  /** What one more status request makes of the state that the requests say. */
  lemma PolledOnce(e: seq<Request>, r: Request)
    requires r.kind == GetStatus
    ensures LastBlock(e + [r]) == LastBlock(e)
    ensures StateSaid(e + [r]) ==
            match StateSaid(e)
            case DnloadSync => if Landed(e[|e| - 1], r) then DnloadIdle else ErrorState
            case ManifestSync => Manifest
            case Manifest => Idle
            case other => other
  {
    PollAppended(e, r);
    PollsStop(e);
  }

  lemma PollAppended(e: seq<Request>, r: Request)
    requires r.kind == GetStatus
    ensures var f := e + [r];
            Polls(f) == Polls(e) + 1 && Decider(f) == Decider(e) && LastBlock(f) == LastBlock(e) &&
            BlockLanded(f) == if Polls(e) > 0 || e == [] then BlockLanded(e) else Landed(e[|e| - 1], r)
  {
    OneMorePoll(e, r);
    DeciderKept(e, r);
    LandedKept(e, r);
  }

  lemma DeciderKept(e: seq<Request>, r: Request)
    requires Polls(e + [r]) == Polls(e) + 1
    ensures Decider(e + [r]) == Decider(e)
  {
    var n := Decided(e);
    if n > 0 { assert (e + [r])[n - 1] == e[n - 1]; }
  }

  lemma LandedKept(e: seq<Request>, r: Request)
    requires Polls(e + [r]) == Polls(e) + 1
    ensures BlockLanded(e + [r]) == if Polls(e) > 0 || e == [] then BlockLanded(e) else Landed(e[|e| - 1], r)
  {
    var f, n := e + [r], Decided(e);
    assert Decided(f) == n;
    if n > 0 { assert f[n - 1] == e[n - 1]; }
    if n < |e| { assert f[n] == e[n]; } else { assert f[n] == r; }
  }

  lemma OneMorePoll(e: seq<Request>, r: Request)
    requires r.kind == GetStatus
    ensures Polls(e + [r]) == Polls(e) + 1 && LastBlock(e + [r]) == LastBlock(e)
  {
    assert (e + [r])[..|e|] == e;
  }

  lemma {:induction false} PollsStop(e: seq<Request>)
    ensures Polls(e) > 0 <==> LastIs(e, GetStatus)
    ensures Decider(e) != GetStatus
    decreases |e|
  {
    if LastIs(e, GetStatus) { PollsStop(e[..|e| - 1]); }
  }

  lemma RequestDescribed(s: Sys, e: seq<Request>, x: Event)
    requires ValidSys(s) && WellFormed(x.setup) && KindOf(x.setup) != GetStatus && Describes(s.m, e)
    ensures Describes(Step(s, x).m, Extended(e, RequestOf(x)))
  {
    var f := e + [RequestOf(x)];
    assert f[..|e|] == e && f[|e|] == RequestOf(x);
    assert Polls(f) == 0;
  }

  /** An end of transfer has been followed at once by two status requests. */
  ghost predicate Manifested(e: seq<Request>) { exists i: nat :: ManifestedAt(e, i) }

  /** A reset is earned: it is pending exactly when, since the last reset, some end of transfer was
      followed, with nothing effective in between, by two status requests. */
  lemma {:induction false} ResetEarned(mem: seq<bv8>, h: History)
    requires |mem| == FLASH_SIZE
    ensures Run(Started(mem), h).m.resetPending <==> Manifested(Effective(h))
    decreases |h|
  {
    if h != [] {
      var before, x := h[..|h| - 1], h[|h| - 1];
      var s, e := Run(Started(mem), before), Effective(before);
      ResetEarned(mem, before);
      StateByHistory(mem, before);
      ResetStep(s, x);
      ManifestingIff(e);
      match KindOf(x.setup) {
        case Detach =>
        case Inert =>
        case _ => ManifestedGrows(e, RequestOf(x));
      }
    }
  }

  lemma ResetStep(s: Sys, x: Event)
    requires ValidSys(s) && WellFormed(x.setup)
    ensures Step(s, x).m.resetPending ==
            (KindOf(x.setup) != Detach &&
             (s.m.resetPending || (s.m.state == Manifest && KindOf(x.setup) == GetStatus)))
  {
  }

  lemma ManifestingIff(e: seq<Request>)
    ensures StateSaid(e) == Manifest <==> LastTwoAre(e, EndOfTransfer, GetStatus)
  {
    if LastIs(e, GetStatus) { assert Polls(e) == Polls(e[..|e| - 1]) + 1; }
  }

  lemma ManifestedGrows(e: seq<Request>, r: Request)
    ensures Manifested(e + [r]) <==>
            Manifested(e) || (LastTwoAre(e, EndOfTransfer, GetStatus) && r.kind == GetStatus)
  {
    var f := e + [r];
    if Manifested(e) {
      var i: nat :| ManifestedAt(e, i);
      assert ManifestedAt(f, i);
    }
    if LastTwoAre(e, EndOfTransfer, GetStatus) && r.kind == GetStatus { assert ManifestedAt(f, |e| - 2); }
    if Manifested(f) {
      var i: nat :| ManifestedAt(f, i);
      if i + 2 < |e| { assert ManifestedAt(e, i); }
    }
  }

  /** The status reported is that of the latest failure since the last CLRSTATUS or reset, so while it is
      OK no write has failed since; and the error state never carries an OK status. */
  lemma {:induction false} StatusByHistory(mem: seq<bv8>, h: History)
    requires |mem| == FLASH_SIZE
    ensures var m := Run(Started(mem), h).m;
            m.status == LatestFailure(h) && (m.state == ErrorState ==> m.status != StatusOk)
    decreases |h|
  {
    if h != [] {
      var before, x := h[..|h| - 1], h[|h| - 1];
      StatusByHistory(mem, before);
      var s := Run(Started(mem), before);
      PendingIff(mem, before);
      if Commits(before, x) {
        WriteAcceptedIff(s.m.block, |s.m.pending|);
        CommitStatus(s, x);
      } else {
        QuietStatus(s, x);
      }
    }
  }

  lemma CommitStatus(s: Sys, x: Event)
    requires ValidSys(s) && WellFormed(x.setup) && s.m.state == DnloadSync && KindOf(x.setup) == GetStatus
    ensures Step(s, x).m.status ==
            if !Accepted(s.m.block, |s.m.pending|) || x.outcome.Fault? then ErrWrite else s.m.status
    ensures Step(s, x).m.state == ErrorState ==> Step(s, x).m.status != StatusOk
  {
  }

  lemma QuietStatus(s: Sys, x: Event)
    requires ValidSys(s) && WellFormed(x.setup) && !(s.m.state == DnloadSync && KindOf(x.setup) == GetStatus)
    requires s.m.state == ErrorState ==> s.m.status != StatusOk
    ensures Step(s, x).m.status ==
            match KindOf(x.setup) {
              case ClrStatus => StatusOk
              case Detach => StatusOk
              case Oversize => ErrUnknown
              case _ => s.m.status
            }
    ensures Step(s, x).m.state == ErrorState ==> Step(s, x).m.status != StatusOk
  {
  }

  /** All the statics together, as a function of the history. */
  lemma MachineByHistory(mem: seq<bv8>, h: History)
    requires |mem| == FLASH_SIZE
    ensures var block := LastBlock(Effective(h));
            Run(Started(mem), h).m ==
            Machine(StateSaid(Effective(h)), LatestFailure(h), block.data, block.block, Manifested(Effective(h)))
  {
    StateByHistory(mem, h);
    StatusByHistory(mem, h);
    ResetEarned(mem, h);
  }

  // ---------------------------------------------------------------- the flash by history

  /** Every firmware page holds what the ledger of the history says, pages never written are as they
      were, and the bootloader's own flash never changes. */
  ghost predicate FlashMatches(mem0: seq<bv8>, mem: seq<bv8>, ledger: map<nat, Entry>)
    requires |mem0| == FLASH_SIZE && |mem| == FLASH_SIZE
  {
    mem[..PageOffset(0)] == mem0[..PageOffset(0)] &&
    forall p: nat | p < FIRMWARE_PAGES ::
      if p !in ledger then FirmwarePage(mem, p) == FirmwarePage(mem0, p)
      else ledger[p].Good? ==> PageHolds(FirmwarePage(mem, p), ledger[p].data)
  }

  /** A page-aligned write inside one page, or a failed one, leaves the other pages alone. */
  lemma WriteOnePage(mem: seq<bv8>, after: seq<bv8>, b: nat)
    requires |mem| == FLASH_SIZE && b < FIRMWARE_PAGES
    requires SameOutside(mem, after, PageOffset(b), PageOffset(b) + PAGE_SIZE)
    ensures |after| == FLASH_SIZE && after[..PageOffset(0)] == mem[..PageOffset(0)]
    ensures forall p: nat | p < FIRMWARE_PAGES && p != b :: FirmwarePage(after, p) == FirmwarePage(mem, p)
  {
    forall p: nat | p < FIRMWARE_PAGES && p != b ensures FirmwarePage(after, p) == FirmwarePage(mem, p) {
      assert PageOffset(p) + PAGE_SIZE <= PageOffset(b) || PageOffset(b) + PAGE_SIZE <= PageOffset(p);
    }
  }

  lemma WrittenPage(mem: seq<bv8>, b: nat, data: seq<bv8>)
    requires |mem| == FLASH_SIZE && b < FIRMWARE_PAGES && 1 <= |data| <= PAGE_SIZE
    ensures SameOutside(mem, Written(mem, PageOffset(b), data), PageOffset(b), PageOffset(b) + PAGE_SIZE)
    ensures PageHolds(FirmwarePage(Written(mem, PageOffset(b), data), b), data)
  {
    var at := PageOffset(b);
    assert PageFloor(at) == at && PageCeil(at + |data|) == at + PAGE_SIZE;
    var w := Written(mem, at, data);
    var page := FirmwarePage(w, b);
    assert forall i | 0 <= i < PAGE_SIZE :: page[i] == w[at + i];
    assert forall i | at <= i < at + |data| :: w[i] == data[i - at];
    assert forall i | 0 <= i < |data| :: page[..|data|][i] == w[at + i];
  }

  /** The firmware region is the initial one overlaid, page by page, with the last write that GETSTATUS
      completed there, padded with 0xFF; only pages whose last write failed are unspecified. */
  lemma {:induction false} FlashByHistory(mem: seq<bv8>, h: History)
    requires |mem| == FLASH_SIZE
    ensures FlashMatches(mem, Run(Started(mem), h).mem, Ledger(h))
    decreases |h|
  {
    if h != [] {
      var before, x := h[..|h| - 1], h[|h| - 1];
      FlashByHistory(mem, before);
      PendingIff(mem, before);
      var s := Run(Started(mem), before);
      if Commits(before, x) {
        CommitMatches(mem, s, x, Ledger(before));
      } else {
        QuietStep(s, x);
      }
    }
  }

  /** A block is pending exactly when the last effective request sent one, and then it is that one. */
  lemma PendingIff(mem: seq<bv8>, h: History)
    requires |mem| == FLASH_SIZE
    ensures var m := Run(Started(mem), h).m;
            (m.state == DnloadSync <==> LastIs(Effective(h), DataBlock)) &&
            (m.state == DnloadSync ==> m.block == CommittedBlock(h) && m.pending == CommittedData(h) &&
                                       1 <= |m.pending| <= TRANSFER_SIZE)
  {
    StateByHistory(mem, h);
    PendingIsLast(Effective(h));
  }

  /** A request that does not commit leaves the flash alone. */
  lemma QuietStep(s: Sys, x: Event)
    requires ValidSys(s) && WellFormed(x.setup)
    requires !(KindOf(x.setup) == GetStatus && s.m.state == DnloadSync)
    ensures Step(s, x).mem == s.mem
  {
  }

  lemma CommitMatches(mem0: seq<bv8>, s: Sys, x: Event, ledger: map<nat, Entry>)
    requires |mem0| == FLASH_SIZE && ValidSys(s) && WellFormed(x.setup)
    requires s.m.state == DnloadSync && KindOf(x.setup) == GetStatus && 1 <= |s.m.pending|
    requires FlashMatches(mem0, s.mem, ledger)
    ensures FlashMatches(mem0, Step(s, x).mem,
              if s.m.block < FIRMWARE_PAGES then
                ledger[s.m.block := if x.outcome.Success? then Good(s.m.pending) else Unknown]
              else ledger)
  {
    var b, r := s.m.block, Commit(s, x.outcome);
    WriteAcceptedIff(b, |s.m.pending|);
    if b < FIRMWARE_PAGES {
      if x.outcome.Success? { WrittenPage(s.mem, b, s.m.pending); }
      WriteOnePage(s.mem, r.mem, b);
    }
  }

  /** In particular nothing the host sends changes a byte of the bootloader, and a transfer whose blocks
      all lie below the settings pages (108 KB) leaves both settings pages unchanged. */
  lemma ProtectedFlash(mem: seq<bv8>, h: History)
    requires |mem| == FLASH_SIZE
    ensures var r := Run(Started(mem), h).mem;
            r[..PageOffset(0)] == mem[..PageOffset(0)] &&
            ((forall p | p in Ledger(h) :: p < 54) ==> r[0x1_F000..] == mem[0x1_F000..])
  {
    FlashByHistory(mem, h);
    var r := Run(Started(mem), h).mem;
    if forall p | p in Ledger(h) :: p < 54 {
      assert FirmwarePage(r, 54) == FirmwarePage(mem, 54) && FirmwarePage(r, 55) == FirmwarePage(mem, 55);
      assert r[0x1_F000..] == FirmwarePage(r, 54) + FirmwarePage(r, 55);
      assert mem[0x1_F000..] == FirmwarePage(mem, 54) + FirmwarePage(mem, 55);
    }
  }

  // ---------------------------------------------------------------- what the host is told

  /** Sent to the DFU interface, in either direction. */
  predicate ForDfu(p: Setup) { p.requestType == 0x21 || p.requestType == 0xA1 }

  /** The kinds by the request numbers of USB DFU 1.1, section 3, and the length of the data. */
  lemma KindByNumber(p: Setup)
    ensures KindOf(p) == DataBlock <==> ForDfu(p) && p.request == 1 && 1 <= |p.data| <= 2048
    ensures KindOf(p) == EndOfTransfer <==> ForDfu(p) && p.request == 1 && p.data == []
    ensures KindOf(p) == Oversize <==> ForDfu(p) && p.request == 1 && |p.data| > 2048
    ensures KindOf(p) == GetStatus <==> ForDfu(p) && p.request == 3
    ensures KindOf(p) == ClrStatus <==> ForDfu(p) && p.request == 4
    ensures KindOf(p) == Abort <==> ForDfu(p) && p.request == 6
    ensures KindOf(p) == Detach <==> ForDfu(p) && p.request == 0
  {
    ClassIff(p.requestType);
  }

  /** The answer to a request after history h. */
  function Answer(mem: seq<bv8>, h: History, x: Event): Reply
    requires |mem| == FLASH_SIZE && WellFormed(x.setup)
  {
    ReplyTo(x.setup, Step(Run(Started(mem), h), x).m)
  }

  /** The state numbers of USB DFU 1.1, section 6.1.2. */
  predicate IsStateNumber(b: bv8, s: DfuState) {
    (b == 2 <==> s == Idle) && (b == 3 <==> s == DnloadSync) && (b == 5 <==> s == DnloadIdle) &&
    (b == 6 <==> s == ManifestSync) && (b == 7 <==> s == Manifest) && (b == 10 <==> s == ErrorState)
  }

  /** The status numbers of the same section: OK, errWRITE, errUNKNOWN. */
  predicate IsStatusNumber(b: bv8, s: Status) {
    (b == 0 <==> s == StatusOk) && (b == 3 <==> s == ErrWrite) && (b == 14 <==> s == ErrUnknown)
  }

  /** Which requests are answered and how, by the request and the history alone: DNLOAD (1) of at most 2048
      bytes, CLRSTATUS (4) and ABORT (6) with no data, GETSTATE (5) with the number of the state that the
      history says, GETSTATUS (3) with the number of its status, no delay, and that of its state; DETACH (0)
      resets; everything else is refused. */
  lemma AnswerByHistory(mem: seq<bv8>, h: History, x: Event)
    requires |mem| == FLASH_SIZE && WellFormed(x.setup)
    ensures var p, a := x.setup, Answer(mem, h, x);
            var state, status := StateSaid(Effective(h + [x])), LatestFailure(h + [x]);
            (a == NotSupported <==>
               !ForDfu(p) || p.request == 2 || p.request > 6 || (p.request == 1 && |p.data| > 2048)) &&
            (a == SystemReset <==> ForDfu(p) && p.request == 0) &&
            (a.Handled? && (p.request == 1 || p.request == 4 || p.request == 6) ==> a.bytes == []) &&
            (a.Handled? && p.request == 5 ==> |a.bytes| == 1 && IsStateNumber(a.bytes[0], state)) &&
            (a.Handled? && p.request == 3 ==>
               |a.bytes| == 6 && IsStatusNumber(a.bytes[0], status) && IsStateNumber(a.bytes[4], state) &&
               a.bytes[1] == a.bytes[2] == a.bytes[3] == a.bytes[5] == 0)
  {
    assert (h + [x])[..|h|] == h;
    StateByHistory(mem, h + [x]);
    StatusByHistory(mem, h + [x]);
    ClassIff(x.setup.requestType);
    CodesAreNumbers(StateSaid(Effective(h + [x])), LatestFailure(h + [x]));
    Answers(x.setup, Step(Run(Started(mem), h), x).m);
  }

  lemma ClassIff(t: bv8)
    ensures t & 0x7F == 0x21 <==> t == 0x21 || t == 0xA1
  {
  }

  lemma CodesAreNumbers(s: DfuState, t: Status)
    ensures IsStateNumber(StateCode(s), s) && IsStatusNumber(StatusCode(t), t)
  {
  }

  lemma Answers(p: Setup, m: Machine)
    ensures var a := ReplyTo(p, m);
            (a == NotSupported <==>
               !IsClassRequest(p) || p.request == 2 || p.request > 6 || (p.request == 1 && |p.data| > 2048)) &&
            (a == SystemReset <==> IsClassRequest(p) && p.request == 0) &&
            (a.Handled? && (p.request == 1 || p.request == 4 || p.request == 6) ==> a.bytes == []) &&
            (a.Handled? && p.request == 5 ==> a.bytes == [StateCode(m.state)]) &&
            (a.Handled? && p.request == 3 ==> a.bytes == [StatusCode(m.status), 0, 0, 0, StateCode(m.state), 0])
  {
  }

  /** The answer to the status request after a data block tells the host the truth about that block:
      dfuDNLOAD-IDLE (5) if it is in flash, dfuERROR (10) with errWRITE (3) if it is not; and the status
      byte of any answer is zero only if nothing has failed since the last CLRSTATUS or reset. */
  lemma HostLearnsResult(mem: seq<bv8>, h: History, x: Event)
    requires |mem| == FLASH_SIZE && WellFormed(x.setup) && KindOf(x.setup) == GetStatus
    ensures Answer(mem, h, x).Handled? && |Answer(mem, h, x).bytes| == 6
    ensures Answer(mem, h, x).bytes[0] == 0 <==> LatestFailure(h + [x]) == StatusOk
    ensures Commits(h, x) ==>
              var landed := CommittedBlock(h) < FIRMWARE_PAGES && x.outcome.Success?;
              Answer(mem, h, x).bytes[4] == (if landed then 5 else 10) &&
              (!landed ==> Answer(mem, h, x).bytes[0] == 3)
  {
    assert (h + [x])[..|h|] == h;
    StatusByHistory(mem, h + [x]);
    if Commits(h, x) {
      PendingIff(mem, h);
      var m := Run(Started(mem), h).m;
      WriteAcceptedIff(m.block, |m.pending|);
    }
  }
}
