/** The settings service itself: load() and save() of firmware/src/services/settings.cpp over the
    flash routines of firmware/src/platform/flash.cpp, shown to take the steps of SettingsRuns. */
module Settings {
  import Crc32
  import F = Flash
  import Arena
  import opened Word32
  import opened SettingsLog
  import opened SettingsProtocol
  import opened SettingsRuns

  const PAGE_A: nat := 0x0801_F000
  const PAGE_B: nat := 0x0801_F800

  // ---------------------------------------------------------------- platform::flash

  /** is_settings_range; the sum is a 32-bit one. */
  predicate IsSettingsRange(addr: nat, len: nat) {
    addr >= PAGE_A && (addr + len) % WORD <= PAGE_B + PAGE_SIZE
  }

  /** erase_page: only whole pages of the settings region are ever erased. */
  method ErasePage(chip: F.Chip, addr: nat) returns (ok: bool, ghost erased: bool)
    requires chip.Valid() && addr + PAGE_SIZE < WORD
    modifies chip
    ensures chip.Valid()
    ensures !IsSettingsRange(addr, PAGE_SIZE) || addr % PAGE_SIZE != 0 ==> !ok && !erased
    ensures erased ==> addr == PAGE_A || addr == PAGE_B
    ensures chip.mem == if erased then F.Erased(old(chip.mem), addr - F.FLASH_BASE, addr - F.FLASH_BASE + PAGE_SIZE)
                        else old(chip.mem)
    ensures ok ==> erased
    ensures chip.faults >= old(chip.faults)
    ensures ok <==> (addr == PAGE_A || addr == PAGE_B) && chip.faults == old(chip.faults)
  {
    if !IsSettingsRange(addr, PAGE_SIZE) { return false, false; }
    if addr % PAGE_SIZE != 0 { return false, false; }
    ok, erased := chip.ErasePage(addr);
  }

  /** program: k half-words of data reach the flash, all of them if it succeeds. */
  method Program(chip: F.Chip, addr: nat, data: seq<bv8>) returns (ok: bool, ghost k: nat)
    requires chip.Valid() && addr + |data| < WORD
    modifies chip
    ensures chip.Valid()
    ensures !IsSettingsRange(addr, |data|) || addr % 2 != 0 ==> !ok && chip.mem == old(chip.mem)
    ensures IsSettingsRange(addr, |data|) && addr % 2 == 0 ==>
              2 * k <= |data| + 1 && (ok ==> 2 * k >= |data|) &&
              chip.mem == F.Programmed(old(chip.mem), addr - F.FLASH_BASE, data, F.Min(2 * k, |data|))
    ensures chip.faults >= old(chip.faults)
    ensures ok <==> PAGE_A <= addr && addr + |data| <= PAGE_B + PAGE_SIZE && addr % 2 == 0 &&
                    chip.faults == old(chip.faults)
  {
    if !IsSettingsRange(addr, |data|) { return false, 0; }
    if addr % 2 != 0 { return false, 0; }
    ok, k := F.ProgramHalfWords(chip, addr, data);
  }

  // ---------------------------------------------------------------- pages of the chip

  function PageAt(mem: seq<bv8>, addr: nat): (p: seq<bv8>)
    requires |mem| == F.FLASH_SIZE && (addr == PAGE_A || addr == PAGE_B)
    ensures |p| == PAGE_SIZE
  {
    mem[addr - F.FLASH_BASE..addr - F.FLASH_BASE + PAGE_SIZE]
  }

  function Address(p: PageId): nat { if p == A then PAGE_A else PAGE_B }

  function Other(p: PageId): PageId { if p == A then B else A }

  /** The page p now reads content, and not another byte of the chip has changed. */
  predicate Wrote(mem: seq<bv8>, after: seq<bv8>, p: PageId, content: seq<bv8>)
    requires |mem| == F.FLASH_SIZE
  {
    F.SameOutside(mem, after, Address(p) - F.FLASH_BASE, Address(p) - F.FLASH_BASE + PAGE_SIZE) &&
    PageAt(after, Address(p)) == content && PageAt(after, Address(Other(p))) == PageAt(mem, Address(Other(p)))
  }

  /** What that means for the state the two pages are part of. */
  lemma PagesAfter(mem: seq<bv8>, after: seq<bv8>, p: PageId, content: seq<bv8>, st: State)
    requires |mem| == F.FLASH_SIZE && Wrote(mem, after, p, content)
    requires st.a == PageAt(mem, PAGE_A) && st.b == PageAt(mem, PAGE_B)
    ensures |after| == F.FLASH_SIZE
    ensures st.(a := PageAt(after, PAGE_A), b := PageAt(after, PAGE_B)) == Replace(st, p, content)
  {
  }

  lemma EraseWrites(mem: seq<bv8>, p: PageId)
    requires |mem| == F.FLASH_SIZE
    ensures var at := Address(p) - F.FLASH_BASE;
            Wrote(mem, F.Erased(mem, at, at + PAGE_SIZE), p, Blank(PAGE_SIZE))
  {
  }

  lemma ProgramWrites(mem: seq<bv8>, blank: seq<bv8>, p: PageId, blob: seq<bv8>, k: nat)
    requires |mem| == F.FLASH_SIZE && Wrote(mem, blank, p, Blank(PAGE_SIZE)) && |blob| == BLOB_SIZE
    ensures Wrote(mem, F.Programmed(blank, Address(p) - F.FLASH_BASE, blob, F.Min(2 * k, BLOB_SIZE)), p, Torn(blob, k))
  {
    var at, n := Address(p) - F.FLASH_BASE, F.Min(2 * k, BLOB_SIZE);
    var after := F.Programmed(blank, at, blob, n);
    F.ProgrammedAt(blank, at, blob, n);
    var page, torn := PageAt(after, Address(p)), Torn(blob, k);
    forall i | 0 <= i < PAGE_SIZE ensures page[i] == torn[i] {
      BlankByte(blank, p, i);
      assert page[i] == after[at + i];
      if i < n { F.AndOnes(blob[i]); }
    }
    OtherPageKept(blank, after, p);
  }

  lemma BlankByte(mem: seq<bv8>, p: PageId, i: nat)
    requires |mem| == F.FLASH_SIZE && i < PAGE_SIZE && PageAt(mem, Address(p)) == Blank(PAGE_SIZE)
    ensures mem[Address(p) - F.FLASH_BASE + i] == 0xFF
  {
    assert PageAt(mem, Address(p))[i] == Blank(PAGE_SIZE)[i];
  }

  lemma OtherPageKept(mem: seq<bv8>, after: seq<bv8>, p: PageId)
    requires |mem| == F.FLASH_SIZE
    requires F.SameOutside(mem, after, Address(p) - F.FLASH_BASE, Address(p) - F.FLASH_BASE + PAGE_SIZE)
    ensures PageAt(after, Address(Other(p))) == PageAt(mem, Address(Other(p)))
  {
  }

  // ---------------------------------------------------------------- the service

  class Service {
    const range: CrcRange
    const chip: F.Chip
    const store: Arena.Store
    var activeAddr: nat
    var activeSeq: bv16

    ghost predicate Valid()
      reads this, chip
    {
      chip.Valid() && store.Valid() && store.slots == Arena.SLOTS && store.payload.Length == PAYLOAD_SIZE &&
      (activeAddr == 0 || activeAddr == PAGE_A || activeAddr == PAGE_B)
    }

    ghost function Active(): Option<PageId>
      reads this
    {
      if activeAddr == PAGE_A then Some(A) else if activeAddr == PAGE_B then Some(B) else None
    }

    /** The state of SettingsRuns that this object represents. */
    ghost function Now(): (st: State)
      requires Valid()
      reads this, chip, store.payload
      ensures WellFormed(st)
    {
      State(PageAt(chip.mem, PAGE_A), PageAt(chip.mem, PAGE_B), store.payload[..], Active(), activeSeq)
    }

    /** The statics before main(): the page contents are whatever the chip holds. */
    constructor (range: CrcRange, chip: F.Chip)
      requires chip.Valid()
      ensures Valid() && this.chip == chip && this.range == range && fresh(store.payload)
      ensures Now() == State(PageAt(chip.mem, PAGE_A), PageAt(chip.mem, PAGE_B), seq(PAYLOAD_SIZE, i => 0), None, 0)
    {
      this.range, this.chip := range, chip;
      activeAddr, activeSeq := 0, 0;
      Arena.FirmwareSlots();
      store := new Arena.Store(Arena.SLOTS);
    }

    method CheckHeader(addr: nat) returns (ok: bool)
      requires Valid() && (addr == PAGE_A || addr == PAGE_B)
      ensures ok == HeaderValid(range, PageAt(chip.mem, addr))
    {
      var h := PageAt(chip.mem, addr);
      if Magic(h) != MAGIC { return false; }
      if Version(h) != VERSION { return false; }
      if Size(h) != SIZE_FIELD { return false; }
      var crc := Crc32.Compute(Body(range, h));
      ok := crc == StoredCrc(h);
    }

    /** The address of the page to load, 0 if neither is valid. */
    method PickWinner() returns (winnerAddr: nat)
      requires Valid()
      ensures winnerAddr == match WinnerPage(range, Now()) case Some(p) => Address(p) case None => 0
    {
      var va := CheckHeader(PAGE_A);
      var vb := CheckHeader(PAGE_B);
      var a, b := PageAt(chip.mem, PAGE_A), PageAt(chip.mem, PAGE_B);
      winnerAddr := 0;
      if va && vb {
        if Newer(SeqNo(a), SeqNo(b)) { winnerAddr := PAGE_A; } else { winnerAddr := PAGE_B; }
      } else if va {
        winnerAddr := PAGE_A;
      } else if vb {
        winnerAddr := PAGE_B;
      }
    }

    /** load(): never touches the flash. */
    method Load()
      requires Valid()
      modifies this, store.payload
      ensures Valid() && chip.mem == old(chip.mem)
      ensures Now() == LoadState(range, old(Now()))
    {
      ghost var was := Now();
      var winnerAddr := PickWinner();
      if winnerAddr != 0 {
        var winner := PageAt(chip.mem, winnerAddr);
        CopyPayload(Payload(winner));
        activeAddr, activeSeq := winnerAddr, SeqNo(winner);
      } else {
        Arena.FirmwareSlots();
        store.LoadDefaults();
        activeAddr, activeSeq := 0, 0;
      }
    }

    method CopyPayload(src: seq<bv8>)
      requires Valid() && |src| == PAYLOAD_SIZE
      modifies store.payload
      ensures store.payload[..] == src
    {
      forall i | 0 <= i < PAYLOAD_SIZE { store.payload[i] := src[i]; }
    }

    /** The blob in RAM: staged with a zero crc field, then with the checksum over the staged bytes. */
    method StageBlob() returns (blob: seq<bv8>)
      requires Valid()
      ensures blob == NewBlob(range, Now())
    {
      var seqNo := Succ(activeSeq);
      var staged := Header(seqNo, 0) + store.payload[..];
      var crc := Crc32.Compute(Body(range, staged));
      blob := Header(seqNo, crc) + store.payload[..];
    }

    /** save(): stages the blob, writes it to the page that is not active, and reports how far it got. It
        succeeds unless the controller flags an operation. Nothing outside that page changes, on any path. */
    method Save() returns (ok: bool, ghost o: Outcome)
      requires Valid()
      modifies this, chip
      ensures Valid() && ok == o.Completed?
      ensures ok <==> chip.faults == old(chip.faults)
      ensures Now() == SaveState(range, old(Now()), o)
      ensures var at := Address(TargetPage(old(Now()))) - F.FLASH_BASE;
              F.SameOutside(old(chip.mem), chip.mem, at, at + PAGE_SIZE)
    {
      ghost var was, page, before := Now(), TargetPage(Now()), chip.mem;
      var target := if activeAddr == PAGE_A then PAGE_B else PAGE_A;
      var erasedOk, erased := EraseTarget(target, page);
      if erased { PagesAfter(before, chip.mem, page, Blank(PAGE_SIZE), was); }
      if !erasedOk { return false, EraseFailed(erased); }

      var blob := StageBlob();
      var programmed, k := ProgramTarget(target, blob, page, before);
      PagesAfter(before, chip.mem, page, Torn(blob, k), was);
      if !programmed { return false, Stopped(k); }

      activeAddr, activeSeq := target, Succ(activeSeq);
      return true, Completed;
    }

    method EraseTarget(target: nat, ghost page: PageId) returns (ok: bool, ghost erased: bool)
      requires Valid() && target == Address(page)
      modifies chip
      ensures Valid() && (ok ==> erased)
      ensures chip.faults >= old(chip.faults) && (ok <==> chip.faults == old(chip.faults))
      ensures if erased then Wrote(old(chip.mem), chip.mem, page, Blank(PAGE_SIZE)) else chip.mem == old(chip.mem)
    {
      EraseWrites(chip.mem, page);
      ok, erased := ErasePage(chip, target);
    }

    method ProgramTarget(target: nat, blob: seq<bv8>, ghost page: PageId, ghost before: seq<bv8>)
      returns (ok: bool, ghost k: nat)
      requires Valid() && target == Address(page) && |blob| == BLOB_SIZE
      requires |before| == F.FLASH_SIZE && Wrote(before, chip.mem, page, Blank(PAGE_SIZE))
      modifies chip
      ensures Valid() && (ok ==> k == HALF_WORDS)
      ensures chip.faults >= old(chip.faults) && (ok <==> chip.faults == old(chip.faults))
      ensures Wrote(before, chip.mem, page, Torn(blob, k))
    {
      ghost var blank := chip.mem;
      ok, k := Program(chip, target, blob);
      ProgramWrites(before, blank, page, blob, k);
    }
  }
}
