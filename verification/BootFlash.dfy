/** bootloader/src/flash.c: the guarded erase-and-program routine of the DFU bootloader. */
module BootFlash {
  import opened Flash
  import opened Word32

  const FIRMWARE_BASE: nat := 0x0800_4000
  const FIRMWARE_END: nat := 0x0802_0000

  /** flash_is_writable; the sum is a 32-bit one. */
  predicate IsWritable(addr: nat, len: nat) {
    addr >= FIRMWARE_BASE && (addr + len) % WORD <= FIRMWARE_END
  }

  datatype ProgramError = Rejected | EraseFault | ProgramFault

  datatype ProgramResult = Done | Failed(error: ProgramError)

  /** flash_program. On success the data is in place, the rest of every touched page is 0xFF and
      everything else is as it was; on a flash error at most the touched pages differ; a write
      outside the firmware region or to an odd address changes nothing. Any other write succeeds unless
      the controller flags an operation; if that was an erase, nothing has been programmed, and if not, every
      touched page has been erased and the data programmed up to some half-word. */
  method Program(chip: Chip, addr: nat, data: seq<bv8>) returns (r: ProgramResult)
    requires chip.Valid() && addr + |data| < WORD
    modifies chip
    ensures chip.Valid()
    ensures r == Failed(Rejected) <==> !IsWritable(addr, |data|) || addr % 2 == 1
    ensures r == Failed(Rejected) ==> chip.mem == old(chip.mem) && chip.faults == old(chip.faults)
    ensures chip.faults >= old(chip.faults)
    ensures r != Failed(Rejected) ==> (r.Done? <==> chip.faults == old(chip.faults))
    ensures r == Failed(EraseFault) ==> OnlyErased(old(chip.mem), chip.mem)
    ensures r == Failed(ProgramFault) ==> PartlyWritten(old(chip.mem), chip.mem, addr - FLASH_BASE, data)
    ensures r.Done? ==> chip.mem == Written(old(chip.mem), addr - FLASH_BASE, data)
    ensures IsWritable(addr, |data|) ==>
              SameOutside(old(chip.mem), chip.mem,
                          PageFloor(addr - FLASH_BASE), PageCeil(addr - FLASH_BASE + |data|))
  {
    if !IsWritable(addr, |data|) { return Failed(Rejected); }
    if addr % 2 == 1 { return Failed(Rejected); }
    ghost var was, at := chip.mem, addr - FLASH_BASE;

    var erased := EraseTouched(chip, addr, |data|);
    if !erased { return Failed(EraseFault); }
    var ok, k := ProgramHalfWords(chip, addr, data);
    if !ok {
      ProgrammedInside(was, at, data, Min(2 * k, |data|));
      assert ProgrammedTo(was, chip.mem, at, data, k);
      return Failed(ProgramFault);
    }
    ProgramAfterErase(was, at, data);
    WrittenInside(was, at, data);
    return Done;
  }

  /** Every byte is as it was or erased. */
  predicate OnlyErased(m: seq<bv8>, r: seq<bv8>) {
    |r| == |m| && forall i | 0 <= i < |m| :: r[i] == m[i] || r[i] == 0xFF
  }

  predicate ProgrammedTo(m: seq<bv8>, r: seq<bv8>, at: nat, data: seq<bv8>, k: nat)
    requires at + |data| <= |m|
  {
    r == Programmed(Erased(m, PageFloor(at), PageCeil(at + |data|)), at, data, Min(2 * k, |data|))
  }

  ghost predicate PartlyWritten(m: seq<bv8>, r: seq<bv8>, at: nat, data: seq<bv8>) {
    at + |data| <= |m| && exists k: nat :: ProgrammedTo(m, r, at, data, k)
  }

  /** Erases every page that the write touches, stopping at the first flagged one. */
  method EraseTouched(chip: Chip, addr: nat, len: nat) returns (ok: bool)
    requires chip.Valid() && FLASH_BASE <= addr && addr + len <= FLASH_BASE + FLASH_SIZE
    modifies chip
    ensures chip.Valid()
    ensures SameOutside(old(chip.mem), chip.mem, PageFloor(addr - FLASH_BASE), PageCeil(addr - FLASH_BASE + len))
    ensures ok ==>
              chip.mem == Erased(old(chip.mem), PageFloor(addr - FLASH_BASE), PageCeil(addr - FLASH_BASE + len))
    ensures OnlyErased(old(chip.mem), chip.mem)
    ensures chip.faults >= old(chip.faults) && (ok <==> chip.faults == old(chip.faults))
  {
    ghost var was := chip.mem;
    ghost var lo, hi := PageFloor(addr - FLASH_BASE), PageCeil(addr - FLASH_BASE + len);
    var a := PageFloor(addr);
    assert a - FLASH_BASE == lo;
    while a < addr + len
      invariant chip.Valid() && a % PAGE_SIZE == 0 && lo <= a - FLASH_BASE <= hi
      invariant chip.faults == old(chip.faults)
      invariant chip.mem == Erased(was, lo, a - FLASH_BASE)
      decreases addr + len - a
    {
      ghost var done;
      ok, done := chip.ErasePage(a);
      ErasedNext(was, lo, a - FLASH_BASE);
      if !ok { return; }
      a := a + PAGE_SIZE;
    }
    assert a - FLASH_BASE == hi;
    ok := true;
  }

  lemma ErasedNext(m: seq<bv8>, lo: nat, mid: nat)
    requires lo <= mid
    ensures Erased(Erased(m, lo, mid), mid, mid + PAGE_SIZE) == Erased(m, lo, mid + PAGE_SIZE)
  {
  }

  lemma ProgrammedInside(m: seq<bv8>, at: nat, data: seq<bv8>, n: nat)
    requires n <= |data| && at + |data| <= |m|
    ensures SameOutside(m, Programmed(Erased(m, PageFloor(at), PageCeil(at + |data|)), at, data, n),
                        PageFloor(at), PageCeil(at + |data|))
  {
    ProgrammedAt(Erased(m, PageFloor(at), PageCeil(at + |data|)), at, data, n);
  }

  lemma WrittenInside(m: seq<bv8>, at: nat, data: seq<bv8>)
    ensures SameOutside(m, Written(m, at, data), PageFloor(at), PageCeil(at + |data|))
  {
  }
}
