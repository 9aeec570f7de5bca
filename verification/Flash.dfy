/** The on-chip flash as both images use it: 2 KiB pages, erase to 0xFF, half-word programming
    that can only clear bits, and either operation free to be flagged as failed. */
module Flash {

  const FLASH_BASE: nat := 0x0800_0000
  const FLASH_SIZE: nat := 0x2_0000
  const PAGE_SIZE: nat := 2048

  function PageFloor(a: nat): nat { a / PAGE_SIZE * PAGE_SIZE }

  function PageCeil(a: nat): nat { (a + PAGE_SIZE - 1) / PAGE_SIZE * PAGE_SIZE }

  /** Programming a cell: only 1 to 0. */
  function And(cell: bv8, value: bv8): bv8 { cell & value }

  function Erased(m: seq<bv8>, lo: nat, hi: nat): (r: seq<bv8>)
    ensures |r| == |m|
  {
    seq(|m|, i requires 0 <= i < |m| => if lo <= i < hi then 0xFF else m[i])
  }

  /** The first n bytes of data programmed at offset at: bits are only ever cleared. */
  function Programmed(m: seq<bv8>, at: nat, data: seq<bv8>, n: nat): (r: seq<bv8>)
    requires n <= |data| && at + |data| <= |m|
    ensures |r| == |m|
  {
    if n == 0 then m else
      var p := Programmed(m, at, data, n - 1);
      p[at + n - 1 := And(p[at + n - 1], data[n - 1])]
  }

  lemma {:induction false} ProgrammedAt(m: seq<bv8>, at: nat, data: seq<bv8>, n: nat)
    requires n <= |data| && at + |data| <= |m|
    ensures forall i | 0 <= i < |m| ::
              Programmed(m, at, data, n)[i] == if at <= i < at + n then And(m[i], data[i - at]) else m[i]
  {
    if n > 0 { ProgrammedAt(m, at, data, n - 1); }
  }

  /** What a whole write leaves: the data, 0xFF in the rest of the touched pages, all else as before. */
  function Written(m: seq<bv8>, at: nat, data: seq<bv8>): (r: seq<bv8>)
    ensures |r| == |m|
  {
    seq(|m|, i requires 0 <= i < |m| =>
      if at <= i < at + |data| then data[i - at]
      else if PageFloor(at) <= i < PageCeil(at + |data|) then 0xFF else m[i])
  }

  predicate SameOutside(m: seq<bv8>, r: seq<bv8>, lo: nat, hi: nat) {
    |r| == |m| && forall i | 0 <= i < |m| && !(lo <= i < hi) :: r[i] == m[i]
  }

  lemma AndOnes(b: bv8) ensures And(0xFF, b) == b && And(b, 0xFF) == b {}

  /** Programming erased cells stores the data itself. */
  lemma ProgramAfterErase(m: seq<bv8>, at: nat, data: seq<bv8>)
    requires at + |data| <= |m|
    ensures Programmed(Erased(m, PageFloor(at), PageCeil(at + |data|)), at, data, |data|) == Written(m, at, data)
  {
    var e := Erased(m, PageFloor(at), PageCeil(at + |data|));
    var p, w := Programmed(e, at, data, |data|), Written(m, at, data);
    ProgrammedAt(e, at, data, |data|);
    forall i | 0 <= i < |m| ensures p[i] == w[i] {
      if at <= i < at + |data| {
        assert e[i] == 0xFF;
        AndOnes(data[i - at]);
      }
    }
  }

  /** The controller and its cells. faults counts the operations that the status register has flagged. A
      flagged operation may or may not have taken effect; one that is not flagged has. */
  class Chip {
    var mem: seq<bv8>
    ghost var faults: nat

    ghost predicate Valid()
      reads this
    {
      |mem| == FLASH_SIZE
    }

    constructor (initial: seq<bv8>)
      requires |initial| == FLASH_SIZE
      ensures Valid() && mem == initial && faults == 0
    {
      mem, faults := initial, 0;
    }

    /** flash_erase_page followed by the status check. */
    method ErasePage(addr: nat) returns (ok: bool, ghost done: bool)
      requires Valid() && FLASH_BASE <= addr < FLASH_BASE + FLASH_SIZE && addr % PAGE_SIZE == 0
      modifies this
      ensures Valid()
      ensures mem == if done then Erased(old(mem), addr - FLASH_BASE, addr - FLASH_BASE + PAGE_SIZE) else old(mem)
      ensures ok ==> done
      ensures faults >= old(faults) && (ok <==> faults == old(faults))
    {
      var effective: bool, flagged: bool := *, *;
      if effective || !flagged { mem := Erased(mem, addr - FLASH_BASE, addr - FLASH_BASE + PAGE_SIZE); }
      if flagged { faults := faults + 1; }
      ok, done := !flagged, effective || !flagged;
    }

    /** flash_program_half_word followed by the status check. */
    method ProgramHalfWord(addr: nat, lo: bv8, hi: bv8) returns (ok: bool, ghost done: bool)
      requires Valid() && FLASH_BASE <= addr < FLASH_BASE + FLASH_SIZE && addr % 2 == 0
      modifies this
      ensures Valid()
      ensures mem == if done then Programmed(old(mem), addr - FLASH_BASE, [lo, hi], 2) else old(mem)
      ensures ok ==> done
      ensures faults >= old(faults) && (ok <==> faults == old(faults))
    {
      var effective: bool, flagged: bool := *, *;
      if effective || !flagged {
        var at := addr - FLASH_BASE;
        mem := mem[at := And(mem[at], lo)][at + 1 := And(mem[at + 1], hi)];
        assert Programmed(old(mem), at, [lo, hi], 1) == old(mem)[at := And(old(mem)[at], lo)];
      }
      if flagged { faults := faults + 1; }
      ok, done := !flagged, effective || !flagged;
    }
  }

  function Min(a: nat, b: nat): nat { if a <= b then a else b }

  /** The half-word loop that the bootloader and the firmware each contain
      (bootloader/src/flash.c:36-43, firmware/src/platform/flash.cpp:39-46): an odd last byte is
      padded with 0xFF, and the first flagged error ends the loop. k counts the half-words in flash. */
  method ProgramHalfWords(chip: Chip, addr: nat, data: seq<bv8>) returns (ok: bool, ghost k: nat)
    requires chip.Valid() && FLASH_BASE <= addr && addr + |data| <= FLASH_BASE + FLASH_SIZE && addr % 2 == 0
    modifies chip
    ensures chip.Valid()
    ensures 2 * k <= |data| + 1
    ensures chip.mem == Programmed(old(chip.mem), addr - FLASH_BASE, data, Min(2 * k, |data|))
    ensures ok ==> 2 * k >= |data|
    ensures chip.faults >= old(chip.faults) && (ok <==> chip.faults == old(chip.faults))
  {
    ghost var was, at := chip.mem, addr - FLASH_BASE;
    k := 0;
    var i: nat := 0;
    assert chip.mem == Programmed(was, at, data, 0);
    while i < |data|
      invariant chip.Valid() && i == 2 * k <= |data| + 1 && chip.faults == old(chip.faults)
      invariant chip.mem == Programmed(was, at, data, Min(i, |data|))
    {
      var hi := if i + 1 < |data| then data[i + 1] else 0xFF;
      ProgramNext(was, at, data, i, hi);
      HalfWordAddress(addr, |data|, i);
      ghost var done: bool;
      ok, done := chip.ProgramHalfWord(addr + i, data[i], hi);
      assert done ==> chip.mem == Programmed(was, at, data, Min(i + 2, |data|));
      if done { k := k + 1; }
      if !ok { return; }
      i := i + 2;
    }
    ok := true;
  }

  lemma HalfWordAddress(addr: nat, len: nat, i: nat)
    requires FLASH_BASE <= addr && addr + len <= FLASH_BASE + FLASH_SIZE && addr % 2 == 0 && i < len && i % 2 == 0
    ensures (addr + i) % 2 == 0 && addr + i + 2 <= FLASH_BASE + FLASH_SIZE
  {
  }

  lemma ProgramNext(m: seq<bv8>, at: nat, data: seq<bv8>, i: nat, hi: bv8)
    requires i < |data| && at + |data| <= |m| && at + i + 2 <= |m|
    requires hi == (if i + 1 < |data| then data[i + 1] else 0xFF)
    ensures Programmed(Programmed(m, at, data, i), at + i, [data[i], hi], 2)
         == Programmed(m, at, data, Min(i + 2, |data|))
  {
    var p, pair := Programmed(m, at, data, i), [data[i], hi];
    var q := Programmed(m, at, data, i + 1);
    assert Programmed(p, at + i, pair, 1) == q;
    if i + 1 == |data| { AndOnes(q[at + i + 1]); }
  }
}
