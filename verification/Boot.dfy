/** The boot decision of bootloader/src/main.c and the whole device across resets: the one-shot magic
    word, a firmware update over DFU, and what runs after it. */
module Boot {
  import opened Word32
  import opened Flash
  import opened Dfu
  import opened DfuHistory

  const BOOT_MAGIC: bv32 := 0xB007_F00D

  /** firmware_looks_valid on the first two words of an image. */
  predicate LooksValid(sp: bv32, entry: bv32) {
    sp & 0xFFFC_0000 == 0x2000_0000 && 0x0800_4000 <= entry < 0x0802_0000 && entry & 1 == 1
  }

  predicate FirmwareLooksValid(mem: seq<bv8>)
    requires |mem| == FLASH_SIZE
  {
    LooksValid(WordAt(mem, PageOffset(0)), WordAt(mem, PageOffset(0) + 4))
  }

  // ---------------------------------------------------------------- the vector table as numbers

  /** The little-endian number of four bytes. */
  function NumberOf(b0: bv8, b1: bv8, b2: bv8, b3: bv8): int {
    Sum4(b0 as int, b1 as int, b2 as int, b3 as int)
  }

  function Number(mem: seq<bv8>, at: nat): int
    requires at + 4 <= |mem|
  {
    NumberOf(mem[at], mem[at + 1], mem[at + 2], mem[at + 3])
  }

  /** A stack pointer in the 256 KB from 0x20000000, and an odd reset vector inside the firmware region. */
  predicate TableInRange(mem: seq<bv8>)
    requires |mem| == FLASH_SIZE
  {
    0x2000_0000 <= Number(mem, 0x4000) < 0x2004_0000 &&
    0x0800_4000 <= Number(mem, 0x4004) < 0x0802_0000 && Number(mem, 0x4004) % 2 == 1
  }

  lemma StackBytes(b0: bv8, b1: bv8, b2: bv8, b3: bv8)
    ensures Join4(b0, b1, b2, b3) & 0xFFFC_0000 == 0x2000_0000 <==> b3 == 0x20 && b2 < 4
  {
  }

  lemma OddByte(b0: bv8, b1: bv8, b2: bv8, b3: bv8)
    ensures Join4(b0, b1, b2, b3) & 1 == 1 <==> b0 & 1 == 1
  {
  }

  lemma LowBytes(b0: bv8, b1: bv8, b2: bv8, b3: bv8)
    ensures 0x0800_4000 <= Join4(b0, b1, b2, b3) <==> b3 > 8 || (b3 == 8 && (b2 > 0 || b1 >= 0x40))
  {
  }

  lemma HighBytes(b0: bv8, b1: bv8, b2: bv8, b3: bv8)
    ensures Join4(b0, b1, b2, b3) < 0x0802_0000 <==> b3 < 8 || (b3 == 8 && b2 < 2)
  {
  }

  lemma ByteRange(a: bv8) ensures 0 <= a as int < 256 {}
  lemma ParityOf(a: bv8) ensures a & 1 == 1 <==> (a as int) % 2 == 1 {}
  lemma Is0x20(a: bv8) ensures a == 0x20 <==> a as int == 0x20 {}
  lemma Is8(a: bv8) ensures a == 8 <==> a as int == 8 {}
  lemma Above8(a: bv8) ensures a > 8 <==> a as int > 8 {}
  lemma Below8(a: bv8) ensures a < 8 <==> (a as int) < 8 {}
  lemma Below4(a: bv8) ensures a < 4 <==> (a as int) < 4 {}
  lemma Below2(a: bv8) ensures a < 2 <==> (a as int) < 2 {}
  lemma Above0(a: bv8) ensures a > 0 <==> a as int > 0 {}
  lemma AtLeast0x40(a: bv8) ensures a >= 0x40 <==> a as int >= 0x40 {}

  function Sum4(x0: int, x1: int, x2: int, x3: int): int { x0 + 0x100 * x1 + 0x1_0000 * x2 + 0x100_0000 * x3 }

  lemma StackSum(x0: int, x1: int, x2: int, x3: int)
    requires 0 <= x0 < 256 && 0 <= x1 < 256 && 0 <= x2 < 256 && 0 <= x3 < 256
    ensures x3 == 0x20 && x2 < 4 <==> 0x2000_0000 <= Sum4(x0, x1, x2, x3) < 0x2004_0000
  {
  }

  lemma VectorSum(x0: int, x1: int, x2: int, x3: int)
    requires 0 <= x0 < 256 && 0 <= x1 < 256 && 0 <= x2 < 256 && 0 <= x3 < 256
    ensures x3 > 8 || (x3 == 8 && (x2 > 0 || x1 >= 0x40)) <==> 0x0800_4000 <= Sum4(x0, x1, x2, x3)
    ensures x3 < 8 || (x3 == 8 && x2 < 2) <==> Sum4(x0, x1, x2, x3) < 0x0802_0000
    ensures Sum4(x0, x1, x2, x3) % 2 == x0 % 2
  {
  }

  lemma FourRanges(b0: bv8, b1: bv8, b2: bv8, b3: bv8)
    ensures 0 <= b0 as int < 256 && 0 <= b1 as int < 256 && 0 <= b2 as int < 256 && 0 <= b3 as int < 256
  {
    ByteRange(b0);
    ByteRange(b1);
    ByteRange(b2);
    ByteRange(b3);
  }

  lemma StackNumber(b0: bv8, b1: bv8, b2: bv8, b3: bv8)
    ensures b3 == 0x20 && b2 < 4 <==> 0x2000_0000 <= NumberOf(b0, b1, b2, b3) < 0x2004_0000
  {
    FourRanges(b0, b1, b2, b3);
    StackSum(b0 as int, b1 as int, b2 as int, b3 as int);
    Below4(b2);
    Is0x20(b3);
  }

  lemma LowNumber(b0: bv8, b1: bv8, b2: bv8, b3: bv8)
    ensures b3 > 8 || (b3 == 8 && (b2 > 0 || b1 >= 0x40)) <==> 0x0800_4000 <= NumberOf(b0, b1, b2, b3)
  {
    FourRanges(b0, b1, b2, b3);
    VectorSum(b0 as int, b1 as int, b2 as int, b3 as int);
    Above8(b3);
    Is8(b3);
    Above0(b2);
    AtLeast0x40(b1);
  }

  lemma HighNumber(b0: bv8, b1: bv8, b2: bv8, b3: bv8)
    ensures b3 < 8 || (b3 == 8 && b2 < 2) <==> NumberOf(b0, b1, b2, b3) < 0x0802_0000
  {
    FourRanges(b0, b1, b2, b3);
    VectorSum(b0 as int, b1 as int, b2 as int, b3 as int);
    Below8(b3);
    Is8(b3);
    Below2(b2);
  }

  lemma OddNumber(b0: bv8, b1: bv8, b2: bv8, b3: bv8)
    ensures b0 & 1 == 1 <==> NumberOf(b0, b1, b2, b3) % 2 == 1
  {
    FourRanges(b0, b1, b2, b3);
    VectorSum(b0 as int, b1 as int, b2 as int, b3 as int);
    ParityOf(b0);
  }

  /** A word and a number that pass the same tests of the vector table. */
  predicate PassAlike(w: bv32, n: int) {
    (w & 0xFFFC_0000 == 0x2000_0000 <==> 0x2000_0000 <= n < 0x2004_0000) &&
    (0x0800_4000 <= w < 0x0802_0000 <==> 0x0800_4000 <= n < 0x0802_0000) && (w & 1 == 1 <==> n % 2 == 1)
  }

  lemma TableWords(b0: bv8, b1: bv8, b2: bv8, b3: bv8)
    ensures PassAlike(Join4(b0, b1, b2, b3), NumberOf(b0, b1, b2, b3))
  {
    StackBytes(b0, b1, b2, b3);
    StackNumber(b0, b1, b2, b3);
    LowBytes(b0, b1, b2, b3);
    LowNumber(b0, b1, b2, b3);
    HighBytes(b0, b1, b2, b3);
    HighNumber(b0, b1, b2, b3);
    OddByte(b0, b1, b2, b3);
    OddNumber(b0, b1, b2, b3);
  }

  lemma TableWord(mem: seq<bv8>, at: nat)
    requires at + 4 <= |mem|
    ensures PassAlike(WordAt(mem, at), Number(mem, at))
  {
    TableWords(mem[at], mem[at + 1], mem[at + 2], mem[at + 3]);
  }

  lemma RangesIff(sp: bv32, entry: bv32, n: int, k: int)
    requires PassAlike(sp, n) && PassAlike(entry, k)
    ensures LooksValid(sp, entry) <==>
            0x2000_0000 <= n < 0x2004_0000 && 0x0800_4000 <= k < 0x0802_0000 && k % 2 == 1
  {
  }

  /** firmware_looks_valid, read off the bytes in flash. */
  lemma LooksValidIff(mem: seq<bv8>)
    requires |mem| == FLASH_SIZE
    ensures FirmwareLooksValid(mem) <==> TableInRange(mem)
  {
    assert PageOffset(0) == 0x4000;
    TableWord(mem, 0x4000);
    TableWord(mem, 0x4004);
    RangesIff(WordAt(mem, 0x4000), WordAt(mem, 0x4004), Number(mem, 0x4000), Number(mem, 0x4004));
  }

  // ---------------------------------------------------------------- the device across resets

  /** Running the DFU loop, or the firmware entered at a reset vector. */
  datatype Mode = Bootloader(m: Machine) | Firmware(sp: bv32, entry: bv32)

  /** The mode, the handoff word at the top of SRAM, and the flash. */
  datatype Device = Device(mode: Mode, magic: bv32, mem: seq<bv8>)

  predicate ValidDevice(d: Device) {
    |d.mem| == FLASH_SIZE && (d.mode.Bootloader? ==> ValidSys(Sys(d.mode.m, d.mem)))
  }

  /** should_stay_in_bootloader and what main() does with its answer. */
  function AfterReset(magic: bv32, dpiHeld: bool, mem: seq<bv8>): (d: Device)
    requires |mem| == FLASH_SIZE
    ensures ValidDevice(d)
  {
    if magic == BOOT_MAGIC then Device(Bootloader(Started(mem).m), 0, mem)
    else if dpiHeld then Device(Bootloader(Started(mem).m), magic, mem)
    else if !FirmwareLooksValid(mem) then Device(Bootloader(Started(mem).m), magic, mem)
    else Device(Firmware(WordAt(mem, PageOffset(0)), WordAt(mem, PageOffset(0) + 4)), magic, mem)
  }

  /** What can happen: power comes up with any SRAM, a reset, a USB request while in the bootloader (with
      the DPI button as a reset by DETACH would find it), and in the firmware a request for DFU (which
      writes the magic) or a write to the settings pages. */
  datatype Happening =
    | PowerUp(sram: bv32, dpiHeld: bool)
    | Reset(dpiHeld: bool)
    | Usb(event: Event, dpiHeld: bool)
    | AskForDfu
    | WriteSettings(after: seq<bv8>)

  predicate GoodHappening(e: Happening) { e.Usb? ==> WellFormed(e.event.setup) }

  predicate Detaches(mode: Mode, e: Happening) {
    mode.Bootloader? && e.Usb? && WellFormed(e.event.setup) && KindOf(e.event.setup) == Detach
  }

  function Happen(d: Device, e: Happening): (r: Device)
    requires ValidDevice(d) && GoodHappening(e)
    ensures ValidDevice(r)
  {
    match e
    case PowerUp(sram, dpiHeld) => AfterReset(sram, dpiHeld, d.mem)
    case Reset(dpiHeld) => AfterReset(d.magic, dpiHeld, d.mem)
    case Usb(event, dpiHeld) =>
      if Detaches(d.mode, e) then AfterReset(d.magic, dpiHeld, d.mem)
      else if d.mode.Bootloader? then
        var r := Step(Sys(d.mode.m, d.mem), event);
        Device(Bootloader(r.m), d.magic, r.mem)
      else d
    case AskForDfu => if d.mode.Firmware? then d.(magic := BOOT_MAGIC) else d
    case WriteSettings(after) =>
      if d.mode.Firmware? && SameOutside(d.mem, after, 0x1_F000, FLASH_SIZE) then d.(mem := after) else d
  }

  type Story = s: seq<Happening> | forall e | e in s :: GoodHappening(e)

  function Live(d: Device, s: Story): (r: Device)
    requires ValidDevice(d)
    ensures ValidDevice(r)
    decreases |s|
  {
    if s == [] then d else Happen(Live(d, s[..|s| - 1]), s[|s| - 1])
  }

  /** The first power-up of a chip: its flash, whatever is in SRAM, and the DPI button. */
  datatype Power = Power(mem: seq<bv8>, sram: bv32, dpiHeld: bool)

  function FirstPowerUp(p: Power): (d: Device)
    requires |p.mem| == FLASH_SIZE
    ensures ValidDevice(d)
  {
    AfterReset(p.sram, p.dpiHeld, p.mem)
  }

  /** The SRAM word at the top of memory and the reset code that consumes it. */
  class ResetHandler {
    const chip: Chip
    var magic: bv32

    constructor (chip: Chip, sram: bv32)
      ensures this.chip == chip && magic == sram
    {
      this.chip, magic := chip, sram;
    }

    /** should_stay_in_bootloader. */
    method ShouldStay(dpiHeld: bool) returns (stay: bool)
      requires chip.Valid()
      modifies this`magic
      ensures stay == AfterReset(old(magic), dpiHeld, chip.mem).mode.Bootloader?
      ensures magic == AfterReset(old(magic), dpiHeld, chip.mem).magic
      ensures stay <==> old(magic) == BOOT_MAGIC || dpiHeld || !TableInRange(chip.mem)
      ensures magic == if old(magic) == BOOT_MAGIC then 0 else old(magic)
    {
      LooksValidIff(chip.mem);
      if magic == BOOT_MAGIC {
        magic := 0;
        return true;
      }
      if dpiHeld { return true; }
      if !FirmwareLooksValid(chip.mem) { return true; }
      return false;
    }
  }

  // ---------------------------------------------------------------- what a story decides

  /** What a start of the chip found: the magic, the button, the flash. */
  datatype Found = Found(magic: bool, dpiHeld: bool, mem: seq<bv8>)

  predicate EntersFirmware(f: Found)
    requires |f.mem| == FLASH_SIZE
  {
    !f.magic && !f.dpiHeld && FirmwareLooksValid(f.mem)
  }

  /** What the last start of the chip in a story found. The magic is there if power-up left it in SRAM or,
      at a reset, if the firmware has asked for DFU. */
  function LastStart(p: Power, s: Story): (f: Found)
    requires |p.mem| == FLASH_SIZE
    ensures |f.mem| == FLASH_SIZE
    decreases |s|
  {
    if s == [] then Found(p.sram == BOOT_MAGIC, p.dpiHeld, p.mem)
    else
      var before, e := s[..|s| - 1], s[|s| - 1];
      var mem := Live(FirstPowerUp(p), before).mem;
      match e
      case PowerUp(sram, dpiHeld) => Found(sram == BOOT_MAGIC, dpiHeld, mem)
      case Reset(dpiHeld) => Found(Asked(p, before), dpiHeld, mem)
      case Usb(event, dpiHeld) =>
        if KindOf(event.setup) == Detach && !EntersFirmware(LastStart(p, before)) then Found(false, dpiHeld, mem)
        else LastStart(p, before)
      case _ => LastStart(p, before)
  }

  /** Since the last start the firmware has run and asked for DFU. */
  predicate Asked(p: Power, s: Story)
    requires |p.mem| == FLASH_SIZE
    decreases |s|
  {
    s != [] &&
    var before, e := s[..|s| - 1], s[|s| - 1];
    match e
    case PowerUp(_, _) => false
    case Reset(_) => false
    case AskForDfu => EntersFirmware(LastStart(p, before))
    case _ => Asked(p, before)
  }

  /** The firmware runs, at the reset vector that was in flash then, exactly when the last start found no
      magic, DPI up and a vector table that passes; and the handoff word is the magic exactly when that
      firmware has asked for DFU since. */
  predicate Decided(d: Device, f: Found, asked: bool)
    requires |f.mem| == FLASH_SIZE
  {
    (d.mode.Firmware? <==> EntersFirmware(f)) &&
    (d.mode.Firmware? ==> d.mode == Firmware(WordAt(f.mem, PageOffset(0)), WordAt(f.mem, PageOffset(0) + 4))) &&
    (d.magic == BOOT_MAGIC <==> asked) && (asked ==> d.mode.Firmware?)
  }

  lemma StartDecides(magic: bv32, dpiHeld: bool, mem: seq<bv8>)
    requires |mem| == FLASH_SIZE
    ensures Decided(AfterReset(magic, dpiHeld, mem), Found(magic == BOOT_MAGIC, dpiHeld, mem), false)
  {
  }

  /** For every story of power-ups, resets, USB requests, requests for DFU and settings writes. */
  lemma {:induction false} StoryDecides(p: Power, s: Story)
    requires |p.mem| == FLASH_SIZE
    ensures Decided(Live(FirstPowerUp(p), s), LastStart(p, s), Asked(p, s))
    decreases |s|
  {
    if s == [] {
      StartDecides(p.sram, p.dpiHeld, p.mem);
    } else {
      var before, e := s[..|s| - 1], s[|s| - 1];
      var d := Live(FirstPowerUp(p), before);
      StoryDecides(p, before);
      match e {
        case PowerUp(sram, dpiHeld) => StartDecides(sram, dpiHeld, d.mem);
        case Reset(dpiHeld) => StartDecides(d.magic, dpiHeld, d.mem);
        case Usb(event, dpiHeld) => UsbDecides(d, event, dpiHeld, LastStart(p, before), Asked(p, before));
        case AskForDfu =>
        case WriteSettings(_) =>
      }
    }
  }

  lemma UsbDecides(d: Device, event: Event, dpiHeld: bool, f: Found, asked: bool)
    requires ValidDevice(d) && WellFormed(event.setup) && |f.mem| == FLASH_SIZE && Decided(d, f, asked)
    ensures Decided(Happen(d, Usb(event, dpiHeld)),
                    if KindOf(event.setup) == Detach && !EntersFirmware(f) then Found(false, dpiHeld, d.mem) else f,
                    asked)
  {
    if KindOf(event.setup) == Detach && !EntersFirmware(f) { StartDecides(d.magic, dpiHeld, d.mem); }
  }

  /** In terms of what is in flash: a start enters the firmware exactly when it finds no magic, DPI up, a
      stack pointer in 0x20000000..0x2003FFFF and an odd reset vector in 0x08004000..0x0801FFFF. */
  lemma EntersIff(f: Found)
    requires |f.mem| == FLASH_SIZE
    ensures EntersFirmware(f) <==> !f.magic && !f.dpiHeld && TableInRange(f.mem)
  {
    LooksValidIff(f.mem);
  }

  /** While DFU runs the handoff word is never the magic, whatever happened before. */
  lemma MagicGoneInDfu(p: Power, s: Story)
    requires |p.mem| == FLASH_SIZE
    ensures var d := Live(FirstPowerUp(p), s);
            d.mode.Bootloader? ==> d.magic != BOOT_MAGIC
  {
    StoryDecides(p, s);
  }

  /** Whatever happens, not a byte of the bootloader's own flash changes. */
  lemma {:induction false} BootloaderKept(p: Power, s: Story)
    requires |p.mem| == FLASH_SIZE
    ensures Live(FirstPowerUp(p), s).mem[..PageOffset(0)] == p.mem[..PageOffset(0)]
    decreases |s|
  {
    if s != [] {
      var before, e := s[..|s| - 1], s[|s| - 1];
      var d := Live(FirstPowerUp(p), before);
      BootloaderKept(p, before);
      if d.mode.Bootloader? && e.Usb? { StepKeeps(Sys(d.mode.m, d.mem), e.event); }
    }
  }

  lemma StepKeeps(s: Sys, x: Event)
    requires ValidSys(s) && WellFormed(x.setup)
    ensures Step(s, x).mem[..PageOffset(0)] == s.mem[..PageOffset(0)]
  {
    if KindOf(x.setup) == GetStatus && s.m.state == DnloadSync {
      AddressInWord(s.m.block);
      assert BlockAddress(s.m.block) - FLASH_BASE == PageOffset(s.m.block);
      assert PageFloor(PageOffset(s.m.block)) == PageOffset(s.m.block) >= PageOffset(0);
    } else {
      QuietStep(s, x);
    }
  }

  /** The request for DFU works once: the reset after it stays in the bootloader whatever the button
      says, and the one after that boots the firmware again. */
  lemma MagicIsOneShot(d: Device, dpiHeld: bool)
    requires ValidDevice(d) && d.mode.Firmware? && FirmwareLooksValid(d.mem)
    ensures var stayed := Happen(Happen(d, AskForDfu), Reset(dpiHeld));
            stayed.mode == Bootloader(Started(d.mem).m) && Happen(stayed, Reset(false)).mode.Firmware?
  {
  }

  // ---------------------------------------------------------------- an update

  predicate IsData(e: Event, block: nat, data: seq<bv8>) {
    WellFormed(e.setup) && IsClassRequest(e.setup) && e.setup.request == DFU_DNLOAD &&
    e.setup.value == block && e.setup.data == data
  }

  predicate IsStatus(e: Event) { WellFormed(e.setup) && IsClassRequest(e.setup) && e.setup.request == DFU_GETSTATUS }

  function DataRequest(block: nat, data: seq<bv8>): (e: Event)
    requires block < 0x1_0000 && |data| < 0x1_0000
    ensures IsData(e, block, data)
  {
    Event(Setup(0x21, DFU_DNLOAD, block, data), Success)
  }

  function StatusRequest(outcome: Outcome): (e: Event)
    ensures IsStatus(e) && e.outcome == outcome
  {
    Event(Setup(0xA1, DFU_GETSTATUS, 0, []), outcome)
  }

  function Blocks(img: seq<bv8>): nat { (|img| + TRANSFER_SIZE - 1) / TRANSFER_SIZE }

  function Upto(img: seq<bv8>, n: nat): nat { Min(n * TRANSFER_SIZE, |img|) }

  function Chunk(img: seq<bv8>, j: nat): (c: seq<bv8>)
    requires j < Blocks(img)
    ensures 1 <= |c| <= TRANSFER_SIZE
  {
    img[j * TRANSFER_SIZE..Upto(img, j + 1)]
  }

  /** The first n blocks as a host sends them, each followed by a status request, with no flash error. */
  function Download(img: seq<bv8>, n: nat): (h: History)
    requires n <= Blocks(img) && n <= 0x1_0000
    decreases n
  {
    if n == 0 then []
    else Download(img, n - 1) + [DataRequest(n - 1, Chunk(img, n - 1)), StatusRequest(Success)]
  }

  lemma {:induction false} RunConcat(s: Sys, h: History, g: History)
    requires ValidSys(s)
    ensures Run(s, h + g) == Run(Run(s, h), g)
    decreases |g|
  {
    if g == [] {
      assert h + g == h;
    } else {
      assert (h + g)[..|h + g| - 1] == h + g[..|g| - 1];
      RunConcat(s, h, g[..|g| - 1]);
    }
  }

  lemma RunTwo(s: Sys, a: Event, b: Event)
    requires ValidSys(s) && WellFormed(a.setup) && WellFormed(b.setup)
    ensures Run(s, [a, b]) == Step(Step(s, a), b)
  {
    assert [a, b][..1] == [a] && [a][..0] == [];
    assert Run(s, [a]) == Step(Run(s, []), a);
  }

  /** Writing one more block after the first n pages of an image extends the image. */
  lemma WrittenNext(mem: seq<bv8>, img: seq<bv8>, n: nat)
    requires |mem| == FLASH_SIZE && n < Blocks(img) && n < FIRMWARE_PAGES
    ensures Written(Written(mem, PageOffset(0), img[..Upto(img, n)]), PageOffset(n), Chunk(img, n))
         == Written(mem, PageOffset(0), img[..Upto(img, n + 1)])
  {
    assert PageFloor(PageOffset(n)) == PageOffset(n) && PageFloor(PageOffset(0)) == PageOffset(0);
    assert Upto(img, n) == n * TRANSFER_SIZE;
    assert PageCeil(PageOffset(0) + Upto(img, n)) == PageOffset(n);
    assert PageCeil(PageOffset(0) + Upto(img, n + 1)) == PageOffset(n + 1) == PageCeil(PageOffset(n) + |Chunk(img, n)|);
    assert PageOffset(n) + |Chunk(img, n)| == PageOffset(0) + Upto(img, n + 1);
  }

  predicate Downloaded(s: Sys, r: Sys, img: seq<bv8>, n: nat)
    requires ValidSys(s)
  {
    r.mem == Written(s.mem, PageOffset(0), img[..Upto(img, n)]) &&
    r.m.status == s.m.status && r.m.resetPending == s.m.resetPending
  }

  predicate DownloadedBy(s: Sys, img: seq<bv8>, n: nat)
    requires ValidSys(s) && n <= Blocks(img) && n <= 0x1_0000
  {
    Downloaded(s, Run(s, Download(img, n)), img, n)
  }

  /** From any state at all, the first n blocks of an image land in the first n firmware pages. */
  lemma {:induction false} DownloadLands(s: Sys, img: seq<bv8>, n: nat)
    requires ValidSys(s) && n <= Blocks(img) && n <= FIRMWARE_PAGES
    ensures DownloadedBy(s, img, n)
    decreases n
  {
    if n == 0 {
      DownloadNothing(s, img);
    } else {
      DownloadLands(s, img, n - 1);
      DownloadNext(s, img, n - 1, n);
    }
  }

  lemma DownloadNothing(s: Sys, img: seq<bv8>)
    requires ValidSys(s)
    ensures DownloadedBy(s, img, 0)
  {
    NothingWritten(s.mem, img);
    assert Run(s, Download(img, 0)) == s;
  }

  lemma NothingWritten(mem: seq<bv8>, img: seq<bv8>)
    ensures Written(mem, PageOffset(0), img[..0]) == mem
  {
    assert PageFloor(PageOffset(0)) == PageCeil(PageOffset(0));
  }

  lemma DownloadNext(s: Sys, img: seq<bv8>, n: nat, m: nat)
    requires ValidSys(s) && n < Blocks(img) && n < FIRMWARE_PAGES && m == n + 1
    requires DownloadedBy(s, img, n)
    ensures DownloadedBy(s, img, m)
  {
    var block := [DataRequest(n, Chunk(img, n)), StatusRequest(Success)];
    BlockLands(Run(s, Download(img, n)), n, Chunk(img, n));
    RunConcat(s, Download(img, n), block);
    WrittenNext(s.mem, img, n);
  }

  lemma BlockLands(s: Sys, n: nat, data: seq<bv8>)
    requires ValidSys(s) && n < FIRMWARE_PAGES && 1 <= |data| <= TRANSFER_SIZE
    ensures var r := Run(s, [DataRequest(n, data), StatusRequest(Success)]);
            r.mem == Written(s.mem, PageOffset(n), data) &&
            r.m.status == s.m.status && r.m.resetPending == s.m.resetPending
  {
    WriteAcceptedIff(n, |data|);
    RunTwo(s, DataRequest(n, data), StatusRequest(Success));
  }

  /** The end of a transfer: an empty block and two status requests. */
  function Finish(): History { [DataRequest(0, []), StatusRequest(Success), StatusRequest(Success)] }

  function Update(img: seq<bv8>): History
    requires Blocks(img) <= FIRMWARE_PAGES
  {
    Download(img, Blocks(img)) + Finish()
  }

  lemma EndSteps(s: Sys)
    requires ValidSys(s)
    ensures var ended, manifesting := s.(m := s.m.(state := ManifestSync)), s.(m := s.m.(state := Manifest));
            Step(s, DataRequest(0, [])) == ended && Step(ended, StatusRequest(Success)) == manifesting &&
            Step(manifesting, StatusRequest(Success)) == s.(m := s.m.(state := Idle, resetPending := true))
  {
  }

  lemma FinishManifests(s: Sys)
    requires ValidSys(s)
    ensures Run(s, Finish()) == s.(m := s.m.(state := Idle, resetPending := true))
  {
    var a, b := DataRequest(0, []), StatusRequest(Success);
    EndSteps(s);
    assert Finish()[..2] == [a, b];
    RunTwo(s, a, b);
    assert Run(s, Finish()) == Step(Run(s, [a, b]), b);
  }

  /** For every image of at most 56 pages, from any state, the update leaves exactly that image in the
      firmware region (0xFF to the end of its last page, all else untouched), no new failure, and a
      reset pending. */
  lemma UpdateLands(s: Sys, img: seq<bv8>)
    requires ValidSys(s) && |img| <= FIRMWARE_PAGES * TRANSFER_SIZE
    ensures Run(s, Update(img)) ==
            Sys(Run(s, Update(img)).m, Written(s.mem, PageOffset(0), img)) &&
            Run(s, Update(img)).m.resetPending && Run(s, Update(img)).m.state == Idle &&
            Run(s, Update(img)).m.status == s.m.status
  {
    DownloadLands(s, img, Blocks(img));
    assert img[..Upto(img, Blocks(img))] == img;
    RunConcat(s, Download(img, Blocks(img)), Finish());
    FinishManifests(Run(s, Download(img, Blocks(img))));
  }

  /** A longer image is refused at block 56 with errWRITE, with the first 56 pages of it in place and
      nothing else changed, whatever the flash does. */
  lemma TooLongFails(s: Sys, img: seq<bv8>, outcome: Outcome)
    requires ValidSys(s) && |img| > FIRMWARE_PAGES * TRANSFER_SIZE
    ensures var h := Download(img, FIRMWARE_PAGES) +
                     [DataRequest(FIRMWARE_PAGES, Chunk(img, FIRMWARE_PAGES)), StatusRequest(outcome)];
            Run(s, h).m.state == ErrorState && Run(s, h).m.status == ErrWrite &&
            Run(s, h).mem == Written(s.mem, PageOffset(0), img[..FIRMWARE_PAGES * TRANSFER_SIZE])
  {
    DownloadLands(s, img, FIRMWARE_PAGES);
    var mid := Run(s, Download(img, FIRMWARE_PAGES));
    var chunk := Chunk(img, FIRMWARE_PAGES);
    assert Upto(img, FIRMWARE_PAGES) == FIRMWARE_PAGES * TRANSFER_SIZE;
    RunConcat(s, Download(img, FIRMWARE_PAGES), [DataRequest(FIRMWARE_PAGES, chunk), StatusRequest(outcome)]);
    BlockRefused(mid, chunk, outcome);
  }

  lemma BlockRefused(s: Sys, data: seq<bv8>, outcome: Outcome)
    requires ValidSys(s) && 1 <= |data| <= TRANSFER_SIZE
    ensures var r := Run(s, [DataRequest(FIRMWARE_PAGES, data), StatusRequest(outcome)]);
            r.m.state == ErrorState && r.m.status == ErrWrite && r.mem == s.mem
  {
    RunTwo(s, DataRequest(FIRMWARE_PAGES, data), StatusRequest(outcome));
    WriteAcceptedIff(FIRMWARE_PAGES, |data|);
  }

  // ---------------------------------------------------------------- what the host sees of an update

  /** The answers to the requests of h, in order. */
  function Replies(s: Sys, h: History): (r: seq<Reply>)
    requires ValidSys(s)
    ensures |r| == |h|
    decreases |h|
  {
    if h == [] then []
    else Replies(s, h[..|h| - 1]) + [ReplyTo(h[|h| - 1].setup, Run(s, h).m)]
  }

  lemma {:induction false} RepliesConcat(s: Sys, h: History, g: History)
    requires ValidSys(s)
    ensures Replies(s, h + g) == Replies(s, h) + Replies(Run(s, h), g)
    decreases |g|
  {
    if g == [] {
      assert h + g == h;
    } else {
      assert (h + g)[..|h + g| - 1] == h + g[..|g| - 1];
      RepliesConcat(s, h, g[..|g| - 1]);
      RunConcat(s, h, g);
    }
  }

  lemma RepliesTwo(s: Sys, a: Event, b: Event)
    requires ValidSys(s) && WellFormed(a.setup) && WellFormed(b.setup)
    ensures Replies(s, [a, b]) == [ReplyTo(a.setup, Step(s, a).m), ReplyTo(b.setup, Step(Step(s, a), b).m)]
  {
    assert [a, b][..1] == [a] && [a][..0] == [];
    assert Run(s, [a]) == Step(Run(s, []), a);
    RunTwo(s, a, b);
  }

  /** A status answer without delay. */
  function Status6(status: bv8, state: bv8): Reply { Handled([status, 0, 0, 0, state, 0]) }

  /** Every block is taken, and every status request after one is answered with dfuDNLOAD-IDLE. */
  function BlockReplies(n: nat, status: bv8): seq<Reply> {
    if n == 0 then [] else BlockReplies(n - 1, status) + [Handled([]), Status6(status, 5)]
  }

  lemma {:induction false} DownloadSeen(s: Sys, img: seq<bv8>, n: nat)
    requires ValidSys(s) && n <= Blocks(img) && n <= FIRMWARE_PAGES
    ensures Replies(s, Download(img, n)) == BlockReplies(n, StatusCode(s.m.status))
    decreases n
  {
    if n > 0 {
      var mid := Run(s, Download(img, n - 1));
      DownloadSeen(s, img, n - 1);
      DownloadLands(s, img, n - 1);
      BlockSeen(mid, n - 1, Chunk(img, n - 1));
      RepliesConcat(s, Download(img, n - 1), [DataRequest(n - 1, Chunk(img, n - 1)), StatusRequest(Success)]);
    }
  }

  lemma BlockSeen(s: Sys, n: nat, data: seq<bv8>)
    requires ValidSys(s) && n < FIRMWARE_PAGES && 1 <= |data| <= TRANSFER_SIZE
    ensures Replies(s, [DataRequest(n, data), StatusRequest(Success)]) ==
            [Handled([]), Status6(StatusCode(s.m.status), 5)]
  {
    WriteAcceptedIff(n, |data|);
    RepliesTwo(s, DataRequest(n, data), StatusRequest(Success));
  }

  /** What a host sees of a whole update, from any state: every request is answered, each block with
      dfuDNLOAD-IDLE (5), and the end of the transfer with dfuMANIFEST (7) and then dfuIDLE (2). */
  lemma UpdateSeen(s: Sys, img: seq<bv8>)
    requires ValidSys(s) && |img| <= FIRMWARE_PAGES * TRANSFER_SIZE
    ensures var status := StatusCode(s.m.status);
            Replies(s, Update(img)) ==
            BlockReplies(Blocks(img), status) + [Handled([]), Status6(status, 7), Status6(status, 2)] &&
            (s.m.status == StatusOk <==> status == 0)
  {
    var mid := Run(s, Download(img, Blocks(img)));
    DownloadSeen(s, img, Blocks(img));
    DownloadLands(s, img, Blocks(img));
    RepliesConcat(s, Download(img, Blocks(img)), Finish());
    FinishSeen(mid);
  }

  lemma FinishSeen(s: Sys)
    requires ValidSys(s)
    ensures Replies(s, Finish()) ==
            [Handled([]), Status6(StatusCode(s.m.status), 7), Status6(StatusCode(s.m.status), 2)]
  {
    var a, b := DataRequest(0, []), StatusRequest(Success);
    var s1, s2 := s.(m := s.m.(state := ManifestSync)), s.(m := s.m.(state := Manifest));
    var s3 := s.(m := s.m.(state := Idle, resetPending := true));
    EndSteps(s);
    DataReply(a, s1.m);
    StatusReply(b, s2.m);
    StatusReply(b, s3.m);
    RepliesThree(s, [a, b, b], [s1, s2, s3],
                 [Handled([]), Status6(StatusCode(s.m.status), 7), Status6(StatusCode(s.m.status), 2)]);
  }

  lemma RepliesThree(s: Sys, h: History, after: seq<Sys>, r: seq<Reply>)
    requires ValidSys(s) && |h| == |after| == |r| == 3 && forall x | x in after :: ValidSys(x)
    requires Step(s, h[0]) == after[0] && Step(after[0], h[1]) == after[1] && Step(after[1], h[2]) == after[2]
    requires forall i | 0 <= i < 3 :: ReplyTo(h[i].setup, after[i].m) == r[i]
    ensures Replies(s, h) == r
  {
    assert h[..2] == [h[0], h[1]];
    RunTwo(s, h[0], h[1]);
    RepliesTwo(s, h[0], h[1]);
    LastReply(s, h);
  }

  lemma LastReply(s: Sys, h: History)
    requires ValidSys(s) && h != []
    ensures Replies(s, h) == Replies(s, h[..|h| - 1]) + [ReplyTo(h[|h| - 1].setup, Run(s, h).m)]
  {
  }

  lemma DataReply(e: Event, m: Machine)
    requires IsData(e, e.setup.value, e.setup.data) && |e.setup.data| <= TRANSFER_SIZE
    ensures ReplyTo(e.setup, m) == Handled([])
  {
  }

  lemma StatusReply(e: Event, m: Machine)
    requires IsStatus(e)
    ensures ReplyTo(e.setup, m) == Status6(StatusCode(m.status), StateCode(m.state))
  {
  }

  // ---------------------------------------------------------------- update, then boot

  /** Nothing but USB requests, with DPI held whenever one of them is DETACH. */
  predicate StaysInDfu(s: Story) {
    forall e | e in s :: e.Usb? && (KindOf(e.event.setup) == Detach ==> e.dpiHeld)
  }

  function RequestsOf(s: Story): (h: History)
    requires StaysInDfu(s)
    ensures |h| == |s|
  {
    seq(|s|, i requires 0 <= i < |s| => s[i].event)
  }

  /** While the bootloader is not left, the device is the machine of DfuHistory. */
  lemma {:induction false} LiveIsRun(d: Device, s: Story)
    requires ValidDevice(d) && d.mode.Bootloader? && d.magic != BOOT_MAGIC && StaysInDfu(s)
    ensures var r := Run(Sys(d.mode.m, d.mem), RequestsOf(s));
            Live(d, s) == Device(Bootloader(r.m), d.magic, r.mem)
    decreases |s|
  {
    if s != [] {
      var before, last := s[..|s| - 1], s[|s| - 1];
      LiveIsRun(d, before);
      assert RequestsOf(s)[..|s| - 1] == RequestsOf(before);
      assert last in s;
      UsbIsStep(Live(d, before), last);
    }
  }

  lemma UsbIsStep(d: Device, e: Happening)
    requires ValidDevice(d) && d.mode.Bootloader? && d.magic != BOOT_MAGIC && GoodHappening(e)
    requires e.Usb? && (KindOf(e.event.setup) == Detach ==> e.dpiHeld)
    ensures var r := Step(Sys(d.mode.m, d.mem), e.event);
            Happen(d, e) == Device(Bootloader(r.m), d.magic, r.mem)
  {
  }

  lemma {:induction false} DownloadStays(img: seq<bv8>, n: nat)
    requires n <= Blocks(img) && n <= 0x1_0000
    ensures forall e | e in Download(img, n) :: KindOf(e.setup) == DataBlock || KindOf(e.setup) == GetStatus
    decreases n
  {
    if n > 0 { DownloadStays(img, n - 1); }
  }

  lemma UpdateStays(s: Story, img: seq<bv8>)
    requires Blocks(img) <= FIRMWARE_PAGES && |s| == |Update(img)|
    requires forall i | 0 <= i < |s| :: s[i].Usb? && s[i].event == Update(img)[i]
    ensures StaysInDfu(s) && RequestsOf(s) == Update(img)
  {
    DownloadStays(img, Blocks(img));
    forall i | 0 <= i < |s| ensures KindOf(s[i].event.setup) != Detach {
      assert Update(img)[i] in Download(img, Blocks(img)) || Update(img)[i] in Finish();
    }
  }

  /** The image's first two words as they are in flash: a shorter image is padded with 0xFF, and an empty
      one leaves what was there. */
  lemma FirstWords(mem: seq<bv8>, img: seq<bv8>)
    requires |mem| == FLASH_SIZE && |img| <= FIRMWARE_PAGES * TRANSFER_SIZE
    ensures var w := Written(mem, PageOffset(0), img);
            (img == [] ==> w == mem) &&
            (1 <= |img| < 8 ==> !FirmwareLooksValid(w)) &&
            (|img| >= 8 ==> WordAt(w, PageOffset(0)) == WordAt(img, 0) &&
                            WordAt(w, PageOffset(0) + 4) == WordAt(img, 4))
  {
    var at, w := PageOffset(0), Written(mem, PageOffset(0), img);
    assert PageFloor(at) == at;
    if img == [] {
      NothingWritten(mem, img);
    } else if |img| < 8 {
      assert PageCeil(at + |img|) == at + PAGE_SIZE;
      assert w[at + 7] == 0xFF;
      TopByteTooHigh(w[at + 4], w[at + 5], w[at + 6]);
    } else {
      assert forall i | 0 <= i < 8 :: w[at + i] == img[i];
    }
  }

  lemma TopByteTooHigh(a: bv8, b: bv8, c: bv8)
    ensures Join4(a, b, c, 0xFF) >= 0x0802_0000
  {
  }

  /** End to end: from any reachable state of the bootloader, update with any image of at most 56 pages and
      reset with DPI released. The firmware is entered, at the image's own reset vector, exactly when the
      image's first two words pass; otherwise, and for every image of 1 to 7 bytes, the bootloader stays.
      An update with nothing leaves the flash, and so the decision, as it was. */
  lemma UpdateThenBoot(p: Power, s: Story, update: Story, img: seq<bv8>)
    requires |p.mem| == FLASH_SIZE && |img| <= FIRMWARE_PAGES * TRANSFER_SIZE
    requires Live(FirstPowerUp(p), s).mode.Bootloader? && |update| == |Update(img)|
    requires forall i | 0 <= i < |update| :: update[i].Usb? && update[i].event == Update(img)[i]
    ensures var d := Live(FirstPowerUp(p), s);
            var updated := Live(d, update);
            var booted := Happen(updated, Reset(false));
            updated.mode.Bootloader? && updated.mode.m.resetPending &&
            booted.mem == Written(d.mem, PageOffset(0), img) &&
            (|img| >= 8 ==>
               if LooksValid(WordAt(img, 0), WordAt(img, 4))
               then booted.mode == Firmware(WordAt(img, 0), WordAt(img, 4))
               else booted.mode.Bootloader?) &&
            (1 <= |img| < 8 ==> booted.mode.Bootloader?) &&
            (img == [] ==> booted.mem == d.mem && (booted.mode.Firmware? <==> FirmwareLooksValid(d.mem)))
  {
    var d := Live(FirstPowerUp(p), s);
    MagicGoneInDfu(p, s);
    UpdateLands(Sys(d.mode.m, d.mem), img);
    UpdateStays(update, img);
    LiveIsRun(d, update);
    FirstWords(d.mem, img);
  }
}
