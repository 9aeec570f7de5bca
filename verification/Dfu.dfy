/** bootloader/src/usb_dfu.c: the request-driven DFU machine with its deferred flash write, and the
    device object that runs it. Names of requests, states and status codes are those of USB DFU 1.1,
    sections 3 and 6.1. */
module Dfu {
  import opened Word32
  import opened Flash
  import opened BootFlash

  const TRANSFER_SIZE: nat := 2048
  const FIRMWARE_PAGES: nat := 56

  datatype DfuState = Idle | DnloadSync | DnloadIdle | ManifestSync | Manifest | ErrorState

  datatype Status = StatusOk | ErrWrite | ErrUnknown

  function StateCode(s: DfuState): bv8 {
    match s
    case Idle => 2
    case DnloadSync => 3
    case DnloadIdle => 5
    case ManifestSync => 6
    case Manifest => 7
    case ErrorState => 10
  }

  function StatusCode(s: Status): bv8 {
    match s
    case StatusOk => 0
    case ErrWrite => 3
    case ErrUnknown => 14
  }

  const DFU_DETACH: bv8 := 0
  const DFU_DNLOAD: bv8 := 1
  const DFU_GETSTATUS: bv8 := 3
  const DFU_CLRSTATUS: bv8 := 4
  const DFU_GETSTATE: bv8 := 5
  const DFU_ABORT: bv8 := 6

  /** A setup packet with its data stage; wLength is the length of data. */
  datatype Setup = Setup(requestType: bv8, request: bv8, value: nat, data: seq<bv8>)

  predicate WellFormed(s: Setup) { s.value < 0x1_0000 && |s.data| < 0x1_0000 }

  datatype Reply = NotSupported | Handled(bytes: seq<bv8>) | SystemReset

  // ---------------------------------------------------------------- one request

  /** The statics of the file; pending is the filled part of dnload_buf. */
  datatype Machine = Machine(state: DfuState, status: Status, pending: seq<bv8>, block: nat, resetPending: bool)

  /** The machine and the flash it writes. */
  datatype Sys = Sys(m: Machine, mem: seq<bv8>)

  predicate ValidSys(s: Sys) {
    |s.mem| == FLASH_SIZE && |s.m.pending| <= TRANSFER_SIZE && s.m.block < 0x1_0000
  }

  /** The machine as a start of the bootloader leaves it. */
  function Started(mem: seq<bv8>): Sys { Sys(Machine(Idle, StatusOk, [], 0, false), mem) }

  /** How a flash write went: done, or failed with the flash left as after. */
  datatype Outcome = Success | Fault(after: seq<bv8>)

  datatype Event = Event(setup: Setup, outcome: Outcome)

  function BlockAddress(block: nat): nat {
    var addr := (FIRMWARE_BASE + block * TRANSFER_SIZE) % WORD;
    if addr < FIRMWARE_BASE then FIRMWARE_BASE else addr
  }

  function Fail(m: Machine, s: Status): Machine { m.(status := s, state := ErrorState) }

  predicate Accepted(block: nat, len: nat) {
    IsWritable(BlockAddress(block), len) && BlockAddress(block) % 2 == 0
  }

  /** The write that GETSTATUS performs. */
  function Commit(s: Sys, outcome: Outcome): (r: Sys)
    requires ValidSys(s)
    ensures ValidSys(r)
  {
    var at := BlockAddress(s.m.block) - FLASH_BASE;
    if !Accepted(s.m.block, |s.m.pending|) then s.(m := Fail(s.m, ErrWrite))
    else match outcome
      case Success => Sys(s.m.(state := DnloadIdle), Written(s.mem, at, s.m.pending))
      case Fault(after) =>
        Sys(Fail(s.m, ErrWrite),
            if SameOutside(s.mem, after, PageFloor(at), PageCeil(at + |s.m.pending|)) then after else s.mem)
  }

  predicate IsClassRequest(p: Setup) { p.requestType & 0x7F == 0x21 }

  /** DETACH resets the chip at once. The step is that of a device which then comes up in the bootloader
      again, its statics as at any start; what decides that is in Boot. */
  function Step(s: Sys, e: Event): (r: Sys)
    requires ValidSys(s) && WellFormed(e.setup)
    ensures ValidSys(r)
  {
    var p := e.setup;
    if !IsClassRequest(p) then s
    else if p.request == DFU_DNLOAD then
      if |p.data| == 0 then s.(m := s.m.(state := ManifestSync))
      else if |p.data| > TRANSFER_SIZE then s.(m := Fail(s.m, ErrUnknown))
      else s.(m := s.m.(pending := p.data, block := p.value, state := DnloadSync))
    else if p.request == DFU_GETSTATUS then
      match s.m.state
      case DnloadSync => Commit(s, e.outcome)
      case ManifestSync => s.(m := s.m.(state := Manifest))
      case Manifest => s.(m := s.m.(state := Idle, resetPending := true))
      case _ => s
    else if p.request == DFU_CLRSTATUS then s.(m := s.m.(state := Idle, status := StatusOk))
    else if p.request == DFU_ABORT then s.(m := s.m.(state := Idle))
    else if p.request == DFU_DETACH then Started(s.mem)
    else s
  }

  /** The answer, given the machine after the step. */
  function ReplyTo(p: Setup, after: Machine): Reply {
    if !IsClassRequest(p) then NotSupported
    else if p.request == DFU_DNLOAD then
      if |p.data| > TRANSFER_SIZE then NotSupported else Handled([])
    else if p.request == DFU_GETSTATUS then
      Handled([StatusCode(after.status), 0, 0, 0, StateCode(after.state), 0])
    else if p.request == DFU_CLRSTATUS || p.request == DFU_ABORT then Handled([])
    else if p.request == DFU_GETSTATE then Handled([StateCode(after.state)])
    else if p.request == DFU_DETACH then SystemReset
    else NotSupported
  }

  // ---------------------------------------------------------------- the device

  class Device {
    const chip: Chip
    const buf: array<bv8>
    var state: DfuState
    var status: Status
    var len: nat
    var block: nat
    var resetPending: bool
    var fwdWasPressed: bool
    var armed: bool

    ghost predicate Valid()
      reads this, chip
    {
      chip.Valid() && buf.Length == TRANSFER_SIZE && len <= TRANSFER_SIZE && block < 0x1_0000 &&
      (fwdWasPressed ==> armed)
    }

    ghost function Now(): (s: Sys)
      requires Valid()
      reads this, chip, buf
      ensures ValidSys(s)
    {
      Sys(Machine(state, status, buf[..len], block, resetPending), chip.mem)
    }

    constructor (chip: Chip)
      requires chip.Valid()
      ensures Valid() && this.chip == chip && fresh(buf) && !fwdWasPressed
      ensures Now() == Started(chip.mem)
    {
      this.chip := chip;
      buf := new bv8[TRANSFER_SIZE](i => 0);
      state, status, len, block, resetPending := Idle, StatusOk, 0, 0, false;
      fwdWasPressed, armed := false, false;
    }

    method SetFailed(s: Status)
      modifies this`state, this`status
      ensures state == ErrorState && status == s
    {
      status, state := s, ErrorState;
    }

    /** What a system reset makes of the statics. */
    method Restart()
      requires Valid()
      modifies this
      ensures Valid() && Now() == Started(chip.mem) && !fwdWasPressed
    {
      state, status, len, block, resetPending := Idle, StatusOk, 0, 0, false;
      fwdWasPressed, armed := false, false;
    }

    /** dfu_control_request. A status request for an acceptable block writes it successfully unless the
        controller flags an operation; no other request operates the flash. */
    method ControlRequest(p: Setup) returns (reply: Reply, ghost outcome: Outcome)
      requires Valid() && WellFormed(p)
      modifies this, chip, buf
      ensures Valid()
      ensures reply != SystemReset ==> fwdWasPressed == old(fwdWasPressed) && armed == old(armed)
      ensures Now() == Step(old(Now()), Event(p, outcome))
      ensures reply == ReplyTo(p, Now().m)
      ensures chip.faults >= old(chip.faults)
      ensures IsClassRequest(p) && p.request == DFU_GETSTATUS && old(state) == DnloadSync ==>
                old(Accepted(block, len)) ==> (outcome.Success? <==> chip.faults == old(chip.faults))
      ensures !(IsClassRequest(p) && p.request == DFU_GETSTATUS && old(state) == DnloadSync) ==>
                chip.faults == old(chip.faults)
    {
      outcome := Success;
      if p.requestType & 0x7F != 0x21 { return NotSupported, outcome; }
      if p.request == DFU_DNLOAD {
        if |p.data| == 0 {
          state := ManifestSync;
          return Handled([]), outcome;
        }
        if |p.data| > TRANSFER_SIZE {
          SetFailed(ErrUnknown);
          return NotSupported, outcome;
        }
        forall i | 0 <= i < |p.data| { buf[i] := p.data[i]; }
        len, block, state := |p.data|, p.value, DnloadSync;
        assert buf[..len] == p.data;
        return Handled([]), outcome;
      } else if p.request == DFU_GETSTATUS {
        if state == DnloadSync {
          outcome := WritePending();
        } else if state == ManifestSync {
          state := Manifest;
        } else if state == Manifest {
          state, resetPending := Idle, true;
        }
        return Handled([StatusCode(status), 0, 0, 0, StateCode(state), 0]), outcome;
      } else if p.request == DFU_CLRSTATUS {
        state, status := Idle, StatusOk;
        return Handled([]), outcome;
      } else if p.request == DFU_ABORT {
        state := Idle;
        return Handled([]), outcome;
      } else if p.request == DFU_GETSTATE {
        return Handled([StateCode(state)]), outcome;
      } else if p.request == DFU_DETACH {
        Restart();
        return SystemReset, outcome;
      }
      return NotSupported, outcome;
    }

    /** The deferred write of the pending block. */
    method WritePending() returns (ghost outcome: Outcome)
      requires Valid()
      modifies this`state, this`status, chip
      ensures Valid()
      ensures Now() == Commit(old(Now()), outcome)
      ensures chip.faults >= old(chip.faults)
      ensures Accepted(block, len) ==> (outcome.Success? <==> chip.faults == old(chip.faults))
    {
      var addr := (FIRMWARE_BASE + block * TRANSFER_SIZE) % WORD;
      if addr < FIRMWARE_BASE { addr := FIRMWARE_BASE; }
      AddressInWord(block);
      assert addr == BlockAddress(block);
      ghost var was := Now();
      var data := buf[..len];
      var rc := BootFlash.Program(chip, addr, data);
      assert rc == Failed(Rejected) <==> !Accepted(was.m.block, |was.m.pending|);
      outcome := if rc.Done? then Success else Fault(chip.mem);
      assert buf[..len] == was.m.pending;
      if !rc.Done? { SetFailed(ErrWrite); } else { state := DnloadIdle; }
    }

    /** One turn of usb_dfu_run after the poll: reset on a pending request, or when the forward button
        is released. The armed flag never holds anything back. */
    method CheckReset(fwdPressed: bool) returns (reset: bool)
      requires Valid()
      modifies this`fwdWasPressed, this`armed
      ensures Valid() && Now() == old(Now())
      ensures reset <==> resetPending || (old(fwdWasPressed) && !fwdPressed)
      ensures fwdWasPressed == fwdPressed
    {
      reset := false;
      if fwdPressed && !fwdWasPressed { armed := true; }
      if !fwdPressed && fwdWasPressed && armed { reset := true; }
      fwdWasPressed := fwdPressed;
      if resetPending { reset := true; }
    }
  }

  lemma AddressInWord(block: nat)
    requires block < 0x1_0000
    ensures BlockAddress(block) == FIRMWARE_BASE + block * TRANSFER_SIZE < WORD - TRANSFER_SIZE
  {
  }
}
