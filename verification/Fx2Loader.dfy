/** The firmware that feeds the FX2 through the clock-stretching slave, running against that slave.

    The processor reaches the slave's registers through separate accesses, and any number of clock edges may pass between
    two of them.  One `Step` is one clock edge, during which the processor makes its next access or none. */
module Fx2Loader {
  import DivMod
  import opened I2cShiftReg
  import opened Types

  const REPORT_PERIOD := 0x10_0000
  const WAIT_PERIOD := REPORT_PERIOD * 5

  /** 0x40 in seven bits. */
  const SLAVE_ADDRESS: Address := [true, false, false, false, false, false, false]

  /** The bytes 0..end_addr of the selected image. */
  type Image = f: seq<Byte> | |f| > 0 witness [ZERO_BYTE]

  const INVALID_BYTE: Byte := [true, true, true, true, true, true, true, true]

  function FwValue(fw: Image, addr: nat): Byte {
    if addr <= |fw| - 1 then fw[addr] else INVALID_BYTE
  }

  /** Where the firmware is: inside `fx2_load_init`, about to poll, or between the accesses of `fx2_service`. */
  datatype Pc = InitAddr | InitShift | InitStatus | Poll | LoadShift | LoadStatus | Advance

  /** The state of `fx2_load`; after it has returned the main loop keeps calling `fx2_service`. */
  datatype Outcome = Loading | Booted | TimedOut

  /** `restarting` tells an initialisation made by `fx2_service` from the first one. */
  datatype Firmware = Firmware(pc: Pc, nextReadAddr: nat, polls: nat, restarting: bool, outcome: Outcome)

  const FIRST := Firmware(InitAddr, 0, 0, false, Loading)

  /** The register access of the firmware's next step. */
  function AccessOf(fw: Image, f: Firmware): Access {
    match f.pc
    case InitAddr => WriteAddr(SLAVE_ADDRESS)
    case InitShift => WriteShift(FwValue(fw, 0))
    case InitStatus => WriteStatus(STATUS_READY)
    case Poll => NoAccess
    case LoadShift => WriteShift(FwValue(fw, f.nextReadAddr + 1))
    case LoadStatus => WriteStatus(STATUS_READY)
    case Advance => NoAccess
  }

  /** `fx2_service` returned true. */
  function Serviced(f: Firmware): Firmware {
    var g := f.(polls := 0, pc := Poll, restarting := false);
    if f.outcome.Loading? && f.nextReadAddr == 0 then g.(outcome := Booted) else g
  }

  /** The loop of `fx2_load` gives up. */
  predicate GivesUp(f: Firmware) {
    f.outcome.Loading? && f.polls >= WAIT_PERIOD
  }

  function NextFirmware(fw: Image, f: Firmware, status: nat): Firmware {
    match f.pc
    case InitAddr => f.(pc := InitShift)
    case InitShift => f.(pc := InitStatus)
    case InitStatus => if f.restarting then Serviced(f) else f.(pc := Poll, polls := 0)
    case Poll =>
      if GivesUp(f) then f.(outcome := TimedOut)
      else
        var g := if f.outcome.Loading? then f.(polls := f.polls + 1) else f;
        if status != STATUS_EMPTY then g
        else if f.nextReadAddr < |fw| - 1 then g.(pc := LoadShift)
        else g.(pc := InitAddr, nextReadAddr := 0, restarting := true)
    case LoadShift => f.(pc := LoadStatus)
    case LoadStatus => f.(pc := Advance)
    case Advance => Serviced(f.(nextReadAddr := f.nextReadAddr + 1))
  }

  datatype System = System(hw: Trace, cpu: Firmware)

  /** The levels sampled at this edge, and whether the processor makes its next step. */
  datatype Event = Event(scl: bool, sda: bool, cpuSteps: bool)

  function HardwareInput(fw: Image, y: System, e: Event): Input {
    Input(e.scl, e.sda, if e.cpuSteps then AccessOf(fw, y.cpu) else NoAccess)
  }

  function StepSystem(fw: Image, y: System, e: Event): (n: System)
    requires WellFormed(y.hw.state)
    ensures WellFormed(n.hw.state)
  {
    System(Step(y.hw, HardwareInput(fw, y, e)),
           if e.cpuSteps then NextFirmware(fw, y.cpu, y.hw.state.csr.status) else y.cpu)
  }

  function Run(fw: Image, y: System, events: seq<Event>): (n: System)
    requires WellFormed(y.hw.state)
    ensures WellFormed(n.hw.state)
    decreases |events|
  {
    if events == [] then y else Run(fw, StepSystem(fw, y, events[0]), events[1..])
  }

  /** Throughout the run the bus stretches with the slave and only reads from it. */
  ghost predicate BusHonoursRun(fw: Image, y: System, events: seq<Event>)
    requires WellFormed(y.hw.state)
    decreases |events|
  {
    events == [] ||
    (BusHonours(y.hw.state, HardwareInput(fw, y, events[0]))
     && BusHonoursRun(fw, StepSystem(fw, y, events[0]), events[1..]))
  }

  // ---------- invariant ----------

  /** The image, over and over. */
  ghost predicate InOrder(fw: Image, bytes: seq<seq<bool>>) {
    forall k :: 0 <= k < |bytes| ==> bytes[k] == fw[k % |fw|]
  }

  /** The slave is armed with byte `k` of the image, or it has just shifted that byte out. */
  predicate Serving(fw: Image, s: State, count: nat, k: nat)
    requires k < |fw|
  {
    if s.csr.status == STATUS_READY then count % |fw| == k && s.csr.shiftReg == fw[k]
    else s.csr.status == STATUS_EMPTY && count > 0 && count % |fw| == (k + 1) % |fw|
  }

  predicate Agreement(fw: Image, s: State, count: nat, f: Firmware) {
    var n := f.nextReadAddr;
    && n < |fw|
    && (f.pc in {LoadShift, LoadStatus, Advance} ==> n + 1 < |fw|)
    && (f.pc in {InitAddr, InitShift, InitStatus} ==>
          n == 0 && s.csr.status == STATUS_EMPTY && count % |fw| == 0 && (f.restarting ==> count >= |fw|))
    && (f.pc == InitStatus ==> s.csr.shiftReg == fw[0])
    && (f.pc == Poll ==> Serving(fw, s, count, n))
    && (f.pc in {LoadShift, LoadStatus} ==> s.csr.status == STATUS_EMPTY && count % |fw| == n + 1)
    && (f.pc == LoadStatus ==> s.csr.shiftReg == fw[n + 1])
    && (f.pc == Advance ==> Serving(fw, s, count, n + 1))
    && (f.outcome == Booted ==> count >= |fw|)
    && (f.pc in {Poll, LoadShift, LoadStatus, Advance} ==> !f.restarting)
  }

  ghost predicate SystemInv(fw: Image, y: System) {
    && Inv(y.hw)
    && InOrder(fw, y.hw.bytes)
    && Agreement(fw, y.hw.state, |y.hw.bytes|, y.cpu)
  }

  lemma AccessIsFair(fw: Image, y: System)
    requires SystemInv(fw, y)
    ensures FairAccess(y.hw.state, AccessOf(fw, y.cpu))
  {
  }

  /** The byte that leaves is the one the count asks for. */
  lemma ByteLeavesInOrder(fw: Image, y: System, i: Input)
    requires SystemInv(fw, y) && BusHonours(y.hw.state, i) && FairAccess(y.hw.state, i.access)
    ensures InOrder(fw, Step(y.hw, i).bytes)
  {
    StepKeepsInv(y.hw, i);
    if ByteDone(y.hw.state) {
      assert y.hw.bits == y.hw.state.csr.shiftReg == fw[|y.hw.bytes| % |fw|];
    }
  }

  lemma SuccessorModulo(count: nat, n: nat)
    requires n > 0
    ensures (count + 1) % n == (count % n + 1) % n
  {
    DivMod.Successor(count, n);
    if count % n == n - 1 {
      DivMod.Unique(count % n + 1, n, 1, 0);
    } else {
      DivMod.Unique(count % n + 1, n, 0, count % n + 1);
    }
  }

  /** With no processor write, the register file changes only when a byte has been shifted out. */
  lemma QuietRegisters(t: Trace, i: Input)
    requires Inv(t) && i.access == NoAccess
    ensures Step(t, i).state.csr.shiftReg == t.state.csr.shiftReg
    ensures if ByteDone(t.state) then Step(t, i).state.csr.status == STATUS_EMPTY && |Step(t, i).bytes| == |t.bytes| + 1
            else Step(t, i).state.csr.status == t.state.csr.status && Step(t, i).bytes == t.bytes
  {
  }

  /** Shifting a byte out turns "armed with byte k" into "byte k has gone". */
  lemma HardwareKeepsServing(fw: Image, t: Trace, i: Input, k: nat)
    requires Inv(t) && i.access == NoAccess
    requires k < |fw| && Serving(fw, t.state, |t.bytes|, k)
    ensures var n := Step(t, i); Serving(fw, n.state, |n.bytes|, k)
  {
    QuietRegisters(t, i);
    SuccessorModulo(|t.bytes|, |fw|);
  }

  /** Between a poll that found the register empty and the write that arms it, the hardware is quiet. */
  lemma LoadingKeepsAgreement(fw: Image, y: System, e: Event)
    requires SystemInv(fw, y) && BusHonours(y.hw.state, HardwareInput(fw, y, e))
    requires y.cpu.pc !in {Poll, Advance}
    ensures var n := StepSystem(fw, y, e); Agreement(fw, n.hw.state, |n.hw.bytes|, n.cpu)
  {
    assert !ByteDone(y.hw.state);
  }

  lemma ServingKeepsAgreement(fw: Image, y: System, e: Event)
    requires SystemInv(fw, y) && BusHonours(y.hw.state, HardwareInput(fw, y, e))
    requires y.cpu.pc in {Poll, Advance}
    ensures var n := StepSystem(fw, y, e); Agreement(fw, n.hw.state, |n.hw.bytes|, n.cpu)
  {
    var i, k := HardwareInput(fw, y, e), if y.cpu.pc.Poll? then y.cpu.nextReadAddr else y.cpu.nextReadAddr + 1;
    HardwareKeepsServing(fw, y.hw, i, k);
    QuietRegisters(y.hw, i);
    PolledEmpty(fw, |y.hw.bytes|, k);
  }

  lemma StepKeepsAgreement(fw: Image, y: System, e: Event)
    requires SystemInv(fw, y) && BusHonours(y.hw.state, HardwareInput(fw, y, e))
    ensures var n := StepSystem(fw, y, e); Agreement(fw, n.hw.state, |n.hw.bytes|, n.cpu)
  {
    if y.cpu.pc in {Poll, Advance} {
      ServingKeepsAgreement(fw, y, e);
    } else {
      LoadingKeepsAgreement(fw, y, e);
    }
  }

  /** What an empty register tells the firmware about the number of bytes gone. */
  lemma PolledEmpty(fw: Image, count: nat, k: nat)
    requires k < |fw|
    ensures k + 1 < |fw| ==> (k + 1) % |fw| == k + 1
    ensures k + 1 == |fw| ==> (k + 1) % |fw| == 0
    ensures count > 0 && count % |fw| == 0 ==> count >= |fw|
  {
    if k + 1 < |fw| {
      DivMod.Unique(k + 1, |fw|, 0, k + 1);
    } else {
      DivMod.Unique(k + 1, |fw|, 1, 0);
    }
    if count < |fw| {
      DivMod.Unique(count, |fw|, 0, count);
    }
  }

  lemma StepKeepsSystemInv(fw: Image, y: System, e: Event)
    requires SystemInv(fw, y) && BusHonours(y.hw.state, HardwareInput(fw, y, e))
    ensures SystemInv(fw, StepSystem(fw, y, e))
  {
    AccessIsFair(fw, y);
    StepKeepsInv(y.hw, HardwareInput(fw, y, e));
    ByteLeavesInOrder(fw, y, HardwareInput(fw, y, e));
    StepKeepsAgreement(fw, y, e);
  }

  lemma {:induction false} RunKeepsSystemInv(fw: Image, y: System, events: seq<Event>)
    requires SystemInv(fw, y) && BusHonoursRun(fw, y, events)
    ensures SystemInv(fw, Run(fw, y, events))
    decreases |events|
  {
    if events != [] {
      StepKeepsSystemInv(fw, y, events[0]);
      RunKeepsSystemInv(fw, StepSystem(fw, y, events[0]), events[1..]);
    }
  }

  // ---------- main results ----------

  /** `fx2_load_init` is entered with the slave empty: after power-on, and whenever `fx2_service` starts over. */
  ghost predicate ReadyToLoad(hw: Trace) {
    Inv(hw) && hw.state.csr.status == STATUS_EMPTY && hw.bytes == []
  }

  /** Main result: however processor steps and read-only bus activity interleave, the bytes the FX2 reads are the image in
      order, none lost and none repeated, and the firmware reports success only after the whole image was read. */
  lemma Delivery(fw: Image, hw: Trace, events: seq<Event>)
    requires ReadyToLoad(hw) && BusHonoursRun(fw, System(hw, FIRST), events)
    ensures var y := Run(fw, System(hw, FIRST), events);
            && InOrder(fw, y.hw.bytes)
            && (y.cpu.outcome == Booted ==> |y.hw.bytes| >= |fw| && y.hw.bytes[..|fw|] == fw)
  {
    DivMod.Unique(0, |fw|, 0, 0);
    RunKeepsSystemInv(fw, System(hw, FIRST), events);
    var bytes := Run(fw, System(hw, FIRST), events).hw.bytes;
    if |bytes| >= |fw| {
      forall k | 0 <= k < |fw|
        ensures bytes[k] == fw[k]
      {
        DivMod.Unique(k, |fw|, 0, k);
      }
    }
  }

  /** The slave is idle and empty after reset, so the power-on load is covered. */
  lemma PowerOnIsReady()
    ensures ReadyToLoad(Trace(RESET, [], []))
  {
  }

  /** One way in which an armed slave goes wrong: entered in the last low phase of a byte, `fx2_load_init` lets that stale
      byte out, and it is the first one the FX2 gets. */
  lemma StaleByteEscapes(fw: Image, hw: Trace, e: Event)
    requires Inv(hw) && ByteDone(hw.state) && hw.bytes == []
    ensures var y := StepSystem(fw, System(hw, FIRST), e);
            && y.hw.bytes == [hw.state.csr.shiftReg]
            && (hw.state.csr.shiftReg != fw[0] ==> !InOrder(fw, y.hw.bytes))
  {
    DivMod.Unique(0, |fw|, 0, 0);
    assert hw.bits == hw.state.csr.shiftReg;
    var bytes := StepSystem(fw, System(hw, FIRST), e).hw.bytes;
    assert bytes == [hw.bits];
    assert InOrder(fw, bytes) ==> bytes[0] == fw[0 % |fw|];
  }

  /** The firmware's variables, updated step by step between its register accesses. */
  class Loader {
    const fw: Image
    var pc: Pc
    var nextReadAddr: nat
    var polls: nat
    var restarting: bool
    var outcome: Outcome

    ghost function Variables(): Firmware
      reads this
    {
      Firmware(pc, nextReadAddr, polls, restarting, outcome)
    }

    constructor (fw: Image)
      ensures this.fw == fw && Variables() == FIRST
    {
      this.fw := fw;
      pc, nextReadAddr, polls, restarting, outcome := InitAddr, 0, 0, false, Loading;
    }

    /** `status` is what the status register holds; only a poll looks at it. */
    method StepProcessor(status: nat) returns (access: Access)
      modifies this
      ensures Variables() == NextFirmware(fw, old(Variables()), status)
      ensures access == AccessOf(fw, old(Variables()))
    {
      access := NoAccess;
      match pc {
        case InitAddr =>
          access := WriteAddr(SLAVE_ADDRESS);
          pc := InitShift;
        case InitShift =>
          access := WriteShift(FwValue(fw, 0));
          pc := InitStatus;
        case InitStatus =>
          access := WriteStatus(STATUS_READY);
          if restarting {
            FinishService();
          } else {
            pc, polls := Poll, 0;
          }
        case Poll =>
          PollStatus(status);
        case LoadShift =>
          access := WriteShift(FwValue(fw, nextReadAddr + 1));
          pc := LoadStatus;
        case LoadStatus =>
          access := WriteStatus(STATUS_READY);
          pc := Advance;
        case Advance =>
          nextReadAddr := nextReadAddr + 1;
          FinishService();
      }
    }

    method FinishService()
      modifies `pc, `polls, `restarting, `outcome
      ensures Variables() == Serviced(old(Variables()))
    {
      pc, polls, restarting := Poll, 0, false;
      if outcome == Loading && nextReadAddr == 0 {
        outcome := Booted;
      }
    }

    method PollStatus(status: nat)
      requires pc == Poll
      modifies this
      ensures Variables() == NextFirmware(fw, old(Variables()), status)
    {
      if outcome == Loading && polls >= WAIT_PERIOD {
        outcome := TimedOut;
        return;
      }
      if outcome == Loading {
        polls := polls + 1;
      }
      if status == STATUS_EMPTY {
        if nextReadAddr < |fw| - 1 {
          pc := LoadShift;
        } else {
          pc, nextReadAddr, restarting := InitAddr, 0, true;
        }
      }
    }
  }
}
