/** Exactly when the firmware loader delivers the image in order, for every state in which the slave can be found.

    `Fx2Loader.Delivery` starts from an empty shift register.  After an earlier boot the register is armed with byte 0
    again, so a reboot starts from a full one, and the bus may read that byte before the loader has replaced it. */
module Fx2Reboot {
  import DivMod
  import opened Types
  import opened I2cShiftReg
  import opened I2cMaster
  import opened Fx2Loader

  // ---------- runs ----------

  lemma {:induction false} RunConcat(fw: Image, y: System, a: seq<Event>, b: seq<Event>)
    requires WellFormed(y.hw.state) && BusHonoursRun(fw, y, a) && BusHonoursRun(fw, Run(fw, y, a), b)
    ensures BusHonoursRun(fw, y, a + b) && Run(fw, y, a + b) == Run(fw, Run(fw, y, a), b)
    decreases |a|
  {
    hide StepSystem, BusHonours, WellFormed;
    if a == [] {
      assert a + b == b;
    } else {
      RunConcat(fw, StepSystem(fw, y, a[0]), a[1..], b);
      assert (a + b)[0] == a[0] && (a + b)[1..] == a[1..] + b;
    }
  }

  /** What has left before does not matter for what follows. */
  function With(y: System, before: seq<seq<bool>>): System {
    y.(hw := y.hw.(bytes := before + y.hw.bytes))
  }

  lemma {:induction false} EarlierBytes(fw: Image, y: System, before: seq<seq<bool>>, events: seq<Event>)
    requires WellFormed(y.hw.state) && BusHonoursRun(fw, y, events)
    ensures BusHonoursRun(fw, With(y, before), events)
    ensures Run(fw, With(y, before), events) == With(Run(fw, y, events), before)
    decreases |events|
  {
    if events != [] {
      EarlierStep(fw, y, before, events[0]);
      EarlierBytes(fw, StepSystem(fw, y, events[0]), before, events[1..]);
    }
  }

  lemma EarlierStep(fw: Image, y: System, before: seq<seq<bool>>, e: Event)
    requires WellFormed(y.hw.state)
    ensures StepSystem(fw, With(y, before), e) == With(StepSystem(fw, y, e), before)
  {
    hide Next, NextFirmware;
    var s := y.hw.state;
    if ByteDone(s) {
      assert (before + y.hw.bytes) + [y.hw.bits] == before + (y.hw.bytes + [y.hw.bits]);
    }
  }

  // ---------- the bus can always read on ----------

  /** Bus and slave alone: the byte in the register leaves. */
  lemma {:induction false} ByteCanBeRead(fw: Image, y: System) returns (events: seq<Event>)
    requires Armed(y.hw)
    ensures BusHonoursRun(fw, y, events)
    ensures var n := Run(fw, y, events);
            && n.cpu == y.cpu && n.hw.bytes == y.hw.bytes + [y.hw.state.csr.shiftReg]
            && Inv(n.hw) && n.hw.state.csr.status == STATUS_EMPTY && NoWriteUnderWay(n.hw.state)
    decreases Rank(y.hw.state)
  {
    assert WellFormed(y.hw.state);
    hide Inv, NoWriteUnderWay, Rank, Move, NextFirmware, BusHonours, Next, WellFormed;
    if ByteDone(y.hw.state) {
      LastMove(y.hw);
      events := [Event(false, true, false)];
      RunOne(fw, y, events[0]);
    } else {
      ArmedStays(y.hw);
      var e := Event(Move(y.hw.state).scl, Move(y.hw.state).sda, false);
      var n := StepSystem(fw, y, e);
      var rest := ByteCanBeRead(fw, n);
      events := [e] + rest;
      assert events[1..] == rest;
    }
  }

  lemma RunOne(fw: Image, y: System, e: Event)
    requires WellFormed(y.hw.state) && BusHonours(y.hw.state, HardwareInput(fw, y, e))
    ensures BusHonoursRun(fw, y, [e]) && Run(fw, y, [e]) == StepSystem(fw, y, e)
  {
    assert [e][1..] == [];
    assert Run(fw, StepSystem(fw, y, e), []) == StepSystem(fw, y, e);
  }

  /** Processor steps until the register is armed again. */
  function StepsToArm(f: Firmware): nat {
    match f.pc
    case InitAddr => 3
    case InitShift => 2
    case InitStatus => 1
    case Poll => if GivesUp(f) then 5 else 4
    case LoadShift => 2
    case LoadStatus => 1
    case Advance => 6
  }

  /** With SCL low the processor comes one step nearer to arming the register. */
  lemma ProcessorStep(fw: Image, y: System)
    requires SystemInv(fw, y) && NoWriteUnderWay(y.hw.state) && y.hw.state.csr.status == STATUS_EMPTY
    ensures var e := Event(false, true, true);
            && BusHonours(y.hw.state, HardwareInput(fw, y, e))
            && var n := StepSystem(fw, y, e);
               && SystemInv(fw, n) && NoWriteUnderWay(n.hw.state) && n.hw.bytes == y.hw.bytes
               && if y.cpu.pc in {InitStatus, LoadStatus} then n.hw.state.csr.status == STATUS_READY
                  else n.hw.state.csr.status == STATUS_EMPTY && StepsToArm(n.cpu) < StepsToArm(y.cpu)
  {
    StepKeepsSystemInv(fw, y, Event(false, true, true));
  }

  /** The processor arms an empty register. */
  lemma {:induction false} RegisterCanBeArmed(fw: Image, y: System) returns (events: seq<Event>)
    requires SystemInv(fw, y) && NoWriteUnderWay(y.hw.state) && y.hw.state.csr.status == STATUS_EMPTY
    ensures BusHonoursRun(fw, y, events)
    ensures var n := Run(fw, y, events);
            && SystemInv(fw, n) && NoWriteUnderWay(n.hw.state) && n.hw.bytes == y.hw.bytes
            && n.hw.state.csr.status == STATUS_READY
    decreases StepsToArm(y.cpu)
  {
    assert WellFormed(y.hw.state);
    hide SystemInv, NoWriteUnderWay, BusHonours, Next, NextFirmware, WellFormed, StepsToArm;
    var e := Event(false, true, true);
    ProcessorStep(fw, y);
    var n := StepSystem(fw, y, e);
    if y.cpu.pc in {InitStatus, LoadStatus} {
      events := [e];
      RunOne(fw, y, e);
    } else {
      var rest := RegisterCanBeArmed(fw, n);
      events := [e] + rest;
      assert events[1..] == rest;
    }
  }

  lemma StatusIsReadyOrEmpty(fw: Image, y: System)
    requires SystemInv(fw, y)
    ensures y.hw.state.csr.status in {STATUS_READY, STATUS_EMPTY}
  {
  }

  /** The two never wait for each other for ever: any number of further bytes can be read. */
  lemma {:induction false} BytesCanBeRead(fw: Image, y: System, n: nat) returns (events: seq<Event>)
    requires SystemInv(fw, y) && NoWriteUnderWay(y.hw.state)
    ensures BusHonoursRun(fw, y, events) && |Run(fw, y, events).hw.bytes| >= |y.hw.bytes| + n
    ensures SystemInv(fw, Run(fw, y, events)) && NoWriteUnderWay(Run(fw, y, events).hw.state)
    decreases n
  {
    hide SystemInv, NoWriteUnderWay, Run, BusHonoursRun;
    if n == 0 {
      events := [];
      NoEvents(fw, y);
    } else {
      SystemIsWellFormed(fw, y);
      var first := BytesCanBeRead(fw, y, n - 1);
      var z := Run(fw, y, first);
      var second := OneByteCanBeRead(fw, z);
      events := first + second;
      RunConcat(fw, y, first, second);
    }
  }

  lemma NoEvents(fw: Image, y: System)
    requires SystemInv(fw, y)
    ensures WellFormed(y.hw.state) && BusHonoursRun(fw, y, []) && Run(fw, y, []) == y
  {
  }

  lemma SystemIsWellFormed(fw: Image, y: System)
    requires SystemInv(fw, y)
    ensures WellFormed(y.hw.state)
  {
  }

  lemma OneByteCanBeRead(fw: Image, y: System) returns (events: seq<Event>)
    requires SystemInv(fw, y) && NoWriteUnderWay(y.hw.state)
    ensures BusHonoursRun(fw, y, events) && |Run(fw, y, events).hw.bytes| == |y.hw.bytes| + 1
    ensures SystemInv(fw, Run(fw, y, events)) && NoWriteUnderWay(Run(fw, y, events).hw.state)
  {
    SystemIsWellFormed(fw, y);
    StatusIsReadyOrEmpty(fw, y);
    var first: seq<Event> := [];
    if y.hw.state.csr.status == STATUS_EMPTY {
      first := RegisterCanBeArmed(fw, y);
    } else {
      NoEvents(fw, y);
    }
    var z := Run(fw, y, first);
    ArmedSystem(fw, z);
    hide SystemInv, NoWriteUnderWay, Run, BusHonoursRun;
    var second := ByteCanBeRead(fw, z);
    events := first + second;
    RunConcat(fw, y, first, second);
    RunKeepsSystemInv(fw, z, second);
  }

  lemma ArmedSystem(fw: Image, y: System)
    requires SystemInv(fw, y) && NoWriteUnderWay(y.hw.state) && y.hw.state.csr.status == STATUS_READY
    ensures Armed(y.hw)
  {
  }

  // ---------- images of one byte ----------

  ghost predicate Uniform(fw: Image, byte: seq<bool>) {
    forall k :: 0 <= k < |fw| ==> fw[k] == byte
  }

  /** Old and new bytes are the same, so it does not matter when the register is written. */
  ghost predicate UniformInv(fw: Image, y: System) {
    var f := y.cpu;
    && Inv(y.hw) && Uniform(fw, y.hw.state.csr.shiftReg)
    && (forall k :: 0 <= k < |y.hw.bytes| ==> y.hw.bytes[k] == y.hw.state.csr.shiftReg)
    && f.nextReadAddr < |fw| && (f.pc in {LoadShift, LoadStatus, Advance} ==> f.nextReadAddr + 1 < |fw|)
  }

  lemma UniformStep(fw: Image, y: System, e: Event)
    requires UniformInv(fw, y) && BusHonours(y.hw.state, HardwareInput(fw, y, e))
    ensures UniformInv(fw, StepSystem(fw, y, e))
  {
    var i := HardwareInput(fw, y, e);
    assert fw[0] == y.hw.state.csr.shiftReg;
    StepKeepsInv(y.hw, i);
    assert Step(y.hw, i).state.csr.shiftReg == y.hw.state.csr.shiftReg;
  }

  lemma {:induction false} UniformRun(fw: Image, y: System, events: seq<Event>)
    requires UniformInv(fw, y) && BusHonoursRun(fw, y, events)
    ensures UniformInv(fw, Run(fw, y, events))
    decreases |events|
  {
    assert WellFormed(y.hw.state);
    hide UniformInv, StepSystem, BusHonours, WellFormed;
    if events != [] {
      UniformStep(fw, y, events[0]);
      UniformRun(fw, StepSystem(fw, y, events[0]), events[1..]);
    }
  }

  // ---------- the exact condition ----------

  /** Whatever the bus does within its rules, and however the processor's steps fall, the image is read in order. */
  ghost predicate AlwaysInOrder(fw: Image, hw: Trace)
    requires WellFormed(hw.state)
  {
    forall events :: BusHonoursRun(fw, System(hw, FIRST), events) ==> InOrder(fw, Run(fw, System(hw, FIRST), events).hw.bytes)
  }

  /** A slave found in any state of read transactions, before the first byte counts. */
  ghost predicate Found(hw: Trace) {
    && Inv(hw) && NoWriteUnderWay(hw.state) && hw.bytes == []
    && hw.state.csr.status in {STATUS_READY, STATUS_EMPTY}
  }

  lemma {:induction false} FirstChange(fw: Image, k: nat) returns (j: nat)
    requires k < |fw| && fw[k] != fw[0]
    ensures 0 < j < |fw| && fw[j] != fw[j - 1]
  {
    if fw[k] != fw[k - 1] {
      j := k;
    } else {
      j := FirstChange(fw, k - 1);
    }
  }

  lemma UniformIsInOrder(fw: Image, hw: Trace)
    requires Found(hw) && Uniform(fw, hw.state.csr.shiftReg)
    ensures AlwaysInOrder(fw, hw)
  {
    forall events | BusHonoursRun(fw, System(hw, FIRST), events)
      ensures InOrder(fw, Run(fw, System(hw, FIRST), events).hw.bytes)
    {
      UniformRun(fw, System(hw, FIRST), events);
    }
  }

  /** A bad run: the old byte is read before the loader acts, and then, if it happened to be byte 0, so many more that the
      image is seen one byte late. */
  lemma OldByteIsRead(fw: Image, hw: Trace) returns (events: seq<Event>)
    requires Found(hw) && hw.state.csr.status == STATUS_READY && !Uniform(fw, hw.state.csr.shiftReg)
    ensures BusHonoursRun(fw, System(hw, FIRST), events)
    ensures !InOrder(fw, Run(fw, System(hw, FIRST), events).hw.bytes)
  {
    var y, old0 := System(hw, FIRST), hw.state.csr.shiftReg;
    var first := ByteCanBeRead(fw, y);
    var z := Run(fw, y, first);
    assert z.hw.bytes == [old0];
    if old0 != fw[0] {
      events := first;
      NotFirst(fw, z.hw.bytes);
    } else {
      var k :| 0 <= k < |fw| && fw[k] != old0;
      var j := FirstChange(fw, k);
      var fresh0 := z.(hw := z.hw.(bytes := []));
      FreshStart(fw, fresh0);
      var second := BytesCanBeRead(fw, fresh0, j);
      EarlierBytes(fw, fresh0, [old0], second);
      assert With(fresh0, [old0]) == z;
      events := first + second;
      RunConcat(fw, y, first, second);
      OneLate(fw, [old0], Run(fw, fresh0, second).hw.bytes, j);
    }
  }

  lemma FreshStart(fw: Image, y: System)
    requires Inv(y.hw) && y.hw.state.csr.status == STATUS_EMPTY && y.hw.bytes == [] && y.cpu == FIRST
    ensures SystemInv(fw, y)
  {
    DivMod.Unique(0, |fw|, 0, 0);
  }

  lemma NotFirst(fw: Image, bytes: seq<seq<bool>>)
    requires bytes != [] && bytes[0] != fw[0]
    ensures !InOrder(fw, bytes)
  {
    DivMod.Unique(0, |fw|, 0, 0);
    assert bytes[0] != fw[0 % |fw|];
  }

  lemma OneLate(fw: Image, before: seq<seq<bool>>, bytes: seq<seq<bool>>, j: nat)
    requires |before| == 1 && 0 < j < |fw| && fw[j] != fw[j - 1] && |bytes| >= j && InOrder(fw, bytes)
    ensures !InOrder(fw, before + bytes)
  {
    DivMod.Unique(j, |fw|, 0, j);
    DivMod.Unique(j - 1, |fw|, 0, j - 1);
    assert (before + bytes)[j] == bytes[j - 1] == fw[(j - 1) % |fw|];
    assert (before + bytes)[j] != fw[j % |fw|];
  }

  /** Main result: delivery in order is certain if and only if the loader finds the register empty, or the image consists
      of the byte found there and nothing else. */
  lemma InOrderExactlyWhenEmpty(fw: Image, hw: Trace)
    requires Found(hw)
    ensures AlwaysInOrder(fw, hw) <==> hw.state.csr.status == STATUS_EMPTY || Uniform(fw, hw.state.csr.shiftReg)
  {
    if hw.state.csr.status == STATUS_EMPTY {
      forall events | BusHonoursRun(fw, System(hw, FIRST), events)
        ensures InOrder(fw, Run(fw, System(hw, FIRST), events).hw.bytes)
      {
        Delivery(fw, hw, events);
      }
    } else if Uniform(fw, hw.state.csr.shiftReg) {
      UniformIsInOrder(fw, hw);
    } else {
      var events := OldByteIsRead(fw, hw);
    }
  }

  // ---------- reboots ----------

  /** The first initialisation is under way. */
  predicate Initialising(f: Firmware) {
    f.pc in {InitAddr, InitShift, InitStatus} && !f.restarting && f.outcome == Loading
  }

  /** Until the loader has armed the register no byte leaves the slave, and none is on its way out when the loader replaces
      the register. */
  ghost predicate QuietRun(fw: Image, y: System, events: seq<Event>)
    requires WellFormed(y.hw.state)
    decreases |events|
  {
    events == [] || (Quiet(y, events[0].cpuSteps) && QuietRun(fw, StepSystem(fw, y, events[0]), events[1..]))
  }

  predicate Quiet(y: System, cpuSteps: bool) {
    Initialising(y.cpu) ==>
      !ByteDone(y.hw.state) && (cpuSteps && y.cpu.pc == InitShift ==> !NextFsm(y.hw.state).DoRead?)
  }

  /** Nothing has left yet, and what a byte on its way shows so far is from the register as it is. */
  ghost predicate QuietInv(fw: Image, y: System) {
    && Initialising(y.cpu) && y.cpu.nextReadAddr == 0 && y.hw.bytes == []
    && Inv(y.hw) && y.hw.state.csr.status == STATUS_READY
    && (y.cpu.pc == InitStatus ==> y.hw.state.csr.shiftReg == fw[0])
  }

  /** Between bytes the register may be replaced. */
  lemma ReplaceShift(t: Trace, i: Input)
    requires Inv(t) && BusHonours(t.state, i) && i.access.WriteShift? && !NextFsm(t.state).DoRead?
    ensures Inv(Step(t, i))
  {
    StepKeepsInv(t, i.(access := NoAccess));
  }

  lemma QuietStep(fw: Image, y: System, e: Event)
    requires QuietInv(fw, y) && BusHonours(y.hw.state, HardwareInput(fw, y, e)) && Quiet(y, e.cpuSteps)
    ensures var n := StepSystem(fw, y, e); QuietInv(fw, n) || SystemInv(fw, n)
  {
    DivMod.Unique(0, |fw|, 0, 0);
    var i := HardwareInput(fw, y, e);
    if i.access.WriteShift? {
      ReplaceShift(y.hw, i);
    } else {
      StepKeepsInv(y.hw, i);
    }
    hide Inv;
    assert !y.hw.state.fsm.AckWrite2? by { ReadsOnly(y.hw); }
  }

  lemma ReadsOnly(t: Trace)
    requires Inv(t)
    ensures t.state.fsm !in {DoWrite, AckWrite0, AckWrite1, AckWrite2}
  {
  }

  lemma {:induction false} QuietRunDelivers(fw: Image, y: System, events: seq<Event>)
    requires QuietInv(fw, y) && BusHonoursRun(fw, y, events) && QuietRun(fw, y, events)
    ensures QuietInv(fw, Run(fw, y, events)) || SystemInv(fw, Run(fw, y, events))
    decreases |events|
  {
    if events != [] {
      QuietStep(fw, y, events[0]);
      hide QuietInv, SystemInv, BusHonours, Quiet;
      var n := StepSystem(fw, y, events[0]);
      if QuietInv(fw, n) {
        QuietRunDelivers(fw, n, events[1..]);
      } else {
        RunKeepsSystemInv(fw, n, events[1..]);
      }
    }
  }

  /** Main result for reboots: from an armed register, in whatever state of a read transaction the slave is, the image is
      still delivered whole and in order if no byte gets in between until the loader has armed the register itself. */
  lemma RebootDelivery(fw: Image, hw: Trace, events: seq<Event>)
    requires Found(hw) && hw.state.csr.status == STATUS_READY
    requires BusHonoursRun(fw, System(hw, FIRST), events) && QuietRun(fw, System(hw, FIRST), events)
    ensures var y := Run(fw, System(hw, FIRST), events);
            && InOrder(fw, y.hw.bytes)
            && (y.cpu.outcome == Booted ==> |y.hw.bytes| >= |fw| && y.hw.bytes[..|fw|] == fw)
  {
    QuietRunDelivers(fw, System(hw, FIRST), events);
    var y := Run(fw, System(hw, FIRST), events);
    if SystemInv(fw, y) && |y.hw.bytes| >= |fw| {
      WholeImage(fw, y.hw.bytes);
    }
  }

  /** No start condition until the register is armed. */
  ghost predicate NoStart(fw: Image, y: System, events: seq<Event>)
    requires WellFormed(y.hw.state)
    decreases |events|
  {
    events == [] ||
    ((Initialising(y.cpu) ==> !StartCondition(y.hw.state)) && NoStart(fw, StepSystem(fw, y, events[0]), events[1..]))
  }

  /** For instance, no byte gets in between on a bus that is idle and stays so. */
  lemma {:induction false} IdleBusIsQuiet(fw: Image, y: System, events: seq<Event>)
    requires WellFormed(y.hw.state) && (Initialising(y.cpu) ==> y.hw.state.fsm.WaitStart?) && NoStart(fw, y, events)
    ensures QuietRun(fw, y, events)
    decreases |events|
  {
    if events != [] {
      IdleBusIsQuiet(fw, StepSystem(fw, y, events[0]), events[1..]);
    }
  }

  lemma WholeImage(fw: Image, bytes: seq<seq<bool>>)
    requires InOrder(fw, bytes) && |bytes| >= |fw|
    ensures bytes[..|fw|] == fw
  {
    forall k | 0 <= k < |fw| ensures bytes[k] == fw[k] {
      DivMod.Unique(k, |fw|, 0, k);
    }
  }

  /** Why reboots find the register armed: the step that completes a boot arms it with byte 0 again. */
  lemma BootRearms(fw: Image, y: System, e: Event)
    requires SystemInv(fw, y) && BusHonours(y.hw.state, HardwareInput(fw, y, e))
    requires StepSystem(fw, y, e).cpu.outcome == Booted && y.cpu.outcome == Loading
    ensures var s := StepSystem(fw, y, e).hw.state; s.csr.status == STATUS_READY && s.csr.shiftReg == fw[0]
  {
  }
}
