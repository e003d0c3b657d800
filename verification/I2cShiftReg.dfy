/** The clock-stretching I2C slave through which the processor feeds firmware to the FX2.

    One `Next` is one edge of the system clock.  The sampled SCL and SDA lines are free inputs of every edge, and so is the
    access the processor makes to the three registers; a processor write wins over a hardware write at the same edge. */
module I2cShiftReg {
  import opened Types

  const STATUS_READY := 0
  const STATUS_FULL := 1
  const STATUS_EMPTY := 2

  datatype Fsm =
    | WaitStart | RcvAddress
    | AckAddress0 | AckAddress1 | AckAddress2
    | Pause
    | DoRead | AckRead0 | AckRead1
    | DoWrite | AckWrite0 | AckWrite1 | AckWrite2

  /** The sampled lines and their values one cycle earlier. */
  datatype Lines = Lines(scl: bool, sda: bool, sclR: bool, sdaR: bool)

  /** The bit counter, the last eight bits received and the direction of the transaction. */
  datatype Receiver = Receiver(counter: nat, din: Byte, isRead: bool)

  /** The bit on its way out, and whether it is driven. */
  datatype Driver = Driver(dataDrv: bool, dataBit: bool)

  /** A slave address, most significant bit first. */
  type Address = a: seq<bool> | |a| == 7 witness seq(7, _ => false)

  /** The registers shared with the processor; `addrWritten` is high in the cycle after a write of the address. */
  datatype Csr = Csr(shiftReg: Byte, status: nat, slaveAddr: Address, addrWritten: bool)

  datatype State = State(fsm: Fsm, line: Lines, rx: Receiver, tx: Driver, csr: Csr)

  datatype Access = NoAccess | WriteShift(byte: Byte) | WriteStatus(value: nat) | WriteAddr(addr: Address)

  /** The levels sampled at this edge, and the processor's access. */
  datatype Input = Input(scl: bool, sda: bool, access: Access)

  const RESET := State(
    WaitStart, Lines(false, false, false, false), Receiver(0, ZERO_BYTE, false), Driver(false, false),
    Csr(ZERO_BYTE, STATUS_EMPTY, seq(7, _ => false), false))

  predicate WellFormed(s: State) {
    s.rx.counter <= 8
  }

  predicate Rising(s: State) { s.line.scl && !s.line.sclR }

  predicate Falling(s: State) { !s.line.scl && s.line.sclR }

  predicate StartCondition(s: State) { s.line.scl && !s.line.sda && s.line.sdaR }

  predicate AddressMatch(s: State) {
    s.fsm.RcvAddress? && s.rx.counter == 8 && s.rx.din[..7] == s.csr.slaveAddr
  }

  predicate CounterReset(s: State) {
    match s.fsm
    case WaitStart | RcvAddress | DoRead | DoWrite => false
    case _ => true
  }

  /** The last bit's low phase: the byte has been shifted out. */
  predicate ByteDone(s: State) {
    s.fsm.DoRead? && !s.line.scl && s.rx.counter == 8
  }

  predicate LoadBit(s: State) {
    s.fsm.DoRead? && !s.line.scl && s.rx.counter != 8
  }

  /** The slave pulls SDA low. */
  predicate SdaDriven(s: State) {
    s.fsm in {AckAddress1, AckAddress2, AckWrite1, AckWrite2} || (s.tx.dataDrv && !s.tx.dataBit)
  }

  function NextFsm(s: State): Fsm {
    if s.csr.addrWritten then WaitStart
    else if StartCondition(s) then RcvAddress
    else match s.fsm
      case WaitStart => WaitStart
      case RcvAddress => if s.rx.counter != 8 then RcvAddress else if AddressMatch(s) then AckAddress0 else WaitStart
      case AckAddress0 => if s.line.scl then AckAddress0 else AckAddress1
      case AckAddress1 => if s.line.scl then AckAddress2 else AckAddress1
      case AckAddress2 => if s.line.scl then AckAddress2 else Pause
      case Pause =>
        if s.csr.status / 2 % 2 == 0 && s.rx.isRead then DoRead
        else if s.csr.status % 2 == 0 && !s.rx.isRead then DoWrite
        else Pause
      case DoRead => if ByteDone(s) then AckRead0 else DoRead
      case AckRead0 => if !Rising(s) then AckRead0 else if s.line.sda then WaitStart else AckRead1
      case AckRead1 => if Falling(s) then Pause else AckRead1
      case DoWrite => if s.rx.counter == 8 then AckWrite0 else DoWrite
      case AckWrite0 => if s.line.scl then AckWrite0 else AckWrite1
      case AckWrite1 => if s.line.scl then AckWrite2 else AckWrite1
      case AckWrite2 => if s.line.scl then AckWrite2 else Pause
  }

  function NextCounter(s: State): nat {
    if Rising(s) then (if s.rx.counter == 8 then 0 else s.rx.counter + 1)
    else if StartCondition(s) || CounterReset(s) then 0
    else s.rx.counter
  }

  function NextReceiver(s: State): Receiver {
    Receiver(NextCounter(s),
             if Rising(s) && s.rx.counter != 8 then s.rx.din[1..] + [s.line.sda] else s.rx.din,
             if AddressMatch(s) then s.rx.din[7] else s.rx.isRead)
  }

  function NextDriver(s: State): Driver
    requires WellFormed(s)
  {
    if LoadBit(s) then Driver(true, s.csr.shiftReg[s.rx.counter])
    else if s.fsm in {WaitStart, RcvAddress} || ByteDone(s) then Driver(false, s.tx.dataBit)
    else s.tx
  }

  /** The hardware's own writes. */
  function HardwareWrites(s: State): Csr {
    Csr(if s.fsm.DoWrite? && s.rx.counter == 8 then s.rx.din else s.csr.shiftReg,
        if ByteDone(s) then STATUS_EMPTY
        else if s.fsm.AckWrite2? && !s.line.scl then STATUS_FULL else s.csr.status,
        s.csr.slaveAddr, false)
  }

  function NextCsr(s: State, a: Access): Csr {
    match a
    case NoAccess => HardwareWrites(s)
    case WriteShift(byte) => HardwareWrites(s).(shiftReg := byte)
    case WriteStatus(value) => HardwareWrites(s).(status := value)
    case WriteAddr(addr) => HardwareWrites(s).(slaveAddr := addr, addrWritten := true)
  }

  function Next(s: State, i: Input): (n: State)
    requires WellFormed(s)
    ensures WellFormed(n)
  {
    State(NextFsm(s), Lines(i.scl, i.sda, s.line.scl, s.line.sda), NextReceiver(s), NextDriver(s), NextCsr(s, i.access))
  }

  // ---------- what the bus master sees ----------

  /** The registers, the bits clocked out of the byte in progress, and the bytes shifted out so far. */
  datatype Trace = Trace(state: State, bits: seq<bool>, bytes: seq<seq<bool>>)

  function Step(t: Trace, i: Input): (n: Trace)
    requires WellFormed(t.state)
    ensures WellFormed(n.state)
  {
    var s := t.state;
    Trace(
      Next(s, i),
      if !s.fsm.DoRead? then [] else if Rising(s) then t.bits + [!SdaDriven(s)] else t.bits,
      if ByteDone(s) then t.bytes + [t.bits] else t.bytes)
  }

  /** The bus side's part of the protocol: SCL stays low while the slave stretches it and in the cycle after, and the
      transactions addressed to the slave are reads. */
  predicate BusHonours(s: State, i: Input)
    requires WellFormed(s)
  {
    && (s.fsm.Pause? || Next(s, i).fsm.Pause? ==> !i.scl)
    && (AddressMatch(s) && NextFsm(s).AckAddress0? ==> s.rx.din[7])
  }

  /** States reachable by read transactions, with the byte in progress partly on the wire. */
  ghost predicate Inv(t: Trace) {
    var s := t.state;
    && WellFormed(s)
    && !(s.fsm in {DoWrite, AckWrite0, AckWrite1, AckWrite2})
    && (s.fsm in {AckAddress0, AckAddress1, AckAddress2, Pause, DoRead, AckRead0, AckRead1} ==> s.rx.isRead)
    && (s.fsm.Pause? ==> !s.line.scl && s.rx.counter == 0)
    && (s.fsm.DoRead? ==>
          && |t.bits| == s.rx.counter
          && t.bits == s.csr.shiftReg[..s.rx.counter]
          && (Rising(s) ==> s.rx.counter < 8 && s.tx.dataDrv && s.tx.dataBit == s.csr.shiftReg[s.rx.counter]))
    && (s.csr.status == STATUS_EMPTY ==> !s.fsm.DoRead?)
  }

  /** What the firmware may do: load another byte only while the register is empty, and only ever mark it ready. */
  predicate FairAccess(s: State, a: Access) {
    match a
    case NoAccess => true
    case WriteShift(byte) => s.csr.status == STATUS_EMPTY || byte == s.csr.shiftReg
    case WriteStatus(value) => value == STATUS_READY
    case WriteAddr(_) => true
  }

  lemma ReadBitsKept(t: Trace, i: Input)
    requires Inv(t) && BusHonours(t.state, i) && FairAccess(t.state, i.access)
    requires t.state.fsm.DoRead? && NextFsm(t.state).DoRead?
    ensures var n := Step(t, i);
            && |n.bits| == n.state.rx.counter && n.bits == n.state.csr.shiftReg[..n.state.rx.counter]
            && (Rising(n.state) ==> n.state.rx.counter < 8 && n.state.tx.dataDrv
                                    && n.state.tx.dataBit == n.state.csr.shiftReg[n.state.rx.counter])
  {
    var s := t.state;
    assert Next(s, i).csr.shiftReg == s.csr.shiftReg;
    if Rising(s) {
      assert s.csr.shiftReg[..s.rx.counter + 1] == s.csr.shiftReg[..s.rx.counter] + [s.csr.shiftReg[s.rx.counter]];
    }
  }

  /** Every edge keeps the invariant, whatever the bus and the firmware do within their rules.  A byte leaves the slave
      only whole, and leaving empties the register. */
  lemma StepKeepsInv(t: Trace, i: Input)
    requires Inv(t) && BusHonours(t.state, i) && FairAccess(t.state, i.access)
    ensures Inv(Step(t, i))
    ensures ByteDone(t.state) ==> t.bits == t.state.csr.shiftReg && t.state.csr.status != STATUS_EMPTY
  {
    if t.state.fsm.DoRead? && NextFsm(t.state).DoRead? {
      ReadBitsKept(t, i);
    }
  }

  /** The circuit itself: the state machine raises control wires, and at the edge the registers obey them. */
  class ShiftRegister {
    var fsm: Fsm
    var line: Lines
    var rx: Receiver
    var tx: Driver
    var csr: Csr

    ghost function Registers(): State
      reads this
    {
      State(fsm, line, rx, tx, csr)
    }

    ghost predicate Valid()
      reads this
    {
      WellFormed(Registers())
    }

    constructor ()
      ensures Valid() && Registers() == RESET
    {
      fsm, line, rx, tx := WaitStart, Lines(false, false, false, false), Receiver(0, ZERO_BYTE, false), Driver(false, false);
      csr := Csr(ZERO_BYTE, STATUS_EMPTY, seq(7, _ => false), false);
    }

    /** The state machine's next state and the control wires it raises. */
    method Decide() returns (next: Fsm, counterReset: bool, dataDrvEn: bool, dataDrvStop: bool)
      requires Valid()
      ensures next == NextFsm(Registers())
      ensures counterReset == CounterReset(Registers())
      ensures dataDrvEn == LoadBit(Registers())
      ensures dataDrvStop == (fsm in {WaitStart, RcvAddress} || ByteDone(Registers()))
    {
      var start := line.scl && !line.sda && line.sdaR;
      var sclRising, sclFalling := line.scl && !line.sclR, !line.scl && line.sclR;
      next, counterReset, dataDrvEn, dataDrvStop := fsm, false, false, false;
      match fsm {
        case WaitStart =>
          dataDrvStop := true;
        case RcvAddress =>
          dataDrvStop := true;
          if rx.counter == 8 {
            if rx.din[..7] == csr.slaveAddr {
              next := AckAddress0;
            } else {
              next := WaitStart;
            }
          }
        case AckAddress0 =>
          counterReset := true;
          if !line.scl { next := AckAddress1; }
        case AckAddress1 =>
          counterReset := true;
          if line.scl { next := AckAddress2; }
        case AckAddress2 =>
          counterReset := true;
          if !line.scl { next := Pause; }
        case Pause =>
          counterReset := true;
          if csr.status / 2 % 2 == 0 && rx.isRead {
            next := DoRead;
          } else if csr.status % 2 == 0 && !rx.isRead {
            next := DoWrite;
          }
        case DoRead =>
          if !line.scl {
            if rx.counter == 8 {
              dataDrvStop := true;
              next := AckRead0;
            } else {
              dataDrvEn := true;
            }
          }
        case AckRead0 =>
          counterReset := true;
          if sclRising { next := if line.sda then WaitStart else AckRead1; }
        case AckRead1 =>
          counterReset := true;
          if sclFalling { next := Pause; }
        case DoWrite =>
          if rx.counter == 8 { next := AckWrite0; }
        case AckWrite0 =>
          counterReset := true;
          if !line.scl { next := AckWrite1; }
        case AckWrite1 =>
          counterReset := true;
          if line.scl { next := AckWrite2; }
        case AckWrite2 =>
          counterReset := true;
          if !line.scl { next := Pause; }
      }
      if start { next := RcvAddress; }
      if csr.addrWritten { next := WaitStart; }
    }

    method Clock(newScl: bool, newSda: bool, access: Access)
      requires Valid()
      modifies this
      ensures Valid()
      ensures Registers() == Next(old(Registers()), Input(newScl, newSda, access))
    {
      var next, counterReset, dataDrvEn, dataDrvStop := Decide();
      var start := line.scl && !line.sda && line.sdaR;
      var newRx := Receive(start || counterReset);
      var newCsr := WriteRegisters(access);
      if dataDrvEn {
        tx := Driver(true, csr.shiftReg[rx.counter]);
      } else if dataDrvStop {
        tx := tx.(dataDrv := false);
      }
      fsm, rx, csr := next, newRx, newCsr;
      line := Lines(newScl, newSda, line.scl, line.sda);
    }

    /** Counting a rising edge wins over a reset. */
    method Receive(reset: bool) returns (newRx: Receiver)
      requires Valid() && reset == (StartCondition(Registers()) || CounterReset(Registers()))
      ensures newRx == NextReceiver(Registers())
    {
      newRx := rx;
      if fsm == RcvAddress && rx.counter == 8 && rx.din[..7] == csr.slaveAddr {
        newRx := newRx.(isRead := rx.din[7]);
      }
      if reset {
        newRx := newRx.(counter := 0);
      }
      if line.scl && !line.sclR {
        if rx.counter == 8 {
          newRx := newRx.(counter := 0);
        } else {
          newRx := newRx.(counter := rx.counter + 1, din := rx.din[1..] + [line.sda]);
        }
      }
    }

    /** A hardware write to a register loses against a processor write at the same edge. */
    method WriteRegisters(access: Access) returns (newCsr: Csr)
      requires Valid()
      ensures newCsr == NextCsr(Registers(), access)
    {
      newCsr := csr.(addrWritten := false);
      if fsm == DoRead && !line.scl && rx.counter == 8 {
        newCsr := newCsr.(status := STATUS_EMPTY);
      }
      if fsm == AckWrite2 && !line.scl {
        newCsr := newCsr.(status := STATUS_FULL);
      }
      if fsm == DoWrite && rx.counter == 8 {
        newCsr := newCsr.(shiftReg := rx.din);
      }
      match access {
        case NoAccess =>
        case WriteShift(byte) => newCsr := newCsr.(shiftReg := byte);
        case WriteStatus(value) => newCsr := newCsr.(status := value);
        case WriteAddr(addr) => newCsr := newCsr.(slaveAddr := addr, addrWritten := true);
      }
    }
  }
}
