/** A bus master that reads one byte from the clock-stretching slave, whatever state it finds the slave in.

    It serves to build runs: in every cycle `Move` chooses the next levels of the bus from the slave's state, and `Rank`
    bounds the cycles until the byte in the shift register has left. */
module I2cMaster {
  import opened Types
  import opened I2cShiftReg

  /** No write addressed to the slave is under way, up to the bit being clocked in. */
  predicate NoWriteUnderWay(s: State) {
    && (AddressMatch(s) && NextFsm(s).AckAddress0? ==> s.rx.din[7])
    && (NextFsm(s).RcvAddress? && Rising(s) && s.rx.counter == 7 && s.rx.din[1..] == s.csr.slaveAddr ==> s.line.sda)
  }

  /** The slave's address and the read bit. */
  function Target(s: State): Byte {
    s.csr.slaveAddr + [true]
  }

  /** Bits counted, with one being clocked in. */
  function Counted(s: State): nat {
    if Rising(s) then s.rx.counter + 1 else s.rx.counter
  }

  /** The address bits received since the start condition are those of a read from the slave. */
  predicate OnTarget(s: State) {
    && s.fsm.RcvAddress? && s.rx.counter < 8
    && s.rx.din[8 - s.rx.counter..] == Target(s)[..s.rx.counter]
    && (Rising(s) ==> s.line.sda == Target(s)[s.rx.counter])
  }

  datatype Levels = Levels(scl: bool, sda: bool)

  /** Towards a start condition: SDA high with SCL high, then low. */
  function MoveToStart(s: State): Levels {
    Levels(true, !(s.line.scl && s.line.sda))
  }

  /** The address bits: SDA changes only while SCL is low. */
  function MoveInAddress(s: State): Levels {
    var n := Counted(s);
    var bit := if n < 8 then Target(s)[n] else true;
    if s.line.scl then Levels(false, bit) else Levels(s.line.sda == bit, bit)
  }

  function Move(s: State): Levels {
    if s.csr.addrWritten || StartCondition(s) then Levels(false, true)
    else match s.fsm
      case WaitStart => MoveToStart(s)
      case RcvAddress =>
        if AddressMatch(s) then Levels(false, true) else if OnTarget(s) then MoveInAddress(s) else MoveToStart(s)
      case AckAddress1 | AckRead0 => Levels(!s.line.scl, true)
      case AckRead1 => Levels(!s.line.scl && !Falling(s), true)
      case DoRead => Levels(!s.line.scl, true)
      case _ => Levels(false, true)
  }

  /** Where a start condition is to be made: from SCL and SDA high, from both low or falling, from SDA low alone. */
  function StartRank(s: State): nat {
    if !s.line.scl then 1 else if s.line.sda then 0 else 2
  }

  function Rank(s: State): nat
    requires WellFormed(s)
  {
    if s.csr.addrWritten then 1000
    else if StartCondition(s) then (if Rising(s) then 990 else 900)
    else match s.fsm
      case WaitStart => 940 + StartRank(s)
      case RcvAddress =>
        if AddressMatch(s) then 90
        else if OnTarget(s) then
          100 + 10 * (8 - Counted(s)) + (if s.line.scl then 3 else if s.line.sda == Target(s)[s.rx.counter] then 1 else 2)
        else if s.rx.counter == 8 then 950 else 960 + StartRank(s)
      case AckAddress0 => if s.line.scl then 86 else 85
      case AckAddress1 => if s.line.scl then 80 else 81
      case AckAddress2 => if s.line.scl then 76 else 75
      case Pause => 70
      case DoRead => 10 + 2 * (8 - (if Counted(s) <= 8 then Counted(s) else 8)) + (if s.line.scl then 1 else 0)
      case AckRead0 => if !s.line.scl then 983 else if Rising(s) then 982 else 984
      case AckRead1 => if Falling(s) then 72 else if s.line.scl then 73 else 74
      case _ => 0
  }

  function MoveInput(s: State): Input {
    Input(Move(s).scl, Move(s).sda, NoAccess)
  }

  /** A slave with a byte to send, in the middle of anything but a write. */
  ghost predicate Armed(t: Trace) {
    Inv(t) && t.state.csr.status == STATUS_READY && NoWriteUnderWay(t.state)
  }

  /** The move honours the bus rules, keeps the byte, and brings its end nearer. */
  ghost predicate Helps(s: State)
    requires WellFormed(s)
  {
    var i := MoveInput(s);
    var n := Next(s, i);
    && BusHonours(s, i) && NoWriteUnderWay(n) && Rank(n) < Rank(s)
    && n.csr == s.csr.(addrWritten := false)
  }

  lemma HelpsToStart(t: Trace)
    requires Armed(t) && !ByteDone(t.state)
    requires t.state.csr.addrWritten || StartCondition(t.state) || t.state.fsm.WaitStart?
    ensures Helps(t.state)
  {
  }

  lemma HelpsRestart(t: Trace)
    requires Armed(t) && !t.state.csr.addrWritten && !StartCondition(t.state)
    requires t.state.fsm.RcvAddress? && !OnTarget(t.state)
    ensures Helps(t.state)
  {
    hide OnTarget, Target;
  }

  lemma OneBitMore(din: Byte, target: Byte, c: nat, b: bool)
    requires c < 8 && din[8 - c..] == target[..c] && b == target[c]
    ensures (din[1..] + [b])[8 - (c + 1)..] == target[..c + 1]
    ensures c == 7 ==> din[1..] + [b] == target
  {
    assert (din[1..] + [b])[8 - (c + 1)..] == din[8 - c..] + [b];
    assert target[..c + 1] == target[..c] + [target[c]];
    if c == 7 {
      assert (din[1..] + [b])[0..] == din[1..] + [b] && target[..8] == target;
    }
  }

  lemma HelpsAtHighClock(t: Trace)
    requires Armed(t) && !t.state.csr.addrWritten && !StartCondition(t.state)
    requires OnTarget(t.state) && t.state.line.scl && !Rising(t.state)
    ensures Helps(t.state)
  {
  }

  lemma AfterRise(t: Trace)
    requires Armed(t) && !t.state.csr.addrWritten && !StartCondition(t.state)
    requires OnTarget(t.state) && Rising(t.state)
    ensures var s, n := t.state, Next(t.state, MoveInput(t.state));
            && n.fsm.RcvAddress? && !n.line.scl && n.rx.counter == s.rx.counter + 1 <= 8
            && n.csr == s.csr.(addrWritten := false)
            && (if n.rx.counter == 8 then AddressMatch(n) && n.rx.din[7] else OnTarget(n))
  {
    var s := t.state;
    var n := Next(s, MoveInput(s));
    OneBitMore(s.rx.din, Target(s), s.rx.counter, s.line.sda);
    assert n.rx.din == s.rx.din[1..] + [s.line.sda] && Target(n) == Target(s);
    assert Target(n)[..7] == n.csr.slaveAddr;
  }

  lemma HelpsAtRise(t: Trace)
    requires Armed(t) && !t.state.csr.addrWritten && !StartCondition(t.state)
    requires OnTarget(t.state) && Rising(t.state)
    ensures Helps(t.state)
  {
    var s := t.state;
    AfterRise(t);
    assert !AddressMatch(s) && s.rx.counter < 8;
    hide Next, Inv, OnTarget, Target, AddressMatch;
    var n := Next(s, MoveInput(s));
    assert Rank(n) < Rank(s);
  }

  lemma HelpsAtLowClock(t: Trace)
    requires Armed(t) && !t.state.csr.addrWritten && !StartCondition(t.state)
    requires OnTarget(t.state) && !t.state.line.scl
    ensures Helps(t.state)
  {
  }

  lemma HelpsInTransfer(t: Trace)
    requires Armed(t) && !t.state.csr.addrWritten && !StartCondition(t.state)
    requires !ByteDone(t.state) && !t.state.fsm.WaitStart? && !t.state.fsm.RcvAddress?
    ensures Helps(t.state)
  {
  }

  lemma MoveHelps(t: Trace)
    requires Armed(t) && !ByteDone(t.state)
    ensures Helps(t.state)
  {
    hide Helps, Inv, NoWriteUnderWay, OnTarget;
    if t.state.csr.addrWritten || StartCondition(t.state) || t.state.fsm.WaitStart? {
      HelpsToStart(t);
    } else if !t.state.fsm.RcvAddress? {
      HelpsInTransfer(t);
    } else if !OnTarget(t.state) {
      HelpsRestart(t);
    } else if Rising(t.state) {
      HelpsAtRise(t);
    } else if t.state.line.scl {
      HelpsAtHighClock(t);
    } else {
      HelpsAtLowClock(t);
    }
  }

  lemma ArmedStays(t: Trace)
    requires Armed(t) && !ByteDone(t.state)
    ensures Helps(t.state) && Armed(Step(t, MoveInput(t.state)))
    ensures Step(t, MoveInput(t.state)).bytes == t.bytes
  {
    MoveHelps(t);
    StepKeepsInv(t, MoveInput(t.state));
  }

  /** The byte is gone, and SCL is low behind it. */
  lemma LastMove(t: Trace)
    requires Armed(t) && ByteDone(t.state)
    ensures var i := Input(false, true, NoAccess); var n := Step(t, i);
            && BusHonours(t.state, i) && Inv(n) && NoWriteUnderWay(n.state)
            && n.state.csr.status == STATUS_EMPTY && n.bytes == t.bytes + [t.state.csr.shiftReg]
  {
    StepKeepsInv(t, Input(false, true, NoAccess));
  }
}
