/** The two-bank ping-pong buffer in front of the JPEG encoder.

    Rows of eight 16-bit pixels enter on the sink and leave one pixel at a time on the source.  Two state machines share
    only the two bank-select flip-flops: the writer fills one bank while the reader drains the other.

    `State` holds the registers, `Next` is one clock edge, and `Buffer` is the same circuit with its registers updated in
    place.  The two stall signals and the data are free inputs of every edge, so the theorems hold for every stall
    pattern. */
module EncoderBuffer {

  type Pixel = bv16

  /** A 128-bit memory word, as its eight 16-bit lanes from the least significant one up. */
  datatype Row = Row(lane0: Pixel, lane1: Pixel, lane2: Pixel, lane3: Pixel,
                     lane4: Pixel, lane5: Pixel, lane6: Pixel, lane7: Pixel)
  {
    function Lane(k: nat): Pixel
      requires k < 8
    {
      match k
      case 0 => lane0
      case 1 => lane1
      case 2 => lane2
      case 3 => lane3
      case 4 => lane4
      case 5 => lane5
      case 6 => lane6
      case _ => lane7
    }
  }

  const ZERO_ROW := Row(0, 0, 0, 0, 0, 0, 0, 0)

  /** One transfer on the source endpoint. */
  datatype Beat = Beat(data: Pixel, last: bool)

  datatype WriteFsm = WriteIdle | Write
  datatype ReadFsm = ReadIdle | Read

  datatype WriteSide = WriteSide(fsm: WriteFsm, sel: bool, v: nat)
  datatype ReadSide = ReadSide(fsm: ReadFsm, sel: bool, v: nat, h: nat)
  datatype State = State(w: WriteSide, r: ReadSide, mem: seq<Row>)

  datatype Input = Input(valid: bool, data: Row, ready: bool)

  predicate WellFormed(s: State) {
    s.w.v < 8 && s.r.v < 8 && s.r.h < 8 && |s.mem| == 16
  }

  function Bank(sel: bool): nat {
    if sel then 8 else 0
  }

  predicate SinkReady(s: State) {
    s.w.fsm.Write?
  }

  predicate SourceValid(s: State) {
    s.r.fsm.Read?
  }

  predicate Stored(s: State, i: Input) {
    SinkReady(s) && i.valid
  }

  predicate Taken(s: State, i: Input) {
    SourceValid(s) && i.ready
  }

  predicate WriteSwap(s: State, i: Input) {
    Stored(s, i) && s.w.v == 7
  }

  predicate ReadSwap(s: State) {
    s.r.fsm.ReadIdle? && s.r.sel == s.w.sel
  }

  /** The source payload: lanes leave most significant first. */
  function SourceBeat(s: State): Beat
    requires WellFormed(s)
  {
    Beat(s.mem[Bank(s.r.sel) + s.r.v].Lane(7 - s.r.h), s.r.h == 7 && s.r.v == 7)
  }

  const RESET := State(WriteSide(WriteIdle, false, 0), ReadSide(ReadIdle, true, 0, 0), seq(16, _ => ZERO_ROW))

  /** Each side sees of the other only its bank select. */
  function NextWrite(w: WriteSide, readSel: bool, valid: bool): WriteSide {
    match w.fsm
    case WriteIdle => WriteSide(if w.sel != readSel then Write else WriteIdle, w.sel, 0)
    case Write =>
      if !valid then w
      else if w.v == 7 then w.(fsm := WriteIdle, sel := !w.sel)
      else w.(v := w.v + 1)
  }

  function NextRead(r: ReadSide, writeSel: bool, ready: bool): ReadSide {
    match r.fsm
    case ReadIdle =>
      if r.sel == writeSel then ReadSide(Read, !r.sel, 0, 0) else ReadSide(ReadIdle, r.sel, 0, 0)
    case Read =>
      if !ready then r
      else if r.h < 7 then r.(h := r.h + 1)
      else if r.v < 7 then r.(h := 0, v := r.v + 1)
      else r.(h := 0, fsm := ReadIdle)
  }

  /** One clock edge of both state machines and of the memory write port. */
  function Next(s: State, i: Input): (n: State)
    requires WellFormed(s)
    ensures WellFormed(n)
  {
    State(NextWrite(s.w, s.r.sel, i.valid), NextRead(s.r, s.w.sel, i.ready),
          if Stored(s, i) then s.mem[Bank(s.w.sel) + s.w.v := i.data] else s.mem)
  }

  /** The registers together with the history since reset: everything that crossed the two endpoints, and how often each
      bank select was toggled. */
  datatype Trace = Trace(state: State, accepted: seq<Row>, emitted: seq<Beat>, written: nat, started: nat)

  const START := Trace(RESET, [], [], 0, 0)

  function Step(t: Trace, i: Input): (n: Trace)
    requires WellFormed(t.state)
    ensures WellFormed(n.state)
  {
    Trace(
      Next(t.state, i),
      if Stored(t.state, i) then t.accepted + [i.data] else t.accepted,
      if Taken(t.state, i) then t.emitted + [SourceBeat(t.state)] else t.emitted,
      if WriteSwap(t.state, i) then t.written + 1 else t.written,
      if ReadSwap(t.state) then t.started + 1 else t.started)
  }

  function Run(t: Trace, inputs: seq<Input>): (n: Trace)
    requires WellFormed(t.state)
    ensures WellFormed(n.state)
    decreases |inputs|
  {
    if inputs == [] then t else Run(Step(t, inputs[0]), inputs[1..])
  }

  /** The specification: beat `k` of a stream of unpacked rows. */
  function Unpacked(rows: seq<Row>, k: nat): Beat
    requires k < 8 * |rows|
  {
    Beat(rows[k / 8].Lane(7 - k % 8), k % 64 == 63)
  }

  ghost predicate IsUnpackedPrefix(emitted: seq<Beat>, rows: seq<Row>) {
    && |emitted| <= 8 * |rows|
    && forall k :: 0 <= k < |emitted| ==> emitted[k] == Unpacked(rows, k)
  }

  /** Row `r` of block `b`, if accepted, sits in the bank of the block's parity. */
  ghost predicate RowHeld(mem: seq<Row>, accepted: seq<Row>, b: int, r: nat)
    requires |mem| == 16 && r < 8
  {
    0 <= 8 * b + r < |accepted| ==> mem[Bank(b % 2 == 1) + r] == accepted[8 * b + r]
  }

  ghost predicate BlockHeld(t: Trace, b: int)
    requires WellFormed(t.state)
  {
    forall r: nat :: r < 8 ==> RowHeld(t.state.mem, t.accepted, b, r)
  }

  /** The oldest block whose rows may still be needed. */
  function OldestBlock(t: Trace): int {
    if SourceValid(t.state) then t.started - 1 else t.started
  }

  /** Positions and bank selects follow from the history. */
  predicate InStep(t: Trace) {
    var s := t.state;
    && WellFormed(s)
    && |t.accepted| == 8 * t.written + (if SinkReady(s) then s.w.v else 0)
    && |t.emitted| == 64 * OldestBlock(t) + (if SourceValid(s) then 8 * s.r.v + s.r.h else 0)
    && (s.w.sel <==> t.written % 2 == 1)
    && (s.r.sel <==> t.started % 2 == 0)
    && t.started <= t.written <= t.started + 1
    && (SinkReady(s) ==> t.written == t.started)
  }

  ghost predicate Inv(t: Trace) {
    && InStep(t)
    && IsUnpackedPrefix(t.emitted, t.accepted)
    && BlockHeld(t, OldestBlock(t)) && BlockHeld(t, OldestBlock(t) + 1)
  }

  lemma StepKeepsInStep(t: Trace, i: Input)
    requires InStep(t)
    ensures InStep(Step(t, i))
    ensures OldestBlock(t) <= OldestBlock(Step(t, i)) <= OldestBlock(t) + 1
  {
  }

  lemma StoreKeepsBlock(t: Trace, i: Input, b: int)
    requires Inv(t) && BlockHeld(t, b)
    requires OldestBlock(t) <= b <= OldestBlock(t) + 1
    ensures BlockHeld(Step(t, i), b)
  {
    var n := Step(t, i);
    forall r: nat | r < 8
      ensures RowHeld(n.state.mem, n.accepted, b, r)
    {
      assert RowHeld(t.state.mem, t.accepted, b, r);
    }
  }

  /** The reader's three counters are the digits of the beat number. */
  lemma UnpackedAt(rows: seq<Row>, b: nat, v: nat, h: nat)
    requires v < 8 && h < 8 && 8 * b + v < |rows|
    ensures Unpacked(rows, 64 * b + 8 * v + h) == Beat(rows[8 * b + v].Lane(7 - h), h == 7 && v == 7)
  {
    var k := 64 * b + 8 * v + h;
    assert k / 8 == 8 * b + v && k % 8 == h && k % 64 == 8 * v + h;
  }

  lemma TakeIsNextBeat(t: Trace)
    requires Inv(t) && SourceValid(t.state)
    ensures |t.emitted| < 8 * |t.accepted|
    ensures SourceBeat(t.state) == Unpacked(t.accepted, |t.emitted|)
  {
    var r, b := t.state.r, t.started - 1;
    assert r.sel <==> b % 2 == 1;
    assert RowHeld(t.state.mem, t.accepted, b, r.v);
    assert t.state.mem[Bank(r.sel) + r.v] == t.accepted[8 * b + r.v];
    UnpackedAt(t.accepted, b, r.v, r.h);
  }

  lemma StepKeepsPrefix(t: Trace, i: Input)
    requires Inv(t)
    ensures var n := Step(t, i); IsUnpackedPrefix(n.emitted, n.accepted)
  {
    if Taken(t.state, i) {
      TakeIsNextBeat(t);
    }
    var n := Step(t, i);
    assert t.accepted <= n.accepted;
    forall k | 0 <= k < |n.emitted|
      ensures n.emitted[k] == Unpacked(n.accepted, k)
    {
      if k < |t.emitted| {
        assert n.emitted[k] == t.emitted[k] == Unpacked(t.accepted, k);
      } else {
        assert n.emitted[k] == SourceBeat(t.state) == Unpacked(t.accepted, k);
      }
    }
  }

  lemma StepKeepsHeld(t: Trace, i: Input)
    requires Inv(t)
    ensures var n := Step(t, i); BlockHeld(n, OldestBlock(n)) && BlockHeld(n, OldestBlock(n) + 1)
  {
    var n, o := Step(t, i), OldestBlock(t);
    StepKeepsInStep(t, i);
    StoreKeepsBlock(t, i, o);
    StoreKeepsBlock(t, i, o + 1);
    if OldestBlock(n) == o + 1 {
      assert |n.accepted| <= 8 * (o + 2);
    }
  }

  lemma StepKeepsInv(t: Trace, i: Input)
    requires Inv(t)
    ensures Inv(Step(t, i))
  {
    StepKeepsInStep(t, i);
    StepKeepsPrefix(t, i);
    StepKeepsHeld(t, i);
  }

  lemma {:induction false} RunKeepsInv(t: Trace, inputs: seq<Input>)
    requires Inv(t)
    ensures Inv(Run(t, inputs))
    decreases |inputs|
  {
    if inputs != [] {
      StepKeepsInv(t, inputs[0]);
      RunKeepsInv(Step(t, inputs[0]), inputs[1..]);
    }
  }

  /** Main result: from reset and under every stall pattern the buffer is a FIFO of at most sixteen rows that unpacks, and
      the writer never stores into the bank that is being read. */
  lemma BufferRefinesUnpackingFifo(inputs: seq<Input>)
    ensures var t := Run(START, inputs);
            && IsUnpackedPrefix(t.emitted, t.accepted)
            && |t.accepted| - |t.emitted| / 8 <= 16
            && (SinkReady(t.state) && SourceValid(t.state) ==> t.state.w.sel != t.state.r.sel)
  {
    RunKeepsInv(START, inputs);
  }

  /** The two machines never wait for each other: after a cycle in which the buffer neither accepts nor offers, the next
      cycle does one or the other. */
  lemma NeverStallsItself(inputs: seq<Input>, i: Input)
    ensures var s := Run(START, inputs).state;
            SinkReady(s) || SourceValid(s) || SinkReady(Next(s, i)) || SourceValid(Next(s, i))
  {
    RunKeepsInv(START, inputs);
  }

  /** Upper bound on the cycles until the first `blocks` blocks have left when the consumer is always ready: one per beat
      and one per bank swap. */
  function CyclesToDrain(t: Trace, blocks: nat): int {
    64 * blocks - |t.emitted| + (blocks - t.started)
  }

  lemma {:induction false} EmittedGrows(t: Trace, inputs: seq<Input>)
    requires WellFormed(t.state)
    ensures t.emitted <= Run(t, inputs).emitted
    decreases |inputs|
  {
    if inputs != [] {
      EmittedGrows(Step(t, inputs[0]), inputs[1..]);
    }
  }

  lemma {:induction false} DrainsIfConsumerReady(t: Trace, blocks: nat, inputs: seq<Input>)
    requires Inv(t) && blocks <= t.written
    requires forall k :: 0 <= k < |inputs| ==> inputs[k].ready
    requires |inputs| >= CyclesToDrain(t, blocks)
    ensures |Run(t, inputs).emitted| >= 64 * blocks
    decreases |inputs|
  {
    if blocks <= OldestBlock(t) {
      EmittedGrows(t, inputs);
    } else {
      StepKeepsInv(t, inputs[0]);
      DrainsIfConsumerReady(Step(t, inputs[0]), blocks, inputs[1..]);
    }
  }

  /** Every block complete at some moment has left 129 cycles later if the consumer is willing throughout. */
  lemma CompletedBlocksLeaveInTime(before: seq<Input>, after: seq<Input>)
    requires forall k :: 0 <= k < |after| ==> after[k].ready
    requires |after| >= 129
    ensures var t := Run(START, before);
            |Run(t, after).emitted| >= |t.accepted| / 8 * 64
  {
    RunKeepsInv(START, before);
    var t := Run(START, before);
    assert |t.accepted| / 8 == t.written;
    DrainsIfConsumerReady(t, t.written, after);
  }

  /** The circuit itself: registers and memory updated in place at every clock edge. */
  class Buffer {
    var writeFsm: WriteFsm
    var writeSel: bool
    var vWrite: nat
    var readFsm: ReadFsm
    var readSel: bool
    var vRead: nat
    var hRead: nat
    const mem: array<Row>

    ghost predicate Valid()
      reads this
    {
      mem.Length == 16 && vWrite < 8 && vRead < 8 && hRead < 8
    }

    ghost function Registers(): (s: State)
      requires Valid()
      reads this, mem
      ensures WellFormed(s)
    {
      State(WriteSide(writeFsm, writeSel, vWrite), ReadSide(readFsm, readSel, vRead, hRead), mem[..])
    }

    constructor ()
      ensures Valid() && fresh(mem)
      ensures Registers() == RESET
    {
      writeFsm, writeSel, vWrite := WriteIdle, false, 0;
      readFsm, readSel, vRead, hRead := ReadIdle, true, 0, 0;
      mem := new Row[16](_ => ZERO_ROW);
    }

    /** Both paths see the registers as they were before the edge. */
    method Clock(valid: bool, data: Row, ready: bool)
      returns (sinkReady: bool, sourceValid: bool, source: Beat)
      requires Valid()
      modifies this, mem
      ensures Valid()
      ensures Registers() == Next(old(Registers()), Input(valid, data, ready))
      ensures sinkReady == SinkReady(old(Registers())) && sourceValid == SourceValid(old(Registers()))
      ensures source == SourceBeat(old(Registers()))
    {
      sinkReady, sourceValid := writeFsm.Write?, readFsm.Read?;
      source := Beat(mem[Bank(readSel) + vRead].Lane(7 - hRead), hRead == 7 && vRead == 7);
      var writeSelNow := writeSel;
      ClockWritePath(valid, data);
      ClockReadPath(writeSelNow, ready);
    }

    method ClockWritePath(valid: bool, data: Row)
      requires Valid()
      modifies `writeFsm, `writeSel, `vWrite, mem
      ensures Valid()
      ensures Registers().w == NextWrite(old(Registers()).w, readSel, valid)
      ensures mem[..] == if old(writeFsm).Write? && valid
                         then old(mem[..])[Bank(old(writeSel)) + old(vWrite) := data] else old(mem[..])
    {
      match writeFsm {
        case WriteIdle =>
          vWrite := 0;
          if writeSel != readSel {
            writeFsm := Write;
          }
        case Write =>
          if valid {
            mem[Bank(writeSel) + vWrite] := data;
            if vWrite == 7 {
              writeSel := !writeSel;
              writeFsm := WriteIdle;
            } else {
              vWrite := vWrite + 1;
            }
          }
      }
    }

    method ClockReadPath(writeSelNow: bool, ready: bool)
      requires Valid()
      modifies `readFsm, `readSel, `vRead, `hRead
      ensures Valid()
      ensures Registers().r == NextRead(old(Registers()).r, writeSelNow, ready)
    {
      match readFsm {
        case ReadIdle =>
          hRead, vRead := 0, 0;
          if readSel == writeSelNow {
            readSel := !readSel;
            readFsm := Read;
          }
        case Read =>
          if ready {
            if hRead == 7 {
              hRead := 0;
              if vRead == 7 {
                readFsm := ReadIdle;
              } else {
                vRead := vRead + 1;
              }
            } else {
              hRead := hRead + 1;
            }
          }
      }
    }
  }
}
