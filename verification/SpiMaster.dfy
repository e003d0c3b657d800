/** The SPI master that drives the display, cycle by cycle.

    A free-running divider offers a set and a clear point of the SPI clock; a transfer waits for a clear point, lets through
    as many clock pulses as the length register says, and sends the mosi register from its top.  Registers are sequences of
    bits, most significant first. */
module SpiMaster {
  import DivMod

  /** Register width, divider, clock phase, and the length register, which software leaves alone during a transfer. */
  datatype Config = Config(width: nat, div: nat, cpha: bool, length: nat)

  predicate GoodConfig(c: Config) {
    c.width > 0 && c.div >= 2 && c.length < 256
  }

  /** Dividers below 4 have their set point in the cycle that ends the transfer, with the chip still selected. */
  predicate WideEnough(c: Config) { c.div >= 4 }

  datatype Fsm = Idle | WaitClk | Shift | End

  /** Divider, SPI clock pin, count of periods, FSM, shift register and data pin. */
  datatype State = State(i: nat, clk: bool, cnt: nat, fsm: Fsm, sr: seq<bool>, mosi: bool)

  /** A start pulse, and the mosi register. */
  datatype Input = Input(start: bool, mosi: seq<bool>)

  predicate WellFormed(c: Config, s: State) {
    GoodConfig(c) && s.i < c.div && |s.sr| == c.width
  }

  predicate GoodInput(c: Config, i: Input) {
    |i.mosi| == c.width
  }

  predicate SetClk(c: Config, s: State) { s.i == c.div / 2 - 1 }

  predicate ClrClk(c: Config, s: State) { s.i == c.div - 1 }

  /** Chip select. */
  predicate Selected(s: State) { s.fsm == Shift }

  predicate Shifting(s: State) { s.fsm == Shift || s.fsm == End }

  function NextFsm(c: Config, s: State, start: bool): Fsm {
    match s.fsm
    case Idle => if start then WaitClk else Idle
    case WaitClk => if ClrClk(c, s) then Shift else WaitClk
    case Shift => if s.cnt == c.length then End else Shift
    case End => if SetClk(c, s) then Idle else End
  }

  function NextCnt(c: Config, s: State): nat {
    if s.fsm == Idle then 0
    else if s.fsm == Shift && s.cnt != c.length && ClrClk(c, s) then (s.cnt + 1) % 256
    else s.cnt
  }

  /** The points at which the register shifts and at which the pin takes its top. */
  predicate ShiftPoint(c: Config, s: State) {
    Shifting(s) && if c.cpha then ClrClk(c, s) else SetClk(c, s)
  }

  predicate DrivePoint(c: Config, s: State) {
    if c.cpha then SetClk(c, s) else ClrClk(c, s)
  }

  function Next(c: Config, s: State, i: Input): (n: State)
    requires WellFormed(c, s) && GoodInput(c, i)
    ensures WellFormed(c, n)
  {
    State(
      if ClrClk(c, s) then 0 else s.i + 1,
      if ClrClk(c, s) then false else if SetClk(c, s) then Selected(s) else s.clk,
      NextCnt(c, s),
      NextFsm(c, s, i.start),
      if i.start then i.mosi else if ShiftPoint(c, s) then s.sr[1..] + [false] else s.sr,
      if !i.start && !ShiftPoint(c, s) && DrivePoint(c, s) then s.sr[0] else s.mosi)
  }

  // ---------- what a slave sees ----------

  /** The bits on the data pin at the sampling edges (rising without and falling with `cpha`), the number of rising edges,
      and whether every clock edge came with the chip selected and every sampling edge found the pin steady. */
  datatype Trace = Trace(state: State, bits: seq<bool>, pulses: nat, clean: bool)

  function Step(c: Config, t: Trace, i: Input): (n: Trace)
    requires WellFormed(c, t.state) && GoodInput(c, i)
    ensures WellFormed(c, n.state)
  {
    var s, n := t.state, Next(c, t.state, i);
    var rises, falls := !s.clk && n.clk, s.clk && !n.clk;
    var samples := if c.cpha then falls else rises;
    Trace(n,
          if samples then t.bits + [n.mosi] else t.bits,
          if rises then t.pulses + 1 else t.pulses,
          t.clean && (rises || falls ==> Selected(s) && Selected(n)) && (samples ==> s.mosi == n.mosi))
  }

  function Run(c: Config, t: Trace, inputs: seq<Input>): (n: Trace)
    requires WellFormed(c, t.state) && forall k :: 0 <= k < |inputs| ==> GoodInput(c, inputs[k])
    ensures WellFormed(c, n.state)
    decreases |inputs|
  {
    var m := |inputs|;
    if m == 0 then t else Step(c, Run(c, t, inputs[..m - 1]), inputs[m - 1])
  }

  // ---------- one transfer ----------

  /** Bit `k` from the top of a register; zeros are shifted in behind the last. */
  predicate Bit(word: seq<bool>, k: nat) {
    k < |word| && word[k]
  }

  /** The register after `k` shifts of `word`. */
  ghost predicate ShiftedBy(sr: seq<bool>, word: seq<bool>, k: nat) {
    |sr| == |word| && forall j :: 0 <= j < |sr| ==> sr[j] == Bit(word, k + j)
  }

  /** Exactly the top `k` bits. */
  ghost predicate TopBits(bits: seq<bool>, word: seq<bool>, k: nat) {
    |bits| == k && forall j :: 0 <= j < k ==> bits[j] == Bit(word, j)
  }

  /** Periods whose rising edge is over. */
  function Risen(c: Config, s: State): nat
    requires GoodConfig(c)
  {
    if s.i >= c.div / 2 then s.cnt + 1 else s.cnt
  }

  /** The clock and the pins in period `cnt` of the transfer. */
  ghost predicate InPeriod(c: Config, word: seq<bool>, t: Trace)
    requires GoodConfig(c)
  {
    var s := t.state;
    && s.cnt <= c.length && (s.cnt == c.length ==> s.i == 0)
    && (s.clk <==> s.i >= c.div / 2) && t.pulses == Risen(c, s)
    && if c.cpha then
         && ShiftedBy(s.sr, word, s.cnt) && (s.clk ==> s.mosi == Bit(word, s.cnt)) && TopBits(t.bits, word, s.cnt)
       else
         && ShiftedBy(s.sr, word, Risen(c, s)) && s.mosi == Bit(word, s.cnt) && TopBits(t.bits, word, Risen(c, s))
  }

  ghost predicate Sent(c: Config, word: seq<bool>, t: Trace) {
    !t.state.clk && t.pulses == c.length && TopBits(t.bits, word, c.length)
  }

  /** A transfer of `word`, anywhere between its start and its end. */
  ghost predicate Sending(c: Config, word: seq<bool>, t: Trace) {
    var s := t.state;
    && WellFormed(c, s) && |word| == c.width && t.clean
    && match s.fsm
       case WaitClk => !s.clk && s.cnt == 0 && s.sr == word && t.bits == [] && t.pulses == 0
       case Shift => InPeriod(c, word, t)
       case End => WideEnough(c) && Sent(c, word, t) && s.cnt == c.length && 1 <= s.i < c.div / 2
       case Idle => WideEnough(c) && Sent(c, word, t)
  }

  /** Cycles of `n` periods. */
  function Cycles(c: Config, n: int): int { n * c.div }

  lemma OnePeriodMore(c: Config, n: int)
    ensures Cycles(c, n) == Cycles(c, n - 1) + c.div
    ensures n >= 0 ==> Cycles(c, n) >= 0
    ensures Cycles(c, 0) == 0
  {
  }

  /** Cycles until the transfer is over. */
  function Todo(c: Config, s: State): int {
    match s.fsm
    case WaitClk => c.div - s.i + Cycles(c, c.length) + c.div / 2
    case Shift => Cycles(c, c.length - s.cnt) - s.i + c.div / 2
    case End => c.div / 2 - s.i
    case Idle => 0
  }

  lemma WaitStep(c: Config, word: seq<bool>, t: Trace, i: Input)
    requires Sending(c, word, t) && t.state.fsm == WaitClk && GoodInput(c, i) && !i.start
    ensures Sending(c, word, Step(c, t, i))
  {
  }

  lemma ShiftOnce(sr: seq<bool>, word: seq<bool>, k: nat)
    requires ShiftedBy(sr, word, k) && sr != []
    ensures ShiftedBy(sr[1..] + [false], word, k + 1) && sr[0] == Bit(word, k)
  {
  }

  lemma OneBitMore(bits: seq<bool>, word: seq<bool>, k: nat)
    requires TopBits(bits, word, k)
    ensures TopBits(bits + [Bit(word, k)], word, k + 1)
  {
  }

  lemma RisingPeriodStep(c: Config, word: seq<bool>, t: Trace, i: Input)
    requires Sending(c, word, t) && t.state.fsm == Shift && t.state.cnt < c.length && GoodInput(c, i) && !i.start
    requires !c.cpha
    ensures Sending(c, word, Step(c, t, i))
  {
    var s := t.state;
    ShiftOnce(s.sr, word, Risen(c, s));
    if SetClk(c, s) {
      OneBitMore(t.bits, word, s.cnt);
    }
    hide ShiftedBy, TopBits, Bit;
  }

  lemma FallingPeriodStep(c: Config, word: seq<bool>, t: Trace, i: Input)
    requires Sending(c, word, t) && t.state.fsm == Shift && t.state.cnt < c.length && GoodInput(c, i) && !i.start
    requires c.cpha
    ensures Sending(c, word, Step(c, t, i))
  {
    var s := t.state;
    ShiftOnce(s.sr, word, s.cnt);
    if ClrClk(c, s) {
      OneBitMore(t.bits, word, s.cnt);
    }
    hide ShiftedBy, TopBits, Bit;
  }

  lemma EndStep(c: Config, word: seq<bool>, t: Trace, i: Input)
    requires WideEnough(c)
    requires Sending(c, word, t) && GoodInput(c, i) && !i.start
    requires t.state.fsm == End || AllShifted(c, t.state)
    ensures Sending(c, word, Step(c, t, i))
  {
  }

  /** In the cycle that ends the transfer a narrow divider lets one more clock pulse begin. */
  lemma NarrowEndStep(c: Config, word: seq<bool>, t: Trace, i: Input)
    requires !WideEnough(c) && Sending(c, word, t) && GoodInput(c, i) && AllShifted(c, t.state)
    ensures Step(c, t, i).pulses == c.length + 1 && Step(c, t, i).state.clk
  {
  }

  /** The last cycle of the shifting state. */
  predicate AllShifted(c: Config, s: State) { s.fsm == Shift && s.cnt == c.length }

  lemma TodoStep(c: Config, s: State, i: Input)
    requires WellFormed(c, s) && s.fsm != Idle && GoodInput(c, i) && s.cnt <= c.length
    requires s.fsm == WaitClk ==> s.cnt == 0
    requires s.fsm == Shift && s.cnt == c.length ==> s.i == 0
    requires s.fsm == End ==> WideEnough(c) && s.i < c.div / 2
    requires AllShifted(c, s) ==> WideEnough(c)
    ensures Todo(c, Next(c, s, i)) == Todo(c, s) - 1
  {
    hide Cycles;
    OnePeriodMore(c, c.length - s.cnt);
  }

  /** Every cycle without a new start pulse continues the transfer and brings its end one cycle nearer. */
  lemma SendingStep(c: Config, word: seq<bool>, t: Trace, i: Input)
    requires Sending(c, word, t) && t.state.fsm != Idle && GoodInput(c, i) && !i.start
    requires AllShifted(c, t.state) ==> WideEnough(c)
    ensures Sending(c, word, Step(c, t, i))
    ensures Todo(c, Step(c, t, i).state) == Todo(c, t.state) - 1
  {
    hide Step, Next, Todo, ShiftedBy, TopBits;
    if t.state.fsm == WaitClk {
      WaitStep(c, word, t, i);
    } else if t.state.fsm == End || t.state.cnt == c.length {
      EndStep(c, word, t, i);
    } else if c.cpha {
      FallingPeriodStep(c, word, t, i);
    } else {
      RisingPeriodStep(c, word, t, i);
    }
    StepIsNext(c, t, i);
    TodoStep(c, t.state, i);
  }

  lemma StepIsNext(c: Config, t: Trace, i: Input)
    requires WellFormed(c, t.state) && GoodInput(c, i)
    ensures Step(c, t, i).state == Next(c, t.state, i)
  {
  }

  lemma TodoUntilIdle(c: Config, word: seq<bool>, t: Trace)
    requires Sending(c, word, t)
    ensures Todo(c, t.state) >= 0
    ensures Todo(c, t.state) == 0 <==> t.state.fsm == Idle
    ensures !WideEnough(c) ==> (Todo(c, t.state) == 1 <==> AllShifted(c, t.state))
  {
    hide Cycles, ShiftedBy, TopBits;
    OnePeriodMore(c, c.length);
    OnePeriodMore(c, c.length - t.state.cnt);
    OnePeriodMore(c, c.length - t.state.cnt - 1);
  }

  /** Ready for a transfer, in any phase of the divider and with any register contents. */
  predicate Ready(s: State) { s.fsm == Idle && !s.clk }

  /** The clock pin stays low while nothing is sent. */
  lemma ReadyUntilStarted(c: Config, s: State, i: Input)
    requires WellFormed(c, s) && GoodInput(c, i) && Ready(s)
    ensures Ready(Next(c, s, i)) <==> !i.start
  {
  }

  /** Cycles of a transfer started in phase `i` of the divider: the start pulse, the wait for the clear point, the shifted
      periods, and the rest up to the set point. */
  function TransferCycles(c: Config, i: nat): int
    requires c.div > 0
  {
    1 + (c.div - (i + 1) % c.div) + (Cycles(c, c.length) + 1) + (c.div / 2 - 1)
  }

  lemma StartStep(c: Config, t: Trace, i: Input)
    requires WellFormed(c, t.state) && Ready(t.state) && t.bits == [] && t.pulses == 0 && t.clean
    requires GoodInput(c, i) && i.start
    ensures Sending(c, i.mosi, Step(c, t, i)) && Step(c, t, i).state.fsm == WaitClk
    ensures 1 + Todo(c, Step(c, t, i).state) == TransferCycles(c, t.state.i)
  {
    hide Cycles;
    assert (t.state.i + 1) % c.div == Next(c, t.state, i).i by {
      DivMod.Successor(t.state.i, c.div);
      DivMod.Unique(t.state.i, c.div, 0, t.state.i);
    }
  }

  /** A start pulse in the first cycle and none later. */
  predicate Starts(c: Config, t: Trace, inputs: seq<Input>) {
    && WellFormed(c, t.state) && Ready(t.state) && t.bits == [] && t.pulses == 0 && t.clean
    && |inputs| > 0 && (forall k :: 0 <= k < |inputs| ==> GoodInput(c, inputs[k]) && (inputs[k].start <==> k == 0))
    && |inputs| == TransferCycles(c, t.state.i)
  }

  function After(c: Config, t: Trace, inputs: seq<Input>, n: nat): Trace
    requires Starts(c, t, inputs) && n <= |inputs|
  {
    Run(c, t, inputs[..n])
  }

  lemma AfterStep(c: Config, t: Trace, inputs: seq<Input>, n: nat)
    requires Starts(c, t, inputs) && n < |inputs|
    ensures WellFormed(c, After(c, t, inputs, n).state) && GoodInput(c, inputs[n])
    ensures After(c, t, inputs, n + 1) == Step(c, After(c, t, inputs, n), inputs[n])
    ensures After(c, t, inputs, 0) == t
  {
    assert inputs[..n + 1][..n] == inputs[..n];
  }

  lemma {:induction false} Progress(c: Config, t: Trace, inputs: seq<Input>, n: nat)
    requires Starts(c, t, inputs) && 0 < n <= |inputs| && (n < |inputs| || WideEnough(c))
    ensures Sending(c, inputs[0].mosi, After(c, t, inputs, n))
    ensures Todo(c, After(c, t, inputs, n).state) == |inputs| - n
    ensures After(c, t, inputs, n).state.fsm == Idle <==> n == |inputs|
  {
    hide After, Step, Sending, Todo, TransferCycles, AllShifted, WideEnough;
    AfterStep(c, t, inputs, n - 1);
    var word, last := inputs[0].mosi, After(c, t, inputs, n - 1);
    if n == 1 {
      StartStep(c, t, inputs[0]);
    } else {
      Progress(c, t, inputs, n - 1);
      TodoUntilIdle(c, word, last);
      SendingStep(c, word, last, inputs[n - 1]);
    }
    TodoUntilIdle(c, word, After(c, t, inputs, n));
  }

  /** One transfer, from every divider phase, for both clock phases and every length: exactly `length` pulses, all with the
      chip selected; the data pin steady at every sampling edge, where it shows the bits of the mosi register from its top;
      and the master back in its idle state after exactly `TransferCycles` cycles, not before. */
  lemma TransferIsExact(c: Config, t: Trace, inputs: seq<Input>)
    requires Starts(c, t, inputs) && WideEnough(c)
    ensures Run(c, t, inputs).pulses == c.length && Run(c, t, inputs).clean
    ensures TopBits(Run(c, t, inputs).bits, inputs[0].mosi, c.length)
    ensures c.length <= c.width ==> Run(c, t, inputs).bits == inputs[0].mosi[..c.length]
    ensures Ready(Run(c, t, inputs).state)
    ensures forall n :: 0 < n < |inputs| ==> After(c, t, inputs, n).state.fsm != Idle
  {
    assert inputs[..|inputs|] == inputs;
    Progress(c, t, inputs, |inputs|);
    forall n | 0 < n < |inputs| ensures After(c, t, inputs, n).state.fsm != Idle {
      Progress(c, t, inputs, n);
    }
  }

  /** The divider decides: every transfer has exactly `length` pulses when it is at least 4, and none has when it is 2, the
      default, or 3. */
  lemma ExactPulsesIffWideEnough(c: Config, t: Trace, inputs: seq<Input>)
    requires Starts(c, t, inputs)
    ensures Run(c, t, inputs).pulses == c.length <==> WideEnough(c)
    ensures Run(c, t, inputs).pulses > c.length <==> !WideEnough(c)
  {
    if WideEnough(c) {
      TransferIsExact(c, t, inputs);
    } else {
      NarrowTransfer(c, t, inputs);
    }
  }

  lemma NarrowTransfer(c: Config, t: Trace, inputs: seq<Input>)
    requires Starts(c, t, inputs) && !WideEnough(c)
    ensures Run(c, t, inputs).pulses == c.length + 1
  {
    assert inputs[..|inputs|] == inputs;
    hide Step, Sending, Todo, TransferCycles, AllShifted, WideEnough;
    var n := |inputs| - 1;
    AfterStep(c, t, inputs, n);
    AtLeastTwoCycles(c, t.state.i);
    Progress(c, t, inputs, n);
    TodoUntilIdle(c, inputs[0].mosi, After(c, t, inputs, n));
    NarrowEndStep(c, inputs[0].mosi, After(c, t, inputs, n), inputs[n]);
  }

  lemma AtLeastTwoCycles(c: Config, i: nat)
    requires GoodConfig(c)
    ensures TransferCycles(c, i) >= 2
  {
    OnePeriodMore(c, c.length);
  }

  // ---------- the registers ----------

  class Master {
    const c: Config
    var i: nat
    var clk: bool
    var cnt: nat
    var fsm: Fsm
    var sr: seq<bool>
    var mosi: bool

    constructor (config: Config)
      requires GoodConfig(config)
      ensures c == config && Valid() && Ready(Registers())
    {
      c := config;
      i, clk, cnt, fsm, mosi := 0, false, 0, Idle, false;
      sr := seq(config.width, _ => false);
    }

    function Registers(): State
      reads this
    {
      State(i, clk, cnt, fsm, sr, mosi)
    }

    predicate Valid()
      reads this
    {
      WellFormed(c, Registers())
    }

    /** One clock edge: every register takes its next value from the old ones. */
    method Clock(input: Input)
      requires Valid() && GoodInput(c, input)
      modifies this
      ensures Valid() && Registers() == Next(c, old(Registers()), input)
    {
      var setClk, clrClk := i == c.div / 2 - 1, i == c.div - 1;
      var shifting, selected := fsm == Shift || fsm == End, fsm == Shift;
      if input.start {
        sr := input.mosi;
      } else if shifting && (if c.cpha then clrClk else setClk) {
        sr := sr[1..] + [false];
      } else if (if c.cpha then setClk else clrClk) {
        mosi := sr[0];
      }
      ClockFsm(input.start, setClk, clrClk);
      if setClk {
        clk := selected;
      }
      if clrClk {
        clk, i := false, 0;
      } else {
        i := i + 1;
      }
    }

    method ClockFsm(start: bool, setClk: bool, clrClk: bool)
      requires Valid() && setClk == SetClk(c, Registers()) && clrClk == ClrClk(c, Registers())
      modifies this`fsm, this`cnt
      ensures fsm == NextFsm(c, old(Registers()), start) && cnt == NextCnt(c, old(Registers()))
    {
      match fsm
      case Idle =>
        cnt := 0;
        if start { fsm := WaitClk; }
      case WaitClk =>
        if clrClk { fsm := Shift; }
      case Shift =>
        if cnt == c.length {
          fsm := End;
        } else if clrClk {
          cnt := (cnt + 1) % 256;
        }
      case End =>
        if setClk { fsm := Idle; }
    }
  }
}
