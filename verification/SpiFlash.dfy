/** The memory-mapped SPI flash readers, cycle by cycle.

    One read sends the command and 24 address bits, waits the dummy periods, and collects 32 bits.  A free-running divider
    makes the SPI clock; a shift register feeds the data lines from its top and takes samples at its bottom; a timeline
    counter loads the register and raises the acknowledge.

    With `width` data lines everything moves in groups of `width` bits, so registers are sequences of groups, most
    significant first; inside a group bit 0 is lane 0, the lowest.  Width 1 is the single-line reader, widths 2 and 4 the dual and quad one. */
module SpiFlash {
  import DivMod

  type Group = seq<bool>

  datatype Config = Config(width: nat, div: nat, dummy: nat, cmd: seq<Group>)

  predicate GoodConfig(c: Config) {
    c.width in {1, 2, 4} && c.div >= 2 && |c.cmd| == 8
  }

  function AddrGroups(c: Config): nat {
    if c.width == 1 then 24 else if c.width == 2 then 12 else 6
  }

  function WordGroups(c: Config): nat {
    if c.width == 1 then 32 else if c.width == 2 then 16 else 8
  }

  /** Clock periods of a whole read. */
  function Periods(c: Config): nat {
    8 + AddrGroups(c) + c.dummy + WordGroups(c)
  }

  /** The times at which the timeline acts, in cycles after the trigger. */
  function AddrTime(c: Config): nat { 8 * c.div }

  function DummyTime(c: Config): nat { (8 + AddrGroups(c)) * c.div }

  function AckTime(c: Config): nat { Periods(c) * c.div }

  function LastTime(c: Config): nat { AckTime(c) + 1 + c.div }

  /** The divider, the SPI clock and the lines sampled at its last rise. */
  datatype Clocking = Clocking(i: nat, clk: bool, sampled: Group)

  /** The shift register, chip select, output enable, acknowledge and timeline counter. */
  datatype State = State(clock: Clocking, sr: seq<Group>, csN: bool, dqOe: bool, ack: bool, counter: nat)

  /** A pending bus request with its 30-bit word address, most significant bit first, and the levels of the data lines. */
  datatype Input = Input(request: bool, adr: seq<bool>, dq: Group)

  predicate WellFormed(c: Config, s: State) {
    GoodConfig(c) && s.clock.i < c.div && |s.sr| == WordGroups(c)
  }

  predicate GoodInput(c: Config, i: Input) {
    |i.adr| == 30
  }

  /** The low 24 bits of the byte address: the flash is byte-addressed, the bus counts words of four bytes. */
  function ByteAddress(adr: seq<bool>): (bits: seq<bool>)
    requires |adr| == 30
    ensures |bits| == 24
  {
    adr[8..] + [false, false]
  }

  /** `bits` in groups of `width`. */
  function Groups(bits: seq<bool>, width: nat, n: nat): (g: seq<Group>)
    requires n * width == |bits|
    ensures |g| == n
  {
    seq(n, k requires 0 <= k < n => GroupAt(bits, width, n, k))
  }

  function GroupAt(bits: seq<bool>, width: nat, n: nat, k: nat): (g: Group)
    requires n * width == |bits| && k < n
    ensures |g| == width
  {
    DivMod.Monotone(width, k + 1, n);
    Lanes(bits[k * width..k * width + width])
  }

  /** Bits, the most significant first, on as many lanes. */
  function Lanes(bits: seq<bool>): (g: Group)
    ensures |g| == |bits|
  {
    seq(|bits|, lane requires 0 <= lane < |bits| => bits[|bits| - 1 - lane])
  }

  /** The address as the register sends it. */
  function Addr(c: Config, i: Input): (addr: seq<Group>)
    requires GoodConfig(c) && GoodInput(c, i)
    ensures |addr| == AddrGroups(c)
  {
    Groups(ByteAddress(i.adr), c.width, AddrGroups(c))
  }

  predicate Rise(c: Config, s: State)
    requires GoodConfig(c)
  {
    s.clock.i == c.div / 2 - 1
  }

  predicate PeriodEnds(c: Config, s: State) {
    s.clock.i == c.div - 1
  }

  predicate Trigger(c: Config, s: State, i: Input) {
    i.request && PeriodEnds(c, s) && s.counter == 0
  }

  function NextClocking(c: Config, s: State, dq: Group): Clocking
    requires GoodConfig(c)
  {
    if PeriodEnds(c, s) then Clocking(0, false, s.clock.sampled)
    else if Rise(c, s) then Clocking(s.clock.i + 1, true, dq)
    else s.clock.(i := s.clock.i + 1)
  }

  function Shifted(c: Config, s: State): seq<Group>
    requires WellFormed(c, s)
  {
    if PeriodEnds(c, s) then s.sr[1..] + [s.clock.sampled] else s.sr
  }

  /** One clock edge.  A load by the timeline wins over the shift, in the groups it loads. */
  function Next(c: Config, s: State, i: Input): (n: State)
    requires WellFormed(c, s) && GoodInput(c, i)
    ensures WellFormed(c, n)
  {
    var shifted := Shifted(c, s);
    State(
      NextClocking(c, s, i.dq),
      if Trigger(c, s, i) then c.cmd + shifted[8..]
      else if s.counter == AddrTime(c) then Addr(c, i) + shifted[AddrGroups(c)..]
      else shifted,
      if Trigger(c, s, i) then false else if s.counter == AckTime(c) then true else s.csN,
      if Trigger(c, s, i) then true else if s.counter == DummyTime(c) then false else s.dqOe,
      if s.counter == AckTime(c) then true else if s.counter == AckTime(c) + 1 then false else s.ack,
      if s.counter == LastTime(c) then 0
      else if s.counter != 0 then s.counter + 1
      else if Trigger(c, s, i) then 1 else 0)
  }

  /** A number from its bits, most significant first. */
  function Value(bits: seq<bool>): nat {
    if bits == [] then 0 else 2 * Value(bits[..|bits| - 1]) + (if bits[|bits| - 1] then 1 else 0)
  }

  function Pow2(n: nat): (p: nat)
    ensures p > 0
  {
    if n == 0 then 1 else 2 * Pow2(n - 1)
  }

  lemma ValueOneMore(bits: seq<bool>, b: bool)
    ensures Value(bits + [b]) == 2 * Value(bits) + (if b then 1 else 0)
  {
    assert (bits + [b])[..|bits|] == bits;
  }

  lemma {:induction false} ValueConcat(a: seq<bool>, b: seq<bool>)
    ensures Value(a + b) == Pow2(|b|) * Value(a) + Value(b) && Value(b) < Pow2(|b|)
  {
    if b == [] {
      assert a + b == a;
    } else {
      hide Value, Pow2;
      var init, last := b[..|b| - 1], b[|b| - 1];
      ValueConcat(a, init);
      assert a + b == a + init + [last] && b == init + [last];
      ValueOneMore(a + init, last);
      ValueOneMore(init, last);
      Pow2OneMore(|init|);
      OneBitLower(Pow2(|init|), Value(a), Value(init), if last then 1 else 0);
    }
  }

  lemma Pow2OneMore(n: nat)
    ensures Pow2(n + 1) == 2 * Pow2(n)
  {
  }

  lemma OneBitLower(p: nat, a: nat, b: nat, bit: nat)
    requires b < p && bit <= 1
    ensures 2 * (p * a + b) + bit == 2 * p * a + (2 * b + bit) && 2 * b + bit < 2 * p
  {
  }

  /** The address sent is four times the word address, in the 24 bits the flash has. */
  lemma AddressInBytes(adr: seq<bool>)
    requires |adr| == 30
    ensures Value(ByteAddress(adr)) == 4 * (Value(adr) % 0x40_0000)
  {
    hide Value;
    assert Pow2(22) == 0x40_0000 by {
      assert Pow2(8) == 256 && Pow2(16) == 0x1_0000;
    }
    assert adr == adr[..8] + adr[8..];
    ValueConcat(adr[..8], adr[8..]);
    DivMod.Unique(Value(adr), 0x40_0000, Value(adr[..8]), Value(adr[8..]));
    ValueConcat(adr[8..], [false, false]);
    TwoZeros();
  }

  lemma TwoZeros()
    ensures Pow2(2) == 4 && Value([false, false]) == 0
  {
    assert [false, false][..1] == [false] && [false][..0] == [];
    assert Value([false]) == 0;
  }

  // ---------- what happens on the pins ----------

  /** The registers and, for every rise of the SPI clock while the chip is selected, what the reader presented and what it
      sampled; and the data it returned in every cycle with the acknowledge high. */
  datatype Trace = Trace(state: State, presented: seq<Group>, samples: seq<Group>, returned: seq<seq<Group>>)

  function Step(c: Config, t: Trace, i: Input): (n: Trace)
    requires WellFormed(c, t.state) && GoodInput(c, i)
    ensures WellFormed(c, n.state)
  {
    var s := t.state;
    var rises := Rise(c, s) && !s.csN;
    Trace(Next(c, s, i),
          if rises then t.presented + [s.sr[0]] else t.presented,
          if rises then t.samples + [i.dq] else t.samples,
          if s.ack then t.returned + [s.sr] else t.returned)
  }

  function Run(c: Config, t: Trace, inputs: seq<Input>): (n: Trace)
    requires WellFormed(c, t.state) && forall k :: 0 <= k < |inputs| ==> GoodInput(c, inputs[k])
    ensures WellFormed(c, n.state)
    decreases |inputs|
  {
    var m := |inputs|;
    if m == 0 then t else Step(c, Run(c, t, inputs[..m - 1]), inputs[m - 1])
  }

  // ---------- one read ----------

  /** Everything a read sends: the command, then the address. */
  function Message(c: Config, addr: seq<Group>): seq<Group> { c.cmd + addr }

  /** The part of the register still to be sent is at its top. */
  ghost predicate TopToSend(c: Config, addr: seq<Group>, sr: seq<Group>, p: nat)
    requires GoodConfig(c) && |addr| == AddrGroups(c) && |sr| == WordGroups(c)
  {
    && (p < 8 ==> forall k :: p <= k < 8 ==> sr[k - p] == c.cmd[k])
    && (p >= 8 ==> forall k :: p - 8 <= k < |addr| ==> sr[k - (p - 8)] == addr[k])
  }

  /** The samples since the address was loaded are at its bottom, the latest last. */
  ghost predicate BottomSampled(sr: seq<Group>, samples: seq<Group>, p: nat)
    requires |samples| >= p
  {
    forall k :: 8 <= k < p && p - |sr| <= k ==> sr[|sr| - p + k] == samples[k]
  }

  /** The register in period `p`. */
  ghost predicate Register(c: Config, addr: seq<Group>, t: Trace, p: nat)
    requires WellFormed(c, t.state)
  {
    |addr| == AddrGroups(c) && |t.samples| >= p
    && TopToSend(c, addr, t.state.sr, p) && BottomSampled(t.state.sr, t.samples, p)
  }

  /** One group presented and one sample taken for each of the first `n` rises. */
  ghost predicate Exchanged(c: Config, addr: seq<Group>, t: Trace, n: nat) {
    && |t.samples| == |t.presented| == n
    && forall k :: 0 <= k < n && k < |Message(c, addr)| ==> t.presented[k] == Message(c, addr)[k]
  }

  /** The divider in cycle `r` of a period: the clock is high in the second half, and then holds the sample of the rise. */
  ghost predicate Divider(c: Config, t: Trace, p: nat, r: nat)
    requires GoodConfig(c)
  {
    && t.state.clock.i == r < c.div
    && (t.state.clock.clk <==> r >= c.div / 2)
    && (r >= c.div / 2 ==> |t.samples| == p + 1 && t.state.clock.sampled == t.samples[p])
  }

  /** Chip select, direction and acknowledge in cycle `r` of period `p`. */
  ghost predicate Timeline(c: Config, s: State, p: nat, r: nat)
    requires GoodConfig(c)
  {
    && p < Periods(c) && s.counter == p * c.div + r + 1
    && !s.csN && !s.ack && (s.dqOe <==> p < 8 + AddrGroups(c))
  }

  /** Rises so far in cycle `r` of period `p`. */
  function Rises(c: Config, p: nat, r: nat): nat
    requires GoodConfig(c)
  {
    if r >= c.div / 2 then p + 1 else p
  }

  /** Cycle `r` of period `p` of a read. */
  ghost predicate At(c: Config, addr: seq<Group>, t: Trace, p: nat, r: nat) {
    && WellFormed(c, t.state)
    && Timeline(c, t.state, p, r)
    && Divider(c, t, p, r)
    && Register(c, addr, t, p)
    && Exchanged(c, addr, t, Rises(c, p, r))
    && t.returned == []
  }

  /** The timeline acts exactly at ends of periods. */
  lemma EventAtPeriodEnd(div: nat, p: nat, r: nat, k: nat)
    requires r < div
    ensures p * div + r + 1 == k * div <==> p + 1 == k && r == div - 1
    ensures p < k ==> p * div + r + 1 <= k * div
  {
    if p + 1 < k {
      DivMod.Monotone(div, p + 2, k);
    } else if k < p + 1 {
      DivMod.Monotone(div, k, p);
    }
  }

  /** No action of the timeline but at the end of a period, and then those of that period. */
  lemma TimelineActs(c: Config, p: nat, r: nat)
    requires GoodConfig(c) && p < Periods(c) && r < c.div
    ensures var t := p * c.div + r + 1; var ends := r == c.div - 1;
            && (t == AddrTime(c) <==> p == 7 && ends)
            && (t == DummyTime(c) <==> p == 7 + AddrGroups(c) && ends)
            && (t == AckTime(c) <==> p == Periods(c) - 1 && ends)
            && 0 < t <= AckTime(c)
  {
    EventAtPeriodEnd(c.div, p, r, 8);
    EventAtPeriodEnd(c.div, p, r, 8 + AddrGroups(c));
    EventAtPeriodEnd(c.div, p, r, Periods(c));
  }

  /** Inside a period only the divider and the counter move. */
  lemma InsidePeriodState(c: Config, s: State, p: nat, r: nat, i: Input)
    requires WellFormed(c, s) && GoodInput(c, i) && Timeline(c, s, p, r) && s.clock.i == r < c.div - 1
    ensures Next(c, s, i) == s.(clock := NextClocking(c, s, i.dq), counter := s.counter + 1)
  {
    TimelineActs(c, p, r);
  }

  /** The rise presents the next group of the message. */
  lemma RiseExchanges(c: Config, addr: seq<Group>, t: Trace, p: nat, n: Trace, dq: Group)
    requires WellFormed(c, t.state) && WellFormed(c, n.state) && n.state.sr == t.state.sr
    requires Register(c, addr, t, p) && Exchanged(c, addr, t, p)
    requires n.presented == t.presented + [t.state.sr[0]] && n.samples == t.samples + [dq]
    ensures Register(c, addr, n, p) && Exchanged(c, addr, n, p + 1)
  {
    assert p < 8 ==> t.state.sr[p - p] == c.cmd[p];
    assert 8 <= p < 8 + |addr| ==> t.state.sr[p - 8 - (p - 8)] == addr[p - 8];
  }

  /** The divider moves on. */
  lemma InsidePeriodDivider(c: Config, t: Trace, p: nat, r: nat, n: Trace, dq: Group)
    requires WellFormed(c, t.state) && Divider(c, t, p, r) && r < c.div - 1
    requires n.state.clock == NextClocking(c, t.state, dq) && n.samples == if Rise(c, t.state) then t.samples + [dq] else t.samples
    requires |t.samples| == Rises(c, p, r)
    ensures Divider(c, n, p, r + 1)
    ensures Rises(c, p, r + 1) == if Rise(c, t.state) then p + 1 else Rises(c, p, r)
    ensures Rise(c, t.state) ==> Rises(c, p, r) == p
  {
  }

  lemma SameExchange(c: Config, addr: seq<Group>, t: Trace, p: nat, m: nat, n: Trace)
    requires WellFormed(c, t.state) && WellFormed(c, n.state) && n.state.sr == t.state.sr
    requires Register(c, addr, t, p) && Exchanged(c, addr, t, m)
    requires n.presented == t.presented && n.samples == t.samples
    ensures Register(c, addr, n, p) && Exchanged(c, addr, n, m)
  {
  }

  /** At its middle the clock rises, the top of the register is seen and the lines are sampled. */
  lemma InsidePeriod(c: Config, addr: seq<Group>, t: Trace, p: nat, r: nat, i: Input)
    requires At(c, addr, t, p, r) && GoodInput(c, i) && r < c.div - 1
    ensures At(c, addr, Step(c, t, i), p, r + 1)
  {
    hide Register, Exchanged, Next, NextClocking, Rises;
    var n := Step(c, t, i);
    InsidePeriodState(c, t.state, p, r, i);
    ExchangedCount(c, addr, t, Rises(c, p, r));
    InsidePeriodDivider(c, t, p, r, n, i.dq);
    if Rise(c, t.state) {
      RiseExchanges(c, addr, t, p, n, i.dq);
    } else {
      SameExchange(c, addr, t, p, Rises(c, p, r), n);
    }
  }

  lemma ExchangedCount(c: Config, addr: seq<Group>, t: Trace, n: nat)
    requires Exchanged(c, addr, t, n)
    ensures |t.samples| == n
  {
  }

  lemma EndOfPeriodState(c: Config, s: State, p: nat, i: Input)
    requires WellFormed(c, s) && GoodInput(c, i) && Timeline(c, s, p, c.div - 1) && PeriodEnds(c, s)
    requires p + 1 < Periods(c)
    ensures var n := Next(c, s, i);
            && n.clock == Clocking(0, false, s.clock.sampled)
            && n.sr == (if p == 7 then Addr(c, i) + Shifted(c, s)[AddrGroups(c)..] else Shifted(c, s))
            && Timeline(c, n, p + 1, 0)
  {
    TimelineActs(c, p, c.div - 1);
    assert s.counter + 1 == (p + 1) * c.div + 1;
  }

  /** At the end of a period the register shifts its sample in; after the command the address is loaded over the top. */
  lemma EndOfPeriod(c: Config, addr: seq<Group>, t: Trace, p: nat, i: Input)
    requires GoodConfig(c) && At(c, addr, t, p, c.div - 1) && GoodInput(c, i) && p + 1 < Periods(c)
    requires p == 7 ==> Addr(c, i) == addr
    ensures At(c, addr, Step(c, t, i), p + 1, 0)
  {
    hide Next, Timeline, TopToSend, BottomSampled;
    EndOfPeriodState(c, t.state, p, i);
    ShiftKeepsRegister(c, addr, t, p);
    NotAcknowledged(c, t.state, p, c.div - 1);
  }

  lemma NotAcknowledged(c: Config, s: State, p: nat, r: nat)
    requires GoodConfig(c) && Timeline(c, s, p, r)
    ensures !s.csN && !s.ack
  {
  }

  lemma ShiftKeepsRegister(c: Config, addr: seq<Group>, t: Trace, p: nat)
    requires WellFormed(c, t.state) && Register(c, addr, t, p) && PeriodEnds(c, t.state)
    requires |t.samples| == p + 1 && t.state.clock.sampled == t.samples[p]
    ensures var n := if p == 7 then addr + Shifted(c, t.state)[|addr|..] else Shifted(c, t.state);
            TopToSend(c, addr, n, p + 1) && BottomSampled(n, t.samples, p + 1)
  {
    var sr, n := t.state.sr, Shifted(c, t.state);
    forall k | 8 <= k < p + 1 && p + 1 - |sr| <= k ensures n[|sr| - (p + 1) + k] == t.samples[k] {
      if k < p {
        assert n[|sr| - (p + 1) + k] == sr[|sr| - p + k];
      }
    }
  }

  // ---------- the acknowledge ----------

  /** No read under way. */
  predicate Idle(s: State) {
    s.counter == 0 && s.csN && !s.ack
  }

  /** The cycles from the acknowledge on: `q` of them are over. */
  ghost predicate Ending(c: Config, t: Trace, word: seq<Group>, q: nat) {
    && WellFormed(c, t.state) && t.state.counter == AckTime(c) + 1 + q
    && t.state.csN && (t.state.ack <==> q == 0)
    && t.returned == (if q == 0 then [] else [word]) && (q == 0 ==> t.state.sr == word)
  }

  /** The end of the last period raises the acknowledge, with the last word of samples in the register. */
  lemma EndOfLastPeriod(c: Config, addr: seq<Group>, t: Trace, i: Input)
    requires GoodConfig(c) && At(c, addr, t, Periods(c) - 1, c.div - 1) && GoodInput(c, i)
    ensures var n := Step(c, t, i);
            && |n.samples| == Periods(c) && Ending(c, n, n.samples[Periods(c) - WordGroups(c)..], 0)
            && Exchanged(c, addr, n, Periods(c))
  {
    TimelineActs(c, Periods(c) - 1, c.div - 1);
    ShiftKeepsRegister(c, addr, t, Periods(c) - 1);
    var n := Step(c, t, i);
    assert n.state.sr == n.samples[Periods(c) - WordGroups(c)..];
  }

  lemma EndingStep(c: Config, t: Trace, word: seq<Group>, q: nat, i: Input)
    requires Ending(c, t, word, q) && GoodInput(c, i) && q <= c.div
    ensures var n := Step(c, t, i);
            && n.presented == t.presented && n.samples == t.samples
            && (q < c.div ==> Ending(c, n, word, q + 1))
            && (q == c.div ==> Idle(n.state) && n.returned == [word])
  {
    EventTimes(c);
  }

  // ---------- whole reads ----------

  lemma EventTimes(c: Config)
    requires GoodConfig(c)
    ensures 0 < AddrTime(c) < DummyTime(c) < AckTime(c)
  {
    DivMod.Monotone(c.div, 9, 8 + AddrGroups(c));
    DivMod.Monotone(c.div, 9 + AddrGroups(c), Periods(c));
  }

  /** Nothing selects the chip or acknowledges between reads, and a held request is taken within `div` cycles. */
  lemma IdleUntilTriggered(c: Config, s: State, i: Input)
    requires WellFormed(c, s) && GoodInput(c, i) && Idle(s)
    ensures Idle(Next(c, s, i)) <==> !Trigger(c, s, i)
    ensures i.request && !Trigger(c, s, i) ==> Next(c, s, i).clock.i == s.clock.i + 1
  {
    EventTimes(c);
  }

  predicate Starts(c: Config, t: Trace, inputs: seq<Input>) {
    && WellFormed(c, t.state) && Idle(t.state) && t.presented == t.samples == [] && t.returned == []
    && (forall k :: 0 <= k < |inputs| ==> GoodInput(c, inputs[k]))
    && |inputs| == LastTime(c) + 1 && Trigger(c, t.state, inputs[0])
  }

  /** The address the bus holds when the command is out. */
  function Address(c: Config, inputs: seq<Input>): seq<Group>
    requires GoodConfig(c) && |inputs| > AddrTime(c) && GoodInput(c, inputs[AddrTime(c)])
  {
    Addr(c, inputs[AddrTime(c)])
  }

  /** The trigger selects the chip and loads the command. */
  lemma TriggerStarts(c: Config, t: Trace, addr: seq<Group>, i: Input)
    requires WellFormed(c, t.state) && Idle(t.state) && t.presented == t.samples == [] && t.returned == []
    requires GoodInput(c, i) && Trigger(c, t.state, i) && |addr| == AddrGroups(c)
    ensures At(c, addr, Step(c, t, i), 0, 0)
  {
  }

  /** The trace after the first `n` cycles of a read. */
  function After(c: Config, t: Trace, inputs: seq<Input>, n: nat): Trace
    requires Starts(c, t, inputs) && n <= |inputs|
  {
    Run(c, t, inputs[..n])
  }

  lemma AfterStep(c: Config, t: Trace, inputs: seq<Input>, n: nat)
    requires Starts(c, t, inputs) && n < |inputs|
    ensures WellFormed(c, After(c, t, inputs, n).state) && GoodInput(c, inputs[n])
    ensures After(c, t, inputs, n + 1) == Step(c, After(c, t, inputs, n), inputs[n])
    ensures After(c, t, inputs, 0) == t
  {
    assert inputs[..n + 1][..n] == inputs[..n];
  }

  /** Cycle `n` of the read is cycle `r` of period `p`. */
  predicate CycleOf(c: Config, n: nat, p: nat, r: nat) {
    n == p * c.div + r + 1 && p < Periods(c) && r < c.div
  }

  lemma CyclesInRange(c: Config, n: nat, p: nat, r: nat)
    requires GoodConfig(c) && CycleOf(c, n, p, r)
    ensures n <= AckTime(c) && AddrTime(c) < AckTime(c) && (n == AddrTime(c) <==> p == 7 && r == c.div - 1)
    ensures r > 0 ==> CycleOf(c, n - 1, p, r - 1)
    ensures r == 0 && p > 0 ==> CycleOf(c, n - 1, p - 1, c.div - 1)
    ensures r == 0 && p == 0 <==> n == 1
    ensures CycleOf(c, AckTime(c), Periods(c) - 1, c.div - 1)
  {
    TimelineActs(c, p, r);
    DivMod.Monotone(c.div, 9, Periods(c));
    if p > 0 {
      DivMod.Monotone(c.div, 1, p);
    }
  }

  /** Every cycle of the read is where it should be. */
  lemma {:induction false} Position(c: Config, t: Trace, inputs: seq<Input>, n: nat, p: nat, r: nat)
    requires Starts(c, t, inputs) && CycleOf(c, n, p, r) && n < |inputs| && AddrTime(c) < |inputs|
    ensures At(c, Address(c, inputs), After(c, t, inputs, n), p, r)
  {
    hide At, Step, After;
    CyclesInRange(c, n, p, r);
    AfterStep(c, t, inputs, n - 1);
    var addr := Address(c, inputs);
    if r > 0 {
      Position(c, t, inputs, n - 1, p, r - 1);
      InsidePeriod(c, addr, After(c, t, inputs, n - 1), p, r - 1, inputs[n - 1]);
    } else if p > 0 {
      Position(c, t, inputs, n - 1, p - 1, c.div - 1);
      CyclesInRange(c, n - 1, p - 1, c.div - 1);
      EndOfPeriod(c, addr, After(c, t, inputs, n - 1), p - 1, inputs[n - 1]);
    } else {
      TriggerStarts(c, t, addr, inputs[0]);
    }
  }

  /** Sample `k` is what the lines carried at the rise in period `k`. */
  ghost predicate SampledAtRises(c: Config, inputs: seq<Input>, samples: seq<Group>) {
    forall k :: 0 <= k < |samples| ==> RiseOf(c, k) < |inputs| && samples[k] == inputs[RiseOf(c, k)].dq
  }

  function RiseOf(c: Config, k: nat): nat { k * c.div + c.div / 2 }

  /** A sample is taken at the rise of its period and at no other time. */
  lemma SampleStep(c: Config, addr: seq<Group>, t: Trace, inputs: seq<Input>, n: nat, p: nat, r: nat)
    requires At(c, addr, t, p, r) && CycleOf(c, n, p, r) && n < |inputs| && GoodInput(c, inputs[n])
    requires SampledAtRises(c, inputs, t.samples)
    ensures SampledAtRises(c, inputs, Step(c, t, inputs[n]).samples)
  {
    if Rise(c, t.state) {
      assert n == RiseOf(c, p);
    }
  }

  lemma NothingSampled(c: Config, t: Trace, inputs: seq<Input>)
    requires Starts(c, t, inputs)
    ensures After(c, t, inputs, 1).samples == []
    ensures SampledAtRises(c, inputs, After(c, t, inputs, 1).samples)
  {
    AfterStep(c, t, inputs, 0);
  }

  lemma {:induction false} Sampled(c: Config, t: Trace, inputs: seq<Input>, n: nat, p: nat, r: nat)
    requires Starts(c, t, inputs) && CycleOf(c, n, p, r) && n < |inputs| && AddrTime(c) < |inputs|
    ensures SampledAtRises(c, inputs, After(c, t, inputs, n).samples)
  {
    hide At, Step, After, SampledAtRises, Periods, AddrTime;
    CyclesInRange(c, n, p, r);
    if n == 1 {
      NothingSampled(c, t, inputs);
    } else {
      AfterStep(c, t, inputs, n - 1);
      var q, u := if r > 0 then p else p - 1, if r > 0 then r - 1 else c.div - 1;
      Sampled(c, t, inputs, n - 1, q, u);
      Position(c, t, inputs, n - 1, q, u);
      SampleStep(c, Address(c, inputs), After(c, t, inputs, n - 1), inputs, n - 1, q, u);
    }
  }

  /** The last word of samples. */
  function Word(c: Config, samples: seq<Group>): seq<Group>
    requires GoodConfig(c) && |samples| == Periods(c)
  {
    samples[Periods(c) - WordGroups(c)..]
  }

  /** All of a read: as many rises as periods, the message presented first, the lines sampled at the rises. */
  ghost predicate Complete(c: Config, inputs: seq<Input>, t: Trace)
  {
    && GoodConfig(c) && AddrTime(c) < |inputs| && GoodInput(c, inputs[AddrTime(c)])
    && Exchanged(c, Address(c, inputs), t, Periods(c)) && SampledAtRises(c, inputs, t.samples)
  }

  lemma ManyPeriods(c: Config)
    requires GoodConfig(c)
    ensures Periods(c) >= 8 + AddrGroups(c) + WordGroups(c)
  {
  }

  /** The acknowledge comes with cycle `Periods * div + 1`. */
  lemma Acknowledged(c: Config, t: Trace, inputs: seq<Input>)
    requires Starts(c, t, inputs)
    ensures var n := After(c, t, inputs, AckTime(c) + 1);
            Complete(c, inputs, n) && Ending(c, n, Word(c, n.samples), 0)
  {
    hide After, Step, At, Periods, SampledAtRises, Ending, Exchanged;
    var m := AckTime(c);
    ManyPeriods(c);
    CyclesInRange(c, 1, 0, 0);
    Position(c, t, inputs, m, Periods(c) - 1, c.div - 1);
    Sampled(c, t, inputs, m, Periods(c) - 1, c.div - 1);
    AfterStep(c, t, inputs, m);
    SampleStep(c, Address(c, inputs), After(c, t, inputs, m), inputs, m, Periods(c) - 1, c.div - 1);
    EndOfLastPeriod(c, Address(c, inputs), After(c, t, inputs, m), inputs[m]);
  }

  lemma {:induction false} EndingRun(c: Config, t: Trace, inputs: seq<Input>, q: nat)
    requires Starts(c, t, inputs) && q <= c.div
    ensures var n := After(c, t, inputs, AckTime(c) + 1 + q);
            Complete(c, inputs, n) && Ending(c, n, Word(c, n.samples), q)
  {
    hide After, Step, Ending;
    if q == 0 {
      Acknowledged(c, t, inputs);
    } else {
      EndingRun(c, t, inputs, q - 1);
      var m := AckTime(c) + q;
      AfterStep(c, t, inputs, m);
      var s := After(c, t, inputs, m);
      EndingStep(c, s, Word(c, s.samples), q - 1, inputs[m]);
    }
  }

  /** One read, for every divider setting, number of dummy periods and behaviour of the bus and the lines: the clock rises
      exactly `Periods` times with the chip selected; the command and then the 24 address bits are presented at the first
      rises, most significant group first; the lines are sampled at the rises; the acknowledge is high for exactly one
      cycle, in which the word returned is the samples of the last rises; and the reader is idle again afterwards. */
  lemma ReadIsExact(c: Config, t: Trace, inputs: seq<Input>)
    requires Starts(c, t, inputs)
    ensures AddrTime(c) < |inputs| && AckTime(c) + 1 < |inputs|
    ensures Idle(Run(c, t, inputs).state)
    ensures var presented := Run(c, t, inputs).presented;
            |presented| == Periods(c) && c.cmd + Address(c, inputs) <= presented
    ensures var samples := Run(c, t, inputs).samples;
            |samples| == Periods(c) && SampledAtRises(c, inputs, samples)
            && Run(c, t, inputs).returned == [Word(c, samples)]
    ensures After(c, t, inputs, AckTime(c) + 1).state.ack
  {
    assert inputs[..|inputs|] == inputs;
    LastCycle(c, t, inputs);
    Acknowledged(c, t, inputs);
    assert Message(c, Address(c, inputs)) <= Run(c, t, inputs).presented;
  }

  lemma LastCycle(c: Config, t: Trace, inputs: seq<Input>)
    requires Starts(c, t, inputs)
    ensures var n := After(c, t, inputs, |inputs|);
            Complete(c, inputs, n) && Idle(n.state) && n.returned == [Word(c, n.samples)]
  {
    hide After, Step, Ending;
    EndingRun(c, t, inputs, c.div);
    var m := LastTime(c);
    AfterStep(c, t, inputs, m);
    var s := After(c, t, inputs, m);
    EndingStep(c, s, Word(c, s.samples), c.div, inputs[m]);
  }

  // ---------- the command on all lanes ----------

  /** The group of `width` bits that a register of `8 * width` bits sends in period `k`; bit 0 of the register is its least
      significant bit and lane 0 of the group is its lowest. */
  function SentGroup(bits: seq<bool>, width: nat, k: nat): (g: Group)
    requires width > 0 && |bits| == 8 * width && k < 8
    ensures |g| == width
  {
    assert (7 - k) * width + width == (8 - k) * width <= 8 * width;
    bits[(7 - k) * width..(7 - k) * width + width]
  }

  /** Where bit `lane` of group `d` from the bottom is. */
  function Index(width: nat, d: nat, lane: nat): nat { d * width + lane }

  lemma IndexInRange(width: nat, d: nat, lane: nat)
    requires d < 8 && lane < width
    ensures Index(width, d, lane) < 8 * width
  {
    DivMod.Monotone(width, d + 1, 8);
  }

  lemma IndexIsUnique(width: nat, d: nat, lane: nat, e: nat)
    requires lane < width
    ensures Index(width, d, lane) == Index(width, e, 0) <==> d == e && lane == 0
  {
    DivMod.Unique(Index(width, d, lane), width, d, lane);
    DivMod.Unique(Index(width, e, 0), width, e, 0);
  }

  /** The bits of the command, least significant first, are in place in lane 0 of the lowest `b` groups; the rest is high. */
  ghost predicate Spread(cmd: seq<bool>, bits: seq<bool>, width: nat, b: nat)
    requires |cmd| == 8
  {
    && |bits| == 8 * width
    && forall d: nat, lane: nat :: d < 8 && lane < width ==>
         Index(width, d, lane) < |bits| && bits[Index(width, d, lane)] == (d < b && lane == 0 ==> cmd[d])
  }

  lemma ClearLane(cmd: seq<bool>, bits: seq<bool>, width: nat, b: nat)
    requires |cmd| == 8 && width > 0 && b < 8 && Spread(cmd, bits, width, b) && !cmd[b]
    ensures Index(width, b, 0) < |bits| && Spread(cmd, bits[Index(width, b, 0) := false], width, b + 1)
  {
    hide Index;
    IndexInRange(width, b, 0);
    var n := bits[Index(width, b, 0) := false];
    forall d: nat, lane: nat | d < 8 && lane < width
      ensures Index(width, d, lane) < |n| && n[Index(width, d, lane)] == (d < b + 1 && lane == 0 ==> cmd[d])
    {
      IndexInRange(width, d, lane);
      IndexIsUnique(width, d, lane, b);
    }
  }

  lemma NothingSpread(cmd: seq<bool>, bits: seq<bool>, width: nat)
    requires |cmd| == 8 && |bits| == 8 * width && forall j :: 0 <= j < |bits| ==> bits[j]
    ensures Spread(cmd, bits, width, 0)
  {
    forall d: nat, lane: nat | d < 8 && lane < width ensures Index(width, d, lane) < |bits| {
      IndexInRange(width, d, lane);
    }
  }

  lemma AllSpread(cmd: seq<bool>, bits: seq<bool>, width: nat, k: nat, lane: nat)
    requires |cmd| == 8 && k < 8 && lane < width && Spread(cmd, bits, width, 8)
    ensures SentGroup(bits, width, k)[lane] == (lane == 0 ==> cmd[7 - k])
  {
    assert SentGroup(bits, width, k)[lane] == bits[Index(width, 7 - k, lane)];
  }

  /** The groups that such a register sends, in order. */
  function SentGroups(bits: seq<bool>, width: nat): (groups: seq<Group>)
    requires width > 0 && |bits| == 8 * width
    ensures |groups| == 8 && forall k :: 0 <= k < 8 ==> groups[k] == SentGroup(bits, width, k)
  {
    seq(8, k requires 0 <= k < 8 => SentGroup(bits, width, k))
  }

  /** Lane 0 carries the command, given least significant bit first, from its most significant bit on; every other lane is
      high. */
  ghost predicate Carries(groups: seq<Group>, width: nat, cmd: seq<bool>)
    requires |cmd| == 8
  {
    && |groups| == 8
    && forall k :: 0 <= k < 8 ==>
         |groups[k]| == width && forall lane :: 0 <= lane < width ==> groups[k][lane] == (lane == 0 ==> cmd[7 - k])
  }

  /** A reader made for a command puts it on the lines and then the byte address, whose top bit goes out first on the highest
      lane. */
  lemma CommandThenAddress(c: Config, t: Trace, inputs: seq<Input>, cmd: seq<bool>)
    requires |cmd| == 8 && Starts(c, t, inputs) && Carries(c.cmd, c.width, cmd)
    ensures AddrTime(c) < |inputs| && |Run(c, t, inputs).presented| == Periods(c)
    ensures Carries(Run(c, t, inputs).presented[..8], c.width, cmd)
    ensures forall k :: 0 <= k < AddrGroups(c) ==>
              Run(c, t, inputs).presented[8 + k] ==
              GroupAt(ByteAddress(inputs[AddrTime(c)].adr), c.width, AddrGroups(c), k)
  {
    hide Run, Carries, GroupAt, ByteAddress;
    ReadIsExact(c, t, inputs);
    var presented, addr := Run(c, t, inputs).presented, Address(c, inputs);
    assert presented[..8] == c.cmd;
    assert forall k :: 0 <= k < |addr| ==> presented[8 + k] == (c.cmd + addr)[8 + k] == addr[k];
  }

  /** The command spread over all lanes. */
  method FormatCmd(cmd: seq<bool>, width: nat) returns (bits: seq<bool>)
    requires |cmd| == 8 && width > 0
    ensures |bits| == 8 * width && Carries(SentGroups(bits, width), width, cmd)
  {
    hide SentGroup, Index;
    bits := seq(8 * width, _ => true);
    var b := 0;
    NothingSpread(cmd, bits, width);
    while b < 8
      invariant 0 <= b <= 8 && Spread(cmd, bits, width, b)
    {
      if !cmd[b] {
        ClearLane(cmd, bits, width, b);
        bits := bits[Index(width, b, 0) := false];
      }
      b := b + 1;
    }
    forall k: nat, lane: nat | k < 8 && lane < width
      ensures SentGroup(bits, width, k)[lane] == (lane == 0 ==> cmd[7 - k])
    {
      AllSpread(cmd, bits, width, k, lane);
    }
  }

  // ---------- the registers ----------

  /** The reader's registers, updated at each clock edge by the divider and then by the timeline, whose later assignments
      win. */
  class Reader {
    const c: Config
    var clock: Clocking
    var sr: seq<Group>
    var csN: bool
    var dqOe: bool
    var ack: bool
    var counter: nat

    /** The reader for a command, as it is built for one of the three widths. */
    constructor (cmd: seq<bool>, width: nat, div: nat, dummy: nat, zero: Group)
      requires |cmd| == 8 && width in {1, 2, 4} && div >= 2
      ensures c.width == width && c.div == div && c.dummy == dummy && Carries(c.cmd, width, cmd)
      ensures Valid() && Idle(Registers())
    {
      var bits := FormatCmd(cmd, width);
      c := Config(width, div, dummy, SentGroups(bits, width));
      clock := Clocking(0, false, zero);
      sr := seq(if width == 1 then 32 else if width == 2 then 16 else 8, _ => zero);
      csN, dqOe, ack, counter := true, false, false, 0;
    }

    function Registers(): State
      reads this
    {
      State(clock, sr, csN, dqOe, ack, counter)
    }

    predicate Valid()
      reads this
    {
      WellFormed(c, Registers())
    }

    method Clock(i: Input)
      requires Valid() && GoodInput(c, i)
      modifies this
      ensures Valid() && Registers() == Next(c, old(Registers()), i)
    {
      var trigger := i.request && clock.i == c.div - 1 && counter == 0;
      if clock.i == c.div - 1 {
        sr := sr[1..] + [clock.sampled];
        clock := clock.(i := 0, clk := false);
      } else if clock.i == c.div / 2 - 1 {
        clock := Clocking(clock.i + 1, true, i.dq);
      } else {
        clock := clock.(i := clock.i + 1);
      }
      Timeline(trigger, Addr(c, i));
    }

    /** The events of the timeline, and its counter. */
    method Timeline(trigger: bool, addr: seq<Group>)
      requires Valid() && |addr| == AddrGroups(c) && (trigger ==> counter == 0)
      modifies this`sr, this`csN, this`dqOe, this`ack, this`counter
      ensures |sr| == |old(sr)|
      ensures sr == if trigger then c.cmd + old(sr)[8..]
                    else if old(counter) == AddrTime(c) then addr + old(sr)[AddrGroups(c)..] else old(sr)
      ensures csN == if trigger then false else if old(counter) == AckTime(c) then true else old(csN)
      ensures dqOe == if trigger then true else if old(counter) == DummyTime(c) then false else old(dqOe)
      ensures ack == if old(counter) == AckTime(c) then true
                     else if old(counter) == AckTime(c) + 1 then false else old(ack)
      ensures counter == if old(counter) == LastTime(c) then 0
                         else if old(counter) != 0 then old(counter) + 1 else if trigger then 1 else 0
    {
      EventTimes(c);
      hide AddrTime, DummyTime, AckTime;
      if trigger {
        dqOe, csN, sr := true, false, c.cmd + sr[8..];
      }
      if counter == AddrTime(c) {
        sr := addr + sr[AddrGroups(c)..];
      }
      if counter == DummyTime(c) {
        dqOe := false;
      }
      if counter == AckTime(c) {
        ack, csN := true, true;
      }
      if counter == AckTime(c) + 1 {
        ack := false;
      }
      if counter == LastTime(c) {
        counter := 0;
      } else if counter != 0 {
        counter := counter + 1;
      } else if trigger {
        counter := 1;
      }
    }
  }
}
