/** Bit-banged I2C: the waveforms the firmware produces, and an independent observer that decodes them.

    The firmware drives SCL always and SDA only while output is enabled; otherwise the addressed slave drives SDA.  The
    observer knows nothing of the firmware: it follows sections 3.1.3 to 3.1.5 of the I2C-bus specification UM10204 on
    the two line levels. */
module I2cBus {
  import opened Types

  datatype Level = Level(scl: bool, sda: bool)

  /** What the slave does while the firmware listens for one bit: any levels while SCL is still low, then the bit. */
  datatype SlaveBit = SlaveBit(settling: seq<bool>, bit: bool)

  datatype Op =
    | Start
    | Stop
    | Write(byte: Byte, reply: SlaveBit)
    | Read(bits: seq<SlaveBit>, ack: bool)

  // ---------- the observer ----------

  datatype Event = StartSeen | StopSeen | BitSeen(bit: bool) | Violation

  datatype Sampled = Nothing | Latched(bit: bool)

  /** The current levels, the bit latched at the last rise of SCL, and the events so far. */
  datatype Observer = Observer(level: Level, latch: Sampled, events: seq<Event>)

  /** A bit is valid if SDA stays put for the whole high phase of SCL; a change during it is a start or stop condition.
      Changing both lines at once is a violation. */
  function See(o: Observer, n: Level): Observer {
    var p := o.level;
    if p.scl != n.scl && p.sda != n.sda then Observer(n, Nothing, o.events + [Violation])
    else if !p.scl && n.scl then Observer(n, Latched(n.sda), o.events)
    else if p.scl && n.scl && p.sda != n.sda then
      Observer(n, Nothing, o.events + [if n.sda then StopSeen else StartSeen])
    else if p.scl && !n.scl && o.latch.Latched? then Observer(n, Nothing, o.events + [BitSeen(o.latch.bit)])
    else Observer(n, o.latch, o.events)
  }

  function Watch(o: Observer, wave: seq<Level>): Observer
    decreases |wave|
  {
    if wave == [] then o else Watch(See(o, wave[0]), wave[1..])
  }

  lemma {:induction false} WatchConcat(o: Observer, a: seq<Level>, b: seq<Level>)
    ensures Watch(o, a + b) == Watch(Watch(o, a), b)
    decreases |a|
  {
    if a == [] {
      assert a + b == b;
    } else {
      assert (a + b)[1..] == a[1..] + b;
      WatchConcat(See(o, a[0]), a[1..], b);
    }
  }

  /** What a bus analyser reports: conditions, and bytes with their ninth bit. */
  datatype Item = StartItem | StopItem | ByteItem(data: seq<bool>, ninth: bool) | Broken

  /** Nine bits make a byte; they must not be interrupted. */
  function Parse(events: seq<Event>): seq<Item>
    decreases |events|
  {
    if events == [] then []
    else if events[0].StartSeen? then [StartItem] + Parse(events[1..])
    else if events[0].StopSeen? then [StopItem] + Parse(events[1..])
    else if |events| >= 9 && forall k :: 0 <= k < 9 ==> events[k].BitSeen? then
      [ByteItem(seq(8, k requires 0 <= k < 8 => events[k].bit), events[8].bit)] + Parse(events[9..])
    else [Broken]
  }

  // ---------- the waveforms ----------

  function WriteBitWave(bit: bool): seq<Level> {
    [Level(false, bit), Level(true, bit), Level(false, bit)]
  }

  function LowWave(levels: seq<bool>): seq<Level> {
    seq(|levels|, k requires 0 <= k < |levels| => Level(false, levels[k]))
  }

  function ReadBitWave(s: SlaveBit): seq<Level> {
    LowWave(s.settling) + WriteBitWave(s.bit)
  }

  function WriteBitsWave(bits: seq<bool>): seq<Level>
    decreases |bits|
  {
    if bits == [] then [] else WriteBitWave(bits[0]) + WriteBitsWave(bits[1..])
  }

  function ReadBitsWave(bits: seq<SlaveBit>): seq<Level>
    decreases |bits|
  {
    if bits == [] then [] else ReadBitWave(bits[0]) + ReadBitsWave(bits[1..])
  }

  function StartWave(started: bool): seq<Level> {
    (if started then [Level(false, true), Level(true, true)] else []) + [Level(true, false), Level(false, false)]
  }

  const STOP_WAVE := [Level(false, false), Level(true, false), Level(true, true)]

  /** `byte <<= 1`, then `byte |= bit`. */
  function ShiftIn(byte: Byte, bit: bool): Byte {
    byte[1..] + [bit]
  }

  function Driven(bits: seq<SlaveBit>): (b: seq<bool>)
    ensures |b| == |bits|
    ensures forall k :: 0 <= k < |b| ==> b[k] == bits[k].bit
  {
    seq(|bits|, k requires 0 <= k < |bits| => bits[k].bit)
  }

  function Wave(op: Op, started: bool): seq<Level> {
    match op
    case Start => StartWave(started)
    case Stop => STOP_WAVE
    case Write(data, ack) => WriteBitsWave(data) + ReadBitWave(ack)
    case Read(data, ack) => ReadBitsWave(data) + WriteBitWave(!ack)
  }

  /** The nine bits of one byte on the bus. */
  function Nine(op: Op): (bits: seq<bool>)
    requires op.Write? || op.Read?
  {
    match op
    case Write(data, ack) => data + [ack.bit]
    case Read(data, ack) => Driven(data) + [!ack]
  }

  /** A transfer is a start, then bytes and repeated starts, then a stop; reads are of whole bytes. */
  predicate WellBracketed(ops: seq<Op>, started: bool)
    decreases |ops|
  {
    if ops == [] then true
    else match ops[0]
      case Start => WellBracketed(ops[1..], true)
      case Stop => started && WellBracketed(ops[1..], false)
      case Write(_, _) => started && WellBracketed(ops[1..], true)
      case Read(data, _) => started && |data| == 8 && WellBracketed(ops[1..], true)
  }

  function StartedAfter(op: Op): bool {
    !op.Stop?
  }

  function WaveOf(ops: seq<Op>, started: bool): seq<Level>
    decreases |ops|
  {
    if ops == [] then [] else Wave(ops[0], started) + WaveOf(ops[1..], StartedAfter(ops[0]))
  }

  /** What was asked for, in the analyser's terms. */
  function ItemOf(op: Op): Item
    requires op.Read? ==> |op.bits| == 8
  {
    match op
    case Start => StartItem
    case Stop => StopItem
    case Write(data, ack) => ByteItem(data, ack.bit)
    case Read(data, ack) => ByteItem(Driven(data), !ack)
  }

  function ItemsOf(ops: seq<Op>, started: bool): seq<Item>
    requires WellBracketed(ops, started)
    decreases |ops|
  {
    if ops == [] then [] else [ItemOf(ops[0])] + ItemsOf(ops[1..], StartedAfter(ops[0]))
  }

  // ---------- decoding the waveforms ----------

  /** Between operations of a transfer SCL is low; outside one both lines are high. */
  predicate Ready(o: Observer, started: bool) {
    o.latch.Nothing? && if started then !o.level.scl else o.level == Level(true, true)
  }

  function BitEvents(bits: seq<bool>): (e: seq<Event>)
    ensures |e| == |bits|
  {
    seq(|bits|, k requires 0 <= k < |bits| => BitSeen(bits[k]))
  }

  lemma SeeBit(o: Observer, bit: bool)
    requires Ready(o, true)
    ensures var n := Watch(o, WriteBitWave(bit)); Ready(n, true) && n.events == o.events + BitEvents([bit])
  {
    var a, b, c := Level(false, bit), Level(true, bit), Level(false, bit);
    assert WriteBitWave(bit)[1..] == [b, c] && [b, c][1..] == [c] && [c][1..] == [];
    assert Watch(o, WriteBitWave(bit)) == See(See(See(o, a), b), c);
    assert BitEvents([bit]) == [BitSeen(bit)];
  }

  lemma {:induction false} SeeLow(o: Observer, levels: seq<bool>)
    requires Ready(o, true)
    ensures var n := Watch(o, LowWave(levels)); Ready(n, true) && n.events == o.events
    decreases |levels|
  {
    if levels != [] {
      assert LowWave(levels)[1..] == LowWave(levels[1..]);
      SeeLow(See(o, Level(false, levels[0])), levels[1..]);
    }
  }

  lemma SeeSlaveBit(o: Observer, s: SlaveBit)
    requires Ready(o, true)
    ensures var n := Watch(o, ReadBitWave(s)); Ready(n, true) && n.events == o.events + BitEvents([s.bit])
  {
    WatchConcat(o, LowWave(s.settling), WriteBitWave(s.bit));
    SeeLow(o, s.settling);
    SeeBit(Watch(o, LowWave(s.settling)), s.bit);
  }

  lemma BitEventsConcat(a: seq<bool>, b: seq<bool>)
    ensures BitEvents(a + b) == BitEvents(a) + BitEvents(b)
  {
  }

  lemma {:induction false} SeeBits(o: Observer, bits: seq<bool>)
    requires Ready(o, true)
    ensures var n := Watch(o, WriteBitsWave(bits)); Ready(n, true) && n.events == o.events + BitEvents(bits)
    decreases |bits|
  {
    if bits != [] {
      WatchConcat(o, WriteBitWave(bits[0]), WriteBitsWave(bits[1..]));
      SeeBit(o, bits[0]);
      SeeBits(Watch(o, WriteBitWave(bits[0])), bits[1..]);
      BitEventsConcat([bits[0]], bits[1..]);
      assert [bits[0]] + bits[1..] == bits;
    }
  }

  lemma {:induction false} SeeSlaveBits(o: Observer, bits: seq<SlaveBit>)
    requires Ready(o, true)
    ensures var n := Watch(o, ReadBitsWave(bits)); Ready(n, true) && n.events == o.events + BitEvents(Driven(bits))
    decreases |bits|
  {
    if bits != [] {
      WatchConcat(o, ReadBitWave(bits[0]), ReadBitsWave(bits[1..]));
      SeeSlaveBit(o, bits[0]);
      SeeSlaveBits(Watch(o, ReadBitWave(bits[0])), bits[1..]);
      BitEventsConcat([bits[0].bit], Driven(bits[1..]));
      assert [bits[0].bit] + Driven(bits[1..]) == Driven(bits);
    }
  }

  function EventsOf(op: Op): seq<Event> {
    match op
    case Start => [StartSeen]
    case Stop => [StopSeen]
    case Write(_, _) => BitEvents(Nine(op))
    case Read(_, _) => BitEvents(Nine(op))
  }

  lemma SeeStart(o: Observer, started: bool)
    requires Ready(o, started)
    ensures var n := Watch(o, StartWave(started)); Ready(n, true) && n.events == o.events + [StartSeen]
  {
    var w := [Level(true, false), Level(false, false)];
    assert w[1..] == [Level(false, false)] && [Level(false, false)][1..] == [];
    if started {
      var r := [Level(false, true), Level(true, true)];
      assert r[1..] == [Level(true, true)] && [Level(true, true)][1..] == [];
      WatchConcat(o, r, w);
    } else {
      assert StartWave(started) == w;
    }
  }

  lemma SeeStop(o: Observer)
    requires Ready(o, true)
    ensures var n := Watch(o, STOP_WAVE); Ready(n, false) && n.events == o.events + [StopSeen]
  {
    assert STOP_WAVE[1..] == [Level(true, false), Level(true, true)];
    assert [Level(true, false), Level(true, true)][1..] == [Level(true, true)] && [Level(true, true)][1..] == [];
  }

  lemma SeeOp(o: Observer, op: Op, started: bool)
    requires Ready(o, started) && (started || op.Start?)
    ensures var n := Watch(o, Wave(op, started)); Ready(n, StartedAfter(op)) && n.events == o.events + EventsOf(op)
  {
    match op
    case Start => SeeStart(o, started);
    case Stop => SeeStop(o);
    case Write(data, ack) =>
      WatchConcat(o, WriteBitsWave(data), ReadBitWave(ack));
      SeeBits(o, data);
      SeeSlaveBit(Watch(o, WriteBitsWave(data)), ack);
      BitEventsConcat(data, [ack.bit]);
    case Read(data, ack) =>
      WatchConcat(o, ReadBitsWave(data), WriteBitWave(!ack));
      SeeSlaveBits(o, data);
      SeeBit(Watch(o, ReadBitsWave(data)), !ack);
      BitEventsConcat(Driven(data), [!ack]);
  }

  function AllEvents(ops: seq<Op>): seq<Event>
    decreases |ops|
  {
    if ops == [] then [] else EventsOf(ops[0]) + AllEvents(ops[1..])
  }

  lemma {:induction false} SeeOps(o: Observer, ops: seq<Op>, started: bool)
    requires Ready(o, started) && WellBracketed(ops, started)
    ensures Watch(o, WaveOf(ops, started)).events == o.events + AllEvents(ops)
    decreases |ops|
  {
    if ops != [] {
      FirstOp(ops, started);
      hide Watch, Wave, EventsOf, WaveOf, AllEvents, WellBracketed, Ready, StartedAfter;
      var wave, next, rest := Wave(ops[0], started), StartedAfter(ops[0]), ops[1..];
      WatchConcat(o, wave, WaveOf(rest, next));
      SeeOp(o, ops[0], started);
      SeeOps(Watch(o, wave), rest, next);
      Joined(o.events, EventsOf(ops[0]), AllEvents(rest));
    }
  }

  lemma Joined<T>(a: seq<T>, b: seq<T>, c: seq<T>)
    ensures (a + b) + c == a + (b + c)
  {
  }

  lemma FirstOp(ops: seq<Op>, started: bool)
    requires ops != [] && WellBracketed(ops, started)
    ensures WellBracketed(ops[1..], StartedAfter(ops[0])) && (started || ops[0].Start?)
    ensures ops[0].Read? ==> |ops[0].bits| == 8
    ensures WaveOf(ops, started) == Wave(ops[0], started) + WaveOf(ops[1..], StartedAfter(ops[0]))
    ensures AllEvents(ops) == EventsOf(ops[0]) + AllEvents(ops[1..])
  {
  }

  /** The analyser reports one item per operation. */
  lemma ParseOp(op: Op, rest: seq<Event>)
    requires op.Read? ==> |op.bits| == 8
    ensures Parse(EventsOf(op) + rest) == [ItemOf(op)] + Parse(rest)
  {
    var e := EventsOf(op) + rest;
    if op.Write? || op.Read? {
      var nine := Nine(op);
      assert forall k :: 0 <= k < 9 ==> e[k] == BitSeen(nine[k]);
      assert e[9..] == rest;
      assert seq(8, k requires 0 <= k < 8 => e[k].bit) == nine[..8];
    } else {
      assert e[1..] == rest;
    }
  }

  lemma {:induction false} ParseOps(ops: seq<Op>, started: bool)
    requires WellBracketed(ops, started)
    ensures Parse(AllEvents(ops)) == ItemsOf(ops, started)
    decreases |ops|
  {
    if ops != [] {
      ParseOp(ops[0], AllEvents(ops[1..]));
      ParseOps(ops[1..], StartedAfter(ops[0]));
    }
  }

  const IDLE := Observer(Level(true, true), Nothing, [])

  /** Main result: the bus carries exactly what was asked for.  An observer of the two lines alone gets back the list of
      conditions and bytes, with no violation, whatever the slave does. */
  lemma WaveformRoundTrip(ops: seq<Op>)
    requires WellBracketed(ops, false)
    ensures Parse(Watch(IDLE, WaveOf(ops, false)).events) == ItemsOf(ops, false)
  {
    SeeOps(IDLE, ops, false);
    assert IDLE.events + AllEvents(ops) == AllEvents(ops);
    ParseOps(ops, false);
  }

  // ---------- the firmware ----------

  /** The bits of the output register: the SCL level, the SDA output enable and the SDA level. */
  datatype Pins = Pins(scl: bool, sdaOe: bool, sdaOut: bool)

  /** The bus master.  `wave` records the two line levels at every register write and every move of the slave. */
  class I2c {
    var w: Pins
    var started: bool
    ghost var wave: seq<Level>

    constructor ()
      ensures !started && wave == [] && w == Pins(true, false, false)
    {
      w, started := Pins(true, false, false), false;
      wave := [];
    }

    /** Writes the output register; `released` is the level of SDA when the master does not drive it. */
    method WriteW(value: Pins, ghost released: bool)
      modifies `w, `wave
      ensures w == value
      ensures wave == old(wave) + [Level(value.scl, if value.sdaOe then value.sdaOut else released)]
    {
      w := value;
      wave := wave + [Level(value.scl, if value.sdaOe then value.sdaOut else released)];
    }

    method ReadBit(slave: SlaveBit) returns (bit: bool)
      modifies `w, `wave
      ensures wave == old(wave) + ReadBitWave(slave)
      ensures bit == slave.bit
    {
      // SDA is let go while SCL is low, and the slave settles on its bit
      w := Pins(false, false, false);
      wave := wave + LowWave(slave.settling) + [Level(false, slave.bit)];
      WriteW(Pins(true, false, false), slave.bit);
      bit := slave.bit;
      WriteW(Pins(false, false, false), slave.bit);
    }

    method WriteBit(bit: bool)
      modifies `w, `wave
      ensures wave == old(wave) + WriteBitWave(bit)
    {
      if bit {
        WriteW(Pins(false, true, true), true);
      } else {
        WriteW(Pins(false, true, false), true);
      }
      WriteW(w.(scl := true), true);
      WriteW(w.(scl := false), true);
    }

    method StartCond()
      modifies this
      ensures started && wave == old(wave) + StartWave(old(started))
    {
      if started {
        WriteW(Pins(false, true, true), true);
        WriteW(w.(scl := true), true);
      }
      WriteW(Pins(true, true, false), true);
      WriteW(Pins(false, true, false), true);
      started := true;
    }

    method StopCond()
      modifies this
      ensures !started && wave == old(wave) + STOP_WAVE
    {
      WriteW(Pins(false, true, false), true);
      WriteW(Pins(true, true, false), true);
      WriteW(Pins(true, false, false), true);
      started := false;
    }

    /** The loop that sends the bits of a byte, always the topmost one. */
    method WriteBits(byte: Byte)
      modifies `w, `wave
      ensures wave == old(wave) + WriteBitsWave(byte)
    {
      var shifted, bit := byte, 0;
      while bit < 8
        invariant 0 <= bit <= 8
        invariant forall k :: 0 <= k < 8 - bit ==> shifted[k] == byte[bit + k]
        invariant wave + WriteBitsWave(byte[bit..]) == old(wave) + WriteBitsWave(byte)
      {
        ghost var rest, before := byte[bit..], wave;
        WriteBit(shifted[0]);
        shifted := ShiftIn(shifted, false);
        bit := bit + 1;
        assert rest[1..] == byte[bit..];
        assert before + WriteBitsWave(rest) == wave + WriteBitsWave(rest[1..]);
      }
      assert wave + [] == wave;
    }

    /** The loop that collects the bits the slave drives. */
    method ReadBits(bits: seq<SlaveBit>) returns (byte: Byte)
      requires |bits| == 8
      modifies `w, `wave
      ensures wave == old(wave) + ReadBitsWave(bits)
      ensures byte == Driven(bits)
    {
      hide ReadBitWave;
      byte := ZERO_BYTE;
      var bit := 0;
      while bit < 8
        invariant 0 <= bit <= 8
        invariant forall k :: 0 <= k < bit ==> byte[8 - bit + k] == bits[k].bit
        invariant wave + ReadBitsWave(bits[bit..]) == old(wave) + ReadBitsWave(bits)
      {
        ghost var rest, before := bits[bit..], wave;
        var b := ReadBit(bits[bit]);
        byte := ShiftIn(byte, b);
        bit := bit + 1;
        assert rest[1..] == bits[bit..];
        assert before + ReadBitsWave(rest) == wave + ReadBitsWave(rest[1..]);
      }
      assert wave + [] == wave;
    }

    /** Sends a byte and returns whether it was acknowledged. */
    method Write(byte: Byte, reply: SlaveBit) returns (ack: bool)
      modifies `w, `wave
      ensures wave == old(wave) + Wave(Op.Write(byte, reply), true)
      ensures ack == !reply.bit
    {
      WriteBits(byte);
      var low := ReadBit(reply);
      ack := !low;
    }

    /** Receives a byte: the bits the slave drove, in order. */
    method Read(bits: seq<SlaveBit>, ack: bool) returns (byte: Byte)
      requires |bits| == 8
      modifies `w, `wave
      ensures wave == old(wave) + Wave(Op.Read(bits, ack), true)
      ensures byte == Driven(bits)
    {
      byte := ReadBits(bits);
      WriteBit(!ack);
    }

    /** One operation, and what the firmware learns from it. */
    method Perform(op: Op) returns (answer: seq<bool>)
      requires (started || op.Start?) && (op.Read? ==> |op.bits| == 8)
      modifies this
      ensures wave == old(wave) + Wave(op, old(started)) && started == StartedAfter(op)
      ensures answer == Answer(op)
    {
      answer := [];
      match op {
        case Start => StartCond();
        case Stop => StopCond();
        case Write(byte, reply) =>
          var ack := Write(byte, reply);
          answer := [ack];
        case Read(bits, ack) =>
          answer := Read(bits, ack);
      }
    }

    /** Any bracketed list of operations.  On a fresh bus an observer of the lines reads the list back. */
    method Transfer(ops: seq<Op>) returns (answers: seq<seq<bool>>)
      requires WellBracketed(ops, started)
      modifies this
      ensures wave == old(wave) + WaveOf(ops, old(started))
      ensures |answers| == |ops| && forall k :: 0 <= k < |ops| ==> answers[k] == Answer(ops[k])
      ensures old(!started && wave == []) ==> Parse(Watch(IDLE, wave).events) == ItemsOf(ops, false)
    {
      hide Wave, WaveOf, WellBracketed, StartedAfter, Parse, Watch, ItemsOf, Answer;
      answers := [];
      assert ops[0..] == ops;
      NoWave(started);
      while |answers| < |ops|
        invariant |answers| <= |ops| && WellBracketed(ops[|answers|..], started)
        invariant forall k :: 0 <= k < |answers| ==> answers[k] == Answer(ops[k])
        invariant wave + WaveOf(ops[|answers|..], started) == old(wave) + WaveOf(ops, old(started))
      {
        ghost var rest, before, was := ops[|answers|..], wave, started;
        FirstOp(rest, was);
        var answer := Perform(ops[|answers|]);
        answers := answers + [answer];
        assert rest[1..] == ops[|answers|..];
        Joined(before, Wave(rest[0], was), WaveOf(rest[1..], started));
      }
      assert ops[|answers|..] == [];
      NoWave(started);
      assert wave + [] == wave;
      if old(!started && wave == []) {
        assert [] + WaveOf(ops, false) == WaveOf(ops, false);
        WaveformRoundTrip(ops);
      }
    }
  }

  /** The acknowledge of a written byte, or the byte read. */
  function Answer(op: Op): seq<bool> {
    match op
    case Write(_, reply) => [!reply.bit]
    case Read(bits, _) => Driven(bits)
    case _ => []
  }

  lemma NoWave(started: bool)
    ensures WaveOf([], started) == []
  {
  }
}
