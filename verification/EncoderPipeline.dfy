/** The encoder front end as wired on the board: address generator, memory reads, clock-crossing FIFO, ping-pong buffer.

    The memory reader and the FIFO between the two modules are taken to preserve order; how long each of them holds a word
    back is free at every edge, and so is the consumer of the pixels.  Frames are started one after the other, each as soon
    as the reader is done with the last, whatever of that is still on its way to the consumer. */
module EncoderPipeline {
  import DivMod
  import R = EncoderReader
  import B = EncoderBuffer
  import opened Types

  /** What the memory returns for each word address while a frame is read. */
  type Memory = nat -> B.Row

  /** The dimensions and base programmed for a frame, and the memory it is read from. */
  datatype Frame = Frame(c: R.Config, mem: Memory, base: nat)

  /** The deployed port is 128 bits wide: eight pixels per burst. */
  predicate GoodFrame(f: Frame) {
    R.BlockAligned(f.c) && f.c.burst == 8
  }

  /** The frames started since reset, the reader's progress in the last of them, the FIFO, and the buffer. */
  datatype State = State(frames: seq<Frame>, reader: R.Trace, queue: seq<B.Row>, buffer: B.Trace)

  const RESET := State([], R.Trace(R.RESET, []), [], B.START)

  /** A start pulse / memory accepts a request / the FIFO offers its oldest word / the consumer takes a pixel. */
  datatype Event = Event(start: Option<Frame>, request: bool, deliver: bool, ready: bool)

  predicate WellFormed(s: State) {
    && B.WellFormed(s.buffer.state)
    && (forall k :: 0 <= k < |s.frames| ==> GoodFrame(s.frames[k]))
    && (s.frames == [] ==> s.reader.state.fsm.Idle?)
  }

  function Current(s: State): (f: Frame)
    requires WellFormed(s) && s.frames != []
    ensures GoodFrame(f)
  {
    s.frames[|s.frames| - 1]
  }

  /** Frames are started only while the reader is done. */
  predicate GoodEvent(s: State, e: Event) {
    e.start.Some? ==> s.reader.state.fsm.Idle? && GoodFrame(e.start.value)
  }

  function BufferInput(s: State, e: Event): B.Input {
    B.Input(e.deliver && s.queue != [], if s.queue != [] then s.queue[0] else B.ZERO_ROW, e.ready)
  }

  /** The word requested at this edge, if any. */
  function Fetched(s: State, e: Event): seq<B.Row>
    requires WellFormed(s)
  {
    var r := s.reader.state;
    if r.fsm.Read? && e.request then [Current(s).mem(R.Address(Current(s).c, r.base, r.h, r.v))] else []
  }

  function NextReader(s: State, e: Event): R.Trace
    requires WellFormed(s)
  {
    if e.start.Some? then R.Started(e.start.value.base)
    else if s.frames == [] then s.reader
    else R.Step(Current(s).c, s.reader, e.request)
  }

  function Step(s: State, e: Event): (n: State)
    requires WellFormed(s) && GoodEvent(s, e)
    ensures WellFormed(n)
  {
    var delivered := B.Stored(s.buffer.state, BufferInput(s, e));
    State(if e.start.Some? then s.frames + [e.start.value] else s.frames,
          NextReader(s, e),
          (if delivered then s.queue[1..] else s.queue) + Fetched(s, e),
          B.Step(s.buffer, BufferInput(s, e)))
  }

  /** Every start of the run comes while the reader is done. */
  predicate GoodRun(s: State, events: seq<Event>)
    requires WellFormed(s)
    decreases |events|
  {
    events == [] || (GoodEvent(s, events[0]) && GoodRun(Step(s, events[0]), events[1..]))
  }

  function Run(s: State, events: seq<Event>): (n: State)
    requires WellFormed(s) && GoodRun(s, events)
    ensures WellFormed(n)
    decreases |events|
  {
    if events == [] then s else Run(Step(s, events[0]), events[1..])
  }

  // ---------- the specification ----------

  /** The word that holds pixel (x, y) of the frame. */
  function WordOfPixel(f: Frame, x: nat, y: nat): nat
    requires GoodFrame(f)
  {
    (f.base / 16 + (y * f.c.width + x) / 8) % f.c.words
  }

  /** Eight pixels per word, the leftmost in the top lane. */
  function FramePixel(f: Frame, x: nat, y: nat): B.Pixel
    requires GoodFrame(f)
  {
    f.mem(WordOfPixel(f, x, y)).Lane(7 - x % 8)
  }

  function FrameSize(f: Frame): nat {
    f.c.width * f.c.height
  }

  /** The number of memory words in a frame. */
  function Bursts(f: Frame): nat
    requires GoodFrame(f)
  {
    R.Total(R.GeometryOf(f.c))
  }

  /** Beat `k` of the frame: blocks left to right and top to bottom, lines top to bottom inside a block. */
  function FrameBeat(f: Frame, k: nat): B.Beat
    requires GoodFrame(f)
  {
    var block, y, x := k / 64, k % 64 / 8, k % 8;
    var cols := f.c.width / 8;
    B.Beat(FramePixel(f, 8 * (block % cols) + x, 8 * (block / cols) + y), k % 64 == 63)
  }

  function FrameBeats(f: Frame): seq<B.Beat>
    requires GoodFrame(f)
  {
    seq(FrameSize(f), k requires 0 <= k < FrameSize(f) => FrameBeat(f, k))
  }

  predicate GoodFrames(frames: seq<Frame>) {
    forall k :: 0 <= k < |frames| ==> GoodFrame(frames[k])
  }

  /** The pixels of the frames, one frame after the other. */
  function AllBeats(frames: seq<Frame>): seq<B.Beat>
    requires GoodFrames(frames)
  {
    if frames == [] then [] else AllBeats(frames[..|frames| - 1]) + FrameBeats(frames[|frames| - 1])
  }

  // ---------- the words of the frames ----------

  function FrameWords(f: Frame): (w: seq<B.Row>)
    requires GoodFrame(f)
    ensures |w| == Bursts(f)
  {
    seq(Bursts(f), k requires 0 <= k < Bursts(f) => f.mem(R.AddressOfBurst(f.c, f.base, k)))
  }

  function AllWords(frames: seq<Frame>): seq<B.Row>
    requires GoodFrames(frames)
  {
    if frames == [] then [] else AllWords(frames[..|frames| - 1]) + FrameWords(frames[|frames| - 1])
  }

  function Words(mem: Memory, addresses: seq<nat>): (w: seq<B.Row>)
    ensures |w| == |addresses|
    ensures forall k :: 0 <= k < |w| ==> w[k] == mem(addresses[k])
  {
    seq(|addresses|, k requires 0 <= k < |addresses| => mem(addresses[k]))
  }

  /** The words of all earlier frames and of the last one as far as it was requested. */
  function Requested(s: State): seq<B.Row>
    requires WellFormed(s)
  {
    if s.frames == [] then []
    else AllWords(s.frames[..|s.frames| - 1]) + Words(Current(s).mem, s.reader.addresses)
  }

  // ---------- invariant ----------

  ghost predicate ReaderInv(s: State)
    requires WellFormed(s)
  {
    if s.frames == [] then s.reader.addresses == [] else R.OnTrack(Current(s).c, s.reader, Current(s).base)
  }

  /** Every word requested so far is either in the FIFO or was accepted by the buffer, in order. */
  ghost predicate Inv(s: State) {
    && WellFormed(s)
    && ReaderInv(s)
    && B.Inv(s.buffer)
    && s.buffer.accepted + s.queue == Requested(s)
  }

  /** Moving the oldest word from the FIFO to the buffer changes nothing in the row of words. */
  lemma DeliveryKeepsOrder(s: State, e: Event, fetched: seq<B.Row>)
    requires WellFormed(s)
    ensures var b := BufferInput(s, e);
            B.Step(s.buffer, b).accepted + ((if B.Stored(s.buffer.state, b) then s.queue[1..] else s.queue) + fetched)
            == s.buffer.accepted + s.queue + fetched
  {
    if B.Stored(s.buffer.state, BufferInput(s, e)) {
      assert s.queue == [s.queue[0]] + s.queue[1..];
    }
  }

  /** A done reader has requested all words of all frames. */
  lemma DoneRequestedAll(s: State)
    requires WellFormed(s) && ReaderInv(s) && s.reader.state.fsm.Idle?
    ensures Requested(s) == AllWords(s.frames)
  {
    if s.frames != [] {
      assert Words(Current(s).mem, s.reader.addresses) == FrameWords(Current(s));
    }
  }

  lemma StepKeepsReader(s: State, e: Event)
    requires WellFormed(s) && ReaderInv(s) && GoodEvent(s, e)
    ensures ReaderInv(Step(s, e)) && Requested(Step(s, e)) == Requested(s) + Fetched(s, e)
  {
    if e.start.Some? {
      StartKeepsReader(s, e);
    } else if s.frames != [] {
      RequestKeepsReader(s, e);
    }
  }

  /** A start pulse: all of the frames before has been requested, and nothing of the new one. */
  lemma StartKeepsReader(s: State, e: Event)
    requires WellFormed(s) && ReaderInv(s) && GoodEvent(s, e) && e.start.Some?
    ensures ReaderInv(Step(s, e)) && Requested(Step(s, e)) == Requested(s) && Fetched(s, e) == []
  {
    DoneRequestedAll(s);
    R.StartedIsOnTrack(e.start.value.c, e.start.value.base);
    hide R.OnTrack, B.Step, AllWords;
    var n := Step(s, e);
    assert n.frames[..|s.frames|] == s.frames && Words(Current(n).mem, []) == [];
  }

  lemma RequestKeepsReader(s: State, e: Event)
    requires WellFormed(s) && ReaderInv(s) && e.start.None? && s.frames != []
    ensures ReaderInv(Step(s, e)) && Requested(Step(s, e)) == Requested(s) + Fetched(s, e)
  {
    R.StepStaysOnTrack(Current(s).c, s.reader, Current(s).base, e.request);
    WordsOneMore(s, e);
    hide R.OnTrack, B.Step, AllWords, Words, Fetched, R.Next, R.Address;
    Joined(AllWords(s.frames[..|s.frames| - 1]), Words(Current(s).mem, s.reader.addresses), Fetched(s, e));
  }

  lemma WordsOneMore(s: State, e: Event)
    requires WellFormed(s) && e.start.None? && s.frames != []
    ensures Words(Current(s).mem, NextReader(s, e).addresses) ==
            Words(Current(s).mem, s.reader.addresses) + Fetched(s, e)
  {
    hide R.Next, R.Address;
  }

  lemma Joined(a: seq<B.Row>, b: seq<B.Row>, c: seq<B.Row>)
    ensures (a + b) + c == a + (b + c)
  {
  }

  lemma StepKeepsInv(s: State, e: Event)
    requires Inv(s) && GoodEvent(s, e)
    ensures Inv(Step(s, e))
  {
    StepKeepsReader(s, e);
    B.StepKeepsInv(s.buffer, BufferInput(s, e));
    DeliveryKeepsOrder(s, e, Fetched(s, e));
  }

  lemma {:induction false} RunKeepsInv(s: State, events: seq<Event>)
    requires Inv(s) && GoodRun(s, events)
    ensures Inv(Run(s, events))
    decreases |events|
  {
    if events != [] {
      StepKeepsInv(s, events[0]);
      RunKeepsInv(Step(s, events[0]), events[1..]);
    }
  }

  /** Nothing is requested that does not belong to a frame. */
  lemma RequestedOfFrames(s: State)
    requires WellFormed(s) && ReaderInv(s)
    ensures Requested(s) <= AllWords(s.frames)
    ensures |Requested(s)| == |AllWords(s.frames)| <==> s.reader.state.fsm.Idle?
  {
    if s.frames != [] {
      assert Words(Current(s).mem, s.reader.addresses) <= FrameWords(Current(s));
    }
  }

  // ---------- the words are the frames' blocks ----------

  lemma PlaceOfWideBurst(f: Frame, k: nat)
    requires GoodFrame(f)
    ensures R.PlaceAt(R.GeometryOf(f.c), k) == R.Place(k / 8 / (f.c.width / 8), k / 8 % (f.c.width / 8), k % 8, 0)
  {
    assert R.GeometryOf(f.c).subs == 1 && k / 1 == k;
  }

  lemma SameWord(width: nat, y: nat, col: nat, x: nat)
    requires width % 8 == 0 && x < 8
    ensures (y * width + (8 * col + x)) / 8 == (y * width + 8 * col) / 8
  {
    var z := y * (width / 8);
    assert y * width == 8 * z;
    assert (8 * z + (8 * col + x)) / 8 == z + col;
  }

  /** The eight pixels of a column group share the word the reader asks for. */
  lemma WideAddress(f: Frame, col: nat, y: nat, x: nat)
    requires GoodFrame(f) && x < 8
    ensures R.Address(f.c, f.base, 8 * col, y) == WordOfPixel(f, 8 * col + x, y)
  {
    SameWord(f.c.width, y, col, x);
    var word := (y * f.c.width + 8 * col) / 8;
    assert R.Address(f.c, f.base, 8 * col, y) == (f.base / 16 + word) % f.c.words;
  }

  /** The word read for column group `col` of line `y` holds pixel `x` of the group in lane `7 - x`. */
  lemma BurstHoldsPixel(f: Frame, col: nat, y: nat, x: nat)
    requires GoodFrame(f) && x < 8
    ensures f.mem(R.Address(f.c, f.base, 8 * col, y)).Lane(7 - x) == FramePixel(f, 8 * col + x, y)
  {
    hide R.Address, WordOfPixel;
    WideAddress(f, col, y, x);
    assert (8 * col + x) % 8 == x;
  }

  /** Blocks of 64 beats, lines of eight. */
  lemma DigitsOfBeat(k: nat)
    ensures k / 8 / 8 == k / 64 && k / 8 % 8 == k % 64 / 8
  {
  }

  /** The beats of burst `k` are eight consecutive beats of the frame. */
  lemma BurstIsEightBeats(f: Frame, k: nat)
    requires GoodFrame(f)
    ensures f.mem(R.AddressOfBurst(f.c, f.base, k / 8)).Lane(7 - k % 8) == FrameBeat(f, k).data
  {
    hide R.Address, WordOfPixel;
    var cols := f.c.width / 8;
    var row, col, line := k / 64 / cols, k / 64 % cols, k % 64 / 8;
    DigitsOfBeat(k);
    PlaceOfWideBurst(f, k / 8);
    assert R.AddressOfBurst(f.c, f.base, k / 8) == R.Address(f.c, f.base, 8 * col, 8 * row + line);
    BurstHoldsPixel(f, col, 8 * row + line, k % 8);
  }

  lemma FrameSizeInBursts(f: Frame)
    requires GoodFrame(f)
    ensures FrameSize(f) == 8 * Bursts(f) && Bursts(f) % 8 == 0
  {
    var blocks := (f.c.width / 8) * (f.c.height / 8);
    assert f.c.width * f.c.height == 64 * blocks && Bursts(f) == 8 * blocks;
  }

  /** A stream of rows, unpacked. */
  function UnpackAll(rows: seq<B.Row>): (beats: seq<B.Beat>)
    ensures |beats| == 8 * |rows|
  {
    seq(8 * |rows|, k requires 0 <= k < 8 * |rows| => B.Unpacked(rows, k))
  }

  lemma UnpackedBehind(a: seq<B.Row>, b: seq<B.Row>, k: nat)
    requires |a| % 8 == 0 && k < 8 * |b|
    ensures B.Unpacked(a + b, 8 * |a| + k) == B.Unpacked(b, k)
  {
    var n := 8 * |a| + k;
    DivMod.Unique(n, 8, |a| + k / 8, k % 8);
    DivMod.Unique(n, 64, |a| / 8 + k / 64, k % 64);
  }

  lemma UnpackedBefore(a: seq<B.Row>, b: seq<B.Row>, k: nat)
    requires k < 8 * |a|
    ensures B.Unpacked(a + b, k) == B.Unpacked(a, k)
  {
  }

  /** Rows that come after whole blocks are unpacked as if they came first. */
  lemma UnpackConcat(a: seq<B.Row>, b: seq<B.Row>)
    requires |a| % 8 == 0
    ensures UnpackAll(a + b) == UnpackAll(a) + UnpackAll(b)
  {
    hide B.Unpacked;
    forall k | 0 <= k < 8 * |a| ensures UnpackAll(a + b)[k] == UnpackAll(a)[k] {
      UnpackedBefore(a, b, k);
    }
    forall k | 0 <= k < 8 * |b| ensures UnpackAll(a + b)[8 * |a| + k] == UnpackAll(b)[k] {
      UnpackedBehind(a, b, k);
    }
  }

  lemma UnpackFrame(f: Frame)
    requires GoodFrame(f)
    ensures UnpackAll(FrameWords(f)) == FrameBeats(f)
  {
    FrameSizeInBursts(f);
    forall k | 0 <= k < FrameSize(f) ensures B.Unpacked(FrameWords(f), k) == FrameBeat(f, k) {
      BurstIsEightBeats(f, k);
    }
  }

  lemma {:induction false} UnpackFrames(frames: seq<Frame>)
    requires GoodFrames(frames)
    ensures |AllWords(frames)| % 8 == 0 && UnpackAll(AllWords(frames)) == AllBeats(frames)
  {
    hide UnpackAll, FrameWords, FrameBeats, Bursts, FrameSize;
    if frames == [] {
      assert UnpackAll([]) == [];
    } else {
      var init, last := frames[..|frames| - 1], frames[|frames| - 1];
      UnpackFrames(init);
      FrameSizeInBursts(last);
      UnpackConcat(AllWords(init), FrameWords(last));
      UnpackFrame(last);
    }
  }

  /** What the buffer has emitted is a prefix of its rows unpacked, and these are a prefix of the frames. */
  lemma EmittedOfFrames(s: State)
    requires Inv(s)
    ensures s.buffer.emitted <= AllBeats(s.frames)
  {
    RequestedOfFrames(s);
    UnpackFrames(s.frames);
    var rows, emitted := AllWords(s.frames), s.buffer.emitted;
    assert s.buffer.accepted <= s.buffer.accepted + s.queue;
    assert s.buffer.accepted <= rows;
    forall k | 0 <= k < |emitted| ensures emitted[k] == UnpackAll(rows)[k] {
      assert emitted[k] == B.Unpacked(s.buffer.accepted, k);
    }
  }

  /** Main result: over every run from reset, with frames started whenever the reader is done and whatever the three stall
      signals do, what left the buffer is the beginning of all frames' pixels, one frame after the other, each in block
      order with `last` on every 64th beat. */
  lemma EndToEnd(events: seq<Event>)
    requires GoodRun(RESET, events)
    ensures var s := Run(RESET, events); s.buffer.emitted <= AllBeats(s.frames)
  {
    RunKeepsInv(RESET, events);
    EmittedOfFrames(Run(RESET, events));
  }

  // ---------- the frames complete ----------

  predicate Complete(s: State) {
    s.reader.state.fsm.Idle? && s.queue == [] && |s.buffer.emitted| == 8 * |s.buffer.accepted|
  }

  lemma CompleteIff(s: State)
    requires Inv(s)
    ensures s.buffer.emitted == AllBeats(s.frames) <==> Complete(s)
  {
    EmittedOfFrames(s);
    RequestedOfFrames(s);
    UnpackFrames(s.frames);
    assert |s.buffer.accepted| + |s.queue| == |Requested(s)|;
  }

  /** Reader, FIFO and buffer have come to rest exactly when all started frames were emitted whole. */
  lemma CompleteIsWholeFrame(events: seq<Event>)
    requires GoodRun(RESET, events)
    ensures var s := Run(RESET, events); s.buffer.emitted == AllBeats(s.frames) <==> Complete(s)
  {
    RunKeepsInv(RESET, events);
    CompleteIff(Run(RESET, events));
  }

  /** Requests, deliveries and beats still to come, plus the odd cycle in which both buffer machines turn around. */
  function Work(s: State): int
    requires WellFormed(s)
  {
    var total := |AllWords(s.frames)|;
    2 * (total - |Requested(s)|)
    + 2 * (total - |s.buffer.accepted|)
    + 2 * (8 * total - |s.buffer.emitted|)
    + if B.SinkReady(s.buffer.state) || B.SourceValid(s.buffer.state) then 0 else 1
  }

  predicate Willing(e: Event) {
    e.start.None? && e.request && e.deliver && e.ready
  }

  /** Nothing to request, nothing to deliver, nothing to emit. */
  predicate Stuck(s: State) {
    s.reader.state.fsm.Idle? && s.queue == [] && B.SinkReady(s.buffer.state) && !B.SourceValid(s.buffer.state)
  }

  /** A buffer that has accepted whole blocks only, and has nothing to offer, is drained. */
  lemma WaitingIsDrained(t: B.Trace)
    requires B.Inv(t) && B.SinkReady(t.state) && !B.SourceValid(t.state) && |t.accepted| % 8 == 0
    ensures |t.emitted| == 8 * |t.accepted|
  {
    assert t.state.w.v == 0;
  }

  lemma StuckIsComplete(s: State)
    requires Inv(s) && Stuck(s)
    ensures Complete(s)
  {
    DoneRequestedAll(s);
    UnpackFrames(s.frames);
    assert s.buffer.accepted == AllWords(s.frames);
    WaitingIsDrained(s.buffer);
  }

  /** A willing cycle changes the three counts of `Work` as the handshakes say. */
  lemma WillingCounts(s: State, e: Event)
    requires Inv(s) && Willing(e)
    ensures var n := Step(s, e);
            && n.frames == s.frames
            && |Requested(n)| == |Requested(s)| + (if s.reader.state.fsm.Read? then 1 else 0)
            && |n.buffer.accepted| == |s.buffer.accepted| + (if B.SinkReady(s.buffer.state) && s.queue != [] then 1 else 0)
            && |n.buffer.emitted| == |s.buffer.emitted| + (if B.SourceValid(s.buffer.state) then 1 else 0)
  {
    StepKeepsReader(s, e);
  }

  /** No willing cycle is wasted: either everything is out or there is less to do. */
  lemma WillingCycleProgresses(s: State, e: Event)
    requires Inv(s) && Willing(e)
    ensures Work(s) >= 0
    ensures Complete(s) || Work(Step(s, e)) < Work(s)
  {
    RequestedOfFrames(s);
    EmittedOfFrames(s);
    UnpackFrames(s.frames);
    assert |s.buffer.accepted| + |s.queue| == |Requested(s)|;
    WillingCounts(s, e);
    NextIsActive(s, e);
    if Stuck(s) {
      StuckIsComplete(s);
    }
    hide Inv, Step, Requested, AllWords, AllBeats, UnpackAll;
  }

  /** A cycle in which the buffer neither accepts nor offers is followed by one in which it does. */
  lemma NextIsActive(s: State, e: Event)
    requires Inv(s) && Willing(e)
    ensures var b, n := s.buffer.state, Step(s, e).buffer.state;
            B.SinkReady(b) || B.SourceValid(b) || B.SinkReady(n) || B.SourceValid(n)
  {
  }

  predicate AllWilling(events: seq<Event>) {
    forall k :: 0 <= k < |events| ==> Willing(events[k])
  }

  lemma {:induction false} WillingRunIsGood(s: State, events: seq<Event>)
    requires WellFormed(s) && AllWilling(events)
    ensures GoodRun(s, events)
    decreases |events|
  {
    if events != [] {
      WillingRunIsGood(Step(s, events[0]), events[1..]);
    }
  }

  lemma {:induction false} CompleteIsStable(s: State, events: seq<Event>)
    requires Inv(s) && Complete(s) && AllWilling(events) && GoodRun(s, events)
    ensures Complete(Run(s, events))
    decreases |events|
  {
    if events != [] {
      StepKeepsInv(s, events[0]);
      assert !B.SourceValid(s.buffer.state);
      CompleteIsStable(Step(s, events[0]), events[1..]);
    }
  }

  lemma {:induction false} WillingRunCompletes(s: State, events: seq<Event>)
    requires Inv(s) && AllWilling(events) && GoodRun(s, events) && |events| >= Work(s)
    ensures Complete(Run(s, events))
    decreases |events|
  {
    hide Complete, Work, Step, B.Inv, ReaderInv, Requested;
    if Complete(s) {
      CompleteIsStable(s, events);
    } else {
      var e := if events == [] then Event(None, true, true, true) else events[0];
      WillingCycleProgresses(s, e);
      StepKeepsInv(s, e);
      WillingCycleProgresses(Step(s, e), e);
      WillingRunCompletes(Step(s, e), events[1..]);
    }
  }

  /** With all peers willing a frame started at any moment of any run is out, with all that was on its way before it, after
      twenty cycles per burst, eighteen per word that waited in the FIFO, and 257 for what the buffer held. */
  lemma FrameCompletesInTime(before: seq<Event>, after: seq<Event>)
    requires GoodRun(RESET, before) && AllWilling(after)
    ensures GoodRun(Run(RESET, before), after)
    ensures var s := Run(RESET, before);
            s.frames != [] && s.reader.addresses == [] && |after| >= 20 * Bursts(Current(s)) + 18 * |s.queue| + 257
            ==> Complete(Run(s, after))
  {
    RunKeepsInv(RESET, before);
    var s := Run(RESET, before);
    WillingRunIsGood(s, after);
    if s.frames != [] && s.reader.addresses == [] {
      WorkAtStart(s);
      if |after| >= 20 * Bursts(Current(s)) + 18 * |s.queue| + 257 {
        WillingRunCompletes(s, after);
      }
    }
  }

  lemma WorkAtStart(s: State)
    requires Inv(s) && s.frames != [] && s.reader.addresses == []
    ensures Work(s) <= 20 * Bursts(Current(s)) + 18 * |s.queue| + 257
  {
    assert |AllWords(s.frames)| == |Requested(s)| + Bursts(Current(s));
    assert |s.buffer.accepted| + |s.queue| == |Requested(s)|;
    assert 8 * |s.buffer.accepted| - |s.buffer.emitted| <= 128;
  }
}
