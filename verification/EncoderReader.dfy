/** The DMA address generator of the JPEG encoder: it walks a raster framebuffer in 8x8 block order.

    `h` and `v` are the 16-bit pixel counters.  They step through the lines of a block, then through the blocks of a block
    row, then through the block rows.  `Next` is one clock edge; `ready` is a free input of every edge. */
module EncoderReader {
  import DivMod

  const WORD16 := 0x1_0000

  /** What fits in the 16-bit counters. */
  function Wrap(x: int): (w: nat)
    ensures w < WORD16
  {
    x % 0x1_0000
  }

  /** `burst` is the number of pixels per memory word, `words` the number of memory words the port can address. */
  datatype Config = Config(burst: nat, words: nat, width: nat, height: nat)

  datatype Fsm = Idle | Read
  datatype State = State(fsm: Fsm, h: nat, v: nat, base: nat)

  datatype Input = Input(start: bool, baseStorage: nat, ready: bool)

  predicate GoodConfig(c: Config) {
    && c.burst in {1, 2, 4, 8}
    && c.words > 0
    && c.width < WORD16 && c.height < WORD16
  }

  /** The dimensions the firmware programs. */
  predicate BlockAligned(c: Config) {
    && GoodConfig(c)
    && 0 < c.width && c.width % 8 == 0
    && 0 < c.height && c.height % 8 == 0
  }

  const RESET := State(Idle, 0, 0, 0)

  /** The accepted burst is the last one of a block's line / of a block / of a block row / of the frame. */
  predicate EndOfLine(c: Config, s: State) {
    Wrap(s.h + c.burst) % 8 == 0
  }

  predicate EndOfBlock(s: State) {
    s.v % 8 == 7
  }

  predicate EndOfBlockRow(c: Config, s: State) {
    s.h >= Wrap(c.width - c.burst)
  }

  predicate EndOfFrame(c: Config, s: State) {
    s.v >= Wrap(c.height - 1)
  }

  function Accept(c: Config, s: State): State {
    if !EndOfLine(c, s) then s.(h := Wrap(s.h + c.burst))
    else if !EndOfBlock(s) then s.(h := s.h / 8 * 8, v := Wrap(s.v + 1))
    else if !EndOfBlockRow(c, s) then s.(h := Wrap(s.h + c.burst), v := Wrap(s.v - 7))
    else s.(h := 0, v := Wrap(s.v + 1), fsm := if EndOfFrame(c, s) then Idle else Read)
  }

  function Next(c: Config, s: State, i: Input): State {
    var base := if i.start then i.baseStorage else s.base;
    match s.fsm
    case Idle => State(if i.start then Read else Idle, 0, 0, base)
    case Read => (if i.ready then Accept(c, s) else s).(base := base)
  }

  predicate Done(s: State, i: Input) {
    s.fsm.Idle? && !i.start
  }

  /** The word address on the DMA request port, truncated to what the port holds. */
  function Address(c: Config, base: nat, h: nat, v: nat): nat
    requires GoodConfig(c)
  {
    (base / (2 * c.burst) + (v * c.width + h) / c.burst) % c.words
  }

  /** The same as the circuit forms it: the pixel number is held in a signal of the port's width and the bits of a word's
      byte address, and its upper bits are added to those of the base. */
  function CircuitAddress(c: Config, base: nat, h: nat, v: nat): nat
    requires GoodConfig(c)
  {
    var readAddress := (v * c.width + h) % (c.burst * (2 * c.words));
    (base / (2 * c.burst) + readAddress / c.burst) % c.words
  }

  /** The truncation of the pixel number never shows. */
  lemma CircuitAddressIsExact(c: Config, base: nat, h: nat, v: nat)
    requires GoodConfig(c)
    ensures CircuitAddress(c, base, h, v) == Address(c, base, h, v)
  {
    assert c.burst > 0 && c.words > 0;
    hide GoodConfig;
    var n := c.burst * (2 * c.words);
    TruncatedSum(base / (2 * c.burst), v * c.width + h, c.burst, c.words, n);
  }

  lemma TruncatedSum(top: nat, x: nat, d: nat, w: nat, n: nat)
    requires d > 0 && w > 0 && n == d * (2 * w) && n > 0
    ensures (top + x % n / d) % w == (top + x / d) % w
  {
    DivMod.Recompose(x, n);
    TruncatedAddress(top, x, d, w, n, x / n, x % n);
  }

  /** Cutting off `q` times the range of the port changes the quotient by a multiple of that range. */
  lemma TruncatedAddress(top: nat, x: nat, d: nat, w: nat, n: nat, q: nat, r: nat)
    requires d > 0 && w > 0 && n == d * (2 * w) && x == n * q + r
    ensures (top + r / d) % w == (top + x / d) % w
  {
    var s, t := r / d, r % d;
    DivMod.Recompose(r, d);
    QuotientOfDigits(d, 2 * w, q, s, t);
    SameModulo(top, s, x / d, w, q);
  }

  lemma SameModulo(a: nat, r: nat, x: nat, w: nat, q: nat)
    requires w > 0 && x == 2 * w * q + r
    ensures (a + r) % w == (a + x) % w
  {
    assert 2 * w * q == w * (2 * q);
    DivMod.AddMultiple(a + r, w, 2 * q);
  }

  lemma QuotientOfDigits(d: nat, m: nat, q: nat, s: nat, t: nat)
    requires t < d
    ensures (d * m * q + (d * s + t)) / d == m * q + s
  {
    assert d * m * q + (d * s + t) == d * (m * q + s) + t;
    DivMod.Unique(d * (m * q + s) + t, d, m * q + s, t);
  }

  /** A frame in progress: the registers and the addresses accepted since the start pulse. */
  datatype Trace = Trace(state: State, addresses: seq<nat>)

  function Started(base: nat): Trace {
    Trace(State(Read, 0, 0, base), [])
  }

  function Step(c: Config, t: Trace, ready: bool): Trace
    requires GoodConfig(c)
  {
    Trace(Next(c, t.state, Input(false, 0, ready)),
          if t.state.fsm.Read? && ready
          then t.addresses + [Address(c, t.state.base, t.state.h, t.state.v)] else t.addresses)
  }

  function Run(c: Config, t: Trace, readies: seq<bool>): Trace
    requires GoodConfig(c)
    decreases |readies|
  {
    if readies == [] then t else Run(c, Step(c, t, readies[0]), readies[1..])
  }

  // ---------- the specification: where burst k of the frame lies ----------

  /** Bursts per block line, blocks per row, block rows.  Eight pixels make a block line. */
  datatype Geometry = Geometry(burst: nat, subs: nat, cols: nat, rows: nat)

  predicate GoodGeometry(g: Geometry) {
    g.subs * g.burst == 8 && g.subs > 0 && g.burst > 0 && g.cols > 0 && g.rows > 0
  }

  function GeometryOf(c: Config): (g: Geometry)
    requires BlockAligned(c)
    ensures GoodGeometry(g) && g.burst == c.burst
    ensures c.width == 8 * g.cols && c.height == 8 * g.rows
  {
    Geometry(c.burst, if c.burst == 1 then 8 else if c.burst == 2 then 4 else if c.burst == 4 then 2 else 1,
             c.width / 8, c.height / 8)
  }

  /** The number of bursts in a frame. */
  function Total(g: Geometry): nat {
    g.subs * (8 * (g.cols * g.rows))
  }

  /** Block row, block column, line in the block, burst in the line. */
  datatype Place = Place(row: nat, col: nat, line: nat, sub: nat)

  predicate InFrame(g: Geometry, p: Place) {
    p.row < g.rows && p.col < g.cols && p.line < 8 && p.sub < g.subs
  }

  function X(g: Geometry, p: Place): nat { 8 * p.col + g.burst * p.sub }

  function Y(p: Place): nat { 8 * p.row + p.line }

  function PlaceAt(g: Geometry, k: nat): Place
    requires GoodGeometry(g)
  {
    var q := k / g.subs;
    var b := q / 8;
    Place(b / g.cols, b % g.cols, q % 8, k % g.subs)
  }

  function IndexOf(g: Geometry, p: Place): nat {
    g.subs * (8 * (g.cols * p.row + p.col) + p.line) + p.sub
  }

  lemma PlaceOfIndex(g: Geometry, p: Place)
    requires GoodGeometry(g) && InFrame(g, p)
    ensures PlaceAt(g, IndexOf(g, p)) == p
  {
    var b := g.cols * p.row + p.col;
    DivMod.Unique(IndexOf(g, p), g.subs, 8 * b + p.line, p.sub);
    DivMod.Unique(8 * b + p.line, 8, b, p.line);
    DivMod.Unique(b, g.cols, p.row, p.col);
  }

  lemma IndexInRange(g: Geometry, p: Place)
    requires GoodGeometry(g) && InFrame(g, p)
    ensures IndexOf(g, p) < Total(g)
  {
    var b := g.cols * p.row + p.col;
    DivMod.DigitsBelow(g.cols, p.row, g.rows, p.col);
    DivMod.DigitsBelow(g.subs, 8 * b + p.line, 8 * (g.cols * g.rows), p.sub);
  }

  lemma IndexOfPlace(g: Geometry, k: nat)
    requires GoodGeometry(g) && k < Total(g)
    ensures InFrame(g, PlaceAt(g, k))
    ensures IndexOf(g, PlaceAt(g, k)) == k
  {
    var q := k / g.subs;
    var b := q / 8;
    DivMod.Below(k, g.subs, 8 * (g.cols * g.rows));
    DivMod.Below(b, g.cols, g.rows);
    DivMod.Recompose(k, g.subs);
    DivMod.Recompose(b, g.cols);
    IndexOfDigits(g, PlaceAt(g, k), q, b);
  }

  lemma IndexOfDigits(g: Geometry, p: Place, q: nat, b: nat)
    requires b == g.cols * p.row + p.col && q == 8 * b + p.line
    ensures IndexOf(g, p) == g.subs * q + p.sub
  {
  }

  /** The place visited after `p`. */
  function Successor(g: Geometry, p: Place): Place
    requires GoodGeometry(g)
  {
    if p.sub < g.subs - 1 then p.(sub := p.sub + 1)
    else if p.line < 7 then p.(line := p.line + 1, sub := 0)
    else if p.col < g.cols - 1 then Place(p.row, p.col + 1, 0, 0)
    else Place(p.row + 1, 0, 0, 0)
  }

  function LastPlace(g: Geometry): Place
    requires GoodGeometry(g)
  {
    Place(g.rows - 1, g.cols - 1, 7, g.subs - 1)
  }

  lemma NextPlace(g: Geometry, k: nat)
    requires GoodGeometry(g)
    ensures PlaceAt(g, k + 1) == Successor(g, PlaceAt(g, k))
  {
    var q := k / g.subs;
    DivMod.Successor(k, g.subs);
    DivMod.Successor(q, 8);
    DivMod.Successor(q / 8, g.cols);
    DivMod.Recompose(k, g.subs);
    DivMod.Recompose(q / 8, g.cols);
    PlaceDigits(g, k, q, q / 8);
    PlaceDigits(g, k + 1, (k + 1) / g.subs, (k + 1) / g.subs / 8);
    hide PlaceAt;
  }

  lemma PlaceDigits(g: Geometry, k: nat, q: nat, b: nat)
    requires GoodGeometry(g) && q == k / g.subs && b == q / 8
    ensures PlaceAt(g, k) == Place(b / g.cols, b % g.cols, q % 8, k % g.subs)
  {
  }

  lemma LastIndex(g: Geometry)
    requires GoodGeometry(g)
    ensures IndexOf(g, LastPlace(g)) == Total(g) - 1
  {
    var b := g.cols * g.rows;
    assert g.cols * (g.rows - 1) + (g.cols - 1) == b - 1;
    assert g.subs * (8 * (b - 1) + 7) == g.subs * (8 * b) - g.subs;
  }

  lemma LastPlaceEndsFrame(g: Geometry, k: nat)
    requires GoodGeometry(g) && k < Total(g)
    ensures k + 1 == Total(g) <==> PlaceAt(g, k) == LastPlace(g)
  {
    LastIndex(g);
    IndexOfPlace(g, k);
    PlaceOfIndex(g, LastPlace(g));
  }

  // ---------- the traversal ----------

  predicate AtPlace(g: Geometry, s: State, p: Place) {
    s.fsm.Read? && s.h == X(g, p) && s.v == Y(p)
  }

  /** After `k` accepted bursts the counters are at place `k`, and the machine is idle exactly when the frame is done. */
  predicate AtBurst(g: Geometry, s: State, k: nat)
    requires GoodGeometry(g)
  {
    k <= Total(g) && if k < Total(g) then AtPlace(g, s, PlaceAt(g, k)) else s.fsm.Idle?
  }

  /** The bursts of a line share its eight pixels; only the last one reaches the end. */
  lemma BurstInLine(g: Geometry, sub: nat)
    requires GoodGeometry(g) && sub < g.subs
    ensures g.burst * sub < g.burst * sub + g.burst <= 8
    ensures g.burst * (sub + 1) == g.burst * sub + g.burst
    ensures g.burst * sub + g.burst == 8 <==> sub == g.subs - 1
  {
    DivMod.Monotone(g.burst, sub + 1, g.subs);
    if sub < g.subs - 1 {
      DivMod.Monotone(g.burst, sub + 2, g.subs);
    }
  }

  /** The dimension registers hold the geometry `g`. */
  predicate Programs(c: Config, g: Geometry) {
    && GoodGeometry(g) && c.burst == g.burst
    && c.width == 8 * g.cols < WORD16 && c.height == 8 * g.rows < WORD16
  }

  lemma WrapFits(x: int)
    requires 0 <= x < WORD16
    ensures Wrap(x) == x
  {
  }

  /** The horizontal tests of the state machine, in terms of the place. */
  lemma ColumnTests(c: Config, g: Geometry, s: State, p: Place)
    requires Programs(c, g) && InFrame(g, p) && AtPlace(g, s, p)
    ensures EndOfLine(c, s) <==> p.sub == g.subs - 1
    ensures p.sub == g.subs - 1 ==> (EndOfBlockRow(c, s) <==> p.col == g.cols - 1)
    ensures Wrap(s.h + c.burst) == s.h + c.burst && s.h / 8 == p.col
  {
    hide Wrap;
    BurstInLine(g, p.sub);
    GroupTests(p.col, g.burst * p.sub, g.burst, g.cols);
    assert s.h + c.burst <= c.width;
    WrapFits(s.h + c.burst);
    WrapFits(c.width - c.burst);
  }

  /** `t` pixels into column group `col`. */
  lemma GroupTests(col: nat, t: nat, burst: nat, cols: nat)
    requires col < cols && burst > 0 && t + burst <= 8
    ensures (8 * col + t + burst) % 8 == 0 <==> t + burst == 8
    ensures t + burst == 8 ==> (8 * col + t >= 8 * cols - burst <==> col == cols - 1)
    ensures (8 * col + t) / 8 == col
  {
  }

  /** The vertical tests. */
  lemma RowTests(c: Config, g: Geometry, s: State, p: Place)
    requires Programs(c, g) && InFrame(g, p) && AtPlace(g, s, p)
    ensures EndOfBlock(s) <==> p.line == 7
    ensures p.line == 7 ==> (EndOfFrame(c, s) <==> p.row == g.rows - 1)
    ensures Wrap(s.v + 1) == s.v + 1
    ensures p.line == 7 ==> Wrap(s.v - 7) == s.v - 7
  {
    hide Wrap;
    assert s.v + 1 <= c.height;
    WrapFits(s.v + 1);
    WrapFits(c.height - 1);
    if p.line == 7 {
      WrapFits(s.v - 7);
    }
    DivMod.Unique(s.v, 8, p.row, p.line);
  }

  lemma AcceptMoves(c: Config, g: Geometry, s: State, p: Place)
    requires Programs(c, g) && InFrame(g, p) && AtPlace(g, s, p)
    ensures if p == LastPlace(g) then Accept(c, s).fsm.Idle? else AtPlace(g, Accept(c, s), Successor(g, p))
    ensures Accept(c, s).base == s.base
  {
    ColumnTests(c, g, s, p);
    RowTests(c, g, s, p);
    BurstInLine(g, p.sub);
    assert g.burst * 0 == 0;
  }

  lemma AcceptFollowsPlaces(c: Config, s: State, k: nat)
    requires BlockAligned(c) && AtBurst(GeometryOf(c), s, k) && s.fsm.Read?
    ensures AtBurst(GeometryOf(c), Accept(c, s), k + 1) && Accept(c, s).base == s.base
  {
    var g := GeometryOf(c);
    IndexOfPlace(g, k);
    NextPlace(g, k);
    LastPlaceEndsFrame(g, k);
    AcceptMoves(c, g, s, PlaceAt(g, k));
  }

  function AddressOfBurst(c: Config, base: nat, k: nat): nat
    requires BlockAligned(c)
  {
    var g := GeometryOf(c);
    var p := PlaceAt(g, k);
    Address(c, base, X(g, p), Y(p))
  }

  ghost predicate OnTrack(c: Config, t: Trace, base: nat)
    requires BlockAligned(c)
  {
    && AtBurst(GeometryOf(c), t.state, |t.addresses|)
    && t.state.base == base
    && forall k :: 0 <= k < |t.addresses| ==> t.addresses[k] == AddressOfBurst(c, base, k)
  }

  lemma StepStaysOnTrack(c: Config, t: Trace, base: nat, ready: bool)
    requires BlockAligned(c) && OnTrack(c, t, base)
    ensures OnTrack(c, Step(c, t, ready), base)
  {
    if t.state.fsm.Read? && ready {
      AcceptFollowsPlaces(c, t.state, |t.addresses|);
    }
  }

  function CountReady(readies: seq<bool>): (n: nat)
    ensures n <= |readies|
  {
    if readies == [] then 0 else (if readies[0] then 1 else 0) + CountReady(readies[1..])
  }

  /** Main result: whatever the stalls, the k-th accepted address is that of burst k of the frame in block order, one burst
      is accepted per ready cycle until the frame is complete, and then the machine is idle again. */
  lemma {:induction false} Traversal(c: Config, t: Trace, base: nat, readies: seq<bool>)
    requires BlockAligned(c) && OnTrack(c, t, base)
    ensures var n, total := Run(c, t, readies), Total(GeometryOf(c));
            && OnTrack(c, n, base)
            && |n.addresses| == (if |t.addresses| + CountReady(readies) <= total
                                 then |t.addresses| + CountReady(readies) else total)
            && (n.state.fsm.Idle? <==> |t.addresses| + CountReady(readies) >= total)
    decreases |readies|
  {
    if readies != [] {
      StepStaysOnTrack(c, t, base, readies[0]);
      Traversal(c, Step(c, t, readies[0]), base, readies[1..]);
    }
  }

  /** A start pulse puts the reader, done with whatever frame, on the first burst of the next. */
  lemma StartedIsOnTrack(c: Config, base: nat)
    requires BlockAligned(c)
    ensures OnTrack(c, Started(base), base)
    ensures forall s: State, ready: bool :: s.fsm.Idle? ==> Next(c, s, Input(true, base, ready)) == Started(base).state
  {
    var g := GeometryOf(c);
    IndexInRange(g, Place(0, 0, 0, 0));
    PlaceOfIndex(g, Place(0, 0, 0, 0));
    assert IndexOf(g, Place(0, 0, 0, 0)) == 0;
  }

  // ---------- every burst of the frame exactly once ----------

  /** The raster number of the burst read at place `p`. */
  function Offset(g: Geometry, p: Place): nat
    requires GoodGeometry(g)
  {
    (Y(p) * (8 * g.cols) + X(g, p)) / g.burst
  }

  /** In raster order a line holds subs * cols bursts. */
  function RasterDigits(g: Geometry, p: Place): nat {
    (g.subs * g.cols) * Y(p) + (g.subs * p.col + p.sub)
  }

  function PlaceOfOffset(g: Geometry, o: nat): Place
    requires GoodGeometry(g)
  {
    var bursts := g.subs * g.cols;
    var y, x := o / bursts, o % bursts;
    Place(y / 8, x / g.subs, y % 8, x % g.subs)
  }

  lemma PixelsOfBursts(burst: nat, n: nat, cols: nat, y: nat, col: nat, sub: nat)
    requires n * burst == 8
    ensures burst * ((n * cols) * y + (n * col + sub)) == y * (8 * cols) + (8 * col + burst * sub)
  {
    assert burst * ((n * cols) * y) == (burst * n) * (cols * y);
    assert burst * (n * col) == (burst * n) * col;
  }

  lemma OffsetDigits(g: Geometry, p: Place)
    requires GoodGeometry(g)
    ensures Offset(g, p) == RasterDigits(g, p)
  {
    PixelsOfBursts(g.burst, g.subs, g.cols, Y(p), p.col, p.sub);
    DivMod.Unique(Y(p) * (8 * g.cols) + X(g, p), g.burst, RasterDigits(g, p), 0);
  }

  lemma BurstsInRaster(g: Geometry)
    ensures (g.subs * g.cols) * (8 * g.rows) == Total(g)
  {
  }

  lemma DigitsInRange(g: Geometry, p: Place)
    requires GoodGeometry(g) && InFrame(g, p)
    ensures RasterDigits(g, p) < Total(g)
  {
    BurstsInRaster(g);
    DivMod.DigitsBelow(g.subs, p.col, g.cols, p.sub);
    DivMod.DigitsBelow(g.subs * g.cols, Y(p), 8 * g.rows, g.subs * p.col + p.sub);
  }

  lemma PlaceOfDigits(g: Geometry, p: Place)
    requires GoodGeometry(g) && InFrame(g, p)
    ensures PlaceOfOffset(g, RasterDigits(g, p)) == p
  {
    var x := g.subs * p.col + p.sub;
    DivMod.DigitsBelow(g.subs, p.col, g.cols, p.sub);
    DivMod.Unique(RasterDigits(g, p), g.subs * g.cols, Y(p), x);
    DivMod.Unique(x, g.subs, p.col, p.sub);
  }

  lemma OffsetIsInjective(g: Geometry, p: Place)
    requires GoodGeometry(g) && InFrame(g, p)
    ensures Offset(g, p) < Total(g)
    ensures PlaceOfOffset(g, Offset(g, p)) == p
  {
    OffsetDigits(g, p);
    DigitsInRange(g, p);
    PlaceOfDigits(g, p);
  }

  lemma OffsetIsSurjective(g: Geometry, o: nat)
    requires GoodGeometry(g) && o < Total(g)
    ensures InFrame(g, PlaceOfOffset(g, o))
    ensures Offset(g, PlaceOfOffset(g, o)) == o
  {
    var w := g.subs * g.cols;
    var x := o % w;
    BurstsInRaster(g);
    DivMod.Below(o, w, 8 * g.rows);
    DivMod.Recompose(o, w);
    DivMod.Below(x, g.subs, g.cols);
    DivMod.Recompose(x, g.subs);
    OffsetDigits(g, PlaceOfOffset(g, o));
  }

  /** The visiting order is a permutation of the raster: each burst of the frame is read exactly once. */
  lemma EachBurstOnce(g: Geometry, o: nat)
    requires GoodGeometry(g) && o < Total(g)
    ensures exists k: nat :: k < Total(g) && Offset(g, PlaceAt(g, k)) == o
    ensures forall k: nat, m: nat ::
              (k < Total(g) && m < Total(g) && Offset(g, PlaceAt(g, k)) == Offset(g, PlaceAt(g, m))) ==> k == m
  {
    var p := PlaceOfOffset(g, o);
    OffsetIsSurjective(g, o);
    PlaceOfIndex(g, p);
    IndexInRange(g, p);
    assert Offset(g, PlaceAt(g, IndexOf(g, p))) == o;
    forall k: nat, m: nat | k < Total(g) && m < Total(g) && Offset(g, PlaceAt(g, k)) == Offset(g, PlaceAt(g, m))
      ensures k == m
    {
      IndexOfPlace(g, k);
      IndexOfPlace(g, m);
      OffsetIsInjective(g, PlaceAt(g, k));
      OffsetIsInjective(g, PlaceAt(g, m));
    }
  }

  /** A frame that fits in the memory behind the port is addressed without wrap-around. */
  lemma AddressIsExact(c: Config, base: nat, k: nat)
    requires BlockAligned(c) && k < Total(GeometryOf(c))
    requires base / (2 * c.burst) + Total(GeometryOf(c)) <= c.words
    ensures var g := GeometryOf(c); AddressOfBurst(c, base, k) == base / (2 * c.burst) + Offset(g, PlaceAt(g, k))
  {
    var g := GeometryOf(c);
    var p := PlaceAt(g, k);
    IndexOfPlace(g, k);
    OffsetIsInjective(g, p);
    DivMod.Unique(base / (2 * c.burst) + Offset(g, p), c.words, 0, base / (2 * c.burst) + Offset(g, p));
  }

  /** The control wires between the state machine and the counters. */
  datatype Wires = Wires(hClr: bool, hClrLsb: bool, hInc: bool, vClr: bool, vInc: bool, vDec7: bool)

  const QUIET := Wires(false, false, false, false, false, false)

  function NextH(w: Wires, burst: nat, h: nat): nat {
    if w.hClr then 0 else if w.hClrLsb then h / 8 * 8 else if w.hInc then Wrap(h + burst) else h
  }

  function NextV(w: Wires, v: nat): nat {
    if w.vClr then 0 else if w.vInc then Wrap(v + 1) else if w.vDec7 then Wrap(v - 7) else v
  }

  /** The circuit itself: the state machine raises control wires, and at the edge the counters obey them. */
  class DmaReader {
    const burst: nat
    const words: nat

    // control and status registers, written by the processor
    var baseStorage: nat
    var hWidth: nat
    var vWidth: nat

    var fsm: Fsm
    var h: nat
    var v: nat
    var base: nat

    function Parameters(): Config
      reads this
    {
      Config(burst, words, hWidth, vWidth)
    }

    ghost predicate Valid()
      reads this
    {
      GoodConfig(Parameters()) && h < WORD16 && v < WORD16
    }

    ghost function Registers(): State
      reads this
    {
      State(fsm, h, v, base)
    }

    constructor (burst: nat, words: nat)
      requires burst in {1, 2, 4, 8} && words > 0
      ensures Valid() && Registers() == RESET
      ensures Parameters() == Config(burst, words, 0, 0) && baseStorage == 0
    {
      this.burst, this.words := burst, words;
      baseStorage, hWidth, vWidth := 0, 0, 0;
      fsm, h, v, base := Idle, 0, 0, 0;
    }

    /** The address is offered while a request is pending. */
    method Clock(start: bool, ready: bool) returns (done: bool, valid: bool, address: nat)
      requires Valid()
      modifies `fsm, `h, `v, `base
      ensures Valid()
      ensures Registers() == Next(Parameters(), old(Registers()), Input(start, baseStorage, ready))
      ensures done == Done(old(Registers()), Input(start, baseStorage, ready)) && valid == old(fsm).Read?
      ensures address == Address(Parameters(), old(base), old(h), old(v))
    {
      address := RequestAddress();
      done, valid := fsm.Idle? && !start, fsm.Read?;
      var next, wires := Control(start, ready);
      if start {
        base := baseStorage;
      }
      fsm := next;
      ClockH(wires);
      ClockV(wires);
    }

    method RequestAddress() returns (address: nat)
      requires Valid()
      ensures address == Address(Parameters(), base, h, v)
    {
      var readAddress := (v * hWidth + h) % (burst * (2 * words));
      address := (base / (2 * burst) + readAddress / burst) % words;
      CircuitAddressIsExact(Parameters(), base, h, v);
    }

    /** The state machine's next state and the control wires it raises. */
    method Control(start: bool, ready: bool) returns (next: Fsm, wires: Wires)
      requires Valid()
      ensures var n := Next(Parameters(), Registers(), Input(start, baseStorage, ready));
              next == n.fsm && NextH(wires, burst, h) == n.h && NextV(wires, v) == n.v
    {
      next, wires := fsm, QUIET;
      match fsm {
        case Idle =>
          wires := wires.(hClr := true, vClr := true);
          if start {
            next := Read;
          }
        case Read =>
          if ready {
            next, wires := ControlRead();
          }
      }
    }

    method ControlRead() returns (next: Fsm, wires: Wires)
      requires Valid() && fsm == Read
      ensures var n := Accept(Parameters(), Registers());
              next == n.fsm && NextH(wires, burst, h) == n.h && NextV(wires, v) == n.v
    {
      next, wires := Read, QUIET;
      if Wrap(h + burst) % 8 == 0 {
        if v % 8 == 7 {
          if h >= Wrap(hWidth - burst) {
            wires := wires.(hClr := true, vInc := true);
            if v >= Wrap(vWidth - 1) {
              next := Idle;
            }
          } else {
            wires := wires.(hInc := true, vDec7 := true);
          }
        } else {
          wires := wires.(hClrLsb := true, vInc := true);
        }
      } else {
        wires := wires.(hInc := true);
      }
    }

    method ClockH(wires: Wires)
      modifies `h
      ensures h == NextH(wires, burst, old(h))
    {
      if wires.hClr {
        h := 0;
      } else if wires.hClrLsb {
        h := h / 8 * 8;
      } else if wires.hInc {
        h := Wrap(h + burst);
      }
    }

    method ClockV(wires: Wires)
      modifies `v
      ensures v == NextV(wires, old(v))
    {
      if wires.vClr {
        v := 0;
      } else if wires.vInc {
        v := Wrap(v + 1);
      } else if wires.vDec7 {
        v := Wrap(v - 7);
      }
    }
  }
}
