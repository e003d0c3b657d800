/** The multiplier and divider search behind the output pixel clock.

    The firmware scans every divider and, inside, every multiplier, and keeps a pair only when it is strictly closer to the
    ideal ratio.  Distances are compared by cross-multiplication in 32-bit unsigned arithmetic, starting from the
    degenerate pair 1/0. */
module ClockSearch {

  const TWO_31 := 0x8000_0000
  const TWO_32 := 0x1_0000_0000

  datatype Platform = Spartan6 | Artix7

  /** The ideal ratio is pixelClock / IdealD. */
  function IdealD(p: Platform): nat {
    match p
    case Spartan6 => 5000
    case Artix7 => 1000
  }

  /** Largest multiplier and largest divider. */
  function Max(p: Platform): nat {
    match p
    case Spartan6 => 256
    case Artix7 => 128
  }

  /** Largest pixel clock, in tens of kHz, for which every difference of the search fits a 32-bit signed integer. */
  function Limit(p: Platform): nat {
    (TWO_31 - 1 + 2 * IdealD(p)) / Max(p)
  }

  /** Largest pixel clock for which the search finds the closest pair all the same. */
  function Last(p: Platform): (clock: nat)
    ensures clock == if p == Spartan6 then 9028627 else 16841223
  {
    (TWO_31 + IdealD(p) * (Max(p) * Max(p) + 2) / 2) / Max(p)
  }

  predicate InBox(p: Platform, m: nat, d: nat) {
    2 <= m <= Max(p) && 1 <= d <= Max(p)
  }

  function Abs(x: int): nat {
    if x < 0 then -x else x
  }

  /** The distance of m/d from the ideal ratio is Error / (d * IdealD). */
  function Error(p: Platform, clock: nat, m: nat, d: nat): nat {
    Abs(m * IdealD(p) - d * clock)
  }

  /** m1/d1 is at most as far from the ideal ratio as m2/d2. */
  predicate AtMostAsFar(p: Platform, clock: nat, m1: nat, d1: nat, m2: nat, d2: nat) {
    Error(p, clock, m1, d1) * d2 <= Error(p, clock, m2, d2) * d1
  }

  predicate Closer(p: Platform, clock: nat, m1: nat, d1: nat, m2: nat, d2: nat) {
    Error(p, clock, m1, d1) * d2 < Error(p, clock, m2, d2) * d1
  }

  /** The scan reaches (m1, d1) before (m2, d2). */
  predicate Before(m1: nat, d1: nat, m2: nat, d2: nat) {
    d1 < d2 || (d1 == d2 && m1 < m2)
  }

  /** Among the pairs scanned before (m, d), the best one and the first of its ratio. */
  ghost predicate BestBefore(p: Platform, clock: nat, bm: nat, bd: nat, m: nat, d: nat) {
    && InBox(p, bm, bd) && Before(bm, bd, m, d)
    && (forall m', d' :: InBox(p, m', d') && Before(m', d', m, d) ==>
          AtMostAsFar(p, clock, bm, bd, m', d'))
    && (forall m', d' :: InBox(p, m', d') && Before(m', d', bm, bd) ==>
          Closer(p, clock, bm, bd, m', d'))
  }

  /** What the search is for: no pair in the box is closer to the ideal ratio, and none scanned earlier is as close. */
  ghost predicate Optimal(p: Platform, clock: nat, bm: nat, bd: nat) {
    && InBox(p, bm, bd)
    && (forall m, d :: InBox(p, m, d) ==> AtMostAsFar(p, clock, bm, bd, m, d))
    && (forall m, d :: InBox(p, m, d) && Before(m, d, bm, bd) ==> Closer(p, clock, bm, bd, m, d))
  }

  // ---------- 32-bit arithmetic ----------

  type Word32 = x: nat | x < TWO_32

  function Wrap32(x: nat): Word32 {
    if x < TWO_32 then x else x % TWO_32
  }

  lemma ProductIsNat(a: nat, b: nat)
    ensures a * b >= 0
  {
  }

  function Mul32(a: Word32, b: Word32): Word32 {
    ProductIsNat(a, b);
    Wrap32(a * b)
  }

  function Sub32(a: Word32, b: Word32): Word32 {
    if a >= b then a - b else a - b + TWO_32
  }

  /** C's abs of an unsigned difference taken as a signed integer. */
  function AbsDiff32(a: Word32, b: Word32): Word32 {
    var u := Sub32(a, b);
    if u < TWO_31 then u else TWO_32 - u
  }

  lemma AbsDiff32Exact(a: Word32, b: Word32)
    requires Abs(a - b) < TWO_31
    ensures AbsDiff32(a, b) == Abs(a - b)
  {
  }

  lemma GrowsByFactor(x: nat, c: nat)
    requires c > 0
    ensures x <= x * c
  {
  }

  lemma Mul32Exact(a: Word32, b: Word32, c: Word32)
    requires a * b * c < TWO_32 && c > 0
    ensures Mul32(Mul32(a, b), c) == a * b * c
  {
    GrowsByFactor(a * b, c);
  }

  // ---------- comparing distances ----------

  lemma CancelFactor(f: nat, a: nat, b: nat)
    requires f > 0 && f * a < f * b
    ensures a < b
  {
  }

  /** Cross-multiplied comparison is transitive because the divider in the middle is positive. */
  lemma CloserIsTransitive(e1: nat, d1: nat, e2: nat, d2: nat, e3: nat, d3: nat)
    requires d1 > 0 && d2 > 0 && d3 > 0
    requires e1 * d2 < e2 * d1 && e2 * d3 <= e3 * d2
    ensures e1 * d3 < e3 * d1
  {
    assert (e1 * d2) * d3 < (e2 * d1) * d3;
    assert (e2 * d3) * d1 <= (e3 * d2) * d1;
    assert d2 * (e1 * d3) == (e1 * d2) * d3;
    assert d2 * (e3 * d1) == (e3 * d2) * d1;
    assert (e2 * d1) * d3 == (e2 * d3) * d1;
    CancelFactor(d2, e1 * d3, e3 * d1);
  }

  lemma KeepBest(p: Platform, clock: nat, bm: nat, bd: nat, m: nat, d: nat)
    requires InBox(p, m, d) && BestBefore(p, clock, bm, bd, m, d)
    requires !Closer(p, clock, m, d, bm, bd)
    ensures BestBefore(p, clock, bm, bd, m + 1, d)
  {
  }

  lemma ReplaceBest(p: Platform, clock: nat, bm: nat, bd: nat, m: nat, d: nat)
    requires InBox(p, m, d) && BestBefore(p, clock, bm, bd, m, d)
    requires Closer(p, clock, m, d, bm, bd)
    ensures BestBefore(p, clock, m, d, m + 1, d)
  {
    forall m', d' | InBox(p, m', d') && Before(m', d', m, d)
      ensures Closer(p, clock, m, d, m', d')
    {
      assert AtMostAsFar(p, clock, bm, bd, m', d');
      CloserIsTransitive(Error(p, clock, m, d), d, Error(p, clock, bm, bd), bd, Error(p, clock, m', d'), d');
    }
  }

  lemma NextDivider(p: Platform, clock: nat, bm: nat, bd: nat, d: nat)
    requires BestBefore(p, clock, bm, bd, Max(p) + 1, d)
    ensures BestBefore(p, clock, bm, bd, 2, d + 1)
  {
    forall m', d' | InBox(p, m', d') && Before(m', d', 2, d + 1)
      ensures AtMostAsFar(p, clock, bm, bd, m', d')
    {
      assert Before(m', d', Max(p) + 1, d);
    }
  }

  /** The first pair always beats 1/0, and is trivially the best of one. */
  lemma FirstPair(p: Platform, clock: nat)
    ensures BestBefore(p, clock, 2, 1, 3, 1)
  {
    forall m', d' | InBox(p, m', d') && Before(m', d', 3, 1)
      ensures m' == 2 && d' == 1
    {
    }
  }

  // ---------- the differences fit ----------

  lemma ProductBound(a: nat, b: nat, x: nat, y: nat)
    requires a <= x && b <= y
    ensures a * b <= x * y
  {
    assert a * b <= x * b <= x * y;
  }

  /** A clock within reach of the box: the best divider so far keeps bd * clock near bm * IdealD. */
  lemma ScaledClockBound(p: Platform, clock: nat, bm: nat, bd: nat, m: nat, d: nat)
    requires BestBefore(p, clock, bm, bd, m, d) && clock <= IdealD(p) * Max(p)
    ensures bd * clock <= 3 * (IdealD(p) * Max(p))
  {
    if bd > 1 {
      var i := IdealD(p);
      var near := if clock < 2 * i then 2 else clock / i;
      assert InBox(p, near, 1) && Error(p, clock, near, 1) <= 2 * i;
      assert AtMostAsFar(p, clock, bm, bd, near, 1);
      ProductBound(Error(p, clock, near, 1), bd, 2 * i, Max(p));
      ProductBound(bm, i, Max(p), i);
    } else {
      assert bd == 1;
    }
  }

  /** A clock beyond the box: nothing is closer than Max/1. */
  lemma MaxOverOneIsClosest(p: Platform, clock: nat, m: nat, d: nat)
    requires InBox(p, m, d) && clock > IdealD(p) * Max(p)
    ensures !Closer(p, clock, m, d, Max(p), 1)
  {
    var i, x := IdealD(p), Max(p);
    FarError(p, clock, m, d);
    FarError(p, clock, x, 1);
    assert (clock - x * i) * d == d * clock - d * (x * i);
    ProductBound(m, i, x, i);
    ProductBound(1, x * i, d, x * i);
  }

  /** Every ratio of the box is below the ideal one. */
  lemma FarError(p: Platform, clock: nat, m: nat, d: nat)
    requires InBox(p, m, d) && clock > IdealD(p) * Max(p)
    ensures Error(p, clock, m, d) == d * clock - m * IdealD(p)
  {
    ProductBound(m, IdealD(p), Max(p), IdealD(p));
    ProductBound(1, clock, d, clock);
  }

  lemma FarClockKeepsDividerOne(p: Platform, clock: nat, bm: nat, bd: nat, m: nat, d: nat)
    requires BestBefore(p, clock, bm, bd, m, d) && clock > IdealD(p) * Max(p)
    ensures bd == 1
  {
    MaxOverOneIsClosest(p, clock, bm, bd);
  }

  lemma NearDifferencesFit(p: Platform, clock: nat, bm: nat, bd: nat, m: nat, d: nat)
    requires InBox(p, m, d) && InBox(p, bm, bd) && bd * clock <= 3 * (IdealD(p) * Max(p))
    ensures d * (bd * clock) < TWO_31
    ensures d * Error(p, clock, bm, bd) < TWO_31
    ensures bd * Error(p, clock, m, d) < TWO_31
  {
    var i, x := IdealD(p), Max(p);
    ProductBound(d, bd * clock, x, 3 * (i * x));
    assert bd * (d * clock) == d * (bd * clock);
    ScaledErrorBound(p, clock, bm, bd, d);
    ScaledErrorBound(p, clock, m, d, bd);
  }

  lemma ScaledErrorBound(p: Platform, clock: nat, m: nat, d: nat, f: nat)
    requires m <= Max(p) && f <= Max(p) && f * (d * clock) < TWO_31
    ensures f * Error(p, clock, m, d) < TWO_31
  {
    var multiple := m * IdealD(p);
    ProductBound(m, IdealD(p), Max(p), IdealD(p));
    ProductBound(f, multiple, Max(p), Max(p) * IdealD(p));
    ScaledDifferenceBound(f, multiple, d * clock);
  }

  lemma ScaledDifferenceBound(f: nat, a: nat, b: nat)
    requires f * a < TWO_31 && f * b < TWO_31
    ensures f * Abs(a - b) < TWO_31
  {
    FactorOut(f, a, b);
  }

  lemma FarErrorBound(p: Platform, clock: nat, m: nat, d: nat)
    requires InBox(p, m, d) && IdealD(p) * Max(p) < clock <= Limit(p)
    ensures Error(p, clock, m, d) < TWO_31
    ensures d * Error(p, clock, m, 1) < TWO_31
    ensures d * clock < TWO_32
  {
    var i, x := IdealD(p), Max(p);
    FarError(p, clock, m, d);
    FarError(p, clock, m, 1);
    ProductBound(2, i, m, i);
    ProductBound(d, clock, x, clock);
    ProductBound(d, clock - m * i, x, clock - 2 * i);
  }

  lemma DifferencesFit(p: Platform, clock: nat, bm: nat, bd: nat, m: nat, d: nat)
    requires BestBefore(p, clock, bm, bd, m, d) && InBox(p, m, d) && clock <= Limit(p)
    ensures d * (bd * clock) < TWO_32
    ensures d * Error(p, clock, bm, bd) < TWO_31
    ensures bd * Error(p, clock, m, d) < TWO_31
  {
    if clock <= IdealD(p) * Max(p) {
      ScaledClockBound(p, clock, bm, bd, m, d);
      NearDifferencesFit(p, clock, bm, bd, m, d);
    } else {
      FarClockKeepsDividerOne(p, clock, bm, bd, m, d);
      FarErrorBound(p, clock, m, d);
      FarErrorBound(p, clock, bm, d);
    }
  }

  /** The limit is the widest possible for the differences: above it, testing 2/Max against Max/1 already leaves the signed range. */
  lemma LimitIsWidest(p: Platform, clock: nat)
    requires clock > Limit(p)
    ensures Error(p, clock, 2, Max(p)) >= TWO_31
  {
    assert Max(p) * clock >= Max(p) * (Limit(p) + 1);
  }

  lemma FactorOut(f: nat, a: nat, b: nat)
    ensures f * Abs(a - b) == Abs(f * a - f * b)
  {
    assert f * (a - b) == f * a - f * b;
  }

  // ---------- the search ----------

  function DiffCurrent(p: Platform, clock: Word32, bm: Word32, bd: Word32, d: Word32): Word32 {
    AbsDiff32(Mul32(Mul32(d, IdealD(p)), bm), Mul32(Mul32(d, bd), clock))
  }

  function DiffTested(p: Platform, clock: Word32, bd: Word32, m: Word32, d: Word32): Word32 {
    AbsDiff32(Mul32(Mul32(bd, IdealD(p)), m), Mul32(Mul32(d, bd), clock))
  }

  lemma ScaledDifferenceExact(f: Word32, i: Word32, m: Word32, d: Word32, clock: Word32, db: Word32)
    requires f > 0 && i > 0 && m > 0 && f * i * m < TWO_32
    requires db == f * d && db * clock < TWO_32
    requires f * Abs(m * i - d * clock) < TWO_31
    ensures AbsDiff32(Mul32(Mul32(f, i), m), Mul32(db, clock)) == f * Abs(m * i - d * clock)
  {
    Mul32Exact(f, i, m);
    assert f * i * m == f * (m * i);
    assert db * clock == f * (d * clock);
    FactorOut(f, m * i, d * clock);
    AbsDiff32Exact(f * i * m, db * clock);
  }

  lemma BoxProductFits(p: Platform, m: nat, d: nat)
    requires m <= Max(p) && d <= Max(p)
    ensures d * IdealD(p) * m < TWO_32
  {
    ProductBound(d, IdealD(p), Max(p), IdealD(p));
    ProductBound(d * IdealD(p), m, Max(p) * IdealD(p), Max(p));
  }

  lemma DividerProduct(p: Platform, clock: Word32, bd: nat, d: nat)
    requires bd <= Max(p) && d <= Max(p)
    ensures d < TWO_32 && bd < TWO_32 && d * bd < TWO_32 && Mul32(d, bd) == d * bd == bd * d
    ensures d * bd * clock == d * (bd * clock)
  {
    ProductBound(d, bd, Max(p), Max(p));
  }

  lemma DiffCurrentExact(p: Platform, clock: Word32, bm: nat, bd: nat, d: nat)
    requires InBox(p, bm, bd) && 1 <= d <= Max(p)
    requires d * (bd * clock) < TWO_32 && d * Error(p, clock, bm, bd) < TWO_31
    ensures DiffCurrent(p, clock, bm, bd, d) == d * Error(p, clock, bm, bd)
  {
    BoxProductFits(p, bm, d);
    DividerProduct(p, clock, bd, d);
    ScaledDifferenceExact(d, IdealD(p), bm, bd, clock, d * bd);
  }

  lemma DiffTestedExact(p: Platform, clock: Word32, bd: nat, m: nat, d: nat)
    requires InBox(p, m, d) && 1 <= bd <= Max(p)
    requires d * (bd * clock) < TWO_32 && bd * Error(p, clock, m, d) < TWO_31
    ensures DiffTested(p, clock, bd, m, d) == bd * Error(p, clock, m, d)
  {
    BoxProductFits(p, m, bd);
    DividerProduct(p, clock, bd, d);
    ScaledDifferenceExact(bd, IdealD(p), m, d, clock, d * bd);
  }

  /** The pair that the 32-bit search holds when it comes to (m, d). */
  function SearchBefore(p: Platform, clock: Word32, m: nat, d: nat): (best: (nat, nat))
    requires 2 <= m <= Max(p) + 1 && 1 <= d <= Max(p) + 1
    ensures best.0 <= Max(p) && best.1 <= Max(p)
    decreases d, m
  {
    if m == 2 then
      if d == 1 then (1, 0) else SearchBefore(p, clock, Max(p) + 1, d - 1)
    else
      var (bm, bd) := SearchBefore(p, clock, m - 1, d);
      if d <= Max(p) && DiffTested(p, clock, bd, m - 1, d) < DiffCurrent(p, clock, bm, bd, d) then (m - 1, d) else (bm, bd)
  }

  /** The pair it ends with. */
  function Searched(p: Platform, clock: Word32): (nat, nat) {
    SearchBefore(p, clock, 2, Max(p) + 1)
  }

  lemma SearchStarts(p: Platform, clock: Word32)
    ensures SearchBefore(p, clock, 2, 1) == (1, 0)
  {
  }

  lemma SearchStep(p: Platform, clock: Word32, m: nat, d: nat)
    requires 2 <= m <= Max(p) && 1 <= d <= Max(p)
    ensures var best := SearchBefore(p, clock, m, d);
            SearchBefore(p, clock, m + 1, d) ==
            if DiffTested(p, clock, best.1, m, d) < DiffCurrent(p, clock, best.0, best.1, d) then (m, d) else best
  {
  }

  lemma SearchRow(p: Platform, clock: Word32, d: nat)
    requires 1 <= d <= Max(p)
    ensures SearchBefore(p, clock, 2, d + 1) == SearchBefore(p, clock, Max(p) + 1, d)
  {
  }

  /** Common denominator d * bd * IdealD: the distance of the best pair so far. */
  method CurrentDifference(p: Platform, clock: Word32, bm: nat, bd: nat, m: nat, d: nat) returns (diff: Word32)
    requires InBox(p, m, d) && (InBox(p, bm, bd) || (bm == 1 && bd == 0))
    ensures diff == DiffCurrent(p, clock, bm, bd, d) && (bd == 0 ==> diff == d * IdealD(p))
    ensures BestBefore(p, clock, bm, bd, m, d) && clock <= Limit(p) ==> diff == d * Error(p, clock, bm, bd)
  {
    ProductBound(d, IdealD(p), Max(p), IdealD(p));
    diff := DiffCurrent(p, clock, bm, bd, d);
    if BestBefore(p, clock, bm, bd, m, d) && clock <= Limit(p) {
      DifferencesExact(p, clock, bm, bd, m, d);
    }
  }

  /** Over the same denominator, the distance of the pair under test. */
  method TestedDifference(p: Platform, clock: Word32, bm: nat, bd: nat, m: nat, d: nat) returns (diff: Word32)
    requires InBox(p, m, d) && (InBox(p, bm, bd) || (bm == 1 && bd == 0))
    ensures diff == DiffTested(p, clock, bd, m, d) && (bd == 0 ==> diff == 0)
    ensures BestBefore(p, clock, bm, bd, m, d) && clock <= Limit(p) ==> diff == bd * Error(p, clock, m, d)
  {
    diff := DiffTested(p, clock, bd, m, d);
    if BestBefore(p, clock, bm, bd, m, d) && clock <= Limit(p) {
      DifferencesExact(p, clock, bm, bd, m, d);
    }
  }

  /** Every 32-bit pixel clock gets a pair inside the box; it is the pair the exact search would choose for exactly the
      clocks up to `Last`. */
  method GetClockMd(p: Platform, pixelClock: Word32) returns (bm: nat, bd: nat)
    ensures InBox(p, bm, bd) && (bm, bd) == Searched(p, pixelClock)
    ensures Optimal(p, pixelClock, bm, bd) <==> pixelClock <= Last(p)
  {
    hide SearchBefore, DiffTested, DiffCurrent, BestBefore, Optimal, Limit, Last;
    bm, bd := 1, 0;
    var d := 1;
    SearchStarts(p, pixelClock);
    while d <= Max(p)
      invariant 1 <= d <= Max(p) + 1
      invariant (bm, bd) == SearchBefore(p, pixelClock, 2, d)
    {
      var m := 2;
      while m <= Max(p)
        invariant 2 <= m <= Max(p) + 1
        invariant (bm, bd) == SearchBefore(p, pixelClock, m, d)
      {
        SearchInBox(p, pixelClock, m, d);
        SearchStep(p, pixelClock, m, d);
        var diffCurrent := CurrentDifference(p, pixelClock, bm, bd, m, d);
        var diffTested := TestedDifference(p, pixelClock, bm, bd, m, d);
        if diffTested < diffCurrent {
          bm := m;
          bd := d;
        }
        m := m + 1;
      }
      SearchRow(p, pixelClock, d);
      d := d + 1;
    }
    OptimalExactlyUpToLast(p, pixelClock);
  }

  lemma {:induction false} SearchInBox(p: Platform, clock: Word32, m: nat, d: nat)
    requires 2 <= m <= Max(p) + 1 && 1 <= d <= Max(p) + 1 && (d <= Max(p) || m == 2)
    ensures var (bm, bd) := SearchBefore(p, clock, m, d);
            if d == 1 && m == 2 then (bm, bd) == (1, 0) else InBox(p, bm, bd)
    decreases d, m
  {
    hide SearchBefore, DiffTested, DiffCurrent;
    if d == 1 && m <= 3 {
      SearchStarts(p, clock);
      FirstRowStarts(p, clock);
    } else if m > 2 {
      SearchInBox(p, clock, m - 1, d);
      SearchStep(p, clock, m - 1, d);
    } else {
      SearchInBox(p, clock, Max(p) + 1, d - 1);
      SearchRow(p, clock, d - 1);
    }
  }

  /** Comparing the machine differences is comparing the distances. */
  lemma MachineComparison(p: Platform, clock: Word32, bm: nat, bd: nat, m: nat, d: nat)
    requires BestBefore(p, clock, bm, bd, m, d) && InBox(p, m, d) && clock <= Limit(p)
    ensures DiffTested(p, clock, bd, m, d) < DiffCurrent(p, clock, bm, bd, d) <==> Closer(p, clock, m, d, bm, bd)
  {
    DifferencesExact(p, clock, bm, bd, m, d);
    ProductsCommute(bd, Error(p, clock, m, d), d, Error(p, clock, bm, bd));
    hide DiffTested, DiffCurrent, Error, BestBefore, Limit;
  }

  lemma DifferencesExact(p: Platform, clock: Word32, bm: nat, bd: nat, m: nat, d: nat)
    requires BestBefore(p, clock, bm, bd, m, d) && InBox(p, m, d) && clock <= Limit(p)
    ensures DiffCurrent(p, clock, bm, bd, d) == d * Error(p, clock, bm, bd)
    ensures DiffTested(p, clock, bd, m, d) == bd * Error(p, clock, m, d)
  {
    DifferencesFit(p, clock, bm, bd, m, d);
    assert InBox(p, bm, bd);
    hide DiffTested, DiffCurrent, Error, BestBefore, Limit;
    DiffCurrentExact(p, clock, bm, bd, d);
    DiffTestedExact(p, clock, bd, m, d);
  }

  lemma ProductsCommute(a: nat, b: nat, c: nat, d: nat)
    ensures a * b == b * a && c * d == d * c
  {
  }

  /** Up to the limit, where machine differences are exact, the search holds the best pair of those scanned. */
  lemma {:induction false} SearchIsBest(p: Platform, clock: Word32, m: nat, d: nat)
    requires clock <= Limit(p)
    requires 2 <= m <= Max(p) + 1 && 1 <= d <= Max(p) + 1 && (d <= Max(p) || m == 2) && (d > 1 || m > 2)
    ensures var (bm, bd) := SearchBefore(p, clock, m, d); BestBefore(p, clock, bm, bd, m, d)
    decreases d, m
  {
    hide SearchBefore, DiffTested, DiffCurrent, BestBefore, Closer, Limit;
    if d == 1 && m == 3 {
      FirstRowStarts(p, clock);
      FirstPair(p, clock);
    } else if m > 2 {
      var (bm, bd) := SearchBefore(p, clock, m - 1, d);
      SearchIsBest(p, clock, m - 1, d);
      SearchInBox(p, clock, m - 1, d);
      SearchStep(p, clock, m - 1, d);
      MachineComparison(p, clock, bm, bd, m - 1, d);
      if Closer(p, clock, m - 1, d, bm, bd) {
        ReplaceBest(p, clock, bm, bd, m - 1, d);
      } else {
        KeepBest(p, clock, bm, bd, m - 1, d);
      }
    } else {
      var (bm, bd) := SearchBefore(p, clock, Max(p) + 1, d - 1);
      SearchIsBest(p, clock, Max(p) + 1, d - 1);
      SearchRow(p, clock, d - 1);
      NextDivider(p, clock, bm, bd, d - 1);
    }
  }

  lemma BestIsOptimal(p: Platform, clock: nat, bm: nat, bd: nat)
    requires BestBefore(p, clock, bm, bd, 2, Max(p) + 1)
    ensures Optimal(p, clock, bm, bd)
  {
    assert forall m, d :: InBox(p, m, d) ==> Before(m, d, 2, Max(p) + 1);
  }

  // ---------- what the result means ----------

  /** The specification leaves no choice: the machine search and an exact search agree. */
  lemma OptimalIsUnique(p: Platform, clock: nat, m1: nat, d1: nat, m2: nat, d2: nat)
    requires Optimal(p, clock, m1, d1) && Optimal(p, clock, m2, d2)
    ensures m1 == m2 && d1 == d2
  {
    assert AtMostAsFar(p, clock, m1, d1, m2, d2) && AtMostAsFar(p, clock, m2, d2, m1, d1);
    assert Before(m1, d1, m2, d2) ==> Closer(p, clock, m2, d2, m1, d1);
    assert Before(m2, d2, m1, d1) ==> Closer(p, clock, m1, d1, m2, d2);
  }

  lemma Reassociate(a: nat, b: nat, c: nat)
    ensures a * b * c == a * (b * c)
  {
  }

  lemma ErrorScales(p: Platform, clock: nat, m: nat, d: nat, g: nat)
    ensures Error(p, clock, g * m, g * d) == g * Error(p, clock, m, d)
  {
    Reassociate(g, m, IdealD(p));
    Reassociate(g, d, clock);
    FactorOut(g, m * IdealD(p), d * clock);
    hide Abs;
  }

  /** Multiples of one pair are equally far from the ideal ratio. */
  lemma MultiplesAreEquallyFar(p: Platform, clock: nat, m: nat, d: nat, f: nat, g: nat)
    ensures !Closer(p, clock, g * m, g * d, f * m, f * d)
  {
    ErrorScales(p, clock, m, d, f);
    ErrorScales(p, clock, m, d, g);
    var e := Error(p, clock, m, d);
    assert (g * e) * (f * d) == (f * e) * (g * d);
  }

  /** The result is in lowest terms, except that 1/d is out of the box and appears as 2/2d. */
  lemma LowestTerms(p: Platform, clock: nat, m: nat, d: nat, g: nat)
    requires g >= 2 && Optimal(p, clock, g * m, g * d)
    ensures g == 2 && m == 1
  {
    hide Closer, AtMostAsFar;
    assert m > 0 && d > 0;
    assert d < g * d;
    if m >= 2 {
      assert InBox(p, 1 * m, 1 * d) && Before(1 * m, 1 * d, g * m, g * d);
      MultiplesAreEquallyFar(p, clock, m, d, 1, g);
    } else if g > 2 {
      assert InBox(p, 2 * m, 2 * d) && Before(2 * m, 2 * d, g * m, g * d);
      MultiplesAreEquallyFar(p, clock, m, d, 2, g);
    }
  }

  // ---------- beyond the limit ----------

  lemma EvenOrOddProduct(a: nat, b: nat)
    ensures a * b % 2 == 1 <==> a % 2 == 1 && b % 2 == 1
  {
    assert a * b == 2 * (a / 2 * b) + a % 2 * b;
  }

  /** Products with 2^31 keep only the parity of the other factor. */
  lemma HalfRangeProduct(d: nat, bd: nat)
    requires d <= 256 && bd <= 256
    ensures Mul32(Mul32(d, bd), TWO_31) == if d % 2 == 1 && bd % 2 == 1 then TWO_31 else 0
  {
    ProductBound(d, bd, 256, 256);
    EvenOrOddProduct(d, bd);
    TimesHalfRange(d * bd);
  }

  lemma TimesHalfRange(k: nat)
    requires k <= 0x1_0000
    ensures Mul32(k, TWO_31) == if k % 2 == 1 then TWO_31 else 0
  {
    assert k * TWO_31 == k / 2 * TWO_32 + k % 2 * TWO_31;
  }

  lemma HalfRangeDifferences(p: Platform, bm: nat, bd: nat, m: nat, d: nat)
    requires bm <= Max(p) && bd <= Max(p) && m <= Max(p) && d <= Max(p) && bm > 0 && d > 0
    ensures var odd := d % 2 == 1 && bd % 2 == 1;
            && DiffCurrent(p, TWO_31, bm, bd, d) == (if odd then TWO_31 - IdealD(p) * d * bm else IdealD(p) * d * bm)
            && DiffTested(p, TWO_31, bd, m, d) == (if odd then TWO_31 - IdealD(p) * bd * m else IdealD(p) * bd * m)
  {
    HalfRangeProduct(d, bd);
    HalfRangeTerm(p, d, bm);
    HalfRangeTerm(p, bd, m);
  }

  lemma HalfRangeTerm(p: Platform, d: nat, m: nat)
    requires d <= Max(p) && m <= Max(p)
    ensures Mul32(Mul32(d, IdealD(p)), m) == IdealD(p) * d * m < TWO_31
  {
    ProductBound(d, IdealD(p), Max(p), IdealD(p));
    ProductBound(d * IdealD(p), m, Max(p) * IdealD(p), Max(p));
  }

  /** At a clock of 2^31 the search climbs the multipliers for odd dividers and falls back to 2 for even ones. */
  lemma {:induction false} HalfRangeSearch(p: Platform, m: nat, d: nat)
    requires 2 <= m <= Max(p) + 1 && 1 <= d <= Max(p) + 1 && (d <= Max(p) || m == 2)
    ensures SearchBefore(p, TWO_31, m, d) ==
            if m > 2 then (if d % 2 == 1 then (m - 1, d) else (2, d))
            else if d == 1 then (1, 0) else if d % 2 == 0 then (Max(p), d - 1) else (2, d - 1)
    decreases d, m
  {
    hide DiffCurrent, DiffTested, SearchBefore;
    if m > 2 {
      HalfRangeSearch(p, m - 1, d);
      var best := SearchBefore(p, TWO_31, m - 1, d);
      SearchStep(p, TWO_31, m - 1, d);
      HalfRangeDifferences(p, best.0, best.1, m - 1, d);
      HalfRangeComparison(IdealD(p), best.0, best.1, m - 1, d);
      HalfRangeProducts(best.0, best.1, m - 1, d, Max(p));
    } else if d > 1 {
      SearchRow(p, TWO_31, d - 1);
      HalfRangeSearch(p, Max(p) + 1, d - 1);
    } else {
      SearchStarts(p, TWO_31);
    }
  }

  /** The comparisons that occur: along a row, and at its beginning. */
  lemma HalfRangeProducts(bm: nat, bd: nat, m: nat, d: nat, max: nat)
    requires 2 <= m <= max && d >= 1
    requires if m > 2 then (bm, bd) == (if d % 2 == 1 then (m - 1, d) else (2, d))
             else (bm, bd) == (if d == 1 then (1, 0) else if d % 2 == 0 then (max, d - 1) else (2, d - 1))
    ensures if d % 2 == 1 && bd % 2 == 1 then d * bm < bd * m else (bd * m < d * bm <==> m == 2)
  {
    if m > 2 && d % 2 == 1 {
      ProductBound(d, bm, d, m);
      assert d * m == d * bm + d;
    } else if m > 2 {
      ProductBound(d, 2, d, m);
    } else if d > 1 {
      ProductBound(d, 2, d, bm);
      assert bd * 2 < d * 2;
    }
  }

  /** bd * m against d * bm, scaled. */
  lemma HalfRangeComparison(i: nat, bm: nat, bd: nat, m: nat, d: nat)
    requires i > 0
    ensures i * bd * m < i * d * bm <==> bd * m < d * bm
    ensures i * d * bm < i * bd * m <==> d * bm < bd * m
  {
    assert i * bd * m == i * (bd * m) && i * d * bm == i * (d * bm);
    if bd * m < d * bm {
      ProductBound(i, bd * m + 1, i, d * bm);
    } else if d * bm < bd * m {
      ProductBound(i, d * bm + 1, i, bd * m);
    }
  }

  /** A clock for which the search fails: it returns the smallest ratio of the box where the largest is best. */
  lemma HalfRangeFails(p: Platform)
    ensures Searched(p, TWO_31) == (2, Max(p)) && !Optimal(p, TWO_31, 2, Max(p))
  {
    hide SearchBefore;
    HalfRangeSearch(p, 2, Max(p) + 1);
    assert InBox(p, Max(p), 1) && !AtMostAsFar(p, TWO_31, 2, Max(p), Max(p), 1);
  }

  // ---------- exactly how far the search goes ----------

  /** What is left of a number in 32 bits, taken as a distance from zero either way. */
  function Circ(x: int): nat {
    var r := x % 0x1_0000_0000;
    if r < TWO_31 then r else TWO_32 - r
  }

  lemma CircOf(x: int, r: int)
    requires 0 <= r < TWO_32 && (x == r || x == r + TWO_32 || x == r - TWO_32)
    ensures Circ(x) == if r < TWO_31 then r else TWO_32 - r
  {
  }

  lemma CircShift(x: int, r: int, a: int)
    requires r == x % 0x1_0000_0000
    ensures Circ(x - a) == Circ(r - a)
  {
  }

  lemma AbsDiff32IsCirc(a: Word32, x: nat)
    ensures AbsDiff32(a, Wrap32(x)) == Circ(x - a)
  {
    var r := x % 0x1_0000_0000;
    CircShift(x, r, a);
    CircOf(r - a, if r >= a then r - a else r - a + TWO_32);
    hide Circ;
  }

  /** The machine difference is a distance on the circle of 32-bit numbers. */
  lemma DifferenceIsCirc(p: Platform, clock: Word32, f: nat, m: nat, d: nat, bd: nat)
    requires f <= Max(p) && m <= Max(p) && d <= Max(p) && bd <= Max(p)
    ensures AbsDiff32(Mul32(Mul32(f, IdealD(p)), m), Mul32(Mul32(d, bd), clock)) == Circ(d * bd * clock - f * IdealD(p) * m)
  {
    DividerProduct(p, clock, bd, d);
    HalfRangeTerm(p, f, m);
    AbsDiff32IsCirc(IdealD(p) * f * m, d * bd * clock);
    assert IdealD(p) * f * m == f * IdealD(p) * m;
    hide AbsDiff32, Circ;
  }

  /** Within the first row. */
  lemma FirstRowStep(p: Platform, clock: Word32, bm: nat, m: nat)
    requires bm <= Max(p) && 2 <= m <= Max(p) && SearchBefore(p, clock, m, 1) == (bm, 1)
    ensures SearchBefore(p, clock, m + 1, 1) ==
            if Circ(clock - IdealD(p) * m) < Circ(clock - IdealD(p) * bm) then (m, 1) else (bm, 1)
  {
    hide SearchBefore, Circ, AbsDiff32, Mul32, Max, IdealD;
    SearchStep(p, clock, m, 1);
    DifferenceIsCirc(p, clock, 1, bm, 1, 1);
    DifferenceIsCirc(p, clock, 1, m, 1, 1);
  }

  lemma FirstRowStarts(p: Platform, clock: Word32)
    ensures SearchBefore(p, clock, 3, 1) == (2, 1)
  {
    SearchStarts(p, clock);
    SearchStep(p, clock, 2, 1);
    hide SearchBefore;
  }

  /** Within a later row, as long as Max/1 is held; `excess` is what the clock has above it. */
  lemma LaterRowStep(p: Platform, clock: Word32, excess: nat, m: nat, d: nat)
    requires clock == excess + IdealD(p) * Max(p) && InBox(p, m, d)
    requires SearchBefore(p, clock, m, d) == (Max(p), 1)
    ensures SearchBefore(p, clock, m + 1, d) ==
            if Circ(d * excess + IdealD(p) * (d * Max(p) - m)) < Circ(d * excess) then (m, d) else (Max(p), 1)
  {
    hide SearchBefore, Circ, AbsDiff32, Mul32, Max, IdealD;
    SearchStep(p, clock, m, d);
    DifferenceIsCirc(p, clock, d, Max(p), d, 1);
    DifferenceIsCirc(p, clock, 1, m, d, 1);
    LaterRowTerms(IdealD(p), Max(p), excess, m, d);
  }

  lemma LaterRowTerms(i: nat, max: nat, excess: nat, m: nat, d: nat)
    ensures d * 1 * (excess + i * max) - d * i * max == d * excess
    ensures d * 1 * (excess + i * max) - 1 * i * m == d * excess + i * (d * max - m)
  {
    assert d * (excess + i * max) == d * excess + d * (i * max);
    assert d * (i * max) == d * i * max == i * (d * max);
    assert i * (d * max - m) == i * (d * max) - i * m;
  }

  /** Going on by `a` from `y` comes no closer to zero before half way round. */
  lemma NotYetCloser(y: nat, a: nat)
    requires 2 * y + a <= TWO_32
    ensures Circ(y) <= Circ(y + a)
  {
  }

  /** Behind it, it does. */
  lemma ComesCloser(y: nat, a: nat)
    requires 0 < a < TWO_32 < 2 * y + a < 2 * TWO_32
    ensures Circ(y + a) < Circ(y)
  {
    CircOf(y, y);
    CircOf(y + a, if y + a < TWO_32 then y + a else y + a - TWO_32);
    hide Circ;
  }

  lemma StaysCloser(y: nat, a: nat)
    requires y + a < TWO_32 <= 2 * y + a
    ensures Circ(y + a) <= Circ(y)
  {
    CircOf(y, y);
    CircOf(y + a, y + a);
    hide Circ;
  }

  lemma ExactWhileSmall(x: nat)
    requires x < TWO_31
    ensures Circ(x) == x
  {
  }

  // ---------- beyond the box, up to the last clock ----------

  /** The first row climbs. */
  lemma {:induction false} FirstRowClimbs(p: Platform, clock: Word32, m: nat)
    requires IdealD(p) * Max(p) < clock < TWO_31 && 3 <= m <= Max(p) + 1
    ensures SearchBefore(p, clock, m, 1) == (m - 1, 1)
    decreases m
  {
    hide SearchBefore, Circ;
    if m == 3 {
      FirstRowStarts(p, clock);
    } else {
      FirstRowClimbs(p, clock, m - 1);
      FirstRowStep(p, clock, m - 2, m - 1);
      ProductBound(m - 1, IdealD(p), Max(p), IdealD(p));
      ExactWhileSmall(clock - IdealD(p) * (m - 1));
      ExactWhileSmall(clock - IdealD(p) * (m - 2));
    }
  }

  /** Up to the last clock no pair comes half way round from Max/1. */
  lemma BeforeHalfWay(p: Platform, clock: Word32, excess: nat, m: nat, d: nat)
    requires clock == excess + IdealD(p) * Max(p) && clock <= Last(p) && InBox(p, m, d)
    ensures d * Max(p) >= m && 2 * (d * excess) + IdealD(p) * (d * Max(p) - m) <= TWO_32
  {
    var i, x := IdealD(p), Max(p);
    ProductBound(d, excess, x, excess);
    ProductBound(1, x, d, x);
    ProductBound(d, x, x, x);
    ProductBound(i, d * x - m, i, x * x - 2);
    assert x * clock <= x * Last(p);
  }

  /** The later rows change nothing. */
  lemma {:induction false} LaterRowsKeep(p: Platform, clock: Word32, m: nat, d: nat)
    requires IdealD(p) * Max(p) < clock < TWO_31 && clock <= Last(p)
    requires 2 <= m <= Max(p) + 1 && 2 <= d <= Max(p) + 1 && (d <= Max(p) || m == 2)
    ensures SearchBefore(p, clock, m, d) == (Max(p), 1)
    decreases d, m
  {
    hide SearchBefore, Circ, Last;
    if m == 2 {
      SearchRow(p, clock, d - 1);
      if d == 2 {
        FirstRowClimbs(p, clock, Max(p) + 1);
      } else {
        LaterRowsKeep(p, clock, Max(p) + 1, d - 1);
      }
    } else {
      var excess := clock - IdealD(p) * Max(p);
      LaterRowsKeep(p, clock, m - 1, d);
      LaterRowStep(p, clock, excess, m - 1, d);
      BeforeHalfWay(p, clock, excess, m - 1, d);
      NotYetCloser(d * excess, IdealD(p) * (d * Max(p) - (m - 1)));
    }
  }

  /** Beyond the box the optimum is Max/1. */
  lemma FarOptimum(p: Platform, clock: nat)
    requires clock > IdealD(p) * Max(p)
    ensures Optimal(p, clock, Max(p), 1)
  {
    forall m: nat, d: nat | InBox(p, m, d)
      ensures AtMostAsFar(p, clock, Max(p), 1, m, d)
      ensures Before(m, d, Max(p), 1) ==> Closer(p, clock, Max(p), 1, m, d)
    {
      MaxOverOneIsClosest(p, clock, m, d);
      if Before(m, d, Max(p), 1) {
        FarError(p, clock, m, d);
        FarError(p, clock, Max(p), 1);
        ProductBound(m + 1, IdealD(p), Max(p), IdealD(p));
      }
    }
  }

  // ---------- beyond the last clock ----------

  /** A pair with divider 1 that the search ends with was held from the second row on. */
  lemma {:induction false} HeldThroughout(p: Platform, clock: Word32, m: nat, d: nat)
    requires Searched(p, clock) == (Max(p), 1)
    requires 2 <= m <= Max(p) + 1 && 2 <= d <= Max(p) + 1 && (d <= Max(p) || m == 2)
    ensures SearchBefore(p, clock, m, d) == (Max(p), 1)
    decreases Max(p) + 1 - d, Max(p) + 1 - m
  {
    hide SearchBefore, DiffTested, DiffCurrent;
    if m <= Max(p) && d <= Max(p) {
      HeldThroughout(p, clock, m + 1, d);
      SearchStep(p, clock, m, d);
    } else if d <= Max(p) {
      HeldThroughout(p, clock, 2, d + 1);
      SearchRow(p, clock, d);
    }
  }

  /** So no pair of the later rows came closer on the circle. */
  lemma NothingCameCloser(p: Platform, clock: Word32, excess: nat, m: nat, d: nat)
    requires Searched(p, clock) == (Max(p), 1) && clock == excess + IdealD(p) * Max(p)
    requires InBox(p, m, d) && d >= 2
    ensures Circ(d * excess) <= Circ(d * excess + IdealD(p) * (d * Max(p) - m))
  {
    hide SearchBefore, Circ;
    HeldThroughout(p, clock, m, d);
    HeldThroughout(p, clock, m + 1, d);
    LaterRowStep(p, clock, excess, m, d);
  }

  /** The first multiple of `w` beyond `bound`. */
  lemma FirstBeyond(w: nat, bound: nat, x: nat) returns (d: nat)
    requires 0 < w <= bound < x * w
    ensures 2 <= d <= x && bound < d * w <= bound + w
  {
    d := bound / w + 1;
    assert bound == bound / w * w + bound % w;
    assert d * w == bound / w * w + w;
    if d > x {
      ProductBound(x, w, d - 1, w);
    }
  }

  /** Less than half way round in the second row: some later row starts half way round. */
  lemma LostInARow(p: Platform, clock: Word32, excess: nat)
    requires Searched(p, clock) == (Max(p), 1) && clock == excess + IdealD(p) * Max(p)
    requires 2 * excess + IdealD(p) * Max(p) < TWO_32
    ensures clock <= Last(p)
  {
    var i, x := IdealD(p), Max(p);
    var w := 2 * excess + i * x;
    if clock > Last(p) {
      BeyondLast(p, clock, excess);
      assert w > 0 && w <= TWO_32 + 2 * i;
      var d := FirstBeyond(w, TWO_32 + 2 * i, x);
      NothingCameCloser(p, clock, excess, 2, d);
      RowStart(p, excess, d);
      ComesCloser(d * excess, i * (d * x - 2));
    }
  }

  lemma BeyondLast(p: Platform, clock: nat, excess: nat)
    requires clock == excess + IdealD(p) * Max(p) && clock > Last(p)
    ensures Max(p) * (2 * excess + IdealD(p) * Max(p)) > TWO_32 + 2 * IdealD(p)
  {
    assert Max(p) * clock >= Max(p) * (Last(p) + 1);
  }

  lemma RowStart(p: Platform, excess: nat, d: nat)
    requires 2 <= d <= Max(p)
    ensures 0 < IdealD(p) * (d * Max(p) - 2) < TWO_31
    ensures 2 * (d * excess) + IdealD(p) * (d * Max(p) - 2) == d * (2 * excess + IdealD(p) * Max(p)) - 2 * IdealD(p)
  {
    var i, x := IdealD(p), Max(p);
    ProductBound(d, x, x, x);
    ProductBound(i, d * x - 2, i, x * x);
    assert i * (d * x - 2) == d * (i * x) - 2 * i;
  }

  /** Around half way in the second row: its last pair is closer. */
  lemma LostInRowTwo(p: Platform, clock: Word32, excess: nat)
    requires clock == excess + IdealD(p) * Max(p) && 2 * excess + IdealD(p) * Max(p) >= TWO_32
    requires 2 * clock < TWO_32 + IdealD(p) * (Max(p) + 2)
    ensures Searched(p, clock) != (Max(p), 1)
  {
    if Searched(p, clock) == (Max(p), 1) {
      NothingCameCloser(p, clock, excess, Max(p), 2);
      ComesCloser(2 * excess, IdealD(p) * (2 * Max(p) - Max(p)));
    }
  }

  /** Above that the first row never leaves 2/1. */
  lemma {:induction false} LostInRowOne(p: Platform, clock: Word32, m: nat)
    requires 2 * clock >= TWO_32 + IdealD(p) * (Max(p) + 2) && 3 <= m <= Max(p) + 1
    ensures SearchBefore(p, clock, m, 1) == (2, 1)
    decreases m
  {
    hide SearchBefore, Circ;
    if m == 3 {
      FirstRowStarts(p, clock);
    } else {
      var i := IdealD(p);
      LostInRowOne(p, clock, m - 1);
      FirstRowStep(p, clock, 2, m - 1);
      ProductBound(m - 1, i, Max(p), i);
      StaysCloser(clock - i * (m - 1), i * (m - 1) - i * 2);
    }
  }

  lemma LostBeyondLast(p: Platform, clock: Word32)
    requires clock > Last(p)
    ensures Searched(p, clock) != (Max(p), 1)
  {
    hide SearchBefore, Searched;
    var excess := clock - IdealD(p) * Max(p);
    if 2 * clock >= TWO_32 + IdealD(p) * (Max(p) + 2) {
      if Searched(p, clock) == (Max(p), 1) {
        HeldThroughout(p, clock, 2, 2);
        SearchRow(p, clock, 1);
        LostInRowOne(p, clock, Max(p) + 1);
      }
    } else if 2 * excess + IdealD(p) * Max(p) >= TWO_32 {
      LostInRowTwo(p, clock, excess);
    } else if Searched(p, clock) == (Max(p), 1) {
      LostInARow(p, clock, excess);
    }
  }

  /** Main result: the search finds the optimum for exactly the clocks up to `Last`. */
  lemma OptimalExactlyUpToLast(p: Platform, clock: Word32)
    ensures var (bm, bd) := Searched(p, clock); InBox(p, bm, bd) && (Optimal(p, clock, bm, bd) <==> clock <= Last(p))
  {
    hide SearchBefore, Optimal;
    var (bm, bd) := Searched(p, clock);
    SearchInBox(p, clock, 2, Max(p) + 1);
    if clock <= IdealD(p) * Max(p) {
      SearchIsBest(p, clock, 2, Max(p) + 1);
      BestIsOptimal(p, clock, bm, bd);
    } else {
      FarOptimum(p, clock);
      if clock <= Last(p) {
        LaterRowsKeep(p, clock, 2, Max(p) + 1);
      } else {
        LostBeyondLast(p, clock);
        if Optimal(p, clock, bm, bd) {
          OptimalIsUnique(p, clock, bm, bd, Max(p), 1);
        }
      }
    }
  }
}
