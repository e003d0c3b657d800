/** The frame-buffer rotation of the HDMI capture interrupt.

    Two DMA slots fill buffers, one buffer is displayed, and a counter names the buffer to arm next.  A slot that completes
    a frame of the expected length hands its buffer to the display and is armed with a fresh one; after a frame of any other
    length it is armed again with the same buffer. */
module HdmiCapture {

  const FRAMEBUFFER_SIZE := 0x40_0000
  const FRAMEBUFFER_COUNT := 4

  /** The buffer that arming number `k` uses: masking with FRAMEBUFFER_COUNT - 1. */
  function Wrap(k: int): (b: nat)
    ensures b < FRAMEBUFFER_COUNT
  {
    k % 4
  }

  datatype Slot = Slot0 | Slot1

  /** What the interrupt finds in a slot: nothing, or a finished transfer of so many bytes. */
  datatype Completion = NotPending | Pending(length: int)

  datatype State = State(slot0: nat, slot1: nat, next: nat, shown: nat)

  predicate InRange(s: State) {
    s.slot0 < FRAMEBUFFER_COUNT && s.slot1 < FRAMEBUFFER_COUNT
    && s.next < FRAMEBUFFER_COUNT && s.shown < FRAMEBUFFER_COUNT
  }

  /** `hdmi_in0_enable`, from whatever state. */
  const ENABLED := State(0, 1, 2, 3)

  predicate Good(c: Completion, expected: int) {
    c.Pending? && c.length == expected
  }

  function IndexOf(s: State, slot: Slot): nat {
    match slot
    case Slot0 => s.slot0
    case Slot1 => s.slot1
  }

  /** The slot keeps going with a fresh buffer. */
  function Rearm(s: State, slot: Slot): State {
    var free := s.next;
    var advanced := s.(next := Wrap(s.next + 1));
    match slot
    case Slot0 => advanced.(slot0 := free)
    case Slot1 => advanced.(slot1 := free)
  }

  /** The interrupt serves slot 0, then slot 1, and then shows the last good buffer it saw. */
  function Isr(s: State, c0: Completion, c1: Completion, expected: int): State {
    var a := if Good(c0, expected) then Rearm(s, Slot0) else s;
    var b := if Good(c1, expected) then Rearm(a, Slot1) else a;
    if Good(c1, expected) then b.(shown := a.slot1)
    else if Good(c0, expected) then b.(shown := s.slot0)
    else b
  }

  /** The fresh armings an interrupt makes, in order. */
  function FreshArmings(c0: Completion, c1: Completion, expected: int): seq<Slot> {
    (if Good(c0, expected) then [Slot0] else []) + (if Good(c1, expected) then [Slot1] else [])
  }

  /** No buffer is armed twice, and none is armed while it is displayed. */
  predicate Distinct(s: State) {
    s.slot0 != s.slot1 && s.slot0 != s.shown && s.slot1 != s.shown
  }

  // ---------- arming histories ----------

  /** All fresh armings since enable, which itself arms slot 0 and then slot 1. */
  predicate IsHistory(a: seq<Slot>) {
    |a| >= 2 && a[0] == Slot0 && a[1] == Slot1
  }

  /** How often the slot armed last has been armed in a row. */
  function TrailingRun(a: seq<Slot>): (r: nat)
    requires |a| > 0
    ensures 1 <= r <= |a|
    decreases |a|
  {
    var n := |a|;
    if n == 1 || a[n - 1] != a[n - 2] then 1 else TrailingRun(a[..n - 1]) + 1
  }

  lemma {:induction false} TrailingRunIsMaximal(a: seq<Slot>)
    requires |a| > 0
    ensures forall k :: |a| - TrailingRun(a) <= k < |a| ==> a[k] == a[|a| - 1]
    ensures TrailingRun(a) < |a| ==> a[|a| - 1 - TrailingRun(a)] != a[|a| - 1]
    decreases |a|
  {
    var n := |a|;
    if n > 1 && a[n - 1] == a[n - 2] {
      TrailingRunIsMaximal(a[..n - 1]);
    }
  }

  /** The number of the arming that filled the buffer on display; -1 stands for the buffer shown at enable. */
  function ShownArming(a: seq<Slot>): int
    requires IsHistory(a)
  {
    var n := |a|;
    if TrailingRun(a) >= 2 then n - 2 else n - 2 - TrailingRun(a[..n - 1])
  }

  /** Arming number `k` uses buffer `k` modulo four, so the history determines the indices. */
  function StateOf(a: seq<Slot>): State
    requires IsHistory(a)
  {
    var n := |a|;
    var last, other := Wrap(n - 1), Wrap(n - 1 - TrailingRun(a));
    State(if a[n - 1] == Slot0 then last else other, if a[n - 1] == Slot1 then last else other,
          Wrap(n), Wrap(ShownArming(a)))
  }

  lemma EnabledIsHistory()
    ensures StateOf([Slot0, Slot1]) == ENABLED
  {
    assert [Slot0, Slot1][..1] == [Slot0];
  }

  lemma RunsOfExtension(a: seq<Slot>, slot: Slot)
    requires IsHistory(a)
    ensures var b, n, r := a + [slot], |a|, TrailingRun(a);
            && TrailingRun(b) == (if slot == a[n - 1] then r + 1 else 1)
            && ShownArming(b) == (if slot == a[n - 1] then n - 1 else n - 1 - r)
  {
    var b, n := a + [slot], |a|;
    assert b[..n] == a && b[n] == slot && b[n - 1] == a[n - 1];
    assert TrailingRun(b) == if slot == a[n - 1] then TrailingRun(a) + 1 else 1;
    hide TrailingRun;
  }

  /** One good completion: its buffer is shown and its slot goes on with a fresh one. */
  function Complete(s: State, slot: Slot): State {
    Rearm(s, slot).(shown := IndexOf(s, slot))
  }

  function CompleteAll(s: State, slots: seq<Slot>): State
    decreases |slots|
  {
    if slots == [] then s else CompleteAll(Complete(s, slots[0]), slots[1..])
  }

  /** An interrupt that finds both slots full does what two interrupts would. */
  lemma IsrIsCompletions(s: State, c0: Completion, c1: Completion, expected: int)
    ensures Isr(s, c0, c1, expected) == CompleteAll(s, FreshArmings(c0, c1, expected))
  {
    var f := FreshArmings(c0, c1, expected);
    if |f| == 2 {
      assert f[1..] == [Slot1];
      assert CompleteAll(s, f) == CompleteAll(Complete(s, Slot0), [Slot1]);
    }
  }

  lemma CompletionExtendsHistory(a: seq<Slot>, slot: Slot)
    requires IsHistory(a)
    ensures IsHistory(a + [slot])
    ensures StateOf(a + [slot]) == Complete(StateOf(a), slot)
  {
    hide Wrap;
    RunsOfExtension(a, slot);
    WrapOnce(|a|);
  }

  lemma {:induction false} CompletionsExtendHistory(a: seq<Slot>, slots: seq<Slot>)
    requires IsHistory(a)
    ensures IsHistory(a + slots)
    ensures StateOf(a + slots) == CompleteAll(StateOf(a), slots)
    decreases |slots|
  {
    if slots == [] {
      assert a + slots == a;
    } else {
      CompletionExtendsHistory(a, slots[0]);
      CompletionsExtendHistory(a + [slots[0]], slots[1..]);
      assert a + [slots[0]] + slots[1..] == a + slots;
    }
  }

  // ---------- the scheduling condition ----------

  /** Three armings of one slot in a row may only come at the very end. */
  ghost predicate Paced(a: seq<Slot>) {
    forall j :: 0 <= j && j + 3 < |a| ==> !(a[j] == a[j + 1] == a[j + 2])
  }

  /** The buffers are distinct after enable and after every later arming of the history. */
  predicate SafeThroughout(a: seq<Slot>)
    requires IsHistory(a)
    decreases |a|
  {
    Distinct(StateOf(a)) && (|a| > 2 ==> SafeThroughout(a[..|a| - 1]))
  }

  lemma SameResidue(x: int, y: int, d: int)
    requires x - y == d
    ensures Wrap(x) == Wrap(y) <==> d % 4 == 0
  {
  }

  /** Distinctness in terms of the lengths of the last run and of the run before it. */
  predicate DistinctRuns(r: nat, q: nat) {
    r % 4 != 0 && (if r >= 2 then (r - 1) % 4 != 0 else (q + 1) % 4 != 0 && q % 4 != 0)
  }

  lemma DistinctResidues(n: int, r: nat, q: nat, shown: int)
    requires shown == if r >= 2 then n - 2 else n - 2 - q
    requires r >= 1
    ensures DistinctRuns(r, q) <==>
            Wrap(n - 1) != Wrap(n - 1 - r) && Wrap(n - 1) != Wrap(shown) && Wrap(n - 1 - r) != Wrap(shown)
  {
    SameResidue(n - 1, n - 1 - r, r);
    if r >= 2 {
      SameResidue(n - 2, n - 1 - r, r - 1);
      SameResidue(n - 1, n - 2, 1);
    } else {
      SameResidue(n - 1, n - 2 - q, q + 1);
      SameResidue(n - 2, n - 2 - q, q);
    }
  }

  lemma DistinctByNumbers(a: seq<Slot>, last: int, other: int, shown: int)
    requires IsHistory(a)
    requires last == |a| - 1 && other == |a| - 1 - TrailingRun(a) && shown == ShownArming(a)
    ensures Distinct(StateOf(a)) <==>
            Wrap(last) != Wrap(other) && Wrap(last) != Wrap(shown) && Wrap(other) != Wrap(shown)
  {
  }

  lemma DistinctByRuns(a: seq<Slot>, r: nat, q: nat)
    requires IsHistory(a) && r == TrailingRun(a) && q == TrailingRun(a[..|a| - 1])
    ensures Distinct(StateOf(a)) <==> DistinctRuns(r, q)
  {
    hide StateOf, Distinct, DistinctRuns, Wrap;
    DistinctByNumbers(a, |a| - 1, |a| - 1 - r, ShownArming(a));
    DistinctResidues(|a|, r, q, ShownArming(a));
  }

  lemma LastStepOfPacing(a: seq<Slot>)
    requires |a| > 2
    ensures Paced(a) <==> Paced(a[..|a| - 1]) && TrailingRun(a[..|a| - 1]) <= 2
  {
    var m := |a| - 1;
    var b, q := a[..m], TrailingRun(a[..m]);
    TrailingRunIsMaximal(b);
    if q >= 3 {
      assert a[m - 3] == b[m - 3] && a[m - 2] == b[m - 2] && a[m - 1] == b[m - 1];
      assert a[m - 3] == a[m - 3 + 1] == a[m - 3 + 2];
    } else if Paced(b) {
      forall j | 0 <= j && j + 3 < |a|
        ensures !(a[j] == a[j + 1] == a[j + 2])
      {
        assert j + 3 < |b| ==> !(b[j] == b[j + 1] == b[j + 2]);
        assert j + 3 == m ==> b[m - 1 - q] != b[m - 1];
      }
    }
    if Paced(a) {
      forall j | 0 <= j && j + 3 < |b|
        ensures !(b[j] == b[j + 1] == b[j + 2])
      {
        assert a[j] == b[j] && a[j + 1] == b[j + 1] && a[j + 2] == b[j + 2];
      }
    }
  }

  lemma PacedRunIsShort(a: seq<Slot>)
    requires IsHistory(a) && Paced(a)
    ensures TrailingRun(a) <= 3
  {
    if |a| > 2 {
      LastStepOfPacing(a);
    }
  }

  lemma ShortRunsAreDistinct(r: nat, q: nat)
    requires 1 <= q <= 4 && (r == 1 || r == q + 1)
    ensures DistinctRuns(r, q) <==> q <= 2
  {
  }

  /** When completions are served one by one, the rotation is safe for as long as, and only as long as, no slot is armed
      three times in a row with another arming to follow. */
  lemma {:induction false} SafeExactlyWhenPaced(a: seq<Slot>)
    requires IsHistory(a)
    ensures SafeThroughout(a) <==> Paced(a)
    decreases |a|
  {
    if |a| > 2 {
      var b := a[..|a| - 1];
      SafeExactlyWhenPaced(b);
      LastStepOfPacing(a);
      if Paced(b) {
        DistinctAfterPaced(a);
      }
    } else {
      assert a == [Slot0, Slot1];
      EnabledIsHistory();
    }
  }

  /** Behind a paced history one more arming is safe exactly when the last run was short. */
  lemma DistinctAfterPaced(a: seq<Slot>)
    requires IsHistory(a) && |a| > 2 && Paced(a[..|a| - 1])
    ensures Distinct(StateOf(a)) <==> TrailingRun(a[..|a| - 1]) <= 2
  {
    hide StateOf, Paced, Distinct, DistinctRuns;
    var b := a[..|a| - 1];
    PacedRunIsShort(b);
    DistinctByRuns(a, TrailingRun(a), TrailingRun(b));
    ShortRunsAreDistinct(TrailingRun(a), TrailingRun(b));
  }

  // ---------- runs of the interrupt ----------

  /** What one interrupt finds in the two slots. */
  datatype Event = Event(c0: Completion, c1: Completion)

  function RunIsr(s: State, events: seq<Event>, expected: int): State
    decreases |events|
  {
    var n := |events|;
    if n == 0 then s
    else Isr(RunIsr(s, events[..n - 1], expected), events[n - 1].c0, events[n - 1].c1, expected)
  }

  /** All armings of a run that starts with enable. */
  function Armings(events: seq<Event>, expected: int): (a: seq<Slot>)
    ensures IsHistory(a)
    decreases |events|
  {
    var n := |events|;
    if n == 0 then [Slot0, Slot1]
    else Armings(events[..n - 1], expected) + FreshArmings(events[n - 1].c0, events[n - 1].c1, expected)
  }

  lemma {:induction false} RunFollowsHistory(events: seq<Event>, expected: int)
    ensures RunIsr(ENABLED, events, expected) == StateOf(Armings(events, expected))
    decreases |events|
  {
    var n := |events|;
    if n == 0 {
      EnabledIsHistory();
    } else {
      var last, a := events[n - 1], Armings(events[..n - 1], expected);
      RunFollowsHistory(events[..n - 1], expected);
      IsrIsCompletions(RunIsr(ENABLED, events[..n - 1], expected), last.c0, last.c1, expected);
      CompletionsExtendHistory(a, FreshArmings(last.c0, last.c1, expected));
    }
  }

  /** Whether one interrupt may make the armings `f` behind the history `a`: three armings of one slot in a row may be
      followed by another only if they are slot 1's and the interrupt finds both slots full. */
  predicate Allowed(a: seq<Slot>, f: seq<Slot>)
    requires |a| > 0
  {
    match |f|
    case 0 => true
    case 1 => TrailingRun(a) <= 2
    case _ => a[|a| - 1] == Slot1 || TrailingRun(a) <= 1
  }

  predicate RunPaced(events: seq<Event>, expected: int)
    decreases |events|
  {
    var n := |events|;
    n > 0 ==>
      && RunPaced(events[..n - 1], expected)
      && Allowed(Armings(events[..n - 1], expected), FreshArmings(events[n - 1].c0, events[n - 1].c1, expected))
  }

  /** What allowed interrupts keep. */
  predicate Settled(a: seq<Slot>)
    requires IsHistory(a)
  {
    TrailingRun(a) <= 3 && (TrailingRun(a) == 1 ==> TrailingRun(a[..|a| - 1]) <= 2)
  }

  lemma SettledIsDistinct(a: seq<Slot>)
    requires IsHistory(a) && Settled(a)
    ensures Distinct(StateOf(a))
  {
    DistinctByRuns(a, TrailingRun(a), TrailingRun(a[..|a| - 1]));
    hide StateOf, TrailingRun;
  }

  lemma OneArming(a: seq<Slot>, slot: Slot)
    requires IsHistory(a) && TrailingRun(a) <= 4
    ensures Distinct(StateOf(a + [slot])) <==> TrailingRun(a) <= 2
    ensures TrailingRun(a) <= 2 ==> Settled(a + [slot])
  {
    var b := a + [slot];
    assert b[..|b| - 1] == a;
    RunsOfExtension(a, slot);
    DistinctByRuns(b, TrailingRun(b), TrailingRun(a));
    ShortRunsAreDistinct(TrailingRun(b), TrailingRun(a));
    hide StateOf, TrailingRun, Distinct, DistinctRuns;
  }

  /** An interrupt in a settled state leaves the indices distinct exactly when it is allowed. */
  lemma InterruptIsSafe(a: seq<Slot>, c0: Completion, c1: Completion, expected: int)
    requires IsHistory(a) && Settled(a)
    ensures var f := FreshArmings(c0, c1, expected);
            && (Distinct(StateOf(a + f)) <==> Allowed(a, f))
            && (Allowed(a, f) ==> Settled(a + f))
  {
    hide StateOf, TrailingRun, Distinct;
    var f := FreshArmings(c0, c1, expected);
    if f == [] {
      assert a + f == a;
      SettledIsDistinct(a);
    } else if |f| == 1 {
      assert f == [f[0]];
      OneArming(a, f[0]);
    } else {
      assert a + f == a + [Slot0] + [Slot1];
      RunsOfExtension(a, Slot0);
      OneArming(a + [Slot0], Slot1);
    }
  }

  lemma {:induction false} PacedRunSettles(events: seq<Event>, expected: int)
    requires RunPaced(events, expected)
    ensures Settled(Armings(events, expected))
    decreases |events|
  {
    hide Settled, Allowed;
    var n := |events|;
    if n > 0 {
      PacedRunSettles(events[..n - 1], expected);
      InterruptIsSafe(Armings(events[..n - 1], expected), events[n - 1].c0, events[n - 1].c1, expected);
    } else {
      EnabledIsSettled();
    }
  }

  lemma EnabledIsSettled()
    ensures Settled([Slot0, Slot1])
  {
    assert [Slot0, Slot1][..1] == [Slot0];
  }

  /** Main result: the indices are distinct after every interrupt of a run exactly when every interrupt was allowed. */
  lemma {:induction false} SafeExactlyWhenAllowed(events: seq<Event>, expected: int)
    ensures (forall k :: 0 <= k <= |events| ==> Distinct(RunIsr(ENABLED, events[..k], expected)))
            <==> RunPaced(events, expected)
    decreases |events|
  {
    hide Settled, Allowed, Distinct, StateOf, Isr;
    var n := |events|;
    assert events[..n] == events;
    if n == 0 {
      assert Distinct(ENABLED) by { EnabledIsDistinct(); }
    } else {
      var before, last := events[..n - 1], events[n - 1];
      SafeExactlyWhenAllowed(before, expected);
      assert forall k :: 0 <= k <= n - 1 ==> before[..k] == events[..k];
      RunFollowsHistory(events, expected);
      if RunPaced(before, expected) {
        PacedRunSettles(before, expected);
        InterruptIsSafe(Armings(before, expected), last.c0, last.c1, expected);
      }
    }
  }

  lemma EnabledIsDistinct()
    ensures Distinct(ENABLED)
  {
  }

  lemma AllowedRunIsSafe(events: seq<Event>, expected: int)
    requires RunPaced(events, expected)
    ensures Distinct(RunIsr(ENABLED, events, expected))
  {
    SafeExactlyWhenAllowed(events, expected);
    assert events[..|events|] == events;
  }

  /** A run whose history is paced as if completions came one by one is allowed, so never arms a buffer that is displayed or
      already armed. */
  lemma {:induction false} PacedRunIsSafe(events: seq<Event>, expected: int)
    requires Paced(Armings(events, expected))
    ensures RunPaced(events, expected) && Distinct(RunIsr(ENABLED, events, expected))
    decreases |events|
  {
    hide Paced, Distinct, Isr, TrailingRun;
    var n := |events|;
    if n > 0 {
      var a, last := Armings(events[..n - 1], expected), events[n - 1];
      PacingIsPrefixClosed(a, FreshArmings(last.c0, last.c1, expected));
      PacedRunIsSafe(events[..n - 1], expected);
      PacedIsAllowed(a, last.c0, last.c1, expected);
    }
    AllowedRunIsSafe(events, expected);
  }

  lemma PacedIsAllowed(a: seq<Slot>, c0: Completion, c1: Completion, expected: int)
    requires IsHistory(a) && Paced(a + FreshArmings(c0, c1, expected))
    ensures Allowed(a, FreshArmings(c0, c1, expected))
  {
    var f := FreshArmings(c0, c1, expected);
    if |f| > 0 {
      var b := a + (if |f| == 1 then [] else [Slot0]);
      assert (a + f)[..|a + f| - 1] == b;
      LastStepOfPacing(a + f);
      assert a + [] == a;
      RunsOfExtension(a, Slot0);
    }
    hide Paced, TrailingRun;
  }

  /** The converse fails: slot 1 three times in a row, and then both slots full in one interrupt. */
  lemma UnpacedRunIsAllowed(expected: int)
    ensures var one, both := Event(NotPending, Pending(expected)), Event(Pending(expected), Pending(expected));
            RunPaced([one, one, both], expected) && !Paced(Armings([one, one, both], expected))
  {
    var one, both := Event(NotPending, Pending(expected)), Event(Pending(expected), Pending(expected));
    assert [one][..0] == [] && [one, one][..1] == [one] && [one, one, both][..2] == [one, one];
    assert Armings([one], expected) == [Slot0, Slot1, Slot1];
    assert Armings([one, one], expected) == [Slot0, Slot1, Slot1, Slot1];
    var a := Armings([one, one, both], expected);
    assert a == [Slot0, Slot1, Slot1, Slot1, Slot0, Slot1];
    assert [Slot0, Slot1, Slot1][..2] == [Slot0, Slot1];
    assert TrailingRun([Slot0, Slot1, Slot1]) == 2;
    assert RunPaced([one], expected);
    assert RunPaced([one, one], expected);
    assert a[1] == a[1 + 1] == a[1 + 2];
  }

  lemma PacingIsPrefixClosed(a: seq<Slot>, f: seq<Slot>)
    requires Paced(a + f)
    ensures Paced(a)
  {
    forall j | 0 <= j && j + 3 < |a|
      ensures !(a[j] == a[j + 1] == a[j + 2])
    {
      var b := a + f;
      assert !(b[j] == b[j + 1] == b[j + 2]);
    }
  }

  /** When the slots take turns, the four indices are all different. */
  lemma AlternationIsPermutation(a: seq<Slot>)
    requires IsHistory(a)
    requires forall k :: 0 < k < |a| ==> a[k] != a[k - 1]
    ensures var s := StateOf(a); Distinct(s) && s.next !in {s.slot0, s.slot1, s.shown}
  {
    var n := |a|;
    RunsOfAlternation(a);
    DistinctByRuns(a, 1, 1);
    SameResidue(n, n - 1, 1);
    SameResidue(n, n - 2, 2);
    SameResidue(n, n - 3, 3);
  }

  // ---------- inside one interrupt ----------

  /** The interrupt arms the slots first and moves the display at its end: no slot is armed, in between, with a buffer that
      the other slot fills or that is still displayed. */
  predicate SafeInside(s: State, c0: Completion, c1: Completion, expected: int) {
    var a := if Good(c0, expected) then Rearm(s, Slot0) else s;
    (Good(c0, expected) ==> Distinct(a)) && (Good(c1, expected) ==> Distinct(Rearm(a, Slot1)))
  }

  /** The slots have just changed over, behind a run of `k` armings up to multiples of four. */
  predicate ComesRound(r: nat, q: nat, k: nat) {
    r == 1 && q % 4 == k
  }

  lemma ShortComesRound(r: nat, q: nat)
    requires q >= 1 && (r == 1 ==> q <= 2)
    ensures ComesRound(r, q, 1) <==> r == 1 && q == 1
    ensures ComesRound(r, q, 2) <==> r == 1 && q == 2
  {
  }

  lemma NextNumbers(n: int, r: nat, q: nat, shown: int)
    requires r >= 1 && shown == if r >= 2 then n - 2 else n - 2 - q
    ensures Wrap(n) == Wrap(shown) <==> ComesRound(r, q, 2)
    ensures Wrap(Wrap(n) + 1) == Wrap(shown) <==> ComesRound(r, q, 1)
  {
    hide Wrap;
    WrapOnce(n);
    SameResidue(n, shown, n - shown);
    SameResidue(n + 1, shown, n + 1 - shown);
  }

  /** The next two buffers against the displayed one, in terms of the last runs. */
  lemma NextAgainstShown(a: seq<Slot>, r: nat, q: nat)
    requires IsHistory(a) && r == TrailingRun(a) && q == TrailingRun(a[..|a| - 1])
    ensures var s := StateOf(a);
            && s.next < FRAMEBUFFER_COUNT
            && (s.next == s.shown <==> ComesRound(r, q, 2))
            && (Wrap(s.next + 1) == s.shown <==> ComesRound(r, q, 1))
  {
    hide Wrap, ComesRound, StateOf, ShownArming, TrailingRun;
    NextAndShown(a, r, q);
    NextNumbers(|a|, r, q, ShownArming(a));
  }

  lemma NextAndShown(a: seq<Slot>, r: nat, q: nat)
    requires IsHistory(a) && r == TrailingRun(a) && q == TrailingRun(a[..|a| - 1])
    ensures StateOf(a).next == Wrap(|a|) && StateOf(a).shown == Wrap(ShownArming(a))
    ensures ShownArming(a) == if r >= 2 then |a| - 2 else |a| - 2 - q
  {
    hide Wrap;
  }

  lemma WrapOnce(n: int)
    ensures Wrap(Wrap(n) + 1) == Wrap(n + 1)
  {
  }

  /** Arming one more buffer, or two, than the state `s` has. */
  lemma RearmedDistinct(s: State)
    requires Distinct(s)
    ensures Distinct(Rearm(s, Slot0)) <==> s.next != s.slot1 && s.next != s.shown
    ensures Distinct(Rearm(s, Slot1)) <==> s.next != s.slot0 && s.next != s.shown
  {
  }

  lemma FreshIsNotArmed(a: seq<Slot>, slot: Slot, r: nat)
    requires IsHistory(a) && r == TrailingRun(a) && (a[|a| - 1] == slot ==> r <= 2)
    ensures var s := StateOf(a); s.next != if slot == Slot0 then s.slot1 else s.slot0
  {
    OtherIndex(a, slot, r);
    NextIsNew(|a|, r);
    hide Wrap, TrailingRun, StateOf;
  }

  lemma OtherIndex(a: seq<Slot>, slot: Slot, r: nat)
    requires IsHistory(a) && r == TrailingRun(a)
    ensures var s, other := StateOf(a), if slot == Slot0 then StateOf(a).slot1 else StateOf(a).slot0;
            s.next == Wrap(|a|) && (if a[|a| - 1] == slot then other == Wrap(|a| - 1 - r) else other == Wrap(|a| - 1))
  {
    hide Wrap;
  }

  lemma NextIsNew(n: int, r: nat)
    ensures Wrap(n) != Wrap(n - 1)
    ensures r <= 2 ==> Wrap(n) != Wrap(n - 1 - r)
  {
    SameResidue(n, n - 1, 1);
    SameResidue(n, n - 1 - r, r + 1);
    hide Wrap;
  }

  /** Inside an allowed interrupt the arming is safe except in two cases: the slots have just changed over after two armings
      of one of them, or the interrupt finds both slots full while they take turns. */
  lemma SafeInsideExactly(a: seq<Slot>, c0: Completion, c1: Completion, expected: int)
    requires IsHistory(a) && Settled(a) && Allowed(a, FreshArmings(c0, c1, expected))
    ensures var r, q := TrailingRun(a), TrailingRun(a[..|a| - 1]);
            SafeInside(StateOf(a), c0, c1, expected) <==>
            && !((Good(c0, expected) || Good(c1, expected)) && r == 1 && q == 2)
            && !(Good(c0, expected) && Good(c1, expected) && r == 1 && q == 1)
  {
    var r, q := TrailingRun(a), TrailingRun(a[..|a| - 1]);
    NextAgainstShown(a, r, q);
    ShortComesRound(r, q);
    SettledIsDistinct(a);
    if Good(c0, expected) || Good(c1, expected) {
      FreshIsNotArmed(a, if Good(c0, expected) then Slot0 else Slot1, r);
      hide StateOf, TrailingRun, SafeInside, Wrap, ComesRound, Distinct;
      SafeInsideByState(StateOf(a), c0, c1, expected);
    }
  }

  /** So it is at every interrupt of an allowed run. */
  lemma SafeInsideRun(events: seq<Event>, e: Event, expected: int)
    requires RunPaced(events + [e], expected)
    ensures var a := Armings(events, expected);
            var r, q := TrailingRun(a), TrailingRun(a[..|a| - 1]);
            SafeInside(RunIsr(ENABLED, events, expected), e.c0, e.c1, expected) <==>
            && !((Good(e.c0, expected) || Good(e.c1, expected)) && r == 1 && q == 2)
            && !(Good(e.c0, expected) && Good(e.c1, expected) && r == 1 && q == 1)
  {
    assert (events + [e])[..|events|] == events;
    PacedRunSettles(events, expected);
    RunFollowsHistory(events, expected);
    hide StateOf, TrailingRun, SafeInside, Allowed, Settled;
    SafeInsideExactly(Armings(events, expected), e.c0, e.c1, expected);
  }

  lemma SafeInsideByState(s: State, c0: Completion, c1: Completion, expected: int)
    requires Distinct(s) && s.next < FRAMEBUFFER_COUNT && (Good(c0, expected) || Good(c1, expected))
    requires s.next != if Good(c0, expected) then s.slot1 else s.slot0
    ensures SafeInside(s, c0, c1, expected) <==>
            s.next != s.shown && (Good(c0, expected) && Good(c1, expected) ==> Wrap(s.next + 1) != s.shown)
  {
    RearmedDistinct(s);
    if Good(c0, expected) && Good(c1, expected) {
      TwoRearmed(s);
    }
    hide Rearm, Wrap, Distinct;
  }

  lemma TwoRearmed(s: State)
    requires Distinct(s) && s.next != s.slot1 && s.next < FRAMEBUFFER_COUNT
    ensures Distinct(Rearm(s, Slot0)) && Distinct(Rearm(Rearm(s, Slot0), Slot1)) <==>
            s.next != s.shown && Wrap(s.next + 1) != s.shown
  {
  }

  /** When the slots take turns, only an interrupt that finds both full is unsafe inside. */
  lemma AlternatingInterruptIsSafe(a: seq<Slot>, c0: Completion, c1: Completion, expected: int)
    requires IsHistory(a) && forall k :: 0 < k < |a| ==> a[k] != a[k - 1]
    ensures SafeInside(StateOf(a), c0, c1, expected) <==> !(Good(c0, expected) && Good(c1, expected))
  {
    RunsOfAlternation(a);
    SafeInsideExactly(a, c0, c1, expected);
  }

  lemma RunsOfAlternation(a: seq<Slot>)
    requires IsHistory(a) && forall k :: 0 < k < |a| ==> a[k] != a[k - 1]
    ensures TrailingRun(a) == 1 && TrailingRun(a[..|a| - 1]) == 1
  {
    var n := |a|;
    assert a[n - 1] != a[n - 2];
    if n > 2 {
      assert a[n - 2] != a[n - 3];
    }
  }

  // ---------- whole frames ----------

  /** What the DMA last did to a buffer. */
  datatype Fill = Filling | Holds(bytes: int)

  /** The indices together with the contents of the four buffers and whether a good frame was ever captured. */
  datatype Capture = Capture(s: State, fill: map<nat, Fill>, captured: bool)

  predicate AllBuffers(c: Capture) {
    InRange(c.s) && forall b :: 0 <= b < FRAMEBUFFER_COUNT ==> b in c.fill
  }

  /** The DMA finishes a slot's buffer, and the interrupt arms the slot again. */
  function Finish(fill: map<nat, Fill>, index: nat, c: Completion): map<nat, Fill> {
    if c.Pending? then fill[index := Holds(c.length)] else fill
  }

  function Arm(fill: map<nat, Fill>, index: nat, c: Completion): map<nat, Fill> {
    if c.Pending? then fill[index := Filling] else fill
  }

  function IsrCapture(c: Capture, e: Event, expected: int): Capture {
    var n := Isr(c.s, e.c0, e.c1, expected);
    var filled := Finish(Finish(c.fill, c.s.slot0, e.c0), c.s.slot1, e.c1);
    Capture(n, Arm(Arm(filled, n.slot0, e.c0), n.slot1, e.c1),
            c.captured || Good(e.c0, expected) || Good(e.c1, expected))
  }

  /** Once a frame was captured, the displayed buffer holds a whole frame. */
  predicate ShowsWholeFrame(c: Capture, expected: int) {
    c.captured ==> c.s.shown in c.fill && c.fill[c.s.shown] == Holds(expected)
  }

  lemma IsrShowsWholeFrame(c: Capture, e: Event, expected: int)
    requires AllBuffers(c) && Distinct(c.s) && ShowsWholeFrame(c, expected)
    requires Distinct(Isr(c.s, e.c0, e.c1, expected))
    ensures var n := IsrCapture(c, e, expected); AllBuffers(n) && ShowsWholeFrame(n, expected)
  {
  }

  /** Enable arms buffers 0 and 1; nothing has been captured yet. */
  function EnabledCapture(fill: map<nat, Fill>): Capture {
    Capture(ENABLED, fill[0 := Filling][1 := Filling], false)
  }

  function RunCapture(c: Capture, events: seq<Event>, expected: int): Capture
    decreases |events|
  {
    var n := |events|;
    if n == 0 then c else IsrCapture(RunCapture(c, events[..n - 1], expected), events[n - 1], expected)
  }

  /** Main result: with allowed interrupts, from the first good capture on, the displayed buffer always holds a frame of
      exactly the expected length, whatever the transfers in between looked like. */
  lemma {:induction false} DisplayedFramesAreWhole(fill: map<nat, Fill>, events: seq<Event>, expected: int)
    requires 2 in fill && 3 in fill && RunPaced(events, expected)
    ensures var c := RunCapture(EnabledCapture(fill), events, expected);
            AllBuffers(c) && ShowsWholeFrame(c, expected) && c.s == RunIsr(ENABLED, events, expected)
    decreases |events|
  {
    var n := |events|;
    if n > 0 {
      var before, last := events[..n - 1], events[n - 1];
      DisplayedFramesAreWhole(fill, before, expected);
      AllowedRunIsSafe(before, expected);
      AllowedRunIsSafe(events, expected);
      IsrShowsWholeFrame(RunCapture(EnabledCapture(fill), before, expected), last, expected);
    }
  }

  // ---------- addresses ----------

  function FramebufferBase(inputBase: nat, n: nat): nat {
    inputBase + n * FRAMEBUFFER_SIZE
  }

  /** The bytes of buffer `n`. */
  predicate InBuffer(inputBase: nat, n: nat, byte: nat) {
    FramebufferBase(inputBase, n) <= byte < FramebufferBase(inputBase, n) + FRAMEBUFFER_SIZE
  }

  /** With allowed interrupts no byte of the displayed buffer belongs to a buffer that the DMA is armed with, and no byte
      belongs to both armed buffers. */
  lemma ArmedBytesAreNotDisplayed(inputBase: nat, events: seq<Event>, expected: int, byte: nat)
    requires RunPaced(events, expected)
    ensures var s := RunIsr(ENABLED, events, expected);
            && !(InBuffer(inputBase, s.shown, byte) && InBuffer(inputBase, s.slot0, byte))
            && !(InBuffer(inputBase, s.shown, byte) && InBuffer(inputBase, s.slot1, byte))
            && !(InBuffer(inputBase, s.slot0, byte) && InBuffer(inputBase, s.slot1, byte))
  {
    AllowedRunIsSafe(events, expected);
  }

  /** The interrupt handler's own variables, updated in place. */
  class HdmiIn0 {
    const fbSlotIndexes: array<nat>
    var nextFbIndex: nat
    var fbIndex: nat

    ghost predicate Valid()
      reads this, fbSlotIndexes
    {
      fbSlotIndexes.Length == 2 && InRange(State(fbSlotIndexes[0], fbSlotIndexes[1], nextFbIndex, fbIndex))
    }

    ghost function Indices(): State
      requires Valid()
      reads this, fbSlotIndexes
    {
      State(fbSlotIndexes[0], fbSlotIndexes[1], nextFbIndex, fbIndex)
    }

    constructor ()
      ensures Valid() && Indices() == ENABLED && fresh(fbSlotIndexes)
    {
      fbSlotIndexes := new nat[2](i => i);
      nextFbIndex, fbIndex := 2, 3;
    }

    method Enable()
      requires Valid()
      modifies this, fbSlotIndexes
      ensures Valid() && Indices() == ENABLED
    {
      fbSlotIndexes[0] := 0;
      fbSlotIndexes[1] := 1;
      nextFbIndex := 2;
      fbIndex := 3;
    }

    /** Serves one slot; `found` is the buffer just completed, or -1. */
    method ServeSlot(i: nat, c: Completion, expected: int) returns (found: int)
      requires Valid() && i < 2
      modifies `nextFbIndex, fbSlotIndexes
      ensures Valid()
      ensures found == if Good(c, expected) then old(fbSlotIndexes[i]) else -1
      ensures Indices() == if Good(c, expected)
                           then Rearm(old(Indices()), if i == 0 then Slot0 else Slot1) else old(Indices())
    {
      found := -1;
      if c.Pending? && c.length == expected {
        found := fbSlotIndexes[i];
        fbSlotIndexes[i] := nextFbIndex;
        nextFbIndex := Wrap(nextFbIndex + 1);
      }
    }

    method Interrupt(c0: Completion, c1: Completion, expected: int)
      requires Valid()
      modifies this, fbSlotIndexes
      ensures Valid()
      ensures Indices() == Isr(old(Indices()), c0, c1, expected)
    {
      var found := ServeSlot(0, c0, expected);
      var found1 := ServeSlot(1, c1, expected);
      if found1 != -1 {
        found := found1;
      }
      if found != -1 {
        fbIndex := found;
      }
    }
  }
}
