/** The ring buffer between the telnet connection and the console. */
module Telnet {

  import opened Types

  const SIZE := 128

  /** Room for one character less than the ring has cells. */
  const ROOM := 127

  /** The index behind `i`. */
  function Advance(i: nat): (n: nat)
    ensures n == if i % 128 == 127 then 0 else i % 128 + 1
  {
    (i + 1) % 128
  }

  /** One character arrives, or the console asks for one. */
  datatype Event = Arrive(c: byte) | Read

  // ---------- what the console gets, over any interleaving ----------

  /** The buffered characters after one event, oldest first. */
  function Buffered(pending: seq<byte>, e: Event): seq<byte> {
    match e
    case Arrive(c) => if |pending| < ROOM then pending + [c] else pending
    case Read => if pending == [] then [] else pending[1..]
  }

  /** The character a read returns. */
  function Returned(pending: seq<byte>): byte {
    if pending == [] then 0 else pending[0]
  }

  datatype Console = Console(pending: seq<byte>, delivered: seq<byte>)

  /** A run of the ring: what is buffered, and what successful reads have returned. */
  function Run(events: seq<Event>): Console {
    if events == [] then Console([], [])
    else
      var before, e := Run(events[..|events| - 1]), events[|events| - 1];
      Console(Buffered(before.pending, e),
              if e.Read? && before.pending != [] then before.delivered + [Returned(before.pending)] else before.delivered)
  }

  /** The reference: a log of accepted characters and a read position.  A character is refused when the log is exactly 127
      ahead of the position. */
  datatype Log = Log(accepted: seq<byte>, position: nat, refused: nat)

  function Logged(events: seq<Event>): (l: Log)
    ensures l.position <= |l.accepted| <= l.position + ROOM
  {
    if events == [] then Log([], 0, 0)
    else
      var before, e := Logged(events[..|events| - 1]), events[|events| - 1];
      match e
      case Arrive(c) =>
        if |before.accepted| - before.position == ROOM then before.(refused := before.refused + 1)
        else before.(accepted := before.accepted + [c])
      case Read =>
        if before.position < |before.accepted| then before.(position := before.position + 1) else before
  }

  /** Every character that arrived, in order. */
  function Arrived(events: seq<Event>): seq<byte> {
    if events == [] then []
    else Arrived(events[..|events| - 1]) +
         match events[|events| - 1] case Arrive(c) => [c] case Read => []
  }

  /** Characters come out in the order of arrival, each once, and are lost only when 127 are pending. */
  lemma {:induction false} RingIsLog(events: seq<Event>)
    ensures var r, l := Run(events), Logged(events);
            r.delivered == l.accepted[..l.position] && r.pending == l.accepted[l.position..]
  {
    if events != [] {
      RingIsLog(events[..|events| - 1]);
    }
  }

  lemma {:induction false} LogOfArrivals(events: seq<Event>)
    ensures |Arrived(events)| == |Logged(events).accepted| + Logged(events).refused
    ensures Logged(events).refused == 0 ==> Logged(events).accepted == Arrived(events)
  {
    if events != [] {
      LogOfArrivals(events[..|events| - 1]);
    }
  }

  /** With none refused, what was delivered and what is pending are exactly the characters that arrived, in order. */
  lemma NothingLost(events: seq<Event>)
    ensures Run(events).delivered + Run(events).pending == Arrived(events) <==> Logged(events).refused == 0
  {
    hide Run, Logged, Arrived;
    RingIsLog(events);
    LogOfArrivals(events);
    var l := Logged(events);
    assert l.accepted[..l.position] + l.accepted[l.position..] == l.accepted;
  }

  // ---------- the ring ----------

  /** The cells from index `consume` round to index `produce`. */
  function Between(cells: seq<byte>, consume: nat, produce: nat): (s: seq<byte>)
    requires |cells| == SIZE && produce < SIZE && consume < SIZE
    ensures |s| <= ROOM && (s == [] <==> consume == produce) && (|s| == ROOM <==> Advance(produce) == consume)
  {
    if consume <= produce then cells[consume..produce] else cells[consume..] + cells[..produce]
  }

  lemma FirstCell(cells: seq<byte>, from: nat, to: nat)
    requires from < to <= |cells|
    ensures cells[from..to] == [cells[from]] + cells[from + 1..to]
  {
  }

  lemma TakeInside(cells: seq<byte>, consume: nat, produce: nat)
    requires |cells| == SIZE && consume < produce < SIZE
    ensures Between(cells, consume, produce) == [cells[consume]] + Between(cells, consume + 1, produce)
  {
    FirstCell(cells, consume, produce);
  }

  lemma TakeLastCell(cells: seq<byte>, produce: nat)
    requires |cells| == SIZE && produce < SIZE - 1
    ensures Between(cells, SIZE - 1, produce) == [cells[SIZE - 1]] + Between(cells, 0, produce)
  {
    FirstCell(cells, SIZE - 1, SIZE);
  }

  lemma TakeBeforeWrap(cells: seq<byte>, consume: nat, produce: nat)
    requires |cells| == SIZE && produce < consume < SIZE - 1
    ensures Between(cells, consume, produce) == [cells[consume]] + Between(cells, consume + 1, produce)
  {
    FirstCell(cells, consume, SIZE);
  }

  lemma TakeOne(cells: seq<byte>, consume: nat, produce: nat)
    requires |cells| == SIZE && produce < SIZE && consume < SIZE && consume != produce
    ensures Between(cells, consume, produce) == [cells[consume]] + Between(cells, Advance(consume), produce)
  {
    hide Between, Advance;
    if consume < produce {
      TakeInside(cells, consume, produce);
    } else if consume == SIZE - 1 {
      TakeLastCell(cells, produce);
    } else {
      TakeBeforeWrap(cells, consume, produce);
    }
  }

  lemma PutOne(cells: seq<byte>, consume: nat, produce: nat, c: byte)
    requires |cells| == SIZE && produce < SIZE && consume < SIZE && Advance(produce) != consume
    ensures Between(cells[produce := c], consume, Advance(produce)) == Between(cells, consume, produce) + [c]
  {
    var n := cells[produce := c];
    if produce == SIZE - 1 {
      assert n[consume..] == cells[consume..produce] + [c];
    } else if consume <= produce {
      assert n[consume..produce + 1] == cells[consume..produce] + [c];
    } else {
      assert n[..produce + 1] == cells[..produce] + [c] && n[consume..] == cells[consume..];
    }
  }

  class Ring {
    const buf: array<byte>
    var produce: nat
    var consume: nat

    constructor ()
      ensures fresh(buf) && Valid() && Pending() == []
    {
      buf := new byte[SIZE];
      produce, consume := 0, 0;
    }

    predicate Valid()
      reads this
    {
      buf.Length == SIZE && produce < SIZE && consume < SIZE
    }

    /** The characters between the indices, oldest first. */
    function Pending(): (s: seq<byte>)
      requires Valid()
      reads this, buf
      ensures |s| <= ROOM
    {
      Between(buf[..], consume, produce)
    }

    /** Stores the characters it has room for, one by one. */
    method DataCallback(rx: seq<byte>)
      requires Valid()
      modifies this`produce, buf
      ensures Valid()
      ensures Pending() == old(Pending()) + rx[..Fitting(|old(Pending())|, |rx|)]
    {
      hide Pending, Buffered;
      var i := 0;
      while i < |rx|
        invariant 0 <= i <= |rx| && Valid()
        invariant Pending() == old(Pending()) + rx[..Fitting(|old(Pending())|, i)]
      {
        FitOneMore(old(Pending()), rx, i);
        Store(rx[i]);
        i := i + 1;
      }
    }

    method Store(c: byte)
      requires Valid()
      modifies this`produce, buf
      ensures Valid() && Pending() == Buffered(old(Pending()), Arrive(c))
    {
      hide Between, Advance;
      var next := Advance(produce);
      if next != consume {
        PutOne(buf[..], consume, produce, c);
        buf[produce] := c;
        produce := next;
      }
    }

    /** Returns 0 when nothing is pending. */
    method ReadChar() returns (c: byte)
      requires Valid()
      modifies this`consume
      ensures Valid() && c == Returned(old(Pending())) && Pending() == Buffered(old(Pending()), Read)
    {
      var available := ReadCharNonblock();
      if !available {
        return 0;
      }
      TakeOne(buf[..], consume, produce);
      c := buf[consume];
      consume := Advance(consume);
    }

    method ReadCharNonblock() returns (available: bool)
      requires Valid()
      ensures available <==> Pending() != []
    {
      available := consume != produce;
    }
  }

  /** How many of `n` characters fit behind `pending` ones. */
  function Fitting(pending: nat, n: nat): nat {
    if pending >= ROOM then 0 else if pending + n <= ROOM then n else ROOM - pending
  }

  lemma FitOneMore(pending: seq<byte>, rx: seq<byte>, i: nat)
    requires |pending| <= ROOM && i < |rx|
    ensures Buffered(pending + rx[..Fitting(|pending|, i)], Arrive(rx[i])) == pending + rx[..Fitting(|pending|, i + 1)]
  {
    if |pending| + i < ROOM {
      assert rx[..i] + [rx[i]] == rx[..i + 1];
    }
  }
}
