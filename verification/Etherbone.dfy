/** The framing loop of the Etherbone server: TCP hands over the byte stream in chunks, and a callback gathers them in a
    buffer, looks for the magic number, and processes every packet that is complete. */
module Etherbone {
  import opened Types

  const CAPACITY := 1512

  /** Packets handed on for processing, in order, and the bytes kept for the next callback. */
  datatype Framed = Framed(packets: seq<seq<byte>>, rest: seq<byte>)

  /** The record counts are the bytes at 10 (writes) and 11 (reads) of the header. */
  function PacketLength(wcount: byte, rcount: byte): (n: nat)
    ensures n >= 12
  {
    12 + (if wcount != 0 then (1 + wcount as nat) * 4 else 0) + (if rcount != 0 then (1 + rcount as nat) * 4 else 0)
  }

  predicate IsMagic(first: byte, second: byte) {
    first == 0x4e && second == 0x6f
  }

  /** A whole packet is at the front: more than a header, and as much as the header says. */
  predicate StartsWithPacket(data: seq<byte>) {
    |data| > 12 && |data| >= PacketLength(data[10], data[11])
  }

  /** The loop over the gathered bytes.  The magic number is read as two bytes even when only one is left, and the other is
      then `stale`, whatever lies behind the gathered bytes. */
  function Process(data: seq<byte>, stale: byte): Framed {
    if data == [] then Framed([], [])
    else if !IsMagic(data[0], if |data| > 1 then data[1] else stale) then Process(data[1..], stale)
    else if StartsWithPacket(data) then
      var n := PacketLength(data[10], data[11]);
      var f := Process(data[n..], stale);
      Framed([data[..n]] + f.packets, f.rest)
    else Framed([], data)
  }

  /** What the loop is for: a first byte of the magic number at the very end waits for the second. */
  function Frame(data: seq<byte>): Framed {
    if data == [] || data == [0x4e] then Framed([], data)
    else if |data| == 1 || !IsMagic(data[0], data[1]) then Frame(data[1..])
    else if StartsWithPacket(data) then
      var n := PacketLength(data[10], data[11]);
      var f := Frame(data[n..]);
      Framed([data[..n]] + f.packets, f.rest)
    else Framed([], data)
  }

  /** A lone first byte of the magic number is dropped unless the stale byte happens to be the second. */
  predicate Drops(data: seq<byte>, stale: byte) {
    Frame(data).rest == [0x4e] && stale != 0x6f
  }

  /** One callback does what it is for exactly when it drops nothing; when it drops, it loses just that byte. */
  lemma {:induction false} ProcessIsFrame(data: seq<byte>, stale: byte)
    ensures Process(data, stale).packets == Frame(data).packets
    ensures Process(data, stale).rest == if Drops(data, stale) then [] else Frame(data).rest
  {
    if data == [] || |data| == 1 {
    } else if !IsMagic(data[0], data[1]) {
      ProcessIsFrame(data[1..], stale);
    } else if StartsWithPacket(data) {
      ProcessIsFrame(data[PacketLength(data[10], data[11])..], stale);
    }
  }

  // ---------- chunks ----------

  /** As long as its header says. */
  predicate IsFramed(p: seq<byte>) {
    |p| >= 12 && IsMagic(p[0], p[1]) && |p| == PacketLength(p[10], p[11])
  }

  /** A packet as a client sends it: with at least one record. */
  predicate IsPacket(p: seq<byte>) {
    IsFramed(p) && |p| > 12
  }

  lemma FrameOfPacket(p: seq<byte>, data: seq<byte>)
    requires IsFramed(p) && |p| + |data| > 12
    ensures Frame(p + data) == Framed([p] + Frame(data).packets, Frame(data).rest)
  {
    hide PacketLength;
    assert (p + data)[..|p|] == p && (p + data)[|p|..] == data;
  }

  /** Framing `a` first and going on with `b` later is framing both at once. */
  predicate Resumes(a: seq<byte>, b: seq<byte>) {
    var f := Frame(a);
    var g := Frame(f.rest + b);
    Frame(a + b) == Framed(f.packets + g.packets, g.rest)
  }

  lemma ResumesBehindPacket(p: seq<byte>, tail: seq<byte>, b: seq<byte>)
    requires IsFramed(p) && |p| + |tail| > 12 && Resumes(tail, b)
    ensures Resumes(p + tail, b)
  {
    hide Frame, IsFramed;
    FrameOfPacket(p, tail);
    FrameOfPacket(p, tail + b);
    assert (p + tail) + b == p + (tail + b);
  }

  lemma ResumesBehindByte(a: seq<byte>, b: seq<byte>)
    requires a != [] && a != [0x4e] && (|a| == 1 || !IsMagic(a[0], a[1])) && Resumes(a[1..], b)
    ensures Resumes(a, b)
  {
    assert (a + b)[1..] == a[1..] + b;
  }

  lemma NothingToResume(a: seq<byte>, b: seq<byte>)
    requires a == [] || a == [0x4e]
    ensures Resumes(a, b)
  {
    assert [] + b == b && [] + Frame(a + b).packets == Frame(a + b).packets;
  }

  lemma ResumesUnfinished(a: seq<byte>, b: seq<byte>)
    requires |a| > 1 && IsMagic(a[0], a[1]) && !StartsWithPacket(a)
    ensures Resumes(a, b)
  {
    assert Frame(a) == Framed([], a);
    assert [] + Frame(a + b).packets == Frame(a + b).packets;
  }

  /** Framing can be interrupted anywhere. */
  lemma {:induction false} FrameResumes(a: seq<byte>, b: seq<byte>)
    ensures Resumes(a, b)
    decreases |a|
  {
    hide Frame, PacketLength, Resumes;
    if a == [] || a == [0x4e] {
      NothingToResume(a, b);
    } else if |a| == 1 || !IsMagic(a[0], a[1]) {
      FrameResumes(a[1..], b);
      ResumesBehindByte(a, b);
    } else if StartsWithPacket(a) {
      var n := PacketLength(a[10], a[11]);
      FrameResumes(a[n..], b);
      ResumesBehindPacket(a[..n], a[n..], b);
      assert a == a[..n] + a[n..];
    } else {
      ResumesUnfinished(a, b);
    }
  }

  /** A chunk of the stream with the stale byte behind it in the buffer. */
  datatype Arrival = Arrival(chunk: seq<byte>, stale: byte)

  function Received(arrivals: seq<Arrival>): seq<byte> {
    if arrivals == [] then []
    else Received(arrivals[..|arrivals| - 1]) + arrivals[|arrivals| - 1].chunk
  }

  /** A connection so far: what was handed on and what is kept; or a chunk was copied over the end of the buffer, after
      which nothing is known. */
  datatype Connection = Overrun | Running(framed: Framed)

  const CONNECTED := Running(Framed([], []))

  /** One callback.  The copy does not look at the room left. */
  function AfterCallback(c: Connection, a: Arrival): Connection {
    if c.Overrun? || |c.framed.rest| + |a.chunk| > CAPACITY then Overrun
    else
      var f := Process(c.framed.rest + a.chunk, a.stale);
      Running(Framed(c.framed.packets + f.packets, f.rest))
  }

  /** A whole connection: one callback for each chunk. */
  function Session(arrivals: seq<Arrival>): Connection {
    if arrivals == [] then CONNECTED
    else AfterCallback(Session(arrivals[..|arrivals| - 1]), arrivals[|arrivals| - 1])
  }

  /** No callback ends with a lone first byte of the magic number and another stale byte than the second. */
  predicate NothingDropped(arrivals: seq<Arrival>) {
    forall j :: 0 < j <= |arrivals| ==> !DropsAt(arrivals, j)
  }

  predicate DropsAt(arrivals: seq<Arrival>, j: nat)
    requires 0 < j <= |arrivals|
  {
    Drops(Received(arrivals[..j]), arrivals[j - 1].stale)
  }

  /** Every chunk fits behind the unfinished rest of what came before. */
  predicate Fits(arrivals: seq<Arrival>) {
    forall j :: 0 < j <= |arrivals| ==> FitsAt(arrivals, j)
  }

  predicate FitsAt(arrivals: seq<Arrival>, j: nat)
    requires 0 < j <= |arrivals|
  {
    |Frame(Received(arrivals[..j - 1])).rest| + |arrivals[j - 1].chunk| <= CAPACITY
  }

  lemma LastArrival(arrivals: seq<Arrival>)
    requires arrivals != []
    ensures var init, last := arrivals[..|arrivals| - 1], arrivals[|arrivals| - 1];
            && (NothingDropped(arrivals) <==> NothingDropped(init) && !Drops(Received(arrivals), last.stale))
            && (Fits(arrivals) <==> Fits(init) && |Frame(Received(init)).rest| + |last.chunk| <= CAPACITY)
  {
    hide Drops, Frame, Received;
    var init := arrivals[..|arrivals| - 1];
    assert arrivals[..|arrivals|] == arrivals;
    forall j | 0 < j <= |init|
      ensures DropsAt(arrivals, j) == DropsAt(init, j) && FitsAt(arrivals, j) == FitsAt(init, j)
    {
      assert init[..j] == arrivals[..j] && init[..j - 1] == arrivals[..j - 1];
    }
    assert DropsAt(arrivals, |arrivals|) == Drops(Received(arrivals), arrivals[|arrivals| - 1].stale);
    assert FitsAt(arrivals, |arrivals|) ==
           (|Frame(Received(init)).rest| + |arrivals[|arrivals| - 1].chunk| <= CAPACITY);
  }

  /** One more callback after a connection that framed everything it received. */
  lemma OneCallbackMore(arrivals: seq<Arrival>)
    requires arrivals != [] && Session(arrivals[..|arrivals| - 1]) == Running(Frame(Received(arrivals[..|arrivals| - 1])))
    ensures var init, last := arrivals[..|arrivals| - 1], arrivals[|arrivals| - 1];
            var data := Frame(Received(init)).rest + last.chunk;
            && Frame(Received(arrivals)).rest == Frame(data).rest
            && (|data| > CAPACITY <==> Session(arrivals) == Overrun)
            && (|data| <= CAPACITY && !Drops(Received(arrivals), last.stale) ==>
                  Session(arrivals) == Running(Frame(Received(arrivals))))
  {
    hide Frame, Process;
    var init, last := arrivals[..|arrivals| - 1], arrivals[|arrivals| - 1];
    FrameResumes(Received(init), last.chunk);
    ProcessIsFrame(Frame(Received(init)).rest + last.chunk, last.stale);
  }

  /** As long as nothing is dropped the chunks do not matter: any connection, whatever its bytes and cuts, yields what
      framing all received bytes at once yields if every chunk fits, and overruns the buffer if one does not. */
  lemma {:induction false} ChunksDoNotMatter(arrivals: seq<Arrival>)
    requires NothingDropped(arrivals)
    ensures Session(arrivals) == if Fits(arrivals) then Running(Frame(Received(arrivals))) else Overrun
  {
    hide Frame, Drops, Fits, NothingDropped;
    if arrivals == [] {
      NothingReceived();
    } else {
      LastArrival(arrivals);
      ChunksDoNotMatter(arrivals[..|arrivals| - 1]);
      if Fits(arrivals[..|arrivals| - 1]) {
        OneCallbackMore(arrivals);
      }
    }
  }

  lemma NothingReceived()
    ensures Fits([]) && NothingDropped([]) && Frame([]) == Framed([], [])
  {
  }

  // ---------- streams of packets ----------

  function Flatten(packets: seq<seq<byte>>): seq<byte> {
    if packets == [] then [] else packets[0] + Flatten(packets[1..])
  }

  /** The first `k` packets of `all` are complete, and `rest` is what is there of the next. */
  predicate Delivered(all: seq<seq<byte>>, k: nat, rest: seq<byte>) {
    k <= |all| && if k == |all| then rest == [] else rest < all[k]
  }

  lemma FrameOfUnfinished(p: seq<byte>, n: nat)
    requires IsPacket(p) && n < |p|
    ensures Frame(p[..n]) == Framed([], p[..n])
  {
    if n == 1 {
      assert p[..n] == [0x4e];
    }
  }

  /** Framing finds the first `k` packets of `all` in the first `n` bytes of their stream, and keeps the rest. */
  predicate FramesPrefix(all: seq<seq<byte>>, n: nat, k: nat)
    requires n <= |Flatten(all)|
  {
    var f := Frame(Flatten(all)[..n]);
    && Delivered(all, k, f.rest) && f.packets == all[..k]
    && Flatten(all)[..n] == Flatten(all[..k]) + f.rest
  }

  lemma OnePacketMore(p: seq<byte>, tail: seq<seq<byte>>, m: nat, k: nat)
    requires IsPacket(p) && m <= |Flatten(tail)| && FramesPrefix(tail, m, k)
    ensures Flatten([p] + tail) == p + Flatten(tail) && FramesPrefix([p] + tail, |p| + m, k + 1)
  {
    hide Frame, IsFramed;
    var all, data := [p] + tail, Flatten(tail)[..m];
    assert all[1..] == tail;
    assert Flatten(all)[..|p| + m] == p + data;
    FrameOfPacket(p, data);
    assert all[..k + 1] == [p] + tail[..k] && all[..k + 1][1..] == tail[..k];
    assert Flatten(all[..k + 1]) == p + Flatten(tail[..k]);
  }

  /** Framing any prefix of a stream of packets finds the complete packets, in order, and keeps the rest. */
  lemma {:induction false} FrameOfPrefix(all: seq<seq<byte>>, n: nat) returns (k: nat)
    requires (forall p <- all :: IsPacket(p)) && n <= |Flatten(all)|
    ensures FramesPrefix(all, n, k)
    decreases |all|
  {
    if all == [] {
      k := 0;
    } else if n < |all[0]| {
      k := 0;
      assert Flatten(all)[..n] == all[0][..n];
      FrameOfUnfinished(all[0], n);
    } else {
      hide FramesPrefix, Frame;
      k := FrameOfPrefix(all[1..], n - |all[0]|);
      OnePacketMore(all[0], all[1..], n - |all[0]|, k);
      assert all == [all[0]] + all[1..];
      k := k + 1;
    }
  }

  /** `n` bytes of the stream end exactly one byte into a packet. */
  ghost predicate OneByteInto(all: seq<seq<byte>>, n: nat) {
    exists k :: 0 <= k < |all| && n == |Flatten(all[..k])| + 1
  }

  lemma {:induction false} ReceivedGrows(arrivals: seq<Arrival>, j: nat)
    requires j <= |arrivals|
    ensures Received(arrivals[..j]) <= Received(arrivals)
  {
    var n := |arrivals|;
    if j == n {
      assert arrivals[..n] == arrivals;
    } else {
      ReceivedGrows(arrivals[..n - 1], j);
      assert arrivals[..n - 1][..j] == arrivals[..j];
    }
  }

  lemma LoneByteIsOneByteInto(all: seq<seq<byte>>, n: nat)
    requires (forall p <- all :: IsPacket(p)) && n <= |Flatten(all)|
    requires Frame(Flatten(all)[..n]).rest == [0x4e]
    ensures OneByteInto(all, n)
  {
    var k := FrameOfPrefix(all, n);
    assert n == |Flatten(all[..k])| + 1;
  }

  lemma {:induction false} OneByteIntoIsLoneByte(all: seq<seq<byte>>, k: nat)
    requires (forall p <- all :: IsPacket(p)) && k < |all|
    ensures var n := |Flatten(all[..k])| + 1; n <= |Flatten(all)| && Frame(Flatten(all)[..n]).rest == [0x4e]
    decreases |all|
  {
    hide Frame;
    var p, tail := all[0], all[1..];
    assert IsPacket(p);
    if k == 0 {
      assert Flatten(all)[..1] == p[..1] == [0x4e];
      FrameOfUnfinished(p, 1);
    } else {
      OneByteIntoIsLoneByte(tail, k - 1);
      var m := |Flatten(tail[..k - 1])| + 1;
      assert all[..k][1..] == tail[..k - 1];
      assert Flatten(all)[..|p| + m] == p + Flatten(tail)[..m];
      FrameOfPacket(p, Flatten(tail)[..m]);
    }
  }

  /** A chunk ends exactly one byte into a packet, with a stale byte behind it that is not the second of the magic number. */
  ghost predicate BadCut(all: seq<seq<byte>>, arrivals: seq<Arrival>, j: nat)
    requires 0 < j <= |arrivals|
  {
    OneByteInto(all, |Received(arrivals[..j])|) && arrivals[j - 1].stale != 0x6f
  }

  lemma BadCutIsDrop(all: seq<seq<byte>>, arrivals: seq<Arrival>, j: nat)
    requires forall p <- all :: IsPacket(p)
    requires Received(arrivals) <= Flatten(all) && 0 < j <= |arrivals|
    ensures BadCut(all, arrivals, j) <==> DropsAt(arrivals, j)
  {
    hide Frame, IsPacket;
    ReceivedGrows(arrivals, j);
    var part := Received(arrivals[..j]);
    assert part == Flatten(all)[..|part|];
    if OneByteInto(all, |part|) {
      var k :| 0 <= k < |all| && |part| == |Flatten(all[..k])| + 1;
      OneByteIntoIsLoneByte(all, k);
    } else if Frame(part).rest == [0x4e] {
      LoneByteIsOneByteInto(all, |part|);
    }
  }

  /** Processed packets and kept bytes are no more than what was gathered. */
  lemma {:induction false} NothingInvented(data: seq<byte>, stale: byte)
    ensures |Flatten(Process(data, stale).packets)| + |Process(data, stale).rest| <= |data|
  {
    if data != [] {
      if !IsMagic(data[0], if |data| > 1 then data[1] else stale) {
        NothingInvented(data[1..], stale);
      } else if StartsWithPacket(data) {
        var n := PacketLength(data[10], data[11]);
        NothingInvented(data[n..], stale);
        var f := Process(data[n..], stale);
        assert ([data[..n]] + f.packets)[1..] == f.packets;
      }
    }
  }

  lemma {:induction false} FlattenConcat(a: seq<seq<byte>>, b: seq<seq<byte>>)
    ensures Flatten(a + b) == Flatten(a) + Flatten(b)
  {
    if a == [] {
      assert a + b == b;
    } else {
      FlattenConcat(a[1..], b);
      assert (a + b)[1..] == a[1..] + b;
    }
  }

  /** Bytes accounted for. */
  function Bytes(f: Framed): nat { |Flatten(f.packets)| + |f.rest| }

  lemma CallbackInventsNothing(c: Connection, a: Arrival)
    requires c.Running? && AfterCallback(c, a).Running?
    ensures var f := Process(c.framed.rest + a.chunk, a.stale);
            && Bytes(AfterCallback(c, a).framed) == Bytes(c.framed) - |c.framed.rest| + Bytes(f)
            && Bytes(f) <= |c.framed.rest| + |a.chunk|
  {
    hide Process;
    NothingInvented(c.framed.rest + a.chunk, a.stale);
    FlattenConcat(c.framed.packets, Process(c.framed.rest + a.chunk, a.stale).packets);
  }

  /** A connection that has lost no byte never dropped one, and every chunk has fitted. */
  lemma {:induction false} NothingLost(arrivals: seq<Arrival>)
    requires Session(arrivals).Running?
    ensures Bytes(Session(arrivals).framed) <= |Received(arrivals)|
    ensures Bytes(Session(arrivals).framed) == |Received(arrivals)| ==> NothingDropped(arrivals) && Fits(arrivals)
  {
    hide Frame, Process, NothingDropped, Fits, Drops;
    NothingReceived();
    if arrivals != [] {
      var init, last := arrivals[..|arrivals| - 1], arrivals[|arrivals| - 1];
      NothingLost(init);
      CallbackInventsNothing(Session(init), last);
      if Bytes(Session(arrivals).framed) == |Received(arrivals)| {
        ChunksDoNotMatter(init);
        OneCallbackMore(arrivals);
        LastArrival(arrivals);
        if Drops(Received(arrivals), last.stale) {
          DropLosesOne(Frame(Received(init)).rest + last.chunk, Received(arrivals), last.stale);
        }
      }
    }
  }

  lemma DropLosesOne(data: seq<byte>, received: seq<byte>, stale: byte)
    requires Frame(received).rest == Frame(data).rest && Drops(received, stale)
    ensures Bytes(Process(data, stale)) < |data|
  {
    ProcessIsFrame(data, stale);
    ProcessIsFrame(data, 0x6f);
    NothingInvented(data, 0x6f);
  }

  /** A stream of packets, cut in any way: every packet that has arrived was processed, once and in order, and exactly the
      unfinished rest is kept, if and only if every chunk fitted and none made a bad cut. */
  lemma PacketsAreDelivered(all: seq<seq<byte>>, arrivals: seq<Arrival>) returns (k: nat, rest: seq<byte>)
    requires forall p <- all :: IsPacket(p)
    requires Received(arrivals) <= Flatten(all)
    ensures Delivered(all, k, rest) && Received(arrivals) == Flatten(all[..k]) + rest
    ensures Session(arrivals) == Running(Framed(all[..k], rest)) <==>
            Fits(arrivals) && forall j :: 0 < j <= |arrivals| ==> !BadCut(all, arrivals, j)
  {
    hide Frame, Process, Fits, BadCut, DropsAt;
    assert Received(arrivals) == Flatten(all)[..|Received(arrivals)|];
    k := FrameOfPrefix(all, |Received(arrivals)|);
    rest := Frame(Received(arrivals)).rest;
    forall j | 0 < j <= |arrivals| ensures BadCut(all, arrivals, j) <==> DropsAt(arrivals, j) {
      BadCutIsDrop(all, arrivals, j);
    }
    if NothingDropped(arrivals) {
      ChunksDoNotMatter(arrivals);
    } else if Session(arrivals).Running? {
      NothingLost(arrivals);
    }
  }

  // ---------- the room in the buffer ----------

  lemma {:induction false} ProcessedWithin(data: seq<byte>, stale: byte)
    ensures forall p <- Process(data, stale).packets :: |p| <= |data|
  {
    if data != [] {
      if !IsMagic(data[0], if |data| > 1 then data[1] else stale) {
        ProcessedWithin(data[1..], stale);
      } else if StartsWithPacket(data) {
        ProcessedWithin(data[PacketLength(data[10], data[11])..], stale);
      }
    }
  }

  /** No connection ever hands on a packet longer than the buffer, although headers can announce up to 2060 bytes. */
  lemma {:induction false} LongPacketsAreNeverReceived(arrivals: seq<Arrival>)
    ensures Session(arrivals).Running? ==> forall p <- Session(arrivals).framed.packets :: |p| <= CAPACITY
  {
    hide Process;
    if arrivals != [] {
      var before, last := Session(arrivals[..|arrivals| - 1]), arrivals[|arrivals| - 1];
      LongPacketsAreNeverReceived(arrivals[..|arrivals| - 1]);
      if before.Running? {
        ProcessedWithin(before.framed.rest + last.chunk, last.stale);
      }
    }
  }

  /** A write of 255 words. */
  const LARGE: seq<byte> := [0x4e, 0x6f, 0x10, 0x44, 0, 0, 0, 0, 0, 0x0f, 255, 0] + seq(1024, _ => 0)

  /** Two well-formed packets, both shorter than the buffer, whose second chunk is copied 560 bytes over its end. */
  lemma OverrunOfTwoPackets(stale1: byte, stale2: byte)
    ensures IsPacket(LARGE)
    ensures var stream := LARGE + LARGE;
            |stream| == 2072 && Session([Arrival(stream[..1000], stale1), Arrival(stream[1000..], stale2)]) == Overrun
  {
    var stream := LARGE + LARGE;
    var a, b := Arrival(stream[..1000], stale1), Arrival(stream[1000..], stale2);
    assert stream[..1000] == LARGE[..1000];
    FrameOfUnfinished(LARGE, 1000);
    ProcessIsFrame(LARGE[..1000], stale1);
    TwoCallbacks(a, b);
  }

  lemma TwoCallbacks(a: Arrival, b: Arrival)
    requires |a.chunk| <= CAPACITY
    ensures var f := Process(a.chunk, a.stale);
            Session([a, b]) == if |f.rest| + |b.chunk| > CAPACITY then Overrun
                               else var g := Process(f.rest + b.chunk, b.stale);
                                    Running(Framed(f.packets + g.packets, g.rest))
  {
    var f := Process(a.chunk, a.stale);
    assert [a, b][..1] == [a] && [a][..0] == [];
    assert [] + a.chunk == a.chunk && [] + f.packets == f.packets;
    assert Session([a]) == Running(Framed(f.packets, f.rest));
  }

  /** One packet cut in two gets through exactly when the buffer holds it and the cut is not behind its first byte, or the
      stale byte helps. */
  lemma CutInTwo(p: seq<byte>, cut: nat, stale1: byte, stale2: byte)
    requires IsPacket(p) && 0 < cut < |p|
    ensures Session([Arrival(p[..cut], stale1), Arrival(p[cut..], stale2)]) == Running(Framed([p], [])) <==>
            |p| <= CAPACITY && (cut != 1 || stale1 == 0x6f)
  {
    var arrivals := [Arrival(p[..cut], stale1), Arrival(p[cut..], stale2)];
    if |p| > CAPACITY {
      LongPacketsAreNeverReceived(arrivals);
      assert p in [p];
    } else {
      TwoCallbacks(arrivals[0], arrivals[1]);
      FrameOfUnfinished(p, cut);
      ProcessIsFrame(p[..cut], stale1);
      if cut != 1 || stale1 == 0x6f {
        WholePacket(p, cut, stale2);
      } else {
        LoneByteLost(p, stale2);
      }
    }
  }

  lemma WholePacket(p: seq<byte>, cut: nat, stale: byte)
    requires IsPacket(p) && cut < |p|
    ensures Process(p[..cut] + p[cut..], stale) == Framed([p], [])
  {
    assert p[..cut] + p[cut..] == p && p + [] == p;
    ProcessIsFrame(p, stale);
    FrameOfPacket(p, []);
  }

  lemma LoneByteLost(p: seq<byte>, stale: byte)
    requires IsPacket(p)
    ensures p[..1] == [0x4e] && Process([] + p[1..], stale) != Framed([p], [])
  {
    assert [] + p[1..] == p[1..] && Flatten([p]) == p + [];
    NothingInvented(p[1..], stale);
  }

  // ---------- the callback ----------

  /** `packets` are what the loop has handed on when it arrives at `ptr`. */
  predicate HandedOn(data: seq<byte>, stale: byte, ptr: nat, packets: seq<seq<byte>>)
    requires ptr <= |data|
  {
    var f := Process(data[ptr..], stale);
    Process(data, stale) == Framed(packets + f.packets, f.rest)
  }

  lemma NothingHandedOn(data: seq<byte>, stale: byte)
    ensures HandedOn(data, stale, 0, [])
  {
    assert data[0..] == data && [] + Process(data, stale).packets == Process(data, stale).packets;
  }

  lemma SkipByte(data: seq<byte>, stale: byte, ptr: nat, packets: seq<seq<byte>>)
    requires ptr < |data| && HandedOn(data, stale, ptr, packets)
    requires !IsMagic(data[ptr], if ptr + 1 < |data| then data[ptr + 1] else stale)
    ensures HandedOn(data, stale, ptr + 1, packets)
  {
    assert data[ptr..][1..] == data[ptr + 1..];
  }

  lemma TakePacket(data: seq<byte>, stale: byte, ptr: nat, packets: seq<seq<byte>>, n: nat)
    requires ptr + 12 < |data| && ptr + n <= |data| && HandedOn(data, stale, ptr, packets)
    requires IsMagic(data[ptr], data[ptr + 1]) && n == PacketLength(data[ptr + 10], data[ptr + 11])
    ensures HandedOn(data, stale, ptr + n, packets + [data[ptr..ptr + n]])
  {
    assert data[ptr..][..n] == data[ptr..ptr + n] && data[ptr..][n..] == data[ptr + n..];
  }

  lemma StopHere(data: seq<byte>, stale: byte, ptr: nat, packets: seq<seq<byte>>)
    requires ptr <= |data| && HandedOn(data, stale, ptr, packets)
    requires ptr == |data| ||
             (IsMagic(data[ptr], if ptr + 1 < |data| then data[ptr + 1] else stale) && !StartsWithPacket(data[ptr..]))
    ensures Process(data, stale) == Framed(packets, data[ptr..])
  {
    assert packets + [] == packets;
  }

  /** The static buffer and its fill; `beyond` is the byte that memory holds behind the buffer.  Once a chunk was copied over
      the end, `overrun`, the callback promises nothing. */
  class Receiver {
    const buf: array<byte>
    const beyond: byte
    var length: nat
    var overrun: bool
    ghost var processed: seq<seq<byte>>

    constructor (memory: byte)
      ensures fresh(buf) && beyond == memory && Valid() && State() == CONNECTED
    {
      buf := new byte[CAPACITY];
      beyond := memory;
      length, overrun := 0, false;
      processed := [];
    }

    ghost predicate Valid()
      reads this
    {
      buf.Length == CAPACITY && length <= CAPACITY
    }

    ghost function Kept(): seq<byte>
      requires Valid()
      reads this, buf
    {
      buf[..length]
    }

    /** All packets processed so far, and the bytes kept. */
    ghost function State(): Connection
      requires Valid()
      reads this, buf
    {
      if overrun then Overrun else Running(Framed(processed, Kept()))
    }

    /** The byte at a position of the buffer, or behind it. */
    function At(i: nat): byte
      requires Valid()
      reads this, buf
    {
      if i < CAPACITY then buf[i] else beyond
    }

    /** Gathers the chunk, processes every complete packet, and moves the rest to the front of the buffer. */
    method Callback(chunk: seq<byte>) returns (packets: seq<seq<byte>>)
      requires Valid()
      modifies this, buf
      ensures Valid()
      ensures State() == AfterCallback(old(State()), Arrival(chunk, old(At(length + |chunk|))))
      ensures processed == old(processed) + packets
    {
      packets := [];
      if overrun || length + |chunk| > CAPACITY {
        overrun := true;
        return;
      }
      forall k | 0 <= k < |chunk| {
        buf[length + k] := chunk[k];
      }
      length := length + |chunk|;
      assert Kept() == old(Kept()) + chunk;
      assert At(length) == old(At(length + |chunk|));
      packets := HandOn();
      processed := processed + packets;
    }

    /** The callbacks of a whole connection. */
    method Serve(chunks: seq<seq<byte>>) returns (packets: seq<seq<byte>>, ghost arrivals: seq<Arrival>)
      requires Valid() && State() == CONNECTED
      modifies this, buf
      ensures Valid() && |arrivals| == |chunks| && forall k :: 0 <= k < |chunks| ==> arrivals[k].chunk == chunks[k]
      ensures State() == Session(arrivals) && processed == packets
    {
      packets, arrivals := [], [];
      var i := 0;
      while i < |chunks|
        invariant Valid() && |arrivals| == i <= |chunks|
        invariant forall k :: 0 <= k < i ==> arrivals[k].chunk == chunks[k]
        invariant State() == Session(arrivals) && processed == packets
      {
        ghost var a := Arrival(chunks[i], At(length + |chunks[i]|));
        var more := Callback(chunks[i]);
        assert (arrivals + [a])[..i] == arrivals;
        packets, arrivals := packets + more, arrivals + [a];
        i := i + 1;
      }
    }

    method HandOn() returns (packets: seq<seq<byte>>)
      requires Valid()
      modifies `length, buf
      ensures Valid()
      ensures var f := Process(old(Kept()), old(At(length))); packets == f.packets && Kept() == f.rest
    {
      hide Process, PacketLength, HandedOn;
      ghost var total, data, stale := length, buf[..length], At(length);
      var ptr := 0;
      packets := [];
      NothingHandedOn(data, stale);
      while length > 0
        invariant ptr + length == total <= CAPACITY && buf[..total] == data && stale == At(total)
        invariant HandedOn(data, stale, ptr, packets)
        modifies `length
        decreases length
      {
        assert At(ptr) == data[ptr] && At(ptr + 1) == if ptr + 1 < total then data[ptr + 1] else stale;
        if !IsMagic(At(ptr), At(ptr + 1)) {
          SkipByte(data, stale, ptr, packets);
          ptr := ptr + 1;
          length := length - 1;
        } else if length > 12 && length >= PacketLength(buf[ptr + 10], buf[ptr + 11]) {
          assert buf[ptr + 10] == data[ptr + 10] && buf[ptr + 11] == data[ptr + 11];
          var n := PacketLength(buf[ptr + 10], buf[ptr + 11]);
          TakePacket(data, stale, ptr, packets, n);
          assert buf[..total][ptr..ptr + n] == buf[ptr..ptr + n];
          packets := packets + [buf[ptr..ptr + n]];
          ptr := ptr + n;
          length := length - n;
        } else {
          assert length > 12 ==> buf[ptr + 10] == data[ptr..][10] && buf[ptr + 11] == data[ptr..][11];
          break;
        }
      }
      StopHere(data, stale, ptr, packets);
      assert data[ptr..] == buf[ptr..total];
      forall k | 0 <= k < length {
        buf[k] := buf[ptr + k];
      }
    }
  }
}
