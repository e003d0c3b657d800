/** The console over telnet: characters arrive in the ring buffer, and the main loop feeds them to the line editor one by
    one. */
module Console {

  import opened Types
  import Telnet
  import LineEditor

  function Text(bytes: seq<byte>): string {
    seq(|bytes|, k requires 0 <= k < |bytes| => bytes[k] as char)
  }

  /** The lines returned and the state of the editor after a run of arrivals and calls of `readstr`, each of which takes one
      character if there is one. */
  function Serve(events: seq<Telnet.Event>): LineEditor.Session {
    if events == [] then LineEditor.Session([], LineEditor.State("", LineEditor.NUL))
    else
      var init, e := events[..|events| - 1], events[|events| - 1];
      ServeOne(Serve(init), Telnet.Run(init).pending, e)
  }

  function ServeOne(s: LineEditor.Session, pending: seq<byte>, e: Telnet.Event): LineEditor.Session {
    if e.Read? && pending != [] then
      var r := LineEditor.TelnetKey(s.state, pending[0] as char);
      LineEditor.Session(s.lines + LineEditor.Returned(r.returned), r.state)
    else s
  }

  lemma {:induction false} TelnetOneMore(s: LineEditor.State, input: string, c: char)
    ensures var t := LineEditor.Telnet(s, input);
            var r := LineEditor.TelnetKey(t.state, c);
            LineEditor.Telnet(s, input + [c]) == LineEditor.Session(t.lines + LineEditor.Returned(r.returned), r.state)
    decreases |input|
  {
    hide LineEditor.TelnetKey, LineEditor.Returned;
    if input == "" {
      assert input + [c] == [c] && [c][1..] == "";
    } else {
      assert (input + [c])[1..] == input[1..] + [c];
      TelnetOneMore(LineEditor.TelnetKey(s, input[0]).state, input[1..], c);
    }
  }

  lemma TextOneMore(bytes: seq<byte>, c: byte)
    ensures Text(bytes + [c]) == Text(bytes) + [c as char]
  {
  }

  /** The editor sees exactly the characters that the ring delivers. */
  lemma {:induction false} EditorSeesDelivered(events: seq<Telnet.Event>)
    ensures Serve(events) ==
            LineEditor.Telnet(LineEditor.State("", LineEditor.NUL), Text(Telnet.Run(events).delivered))
  {
    hide LineEditor.Telnet, LineEditor.TelnetKey, LineEditor.Returned, Text;
    if events == [] {
      NothingSeen();
    } else {
      var init := events[..|events| - 1];
      var before := Telnet.Run(init);
      EditorSeesDelivered(init);
      if events[|events| - 1].Read? && before.pending != [] {
        TextOneMore(before.delivered, before.pending[0]);
        TelnetOneMore(LineEditor.State("", LineEditor.NUL), Text(before.delivered), before.pending[0] as char);
      }
    }
  }

  lemma NothingSeen()
    ensures LineEditor.Telnet(LineEditor.State("", LineEditor.NUL), Text([])) == Serve([])
  {
  }

  /** Over any interleaving of arrivals and calls the lines returned are the edited lines of what was accepted and read, and
      the rest of it is being edited. */
  lemma LinesOfTheLog(events: seq<Telnet.Event>)
    ensures var log := Telnet.Logged(events);
            var split := LineEditor.TelnetLines("", Text(log.accepted[..log.position]));
            && Serve(events).lines == LineEditor.Edited(split.lines)
            && Serve(events).state.line == LineEditor.Edit(split.rest)
  {
    EditorSeesDelivered(events);
    Telnet.RingIsLog(events);
    LineEditor.EmptyEdit();
    LineEditor.TelnetReturnsLines("", LineEditor.NUL, Text(Telnet.Run(events).delivered));
  }

  /** When no character was refused and none is waiting, those are the lines of everything that arrived. */
  lemma LinesOfAllArrivals(events: seq<Telnet.Event>)
    requires Telnet.Logged(events).refused == 0 && Telnet.Run(events).pending == []
    ensures var split := LineEditor.TelnetLines("", Text(Telnet.Arrived(events)));
            && Serve(events).lines == LineEditor.Edited(split.lines)
            && Serve(events).state.line == LineEditor.Edit(split.rest)
  {
    LinesOfTheLog(events);
    Telnet.RingIsLog(events);
    Telnet.LogOfArrivals(events);
    var log := Telnet.Logged(events);
    assert log.accepted[..log.position] == log.accepted;
  }

  /** The ring and the editor in place, through a whole run. */
  method Run(events: seq<Telnet.Event>) returns (lines: seq<string>)
    ensures lines == Serve(events).lines
  {
    var ring := new Telnet.Ring();
    var editor := new LineEditor.Editor();
    lines := [];
    var k := 0;
    while k < |events|
      invariant 0 <= k <= |events|
      invariant fresh(ring) && fresh(ring.buf) && fresh(editor) && fresh(editor.s)
      invariant ring.Valid() && editor.Valid()
      invariant ring.Pending() == Telnet.Run(events[..k]).pending
      invariant Serve(events[..k]) == LineEditor.Session(lines, editor.Current())
    {
      assert events[..k + 1][..k] == events[..k];
      match events[k] {
        case Arrive(c) =>
          ring.Store(c);
        case Read =>
          var available := ring.ReadCharNonblock();
          if available {
            var c := ring.ReadChar();
            var line := Service(editor, c as char);
            lines := lines + LineEditor.Returned(line);
          }
      }
      k := k + 1;
    }
    assert events[..|events|] == events;
  }

  /** One call of `readstr` with a character waiting, and the line that it leaves in its buffer when it is complete. */
  method Service(editor: LineEditor.Editor, c: char) returns (line: Option<string>)
    requires editor.Valid()
    modifies editor, editor.s
    ensures editor.Valid()
    ensures var r := LineEditor.TelnetKey(old(editor.Current()), c);
            editor.Current() == r.state && line == r.returned
  {
    var length := editor.ptr;
    var complete, echo := editor.ReadStr(true, Some(c));
    line := if complete then Some(editor.s[..length]) else None;
  }
}
