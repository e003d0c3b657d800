/** The console's line editor: one character at a time, from the telnet connection or the serial line. */
module LineEditor {
  import opened Types

  const NUL := '\0'
  const BEL := 0x07 as char
  const BACKSPACE := 0x08 as char
  const DELETE := 0x7f as char
  const CR := '\r'
  const LF := '\n'

  /** The buffer holds 128 characters with the terminator. */
  const CAPACITY := 127

  /** What typing a character does to the line. */
  function Typed(line: string, c: char): string {
    if c == DELETE || c == BACKSPACE then if line == "" then "" else line[..|line| - 1]
    else if c == BEL || |line| >= CAPACITY then line
    else line + [c]
  }

  /** The line that a sequence of characters leaves. */
  function Edit(keys: string): (line: string)
    ensures |line| <= CAPACITY
  {
    if keys == "" then "" else Typed(Edit(keys[..|keys| - 1]), keys[|keys| - 1])
  }

  lemma EditOneMore(keys: string, c: char)
    ensures Edit(keys + [c]) == Typed(Edit(keys), c)
  {
    assert (keys + [c])[..|keys|] == keys;
  }

  /** Text without control characters is kept, cut to 127 characters. */
  lemma {:induction false} PlainTextIsKept(text: string)
    requires forall c <- text :: c != DELETE && c != BACKSPACE && c != BEL
    ensures Edit(text) == if |text| <= CAPACITY then text else text[..CAPACITY]
  {
    if text != "" {
      assert forall k :: 0 <= k < |text| ==> text[k] in text;
      PlainTextIsKept(text[..|text| - 1]);
    }
  }

  /** A character that fits and is then deleted leaves no trace. */
  lemma DeleteUndoes(keys: string, c: char, delete: char)
    requires c != DELETE && c != BACKSPACE && c != BEL && (delete == DELETE || delete == BACKSPACE)
    ensures Edit(keys + [c] + [delete]) == Edit(keys) <==> |Edit(keys)| < CAPACITY
  {
    var k := keys + [c];
    assert k[..|k| - 1] == keys && (k + [delete])[..|k|] == k;
  }

  // ---------- one call ----------

  /** The line so far, and the character to skip if it comes next (serial line only). */
  datatype State = State(line: string, skip: char)

  datatype Result = Result(state: State, returned: Option<string>)

  function TelnetKey(s: State, c: char): Result {
    if c == CR then Result(s, None)
    else if c == LF then Result(s.(line := ""), Some(s.line))
    else Result(s.(line := Typed(s.line, c)), None)
  }

  function SerialKey(s: State, c: char): Result {
    if c == s.skip then Result(s.(skip := NUL), None)
    else if c == CR then Result(State("", LF), Some(s.line))
    else if c == LF then Result(State("", CR), Some(s.line))
    else Result(State(Typed(s.line, c), NUL), None)
  }

  // ---------- whole inputs ----------

  /** Lines returned, and the state left. */
  datatype Session = Session(lines: seq<string>, state: State)

  function Returned(o: Option<string>): seq<string> {
    if o.Some? then [o.value] else []
  }

  function Telnet(s: State, input: string): Session
    decreases |input|
  {
    if input == "" then Session([], s)
    else
      var r := TelnetKey(s, input[0]);
      var t := Telnet(r.state, input[1..]);
      Session(Returned(r.returned) + t.lines, t.state)
  }

  function Serial(s: State, input: string): Session
    decreases |input|
  {
    if input == "" then Session([], s)
    else
      var r := SerialKey(s, input[0]);
      var t := Serial(r.state, input[1..]);
      Session(Returned(r.returned) + t.lines, t.state)
  }

  /** The keys of each line of an input, and those after its last line end. */
  datatype Split = Split(lines: seq<string>, rest: string)

  /** Telnet lines end with LF; CR counts for nothing. */
  function TelnetLines(keys: string, input: string): Split
    decreases |input|
  {
    if input == "" then Split([], keys)
    else if input[0] == LF then
      var s := TelnetLines("", input[1..]);
      Split([keys] + s.lines, s.rest)
    else TelnetLines(if input[0] == CR then keys else keys + [input[0]], input[1..])
  }

  /** Serial lines end with CR, LF, CRLF or LFCR, the longest that fits. */
  function EndLength(input: string): (n: nat)
    requires input != "" && (input[0] == CR || input[0] == LF)
    ensures 0 < n <= |input|
  {
    if |input| > 1 && input[1] == (if input[0] == CR then LF else CR) then 2 else 1
  }

  function SerialLines(keys: string, input: string): Split
    decreases |input|
  {
    if input == "" then Split([], keys)
    else if input[0] == CR || input[0] == LF then
      var s := SerialLines("", input[EndLength(input)..]);
      Split([keys] + s.lines, s.rest)
    else SerialLines(keys + [input[0]], input[1..])
  }

  function Edited(lines: seq<string>): seq<string> {
    seq(|lines|, k requires 0 <= k < |lines| => Edit(lines[k]))
  }

  /** The lines returned over telnet are the edited lines of the input. */
  lemma {:induction false} TelnetReturnsLines(keys: string, skip: char, input: string)
    ensures var t, s := Telnet(State(Edit(keys), skip), input), TelnetLines(keys, input);
            t.lines == Edited(s.lines) && t.state == State(Edit(s.rest), skip)
    decreases |input|
  {
    if input != "" {
      var c := input[0];
      if c == LF {
        TelnetReturnsLines("", skip, input[1..]);
      } else {
        var more := if c == CR then keys else keys + [c];
        assert (keys + [c])[..|keys|] == keys;
        TelnetReturnsLines(more, skip, input[1..]);
      }
    }
  }

  lemma EditedOneMore(keys: string, lines: seq<string>)
    ensures Edited([keys] + lines) == [Edit(keys)] + Edited(lines)
  {
  }

  lemma PlainKey(keys: string, input: string)
    requires NUL !in input && input != "" && input[0] != CR && input[0] != LF
    ensures Serial(State(Edit(keys), NUL), input) == Serial(State(Edit(keys + [input[0]]), NUL), input[1..])
  {
    assert input[0] in input;
    EditOneMore(keys, input[0]);
    assert Returned(None) + Serial(State(Edit(keys + [input[0]]), NUL), input[1..]).lines ==
           Serial(State(Edit(keys + [input[0]]), NUL), input[1..]).lines;
  }

  /** The lines returned on the serial line are the edited lines of the input, if this has no NUL. */
  lemma {:induction false} SerialReturnsLines(keys: string, input: string)
    requires NUL !in input
    ensures var t, s := Serial(State(Edit(keys), NUL), input), SerialLines(keys, input);
            t.lines == Edited(s.lines) && t.state.line == Edit(s.rest)
    decreases |input|
  {
    if input != "" {
      hide Typed, EndLength, Edit, Edited, Serial;
      if input[0] == CR || input[0] == LF {
        var rest := input[EndLength(input)..];
        SerialEnd(keys, input);
        EditedOneMore(keys, SerialLines("", rest).lines);
        EmptyEdit();
        SerialReturnsLines("", rest);
      } else {
        PlainKey(keys, input);
        SerialReturnsLines(keys + [input[0]], input[1..]);
      }
    }
  }

  lemma EmptyEdit()
    ensures Edit("") == ""
  {
  }

  /** A line end of either length returns one line, and its second character, or a different one, is handled as if the
      editor had just been started. */
  lemma SerialEnd(keys: string, input: string)
    requires NUL !in input && input != "" && (input[0] == CR || input[0] == LF)
    ensures var n := EndLength(input);
            var t, u := Serial(State(Edit(keys), NUL), input), Serial(State("", NUL), input[n..]);
            t.lines == [Edit(keys)] + u.lines && t.state.line == u.state.line
  {
    hide Edit, Typed;
    var other := if input[0] == CR then LF else CR;
    var tail := input[1..];
    if EndLength(input) == 2 {
      assert tail[1..] == input[2..];
      SkippedKey(other, tail);
    } else {
      OtherKey(other, tail);
    }
  }

  lemma SkippedKey(skip: char, input: string)
    requires input != "" && input[0] == skip
    ensures Serial(State("", skip), input) == Serial(State("", NUL), input[1..])
  {
  }

  /** A pending skip does not matter to any other character. */
  lemma OtherKey(skip: char, input: string)
    requires NUL !in input && (input == "" || input[0] != skip)
    ensures Serial(State("", skip), input).lines == Serial(State("", NUL), input).lines
    ensures Serial(State("", skip), input).state.line == Serial(State("", NUL), input).state.line
  {
    if input != "" {
      assert input[0] in input;
      assert SerialKey(State("", skip), input[0]) == SerialKey(State("", NUL), input[0]);
    }
  }

  /** One text line behind one line end of any kind is returned as exactly one line. */
  lemma OneLineEachEnd(text: string, end: string)
    requires end in {[CR], [LF], [CR, LF], [LF, CR]}
    requires NUL !in text && CR !in text && LF !in text
    ensures Serial(State("", NUL), text + end).lines == [Edit(text)]
    ensures Serial(State("", NUL), text + end).state.line == ""
  {
    SplitAtEnd("", text, end);
    assert "" + text == text;
    SerialReturnsLines("", text + end);
  }

  lemma {:induction false} SplitAtEnd(keys: string, text: string, end: string)
    requires end in {[CR], [LF], [CR, LF], [LF, CR]}
    requires CR !in text && LF !in text
    ensures SerialLines(keys, text + end) == Split([keys + text], "")
    decreases |text|
  {
    if text == "" {
      assert text + end == end && keys + text == keys;
      assert EndLength(end) == |end|;
      assert SerialLines("", end[|end|..]) == Split([], "");
    } else {
      assert (text + end)[1..] == text[1..] + end;
      SplitAtEnd(keys + [text[0]], text[1..], end);
      assert keys + [text[0]] + text[1..] == keys + text;
    }
  }

  // ---------- what the terminal shows ----------

  const ERASE := [BACKSPACE, ' ', BACKSPACE]

  /** What a key on the serial line sends back; over telnet the client shows what is typed. */
  function SerialEcho(s: State, c: char): string {
    if c == s.skip then "" else if c == CR || c == LF then [LF] else TypedEcho(s.line, c)
  }

  function TypedEcho(line: string, c: char): string {
    if c == DELETE || c == BACKSPACE then if line == "" then "" else ERASE
    else if c == BEL || |line| >= CAPACITY then ""
    else AsString(c)
  }

  /** A character as a C string of its own: NUL gives the empty one. */
  function AsString(c: char): string {
    if c == NUL then "" else [c]
  }

  /** The current line of a terminal: its cells and the cursor. */
  datatype Terminal = Terminal(cells: string, cursor: nat)

  function Show(t: Terminal, c: char): (n: Terminal)
    requires t.cursor <= |t.cells|
    ensures n.cursor <= |n.cells|
  {
    if c == LF then Terminal("", 0)
    else if c == BACKSPACE then if t.cursor == 0 then t else t.(cursor := t.cursor - 1)
    else if t.cursor == |t.cells| then Terminal(t.cells + [c], t.cursor + 1)
    else Terminal(t.cells[t.cursor := c], t.cursor + 1)
  }

  function ShowAll(t: Terminal, echo: string): (n: Terminal)
    requires t.cursor <= |t.cells|
    ensures n.cursor <= |n.cells|
    decreases |echo|
  {
    if echo == "" then t else ShowAll(Show(t, echo[0]), echo[1..])
  }

  /** The line up to the cursor, and blanks behind it. */
  predicate Shows(t: Terminal, line: string) {
    && t.cursor == |line| <= |t.cells| && t.cells[..t.cursor] == line
    && forall k :: t.cursor <= k < |t.cells| ==> t.cells[k] == ' '
  }

  lemma ShowOne(t: Terminal, c: char)
    requires t.cursor <= |t.cells|
    ensures ShowAll(t, [c]) == Show(t, c) && ShowAll(t, "") == t
  {
    assert [c][1..] == "";
  }

  lemma EraseShows(t: Terminal, line: string)
    requires Shows(t, line) && line != ""
    ensures Shows(ShowAll(t, ERASE), line[..|line| - 1])
  {
    var back := Show(t, BACKSPACE);
    var blank := Show(back, ' ');
    assert ERASE[1..] == [' ', BACKSPACE] && ERASE[1..][1..] == [BACKSPACE];
    ShowOne(blank, BACKSPACE);
    assert ShowAll(t, ERASE) == Show(blank, BACKSPACE);
    assert blank.cells == t.cells[t.cursor - 1 := ' '];
  }

  /** A NUL that is not skipped goes into the line but not to the terminal.  It is skipped unless a line end precedes it. */
  predicate StoresNul(s: State, c: char) {
    c == NUL != s.skip && |s.line| < CAPACITY
  }

  /** Every other key keeps the terminal in step with the line. */
  lemma EchoShowsLine(t: Terminal, s: State, c: char)
    requires Shows(t, s.line)
    ensures Shows(ShowAll(t, SerialEcho(s, c)), SerialKey(s, c).state.line) <==> !StoresNul(s, c)
  {
    if c != s.skip && (c == DELETE || c == BACKSPACE) && s.line != "" {
      EraseShows(t, s.line);
    } else {
      ShowOne(t, c);
      ShowOne(t, LF);
    }
  }

  /** All that a serial input sends back. */
  function Echoed(s: State, input: string): string
    decreases |input|
  {
    if input == "" then "" else SerialEcho(s, input[0]) + Echoed(SerialKey(s, input[0]).state, input[1..])
  }

  lemma {:induction false} ShowConcat(t: Terminal, a: string, b: string)
    requires t.cursor <= |t.cells|
    ensures ShowAll(t, a + b) == ShowAll(ShowAll(t, a), b)
    decreases |a|
  {
    if a == "" {
      assert a + b == b;
    } else {
      assert (a + b)[0] == a[0] && (a + b)[1..] == a[1..] + b;
      ShowConcat(Show(t, a[0]), a[1..], b);
    }
  }

  predicate NoNulStored(s: State, input: string)
    decreases |input|
  {
    input != "" ==> !StoresNul(s, input[0]) && NoNulStored(SerialKey(s, input[0]).state, input[1..])
  }

  /** Behind the input the terminal shows the line being edited. */
  predicate ShownAfter(t: Terminal, s: State, input: string)
    requires t.cursor <= |t.cells|
  {
    Shows(ShowAll(t, Echoed(s, input)), Serial(s, input).state.line)
  }

  lemma ShownOneMore(t: Terminal, s: State, input: string)
    requires t.cursor <= |t.cells| && input != ""
    ensures ShownAfter(t, s, input) <==>
            ShownAfter(ShowAll(t, SerialEcho(s, input[0])), SerialKey(s, input[0]).state, input[1..])
  {
    ShowConcat(t, SerialEcho(s, input[0]), Echoed(SerialKey(s, input[0]).state, input[1..]));
    hide Shows, ShowAll, SerialEcho, SerialKey;
  }

  /** Behind every prefix of an input, whatever is typed, deleted or entered, the terminal shows the line being edited, if and
      only if no NUL gets into a line. */
  lemma {:induction false} TerminalShowsLine(t: Terminal, s: State, input: string)
    requires Shows(t, s.line)
    ensures t.cursor <= |t.cells|
    ensures (forall k :: 0 <= k <= |input| ==> ShownAfter(t, s, input[..k])) <==> NoNulStored(s, input)
    decreases |input|
  {
    hide Shows, SerialEcho, SerialKey, Show, ShowAll, StoresNul, ShownAfter;
    WithinCells(t, s.line);
    ShownNow(t, s);
    if input == "" {
      assert forall k :: 0 <= k <= |input| ==> input[..k] == "";
    } else {
      var c, tail := input[0], input[1..];
      var u, n := ShowAll(t, SerialEcho(s, c)), SerialKey(s, c).state;
      EchoShowsLine(t, s, c);
      forall k | 0 <= k <= |tail|
        ensures ShownAfter(u, n, tail[..k]) <==> ShownAfter(t, s, input[..k + 1])
      {
        assert input[..k + 1][1..] == tail[..k];
        ShownOneMore(t, s, input[..k + 1]);
      }
      if StoresNul(s, c) {
        assert ShownAfter(u, n, tail[..0]) <==> ShownAfter(t, s, input[..0 + 1]);
        ShownNow(u, n);
      } else {
        TerminalShowsLine(u, n, tail);
        ByFirstKey(t, s, u, n, input);
      }
    }
  }

  /** Input without NUL stores none. */
  lemma {:induction false} WithoutNul(s: State, input: string)
    requires NUL !in input
    ensures NoNulStored(s, input)
    decreases |input|
  {
    if input != "" {
      assert input[0] in input;
      WithoutNul(SerialKey(s, input[0]).state, input[1..]);
    }
  }

  /** Every prefix but the empty one starts with the first key. */
  lemma ByFirstKey(t: Terminal, s: State, u: Terminal, n: State, input: string)
    requires t.cursor <= |t.cells| && u.cursor <= |u.cells| && input != "" && ShownAfter(t, s, "")
    requires forall k :: 0 <= k <= |input| - 1 ==>
               (ShownAfter(u, n, input[1..][..k]) <==> ShownAfter(t, s, input[..k + 1]))
    ensures (forall k :: 0 <= k <= |input| ==> ShownAfter(t, s, input[..k])) <==>
            (forall k :: 0 <= k <= |input[1..]| ==> ShownAfter(u, n, input[1..][..k]))
  {
    hide ShownAfter;
    if forall k :: 0 <= k <= |input[1..]| ==> ShownAfter(u, n, input[1..][..k]) {
      forall k | 0 <= k <= |input| ensures ShownAfter(t, s, input[..k]) {
        if k > 0 {
          assert ShownAfter(u, n, input[1..][..k - 1]) <==> ShownAfter(t, s, input[..k - 1 + 1]);
        } else {
          assert input[..k] == "";
        }
      }
    }
  }

  lemma ShownNow(t: Terminal, s: State)
    requires t.cursor <= |t.cells|
    ensures ShownAfter(t, s, "") <==> Shows(t, s.line)
  {
  }

  lemma WithinCells(t: Terminal, line: string)
    requires Shows(t, line)
    ensures t.cursor <= |t.cells|
  {
  }

  // ---------- the static buffer ----------

  class Editor {
    const s: array<char>
    var ptr: nat
    var skipIfNext: char

    constructor ()
      ensures fresh(s) && Valid() && Current() == State("", NUL)
    {
      s := new char[128];
      ptr, skipIfNext := 0, NUL;
    }

    predicate Valid()
      reads this
    {
      s.Length == 128 && ptr <= CAPACITY
    }

    function Current(): State
      requires Valid()
      reads this, s
    {
      State(s[..ptr], skipIfNext)
    }

    /** A line was returned: it is in the buffer, with its terminator behind it. */
    predicate Holds(line: string)
      reads s
    {
      |line| < s.Length && s[..|line|] == line && s[|line|] == NUL
    }

    /** `key` is the next character, if one is available; the results say whether a line was completed, and what was sent
        back to the terminal. */
    method ReadStr(telnetActive: bool, key: Option<char>) returns (complete: bool, echo: string)
      requires Valid()
      modifies this, s
      ensures Valid()
      ensures key.None? ==> !complete && echo == "" && Current() == old(Current())
      ensures key.Some? ==> echo == if telnetActive then "" else SerialEcho(old(Current()), key.value)
      ensures key.Some? ==>
                var r := if telnetActive then TelnetKey(old(Current()), key.value) else SerialKey(old(Current()), key.value);
                Current() == r.state && complete == r.returned.Some? && (complete ==> Holds(r.returned.value))
    {
      complete, echo := false, "";
      if key.None? {
        return;
      }
      var c := key.value;
      if telnetActive {
        if c == CR {
        } else if c == LF {
          EndLine();
          complete := true;
        } else {
          var shown := Type(c);
        }
      } else {
        if c == skipIfNext {
          skipIfNext := NUL;
          return;
        }
        skipIfNext := NUL;
        if c == CR || c == LF {
          skipIfNext := if c == CR then LF else CR;
          EndLine();
          complete, echo := true, [LF];
        } else {
          echo := Type(c);
        }
      }
    }

    method EndLine()
      requires Valid()
      modifies this`ptr, s
      ensures Valid() && ptr == 0 && Holds(old(Current().line))
    {
      s[ptr] := NUL;
      ptr := 0;
    }

    /** Changes the line, and returns what shows the change on a terminal. */
    method Type(c: char) returns (shown: string)
      requires Valid()
      modifies this`ptr, s
      ensures Valid() && Current().line == Typed(old(Current().line), c)
      ensures shown == TypedEcho(old(Current().line), c)
    {
      shown := "";
      if c == DELETE || c == BACKSPACE {
        if ptr > 0 {
          ptr := ptr - 1;
          shown := ERASE;
        }
      } else if c != BEL && ptr < CAPACITY {
        shown := AsString(c);
        s[ptr] := c;
        ptr := ptr + 1;
      }
    }
  }
}
