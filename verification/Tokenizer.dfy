/** The in-place tokenizer of the console: separators in a terminated line are overwritten with terminators, and tokens are
    handed out as pointers into the line. */
module Tokenizer {

  const NUL := '\0'

  // ---------- words ----------

  predicate EndsInWord(s: string) {
    s != "" && s[|s| - 1] != ' '
  }

  /** The maximal runs of non-space characters, in order. */
  function Words(s: string): (words: seq<string>)
    ensures EndsInWord(s) ==> words != []
  {
    if s == "" then [] else Followed(Words(s[..|s| - 1]), EndsInWord(s[..|s| - 1]), s[|s| - 1])
  }

  /** The words when the character `c` follows, inside a word or not. */
  function Followed(words: seq<string>, inside: bool, c: char): seq<string>
    requires inside ==> words != []
  {
    if c == ' ' then words
    else if inside then words[..|words| - 1] + [words[|words| - 1] + [c]]
    else words + [[c]]
  }

  /** Up to the first `delimiter`. */
  function Run(s: string, delimiter: char): (r: string)
    ensures r <= s && delimiter !in r && (|r| == |s| || s[|r|] == delimiter)
  {
    if s == "" || s[0] == delimiter then "" else [s[0]] + Run(s[1..], delimiter)
  }

  /** Behind the first `delimiter`. */
  function Behind(s: string, delimiter: char): string {
    var n := |Run(s, delimiter)|;
    if n == |s| then "" else s[n + 1..]
  }

  /** The first word, and what is left behind the space that ends it. */
  function FirstWord(s: string): string {
    if s != "" && s[0] == ' ' then FirstWord(s[1..]) else Run(s, ' ')
  }

  function AfterWord(s: string): string {
    if s != "" && s[0] == ' ' then AfterWord(s[1..]) else Behind(s, ' ')
  }

  lemma {:induction false} WordsBehindSpace(s: string)
    ensures Words([' '] + s) == Words(s)
  {
    var t := [' '] + s;
    assert t[..|t| - 1] == if s == "" then "" else [' '] + s[..|s| - 1];
    if s != "" {
      WordsBehindSpace(s[..|s| - 1]);
    }
  }

  lemma {:induction false} OneRun(r: string)
    requires r != "" && ' ' !in r
    ensures Words(r) == [r]
  {
    hide Words;
    var init, c := r[..|r| - 1], r[|r| - 1];
    assert r == init + [c] && c in r;
    LastCharacter(init, c);
    NoWords();
    if init != "" {
      OneRun(init);
      assert init[|init| - 1] in r;
    }
  }

  /** A run, a space and any text. */
  lemma {:induction false} RunThenText(r: string, s: string)
    requires r != "" && ' ' !in r
    ensures Words(r + [' '] + s) == [r] + Words(s)
  {
    if s == "" {
      var t := r + [' '];
      assert r + [' '] + s == t && t[..|t| - 1] == r && t[|t| - 1] == ' ';
      OneRun(r);
    } else {
      hide Words;
      var init, c := s[..|s| - 1], s[|s| - 1];
      RunThenText(r, init);
      LastCharacter(r + [' '] + init, c);
      LastCharacter(init, c);
      assert s == init + [c] && r + [' '] + s == r + [' '] + init + [c];
      assert EndsInWord(r + [' '] + init) == EndsInWord(init);
    }
  }

  lemma LastCharacter(s: string, c: char)
    ensures Words(s + [c]) == Followed(Words(s), EndsInWord(s), c)
  {
    assert (s + [c])[..|s|] == s;
  }

  /** Taking tokens one by one yields the words. */
  lemma {:induction false} TokensAreWords(s: string)
    ensures Words(s) == if FirstWord(s) == "" then [] else [FirstWord(s)] + Words(AfterWord(s))
    ensures FirstWord(s) == "" ==> AfterWord(s) == ""
    decreases |s|
  {
    hide Words, Run;
    if s == "" {
      NoWords();
    } else if s[0] == ' ' {
      assert s == [' '] + s[1..];
      WordsBehindSpace(s[1..]);
      TokensAreWords(s[1..]);
    } else {
      var r := Run(s, ' ');
      if |r| == |s| {
        assert r == s;
        OneRun(r);
        NoWords();
      } else {
        assert s == r + [' '] + s[|r| + 1..];
        RunThenText(r, s[|r| + 1..]);
      }
    }
  }

  /** What is left after `k` tokens. */
  function Left(s: string, k: nat): string {
    if k == 0 then s else AfterWord(Left(s, k - 1))
  }

  /** The `k`th word, and empty strings behind the last. */
  function Token(s: string, k: nat): string {
    if k < |Words(s)| then Words(s)[k] else ""
  }

  /** The tokens taken one by one are the words in order and then empty strings. */
  lemma {:induction false} TokenByToken(s: string, k: nat)
    ensures FirstWord(Left(s, k)) == Token(s, k)
    ensures Words(Left(s, k)) == if k <= |Words(s)| then Words(s)[k..] else []
  {
    hide Words, FirstWord, AfterWord;
    NoWords();
    var words := Words(s);
    if k > 0 {
      var last := Left(s, k - 1);
      TokenByToken(s, k - 1);
      TokensAreWords(last);
      if k <= |words| {
        assert words[k - 1..] == [words[k - 1]] + words[k..];
      }
    } else {
      assert words[0..] == words;
    }
    TokensAreWords(Left(s, k));
  }

  lemma NoWords()
    ensures Words("") == []
  {
  }

  // ---------- the line ----------

  /** `text` is the terminated string at index `d`. */
  predicate IsString(line: seq<char>, d: nat, text: string) {
    d + |text| < |line| && line[d..d + |text|] == text && line[d + |text|] == NUL && NUL !in text
  }

  /** A line and the pointer into it that the token functions move; `end` is where its terminator is. */
  class Cursor {
    const line: array<char>
    ghost const end: nat
    var pos: nat

    constructor (chars: array<char>, ghost terminator: nat)
      requires terminator < chars.Length && chars[terminator] == NUL && NUL !in chars[..terminator]
      ensures line == chars && end == terminator && pos == 0 && Valid()
    {
      line, end, pos := chars, terminator, 0;
    }

    ghost predicate Valid()
      reads this, line
    {
      pos <= end < line.Length && line[end] == NUL && NUL !in line[pos..end]
    }

    /** The string at the pointer. */
    ghost function Rest(): string
      requires Valid()
      reads this, line
    {
      line[pos..end]
    }

    /** Index of the first `c` at or behind `from`, or of the terminator: `strchr` and `strlen` in one. */
    method Find(c: char) returns (i: nat)
      requires Valid()
      ensures i == pos + |Run(Rest(), c)| <= end
    {
      i := pos;
      while line[i] != NUL && line[i] != c
        invariant pos <= i <= end && |Run(Rest(), c)| == i - pos + |Run(line[i..end], c)|
        decreases end - i
      {
        assert line[i..end][1..] == line[i + 1..end];
        i := i + 1;
      }
    }

    method GetTokenGeneric(delimiter: char) returns (d: nat)
      requires Valid() && delimiter != NUL
      modifies this`pos, line
      ensures Valid() && d == old(pos) && old(pos) <= pos
      ensures IsString(line[..], d, Run(old(Rest()), delimiter)) && Rest() == Behind(old(Rest()), delimiter)
      ensures d + |Run(old(Rest()), delimiter)| < pos || pos == end
      ensures old(Rest()) != "" ==> old(pos) < pos
      ensures forall k :: 0 <= k < line.Length && !(old(pos) <= k < end) ==> line[k] == old(line[k])
    {
      d := pos;
      var i := Find(delimiter);
      ghost var rest := Rest();
      if line[i] == NUL {
        pos := i;
        return;
      }
      line[i] := NUL;
      pos := i + 1;
    }

    /** The next token: the first word of what is left, or an empty string for ever after the last. */
    method GetToken() returns (t: nat)
      requires Valid()
      modifies this`pos, line
      ensures Valid() && old(pos) <= t && old(pos) <= pos
      ensures IsString(line[..], t, FirstWord(old(Rest()))) && Rest() == AfterWord(old(Rest()))
      ensures t + |FirstWord(old(Rest()))| < pos || pos == end
      ensures forall k :: 0 <= k < line.Length && !(old(pos) <= k < end) ==> line[k] == old(line[k])
    {
      while true
        invariant Valid() && old(pos) <= pos
        invariant FirstWord(Rest()) == FirstWord(old(Rest())) && AfterWord(Rest()) == AfterWord(old(Rest()))
        invariant forall k :: 0 <= k < line.Length && !(old(pos) <= k < end) ==> line[k] == old(line[k])
        decreases end - pos
      {
        ghost var rest := Rest();
        t := GetTokenGeneric(' ');
        if line[t] != NUL {
          assert rest != "" && rest[0] != ' ';
          return;
        }
        if line[pos] == NUL {
          return;
        }
      }
    }

    /** Repeated calls, as a command makes them: all words in order, then empty strings, each still in place after the
        calls that follow it. */
    method GetTokens(n: nat) returns (tokens: seq<nat>)
      requires Valid()
      modifies this`pos, line
      ensures Valid() && |tokens| == n
      ensures forall k :: 0 <= k < n ==> IsString(line[..], tokens[k], Token(old(Rest()), k))
    {
      hide Words, FirstWord, AfterWord, Token;
      ghost var s := Rest();
      tokens := [];
      while |tokens| < n
        invariant Valid() && |tokens| <= n && Rest() == Left(s, |tokens|)
        invariant forall k :: 0 <= k < |tokens| ==> IsString(line[..], tokens[k], Token(s, k))
        invariant forall k :: 0 <= k < |tokens| ==> tokens[k] + |Token(s, k)| < pos || pos == end
      {
        TokenByToken(s, |tokens|);
        ghost var before, from := line[..], pos;
        var t := GetToken();
        forall k | 0 <= k < |tokens| ensures IsString(line[..], tokens[k], Token(s, k)) {
          Undisturbed(before, line[..], tokens[k], Token(s, k), from, end);
        }
        tokens := tokens + [t];
      }
    }
  }

  /** A string that lies before all changes, or meets none, is still there. */
  lemma Undisturbed(before: seq<char>, after: seq<char>, d: nat, text: string, from: nat, end: nat)
    requires IsString(before, d, text) && |after| == |before| && (d + |text| < from || from == end)
    requires forall k :: 0 <= k < |after| && !(from <= k < end) ==> after[k] == before[k]
    ensures IsString(after, d, text)
  {
    assert after[d..d + |text|] == before[d..d + |text|];
  }
}
