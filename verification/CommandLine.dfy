/** Splitting a switch string into arguments, and the command line it inverts. */
module CommandLine {
  import opened Text

  datatype Read = Read(word: string, rest: string)

  /** The rest of a word, its quotes taken off, and what follows it. Outside quotes whitespace ends the word. */
  function Word(text: string, quoted: bool): (r: Read)
    ensures |r.rest| <= |text|
    ensures text != "" && (quoted || !IsWhitespace(text[0])) ==> |r.rest| < |text|
    ensures r.rest == "" || IsWhitespace(r.rest[0])
    decreases |text|
  {
    if text == "" then Read("", "")
    else if text[0] == '"' then Word(text[1..], !quoted)
    else if text[0] == '\\' && |text| > 1 && text[1] == '"' then
      var tail := Word(text[2..], quoted);
      Read(['"'] + tail.word, tail.rest)
    else if IsWhitespace(text[0]) && !quoted then Read("", text)
    else
      var tail := Word(text[1..], quoted);
      Read([text[0]] + tail.word, tail.rest)
  }

  /** The reference: words, separated by whitespace. */
  function Words(text: string): seq<string>
    decreases |text|
  {
    if text == "" then []
    else if IsWhitespace(text[0]) then Words(text[1..])
    else
      var read := Word(text, false);
      [read.word] + Words(read.rest)
  }

  /** The words still to come when `current` has been read of one, or of none. */
  function Pending(rest: string, current: string, quoted: bool, hasToken: bool): seq<string> {
    if hasToken then [current + Word(rest, quoted).word] + Words(Word(rest, quoted).rest) else Words(rest)
  }

  predicate AtWordStart(current: string, quoted: bool, hasToken: bool) {
    hasToken || (current == "" && !quoted)
  }

  /** All the words, of which `out` has been read. */
  function Total(out: seq<string>, rest: string, current: string, quoted: bool, hasToken: bool): seq<string> {
    out + Pending(rest, current, quoted, hasToken)
  }

  lemma TotalAdds(out: seq<string>, rest: string, current: string, quoted: bool, hasToken: bool, c: char, after: string)
    requires AtWordStart(current, quoted, hasToken) && rest != "" && (quoted || !IsWhitespace(rest[0]))
    requires Word(rest, quoted) == Read([c] + Word(after, quoted).word, Word(after, quoted).rest)
    ensures Total(out, rest, current, quoted, hasToken) == Total(out, after, current + [c], quoted, true)
    ensures AtWordStart(current + [c], quoted, true)
  {
    hide Word, IsWhitespace;
    assert current + ([c] + Word(after, quoted).word) == current + [c] + Word(after, quoted).word;
    if !hasToken {
      assert "" + Word(rest, quoted).word == Word(rest, quoted).word;
    }
  }

  lemma TotalToggles(out: seq<string>, rest: string, current: string, quoted: bool, hasToken: bool)
    requires AtWordStart(current, quoted, hasToken) && rest != "" && rest[0] == '"'
    ensures Total(out, rest, current, quoted, hasToken) == Total(out, rest[1..], current, !quoted, true)
    ensures AtWordStart(current, !quoted, true)
  {
    if !hasToken {
      assert "" + Word(rest[1..], true).word == Word(rest[1..], true).word;
    }
  }

  lemma TotalEnds(out: seq<string>, rest: string, current: string, hasToken: bool)
    requires rest != "" && IsWhitespace(rest[0]) && AtWordStart(current, false, hasToken)
    ensures Total(out, rest, current, false, hasToken) ==
            Total(if hasToken then out + [current] else out, rest[1..], "", false, false)
    ensures AtWordStart("", false, false)
  {
    assert Word(rest, false) == Read("", rest);
    assert current + "" == current;
    hide Word, IsWhitespace;
    assert out + ([current] + Words(rest[1..])) == out + [current] + Words(rest[1..]);
  }

  lemma TotalStart(text: string)
    ensures Total([], text, "", false, false) == Words(text) && AtWordStart("", false, false)
  {
    assert [] + Words(text) == Words(text);
  }

  lemma TotalAtEnd(out: seq<string>, current: string, quoted: bool, hasToken: bool)
    ensures Total(out, "", current, quoted, hasToken) == if hasToken then out + [current] else out
  {
    assert current + "" == current;
    assert out + [] == out;
  }

  /** The splitter's loop over its flags: whether it is inside quotes, and whether it has begun a word. */
  method SplitCommandLine(text: string) returns (out: seq<string>)
    ensures out == Words(text)
  {
    out := [];
    var current, inQuotes, hasToken := "", false, false;
    var at := 0;
    assert text[0..] == text;
    hide *;
    TotalStart(text);
    while at < |text|
      invariant at <= |text| && AtWordStart(current, inQuotes, hasToken)
      invariant Words(text) == Total(out, text[at..], current, inQuotes, hasToken)
    {
      var c, rest := text[at], text[at..];
      DropDrop(text, at, 1);
      at := at + 1;
      if c == '"' {
        TotalToggles(out, rest, current, inQuotes, hasToken);
        inQuotes, hasToken := !inQuotes, true;
      } else if c == '\\' && at < |text| && text[at] == '"' {
        EscapedQuote(rest, inQuotes);
        DropDrop(text, at - 1, 2);
        TotalAdds(out, rest, current, inQuotes, hasToken, '"', rest[2..]);
        current, hasToken := current + ['"'], true;
        at := at + 1;
      } else if IsWhitespace(c) && !inQuotes {
        TotalEnds(out, rest, current, hasToken);
        AtStart(current, hasToken);
        if hasToken {
          out, current, hasToken := out + [current], "", false;
        }
      } else {
        PlainCharacter(rest, inQuotes);
        TotalAdds(out, rest, current, inQuotes, hasToken, c, rest[1..]);
        current, hasToken := current + [c], true;
      }
    }
    TotalAtEnd(out, current, inQuotes, hasToken);
    assert text[|text|..] == "";
    if hasToken {
      out := out + [current];
    }
  }

  lemma AtStart(current: string, hasToken: bool)
    requires AtWordStart(current, false, hasToken)
    ensures hasToken || current == ""
  {
  }

  lemma EscapedQuote(rest: string, quoted: bool)
    requires |rest| > 1 && rest[0] == '\\' && rest[1] == '"'
    ensures Word(rest, quoted) == Read(['"'] + Word(rest[2..], quoted).word, Word(rest[2..], quoted).rest)
    ensures !IsWhitespace(rest[0])
  {
  }

  lemma PlainCharacter(rest: string, quoted: bool)
    requires rest != "" && rest[0] != '"' && !(rest[0] == '\\' && |rest| > 1 && rest[1] == '"')
    requires quoted || !IsWhitespace(rest[0])
    ensures Word(rest, quoted) == Read([rest[0]] + Word(rest[1..], quoted).word, Word(rest[1..], quoted).rest)
  {
  }

  // ---- the command line that is written ----

  /** Quotes inside an argument carry a backslash. */
  function Escape(body: string): (r: string)
    ensures r == "" || r[0] != '"'
  {
    if body == "" then "" else (if body[0] == '"' then ['\\', '"'] else [body[0]]) + Escape(body[1..])
  }

  /** How many backslashes the argument ends in. */
  function Trailing(arg: string): (n: nat)
    ensures n <= |arg| && (n == |arg| || arg[|arg| - n - 1] != '\\')
    ensures forall i :: |arg| - n <= i < |arg| ==> arg[i] == '\\'
  {
    if arg != "" && arg[|arg| - 1] == '\\' then 1 + Trailing(arg[..|arg| - 1]) else 0
  }

  /** The argument in quotes, its trailing backslashes after the closing one, where they escape nothing. */
  function Quoted(arg: string): string {
    var n := |arg| - Trailing(arg);
    ['"'] + (Escape(arg[..n]) + (['"'] + arg[n..]))
  }

  function Printed(args: seq<string>): string {
    if args == [] then "" else Quoted(args[0]) + (if |args| == 1 then "" else [' '] + Printed(args[1..]))
  }

  lemma WordOfEscapedQuote(tail: string, quoted: bool)
    ensures Word(['\\', '"'] + tail, quoted) == Read(['"'] + Word(tail, quoted).word, Word(tail, quoted).rest)
  {
    assert (['\\', '"'] + tail)[2..] == tail;
    hide Word, IsWhitespace;
    EscapedQuote(['\\', '"'] + tail, quoted);
  }

  lemma WordOfPlain(c: char, tail: string)
    requires c != '"' && !(c == '\\' && tail != "" && tail[0] == '"')
    ensures Word([c] + tail, true) == Read([c] + Word(tail, true).word, Word(tail, true).rest)
  {
    Text.Tail(c, tail);
    hide Word, IsWhitespace;
    PlainCharacter([c] + tail, true);
  }

  lemma EscapeHead(body: string, rest: string)
    requires body != ""
    ensures Escape(body) + rest == (if body[0] == '"' then ['\\', '"'] else [body[0]]) + (Escape(body[1..]) + rest)
    ensures body[1..] != "" ==> Escape(body[1..]) + rest != "" && (Escape(body[1..]) + rest)[0] != '"'
  {
  }

  lemma Prepend(body: string, word: string)
    requires body != ""
    ensures [body[0]] + (body[1..] + word) == body + word
  {
  }

  lemma {:induction false} WordOfEscaped(body: string, rest: string)
    requires body == "" || body[|body| - 1] != '\\'
    ensures Word(Escape(body) + rest, true) == Read(body + Word(rest, true).word, Word(rest, true).rest)
  {
    if body == "" {
      NothingBefore(rest);
      NothingBefore(Word(rest, true).word);
    } else {
      var tail := Escape(body[1..]) + rest;
      EscapeHead(body, rest);
      Prepend(body, Word(rest, true).word);
      WordOfEscaped(body[1..], rest);
      hide Escape, Word;
      if body[0] == '"' {
        WordOfEscapedQuote(tail, true);
      } else {
        WordOfPlain(body[0], tail);
      }
    }
  }

  lemma {:induction false} WordOfBackslashes(run: string, rest: string)
    requires forall i :: 0 <= i < |run| ==> run[i] == '\\'
    requires rest == "" || rest[0] == ' '
    ensures Word(run + rest, false) == Read(run, rest)
  {
    if run == "" {
      assert run + rest == rest;
    } else {
      var text := run + rest;
      assert text[1..] == run[1..] + rest;
      assert |text| > 1 ==> text[1] == if |run| > 1 then run[1] else rest[0];
      WordOfBackslashes(run[1..], rest);
      PlainCharacter(text, false);
      assert [run[0]] + run[1..] == run;
    }
  }

  lemma WordOfQuoted(arg: string, rest: string)
    requires rest == "" || rest[0] == ' '
    ensures Word(Quoted(arg) + rest, false) == Read(arg, rest)
  {
    hide *;
    var n := |arg| - Trailing(arg);
    var body, run := arg[..n], arg[n..];
    QuotedParts(arg, rest);
    WordOfQuote(Escape(body) + (['"'] + (run + rest)), false);
    WordOfQuote(run + rest, true);
    assert forall i :: 0 <= i < |run| ==> run[i] == arg[n + i];
    WordOfEscaped(body, ['"'] + (run + rest));
    WordOfBackslashes(run, rest);
    assert body + run == arg;
  }

  lemma QuotedParts(arg: string, rest: string)
    ensures var n := |arg| - Trailing(arg);
            Quoted(arg) + rest == ['"'] + (Escape(arg[..n]) + (['"'] + (arg[n..] + rest)))
  {
    var n := |arg| - Trailing(arg);
    assert Quoted(arg) == ['"'] + (Escape(arg[..n]) + (['"'] + arg[n..]));
    hide *;
    Nest(['"'], Escape(arg[..n]), ['"'], arg[n..], rest);
  }

  lemma Nest(a: string, b: string, c: string, d: string, e: string)
    ensures a + (b + (c + d)) + e == a + (b + (c + (d + e)))
  {
  }

  lemma WordOfQuote(tail: string, quoted: bool)
    ensures Word(['"'] + tail, quoted) == Word(tail, !quoted)
  {
    Text.Tail('"', tail);
  }

  lemma WordsOfQuoted(arg: string, rest: string)
    requires rest == "" || rest[0] == ' '
    ensures Words(Quoted(arg) + rest) == [arg] + Words(rest)
  {
    assert (Quoted(arg) + rest)[0] == '"';
    hide Word, Quoted;
    WordOfQuoted(arg, rest);
  }

  lemma WordsAfterSpace(rest: string)
    ensures Words([' '] + rest) == Words(rest)
  {
    Text.Tail(' ', rest);
  }

  /** Every list of arguments is split back from the line that is written for it. */
  lemma {:induction false} SplitInvertsPrinted(args: seq<string>)
    ensures Words(Printed(args)) == args
  {
    if args != [] {
      hide Word, Quoted, Words;
      if |args| == 1 {
        WordsOfQuoted(args[0], "");
        WordsOfNothing();
        assert [args[0]] + [] == args;
      } else {
        WordsOfQuoted(args[0], [' '] + Printed(args[1..]));
        WordsAfterSpace(Printed(args[1..]));
        SplitInvertsPrinted(args[1..]);
        assert [args[0]] + args[1..] == args;
      }
    } else {
      WordsOfNothing();
    }
  }

  lemma WordsOfNothing()
    ensures Words("") == []
  {
  }
}
