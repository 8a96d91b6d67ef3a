/** Writing a WinGet manifest line by line, and rewriting the installer entries of one in place. */
module WingetManifest {
  import opened Wrappers
  import opened Text

  // ---- scalars ----

  /** What opens a YAML construct at the start of a scalar. */
  predicate AmbiguousStart(value: string) {
    if value == "" then true
    else if value[0] in {'-', '?', ':'} then |value| == 1 || value[1] == ' '
    else value[0] in {',', '[', ']', '{', '}', '#', '&', '*', '!', '|', '>', '\'', '"', '%', '@', '`'}
  }

  /** Whether the scalar needs no quotes; `isNumber` is the parser of floating-point numbers. */
  predicate Plain(value: string, isNumber: string -> bool) {
    && value != "" && value[0] != ' ' && value[|value| - 1] != ' '
    && !AmbiguousStart(value)
    && Find(value, ": ").None? && Find(value, " #").None? && Find(value, "\n").None?
    && value[|value| - 1] != ':'
    && !isNumber(value)
  }

  function Scalar(value: string, isNumber: string -> bool): string {
    if Plain(value, isNumber) then value else ['\''] + (Replace(value, "'", "''") + ['\''])
  }

  function Unquote(value: string): string {
    if |value| >= 2 && value[0] == '\'' && value[|value| - 1] == '\'' then Replace(value[1..|value| - 1], "''", "'") else value
  }

  /** A character that can open a YAML construct. */
  predicate Indicates(c: char) {
    c in ",[]{}#&*!|>'\"%@`"
  }

  /**
   What is written without quotes: no number and on one line, nothing at its start that opens a construct, no colon that ends a
   key, no comment, and no blank at its ends.
   */
  lemma PlainMeans(value: string, isNumber: string -> bool)
    ensures Plain(value, isNumber) <==>
            && value != "" && !isNumber(value) && '\n' !in value && value[0] != ' ' && value[|value| - 1] != ' '
            && !Indicates(value[0]) && !(value[0] in "-?:" && (|value| == 1 || value[1] == ' '))
            && (forall i :: 0 <= i < |value| && value[i] == ':' ==> i + 1 < |value| && value[i + 1] != ' ')
            && (forall i :: 0 < i < |value| && value[i] == '#' ==> value[i - 1] != ' ')
  {
    if value != "" {
      FindsPair(value, ':', ' ');
      FindsPair(value, ' ', '#');
      FindsLineBreak(value);
      IndicatesAre(value[0]);
      assert ": " == [':', ' '] && " #" == [' ', '#'];
      hide Find, Indicates;
      assert (forall i :: 0 < i < |value| && value[i] == '#' ==> value[i - 1] != ' ') <==>
             forall i :: 0 <= i < |value| - 1 ==> !(value[i] == ' ' && value[i + 1] == '#') by {
        assert forall i :: 0 < i < |value| ==> value[(i - 1) + 1] == value[i];
      }
    }
  }

  lemma IndicatesAre(c: char)
    ensures Indicates(c) <==> c in {',', '[', ']', '{', '}', '#', '&', '*', '!', '|', '>', '\'', '"', '%', '@', '`'}
    ensures c in "-?:" <==> c in {'-', '?', ':'}
  {
  }

  lemma FindsPair(value: string, a: char, b: char)
    ensures Find(value, [a, b]).None? <==> forall i :: 0 <= i < |value| - 1 ==> !(value[i] == a && value[i + 1] == b)
  {
    var found := Find(value, [a, b]);
    if found.Some? {
      assert value[found.value..found.value + 2] == [value[found.value], value[found.value + 1]];
    } else {
      forall i | 0 <= i < |value| - 1
        ensures !(value[i] == a && value[i + 1] == b)
      {
        assert !At(value, i, [a, b]);
        assert value[i..i + 2] == [value[i], value[i + 1]];
      }
    }
  }

  lemma FindsLineBreak(value: string)
    ensures Find(value, "\n").None? <==> '\n' !in value
  {
    forall i: nat
      ensures At(value, i, "\n") <==> i < |value| && value[i] == '\n'
    {
      if i + 1 <= |value| {
        assert value[i..i + 1] == [value[i]];
      }
    }
  }

  /** A scalar that is not between quotes is read as it stands. */
  lemma BareIsRead(value: string)
    requires |value| < 2 || value[0] != '\'' || value[|value| - 1] != '\''
    ensures Unquote(value) == value
  {
  }

  lemma ReplaceAtPattern(pattern: string, rest: string, with: string)
    requires pattern != ""
    ensures Replace(pattern + rest, pattern, with) == with + Replace(rest, pattern, with)
  {
    assert (pattern + rest)[|pattern|..] == rest;
  }

  lemma ReplaceElsewhere(c: char, rest: string, pattern: string, with: string)
    requires pattern != "" && pattern[0] != c
    ensures Replace([c] + rest, pattern, with) == [c] + Replace(rest, pattern, with)
  {
    Tail(c, rest);
  }

  lemma {:induction false} HalvingInvertsDoubling(value: string)
    ensures Replace(Replace(value, "'", "''"), "''", "'") == value
  {
    if value != "" {
      var c, rest := value[0], value[1..];
      HalvingInvertsDoubling(rest);
      assert value == [c] + rest;
      hide Replace;
      if c == '\'' {
        ReplaceAtPattern("'", rest, "''");
        ReplaceAtPattern("''", Replace(rest, "'", "''"), "'");
      } else {
        ReplaceElsewhere(c, rest, "'", "''");
        ReplaceElsewhere(c, Replace(rest, "'", "''"), "''", "'");
      }
    } else {
      assert Replace("", "'", "''") == "";
    }
  }

  lemma UnquoteQuoted(body: string)
    ensures Unquote(['\''] + (body + ['\''])) == Replace(body, "''", "'")
  {
    hide Replace;
    var value := ['\''] + (body + ['\'']);
    assert value[0] == '\'' && value[|value| - 1] == '\'';
    assert value[1..|value| - 1] == body;
  }

  /** Every string is read back from the scalar it is written as. */
  lemma UnquoteInvertsScalar(value: string, isNumber: string -> bool)
    ensures Unquote(Scalar(value, isNumber)) == value
  {
    HalvingInvertsDoubling(value);
    UnquoteQuoted(Replace(value, "'", "''"));
    hide Find, Replace;
  }

  // ---- lines ----

  function StripCr(line: string): (r: string)
    ensures r <= line
  {
    if line != "" && line[|line| - 1] == '\r' then line[..|line| - 1] else line
  }

  /** `str::lines`: a line ends in a line feed, with or without a carriage return; the last may end in nothing. */
  function Lines(text: string): seq<string>
    decreases |text|
  {
    if text == "" then []
    else
      match Find(text, "\n")
      case None => [text]
      case Some(end) =>
        assert text[end..end + 1] == "\n";
        [StripCr(text[..end])] + Lines(text[end + 1..])
  }

  /** The lines with a line feed between and after them. */
  function Written(lines: seq<string>): string {
    Join(lines, '\n') + "\n"
  }

  function Stripped(lines: seq<string>): (r: seq<string>)
    ensures |r| == |lines| && forall i :: 0 <= i < |lines| ==> r[i] == StripCr(lines[i])
  {
    seq(|lines|, i requires 0 <= i < |lines| => StripCr(lines[i]))
  }

  predicate OneLine(line: string) {
    Free(line, '\n')
  }

  lemma LinesNext(line: string, rest: string)
    requires OneLine(line)
    ensures Lines(line + ['\n'] + rest) == [StripCr(line)] + Lines(rest)
  {
    FindCharacter(line, '\n', rest);
    SplitAt(line, '\n', rest);
    hide Find;
  }

  lemma {:induction false} LinesOfWritten(lines: seq<string>)
    requires lines != [] && forall i :: 0 <= i < |lines| ==> OneLine(lines[i])
    ensures Lines(Written(lines)) == Stripped(lines)
  {
    hide Lines, StripCr, OneLine;
    if |lines| == 1 {
      assert Written(lines) == lines[0] + ['\n'] + "";
      LinesNext(lines[0], "");
      assert Lines("") == [] by {
        NoLines();
      }
    } else {
      var rest := lines[1..];
      LinesOfWritten(rest);
      assert Written(lines) == lines[0] + ['\n'] + Written(rest);
      LinesNext(lines[0], Written(rest));
      assert Stripped(lines) == [StripCr(lines[0])] + Stripped(rest);
    }
  }

  lemma NoLines()
    ensures Lines("") == []
  {
  }

  lemma {:induction false} LinesAreSingle(text: string)
    ensures forall i :: 0 <= i < |Lines(text)| ==> OneLine(Lines(text)[i])
    decreases |text|
  {
    if text != "" {
      match Find(text, "\n")
      case None =>
        forall j | 0 <= j < |text|
          ensures text[j] != '\n'
        {
          assert !At(text, j, "\n");
          assert text[j..j + 1] == [text[j]];
        }
      case Some(end) =>
        forall j | 0 <= j < end
          ensures text[j] != '\n'
        {
          assert !At(text, j, "\n");
          assert text[j..j + 1] == [text[j]];
        }
        assert text[end..end + 1] == "\n";
        hide Find, FindFrom, At;
        LinesAreSingle(text[end + 1..]);
        assert OneLine(StripCr(text[..end]));
    }
  }

  // ---- keys ----

  predicate IsIndent(prefix: string) {
    forall i :: 0 <= i < |prefix| ==> prefix[i] == ' ' || prefix[i] == '-'
  }

  /** What stands before `key:` on its line; a leading `- ` is part of the indentation. */
  function KeyIndent(line: string, key: string): Option<string> {
    match Find(line, key)
    case None => None
    case Some(end) =>
      if IsIndent(line[..end]) && end + |key| < |line| && line[end + |key|] == ':' then Some(line[..end]) else None
  }

  /** An entry's line is blanks and sequence markers, then the key and its colon. */
  lemma KeyLineMeans(line: string, key: string, n: nat)
    requires key != "" && key[0] != ' ' && key[0] != '-'
    ensures n <= |line| && KeyIndent(line, key) == Some(line[..n]) <==>
            && n + |key| < |line| && (forall i :: 0 <= i < n ==> line[i] == ' ' || line[i] == '-')
            && line[n..n + |key|] == key && line[n + |key|] == ':'
  {
    if n + |key| < |line| && (forall i :: 0 <= i < n ==> line[i] == ' ' || line[i] == '-') && line[n..n + |key|] == key {
      forall j: nat | j < n
        ensures !At(line, j, key)
      {
        assert j + |key| <= |line| ==> line[j..j + |key|][0] == line[j];
      }
      FindAt(line, n, key);
      assert forall i :: 0 <= i < n ==> line[..n][i] == line[i];
    }
    if n <= |line| && KeyIndent(line, key) == Some(line[..n]) {
      assert |line[..n]| == n;
      assert forall i :: 0 <= i < n ==> line[..n][i] == line[i];
    }
  }

  /** The value of the first top-level `Key: value` line. */
  function FieldValue(lines: seq<string>, key: string): Option<string> {
    if lines == [] then None
    else if key + ": " <= lines[0] then Some(Unquote(Trim(lines[0][|key| + 2..])))
    else FieldValue(lines[1..], key)
  }

  const URL := "InstallerUrl"
  const SHA := "InstallerSha256"

  /** The two values an installer entry is given. */
  datatype Release = Release(url: string, sha256: string)

  function UrlLine(indent: string, release: Release, isNumber: string -> bool): string {
    indent + (URL + (": " + Scalar(release.url, isNumber)))
  }

  function ShaLine(indent: string, release: Release): string {
    indent + (SHA + (": " + release.sha256))
  }

  function Rewrite(line: string, release: Release, isNumber: string -> bool): string {
    var url, sha := KeyIndent(line, URL), KeyIndent(line, SHA);
    if url.Some? then UrlLine(url.value, release, isNumber)
    else if sha.Some? then ShaLine(sha.value, release)
    else line
  }

  predicate IsKeyLine(line: string) {
    KeyIndent(line, URL).Some? || KeyIndent(line, SHA).Some?
  }

  function RewriteAll(lines: seq<string>, release: Release, isNumber: string -> bool): (r: seq<string>)
    ensures |r| == |lines| && forall i :: 0 <= i < |lines| ==> r[i] == Rewrite(lines[i], release, isNumber)
  {
    seq(|lines|, i requires 0 <= i < |lines| => Rewrite(lines[i], release, isNumber))
  }

  function Entries(lines: seq<string>): nat {
    if lines == [] then 0 else (if KeyIndent(lines[0], URL).Some? then 1 else 0) + Entries(lines[1..])
  }

  datatype Refusal = Invalid | Mismatch

  datatype Finalized = Finalized(text: string, entries: nat)

  /** The rewrite of a manifest that must be for `version` and declare an entry. */
  function Outcome(text: string, version: string, release: Release, isNumber: string -> bool): Result<Finalized, Refusal> {
    var lines := Lines(text);
    var declared := FieldValue(lines, "PackageVersion");
    if declared.None? then Err(Invalid)
    else if declared.value != version then Err(Mismatch)
    else if Entries(lines) == 0 then Err(Invalid)
    else Ok(Finalized(Written(RewriteAll(lines, release, isNumber)), Entries(lines)))
  }

  lemma {:induction false} EntriesAppend(lines: seq<string>, line: string)
    ensures Entries(lines + [line]) == Entries(lines) + if KeyIndent(line, URL).Some? then 1 else 0
  {
    hide KeyIndent;
    if lines == [] {
      assert lines + [line] == [line] && [line][1..] == [];
    } else {
      assert (lines + [line])[1..] == lines[1..] + [line];
      EntriesAppend(lines[1..], line);
    }
  }

  /** As many entries as lines with an installer's address. */
  lemma {:induction false} EntriesAreCounted(lines: seq<string>)
    ensures Entries(lines) == |set i | 0 <= i < |lines| && KeyIndent(lines[i], URL).Some?|
  {
    hide KeyIndent;
    if lines != [] {
      var n := |lines| - 1;
      var front := lines[..n];
      assert lines == front + [lines[n]];
      EntriesAppend(front, lines[n]);
      EntriesAreCounted(front);
      var before, all := set i | 0 <= i < n && KeyIndent(front[i], URL).Some?, set i | 0 <= i < |lines| && KeyIndent(lines[i], URL).Some?;
      assert forall i :: 0 <= i < n ==> front[i] == lines[i];
      assert all == before + if KeyIndent(lines[n], URL).Some? then {n} else {};
    }
  }

  /** The loop over the lines: rewritten ones, and how many entries there are. */
  method Finalize(text: string, version: string, release: Release, isNumber: string -> bool) returns (r: Result<Finalized, Refusal>)
    ensures r == Outcome(text, version, release, isNumber)
  {
    hide Lines, FieldValue, KeyIndent, Scalar, Written;
    var source := Lines(text);
    var declared := FieldValue(source, "PackageVersion");
    if declared.None? {
      return Err(Invalid);
    }
    if declared.value != version {
      return Err(Mismatch);
    }
    var entries, lines := 0, [];
    for i := 0 to |source|
      invariant entries == Entries(source[..i])
      invariant |lines| == i && forall k :: 0 <= k < i ==> lines[k] == Rewrite(source[k], release, isNumber)
    {
      var line := source[i];
      assert source[..i + 1] == source[..i] + [line];
      EntriesAppend(source[..i], line);
      var url := KeyIndent(line, URL);
      if url.Some? {
        entries := entries + 1;
        lines := lines + [UrlLine(url.value, release, isNumber)];
      } else {
        var sha := KeyIndent(line, SHA);
        if sha.Some? {
          lines := lines + [ShaLine(sha.value, release)];
        } else {
          lines := lines + [line];
        }
      }
    }
    assert source[..|source|] == source;
    assert lines == RewriteAll(source, release, isNumber);
    if entries == 0 {
      return Err(Invalid);
    }
    return Ok(Finalized(Written(lines), entries));
  }

  // ---- one line rewritten ----

  predicate IsKey(key: string) {
    key != "" && key[0] != ' ' && key[0] != '-'
  }

  lemma IndentIs(line: string, key: string)
    requires KeyIndent(line, key).Some?
    ensures var indent := KeyIndent(line, key).value;
            IsIndent(indent) && |indent| + |key| < |line| && line == indent + (key + line[|indent| + |key|..]) && Find(line, key) == Some(|indent|)
  {
    var end := Find(line, key).value;
    assert line[end..end + |key|] == key;
    assert line == line[..end] + (line[end..end + |key|] + line[end + |key|..]);
  }

  lemma KeyIsFound(indent: string, key: string, rest: string)
    requires IsIndent(indent) && IsKey(key)
    ensures Find(indent + (key + rest), key) == Some(|indent|)
  {
    var line := indent + (key + rest);
    assert line[|indent|..|indent| + |key|] == key;
    forall j: nat | j < |indent|
      ensures !At(line, j, key)
    {
      assert line[j] == indent[j];
      if j + |key| <= |line| {
        assert line[j..j + |key|][0] == indent[j];
      }
    }
    FindAt(line, |indent|, key);
  }

  lemma KeyIndentOf(indent: string, key: string, rest: string)
    requires IsIndent(indent) && IsKey(key) && rest != "" && rest[0] == ':'
    ensures KeyIndent(indent + (key + rest), key) == Some(indent)
  {
    KeyIsFound(indent, key, rest);
    var line := indent + (key + rest);
    assert line[..|indent|] == indent && line[|indent| + |key|] == rest[0];
    hide Find;
  }

  /** A line of one key is no line of another that does not start as it does. */
  lemma OtherKey(indent: string, key: string, rest: string, other: string)
    requires IsIndent(indent) && IsKey(key) && IsKey(other)
    requires exists n :: 0 <= n < |key| && n < |other| && key[n] != other[n]
    ensures KeyIndent(indent + (key + rest), other) == None
  {
    var line := indent + (key + rest);
    var n :| 0 <= n < |key| && n < |other| && key[n] != other[n];
    assert line[|indent| + n] == key[n] && line[|indent|] == key[0];
    forall at: nat | at <= |indent|
      ensures !At(line, at, other)
    {
      if at + |other| <= |line| {
        assert line[at..at + |other|][0] == line[at] && line[at..at + |other|][n] == line[at + n];
      }
    }
    var found := Find(line, other);
    if found.Some? {
      assert line[..found.value][|indent|] == key[0];
    }
    hide Find;
  }

  lemma KeysDiffer()
    ensures IsKey(URL) && IsKey(SHA) && URL[9] == 'U' && SHA[9] == 'S' && |URL| == 12 && |SHA| == 15
  {
  }

  lemma RewriteUrl(indent: string, rest: string, release: Release, isNumber: string -> bool)
    requires IsIndent(indent) && rest != "" && rest[0] == ':'
    ensures KeyIndent(indent + (URL + rest), URL) == Some(indent)
    ensures Rewrite(indent + (URL + rest), release, isNumber) == UrlLine(indent, release, isNumber)
  {
    KeysDiffer();
    KeyIndentOf(indent, URL, rest);
    hide KeyIndent, UrlLine;
  }

  lemma RewriteSha(indent: string, rest: string, release: Release, isNumber: string -> bool)
    requires IsIndent(indent) && rest != "" && rest[0] == ':'
    ensures KeyIndent(indent + (SHA + rest), URL) == None && KeyIndent(indent + (SHA + rest), SHA) == Some(indent)
    ensures Rewrite(indent + (SHA + rest), release, isNumber) == ShaLine(indent, release)
  {
    KeysDiffer();
    KeyIndentOf(indent, SHA, rest);
    OtherKey(indent, SHA, rest, URL);
    hide KeyIndent, ShaLine;
  }

  lemma StripCrTail(a: string, b: string)
    requires b != ""
    ensures StripCr(a + b) == a + StripCr(b)
  {
    assert (a + b)[|a + b| - 1] == b[|b| - 1];
    assert (a + b)[..|a + b| - 1] == a + b[..|b| - 1];
  }

  /** What is left of `: value` when its carriage return is taken off still starts with the colon. */
  lemma StripCrValue(value: string)
    ensures StripCr(": " + value) != "" && StripCr(": " + value)[0] == ':'
  {
  }

  /** A rewritten line, its carriage return taken off or not, has the indentation it had and is rewritten to itself. */
  lemma RewriteIsStable(line: string, release: Release, isNumber: string -> bool)
    requires IsKeyLine(line)
    ensures var once := Rewrite(line, release, isNumber);
            var again := StripCr(once);
            && Rewrite(again, release, isNumber) == once
            && KeyIndent(again, URL) == KeyIndent(line, URL)
            && (KeyIndent(line, URL).None? ==> KeyIndent(again, SHA) == KeyIndent(line, SHA))
  {
    var url, sha := KeyIndent(line, URL), KeyIndent(line, SHA);
    if url.Some? {
      var tail := ": " + Scalar(release.url, isNumber);
      IndentIs(line, URL);
      StripCrTail(url.value, URL + tail);
      StripCrTail(URL, tail);
      StripCrValue(Scalar(release.url, isNumber));
      RewriteUrl(url.value, StripCr(tail), release, isNumber);
    } else {
      var tail := ": " + release.sha256;
      IndentIs(line, SHA);
      StripCrTail(sha.value, SHA + tail);
      StripCrTail(SHA, tail);
      StripCrValue(release.sha256);
      RewriteSha(sha.value, StripCr(tail), release, isNumber);
    }
    hide KeyIndent, StripCr, Scalar;
  }

  /** Taking the carriage return off a line makes no key line of it. */
  lemma StripCrMakesNoKey(line: string, key: string)
    ensures KeyIndent(StripCr(line), key).Some? ==> KeyIndent(line, key).Some?
  {
    var short := StripCr(line);
    if KeyIndent(short, key).Some? {
      var end := Find(short, key).value;
      forall j: nat | j <= end
        ensures At(short, j, key) <==> At(line, j, key)
      {
        if j + |key| <= |short| {
          assert short[j..j + |key|] == line[j..j + |key|];
        }
      }
      FindAt(line, end, key);
      assert short[..end] == line[..end];
    }
  }

  // ---- the document rewritten ----

  /** No line but those rewritten ends in a carriage return of its own. */
  predicate Settled(lines: seq<string>) {
    forall i :: 0 <= i < |lines| && !IsKeyLine(lines[i]) ==> StripCr(lines[i]) == lines[i]
  }

  predicate ReleaseOk(release: Release) {
    OneLine(release.url) && OneLine(release.sha256)
  }

  lemma {:induction false} ReplaceIsFree(value: string, pattern: string, with: string, c: char)
    requires pattern != "" && Free(value, c) && Free(with, c)
    ensures Free(Replace(value, pattern, with), c)
  {
    if value != "" {
      ReplaceIsFree(value[if pattern <= value then |pattern| else 1..], pattern, with, c);
    }
  }

  lemma RewriteIsOneLine(line: string, release: Release, isNumber: string -> bool)
    requires OneLine(line) && ReleaseOk(release)
    ensures OneLine(Rewrite(line, release, isNumber))
  {
    ReplaceIsFree(release.url, "'", "''", '\n');
    hide Replace, Find, Plain;
  }

  /** The lines of the rewritten document, each from the line in its place. */
  lemma RewrittenLines(text: string, version: string, release: Release, isNumber: string -> bool)
    requires ReleaseOk(release) && Outcome(text, version, release, isNumber).Ok?
    ensures Lines(Outcome(text, version, release, isNumber).value.text) == Stripped(RewriteAll(Lines(text), release, isNumber))
    ensures Lines(text) != []
  {
    LinesAreSingle(text);
    var lines := Lines(text);
    hide Lines, Written, Rewrite, OneLine;
    forall i | 0 <= i < |lines|
      ensures OneLine(RewriteAll(lines, release, isNumber)[i])
    {
      RewriteIsOneLine(lines[i], release, isNumber);
    }
    assert lines != [];
    LinesOfWritten(RewriteAll(lines, release, isNumber));
  }

  /**
   The rewrite touches the entries' lines alone: line by line, an entry keeps its indentation and gets the new value,
   and any other line stays, but for a carriage return a reader takes off. The count is that of the entries.
   */
  lemma OnlyEntriesChange(text: string, version: string, release: Release, isNumber: string -> bool, i: nat)
    requires ReleaseOk(release) && Outcome(text, version, release, isNumber).Ok? && i < |Lines(text)|
    ensures var before, after := Lines(text), Lines(Outcome(text, version, release, isNumber).value.text);
            && |after| == |before|
            && KeyIndent(after[i], URL) == KeyIndent(before[i], URL)
            && (KeyIndent(before[i], URL).Some? ==> after[i] == StripCr(UrlLine(KeyIndent(before[i], URL).value, release, isNumber)))
            && (KeyIndent(before[i], URL).None? ==> KeyIndent(after[i], SHA) == KeyIndent(before[i], SHA))
            && (KeyIndent(before[i], URL).None? && KeyIndent(before[i], SHA).Some? ==>
                  after[i] == StripCr(ShaLine(KeyIndent(before[i], SHA).value, release)))
            && (!IsKeyLine(before[i]) ==> after[i] == StripCr(before[i]))
  {
    hide Lines, Written, StripCr, KeyIndent, UrlLine, ShaLine;
    RewrittenLines(text, version, release, isNumber);
    var line := Lines(text)[i];
    if IsKeyLine(line) {
      RewriteIsStable(line, release, isNumber);
    } else {
      StripCrMakesNoKey(line, URL);
      StripCrMakesNoKey(line, SHA);
    }
  }

  lemma {:induction false} FieldValueSame(a: seq<string>, b: seq<string>, key: string)
    requires |a| == |b| && forall i :: 0 <= i < |a| ==> a[i] == b[i] || (!(key + ": " <= a[i]) && !(key + ": " <= b[i]))
    ensures FieldValue(a, key) == FieldValue(b, key)
  {
    hide Trim, Unquote;
    if a != [] {
      FieldValueSame(a[1..], b[1..], key);
    }
  }

  lemma {:induction false} EntriesSame(a: seq<string>, b: seq<string>)
    requires |a| == |b| && forall i :: 0 <= i < |a| ==> KeyIndent(a[i], URL) == KeyIndent(b[i], URL)
    ensures Entries(a) == Entries(b)
  {
    hide KeyIndent;
    if a != [] {
      EntriesSame(a[1..], b[1..]);
    }
  }

  lemma NoVersionOnKeyLine(line: string)
    requires IsKeyLine(line)
    ensures !("PackageVersion: " <= line)
  {
    KeysDiffer();
    if KeyIndent(line, URL).Some? {
      IndentIs(line, URL);
    } else {
      IndentIs(line, SHA);
    }
    hide KeyIndent;
    assert line[0] == ' ' || line[0] == '-' || line[0] == 'I';
  }

  lemma WrittenIsInjective(a: seq<string>, b: seq<string>)
    requires a != [] && b != [] && Written(a) == Written(b)
    requires forall i :: 0 <= i < |a| ==> OneLine(a[i])
    requires forall i :: 0 <= i < |b| ==> OneLine(b[i])
    ensures a == b
  {
    var x, y := Join(a, '\n'), Join(b, '\n');
    assert (x + "\n")[..|x + "\n"| - 1] == x && (y + "\n")[..|y + "\n"| - 1] == y;
    hide Join;
    SplitInvertsJoin(a, '\n');
    SplitInvertsJoin(b, '\n');
  }

  /** Another pass over the rewritten lines, line by line. */
  lemma SecondPass(text: string, version: string, release: Release, isNumber: string -> bool, i: nat)
    requires ReleaseOk(release) && Outcome(text, version, release, isNumber).Ok? && i < |Lines(text)|
    ensures var before, after := Lines(text), Lines(Outcome(text, version, release, isNumber).value.text);
            var first := Rewrite(before[i], release, isNumber);
            && |after| == |before|
            && OneLine(first)
            && KeyIndent(after[i], URL) == KeyIndent(before[i], URL)
            && (if IsKeyLine(before[i]) then
                  Rewrite(after[i], release, isNumber) == first && !("PackageVersion: " <= before[i]) && !("PackageVersion: " <= after[i])
                else
                  first == before[i] && after[i] == StripCr(before[i]) && Rewrite(after[i], release, isNumber) == after[i])
  {
    var before := Lines(text);
    assert OneLine(before[i]) by {
      LinesAreSingle(text);
    }
    hide *;
    RewriteIsOneLine(before[i], release, isNumber);
    LineAgain(before[i], release, isNumber);
    RewrittenLines(text, version, release, isNumber);
    OnlyEntriesChange(text, version, release, isNumber, i);
  }

  lemma OutcomeOf(text: string, version: string, release: Release, isNumber: string -> bool)
    requires Outcome(text, version, release, isNumber).Ok?
    ensures var lines := Lines(text);
            && FieldValue(lines, "PackageVersion") == Some(version) && Entries(lines) > 0
            && Outcome(text, version, release, isNumber) == Ok(Finalized(Written(RewriteAll(lines, release, isNumber)), Entries(lines)))
  {
  }

  lemma OutcomeWhen(text: string, version: string, release: Release, isNumber: string -> bool)
    requires FieldValue(Lines(text), "PackageVersion") == Some(version) && Entries(Lines(text)) > 0
    ensures Outcome(text, version, release, isNumber)
            == Ok(Finalized(Written(RewriteAll(Lines(text), release, isNumber)), Entries(Lines(text))))
  {
  }

  lemma SettledIsStable(text: string, version: string, release: Release, isNumber: string -> bool)
    requires ReleaseOk(release) && Outcome(text, version, release, isNumber).Ok? && Settled(Lines(text))
    ensures var once := Outcome(text, version, release, isNumber);
            Outcome(once.value.text, version, release, isNumber) == once
  {
    var once := Outcome(text, version, release, isNumber).value;
    var before, after := Lines(text), Lines(once.text);
    OutcomeOf(text, version, release, isNumber);
    hide Lines, Written, StripCr, KeyIndent, Rewrite, OneLine, IsKeyLine, FieldValue, Outcome, Entries;
    forall i | 0 <= i < |before|
      ensures |after| == |before| && KeyIndent(after[i], URL) == KeyIndent(before[i], URL)
      ensures Rewrite(after[i], release, isNumber) == Rewrite(before[i], release, isNumber)
      ensures after[i] == before[i] || (!("PackageVersion" + ": " <= before[i]) && !("PackageVersion" + ": " <= after[i]))
    {
      SecondPass(text, version, release, isNumber, i);
      assert "PackageVersion" + ": " == "PackageVersion: ";
    }
    RewrittenLines(text, version, release, isNumber);
    EntriesSame(before, after);
    FieldValueSame(before, after, "PackageVersion");
    assert RewriteAll(after, release, isNumber) == RewriteAll(before, release, isNumber);
    OutcomeWhen(once.text, version, release, isNumber);
  }

  lemma UnsettledChanges(text: string, version: string, release: Release, isNumber: string -> bool)
    requires ReleaseOk(release) && Outcome(text, version, release, isNumber).Ok? && !Settled(Lines(text))
    ensures var once := Outcome(text, version, release, isNumber);
            Outcome(once.value.text, version, release, isNumber) != once
  {
    var once := Outcome(text, version, release, isNumber).value;
    var before, after := Lines(text), Lines(once.text);
    var i :| 0 <= i < |before| && !IsKeyLine(before[i]) && StripCr(before[i]) != before[i];
    hide Lines, Written, StripCr, KeyIndent, Rewrite, OneLine, IsKeyLine, FieldValue, Entries, Outcome;
    OutcomeOf(text, version, release, isNumber);
    SecondPass(text, version, release, isNumber, i);
    RewrittenLines(text, version, release, isNumber);
    if Outcome(once.text, version, release, isNumber) == Ok(once) {
      OutcomeOf(once.text, version, release, isNumber);
      var first, second := RewriteAll(before, release, isNumber), RewriteAll(after, release, isNumber);
      LinesAreSingle(text);
      LinesAreSingle(once.text);
      forall k | 0 <= k < |before|
        ensures OneLine(first[k]) && OneLine(second[k])
      {
        RewriteIsOneLine(before[k], release, isNumber);
        RewriteIsOneLine(after[k], release, isNumber);
      }
      assert second[i] != first[i];
      WrittenIsInjective(first, second);
      assert false;
    }
  }

  /**
   Finalizing again with the same release changes nothing exactly when no line but the entries' own ends in a carriage
   return; a document without carriage returns is such a one.
   */
  lemma FinalizeIsIdempotent(text: string, version: string, release: Release, isNumber: string -> bool)
    requires ReleaseOk(release) && Outcome(text, version, release, isNumber).Ok?
    ensures var once := Outcome(text, version, release, isNumber);
            (Outcome(once.value.text, version, release, isNumber) == once) <==> Settled(Lines(text))
  {
    hide *;
    if Settled(Lines(text)) {
      SettledIsStable(text, version, release, isNumber);
    } else {
      UnsettledChanges(text, version, release, isNumber);
    }
  }

  lemma LineAgain(line: string, release: Release, isNumber: string -> bool)
    ensures var once := Rewrite(line, release, isNumber);
            var again := StripCr(once);
            && (IsKeyLine(line) ==> IsKeyLine(again) && Rewrite(again, release, isNumber) == once)
            && (IsKeyLine(line) ==> !("PackageVersion: " <= line) && !("PackageVersion: " <= again))
            && (!IsKeyLine(line) ==> once == line && Rewrite(again, release, isNumber) == again)
  {
    hide StripCr, KeyIndent, UrlLine, ShaLine;
    if IsKeyLine(line) {
      RewriteIsStable(line, release, isNumber);
      NoVersionOnKeyLine(line);
      NoVersionOnKeyLine(StripCr(Rewrite(line, release, isNumber)));
    } else {
      StripCrMakesNoKey(line, URL);
      StripCrMakesNoKey(line, SHA);
    }
  }

  lemma {:induction false} NoCarriageReturns(text: string)
    requires Free(text, '\r')
    ensures Settled(Lines(text))
    decreases |text|
  {
    hide Find, IsKeyLine;
    if text != "" {
      match Find(text, "\n")
      case None => assert StripCr(text) == text;
      case Some(end) =>
        assert text[end..end + 1] == "\n";
        NoCarriageReturns(text[end + 1..]);
        assert Lines(text) == [StripCr(text[..end])] + Lines(text[end + 1..]);
        assert StripCr(text[..end]) == text[..end];
    }
  }

  function Example(): string {
    "PackageVersion: 1" + ['\n'] + ("InstallerUrl: u" + ['\n'] + "x\r")
  }

  lemma ExampleLines()
    ensures Lines(Example()) == ["PackageVersion: 1", "InstallerUrl: u", "x\r"]
  {
    hide Lines, StripCr, Find;
    LinesNext("PackageVersion: 1", "InstallerUrl: u" + ['\n'] + "x\r");
    LinesNext("InstallerUrl: u", "x\r");
    LastLine("x\r");
    StripCrTail("PackageVersion: ", "1");
    StripCrTail("InstallerUrl: ", "u");
    OneLetter('1');
    OneLetter('u');
    assert "PackageVersion: 1" == "PackageVersion: " + ['1'] && "InstallerUrl: u" == "InstallerUrl: " + ['u'];
  }

  lemma LastLine(line: string)
    requires line != "" && OneLine(line)
    ensures Lines(line) == [line]
  {
    FindNoCharacter(line, '\n');
    hide Find;
  }

  lemma OneLetter(c: char)
    requires c != '\r'
    ensures StripCr([c]) == [c]
  {
  }

  lemma ExampleKeys(lines: seq<string>)
    requires lines == ["PackageVersion: 1", "InstallerUrl: u", "x\r"]
    ensures Entries(lines) > 0 && FieldValue(lines, "PackageVersion") == Some("1")
    ensures !IsKeyLine(lines[2]) && StripCr(lines[2]) != lines[2]
  {
    hide *;
    SecondIsEntry(lines);
    FieldValueFinds([], lines[0], lines[1..], "PackageVersion");
    assert [] + [lines[0]] + lines[1..] == lines;
    assert "PackageVersion" + ": " == "PackageVersion: " && lines[0][16..] == "1";
    TrimOfLetter("1");
    ShortIsOther(lines[2]);
  }

  lemma TrimOfLetter(s: string)
    requires s == "1"
    ensures Unquote(Trim(s)) == s
  {
    TrimOfInk(s);
    hide Trim;
  }

  lemma SecondIsEntry(lines: seq<string>)
    requires |lines| > 1 && lines[1] == "InstallerUrl: u"
    ensures Entries(lines) > 0
  {
    KeysDiffer();
    KeyIndentOf("", URL, ": u");
    assert "InstallerUrl: u" == "" + (URL + ": u");
    hide KeyIndent;
    assert Entries(lines[1..]) > 0;
  }

  lemma ShortIsOther(line: string)
    requires line == "x\r"
    ensures !IsKeyLine(line) && StripCr(line) != line
  {
    assert forall j: nat :: !At(line, j, URL) && !At(line, j, SHA);
    hide Find, FindFrom, At;
  }

  /** A document whose last line ends in a bare carriage return is not left alone by a second pass. */
  lemma SecondPassCanChange(isNumber: string -> bool)
    ensures var release := Release("u", "s");
            var once := Outcome(Example(), "1", release, isNumber);
            once.Ok? && Outcome(once.value.text, "1", release, isNumber) != once
  {
    hide *;
    var lines := ["PackageVersion: 1", "InstallerUrl: u", "x\r"];
    ExampleLines();
    ExampleKeys(lines);
    OutcomeWhen(Example(), "1", Release("u", "s"), isNumber);
    UnsettledExample(Example(), lines, isNumber);
    UnsettledChanges(Example(), "1", Release("u", "s"), isNumber);
  }

  lemma UnsettledExample(text: string, lines: seq<string>, isNumber: string -> bool)
    requires Lines(text) == lines && |lines| == 3 && !IsKeyLine(lines[2]) && StripCr(lines[2]) != lines[2]
    ensures !Settled(Lines(text)) && ReleaseOk(Release("u", "s"))
  {
    hide Lines, IsKeyLine, StripCr;
  }

  // ---- the document built ----

  function Indented(indent: nat, text: string): string {
    if indent == 0 then text else "  " + Indented(indent - 1, text)
  }

  function FieldLine(key: string, value: string, isNumber: string -> bool): string {
    key + ": " + Scalar(value, isNumber)
  }

  /** What the document gains by a field: nothing for a blank value. */
  function FieldLines(indent: nat, key: string, value: string, isNumber: string -> bool): seq<string> {
    if Trim(value) == "" then [] else [Indented(indent, FieldLine(key, value, isNumber))]
  }

  function ItemLines(indent: nat, items: seq<string>, isNumber: string -> bool): seq<string> {
    if items == [] then [] else ItemLines(indent, items[..|items| - 1], isNumber) + [Indented(indent, "- " + Scalar(items[|items| - 1], isNumber))]
  }

  function BlockLines(indent: nat, lines: seq<string>): seq<string> {
    if lines == [] then []
    else
      var last := lines[|lines| - 1];
      BlockLines(indent, lines[..|lines| - 1]) + [if Trim(last) == "" then "" else Indented(indent + 1, last)]
  }

  /** Two blanks a level before the text. */
  ghost predicate IsIndented(line: string, indent: nat, text: string) {
    |line| == 2 * indent + |text| && line[2 * indent..] == text && forall i :: 0 <= i < 2 * indent ==> line[i] == ' '
  }

  lemma {:induction false} IndentedMeans(indent: nat, text: string)
    ensures IsIndented(Indented(indent, text), indent, text)
  {
    if indent > 0 {
      IndentedMeans(indent - 1, text);
      assert Indented(indent, text)[2..] == Indented(indent - 1, text);
      assert Indented(indent, text)[2 * indent..] == Indented(indent - 1, text)[2 * (indent - 1)..];
    }
  }

  /** A text is blank exactly if it is all whitespace. */
  lemma BlankMeans(text: string)
    ensures Trim(text) == "" <==> forall i :: 0 <= i < |text| ==> IsWhitespace(text[i])
  {
    hide IsWhitespace, TrimStart, TrimEnd;
    var start := TrimStart(text);
    var both := TrimEnd(start);
    if start != "" {
      assert start[0] == text[|text| - |start|];
    }
  }

  /** Every item of a sequence is read back from its own line, two blanks a level and a dash before it. */
  lemma {:induction false} SequenceIsReadBack(indent: nat, items: seq<string>, isNumber: string -> bool)
    ensures var lines := ItemLines(indent, items, isNumber);
            |lines| == |items|
            && forall k :: 0 <= k < |items| ==> exists text :: IsIndented(lines[k], indent, "- " + text) && Unquote(text) == items[k]
  {
    if items != [] {
      var n := |items| - 1;
      SequenceIsReadBack(indent, items[..n], isNumber);
      IndentedMeans(indent, "- " + Scalar(items[n], isNumber));
      UnquoteInvertsScalar(items[n], isNumber);
      hide Scalar, Unquote, Indented;
    }
  }

  /** A line of a block: a blank one empty, any other one level further in. */
  ghost predicate IsBlockLine(line: string, indent: nat, source: string) {
    if forall i :: 0 <= i < |source| ==> IsWhitespace(source[i]) then line == "" else IsIndented(line, indent + 1, source)
  }

  /** Every line of a block stands one level further in, a blank one as an empty line. */
  lemma {:induction false} BlockIsReadBack(indent: nat, source: seq<string>)
    ensures |BlockLines(indent, source)| == |source|
    ensures forall k :: 0 <= k < |source| ==> IsBlockLine(BlockLines(indent, source)[k], indent, source[k])
  {
    hide IsBlockLine, Trim, Indented;
    if source != [] {
      var n := |source| - 1;
      BlockIsReadBack(indent, source[..n]);
      BlockLineIs(indent, source[n]);
      assert forall k :: 0 <= k < n ==> source[..n][k] == source[k];
    }
  }

  lemma BlockLineIs(indent: nat, line: string)
    ensures IsBlockLine(if Trim(line) == "" then "" else Indented(indent + 1, line), indent, line)
  {
    hide IsWhitespace, Trim, Indented, IsIndented;
    BlankMeans(line);
    IndentedMeans(indent + 1, line);
  }

  /** A field is left out exactly if its value is blank. */
  lemma FieldIsWritten(indent: nat, key: string, value: string, isNumber: string -> bool)
    ensures var lines := FieldLines(indent, key, value, isNumber);
            if forall i :: 0 <= i < |value| ==> IsWhitespace(value[i]) then lines == []
            else |lines| == 1 && exists text :: IsIndented(lines[0], indent, key + ": " + text) && Unquote(text) == value
  {
    BlankMeans(value);
    IndentedMeans(indent, FieldLine(key, value, isNumber));
    UnquoteInvertsScalar(value, isNumber);
    hide IsWhitespace, Trim, Indented, Scalar, Unquote, IsIndented;
  }

  /** A document built line by line. */
  class Document {
    var lines: seq<string>

    constructor (header: string)
      ensures lines == [header]
    {
      lines := [header];
    }

    method Line(indent: nat, text: string)
      modifies this
      ensures lines == old(lines) + [Indented(indent, text)]
    {
      lines := lines + [Indented(indent, text)];
    }

    method Field(indent: nat, key: string, value: string, isNumber: string -> bool)
      modifies this
      ensures lines == old(lines) + FieldLines(indent, key, value, isNumber)
    {
      if Trim(value) == "" {
        return;
      }
      Line(indent, FieldLine(key, value, isNumber));
    }

    method Sequence(indent: nat, key: string, items: seq<string>, isNumber: string -> bool)
      modifies this
      ensures lines == old(lines) + if items == [] then [] else [Indented(indent, key + ":")] + ItemLines(indent, items, isNumber)
    {
      if |items| == 0 {
        return;
      }
      Line(indent, key + ":");
      for i := 0 to |items|
        invariant lines == old(lines) + ([Indented(indent, key + ":")] + ItemLines(indent, items[..i], isNumber))
      {
        assert items[..i + 1][..i] == items[..i];
        Line(indent, "- " + Scalar(items[i], isNumber));
      }
      assert items[..|items|] == items;
    }

    /** Multi-line text as a block under its key, indented but for its empty lines. */
    method Block(indent: nat, key: string, value: string)
      modifies this
      ensures lines == old(lines) + ([Indented(indent, key + ": |-")] + BlockLines(indent, Lines(TrimEnd(value))))
    {
      hide Lines, Trim, TrimEnd, Indented;
      Line(indent, key + ": |-");
      var source := Lines(TrimEnd(value));
      ghost var begun := lines;
      for i := 0 to |source|
        invariant lines == begun + BlockLines(indent, source[..i])
      {
        assert source[..i + 1][..i] == source[..i];
        if Trim(source[i]) == "" {
          lines := lines + [""];
        } else {
          Line(indent + 1, source[i]);
        }
      }
      assert source[..|source|] == source;
      assert begun + BlockLines(indent, source) == old(lines) + ([Indented(indent, key + ": |-")] + BlockLines(indent, source));
    }

    method Finish() returns (text: string)
      ensures text == Written(lines)
    {
      text := Join(lines, '\n') + "\n";
    }
  }

  // ---- the field read back ----

  lemma {:induction false} FieldValueFinds(before: seq<string>, line: string, after: seq<string>, key: string)
    requires forall i :: 0 <= i < |before| ==> !(key + ": " <= before[i])
    requires key + ": " <= line
    ensures FieldValue(before + [line] + after, key) == Some(Unquote(Trim(line[|key| + 2..])))
  {
    hide Trim, Unquote;
    var lines := before + [line] + after;
    if before != [] {
      assert lines[1..] == before[1..] + [line] + after;
      FieldValueFinds(before[1..], line, after, key);
    }
  }

  lemma TrimOfInk(s: string)
    requires s != "" && !IsWhitespace(s[0]) && !IsWhitespace(s[|s| - 1])
    ensures Trim(s) == s
  {
    assert TrimStart(s) == s;
  }

  lemma TrimIsPart(s: string)
    ensures |Trim(s)| <= |s| && (|Trim(s)| == |s| ==> Trim(s) == s)
  {
    var start := TrimStart(s);
    hide IsWhitespace;
  }

  /** Reading the text after `key: `: the value comes back exactly when it was quoted or has no whitespace at its ends. */
  lemma ScalarReadsBack(value: string, isNumber: string -> bool)
    requires value != ""
    ensures Unquote(Trim(StripCr(Scalar(value, isNumber)))) == value <==> (Plain(value, isNumber) ==> Trim(value) == value)
  {
    UnquoteInvertsScalar(value, isNumber);
    var text := Scalar(value, isNumber);
    hide Find, Replace, Trim;
    if Plain(value, isNumber) {
      assert value[0] != '\'';
      TrimIsPart(StripCr(value));
      TrimIsPart(value);
      assert |Unquote(Trim(StripCr(value)))| <= |Trim(StripCr(value))| by {
        UnquoteShrinks(Trim(StripCr(value)));
      }
      if Trim(value) == value {
        TrimmedEndsInInk(value);
      }
    } else {
      assert StripCr(text) == text;
      TrimOfInk(text);
    }
  }

  lemma TrimmedEndsInInk(value: string)
    requires value != "" && Trim(value) == value
    ensures StripCr(value) == value
  {
    var start := TrimStart(value);
    assert TrimEnd(start) == value;
  }

  lemma {:induction false} ReplaceShrinks(value: string)
    ensures |Replace(value, "''", "'")| <= |value|
  {
    if value != "" {
      ReplaceShrinks(value[if "''" <= value then 2 else 1..]);
    }
  }

  lemma UnquoteShrinks(value: string)
    ensures |Unquote(value)| <= |value|
  {
    if |value| >= 2 {
      ReplaceShrinks(value[1..|value| - 1]);
    }
    hide Replace;
  }

  /** What is read of a field is its scalar, trimmed and unquoted. */
  lemma FieldIsRead(before: seq<string>, key: string, value: string, after: seq<string>, isNumber: string -> bool)
    requires OneLine(value) && OneLine(key)
    requires forall i :: 0 <= i < |before| ==> OneLine(before[i]) && !(key + ": " <= StripCr(before[i]))
    requires forall i :: 0 <= i < |after| ==> OneLine(after[i])
    ensures FieldValue(Lines(Written(before + [FieldLine(key, value, isNumber)] + after)), key) ==
            Some(Unquote(Trim(StripCr(Scalar(value, isNumber)))))
  {
    hide *;
    FieldLineIsRead(key, value, isNumber);
    var line := FieldLine(key, value, isNumber);
    var lines := before + [line] + after;
    forall i | 0 <= i < |lines|
      ensures OneLine(lines[i])
    {
    }
    LinesOfWritten(lines);
    assert Stripped(lines) == Stripped(before) + [StripCr(line)] + Stripped(after);
    FieldValueFinds(Stripped(before), StripCr(line), Stripped(after), key);
  }

  /**
   A top-level field written into a document is read back from its text exactly when the value was quoted or has no
   whitespace at its ends: a plain scalar may start or end in a tab, which the reader trims off.
   */
  lemma FieldIsReadBack(before: seq<string>, key: string, value: string, after: seq<string>, isNumber: string -> bool)
    requires value != "" && OneLine(value) && OneLine(key)
    requires forall i :: 0 <= i < |before| ==> OneLine(before[i]) && !(key + ": " <= StripCr(before[i]))
    requires forall i :: 0 <= i < |after| ==> OneLine(after[i])
    ensures var lines := Lines(Written(before + [FieldLine(key, value, isNumber)] + after));
            FieldValue(lines, key) == Some(value) <==> (Plain(value, isNumber) ==> Trim(value) == value)
  {
    hide *;
    FieldIsRead(before, key, value, after, isNumber);
    ScalarReadsBack(value, isNumber);
  }

  /** Decimal without a leading zero, of at most nine digits. */
  predicate PartOk(part: string) {
    part != "" && AllDigits(part) && (part == "0" || part[0] != '0') && |part| <= 9
  }

  /** A part is such a number exactly if it is written as one below a milliard is. */
  lemma PartMeans(part: string)
    ensures PartOk(part) <==> exists n: nat :: n < 1_000_000_000 && part == Decimal(n)
  {
    if PartOk(part) {
      DecimalOfValue(part);
      DigitsBound(part);
    }
    if n: nat :| n < 1_000_000_000 && part == Decimal(n) {
      NinePowers();
      DecimalIsShort(n, 9);
      DecimalStarts(n);
    }
  }

  function Power(k: nat): nat {
    if k == 0 then 1 else 10 * Power(k - 1)
  }

  lemma {:induction false} DecimalOfValue(s: string)
    requires s != "" && AllDigits(s) && (s == "0" || s[0] != '0')
    ensures Decimal(DecimalValue(s)) == s
    ensures s[0] != '0' ==> DecimalValue(s) > 0
  {
    var front, last := s[..|s| - 1], s[|s| - 1];
    assert s == front + [last];
    DigitIsInverse(last);
    if front != "" {
      DecimalOfValue(front);
    } else {
      assert DecimalValue("") == 0;
    }
  }

  lemma DigitIsInverse(c: char)
    requires IsDigit(c)
    ensures Digit(DigitValue(c)) == c
  {
  }

  lemma {:induction false} DigitsBound(s: string)
    requires AllDigits(s)
    ensures DecimalValue(s) < Power(|s|)
    ensures |s| <= 9 ==> Power(|s|) <= 1_000_000_000
  {
    if s != "" {
      DigitsBound(s[..|s| - 1]);
    }
    NinePowers();
    if |s| <= 9 {
      PowersAscend(|s|, 9);
    }
  }

  lemma NinePowers()
    ensures Power(9) == 1_000_000_000
  {
    assert Power(3) == 1000;
    assert Power(6) == 1_000_000;
  }

  lemma {:induction false} PowersAscend(a: nat, b: nat)
    requires a <= b
    ensures Power(a) <= Power(b)
  {
    if a < b {
      PowersAscend(a, b - 1);
    }
  }

  lemma {:induction false} DecimalIsShort(n: nat, k: nat)
    requires k > 0 && n < Power(k)
    ensures |Decimal(n)| <= k
  {
    if n >= 10 {
      assert Power(k) == 10 * Power(k - 1);
      assert k > 1 by {
        assert Power(0) == 1;
      }
      DecimalIsShort(n / 10, k - 1);
    }
  }

  lemma {:induction false} DecimalStarts(n: nat)
    ensures Decimal(n)[0] == '0' ==> n == 0
    ensures Decimal(n) == "0" || Decimal(n)[0] != '0'
  {
    if n >= 10 {
      DecimalStarts(n / 10);
    }
  }

  /** What a package's version may be: three such numbers. */
  predicate VersionOk(version: string) {
    |Split(version, '.')| == 3 && forall part <- Split(version, '.') :: PartOk(part)
  }

  /** A version begins and ends with a digit and stays on its line. */
  lemma VersionIsInk(version: string)
    requires VersionOk(version)
    ensures version != "" && !IsWhitespace(version[0]) && !IsWhitespace(version[|version| - 1]) && OneLine(version)
  {
    var parts := Split(version, '.');
    JoinInvertsSplit(version, '.');
    hide Split;
    var a, b, c := parts[0], parts[1], parts[2];
    assert PartOk(a) && PartOk(b) && PartOk(c);
    JoinsThree(a, b, c, '.');
    assert parts == [a, b, c];
    assert version == a + ['.'] + (b + ['.'] + c);
    assert version[0] == a[0] && version[|version| - 1] == c[|c| - 1];
    DigitsStayOnTheLine(a);
    DigitsStayOnTheLine(b);
    DigitsStayOnTheLine(c);
  }

  lemma JoinsThree(a: string, b: string, c: string, between: char)
    ensures Join([a, b, c], between) == a + [between] + (b + [between] + c)
  {
    assert [a, b, c][1..] == [b, c] && [b, c][1..] == [c];
    assert Join([c], between) == c && Join([b, c], between) == b + [between] + c;
  }

  lemma DigitsStayOnTheLine(part: string)
    requires AllDigits(part)
    ensures OneLine(part)
  {
  }

  /** The one field the finalizer reads is always read back: a version a package may have is never trimmed. */
  lemma VersionIsReadBack(before: seq<string>, version: string, after: seq<string>, isNumber: string -> bool)
    requires VersionOk(version)
    requires forall i :: 0 <= i < |before| ==> OneLine(before[i]) && !("PackageVersion: " <= StripCr(before[i]))
    requires forall i :: 0 <= i < |after| ==> OneLine(after[i])
    ensures FieldValue(Lines(Written(before + [FieldLine("PackageVersion", version, isNumber)] + after)), "PackageVersion") == Some(version)
  {
    VersionIsInk(version);
    assert "PackageVersion" + ": " == "PackageVersion: " && OneLine("PackageVersion");
    hide *;
    TrimOfInk(version);
    FieldIsReadBack(before, "PackageVersion", version, after, isNumber);
  }

  /** A plain value that is not read back: its leading tab is trimmed off. */
  lemma TabIsTrimmed(key: string, isNumber: string -> bool)
    requires OneLine(key) && !isNumber("\tx")
    ensures Plain("\tx", isNumber) && FieldValue(Lines(Written([FieldLine(key, "\tx", isNumber)])), key) == Some("x")
  {
    TabIsPlain(isNumber);
    TabGoes();
    hide *;
    PlainFieldIsRead(key, "\tx", isNumber);
  }

  lemma PlainFieldIsRead(key: string, value: string, isNumber: string -> bool)
    requires OneLine(key) && OneLine(value) && Plain(value, isNumber)
    ensures FieldValue(Lines(Written([FieldLine(key, value, isNumber)])), key) == Some(Unquote(Trim(StripCr(value))))
  {
    hide *;
    ScalarOfPlain(value, isNumber);
    FieldIsRead([], key, value, [], isNumber);
    assert [] + [FieldLine(key, value, isNumber)] + [] == [FieldLine(key, value, isNumber)];
  }

  lemma ScalarOfPlain(value: string, isNumber: string -> bool)
    requires Plain(value, isNumber)
    ensures Scalar(value, isNumber) == value
  {
  }

  lemma TabIsPlain(isNumber: string -> bool)
    requires !isNumber("\tx")
    ensures Plain("\tx", isNumber) && OneLine("\tx")
  {
  }

  lemma TabGoes()
    ensures Unquote(Trim("\tx")) == "x" && StripCr("\tx") == "\tx"
  {
    TrimmedTab();
    hide Replace, Trim;
  }

  lemma TrimmedTab()
    ensures Trim("\tx") == "x"
  {
    assert "\tx"[1..] == "x" && !IsWhitespace('x') && IsWhitespace('\t');
    assert TrimStart("x") == "x";
    assert TrimStart("\tx") == "x";
  }

  lemma FieldLineIsRead(key: string, value: string, isNumber: string -> bool)
    requires OneLine(value) && OneLine(key)
    ensures var line := FieldLine(key, value, isNumber);
            OneLine(line) && key + ": " <= StripCr(line) && StripCr(line)[|key| + 2..] == StripCr(Scalar(value, isNumber))
  {
    ReplaceIsFree(value, "'", "''", '\n');
    ScalarIsSome(value, isNumber);
    StripCrTail(key + ": ", Scalar(value, isNumber));
    hide Replace, Find, Plain, StripCr;
  }

  lemma ScalarIsSome(value: string, isNumber: string -> bool)
    ensures Scalar(value, isNumber) != ""
  {
    hide Find, Replace;
  }
}
