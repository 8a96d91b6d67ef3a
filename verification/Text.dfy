/** The string operations of the Rust standard library that the scanners are written with. */
module Text {
  import opened Wrappers

  type Byte = b: int | 0 <= b < 256

  /** The Unicode White_Space property. */
  predicate IsWhitespace(c: char) {
    || '\t' <= c <= '\r' || c == ' ' || c == '\U{85}' || c == '\U{A0}' || c == '\U{1680}'
    || '\U{2000}' <= c <= '\U{200A}' || c == '\U{2028}' || c == '\U{2029}' || c == '\U{202F}'
    || c == '\U{205F}' || c == '\U{3000}'
  }

  predicate IsDigit(c: char) {
    '0' <= c <= '9'
  }

  predicate IsAsciiAlphanumeric(c: char) {
    IsDigit(c) || 'a' <= c <= 'z' || 'A' <= c <= 'Z'
  }

  /** An offset found in the rest of a text, as an offset in the whole text. */
  function Shift(n: nat, found: Option<nat>): Option<nat> {
    if found.Some? then Some(n + found.value) else None
  }

  /** Whether `pattern` stands at offset `i` of `s`. */
  predicate At(s: string, i: nat, pattern: string) {
    i + |pattern| <= |s| && s[i..i + |pattern|] == pattern
  }

  /** The first offset from `i` on where `pattern` stands. */
  function FindFrom(s: string, i: nat, pattern: string): (r: Option<nat>)
    requires i <= |s|
    ensures r.Some? ==> i <= r.value && At(s, r.value, pattern) && forall j: nat :: i <= j < r.value ==> !At(s, j, pattern)
    ensures r.None? ==> forall j: nat :: i <= j ==> !At(s, j, pattern)
    decreases |s| - i
  {
    if At(s, i, pattern) then Some(i)
    else if i == |s| then None
    else FindFrom(s, i + 1, pattern)
  }

  function Find(s: string, pattern: string): (r: Option<nat>)
    ensures r.Some? ==> r.value + |pattern| <= |s| && At(s, r.value, pattern) && forall j: nat :: j < r.value ==> !At(s, j, pattern)
    ensures r.None? ==> forall j: nat :: !At(s, j, pattern)
  {
    FindFrom(s, 0, pattern)
  }

  /** `str::replace`: every occurrence, left to right, none overlapping the one before. */
  function Replace(s: string, pattern: string, with: string): string
    requires pattern != ""
  {
    if s == "" then ""
    else if pattern <= s then with + Replace(s[|pattern|..], pattern, with)
    else [s[0]] + Replace(s[1..], pattern, with)
  }

  function TrimStart(s: string): (r: string)
    ensures |r| <= |s| && s[|s| - |r|..] == r
    ensures forall i :: 0 <= i < |s| - |r| ==> IsWhitespace(s[i])
    ensures r != "" ==> !IsWhitespace(r[0])
  {
    if s != "" && IsWhitespace(s[0]) then TrimStart(s[1..]) else s
  }

  function TrimEnd(s: string): (r: string)
    ensures |r| <= |s| && s[..|r|] == r
    ensures forall i :: |r| <= i < |s| ==> IsWhitespace(s[i])
    ensures r != "" ==> !IsWhitespace(r[|r| - 1])
  {
    if s != "" && IsWhitespace(s[|s| - 1]) then TrimEnd(s[..|s| - 1]) else s
  }

  function Trim(s: string): string {
    TrimEnd(TrimStart(s))
  }

  /** `str::split` on one character: the pieces between its occurrences, never none. */
  function Split(s: string, c: char): (r: seq<string>)
    ensures |r| > 0
  {
    if s == "" then [""]
    else if s[0] == c then [""] + Split(s[1..], c)
    else
      var rest := Split(s[1..], c);
      [[s[0]] + rest[0]] + rest[1..]
  }

  /** `[T]::join` with one character. */
  function Join(parts: seq<string>, c: char): string {
    if parts == [] then ""
    else if |parts| == 1 then parts[0]
    else parts[0] + [c] + Join(parts[1..], c)
  }

  lemma {:induction false} SplitPiece(piece: string, c: char, rest: string)
    requires Free(piece, c)
    ensures Split(piece + [c] + rest, c) == [piece] + Split(rest, c)
  {
    var s := piece + [c] + rest;
    if piece == "" {
      assert s == [c] + rest;
      Tail(c, rest);
    } else {
      assert s[1..] == piece[1..] + [c] + rest;
      SplitPiece(piece[1..], c, rest);
      assert [s[0]] + piece[1..] == piece;
    }
  }

  lemma {:induction false} SplitIsFree(s: string, c: char)
    ensures forall i :: 0 <= i < |Split(s, c)| ==> Free(Split(s, c)[i], c)
  {
    if s != "" {
      SplitIsFree(s[1..], c);
    }
  }

  lemma {:induction false} SplitFree(piece: string, c: char)
    requires Free(piece, c)
    ensures Split(piece, c) == [piece]
  {
    if piece != "" {
      SplitFree(piece[1..], c);
      assert [piece[0]] + piece[1..] == piece;
    }
  }

  lemma {:induction false} SplitInvertsJoin(parts: seq<string>, c: char)
    requires parts != [] && forall piece <- parts :: Free(piece, c)
    ensures Split(Join(parts, c), c) == parts
  {
    if |parts| == 1 {
      SplitFree(parts[0], c);
    } else {
      SplitPiece(parts[0], c, Join(parts[1..], c));
      SplitInvertsJoin(parts[1..], c);
    }
  }

  lemma {:induction false} JoinInvertsSplit(s: string, c: char)
    ensures Join(Split(s, c), c) == s
  {
    if s != "" {
      var rest := Split(s[1..], c);
      JoinInvertsSplit(s[1..], c);
      if s[0] == c {
        assert ([""] + rest)[1..] == rest;
        assert "" + [c] + s[1..] == s;
      } else {
        assert ([[s[0]] + rest[0]] + rest[1..])[1..] == rest[1..];
        if |rest| > 1 {
          assert [s[0]] + rest[0] + [c] + Join(rest[1..], c) == [s[0]] + (rest[0] + [c] + Join(rest[1..], c));
        }
        assert [s[0]] + s[1..] == s;
      }
    }
  }

  function LowerOf(c: char): char {
    if 'A' <= c <= 'Z' then (c as int + 32) as char else c
  }

  /** `str::to_ascii_lowercase`. */
  function Lower(s: string): (r: string)
    ensures |r| == |s| && forall i :: 0 <= i < |s| ==> r[i] == LowerOf(s[i])
  {
    if s == "" then "" else [LowerOf(s[0])] + Lower(s[1..])
  }

  /** `str::len`: the bytes of the UTF-8 encoding. */
  function Utf8Length(s: string): nat {
    if s == "" then 0
    else (if s[0] < '\U{80}' then 1 else if s[0] < '\U{800}' then 2 else if s[0] < '\U{10000}' then 3 else 4) + Utf8Length(s[1..])
  }

  function Concat(parts: seq<string>): string {
    if parts == [] then "" else parts[0] + Concat(parts[1..])
  }

  lemma {:induction false} ConcatAppend(a: seq<string>, b: seq<string>)
    ensures Concat(a + b) == Concat(a) + Concat(b)
  {
    if a == [] {
      assert a + b == b;
    } else {
      assert (a + b)[1..] == a[1..] + b;
      ConcatAppend(a[1..], b);
    }
  }

  predicate Free(s: string, c: char) {
    forall i :: 0 <= i < |s| ==> s[i] != c
  }

  lemma Assoc(a: string, b: string, c: string)
    ensures a + (b + c) == a + b + c
  {
  }

  lemma SplitAt(a: string, c: char, b: string)
    ensures (a + [c] + b)[..|a|] == a && (a + [c] + b)[|a| + 1..] == b
  {
  }

  lemma Tail(c: char, s: string)
    ensures ([c] + s)[0] == c && ([c] + s)[1..] == s
  {
  }

  lemma DropDrop(s: string, i: nat, j: nat)
    requires i + j <= |s|
    ensures s[i..][j..] == s[i + j..]
  {
  }

  lemma TakeNext(s: string, n: nat)
    requires 0 < n <= |s|
    ensures s[..n] == [s[0]] + s[1..][..n - 1]
  {
  }

  lemma NothingBefore(s: string)
    ensures "" + s == s
  {
  }

  lemma FreeConcat(a: string, b: string, c: char)
    requires Free(a, c) && Free(b, c)
    ensures Free(a + b, c)
  {
  }

  lemma NotPrefix(p: string, s: string, k: nat)
    requires k < |p| && k < |s| && p[k] != s[k]
    ensures !(p <= s)
  {
  }

  lemma NotInIsFree(s: string, c: char)
    requires c !in s
    ensures Free(s, c)
  {
  }

  lemma FindAt(s: string, i: nat, pattern: string)
    requires At(s, i, pattern) && forall j: nat :: j < i ==> !At(s, j, pattern)
    ensures Find(s, pattern) == Some(i)
  {
  }

  /** A one-character pattern is found where the text before it is free of it. */
  lemma FindCharacter(a: string, c: char, b: string)
    requires Free(a, c)
    ensures Find(a + [c] + b, [c]) == Some(|a|)
  {
    var s := a + [c] + b;
    assert At(s, |a|, [c]);
    forall j: nat | j < |a|
      ensures !At(s, j, [c])
    {
      assert s[j..j + 1] == [a[j]];
    }
    FindAt(s, |a|, [c]);
  }

  lemma FindNoCharacter(s: string, c: char)
    requires Free(s, c)
    ensures Find(s, [c]) == None
  {
    forall j: nat
      ensures !At(s, j, [c])
    {
      if j < |s| {
        assert s[j..j + 1] == [s[j]];
      }
    }
  }

  lemma {:induction false} ReplaceNothing(s: string, pattern: string, with: string)
    requires pattern != "" && Free(s, pattern[0])
    ensures Replace(s, pattern, with) == s
  {
    if s != "" {
      assert !(pattern <= s);
      ReplaceNothing(s[1..], pattern, with);
      assert s == [s[0]] + s[1..];
    }
  }

  /** Decimal digits, most significant first, without leading zeros. */
  function Decimal(n: nat): (r: string)
    ensures |r| > 0 && forall i :: 0 <= i < |r| ==> IsDigit(r[i])
  {
    if n < 10 then [Digit(n)] else Decimal(n / 10) + [Digit(n % 10)]
  }

  function Digit(n: nat): (c: char)
    requires n < 10
    ensures IsDigit(c) && DigitValue(c) == n
  {
    ('0' as int + n) as char
  }

  function DigitValue(c: char): (n: nat)
    requires IsDigit(c)
    ensures n < 10
  {
    c as int - '0' as int
  }

  predicate AllDigits(s: string) {
    forall i :: 0 <= i < |s| ==> IsDigit(s[i])
  }

  function DecimalValue(s: string): nat
    requires AllDigits(s)
  {
    if s == "" then 0 else DecimalValue(s[..|s| - 1]) * 10 + DigitValue(s[|s| - 1])
  }

  /** `u64::from_str` and its narrower relatives: an optional `+`, then digits, in range. */
  function ParseUnsigned(s: string, max: nat): Option<nat> {
    var digits := if |s| > 1 && s[0] == '+' then s[1..] else s;
    if digits != "" && AllDigits(digits) && DecimalValue(digits) <= max then Some(DecimalValue(digits)) else None
  }

  lemma {:induction false} DecimalRoundTrip(n: nat)
    ensures DecimalValue(Decimal(n)) == n
  {
    if n >= 10 {
      var s := Decimal(n);
      assert s[..|s| - 1] == Decimal(n / 10);
      DecimalRoundTrip(n / 10);
    }
  }

  lemma ParsePrinted(n: nat, max: nat)
    requires n <= max
    ensures ParseUnsigned(Decimal(n), max) == Some(n)
  {
    DecimalRoundTrip(n);
    assert Decimal(n)[0] != '+';
  }

  // ---- the tables ----

  /** The white space of Unicode, one by one. */
  lemma WhitespaceIs(c: char)
    ensures IsWhitespace(c) <==>
            c in "\t\n\U{B}\U{C}\r \U{85}\U{A0}\U{1680}\U{2000}\U{2001}\U{2002}\U{2003}\U{2004}\U{2005}"
            || c in "\U{2006}\U{2007}\U{2008}\U{2009}\U{200A}\U{2028}\U{2029}\U{202F}\U{205F}\U{3000}"
  {
  }

  /** The letters of ASCII in lower case, and every other character as it is. */
  lemma LowerIs(i: nat, c: char)
    requires i < 26
    ensures LowerOf("ABCDEFGHIJKLMNOPQRSTUVWXYZ"[i]) == "abcdefghijklmnopqrstuvwxyz"[i]
    ensures c !in "ABCDEFGHIJKLMNOPQRSTUVWXYZ" ==> LowerOf(c) == c
  {
    if 'A' <= c <= 'Z' {
      assert "ABCDEFGHIJKLMNOPQRSTUVWXYZ"[c as int - 'A' as int] == c;
    }
  }

  /** A text is as many bytes as characters exactly if it is ASCII, and never more than four times as many. */
  lemma {:induction false} Utf8LengthIs(s: string)
    ensures |s| <= Utf8Length(s) <= 4 * |s|
    ensures Utf8Length(s) == |s| <==> forall i :: 0 <= i < |s| ==> s[i] < '\U{80}'
  {
    if s != "" {
      Utf8LengthIs(s[1..]);
      assert forall i :: 0 < i < |s| ==> s[i] == s[1..][i - 1];
    }
  }

  /** A number may have a plus sign, must have digits and nothing else, and is refused out of range. */
  lemma UnsignedIs(digits: string, max: nat)
    ensures digits != "" && AllDigits(digits) ==>
              ParseUnsigned(digits, max) == (if DecimalValue(digits) <= max then Some(DecimalValue(digits)) else None)
              && ParseUnsigned("+" + digits, max) == ParseUnsigned(digits, max)
    ensures digits == "" || !AllDigits(digits) ==> ParseUnsigned("+" + digits, max) == None
  {
    var signed := "+" + digits;
    assert signed[0] == '+' && signed[1..] == digits;
    if digits == "" {
      assert !IsDigit(signed[0]);
    }
  }
}
