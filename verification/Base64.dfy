/** Standard base64 with padding (section 4 of RFC 4648): the decoder's loop and the encoder it inverts. */
module Base64 {
  import opened Wrappers
  import opened Text

  /** The six bits a character of the alphabet stands for. */
  function Value(c: char): (r: Option<nat>)
    ensures r.Some? ==> r.value < 64 && Alphabet(r.value) == c
  {
    if 'A' <= c <= 'Z' then Some(c as int - 'A' as int)
    else if 'a' <= c <= 'z' then Some(c as int - 'a' as int + 26)
    else if '0' <= c <= '9' then Some(c as int - '0' as int + 52)
    else if c == '+' then Some(62)
    else if c == '/' then Some(63)
    else None
  }

  function Alphabet(n: nat): (c: char)
    requires n < 64
    ensures c != '=' && IsPlain(c)
  {
    if n < 26 then ('A' as int + n) as char
    else if n < 52 then ('a' as int + (n - 26)) as char
    else if n < 62 then ('0' as int + (n - 52)) as char
    else if n == 62 then '+'
    else '/'
  }

  /** Whether a character can stand in encoded text without being read as markup. */
  predicate IsPlain(c: char) {
    IsAsciiAlphanumeric(c) || c == '+' || c == '/' || c == '='
  }

  lemma AlphabetValue(n: nat)
    requires n < 64
    ensures Value(Alphabet(n)) == Some(n)
  {
  }

  /** How many `=` the quad ends in. */
  function Padding(quad: string): (n: nat)
    ensures n <= |quad| && (forall i :: |quad| - n <= i < |quad| ==> quad[i] == '=')
    ensures n < |quad| ==> quad[|quad| - n - 1] != '='
  {
    if quad != "" && quad[|quad| - 1] == '=' then 1 + Padding(quad[..|quad| - 1]) else 0
  }

  /** The number the characters of a quad spell in base 64. */
  function Spelled(text: string): Option<nat> {
    if text == "" then Some(0)
    else
      var high := Spelled(text[..|text| - 1]);
      var low := Value(text[|text| - 1]);
      if high.None? || low.None? then None else Some(high.value * 64 + low.value)
  }

  function Bytes3(acc: nat): (r: seq<Byte>)
    ensures |r| == 3
  {
    [acc / 65536 % 256, acc / 256 % 256, acc % 256]
  }

  /** The accumulator shifted left six bits for every padding character. */
  function Shifted(acc: nat, pad: nat): nat
    requires pad <= 2
  {
    if pad == 0 then acc else if pad == 1 then acc * 64 else acc * 4096
  }

  function DecodeQuad(quad: string, last: bool): Option<seq<Byte>>
    requires |quad| == 4
  {
    var pad := Padding(quad);
    if pad > 2 || (pad > 0 && !last) then None
    else
      var spelled := Spelled(quad[..4 - pad]);
      if spelled.None? then None else Some(Bytes3(Shifted(spelled.value, pad))[..3 - pad])
  }

  /** Quad by quad, padding in the last one only. */
  function Decode(text: string): Option<seq<Byte>> {
    if |text| < 4 || |text| % 4 != 0 then None
    else
      var head := DecodeQuad(text[..4], |text| == 4);
      if head.None? || |text| == 4 then head
      else
        var tail := Decode(text[4..]);
        if tail.None? then None else Some(head.value + tail.value)
  }

  /** One quad of the decoder's loop: the padding, then the accumulator over the characters before it. */
  method QuadDecode(quad: string, last: bool) returns (r: Option<seq<Byte>>)
    requires |quad| == 4
    ensures r == DecodeQuad(quad, last)
  {
    hide Value, Shifted, Bytes3, Padding;
    var pad := Padding(quad);
    if pad > 2 || (pad > 0 && !last) {
      return None;
    }
    var text := quad[..4 - pad];
    var acc := 0;
    for k := 0 to |text|
      invariant Spelled(text[..k]) == Some(acc)
    {
      assert text[..k + 1][..k] == text[..k];
      var value := Value(text[k]);
      if value.None? {
        UnspelledStays(text, k + 1);
        return None;
      }
      acc := acc * 64 + value.value;
    }
    assert text[..|text|] == text;
    return Some(Bytes3(Shifted(acc, pad))[..3 - pad]);
  }

  method Base64Decode(text: string) returns (r: Option<seq<Byte>>)
    ensures r == Decode(text)
  {
    hide DecodeQuad;
    if |text| == 0 || |text| % 4 != 0 {
      return None;
    }
    var out: seq<Byte> := [];
    var rest := text;
    assert Decode(text).Some? ==> out + Decode(text).value == Decode(text).value;
    while |rest| > 0
      invariant |rest| % 4 == 0
      invariant |rest| == 0 ==> Decode(text) == Some(out)
      invariant |rest| > 0 ==>
                  Decode(text) == if Decode(rest).None? then None else Some(out + Decode(rest).value)
    {
      var decoded := QuadDecode(rest[..4], |rest| == 4);
      if decoded.None? {
        return None;
      }
      ghost var tail := Decode(rest[4..]);
      assert tail.Some? ==> out + (decoded.value + tail.value) == out + decoded.value + tail.value;
      out, rest := out + decoded.value, rest[4..];
    }
    return Some(out);
  }

  lemma {:induction false} UnspelledStays(text: string, k: nat)
    requires k <= |text| && Spelled(text[..k]).None?
    ensures Spelled(text).None?
    decreases |text| - k
  {
    if k == |text| {
      assert text[..k] == text;
    } else {
      assert text[..k + 1][..k] == text[..k];
      UnspelledStays(text, k + 1);
    }
  }

  /** The 24 bits of a chunk, missing bytes read as zero. */
  function Accumulate(chunk: seq<Byte>): (acc: nat)
    requires 1 <= |chunk| <= 3
    ensures acc < 16777216
  {
    var a: int, b: int, c: int := chunk[0], if |chunk| > 1 then chunk[1] else 0, if |chunk| > 2 then chunk[2] else 0;
    a * 65536 + b * 256 + c
  }

  /** The encoder's four characters for one to three bytes. */
  function EncodeChunk(chunk: seq<Byte>): (r: string)
    requires 1 <= |chunk| <= 3
    ensures |r| == 4
  {
    var acc := Accumulate(chunk);
    [Alphabet(acc / 262144 % 64), Alphabet(acc / 4096 % 64),
     if |chunk| >= 2 then Alphabet(acc / 64 % 64) else '=',
     if |chunk| >= 3 then Alphabet(acc % 64) else '=']
  }

  function Encode(bytes: seq<Byte>): string {
    if bytes == [] then ""
    else if |bytes| <= 3 then EncodeChunk(bytes)
    else EncodeChunk(bytes[..3]) + Encode(bytes[3..])
  }

  /** Encoded text is four plain characters for every three bytes begun. */
  lemma {:induction false} EncodeIsPlain(bytes: seq<Byte>)
    ensures |Encode(bytes)| == (|bytes| + 2) / 3 * 4
    ensures forall i :: 0 <= i < |Encode(bytes)| ==> IsPlain(Encode(bytes)[i])
  {
    if bytes != [] {
      ChunkIsPlain(if |bytes| <= 3 then bytes else bytes[..3]);
    }
    hide EncodeChunk, IsPlain, Encode;
    EncodeUnfolds(bytes);
    if |bytes| > 3 {
      var head, more := EncodeChunk(bytes[..3]), Encode(bytes[3..]);
      EncodeIsPlain(bytes[3..]);
      assert |head| == 4 && |more| == (|bytes| - 3 + 2) / 3 * 4;
      PlainJoins(head, more);
    }
  }

  lemma PlainJoins(a: string, b: string)
    requires (forall i :: 0 <= i < |a| ==> IsPlain(a[i])) && (forall i :: 0 <= i < |b| ==> IsPlain(b[i]))
    ensures forall i :: 0 <= i < |a + b| ==> IsPlain((a + b)[i])
  {
    hide IsPlain;
  }

  lemma EncodeUnfolds(bytes: seq<Byte>)
    ensures Encode(bytes) == if bytes == [] then "" else if |bytes| <= 3 then EncodeChunk(bytes) else EncodeChunk(bytes[..3]) + Encode(bytes[3..])
  {
    hide EncodeChunk;
  }

  lemma ChunkIsPlain(chunk: seq<Byte>)
    requires 1 <= |chunk| <= 3
    ensures forall i :: 0 <= i < 4 ==> IsPlain(EncodeChunk(chunk)[i])
  {
    hide Alphabet, Accumulate, IsPlain;
    assert IsPlain('=') by {
      PlainEquals();
    }
  }

  lemma PlainEquals()
    ensures IsPlain('=')
  {
  }

  lemma ChunkRoundTrip(chunk: seq<Byte>, last: bool)
    requires 1 <= |chunk| <= 3 && (|chunk| < 3 ==> last)
    ensures DecodeQuad(EncodeChunk(chunk), last) == Some(chunk)
  {
    hide Value, Alphabet, Spelled, EncodeChunk;
    var x: nat, y: nat, z: nat := chunk[0], if |chunk| > 1 then chunk[1] else 0, if |chunk| > 2 then chunk[2] else 0;
    ChunkSpells(chunk);
    Octets(x, y, z);
    hide Bytes3, Shifted, Padding;
    assert [x, y, z][..|chunk|] == chunk;
  }

  /** What the encoder writes spells the chunk's 24 bits. */
  lemma ChunkSpells(chunk: seq<Byte>)
    requires 1 <= |chunk| <= 3
    ensures var quad, pad := EncodeChunk(chunk), 3 - |chunk|;
            && Padding(quad) == pad
            && Spelled(quad[..4 - pad]).Some?
            && Shifted(Spelled(quad[..4 - pad]).value, pad) == Accumulate(chunk)
  {
    hide Value, Alphabet, Spelled;
    var quad := EncodeChunk(chunk);
    var pad := 3 - |chunk|;
    var x: nat, y: nat, z: nat := chunk[0], if |chunk| > 1 then chunk[1] else 0, if |chunk| > 2 then chunk[2] else 0;
    FourSextets(x, y, z);
    var p: nat, q: nat, r: nat := x / 4, x % 4 * 16 + y / 16, y % 16 * 4 + z / 64;
    assert Padding(quad) == pad by {
      assert quad[3 - pad] != '=';
    }
    AlphabetValue(p);
    AlphabetValue(q);
    AlphabetValue(r);
    AlphabetValue(z % 64);
    SpelledQuad(quad);
    assert x == 4 * p + x % 4 && y == 16 * (y / 16) + y % 16 && z == 64 * (z / 64) + z % 64;
    assert ((p * 64 + q) * 64 + r) * 64 + z % 64 == x * 65536 + y * 256 + z;
  }

  /** What the first two, three and four characters of a quad spell. */
  lemma SpelledQuad(quad: string)
    requires |quad| == 4 && Value(quad[0]).Some? && Value(quad[1]).Some?
    ensures Spelled(quad[..2]) == Some(Value(quad[0]).value * 64 + Value(quad[1]).value)
    ensures Value(quad[2]).Some? ==>
              Spelled(quad[..3]) == Some((Value(quad[0]).value * 64 + Value(quad[1]).value) * 64 + Value(quad[2]).value)
    ensures Value(quad[2]).Some? && Value(quad[3]).Some? ==>
              Spelled(quad[..4]) == Some(((Value(quad[0]).value * 64 + Value(quad[1]).value) * 64 + Value(quad[2]).value) * 64
                                         + Value(quad[3]).value)
  {
    assert quad[..1][..0] == "" && Spelled(quad[..0]) == Some(0);
    assert Spelled(quad[..1]) == Some(Value(quad[0]).value);
    assert quad[..2][..1] == quad[..1] && quad[..2][1] == quad[1];
    assert quad[..3][..2] == quad[..2] && quad[..3][2] == quad[2];
    assert quad[..4][..3] == quad[..3] && quad[..4][3] == quad[3];
  }

  /** Decoding inverts encoding on every non-empty byte string. */
  lemma {:induction false} RoundTrip(bytes: seq<Byte>)
    requires bytes != []
    ensures Decode(Encode(bytes)) == Some(bytes)
  {
    hide EncodeChunk, DecodeQuad;
    EncodeIsPlain(bytes);
    if |bytes| <= 3 {
      var text := Encode(bytes);
      assert text[..4] == text;
      ChunkRoundTrip(bytes, true);
    } else {
      var text := Encode(bytes);
      assert text[..4] == EncodeChunk(bytes[..3]) && text[4..] == Encode(bytes[3..]);
      EncodeIsPlain(bytes[3..]);
      ChunkRoundTrip(bytes[..3], false);
      RoundTrip(bytes[3..]);
      assert bytes[..3] + bytes[3..] == bytes;
    }
  }

  /** What every accepted text looks like: whole quads, padding at the very end, three bytes a quad less the padding. */
  lemma {:induction false} AcceptedShape(text: string)
    requires Decode(text).Some?
    ensures |text| > 0 && |text| % 4 == 0 && Padding(text) <= 2
    ensures |Decode(text).value| == |text| / 4 * 3 - Padding(text)
    ensures forall i :: 0 <= i < |text| - Padding(text) ==> Value(text[i]).Some?
  {
    hide Value, DecodeQuad;
    var quad := text[..4];
    QuadShape(quad, |text| == 4);
    if |text| == 4 {
      assert text == quad;
    } else {
      AcceptedShape(text[4..]);
      PaddingSuffix(text, 4);
      assert forall i :: 4 <= i < |text| ==> text[i] == text[4..][i - 4];
      assert forall i :: 0 <= i < 4 ==> text[i] == quad[i];
    }
  }

  lemma QuadShape(quad: string, last: bool)
    requires |quad| == 4 && DecodeQuad(quad, last).Some?
    ensures Padding(quad) <= 2 && (!last ==> Padding(quad) == 0)
    ensures |DecodeQuad(quad, last).value| == 3 - Padding(quad)
    ensures forall i :: 0 <= i < 4 - Padding(quad) ==> Value(quad[i]).Some?
  {
    hide Value, Bytes3, Shifted, Padding;
    SpelledAll(quad[..4 - Padding(quad)]);
    hide Spelled;
    assert forall i :: 0 <= i < 4 - Padding(quad) ==> quad[i] == quad[..4 - Padding(quad)][i];
  }

  lemma {:induction false} SpelledAll(text: string)
    requires Spelled(text).Some?
    ensures forall i :: 0 <= i < |text| ==> Value(text[i]).Some?
  {
    if text != "" {
      SpelledAll(text[..|text| - 1]);
    }
  }

  lemma {:induction false} PaddingSuffix(text: string, k: nat)
    requires k < |text| && Padding(text[k..]) < |text| - k
    ensures Padding(text) == Padding(text[k..])
  {
    if text[|text| - 1] == '=' {
      assert text[..|text| - 1][k..] == text[k..][..|text| - k - 1];
      PaddingSuffix(text[..|text| - 1], k);
    }
  }

  /** The bits the last quad's last character carries beyond the bytes it encodes. */
  function Spare(text: string): nat
    requires |text| >= 4
  {
    var pad := Padding(text);
    if pad == 0 || pad > 2 then 0
    else
      var v := Value(text[|text| - pad - 1]);
      if v.None? then 0 else v.value % (if pad == 1 then 4 else 16)
  }

  /** An accepted text is the one the encoder writes for its bytes exactly when its spare bits are zero. */
  lemma {:induction false} EncoderWritesIt(text: string)
    requires Decode(text).Some?
    ensures Encode(Decode(text).value) == text <==> Spare(text) == 0
  {
    hide Value, EncodeChunk, DecodeQuad, Padding, Spare;
    var quad := text[..4];
    if |text| == 4 {
      assert text == quad;
      QuadWritten(quad, true);
    } else {
      EncoderWritesIt(text[4..]);
      QuadWritten(quad, false);
      SpareSuffix(text);
      var tail := Decode(text[4..]).value;
      var head := DecodeQuad(quad, false).value;
      AcceptedShape(text[4..]);
      assert |head| == 3 && tail != [];
      assert (head + tail)[..3] == head && (head + tail)[3..] == tail;
      assert Encode(head + tail) == EncodeChunk(head) + Encode(tail);
      assert text == quad + text[4..];
      assert (EncodeChunk(head) + Encode(tail))[4..] == Encode(tail);
    }
  }

  lemma FirstQuad(text: string)
    requires |text| > 4 && Decode(text).Some?
    ensures Decode(text[4..]).Some? && Padding(text[..4]) == 0
  {
    hide DecodeQuad;
    QuadShape(text[..4], false);
  }

  lemma SpareSuffix(text: string)
    requires |text| > 4 && Decode(text).Some?
    ensures Spare(text) == Spare(text[4..])
    ensures Spare(text[..4]) == 0
  {
    hide Value, Padding;
    FirstQuad(text);
    hide Decode;
    AcceptedShape(text[4..]);
    PaddingSuffix(text, 4);
    var pad := Padding(text);
    assert text[|text| - pad - 1] == text[4..][|text| - 4 - pad - 1];
  }

  lemma QuadWritten(quad: string, last: bool)
    requires |quad| == 4 && DecodeQuad(quad, last).Some?
    ensures EncodeChunk(DecodeQuad(quad, last).value) == quad <==> Spare(quad) == 0
    ensures Padding(quad) <= 2 && |DecodeQuad(quad, last).value| == 3 - Padding(quad) && (!last ==> Padding(quad) == 0)
  {
    hide Value, Alphabet, Spelled, Padding;
    QuadBytes(quad, last);
    var pad := Padding(quad);
    var bytes := DecodeQuad(quad, last).value;
    hide DecodeQuad;
    var a, b := Value(quad[0]).value, Value(quad[1]).value;
    var c := if pad < 2 then Value(quad[2]).value else 0;
    var d := if pad < 1 then Value(quad[3]).value else 0;
    EncodeByValues(bytes);
    SpareBits(a, b, c, d, pad);
    forall n: nat, i | n < 64 && 0 <= i < 4 - pad
      ensures Alphabet(n) == quad[i] <==> n == Value(quad[i]).value
    {
      AlphabetValue(n);
    }
    var written := EncodeChunk(bytes);
    hide EncodeChunk;
    assert forall i :: 4 - pad <= i < 4 ==> quad[i] == '=';
    assert written == quad <==> written[0] == quad[0] && written[1] == quad[1] && written[2] == quad[2] && written[3] == quad[3];
  }

  /** The four sextets of up to three octets. */
  function Sextets(x: nat, y: nat, z: nat): (r: seq<nat>)
    requires x < 256 && y < 256 && z < 256
    ensures |r| == 4 && forall i :: 0 <= i < 4 ==> r[i] < 64
  {
    [x / 4, x % 4 * 16 + y / 16, y % 16 * 4 + z / 64, z % 64]
  }

  lemma EncodeByValues(chunk: seq<Byte>)
    requires 1 <= |chunk| <= 3
    ensures var s := Sextets(chunk[0], if |chunk| > 1 then chunk[1] else 0, if |chunk| > 2 then chunk[2] else 0);
            EncodeChunk(chunk) == [Alphabet(s[0]), Alphabet(s[1]), if |chunk| > 1 then Alphabet(s[2]) else '=',
                                   if |chunk| > 2 then Alphabet(s[3]) else '=']
  {
    hide Alphabet;
    FourSextets(chunk[0], if |chunk| > 1 then chunk[1] else 0, if |chunk| > 2 then chunk[2] else 0);
  }

  /** Regrouping there and back keeps every sextet but the spare bits of the last one. */
  lemma SpareBits(a: nat, b: nat, c: nat, d: nat, pad: nat)
    requires a < 64 && b < 64 && c < 64 && d < 64 && pad <= 2
    ensures var bytes := Regrouped(a, b, c, d)[..3 - pad];
            var s := Sextets(bytes[0], if pad < 2 then bytes[1] else 0, if pad < 1 then bytes[2] else 0);
            && s[0] == a
            && (pad == 2 ==> (s[1] == b <==> b % 16 == 0))
            && (pad < 2 ==> s[1] == b)
            && (pad == 1 ==> (s[2] == c <==> c % 4 == 0))
            && (pad < 1 ==> s[2] == c && s[3] == d)
  {
  }

  /** The bytes of an accepted quad from its characters' values. */
  lemma QuadBytes(quad: string, last: bool)
    requires |quad| == 4 && DecodeQuad(quad, last).Some?
    ensures var pad := Padding(quad);
            && (forall i :: 0 <= i < 4 - pad ==> Value(quad[i]).Some?) && pad <= 2 && (!last ==> pad == 0)
            && var a, b := Value(quad[0]).value, Value(quad[1]).value;
            var c := if pad < 2 then Value(quad[2]).value else 0;
            var d := if pad < 1 then Value(quad[3]).value else 0;
            DecodeQuad(quad, last).value == Regrouped(a, b, c, d)[..3 - pad]
  {
    hide Value, Padding, Spelled;
    var pad := Padding(quad);
    SpelledAll(quad[..4 - pad]);
    assert forall i :: 0 <= i < 4 - pad ==> quad[..4 - pad][i] == quad[i];
    var a, b := Value(quad[0]).value, Value(quad[1]).value;
    var c := if pad < 2 then Value(quad[2]).value else 0;
    var d := if pad < 1 then Value(quad[3]).value else 0;
    assert Shifted(Spelled(quad[..4 - pad]).value, pad) == Joined(a, b, c, d) by {
      SpelledQuad(quad);
    }
    hide Shifted, Bytes3, Joined, Regrouped;
    ThreeBytes(a, b, c, d);
  }

  function Joined(a: nat, b: nat, c: nat, d: nat): nat {
    ((a * 64 + b) * 64 + c) * 64 + d
  }

  function Regrouped(a: nat, b: nat, c: nat, d: nat): (r: seq<Byte>)
    requires a < 64 && b < 64 && c < 64 && d < 64
    ensures |r| == 3
  {
    [a * 4 + b / 16, b % 16 * 16 + c / 4, c % 4 * 64 + d]
  }

  /** Four sextets regrouped as three octets. */
  lemma ThreeBytes(a: nat, b: nat, c: nat, d: nat)
    requires a < 64 && b < 64 && c < 64 && d < 64
    ensures Bytes3(Joined(a, b, c, d)) == Regrouped(a, b, c, d)
  {
    var h, l, m, n := b / 16, b % 16, c / 4, c % 4;
    assert b == 16 * h + l && c == 4 * m + n;
    assert ((a * 64 + b) * 64 + c) * 64 + d == (a * 4 + h) * 65536 + (l * 16 + m) * 256 + (n * 64 + d);
    Octets(a * 4 + h, l * 16 + m, n * 64 + d);
  }

  lemma Octets(x: nat, y: nat, z: nat)
    requires x < 256 && y < 256 && z < 256
    ensures Bytes3(x * 65536 + y * 256 + z) == [x, y, z]
  {
    var acc := x * 65536 + y * 256 + z;
    assert acc / 65536 == x;
    assert acc / 256 == x * 256 + y;
  }

  /** Three octets regrouped as four sextets. */
  lemma FourSextets(x: nat, y: nat, z: nat)
    requires x < 256 && y < 256 && z < 256
    ensures var acc: nat := x * 65536 + y * 256 + z;
            && acc / 262144 % 64 == x / 4
            && acc / 4096 % 64 == x % 4 * 16 + y / 16
            && acc / 64 % 64 == y % 16 * 4 + z / 64
            && acc % 64 == z % 64
  {
    var acc: nat := x * 65536 + y * 256 + z;
    var p, q, r := x / 4, x % 4 * 16 + y / 16, y % 16 * 4 + z / 64;
    assert acc == ((p * 64 + q) * 64 + r) * 64 + z % 64;
    assert acc / 64 == (p * 64 + q) * 64 + r;
    assert acc / 4096 == p * 64 + q;
  }
}
