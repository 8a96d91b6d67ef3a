/** Lower-case hexadecimal: the encoder, and the decoder of the journal's and the ownership table's definitions. */
module Hex {
  import opened Wrappers
  import opened Text

  function Nibble(n: nat): (c: char)
    requires n < 16
    ensures NibbleValue(c) == Some(n)
  {
    if n < 10 then ('0' as int + n) as char else ('a' as int + (n - 10)) as char
  }

  /** Either case is read. */
  function NibbleValue(c: char): (r: Option<nat>)
    ensures r.Some? ==> r.value < 16
  {
    if '0' <= c <= '9' then Some(c as int - '0' as int)
    else if 'a' <= c <= 'f' then Some(c as int - 'a' as int + 10)
    else if 'A' <= c <= 'F' then Some(c as int - 'A' as int + 10)
    else None
  }

  function Encode(bytes: seq<Byte>): (r: string)
    ensures |r| == 2 * |bytes|
  {
    if bytes == [] then "" else [Nibble(bytes[0] / 16), Nibble(bytes[0] % 16)] + Encode(bytes[1..])
  }

  /** Pairs of hex digits; None for an odd length or any other character. */
  function Decode(text: string): (r: Option<seq<Byte>>) {
    if text == "" then Some([])
    else if |text| == 1 then None
    else
      var high, low, tail := NibbleValue(text[0]), NibbleValue(text[1]), Decode(text[2..]);
      if high.None? || low.None? || tail.None? then None else Some([high.value * 16 + low.value] + tail.value)
  }

  predicate AllHex(text: string) {
    forall i :: 0 <= i < |text| ==> NibbleValue(text[i]).Some?
  }

  /** The decoder's loop: the whole text is looked at first, then every second offset is read. */
  method Unhex(text: string) returns (r: Option<seq<Byte>>)
    ensures r == Decode(text)
  {
    hide NibbleValue, Decode, AllHex;
    DecodesWhen(text);
    if |text| % 2 != 0 || !AllHex(text) {
      return None;
    }
    var out: seq<Byte> := [];
    var at := 0;
    assert text[0..] == text && [] + Decode(text).value == Decode(text).value;
    while at < |text|
      invariant at <= |text| && at % 2 == 0
      invariant Decode(text[at..]).Some? && Decode(text).value == out + Decode(text[at..]).value
    {
      DecodeStep(text, at);
      var byte: Byte := NibbleValue(text[at]).value * 16 + NibbleValue(text[at + 1]).value;
      assert out + ([byte] + Decode(text[at + 2..]).value) == out + [byte] + Decode(text[at + 2..]).value;
      out, at := out + [byte], at + 2;
    }
    assert text[at..] == "";
    DecodeNothing();
    assert out + [] == out;
    return Some(out);
  }

  lemma DecodeNothing()
    ensures Decode("") == Some([])
  {
  }

  lemma DecodeStep(text: string, at: nat)
    requires at < |text| && |text| % 2 == at % 2 && Decode(text[at..]).Some?
    ensures at + 1 < |text| && NibbleValue(text[at]).Some? && NibbleValue(text[at + 1]).Some? && Decode(text[at + 2..]).Some?
    ensures Decode(text[at..]).value == [NibbleValue(text[at]).value * 16 + NibbleValue(text[at + 1]).value] + Decode(text[at + 2..]).value
  {
    hide NibbleValue;
    assert text[at..][2..] == text[at + 2..];
  }

  lemma {:induction false} DecodesWhen(text: string)
    ensures Decode(text).Some? <==> |text| % 2 == 0 && AllHex(text)
  {
    hide NibbleValue;
    if |text| >= 2 {
      DecodesWhen(text[2..]);
      assert forall i :: 0 <= i < |text| - 2 ==> text[2..][i] == text[i + 2];
      assert AllHex(text) <==> NibbleValue(text[0]).Some? && NibbleValue(text[1]).Some? && AllHex(text[2..]) by {
        if AllHex(text[2..]) && NibbleValue(text[0]).Some? && NibbleValue(text[1]).Some? {
          assert forall i :: 2 <= i < |text| ==> text[i] == text[2..][i - 2];
        }
      }
    } else if |text| == 1 {
    }
  }

  /** Decoding inverts encoding. */
  lemma {:induction false} RoundTrip(bytes: seq<Byte>)
    ensures Decode(Encode(bytes)) == Some(bytes)
  {
    hide Nibble, NibbleValue;
    if bytes != [] {
      RoundTrip(bytes[1..]);
      var text := Encode(bytes);
      assert text[2..] == Encode(bytes[1..]);
      assert bytes == [bytes[0]] + bytes[1..];
    }
  }

  lemma EncodeIsInjective(a: seq<Byte>, b: seq<Byte>)
    requires Encode(a) == Encode(b)
    ensures a == b
  {
    RoundTrip(a);
    RoundTrip(b);
  }

  lemma {:induction false} EncodeIsLower(bytes: seq<Byte>)
    ensures Lower(Encode(bytes)) == Encode(bytes)
  {
    if bytes != [] {
      var head := [Nibble(bytes[0] / 16), Nibble(bytes[0] % 16)];
      EncodeIsLower(bytes[1..]);
      var text := Encode(bytes);
      assert text == head + Encode(bytes[1..]);
      assert forall i :: 0 <= i < |text| ==> Lower(text)[i] == LowerOf(text[i]);
      assert forall i :: 2 <= i < |text| ==> text[i] == Encode(bytes[1..])[i - 2];
      forall i | 0 <= i < |text|
        ensures LowerOf(text[i]) == text[i]
      {
        if i >= 2 {
          assert Lower(Encode(bytes[1..]))[i - 2] == LowerOf(Encode(bytes[1..])[i - 2]);
        }
      }
    }
  }

  /** A hex text is read the same in either case. */
  lemma {:induction false} CaseDoesNotMatter(text: string)
    ensures Decode(Lower(text)) == Decode(text)
  {
    if |text| >= 2 {
      assert Lower(text)[0] == LowerOf(text[0]) && Lower(text)[1] == LowerOf(text[1]);
      LowerTail(text, 2);
      CaseDoesNotMatter(text[2..]);
    }
  }

  lemma {:induction false} LowerTail(text: string, n: nat)
    requires n <= |text|
    ensures Lower(text)[n..] == Lower(text[n..])
  {
    if n == 0 {
      assert text[0..] == text && Lower(text)[0..] == Lower(text);
    } else {
      LowerTail(text[1..], n - 1);
      assert text[1..][n - 1..] == text[n..] && Lower(text)[1..] == Lower(text[1..]);
      assert Lower(text)[1..][n - 1..] == Lower(text)[n..];
    }
  }
}
