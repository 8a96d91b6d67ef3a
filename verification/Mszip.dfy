/** The MSZIP container, its blocks chained through a 32 KiB window, and what the window loses: nothing. */
module Mszip {
  import opened Wrappers
  import opened Text
  import opened LittleEndian

  const MAGIC := 0xC0E5_510A
  const HEADER_LEN := 24
  const WINDOW := 32768
  const MAX_BLOCK_LEN := 0x10_0000
  const SIGNATURE: Bytes := ['C' as int, 'K' as int]

  // ---- LZ77 ----

  /** Section 3.2.5 of RFC 1951: how far back a copy can reach. */
  type Distance = d: nat | 1 <= d <= WINDOW witness 1

  /** What a DEFLATE stream is made of once its bits are read: a byte, or a copy of earlier output. */
  datatype Token = Literal(byte: Byte) | Match(length: nat, distance: Distance)

  function Copy(out: Bytes, distance: nat, length: nat): Bytes
    requires 1 <= distance <= |out|
    decreases length
  {
    if length == 0 then out else Copy(out + [out[|out| - distance]], distance, length - 1)
  }

  /** The output after one token; nothing when it reaches further back than there is output. */
  function Step(token: Token, out: Bytes): Option<Bytes> {
    match token
    case Literal(b) => Some(out + [b])
    case Match(length, distance) => if distance <= |out| then Some(Copy(out, distance, length)) else None
  }

  /** The output of a token stream over all the output before it. */
  function Expand(tokens: seq<Token>, out: Bytes): Option<Bytes> {
    if tokens == [] then Some(out)
    else
      var next := Step(tokens[0], out);
      if next.None? then None else Expand(tokens[1..], next.value)
  }

  /** A stream's tokens, or None when its bits are not a DEFLATE stream. */
  type Inflater = Bytes -> Option<seq<Token>>

  lemma {:induction false} CopyGrows(out: Bytes, distance: nat, length: nat)
    requires 1 <= distance <= |out|
    ensures |Copy(out, distance, length)| == |out| + length && out <= Copy(out, distance, length)
    decreases length
  {
    if length > 0 {
      CopyGrows(out + [out[|out| - distance]], distance, length - 1);
    }
  }

  /** A copy is what stands `distance` bytes before each of its bytes, those it has written itself included. */
  lemma {:induction false} CopyRepeats(out: Bytes, distance: nat, length: nat)
    requires 1 <= distance <= |out|
    ensures var r := Copy(out, distance, length);
            |r| == |out| + length && r[..|out|] == out && forall k :: |out| <= k < |r| ==> r[k] == r[k - distance]
    decreases length
  {
    if length > 0 {
      var next := out + [out[|out| - distance]];
      CopyRepeats(next, distance, length - 1);
      var r := Copy(out, distance, length);
      assert r[..|next|] == next;
      assert next[..|out|] == out && r[..|out|] == next[..|out|];
      assert r[|out|] == next[|out|] && r[|out| - distance] == next[|out| - distance];
    }
  }

  /** What a token adds: its byte, or a copy reaching back `distance` bytes, which there must be. */
  lemma StepMeans(token: Token, out: Bytes)
    ensures var r := Step(token, out);
            match token
            case Literal(b) => r == Some(out + [b])
            case Match(length, distance) =>
              && (r.Some? <==> distance <= |out|)
              && (r.Some? ==> |r.value| == |out| + length && r.value[..|out|] == out
                              && forall k :: |out| <= k < |r.value| ==> r.value[k] == r.value[k - distance])
  {
    if token.Match? && token.distance <= |out| {
      CopyRepeats(out, token.distance, token.length);
    }
  }

  lemma {:induction false} ExpandGrows(tokens: seq<Token>, out: Bytes)
    requires Expand(tokens, out).Some?
    ensures out <= Expand(tokens, out).value
  {
    if tokens != [] {
      var token := tokens[0];
      if token.Match? {
        CopyGrows(out, token.distance, token.length);
      }
      ExpandGrows(tokens[1..], Step(token, out).value);
    }
  }

  lemma {:induction false} ExpandAppend(a: seq<Token>, b: seq<Token>, out: Bytes)
    ensures Expand(a + b, out) == if Expand(a, out).None? then None else Expand(b, Expand(a, out).value)
  {
    if a == [] {
      assert a + b == b;
    } else {
      assert (a + b)[1..] == a[1..] + b && (a + b)[0] == a[0];
      if Step(a[0], out).Some? {
        ExpandAppend(a[1..], b, Step(a[0], out).value);
      }
    }
  }

  // ---- the window is enough ----

  /** `recent` is all of the history, or at least a window of it. */
  predicate Suffices(older: Bytes, recent: Bytes) {
    older == [] || |recent| >= WINDOW
  }

  lemma {:induction false} CopyShift(older: Bytes, recent: Bytes, distance: nat, length: nat)
    requires 1 <= distance <= |recent|
    ensures Copy(older + recent, distance, length) == older + Copy(recent, distance, length)
    decreases length
  {
    if length > 0 {
      var c := recent[|recent| - distance];
      assert (older + recent)[|older + recent| - distance] == c;
      assert older + recent + [c] == older + (recent + [c]);
      CopyShift(older, recent + [c], distance, length - 1);
    }
  }

  lemma StepShift(token: Token, older: Bytes, recent: Bytes)
    requires Suffices(older, recent)
    ensures Step(token, older + recent).Some? <==> Step(token, recent).Some?
    ensures Step(token, recent).Some? ==>
              Step(token, older + recent).value == older + Step(token, recent).value && Suffices(older, Step(token, recent).value)
  {
    if token.Literal? {
      assert older + recent + [token.byte] == older + (recent + [token.byte]);
    } else if token.distance <= |recent| {
      CopyShift(older, recent, token.distance, token.length);
      CopyGrows(recent, token.distance, token.length);
    }
  }

  /** Decoding with a window of the history gives what decoding with all of it gives. */
  lemma {:induction false} WindowSuffices(tokens: seq<Token>, older: Bytes, recent: Bytes)
    requires Suffices(older, recent)
    ensures Expand(tokens, older + recent).Some? <==> Expand(tokens, recent).Some?
    ensures Expand(tokens, recent).Some? ==> Expand(tokens, older + recent).value == older + Expand(tokens, recent).value
  {
    if tokens != [] {
      StepShift(tokens[0], older, recent);
      hide Step, Suffices;
      if Step(tokens[0], recent).Some? {
        WindowSuffices(tokens[1..], older, Step(tokens[0], recent).value);
      }
    }
  }

  // ---- the container ----

  datatype Refusal =
    | BadMagic
    | BadHeaderLength
    | TruncatedHeader
    | TooLong
    | ImplausibleBlockLength
    | TruncatedBlockLength
    | TruncatedBlock
    | NoSignature
    | DoesNotInflate
    | BlockTooLarge
    | OutputTooLong
    | WrongLength

  /** What one block adds to `out`, decoded over everything before it. The output buffer has a byte to spare. */
  function Block(stream: Bytes, out: Bytes, blockLen: nat, inflater: Inflater): Result<Bytes, Refusal> {
    var tokens := inflater(stream);
    if tokens.None? then Err(DoesNotInflate)
    else
      var next := Expand(tokens.value, out);
      if next.None? then Err(DoesNotInflate)
      else if |next.value| > |out| + blockLen + 1 then Err(BlockTooLarge) else Ok(next.value)
  }

  /** The blocks from `at` on, appended to `out` one after the other. */
  function Blocks(data: Bytes, at: nat, out: Bytes, blockLen: nat, declared: nat, inflater: Inflater): Result<Bytes, Refusal>
    decreases |data| - at
  {
    if at >= |data| then if |out| == declared then Ok(out) else Err(WrongLength)
    else
      var length := Le(data, at, 4);
      if length.None? then Err(TruncatedBlockLength)
      else if at + 4 + length.value > |data| then Err(TruncatedBlock)
      else
        var block := data[at + 4..at + 4 + length.value];
        if !(SIGNATURE <= block) then Err(NoSignature)
        else
          var next := Block(block[2..], out, blockLen, inflater);
          if next.Err? then next
          else if |next.value| > declared then Err(OutputTooLong)
          else Blocks(data, at + 4 + length.value, next.value, blockLen, declared, inflater)
  }

  datatype Header = Header(start: nat, declared: nat, blockLen: nat)

  function HeaderOf(data: Bytes, maxLen: nat): Result<Header, Refusal> {
    var headerLen, declared, blockLen := Le(data, 4, 2), Le(data, 8, 8), Le(data, 16, 8);
    if Le(data, 0, 4) != Some(MAGIC) then Err(BadMagic)
    else if headerLen.None? || headerLen.value < HEADER_LEN then Err(BadHeaderLength)
    else if declared.None? || blockLen.None? then Err(TruncatedHeader)
    else if declared.value > maxLen then Err(TooLong)
    else if blockLen.value == 0 || blockLen.value > MAX_BLOCK_LEN then Err(ImplausibleBlockLength)
    else Ok(Header(headerLen.value, declared.value, blockLen.value))
  }

  /** The reference: the header, then every block decoded over the whole output before it. */
  function Unpacked(data: Bytes, maxLen: nat, inflater: Inflater): Result<Bytes, Refusal> {
    var header := HeaderOf(data, maxLen);
    if header.Err? then Err(header.error)
    else Blocks(data, header.value.start, [], header.value.blockLen, header.value.declared, inflater)
  }

  /** One block inflated into a fresh buffer, given the dictionary. */
  function Chunk(stream: Bytes, dictionary: Bytes, blockLen: nat, inflater: Inflater): Result<Bytes, Refusal> {
    var tokens := inflater(stream);
    if tokens.None? then Err(DoesNotInflate)
    else
      var whole := Expand(tokens.value, dictionary);
      if whole.None? then Err(DoesNotInflate)
      else if |whole.value| > |dictionary| + blockLen + 1 then Err(BlockTooLarge)
      else
        ExpandGrows(tokens.value, dictionary);
        Ok(whole.value[|dictionary|..])
  }

  lemma ChunkExtends(stream: Bytes, out: Bytes, start: nat, blockLen: nat, inflater: Inflater)
    requires start == if |out| > WINDOW then |out| - WINDOW else 0
    ensures var chunk := Chunk(stream, out[start..], blockLen, inflater);
            Block(stream, out, blockLen, inflater) == if chunk.Err? then chunk else Ok(out + chunk.value)
  {
    var tokens := inflater(stream);
    if tokens.Some? {
      var older, recent := out[..start], out[start..];
      assert older + recent == out;
      WindowSuffices(tokens.value, older, recent);
      var whole := Expand(tokens.value, recent);
      if whole.Some? {
        ExpandGrows(tokens.value, recent);
        assert whole.value == recent + whole.value[|recent|..];
        assert older + (recent + whole.value[|recent|..]) == out + whole.value[|recent|..];
      }
    }
  }

  /** The decompressor's own loop: a dictionary of at most 32 KiB for every block after the first. */
  method Decompress(data: Bytes, maxLen: nat, inflater: Inflater) returns (r: Result<Bytes, Refusal>)
    ensures r == Unpacked(data, maxLen, inflater)
  {
    var header := HeaderOf(data, maxLen);
    if header.Err? {
      return Err(header.error);
    }
    var declared, blockLen := header.value.declared, header.value.blockLen;
    var out: Bytes, at, first := [], header.value.start, true;
    hide HeaderOf, Block, Chunk, Le;
    while at < |data|
      invariant Unpacked(data, maxLen, inflater) == Blocks(data, at, out, blockLen, declared, inflater)
      invariant first ==> out == []
      decreases |data| - at
    {
      var length := Le(data, at, 4);
      if length.None? {
        return Err(TruncatedBlockLength);
      }
      at := at + 4;
      if at + length.value > |data| {
        return Err(TruncatedBlock);
      }
      var block := data[at..at + length.value];
      at := at + length.value;
      if |block| < 2 || block[..2] != SIGNATURE {
        return Err(NoSignature);
      }
      var dictionary := [];
      ghost var start := if |out| > WINDOW then |out| - WINDOW else 0;
      if !first {
        dictionary := out[if |out| > WINDOW then |out| - WINDOW else 0..];
      }
      first := false;
      assert dictionary == out[start..];
      ChunkExtends(block[2..], out, start, blockLen, inflater);
      var chunk := Chunk(block[2..], dictionary, blockLen, inflater);
      if chunk.Err? {
        return chunk;
      }
      out := out + chunk.value;
      if |out| > declared {
        return Err(OutputTooLong);
      }
    }
    if |out| != declared {
      return Err(WrongLength);
    }
    return Ok(out);
  }

  // ---- what an accepted buffer decodes to ----

  /** The token streams of the framed blocks from `at` on, one after the other. */
  function AllTokens(data: Bytes, at: nat, inflater: Inflater): seq<Token>
    decreases |data| - at
  {
    var length := Le(data, at, 4);
    if length.None? || at + 4 + length.value > |data| || length.value < 2 then []
    else
      var tokens := inflater(data[at + 6..at + 4 + length.value]);
      if tokens.None? then [] else tokens.value + AllTokens(data, at + 4 + length.value, inflater)
  }

  lemma {:induction false} BlocksExpand(data: Bytes, at: nat, out: Bytes, blockLen: nat, declared: nat, inflater: Inflater)
    requires Blocks(data, at, out, blockLen, declared, inflater).Ok?
    ensures var r := Blocks(data, at, out, blockLen, declared, inflater).value;
            |r| == declared && Expand(AllTokens(data, at, inflater), out) == Some(r)
    decreases |data| - at
  {
    if at < |data| {
      var length := Le(data, at, 4).value;
      var block := data[at + 4..at + 4 + length];
      var next := Block(block[2..], out, blockLen, inflater).value;
      var stream := data[at + 6..at + 4 + length];
      assert block[2..] == stream;
      hide Le;
      BlocksExpand(data, at + 4 + length, next, blockLen, declared, inflater);
      ExpandAppend(inflater(stream).value, AllTokens(data, at + 4 + length, inflater), out);
    }
  }

  /**
   An accepted buffer has the magic number, a header no shorter than the format's and a block length up to a mebibyte, and is
   one long token stream decoded over the whole history, of exactly the declared length.
   */
  lemma AcceptedIsOneStream(data: Bytes, maxLen: nat, inflater: Inflater)
    requires Unpacked(data, maxLen, inflater).Ok?
    ensures var out := Unpacked(data, maxLen, inflater).value;
            && Le(data, 0, 4) == Some(0xC0E5_510A) && Le(data, 4, 2).Some? && Le(data, 4, 2).value >= 24
            && Le(data, 16, 8).Some? && 1 <= Le(data, 16, 8).value <= 0x10_0000
            && Some(|out|) == Le(data, 8, 8) && |out| <= maxLen
            && Expand(AllTokens(data, Or(Le(data, 4, 2), 0), inflater), []) == Some(out)
  {
    var header := HeaderOf(data, maxLen).value;
    BlocksExpand(data, header.start, [], header.blockLen, header.declared, inflater);
  }

  // ---- the buffer a splitter writes ----

  function Frame(stream: Bytes): Bytes {
    ToLe(|stream| + 2, 4) + (SIGNATURE + stream)
  }

  function Least(a: nat, b: nat): nat {
    if a < b then a else b
  }

  /** The input cut into pieces of `step` bytes, each compressed after the ones before it. */
  function Frames(input: Bytes, history: Bytes, step: nat, compress: (Bytes, Bytes) -> Bytes): Bytes
    requires step > 0
    decreases input
  {
    if input == [] then []
    else
      var n := Least(step, |input|);
      Frame(compress(history, input[..n])) + Frames(input[n..], history + input[..n], step, compress)
  }

  /** Each stream that is framed is short enough for its length field and decodes, after the ones before it, to its piece. */
  ghost predicate Compresses(input: Bytes, history: Bytes, step: nat, compress: (Bytes, Bytes) -> Bytes, inflater: Inflater)
    requires step > 0
    decreases input
  {
    input == [] ||
    (var n := Least(step, |input|);
     Decodes(compress(history, input[..n]), history, input[..n], inflater) &&
     Compresses(input[n..], history + input[..n], step, compress, inflater))
  }

  ghost predicate Decodes(stream: Bytes, history: Bytes, chunk: Bytes, inflater: Inflater) {
    && |stream| + 2 < 0x1_0000_0000
    && inflater(stream).Some?
    && Expand(inflater(stream).value, history) == Some(history + chunk)
  }

  function Start(declared: nat, blockLen: nat): (r: Bytes)
    ensures |r| == HEADER_LEN
  {
    ToLe(MAGIC, 4) + ToLe(HEADER_LEN, 2) + ToLe(0, 2) + ToLe(declared, 8) + ToLe(blockLen, 8)
  }

  function Pack(input: Bytes, step: nat, blockLen: nat, compress: (Bytes, Bytes) -> Bytes): Bytes
    requires step > 0
  {
    Start(|input|, blockLen) + Frames(input, [], step, compress)
  }

  lemma StartParts(declared: nat, blockLen: nat)
    ensures var r := Start(declared, blockLen);
            r[0..4] == ToLe(MAGIC, 4) && r[4..6] == ToLe(HEADER_LEN, 2) && r[8..16] == ToLe(declared, 8) && r[16..24] == ToLe(blockLen, 8)
  {
  }

  lemma HeaderIsRead(declared: nat, blockLen: nat, rest: Bytes, maxLen: nat)
    requires declared < 0x1_0000_0000_0000_0000 && 1 <= blockLen <= MAX_BLOCK_LEN && declared <= maxLen
    ensures HeaderOf(Start(declared, blockLen) + rest, maxLen) == Ok(Header(HEADER_LEN, declared, blockLen))
  {
    var start := Start(declared, blockLen);
    var data := start + rest;
    Powers();
    StartParts(declared, blockLen);
    hide Start, ToLe, Power, Le;
    assert Holds(data, 0, start);
    Embedded(data, 0, start, 0, 4);
    Embedded(data, 0, start, 4, 6);
    Embedded(data, 0, start, 8, 16);
    Embedded(data, 0, start, 16, 24);
    LeOf(data, 0, MAGIC, 4);
    LeOf(data, 4, HEADER_LEN, 2);
    LeOf(data, 8, declared, 8);
    LeOf(data, 16, blockLen, 8);
  }

  lemma FrameIsRead(data: Bytes, at: nat, stream: Bytes)
    requires Holds(data, at, Frame(stream)) && |stream| + 2 < 0x1_0000_0000
    ensures Le(data, at, 4) == Some(|stream| + 2) && at + 4 + |stream| + 2 <= |data|
    ensures data[at + 4..at + 4 + |stream| + 2] == SIGNATURE + stream
  {
    Powers();
    var length, body := ToLe(|stream| + 2, 4), SIGNATURE + stream;
    HoldsBoth(data, at, length, body);
    hide Power, ToLe, Frame, Le;
    LeOf(data, at, |stream| + 2, 4);
  }

  lemma BlocksStep(data: Bytes, at: nat, stream: Bytes, out: Bytes, blockLen: nat, declared: nat, inflater: Inflater)
    requires Le(data, at, 4) == Some(|stream| + 2) && at + 4 + |stream| + 2 <= |data|
    requires data[at + 4..at + 4 + |stream| + 2] == SIGNATURE + stream
    ensures var next := Block(stream, out, blockLen, inflater);
            Blocks(data, at, out, blockLen, declared, inflater) ==
            if next.Err? then next
            else if |next.value| > declared then Err(OutputTooLong)
            else Blocks(data, at + |stream| + 6, next.value, blockLen, declared, inflater)
  {
    assert (SIGNATURE + stream)[2..] == stream && SIGNATURE <= SIGNATURE + stream;
    hide Le, Block;
  }

  /** Whether pieces of `step` bytes of the input fit the declared block length. */
  function Fitting(input: Bytes, step: nat, blockLen: nat, out: Bytes): Result<Bytes, Refusal> {
    if step <= blockLen + 1 || |input| <= blockLen + 1 then Ok(out) else Err(BlockTooLarge)
  }

  lemma FittingStep(input: Bytes, step: nat, blockLen: nat, out: Bytes)
    ensures var n := Least(step, |input|);
            Fitting(input, step, blockLen, out) ==
            if n <= blockLen + 1 then Fitting(input[n..], step, blockLen, out) else Err(BlockTooLarge)
  {
  }

  lemma {:induction false} FramesAreRead(data: Bytes, at: nat, input: Bytes, history: Bytes, whole: Bytes, step: nat, blockLen: nat,
                                         compress: (Bytes, Bytes) -> Bytes, inflater: Inflater)
    requires 0 < step && Compresses(input, history, step, compress, inflater) && whole == history + input
    requires at + |Frames(input, history, step, compress)| == |data| && Holds(data, at, Frames(input, history, step, compress))
    ensures Blocks(data, at, history, blockLen, |whole|, inflater) == Fitting(input, step, blockLen, whole)
    decreases input
  {
    hide *;
    if input == [] {
      FramesEnd(data, at, history, step, blockLen, compress, inflater);
      assert whole == history;
    } else {
      var n := Least(step, |input|);
      FramesUnfold(input, history, step, compress, inflater);
      Rejoin(history, input, n);
      FittingStep(input, step, blockLen, whole);
      var chunk, rest := input[..n], input[n..];
      var stream := compress(history, chunk);
      HoldsBoth(data, at, Frame(stream), Frames(rest, history + chunk, step, compress));
      FrameIsRead(data, at, stream);
      BlocksStep(data, at, stream, history, blockLen, |whole|, inflater);
      BlockOf(stream, history, chunk, blockLen, inflater);
      if n <= blockLen + 1 {
        FramesAreRead(data, at + |stream| + 6, rest, history + chunk, whole, step, blockLen, compress, inflater);
      }
    }
  }

  lemma FramesEnd(data: Bytes, at: nat, history: Bytes, step: nat, blockLen: nat, compress: (Bytes, Bytes) -> Bytes, inflater: Inflater)
    requires step > 0 && at + |Frames([], history, step, compress)| == |data|
    ensures Blocks(data, at, history, blockLen, |history|, inflater) == Fitting([], step, blockLen, history)
  {
    hide Le, Block;
  }

  lemma FramesUnfold(input: Bytes, history: Bytes, step: nat, compress: (Bytes, Bytes) -> Bytes, inflater: Inflater)
    requires input != [] && step > 0 && Compresses(input, history, step, compress, inflater)
    ensures var n := Least(step, |input|);
            var stream := compress(history, input[..n]);
            && 0 < n <= |input| && |stream| + 2 < 0x1_0000_0000 && |Frame(stream)| == |stream| + 6
            && Decodes(stream, history, input[..n], inflater)
            && Compresses(input[n..], history + input[..n], step, compress, inflater)
            && Frames(input, history, step, compress) == Frame(stream) + Frames(input[n..], history + input[..n], step, compress)
  {
  }

  lemma Rejoin(history: Bytes, input: Bytes, n: nat)
    requires n <= |input|
    ensures history + input == history + input[..n] + input[n..] && |history + input[..n]| <= |history + input|
  {
  }

  lemma BlockOf(stream: Bytes, history: Bytes, chunk: Bytes, blockLen: nat, inflater: Inflater)
    requires Decodes(stream, history, chunk, inflater)
    ensures Block(stream, history, blockLen, inflater) ==
            if |chunk| <= blockLen + 1 then Ok(history + chunk) else Err(BlockTooLarge)
  {
  }

  /**
   The decompressor inverts any splitter whose pieces have at most one byte more than the declared block length, and
   no other: the refusal of a block larger than its declared length starts one byte late.
   */
  lemma UnpackInvertsPack(input: Bytes, step: nat, blockLen: nat, maxLen: nat, compress: (Bytes, Bytes) -> Bytes, inflater: Inflater)
    requires step > 0 && Compresses(input, [], step, compress, inflater) && 1 <= blockLen <= MAX_BLOCK_LEN
    requires |input| <= maxLen && |input| < 0x1_0000_0000_0000_0000
    ensures Unpacked(Pack(input, step, blockLen, compress), maxLen, inflater) == Fitting(input, step, blockLen, input)
  {
    var frames := Frames(input, [], step, compress);
    var data := Start(|input|, blockLen) + frames;
    assert data == Pack(input, step, blockLen, compress);
    hide HeaderOf, Start, Blocks, Frames, Compresses, Holds, Pack;
    HeaderIsRead(|input|, blockLen, frames, maxLen);
    assert Unpacked(data, maxLen, inflater) == Blocks(data, HEADER_LEN, [], blockLen, |input|, inflater);
    hide Unpacked;
    HoldsLast(Start(|input|, blockLen), frames);
    FramesAreRead(data, HEADER_LEN, input, [], input, step, blockLen, compress, inflater);
  }

  // ---- a compressor there is ----

  function Literals(chunk: Bytes): seq<Token> {
    if chunk == [] then [] else [Literal(chunk[0])] + Literals(chunk[1..])
  }

  /** Every byte as a literal, whatever came before; the stream is the bytes themselves. */
  function Stored(history: Bytes, chunk: Bytes): Bytes {
    chunk
  }

  function StoredTokens(stream: Bytes): Option<seq<Token>> {
    Some(Literals(stream))
  }

  lemma {:induction false} LiteralsExpand(chunk: Bytes, out: Bytes)
    ensures Expand(Literals(chunk), out) == Some(out + chunk)
  {
    if chunk == [] {
      assert out + chunk == out;
    } else {
      var b, rest := chunk[0], chunk[1..];
      LiteralsExpand(rest, out + [b]);
      hide Expand;
      LiteralExpands(b, Literals(rest), out);
      assert out + [b] + rest == out + ([b] + rest) && [b] + rest == chunk;
    }
  }

  lemma LiteralExpands(b: Byte, tokens: seq<Token>, out: Bytes)
    ensures Expand([Literal(b)] + tokens, out) == Expand(tokens, out + [b])
  {
    assert ([Literal(b)] + tokens)[1..] == tokens;
  }

  /** Storing compresses every input, in pieces of any length that fits the length field. */
  lemma {:induction false} StoredCompresses(input: Bytes, history: Bytes, step: nat)
    requires 0 < step < 0xffff_fffe
    ensures Compresses(input, history, step, Stored, StoredTokens)
    decreases input
  {
    if input != [] {
      var n := Least(step, |input|);
      LiteralsExpand(input[..n], history);
      StoredCompresses(input[n..], history + input[..n], step);
    }
  }

  /** One stored block of any length: accepted up to one byte more than declared, and from two more on refused. */
  lemma OneByteMoreIsAccepted(input: Bytes, blockLen: nat)
    requires 0 < |input| < 0xffff_fffe && 1 <= blockLen <= MAX_BLOCK_LEN
    ensures Unpacked(Pack(input, |input|, blockLen, Stored), |input|, StoredTokens) ==
            if |input| <= blockLen + 1 then Ok(input) else Err(BlockTooLarge)
  {
    hide Unpacked, Pack, Compresses;
    StoredCompresses(input, [], |input|);
    UnpackInvertsPack(input, |input|, blockLen, |input|, Stored, StoredTokens);
  }

  /** The shortest such block: two bytes where one is declared. */
  lemma TwoBytesWhereOneIsDeclared()
    ensures Unpacked(Pack([7, 9], 2, 1, Stored), 2, StoredTokens) == Ok([7, 9])
    ensures Unpacked(Pack([7, 9, 11], 3, 1, Stored), 3, StoredTokens) == Err(BlockTooLarge)
  {
    hide Unpacked, Pack;
    OneByteMoreIsAccepted([7, 9], 1);
    OneByteMoreIsAccepted([7, 9, 11], 1);
  }
}
