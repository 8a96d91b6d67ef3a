/** The signed block map: the check of a file's bytes against it, and the map that lists them. */
module BlockMap {
  import opened Wrappers
  import opened Text
  import opened Catalog
  import opened Xml
  import Base64

  const BLOCK_LEN := 65536
  const HASH_LEN := 32
  const U64_MAX := 0xFFFF_FFFF_FFFF_FFFF

  type Sha256 = seq<Byte> -> seq<Byte>

  // ---- the check ----

  function Chunks(bytes: seq<Byte>): seq<seq<Byte>> {
    if bytes == [] then []
    else if |bytes| <= BLOCK_LEN then [bytes]
    else [bytes[..BLOCK_LEN]] + Chunks(bytes[BLOCK_LEN..])
  }

  function Digests(chunks: seq<seq<Byte>>, sha: Sha256): seq<seq<Byte>> {
    seq(|chunks|, i requires 0 <= i < |chunks| => sha(chunks[i]))
  }

  function BlockHash(block: Element): Option<seq<Byte>> {
    match Attribute(block.attributes, "Hash")
    case Ok(Some(text)) =>
      var hash := Base64.Decode(text);
      if hash.Some? && |hash.value| == HASH_LEN then hash else None
    case _ => None
  }

  function BlockHashes(blocks: seq<Element>): Option<seq<seq<Byte>>> {
    if blocks == [] then Some([])
    else
      var head, tail := BlockHash(blocks[0]), BlockHashes(blocks[1..]);
      if head.None? || tail.None? then None else Some([head.value] + tail.value)
  }

  /** A ZIP entry name as the block map writes it. */
  function Listed(name: string): string {
    Replace(name, "/", "\\")
  }

  /** The one element named `wanted`; malformed attributes before it, or a second one, are refused. */
  function Pick(elements: seq<Element>, wanted: string, found: Option<Element>): Result<Option<Element>, Reason> {
    if elements == [] then Ok(found)
    else
      match Attribute(elements[0].attributes, "Name")
      case Err(e) => Err(e)
      case Ok(name) =>
        if name != Some(wanted) then Pick(elements[1..], wanted, found)
        else if found.Some? then Err(CatalogIntegrityFailure)
        else Pick(elements[1..], wanted, Some(elements[0]))
  }

  function SizeOf(file: Element): Option<nat> {
    match Attribute(file.attributes, "Size")
    case Ok(Some(text)) => ParseUnsigned(text, U64_MAX)
    case _ => None
  }

  /** Whether a `<File>` element describes exactly these bytes, as far as the hash tells. */
  predicate Describes(file: Element, bytes: seq<Byte>, sha: Sha256) {
    SizeOf(file) == Some(|bytes|) && BlockHashes(Elements(file.body, "Block")) == Some(Digests(Chunks(bytes), sha))
  }

  predicate Accepts(blockMap: string, name: string, bytes: seq<Byte>, sha: Sha256) {
    var picked := Pick(Elements(StripComments(blockMap), "File"), Listed(name), None);
    picked.Ok? && picked.value.Some? && Describes(picked.value.value, bytes, sha)
  }

  method PickLoop(elements: seq<Element>, wanted: string) returns (r: Result<Option<Element>, Reason>)
    ensures r == Pick(elements, wanted, None)
  {
    var found: Option<Element> := None;
    assert elements[0..] == elements;
    for i := 0 to |elements|
      invariant Pick(elements, wanted, None) == Pick(elements[i..], wanted, found)
    {
      assert elements[i..][1..] == elements[i + 1..];
      var name := AttributeLoop(elements[i].attributes, "Name");
      if name.Err? {
        return Err(name.error);
      }
      if name.value == Some(wanted) {
        if found.Some? {
          return Err(CatalogIntegrityFailure);
        }
        found := Some(elements[i]);
      }
    }
    return Ok(found);
  }

  /** Checks `bytes` against the map's element for `name`; the refusal, if any, is an integrity failure. */
  method VerifyBlockMap(blockMap: string, name: string, bytes: seq<Byte>, sha: Sha256) returns (refusal: Option<Reason>)
    ensures refusal == if Accepts(blockMap, name, bytes, sha) then None else Some(CatalogIntegrityFailure)
  {
    hide Pick, Elements, StripComments, Attribute, Base64.Decode, Chunks;
    var stripped := StripCommentsLoop(blockMap);
    var elements := ElementsLoop(stripped, "File");
    var picked := PickLoop(elements, Listed(name));
    PickFails(elements, Listed(name), None);
    if picked.Err? {
      return Some(picked.error);
    }
    if picked.value.None? {
      return Some(CatalogIntegrityFailure);
    }
    var file := picked.value.value;
    if SizeOf(file) != Some(|bytes|) {
      return Some(CatalogIntegrityFailure);
    }
    var blocks := ElementsLoop(file.body, "Block");
    var hashes := BlockHashes(blocks);
    var chunks := Chunks(bytes);
    if hashes.None? || |hashes.value| != |chunks| {
      return Some(CatalogIntegrityFailure);
    }
    for number := 0 to |chunks|
      invariant forall i :: 0 <= i < number ==> hashes.value[i] == Digests(chunks, sha)[i]
    {
      if sha(chunks[number]) != hashes.value[number] {
        assert hashes.value[number] != Digests(chunks, sha)[number];
        return Some(CatalogIntegrityFailure);
      }
    }
    assert hashes.value == Digests(chunks, sha);
    return None;
  }

  lemma {:induction false} PickFails(elements: seq<Element>, wanted: string, found: Option<Element>)
    ensures Pick(elements, wanted, found).Err? ==> Pick(elements, wanted, found).error == CatalogIntegrityFailure
  {
    if elements != [] {
      AttributeFails(TrimStart(elements[0].attributes), "Name", None);
      PickFails(elements[1..], wanted, found);
      PickFails(elements[1..], wanted, Some(elements[0]));
    }
  }

  lemma {:induction false} AttributeFails(rest: string, name: string, found: Option<string>)
    ensures AttributeFrom(rest, name, found).Err? ==> AttributeFrom(rest, name, found).error == CatalogIntegrityFailure
    decreases |rest|
  {
    hide NextAttribute, DecodeEntities;
    if rest != "" && rest != "/" && NextAttribute(rest).Some? {
      var read := NextAttribute(rest).value;
      AttributeFails(read.rest, name, found);
      AttributeFails(read.rest, name, Some(DecodeEntities(read.text)));
    }
  }

  // ---- what the check accepts ----

  /** The entry's name as the map writes it, with backslashes for slashes. */
  ghost predicate IsListed(name: string, listed: string) {
    |listed| == |name| && forall i :: 0 <= i < |name| ==> listed[i] == if name[i] == '/' then '\\' else name[i]
  }

  /** Element `k` is the only one of that name, and the name of every element can be read. */
  ghost predicate IsOnly(elements: seq<Element>, k: nat, listed: string) {
    && k < |elements| && Attribute(elements[k].attributes, "Name") == Ok(Some(listed))
    && forall j :: 0 <= j < |elements| && j != k ==>
         Attribute(elements[j].attributes, "Name").Ok? && Attribute(elements[j].attributes, "Name") != Ok(Some(listed))
  }

  /** A block element holds the hash of the chunk, in base64. */
  ghost predicate IsBlockOf(block: Element, chunk: seq<Byte>, sha: Sha256) {
    exists text :: Attribute(block.attributes, "Hash") == Ok(Some(text)) && Base64.Decode(text) == Some(sha(chunk))
  }

  ghost predicate AreBlocksOf(blocks: seq<Element>, chunks: seq<seq<Byte>>, sha: Sha256) {
    |blocks| == |chunks| && forall k :: 0 <= k < |blocks| ==> IsBlockOf(blocks[k], chunks[k], sha)
  }

  /** A file element gives the size of the bytes and, block by block, the hashes of their 64 KiB chunks. */
  ghost predicate IsFileOf(file: Element, bytes: seq<Byte>, sha: Sha256) {
    && (exists text :: Attribute(file.attributes, "Size") == Ok(Some(text)) && ParseUnsigned(text, U64_MAX) == Some(|bytes|))
    && AreBlocksOf(Elements(file.body, "Block"), Chunks(bytes), sha)
  }

  ghost predicate IsEntry(elements: seq<Element>, name: string, bytes: seq<Byte>, sha: Sha256, k: nat, listed: string) {
    k < |elements| && IsListed(name, listed) && IsOnly(elements, k, listed) && IsFileOf(elements[k], bytes, sha)
  }

  /** One element, and one alone, is of that name, and it describes the bytes. */
  ghost predicate ListsOnce(elements: seq<Element>, name: string, bytes: seq<Byte>, sha: Sha256) {
    exists k: nat, listed :: IsEntry(elements, name, bytes, sha, k, listed)
  }

  lemma {:induction false} ListedIs(name: string)
    ensures IsListed(name, Listed(name))
  {
    if name != "" {
      ListedIs(name[1..]);
      assert "/" == ['/'] && "\\" == ['\\'];
      assert ("/" <= name) == (name[0] == '/');
      assert Listed(name) == [if name[0] == '/' then '\\' else name[0]] + Listed(name[1..]);
    }
  }

  lemma ListedIsOne(name: string, listed: string)
    requires IsListed(name, listed)
    ensures listed == Listed(name)
  {
    ListedIs(name);
    hide Listed;
  }

  /** The name of every element can be read and is another. */
  ghost predicate NoneIs(elements: seq<Element>, listed: string) {
    forall j :: 0 <= j < |elements| ==>
      Attribute(elements[j].attributes, "Name").Ok? && Attribute(elements[j].attributes, "Name") != Ok(Some(listed))
  }

  lemma {:induction false} PickStays(elements: seq<Element>, wanted: string, found: Element)
    ensures Pick(elements, wanted, Some(found)).Ok? <==> NoneIs(elements, wanted)
    ensures Pick(elements, wanted, Some(found)).Ok? ==> Pick(elements, wanted, Some(found)) == Ok(Some(found))
  {
    hide Attribute;
    if elements != [] {
      PickStays(elements[1..], wanted, found);
      NoneIsNext(elements, wanted);
      hide NoneIs;
    }
  }

  lemma NoneIsNext(elements: seq<Element>, wanted: string)
    requires elements != []
    ensures NoneIs(elements, wanted) <==>
            && Attribute(elements[0].attributes, "Name").Ok? && Attribute(elements[0].attributes, "Name") != Ok(Some(wanted))
            && NoneIs(elements[1..], wanted)
  {
    hide Attribute;
    assert forall j :: 0 < j < |elements| ==> elements[j] == elements[1..][j - 1];
  }

  lemma OnlyIsFirstOrLater(elements: seq<Element>, k: nat, wanted: string)
    requires k < |elements|
    ensures IsOnly(elements, k, wanted) <==>
            if k == 0 then Attribute(elements[0].attributes, "Name") == Ok(Some(wanted)) && NoneIs(elements[1..], wanted)
            else Attribute(elements[0].attributes, "Name").Ok? && Attribute(elements[0].attributes, "Name") != Ok(Some(wanted))
                 && IsOnly(elements[1..], k - 1, wanted)
  {
    hide Attribute;
    assert forall j :: 0 < j < |elements| ==> elements[j] == elements[1..][j - 1];
  }

  lemma {:induction false} OnlyIsPicked(elements: seq<Element>, k: nat, wanted: string)
    requires IsOnly(elements, k, wanted)
    ensures Pick(elements, wanted, None) == Ok(Some(elements[k]))
  {
    hide Attribute, NoneIs;
    OnlyIsFirstOrLater(elements, k, wanted);
    if k == 0 {
      PickStays(elements[1..], wanted, elements[0]);
    } else {
      OnlyIsPicked(elements[1..], k - 1, wanted);
    }
  }

  lemma {:induction false} PickedIsOnly(elements: seq<Element>, wanted: string) returns (k: nat)
    requires Pick(elements, wanted, None).Ok? && Pick(elements, wanted, None).value.Some?
    ensures IsOnly(elements, k, wanted) && Pick(elements, wanted, None) == Ok(Some(elements[k]))
  {
    hide Attribute, NoneIs, IsOnly;
    if Attribute(elements[0].attributes, "Name") == Ok(Some(wanted)) {
      PickStays(elements[1..], wanted, elements[0]);
      k := 0;
      OnlyIsFirstOrLater(elements, 0, wanted);
    } else {
      k := PickedIsOnly(elements[1..], wanted);
      OnlyIsInside(elements[1..], k, wanted);
      k := k + 1;
      OnlyIsFirstOrLater(elements, k, wanted);
    }
  }

  lemma OnlyIsInside(elements: seq<Element>, k: nat, wanted: string)
    requires IsOnly(elements, k, wanted)
    ensures k < |elements|
  {
  }

  lemma BlocksNext(blocks: seq<Element>, chunks: seq<seq<Byte>>, sha: Sha256)
    requires blocks != [] && chunks != []
    ensures AreBlocksOf(blocks, chunks, sha) <==> IsBlockOf(blocks[0], chunks[0], sha) && AreBlocksOf(blocks[1..], chunks[1..], sha)
  {
    hide IsBlockOf;
    assert forall k :: 0 < k < |blocks| ==> blocks[k] == blocks[1..][k - 1];
    assert forall k :: 0 < k < |chunks| ==> chunks[k] == chunks[1..][k - 1];
  }

  lemma {:induction false} HashesMean(blocks: seq<Element>, chunks: seq<seq<Byte>>, sha: Sha256)
    requires IsSha(sha)
    ensures BlockHashes(blocks) == Some(Digests(chunks, sha)) <==> AreBlocksOf(blocks, chunks, sha)
  {
    hide Attribute, Base64.Decode, BlockHash, IsBlockOf, IsSha;
    HashesAreAsMany(blocks);
    assert |Digests(chunks, sha)| == |chunks|;
    if blocks != [] && chunks != [] {
      var head, tail := BlockHash(blocks[0]), BlockHashes(blocks[1..]);
      HashesMean(blocks[1..], chunks[1..], sha);
      BlockMeans(blocks[0], chunks[0], sha);
      BlocksNext(blocks, chunks, sha);
      hide AreBlocksOf;
      assert Digests(chunks, sha) == [sha(chunks[0])] + Digests(chunks[1..], sha);
      hide Digests;
      if head.Some? && tail.Some? {
        ConsIsOne(head.value, tail.value, sha(chunks[0]), Digests(chunks[1..], sha));
      }
    }
  }

  lemma ConsIsOne<T>(a: T, s: seq<T>, b: T, t: seq<T>)
    ensures [a] + s == [b] + t <==> a == b && s == t
  {
    assert ([a] + s)[0] == a && ([b] + t)[0] == b && ([a] + s)[1..] == s && ([b] + t)[1..] == t;
  }

  lemma {:induction false} HashesAreAsMany(blocks: seq<Element>)
    ensures BlockHashes(blocks).Some? ==> |BlockHashes(blocks).value| == |blocks|
  {
    hide BlockHash;
    if blocks != [] {
      HashesAreAsMany(blocks[1..]);
    }
  }

  lemma BlockMeans(block: Element, chunk: seq<Byte>, sha: Sha256)
    requires IsSha(sha)
    ensures BlockHash(block) == Some(sha(chunk)) <==> IsBlockOf(block, chunk, sha)
  {
    hide Attribute, Base64.Decode;
  }

  /**
   Bytes are accepted for a name exactly if the map, comments stripped, has one file element of that name, every name in it can
   be read, and that element gives their size and the hashes of their chunks.
   */
  lemma AcceptsMeans(blockMap: string, name: string, bytes: seq<Byte>, sha: Sha256)
    requires IsSha(sha)
    ensures Accepts(blockMap, name, bytes, sha) <==> ListsOnce(Elements(StripComments(blockMap), "File"), name, bytes, sha)
  {
    hide Attribute, Elements, StripComments, Listed, IsListed, IsOnly, IsFileOf, Describes, Pick;
    var elements := Elements(StripComments(blockMap), "File");
    ListedIs(name);
    if Accepts(blockMap, name, bytes, sha) {
      var k := PickedIsOnly(elements, Listed(name));
      OnlyIsInside(elements, k, Listed(name));
      DescribesMeans(elements[k], bytes, sha);
      assert IsEntry(elements, name, bytes, sha, k, Listed(name));
    }
    if k: nat, listed :| IsEntry(elements, name, bytes, sha, k, listed) {
      ListedIsOne(name, listed);
      OnlyIsPicked(elements, k, listed);
      DescribesMeans(elements[k], bytes, sha);
    }
  }

  lemma DescribesMeans(file: Element, bytes: seq<Byte>, sha: Sha256)
    requires IsSha(sha)
    ensures Describes(file, bytes, sha) <==> IsFileOf(file, bytes, sha)
  {
    hide Attribute, Elements, BlockHashes, Chunks, Digests, AreBlocksOf, ParseUnsigned;
    HashesMean(Elements(file.body, "Block"), Chunks(bytes), sha);
  }

  // ---- a block map determines content ----

  /** Two different blocks with one hash. */
  predicate Collide(a: seq<Byte>, b: seq<Byte>, sha: Sha256) {
    a != b && sha(a) == sha(b)
  }

  function Joined(chunks: seq<seq<Byte>>): seq<Byte> {
    if chunks == [] then [] else chunks[0] + Joined(chunks[1..])
  }

  lemma {:induction false} ChunksJoin(bytes: seq<Byte>)
    ensures Joined(Chunks(bytes)) == bytes
    ensures |Chunks(bytes)| == (|bytes| + BLOCK_LEN - 1) / BLOCK_LEN
  {
    if bytes == [] {
    } else if |bytes| <= BLOCK_LEN {
      assert Joined([bytes]) == bytes + Joined([]);
    } else {
      var rest := Chunks(bytes[BLOCK_LEN..]);
      ChunksJoin(bytes[BLOCK_LEN..]);
      assert ([bytes[..BLOCK_LEN]] + rest)[1..] == rest;
      assert bytes[..BLOCK_LEN] + bytes[BLOCK_LEN..] == bytes;
    }
  }

  /**
   A block map accepts one content for a name, whatever else it says: two accepted byte strings are equal, or
   two of their blocks are a collision of the hash.
   */
  lemma BlockMapDetermines(blockMap: string, name: string, a: seq<Byte>, b: seq<Byte>, sha: Sha256)
    requires Accepts(blockMap, name, a, sha) && Accepts(blockMap, name, b, sha)
    ensures a == b || exists k :: 0 <= k < |Chunks(a)| && k < |Chunks(b)| && Collide(Chunks(a)[k], Chunks(b)[k], sha)
  {
    hide Pick, Elements, StripComments, Attribute, BlockHashes, Chunks;
    var as_, bs := Chunks(a), Chunks(b);
    ChunksJoin(a);
    ChunksJoin(b);
    assert Digests(as_, sha) == Digests(bs, sha);
    assert |as_| == |bs|;
    if as_ != bs {
      var k :| 0 <= k < |as_| && as_[k] != bs[k];
      assert Digests(as_, sha)[k] == sha(as_[k]) && Digests(bs, sha)[k] == sha(bs[k]);
      assert Collide(as_[k], bs[k], sha);
    }
  }

  // ---- the printed block map ----

  datatype File = File(name: string, bytes: seq<Byte>)

  /** A text that starts with `<` and has no other. */
  predicate IsTag(piece: string) {
    piece != "" && piece[0] == '<' && Free(piece[1..], '<')
  }

  predicate TagsFollow(rest: string) {
    rest == "" || rest[0] == '<'
  }

  function OpenTag(name: string, pairs: seq<Pair>): string {
    "<" + name + Print(pairs) + ">"
  }

  function ClosedTag(name: string, pairs: seq<Pair>): string {
    "<" + name + Print(pairs) + "/>"
  }

  function BlockPairs(chunk: seq<Byte>, sha: Sha256): seq<Pair> {
    [Pair("Hash", Base64.Encode(sha(chunk))), Pair("Size", "123")]
  }

  function PrintBlocks(chunks: seq<seq<Byte>>, sha: Sha256): string {
    if chunks == [] then "" else ClosedTag("Block", BlockPairs(chunks[0], sha)) + PrintBlocks(chunks[1..], sha)
  }

  function FilePairs(file: File): seq<Pair> {
    [Pair("Name", Listed(file.name)), Pair("Size", Decimal(|file.bytes|)), Pair("LfhSize", "45")]
  }

  function PrintFile(file: File, sha: Sha256): string {
    OpenTag("File", FilePairs(file)) + (PrintBlocks(Chunks(file.bytes), sha) + "</File>")
  }

  function PrintFiles(files: seq<File>, sha: Sha256): string {
    if files == [] then "" else PrintFile(files[0], sha) + PrintFiles(files[1..], sha)
  }

  const XML_DECLARATION := "?xml version=\"1.0\" encoding=\"UTF-8\"?>"
  const NAMESPACE := "http://schemas.microsoft.com" + "/appx/2010/blockmap"
  const HASH_METHOD := "http://www.w3.org/2001/04/xmlenc#sha256"

  function RootPairs(): seq<Pair> {
    [Pair("xmlns", NAMESPACE), Pair("HashMethod", HASH_METHOD)]
  }

  function PrintMap(files: seq<File>, sha: Sha256): string {
    ("<" + XML_DECLARATION) + (OpenTag("BlockMap", RootPairs()) + (PrintFiles(files, sha) + "</BlockMap>"))
  }

  /** A name the printer can write as it is: nothing in it is markup. */
  predicate MarkupFree(name: string) {
    Free(name, '"') && Free(name, '<') && Free(name, '&')
  }

  // ---- searching a text made of tags ----

  lemma AtShift(a: string, b: string, j: nat, pattern: string)
    ensures At(a + b, |a| + j, pattern) <==> At(b, j, pattern)
  {
    if |a| + j + |pattern| <= |a + b| {
      assert (a + b)[|a| + j..|a| + j + |pattern|] == b[j..j + |pattern|];
    }
  }

  lemma NotInTag(piece: string, rest: string, j: nat, pattern: string)
    requires IsTag(piece) && TagsFollow(rest) && IsTag(pattern) && !(pattern <= piece) && j < |piece|
    ensures !At(piece + rest, j, pattern)
  {
    var text := piece + rest;
    assert j > 0 ==> text[j] == piece[1..][j - 1];
    assert |piece| < |pattern| ==> pattern[|piece|] == pattern[1..][|piece| - 1];
  }

  /** A tag that does not match is passed over whole. */
  lemma FindSkips(piece: string, rest: string, pattern: string)
    requires IsTag(piece) && TagsFollow(rest) && IsTag(pattern) && !(pattern <= piece)
    ensures Find(piece + rest, pattern) == Shift(|piece|, Find(rest, pattern))
  {
    var text := piece + rest;
    forall j: nat
      ensures j < |piece| ==> !At(text, j, pattern)
      ensures At(text, |piece| + j, pattern) <==> At(rest, j, pattern)
    {
      if j < |piece| {
        NotInTag(piece, rest, j, pattern);
      }
      AtShift(piece, rest, j, pattern);
    }
    hide At, FindFrom;
    var found := Find(rest, pattern);
    if found.Some? {
      forall j: nat | j < |piece| + found.value
        ensures !At(text, j, pattern)
      {
        if j >= |piece| {
          assert !At(rest, j - |piece|, pattern);
          assert At(text, |piece| + (j - |piece|), pattern) <==> At(rest, j - |piece|, pattern);
        }
      }
      FindAt(text, |piece| + found.value, pattern);
    } else {
      forall j: nat
        ensures !At(text, j, pattern)
      {
        if j >= |piece| {
          assert At(text, |piece| + (j - |piece|), pattern) <==> At(rest, j - |piece|, pattern);
        }
      }
    }
  }

  lemma FindHits(piece: string, rest: string, pattern: string)
    requires pattern <= piece
    ensures Find(piece + rest, pattern) == Some(0)
  {
    assert (piece + rest)[0..|pattern|] == pattern;
    FindAt(piece + rest, 0, pattern);
  }

  lemma ElementsByFind(rest: string, tag: string)
    ensures Elements(rest, tag) ==
            match Find(rest, "<" + tag)
            case None => []
            case Some(start) => ElementsAfter(rest[start + 1 + |tag|..], tag)
  {
    hide ElementsAfter, Find;
  }

  lemma ElementsSkips(piece: string, rest: string, tag: string)
    requires IsTag(piece) && TagsFollow(rest) && Free(tag, '<') && !("<" + tag <= piece)
    ensures Elements(piece + rest, tag) == Elements(rest, tag)
  {
    hide *;
    IsTagOf(tag);
    FindSkips(piece, rest, "<" + tag);
    ElementsByFind(piece + rest, tag);
    ElementsByFind(rest, tag);
    var found := Find(rest, "<" + tag);
    ShiftBy(|piece|, found);
    if found.Some? {
      DropShift(piece, rest, found.value + 1 + |tag|);
    }
  }

  lemma ShiftBy(n: nat, found: Option<nat>)
    ensures Shift(n, found) == if found.Some? then Some(n + found.value) else None
  {
  }

  lemma DropShift(a: string, b: string, n: nat)
    requires n <= |b|
    ensures (a + b)[|a| + n..] == b[n..]
  {
  }

  // ---- reading the printed tags back ----

  predicate PairsOk(pairs: seq<Pair>) {
    pairs != [] && forall p <- pairs :: PairOk(p) && Free(p.text, '<')
  }

  predicate Inert(c: char, quote: Option<char>) {
    Requote(quote, c) == quote && !(quote.None? && c == '>')
  }

  lemma {:induction false} TagEndInert(a: string, b: string, quote: Option<char>)
    requires forall i :: 0 <= i < |a| ==> Inert(a[i], quote)
    ensures TagEnd(a + b, quote) == Shift(|a|, TagEnd(b, quote))
  {
    if a == "" {
      assert a + b == b;
    } else {
      assert (a + b)[1..] == a[1..] + b && (a + b)[0] == a[0];
      assert Inert(a[0], quote);
      TagEndInert(a[1..], b, quote);
    }
  }

  lemma TagEndQuote(rest: string, quote: Option<char>, after: Option<char>)
    requires (quote == None && after == Some('"')) || (quote == Some('"') && after == None)
    ensures TagEnd(['"'] + rest, quote) == Shift(1, TagEnd(rest, after))
  {
    Tail('"', rest);
  }

  lemma TagEndPair(p: Pair, rest: string)
    requires PairOk(p)
    ensures TagEnd(PrintPair(p) + rest, None) == Shift(|PrintPair(p)|, TagEnd(rest, None))
  {
    var head := " " + p.name + "=";
    PairText(p, rest);
    HeadIsInert(p);
    PairLength(p);
    assert Free(p.text, '"');
    hide TagEnd, PrintPair, PairOk, Free, Requote, Inert;
    TagEndInert(head, ['"'] + (p.text + (['"'] + rest)), None);
    TagEndValue(p.text, rest);
  }

  lemma TagEndValue(text: string, rest: string)
    requires Free(text, '"')
    ensures TagEnd(['"'] + (text + (['"'] + rest)), None) == Shift(|text| + 2, TagEnd(rest, None))
  {
    TextIsInert(text);
    hide TagEnd, Free, Requote, Inert;
    TagEndQuote(text + (['"'] + rest), None, Some('"'));
    TagEndInert(text, ['"'] + rest, Some('"'));
    TagEndQuote(rest, Some('"'), None);
  }

  lemma TextIsInert(text: string)
    requires Free(text, '"')
    ensures forall i :: 0 <= i < |text| ==> Inert(text[i], Some('"'))
  {
  }

  lemma PairText(p: Pair, rest: string)
    ensures PrintPair(p) + rest == (" " + p.name + "=") + (['"'] + (p.text + (['"'] + rest)))
  {
  }

  lemma HeadIsInert(p: Pair)
    requires PairOk(p)
    ensures var head := " " + p.name + "="; forall i :: 0 <= i < |head| ==> Inert(head[i], None)
  {
    var head := " " + p.name + "=";
    forall i | 0 <= i < |head|
      ensures Inert(head[i], None)
    {
      if 0 < i < |head| - 1 {
        assert head[i] == p.name[i - 1];
      }
    }
  }

  lemma PairLength(p: Pair)
    ensures |PrintPair(p)| == |p.name| + |p.text| + 4
  {
  }

  lemma {:induction false} TagEndPrint(pairs: seq<Pair>, rest: string)
    requires forall p <- pairs :: PairOk(p)
    ensures TagEnd(Print(pairs) + rest, None) == Shift(|Print(pairs)|, TagEnd(rest, None))
  {
    if pairs == [] {
      assert Print(pairs) + rest == rest;
    } else {
      assert PairOk(pairs[0]);
      TagEndPrint(pairs[1..], rest);
      TagEndPair(pairs[0], Print(pairs[1..]) + rest);
      Assoc(PrintPair(pairs[0]), Print(pairs[1..]), rest);
    }
  }

  lemma {:induction false} PrintEnds(pairs: seq<Pair>)
    requires pairs != []
    ensures |Print(pairs)| > 0 && Print(pairs)[0] == ' ' && Print(pairs)[|Print(pairs)| - 1] == '"'
  {
    if |pairs| == 1 {
      assert Print(pairs) == PrintPair(pairs[0]) + "";
    } else {
      PrintEnds(pairs[1..]);
    }
  }

  lemma {:induction false} PrintFree(pairs: seq<Pair>)
    requires forall p <- pairs :: PairOk(p) && Free(p.text, '<')
    ensures Free(Print(pairs), '<')
  {
    if pairs != [] {
      PrintFree(pairs[1..]);
      PairFree(pairs[0]);
    }
  }

  lemma PairFree(p: Pair)
    requires PairOk(p) && Free(p.text, '<')
    ensures Free(PrintPair(p), '<')
  {
  }

  predicate IsWord(name: string) {
    forall i :: 0 <= i < |name| ==> IsAsciiAlphanumeric(name[i])
  }

  lemma PrintedIsTag(name: string, pairs: seq<Pair>)
    requires IsWord(name) && name != "" && PairsOk(pairs)
    ensures IsTag(OpenTag(name, pairs)) && OpenTag(name, pairs)[1] == name[0]
    ensures IsTag(ClosedTag(name, pairs)) && ClosedTag(name, pairs)[1] == name[0]
  {
    PrintFree(pairs);
    WordFree(name);
    hide Print, IsWord, PairsOk;
    FreeConcat(name, Print(pairs), '<');
    hide Free;
    FreeConcat(name + Print(pairs), ">", '<');
    FreeConcat(name + Print(pairs), "/>", '<');
    assert OpenTag(name, pairs)[1..] == name + Print(pairs) + ">";
    assert ClosedTag(name, pairs)[1..] == name + Print(pairs) + "/>";
  }

  lemma WordFree(name: string)
    requires IsWord(name)
    ensures Free(name, '<') && Free(">", '<') && Free("/>", '<')
  {
  }

  /** What stands before the closing tag. */
  function BodyOf(tail: string, tag: string): string {
    var close := Find(tail, "</" + tag + ">");
    if close.Some? then tail[..close.value] else tail
  }

  lemma AfterName(tag: string, printed: string, end: string, rest: string)
    ensures ("<" + tag + printed + end + rest)[1 + |tag|..] == printed + (end + rest)
    ensures "<" + tag <= "<" + tag + printed + end
  {
  }

  /** An open tag reads as an element with the printed attributes; the search goes on in its body. */
  lemma ReadsOpenTag(tag: string, pairs: seq<Pair>, rest: string)
    requires PairsOk(pairs)
    ensures Elements(OpenTag(tag, pairs) + rest, tag) ==
            [Element(Print(pairs), BodyOf(rest, tag))] + Elements(rest, tag)
  {
    var printed := Print(pairs);
    PrintEnds(pairs);
    TagEndPrint(pairs, ">" + rest);
    assert TagEnd(">" + rest, None) == Some(0);
    AfterName(tag, printed, ">", rest);
    FindHits(OpenTag(tag, pairs), rest, "<" + tag);
    var after := printed + (">" + rest);
    SpaceEndsName(after);
    OpenElement(printed, rest, tag);
    hide Elements, Find, TagEnd, Print, EndsName, BodyOf, ElementAt;
    ElementsBy(OpenTag(tag, pairs) + rest, tag, after, |printed|);
  }

  /** The steps of reading one element. */
  lemma ElementsBy(text: string, tag: string, after: string, end: nat)
    requires Find(text, "<" + tag) == Some(0) && text[1 + |tag|..] == after
    requires EndsName(after) && TagEnd(after, None) == Some(end)
    ensures Elements(text, tag) == [ElementAt(after, end, tag)] + Elements(after[end + 1..], tag)
  {
    hide Find, TagEnd, EndsName, ElementAt;
  }

  lemma SpaceEndsName(after: string)
    requires after != "" && after[0] == ' '
    ensures EndsName(after)
  {
  }

  lemma OpenElement(printed: string, rest: string, tag: string)
    requires printed != "" && printed[|printed| - 1] == '"'
    ensures var after := printed + (">" + rest);
            && ElementAt(after, |printed|, tag) == Element(printed, BodyOf(rest, tag))
            && after[|printed| + 1..] == rest
  {
    hide Find;
    var after := printed + (">" + rest);
    assert after[..|printed|] == printed && after[|printed| + 1..] == rest;
  }

  lemma ClosedElement(printed: string, rest: string, tag: string)
    ensures var after := printed + ("/>" + rest);
            && ElementAt(after, |printed| + 1, tag) == Element(printed, "")
            && after[|printed| + 2..] == rest
  {
    hide Find;
    var after := printed + ("/>" + rest);
    assert after[..|printed| + 1] == printed + "/" && (printed + "/")[..|printed|] == printed && after[|printed| + 2..] == rest;
  }

  lemma SlashEnds(rest: string)
    ensures TagEnd("/>" + rest, None) == Some(1)
  {
    assert ("/>" + rest)[1..] == ">" + rest;
    assert TagEnd(">" + rest, None) == Some(0);
  }

  /** A self-closing tag reads as an element without a body. */
  lemma ReadsClosedTag(tag: string, pairs: seq<Pair>, rest: string)
    requires PairsOk(pairs)
    ensures Elements(ClosedTag(tag, pairs) + rest, tag) == [Element(Print(pairs), "")] + Elements(rest, tag)
  {
    var printed := Print(pairs);
    PrintEnds(pairs);
    TagEndPrint(pairs, "/>" + rest);
    SlashEnds(rest);
    AfterName(tag, printed, "/>", rest);
    FindHits(ClosedTag(tag, pairs), rest, "<" + tag);
    var after := printed + ("/>" + rest);
    SpaceEndsName(after);
    ClosedElement(printed, rest, tag);
    hide Elements, Find, TagEnd, Print, EndsName, ElementAt;
    ElementsBy(ClosedTag(tag, pairs) + rest, tag, after, |printed| + 1);
  }

  // ---- the printed map read back ----

  ghost predicate IsSha(sha: Sha256) {
    forall x :: |sha(x)| == HASH_LEN
  }

  ghost predicate FileOk(file: File) {
    MarkupFree(Listed(file.name)) && |file.bytes| <= U64_MAX
  }

  lemma DigitsArePlain(text: string)
    requires forall i :: 0 <= i < |text| ==> IsDigit(text[i])
    ensures Free(text, '"') && Free(text, '<') && Free(text, '&')
  {
  }

  lemma BlockPairsOk(chunk: seq<Byte>, sha: Sha256)
    ensures PairsOk(BlockPairs(chunk, sha)) && Free(Base64.Encode(sha(chunk)), '&')
  {
    var text := Base64.Encode(sha(chunk));
    Base64.EncodeIsPlain(sha(chunk));
    assert forall i :: 0 <= i < |text| ==> Base64.IsPlain(text[i]);
    hide Base64.Encode;
    assert PairOk(Pair("Hash", text)) && PairOk(Pair("Size", "123"));
  }

  lemma FilePairsOk(file: File)
    requires FileOk(file)
    ensures PairsOk(FilePairs(file))
  {
    DigitsArePlain(Decimal(|file.bytes|));
    hide Listed, Decimal;
    assert PairOk(Pair("Name", Listed(file.name)));
    assert PairOk(Pair("Size", Decimal(|file.bytes|)));
    assert PairOk(Pair("LfhSize", "45"));
  }

  lemma TagStarts(piece: string, more: string, rest: string)
    requires piece != "" && piece[0] == '<'
    ensures TagsFollow(piece + more + rest)
  {
  }

  lemma {:induction false} BlocksFollow(chunks: seq<seq<Byte>>, sha: Sha256, rest: string)
    requires TagsFollow(rest)
    ensures TagsFollow(PrintBlocks(chunks, sha) + rest)
  {
    if chunks == [] {
      assert PrintBlocks(chunks, sha) + rest == rest;
    } else {
      TagStarts(ClosedTag("Block", BlockPairs(chunks[0], sha)), PrintBlocks(chunks[1..], sha), rest);
    }
  }

  /** The blocks of one file are tags that a search for anything else passes over. */
  lemma {:induction false} SkipBlocks(chunks: seq<seq<Byte>>, sha: Sha256, rest: string, pattern: string)
    requires TagsFollow(rest) && IsTag(pattern) && |pattern| > 1 && pattern[1] != 'B'
    ensures Find(PrintBlocks(chunks, sha) + rest, pattern) == Shift(|PrintBlocks(chunks, sha)|, Find(rest, pattern))
  {
    hide Find, At;
    if chunks == [] {
      NothingBefore(rest);
    } else {
      var piece, more := ClosedTag("Block", BlockPairs(chunks[0], sha)), PrintBlocks(chunks[1..], sha);
      BlockTag(chunks[0], sha);
      SkipBlocks(chunks[1..], sha, rest, pattern);
      BlocksFollow(chunks[1..], sha, rest);
      assert PrintBlocks(chunks, sha) == piece + more;
      hide ClosedTag, PrintBlocks;
      NotPrefix(pattern, piece, 1);
      hide IsTag, TagsFollow;
      FindSkips(piece, more + rest, pattern);
      Assoc(piece, more, rest);
    }
  }

  lemma BlockTag(chunk: seq<Byte>, sha: Sha256)
    ensures var piece := ClosedTag("Block", BlockPairs(chunk, sha));
            IsTag(piece) && |piece| > 1 && piece[1] == 'B'
  {
    BlockPairsOk(chunk, sha);
    PrintedIsTag("Block", BlockPairs(chunk, sha));
  }

  lemma {:induction false} SkipBlockElements(chunks: seq<seq<Byte>>, sha: Sha256, rest: string)
    requires TagsFollow(rest)
    ensures Elements(PrintBlocks(chunks, sha) + rest, "File") == Elements(rest, "File")
  {
    if chunks == [] {
      assert PrintBlocks(chunks, sha) + rest == rest;
    } else {
      var piece, more := ClosedTag("Block", BlockPairs(chunks[0], sha)), PrintBlocks(chunks[1..], sha);
      SkipBlockElements(chunks[1..], sha, rest);
      assert IsTag("<File");
      BlocksFollow(chunks[1..], sha, rest);
      BlockTag(chunks[0], sha);
      NotPrefix("<File", piece, 1);
      assert Free("File", '<') && "<" + "File" == "<File";
      hide Find, ClosedTag, PairsOk, Elements;
      ElementsSkips(piece, more + rest, "File");
      Assoc(piece, more, rest);
    }
  }

  function BlockElements(chunks: seq<seq<Byte>>, sha: Sha256): seq<Element> {
    if chunks == [] then []
    else [Element(Print(BlockPairs(chunks[0], sha)), "")] + BlockElements(chunks[1..], sha)
  }

  lemma {:induction false} ReadsBlocks(chunks: seq<seq<Byte>>, sha: Sha256)
    ensures Elements(PrintBlocks(chunks, sha), "Block") == BlockElements(chunks, sha)
  {
    if chunks == [] {
      NothingInNothing("Block");
    } else {
      BlockPairsOk(chunks[0], sha);
      ReadsBlocks(chunks[1..], sha);
      hide Elements;
      ReadsClosedTag("Block", BlockPairs(chunks[0], sha), PrintBlocks(chunks[1..], sha));
    }
  }

  lemma NothingInNothing(tag: string)
    ensures Elements("", tag) == []
  {
  }

  lemma ReadsBlockHash(chunk: seq<Byte>, sha: Sha256)
    requires IsSha(sha)
    ensures BlockHash(Element(Print(BlockPairs(chunk, sha)), "")) == Some(sha(chunk))
  {
    var pairs, text := BlockPairs(chunk, sha), Base64.Encode(sha(chunk));
    BlockPairsOk(chunk, sha);
    ReadsPrinted(pairs, "Hash");
    ChooseFirst(pairs, "Hash");
    DecodePlain(text);
    Base64.RoundTrip(sha(chunk));
  }

  lemma ChooseFirst(pairs: seq<Pair>, name: string)
    requires pairs != [] && pairs[0].name == name && forall p <- pairs[1..] :: p.name != name
    ensures Choose(pairs, name, None) == Ok(Some(DecodeEntities(pairs[0].text)))
  {
    ChooseKeeps(pairs[1..], name, Some(DecodeEntities(pairs[0].text)));
  }

  lemma {:induction false} ReadsBlockHashes(chunks: seq<seq<Byte>>, sha: Sha256)
    requires IsSha(sha)
    ensures BlockHashes(BlockElements(chunks, sha)) == Some(Digests(chunks, sha))
  {
    hide BlockHash, Print, BlockPairs, IsSha;
    if chunks != [] {
      ReadsBlockHash(chunks[0], sha);
      ReadsBlockHashes(chunks[1..], sha);
      var elements := BlockElements(chunks, sha);
      assert elements[0] == Element(Print(BlockPairs(chunks[0], sha)), "") && elements[1..] == BlockElements(chunks[1..], sha);
      assert Digests(chunks, sha) == [sha(chunks[0])] + Digests(chunks[1..], sha);
      assert BlockHashes(elements) == Some([sha(chunks[0])] + Digests(chunks[1..], sha));
    } else {
      assert Digests(chunks, sha) == [];
    }
  }

  function FileElement(file: File, sha: Sha256): Element {
    Element(Print(FilePairs(file)), PrintBlocks(Chunks(file.bytes), sha))
  }

  function FileElements(files: seq<File>, sha: Sha256): seq<Element> {
    if files == [] then [] else [FileElement(files[0], sha)] + FileElements(files[1..], sha)
  }

  lemma FileTags()
    ensures IsTag("<File") && IsTag("</File>") && IsTag("<!--") && IsTag("</BlockMap>") && IsWord("File") && Free("File", '<')
    ensures "<" + "File" == "<File" && "</" + "File" + ">" == "</File>"
    ensures !("<File" <= "</File>") && !("<File" <= "</BlockMap>") && !("<!--" <= "</File>") && !("<!--" <= "</BlockMap>")
  {
    NotPrefix("<File", "</File>", 1);
    NotPrefix("<File", "</BlockMap>", 1);
    NotPrefix("<!--", "</File>", 1);
    NotPrefix("<!--", "</BlockMap>", 1);
  }

  lemma ReadsFile(file: File, sha: Sha256, rest: string)
    requires FileOk(file) && TagsFollow(rest)
    ensures Elements(PrintFile(file, sha) + rest, "File") == [FileElement(file, sha)] + Elements(rest, "File")
  {
    hide Elements, Find, Chunks, FilePairs;
    FileTags();
    FilePairsOk(file);
    var blocks := PrintBlocks(Chunks(file.bytes), sha);
    var closing := "</File>" + rest;
    var body := blocks + closing;
    Assoc(blocks, "</File>", rest);
    Assoc(OpenTag("File", FilePairs(file)), blocks + "</File>", rest);
    ReadsOpenTag("File", FilePairs(file), body);
    SkipBlocks(Chunks(file.bytes), sha, closing, "</File>");
    BlocksFollow(Chunks(file.bytes), sha, closing);
    FindHits("</File>", rest, "</File>");
    assert body[..|blocks|] == blocks;
    SkipBlockElements(Chunks(file.bytes), sha, closing);
    ElementsSkips("</File>", rest, "File");
  }

  lemma {:induction false} FilesFollow(files: seq<File>, sha: Sha256, rest: string)
    requires TagsFollow(rest)
    ensures TagsFollow(PrintFiles(files, sha) + rest)
  {
    if files == [] {
      assert PrintFiles(files, sha) + rest == rest;
    } else {
      FileStarts(files[0], sha);
      hide PrintFile;
      TagStarts(PrintFile(files[0], sha), PrintFiles(files[1..], sha), rest);
    }
  }

  lemma {:induction false} ReadsFiles(files: seq<File>, sha: Sha256, rest: string)
    requires (forall f <- files :: FileOk(f)) && TagsFollow(rest) && Elements(rest, "File") == []
    ensures Elements(PrintFiles(files, sha) + rest, "File") == FileElements(files, sha)
  {
    hide FileOk, PrintFile, Elements, FileElement;
    if files == [] {
      NothingBefore(rest);
    } else {
      var head, more := PrintFile(files[0], sha), PrintFiles(files[1..], sha);
      ReadsFiles(files[1..], sha, rest);
      FilesFollow(files[1..], sha, rest);
      assert PrintFiles(files, sha) == head + more;
      hide PrintFiles, TagsFollow;
      ReadsFile(files[0], sha, more + rest);
      Assoc(head, more, rest);
    }
  }

  lemma FileStarts(file: File, sha: Sha256)
    ensures PrintFile(file, sha) != "" && PrintFile(file, sha)[0] == '<'
  {
    hide PrintBlocks, Print, FilePairs;
  }

  lemma NoCommentInFile(file: File, sha: Sha256, rest: string)
    requires FileOk(file) && TagsFollow(rest) && Find(rest, "<!--").None?
    ensures Find(PrintFile(file, sha) + rest, "<!--").None?
  {
    hide Find, Chunks, FilePairs;
    FileTags();
    FilePairsOk(file);
    var blocks := PrintBlocks(Chunks(file.bytes), sha);
    var closing := "</File>" + rest;
    Assoc(blocks, "</File>", rest);
    Assoc(OpenTag("File", FilePairs(file)), blocks + "</File>", rest);
    PrintedIsTag("File", FilePairs(file));
    NotPrefix("<!--", OpenTag("File", FilePairs(file)), 1);
    FindSkips("</File>", rest, "<!--");
    SkipBlocks(Chunks(file.bytes), sha, closing, "<!--");
    BlocksFollow(Chunks(file.bytes), sha, closing);
    FindSkips(OpenTag("File", FilePairs(file)), blocks + closing, "<!--");
  }

  lemma {:induction false} NoCommentInFiles(files: seq<File>, sha: Sha256, rest: string)
    requires (forall f <- files :: FileOk(f)) && TagsFollow(rest) && Find(rest, "<!--").None?
    ensures Find(PrintFiles(files, sha) + rest, "<!--").None?
  {
    if files == [] {
      assert PrintFiles(files, sha) + rest == rest;
    } else {
      var more := PrintFiles(files[1..], sha);
      NoCommentInFiles(files[1..], sha, rest);
      FilesFollow(files[1..], sha, rest);
      NoCommentInFile(files[0], sha, more + rest);
      Assoc(PrintFile(files[0], sha), more, rest);
    }
  }

  lemma NamespaceIsPlain()
    ensures Free(NAMESPACE, '<') && Free(NAMESPACE, '"')
  {
    NamespaceIsFree('<');
    NamespaceIsFree('"');
  }

  lemma NamespaceIsFree(c: char)
    requires c == '<' || c == '"'
    ensures Free(NAMESPACE, c)
  {
    NotInIsFree("http://schemas.microsoft.com", c);
    NotInIsFree("/appx/2010/blockmap", c);
    hide Free;
    FreeConcat("http://schemas.microsoft.com", "/appx/2010/blockmap", c);
  }

  lemma DeclarationIsPlain()
    ensures Free(XML_DECLARATION, '<')
  {
    NotInIsFree(XML_DECLARATION, '<');
  }

  lemma IsTagOf(text: string)
    requires Free(text, '<')
    ensures IsTag("<" + text)
  {
    assert ("<" + text)[1..] == text;
  }

  lemma MethodIsPlain()
    ensures Free(HASH_METHOD, '<')
  {
    NotInIsFree(HASH_METHOD, '<');
  }

  lemma MethodIsUnquoted()
    ensures Free(HASH_METHOD, '"')
  {
    NotInIsFree(HASH_METHOD, '"');
  }

  lemma RootPairsOk()
    ensures PairsOk(RootPairs())
  {
    NamespaceIsPlain();
    MethodIsPlain();
    MethodIsUnquoted();
    hide NAMESPACE, HASH_METHOD;
    assert PairOk(Pair("xmlns", NAMESPACE)) && PairOk(Pair("HashMethod", HASH_METHOD));
  }

  /** The two tags that open the map: neither is a comment nor a file. */
  lemma Prologue()
    ensures IsTag("<" + XML_DECLARATION) && IsTag(OpenTag("BlockMap", RootPairs()))
    ensures !("<!--" <= "<" + XML_DECLARATION) && !("<File" <= "<" + XML_DECLARATION)
    ensures !("<!--" <= OpenTag("BlockMap", RootPairs())) && !("<File" <= OpenTag("BlockMap", RootPairs()))
  {
    RootPairsOk();
    var declaration, root := "<" + XML_DECLARATION, OpenTag("BlockMap", RootPairs());
    PrintedIsTag("BlockMap", RootPairs());
    DeclarationIsPlain();
    IsTagOf(XML_DECLARATION);
    assert declaration[1] == '?' && root[1] == 'B';
    hide RootPairs, Print, IsTag, OpenTag, XML_DECLARATION, IsTag;
    NotPrefix("<!--", declaration, 1);
    NotPrefix("<File", declaration, 1);
    NotPrefix("<!--", root, 1);
    NotPrefix("<File", root, 1);
  }

  lemma NoCommentNoStrip(xml: string)
    ensures Find(xml, "<!--").None? ==> StripComments(xml) == xml
  {
  }

  /** The scan of the printed map finds exactly the printed files, in order. */
  lemma ReadsMap(files: seq<File>, sha: Sha256)
    requires forall f <- files :: FileOk(f)
    ensures Elements(StripComments(PrintMap(files, sha)), "File") == FileElements(files, sha)
  {
    FileTags();
    Prologue();
    NoCommentNoStrip(PrintMap(files, sha));
    EpilogueIsEmpty();
    var root, body := OpenTag("BlockMap", RootPairs()), PrintFiles(files, sha) + "</BlockMap>";
    FilesFollow(files, sha, "</BlockMap>");
    assert TagsFollow(root + body);
    var declaration := "<" + XML_DECLARATION;
    assert PrintMap(files, sha) == declaration + (root + body);
    hide Elements, Find, RootPairs, OpenTag, XML_DECLARATION, StripComments, IsTag, FileElements, FileOk, Free, PrintMap,
      TagsFollow;
    ReadsFiles(files, sha, "</BlockMap>");
    NoCommentInFiles(files, sha, "</BlockMap>");
    FindSkips(root, body, "<!--");
    FindSkips(declaration, root + body, "<!--");
    ElementsSkips(root, body, "File");
    ElementsSkips(declaration, root + body, "File");
  }

  lemma EpilogueIsEmpty()
    ensures Find("</BlockMap>", "<!--").None? && Elements("</BlockMap>", "File") == []
  {
    FileTags();
    NothingInNothing("File");
    assert "</BlockMap>" + "" == "</BlockMap>";
    FindSkips("</BlockMap>", "", "<!--");
    ElementsSkips("</BlockMap>", "", "File");
  }

  // ---- which of the printed files a name picks ----

  /** Reading a printed file element's name gives the listed name back. */
  lemma ReadsName(file: File, sha: Sha256)
    requires FileOk(file)
    ensures Attribute(FileElement(file, sha).attributes, "Name") == Ok(Some(Listed(file.name)))
  {
    var pairs := FilePairs(file);
    FilePairsOk(file);
    assert pairs != [] && pairs[0] == Pair("Name", Listed(file.name)) && MarkupFree(Listed(file.name));
    assert FileElement(file, sha).attributes == Print(pairs);
    hide *;
    ReadsPrinted(pairs, "Name");
    ChooseFirst(pairs, "Name");
    DecodePlain(Listed(file.name));
  }

  lemma ReadsSize(file: File, sha: Sha256)
    requires FileOk(file)
    ensures SizeOf(FileElement(file, sha)) == Some(|file.bytes|)
  {
    DigitsArePlain(Decimal(|file.bytes|));
    ParsePrinted(|file.bytes|, U64_MAX);
    hide Decimal, Listed, Print, ParseUnsigned, Attribute, DecodeEntities, PrintBlocks, Chunks;
    var pairs := FilePairs(file);
    FilePairsOk(file);
    ReadsPrinted(pairs, "Size");
    ChooseFirst(pairs[1..], "Size");
    assert Choose(pairs, "Size", None) == Choose(pairs[1..], "Size", None);
    DecodePlain(Decimal(|file.bytes|));
  }

  /** A printed element describes the bytes it was printed from. */
  lemma PrintedDescribes(file: File, sha: Sha256)
    requires FileOk(file) && IsSha(sha)
    ensures Describes(FileElement(file, sha), file.bytes, sha)
  {
    ReadsSize(file, sha);
    ReadsBlocks(Chunks(file.bytes), sha);
    ReadsBlockHashes(Chunks(file.bytes), sha);
    hide Elements, Chunks, PrintBlocks, SizeOf, BlockHashes, Print;
  }

  lemma {:induction false} PicksNone(files: seq<File>, sha: Sha256, wanted: string, found: Option<Element>)
    requires forall f <- files :: FileOk(f) && Listed(f.name) != wanted
    ensures Pick(FileElements(files, sha), wanted, found) == Ok(found)
  {
    if files != [] {
      ReadsName(files[0], sha);
      PicksNone(files[1..], sha, wanted, found);
      hide Attribute, FileElement;
      assert FileElements(files, sha)[1..] == FileElements(files[1..], sha);
    }
  }

  lemma {:induction false} PicksOne(files: seq<File>, sha: Sha256, i: nat)
    requires i < |files| && forall f <- files :: FileOk(f)
    requires forall j, k :: 0 <= j < k < |files| ==> Listed(files[j].name) != Listed(files[k].name)
    ensures Pick(FileElements(files, sha), Listed(files[i].name), None) == Ok(Some(FileElement(files[i], sha)))
  {
    hide Attribute, FileElement, Listed, FileOk;
    var wanted := Listed(files[i].name);
    ReadsName(files[0], sha);
    assert FileElements(files, sha)[1..] == FileElements(files[1..], sha);
    if i == 0 {
      PicksNone(files[1..], sha, wanted, Some(FileElement(files[0], sha)));
    } else {
      assert files[i] == files[1..][i - 1];
      PicksOne(files[1..], sha, i - 1);
    }
  }

  /** The printed map accepts every listed file with its own bytes. */
  lemma PrintedMapAccepts(files: seq<File>, i: nat, sha: Sha256)
    requires IsSha(sha) && i < |files| && forall f <- files :: FileOk(f)
    requires forall j, k :: 0 <= j < k < |files| ==> Listed(files[j].name) != Listed(files[k].name)
    ensures Accepts(PrintMap(files, sha), files[i].name, files[i].bytes, sha)
  {
    ReadsMap(files, sha);
    PicksOne(files, sha, i);
    assert files[i] in files;
    PrintedDescribes(files[i], sha);
    hide Elements, StripComments, PrintMap, FileElements, Pick, Describes, FileElement, Listed;
  }

  /** The printed map accepts no name it does not list, whatever the bytes. */
  lemma PrintedMapRefuses(files: seq<File>, name: string, bytes: seq<Byte>, sha: Sha256)
    requires forall f <- files :: FileOk(f) && Listed(f.name) != Listed(name)
    ensures !Accepts(PrintMap(files, sha), name, bytes, sha)
  {
    ReadsMap(files, sha);
    PicksNone(files, sha, Listed(name), None);
    hide Elements, StripComments, PrintMap, FileElements, Pick, Describes, Listed;
  }

  /** A file listed twice is refused under that name. */
  lemma {:induction false} ListedTwiceIsRefused(files: seq<File>, i: nat, k: nat, bytes: seq<Byte>, sha: Sha256)
    requires i < k < |files| && Listed(files[i].name) == Listed(files[k].name) && forall f <- files :: FileOk(f)
    ensures !Accepts(PrintMap(files, sha), files[i].name, bytes, sha)
  {
    ReadsMap(files, sha);
    PicksTwice(files, sha, i, k, None);
    hide Elements, StripComments, PrintMap, FileElements, Pick, Describes, Listed;
  }

  lemma {:induction false} PicksTwice(files: seq<File>, sha: Sha256, i: nat, k: nat, found: Option<Element>)
    requires i < k < |files| && Listed(files[i].name) == Listed(files[k].name) && forall f <- files :: FileOk(f)
    ensures Pick(FileElements(files, sha), Listed(files[i].name), found).Err?
  {
    hide Attribute, FileElement, Listed, FileOk;
    var wanted := Listed(files[i].name);
    ReadsName(files[0], sha);
    assert FileElements(files, sha)[1..] == FileElements(files[1..], sha);
    if i == 0 {
      PicksAgain(files[1..], sha, k - 1, FileElement(files[0], sha));
    } else if found.Some? && Listed(files[0].name) == wanted {
    } else {
      assert files[i] == files[1..][i - 1] && files[k] == files[1..][k - 1];
      PicksTwice(files[1..], sha, i - 1, k - 1, if Listed(files[0].name) == wanted then Some(FileElement(files[0], sha)) else found);
    }
  }

  lemma {:induction false} PicksAgain(files: seq<File>, sha: Sha256, k: nat, found: Element)
    requires k < |files| && forall f <- files :: FileOk(f)
    ensures Pick(FileElements(files, sha), Listed(files[k].name), Some(found)).Err?
  {
    hide Attribute, FileElement, Listed, FileOk;
    ReadsName(files[0], sha);
    assert FileElements(files, sha)[1..] == FileElements(files[1..], sha);
    if k > 0 && Listed(files[0].name) != Listed(files[k].name) {
      assert files[k] == files[1..][k - 1];
      PicksAgain(files[1..], sha, k - 1, found);
    }
  }

  /** Printed and read back: a listed name is accepted with exactly the listed bytes, collisions of the hash aside. */
  lemma PrintedMapHolds(files: seq<File>, i: nat, bytes: seq<Byte>, sha: Sha256)
    requires IsSha(sha) && i < |files| && forall f <- files :: FileOk(f)
    requires forall j, k :: 0 <= j < k < |files| ==> Listed(files[j].name) != Listed(files[k].name)
    ensures bytes == files[i].bytes ==> Accepts(PrintMap(files, sha), files[i].name, bytes, sha)
    ensures Accepts(PrintMap(files, sha), files[i].name, bytes, sha) ==>
              || bytes == files[i].bytes
              || var a, b := Chunks(bytes), Chunks(files[i].bytes);
                 exists k :: 0 <= k < |a| && k < |b| && Collide(a[k], b[k], sha)
  {
    PrintedMapAccepts(files, i, sha);
    if Accepts(PrintMap(files, sha), files[i].name, bytes, sha) {
      BlockMapDetermines(PrintMap(files, sha), files[i].name, bytes, files[i].bytes, sha);
    }
  }

  /** A name without markup stays without markup when its slashes are turned. */
  lemma {:induction false} ListedIsMarkupFree(name: string)
    requires MarkupFree(name)
    ensures MarkupFree(Listed(name))
  {
    if name != "" {
      ListedIsMarkupFree(name[1..]);
      assert "/" <= name ==> name[|"/"|..] == name[1..];
    }
  }
}
