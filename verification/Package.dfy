/** The source package a publisher writes, and its extraction end to end. */
module Package {
  import opened Wrappers
  import opened Text
  import opened Catalog
  import opened Xml
  import opened LittleEndian
  import opened BlockMap
  import opened Spaced
  import Calendar
  import Source
  import Stored
  import Zip

  // ---- the manifest ----

  const DECLARATION := "?xml version=\"1.0\"?>\n"
  const MARGIN := "\n  "
  const COLUMN := "\n            "

  /** Who a manifest says its package is by, and of which version. */
  datatype Claim = Claim(name: string, publisher: string, version: string)

  function PackagePairs(): seq<Pair> {
    [Pair("xmlns", "x")]
  }

  function IdentityPairs(claim: Claim): seq<Pair> {
    [Pair("Name", Escape(claim.name)), Pair("ProcessorArchitecture", "neutral"), Pair("Publisher", Escape(claim.publisher)),
     Pair("Version", Escape(claim.version))]
  }

  /** The first attribute stands behind the tag's name, each other one on a line of its own. */
  function IdentityLeads(): seq<string> {
    [" ", COLUMN, COLUMN, COLUMN]
  }

  function Root(): string {
    OpenTag("Package", PackagePairs()) + MARGIN
  }

  function IdentityTag(claim: Claim): string {
    ClosedLayout("Identity", IdentityPairs(claim), IdentityLeads(), " ")
  }

  function ManifestHead(): string {
    ("<" + DECLARATION) + Root()
  }

  function ManifestTail(claim: Claim): string {
    MARGIN + (IdentityTag(claim) + "\n" + "</Package>")
  }

  /** A manifest with a comment before the identity it claims. */
  function PrintManifest(comment: string, claim: Claim): string {
    ManifestHead() + "<!--" + comment + "-->" + ManifestTail(claim)
  }

  /** The comment does not close before its end. */
  predicate CommentOk(comment: string) {
    Find(comment + "-->", "-->") == Some(|comment|)
  }

  lemma PlainText(text: string)
    requires '"' !in text && '<' !in text && '&' !in text
    ensures MarkupFree(text)
  {
  }

  lemma IdentityPairsOk(claim: Claim)
    ensures LayoutOk(IdentityPairs(claim), IdentityLeads(), " ")
    ensures IdentityPairs(claim) != []
  {
    PlainText("neutral");
    LeadsAreSpace();
    hide COLUMN, MarkupFree, Escape;
    NamesAreWords();
    var pairs := IdentityPairs(claim);
    EscapedPairIsOk("Name", claim.name);
    PairIsOk("ProcessorArchitecture", "neutral");
    EscapedPairIsOk("Publisher", claim.publisher);
    EscapedPairIsOk("Version", claim.version);
    assert PairsOk(pairs);
  }

  lemma LeadsAreSpace()
    ensures IsSpace(" ") && IsSpace(COLUMN) && IsSpace(MARGIN) && IsSpace("\n")
  {
  }

  lemma NamesAreWords()
    ensures IsWord("Name") && IsWord("ProcessorArchitecture") && IsWord("Publisher") && IsWord("Version")
  {
  }

  lemma PairIsOk(name: string, text: string)
    requires IsWord(name) && name != "" && MarkupFree(text)
    ensures PairOk(Pair(name, text)) && Free(text, '<')
  {
  }

  lemma EscapedPairIsOk(name: string, value: string)
    requires IsWord(name) && name != ""
    ensures PairOk(Pair(name, Escape(value))) && Free(Escape(value), '<')
  {
    EscapedIsFree(value);
    hide Escape;
  }

  lemma ManifestTags(claim: Claim)
    ensures var declaration, root, identity := "<" + DECLARATION, Root(), IdentityTag(claim) + "\n";
            && IsTag(declaration) && IsTag(root) && IsTag(identity) && IsTag("</Package>") && IsTag("<!--") && IsTag("<" + "Identity")
            && |declaration| > 1 && |root| > 1 && |identity| > 1
            && declaration[1] == '?' && root[1] == 'P' && identity[1] == 'I'
  {
    LeadsAreSpace();
    hide Print, IdentityPairs, IdentityLeads, MARGIN, LayoutOk, IsSpace, Layout;
    IdentityPairsOk(claim);
    ClosedLayoutIsTag("Identity", IdentityPairs(claim), IdentityLeads(), " ");
    SpacedTag(IdentityTag(claim), "\n");
    assert PairOk(Pair("xmlns", "x"));
    PrintedIsTag("Package", PackagePairs());
    SpacedTag(OpenTag("Package", PackagePairs()), MARGIN);
    NotInIsFree(DECLARATION, '<');
    IsTagOf(DECLARATION);
    IsTagOf("Identity");
  }

  lemma NothingFollows()
    ensures TagsFollow("")
  {
  }

  /** None of the manifest's own tags is a comment, and only one is an identity. */
  lemma ManifestTagsDiffer(claim: Claim)
    ensures var declaration, root, identity := "<" + DECLARATION, Root(), IdentityTag(claim) + "\n";
            && !("<!--" <= declaration) && !("<!--" <= root) && !("<!--" <= identity) && !("<!--" <= "</Package>")
            && !("<" + "Identity" <= declaration) && !("<" + "Identity" <= root) && !("<" + "Identity" <= "</Package>")
  {
    var declaration, root, identity := "<" + DECLARATION, Root(), IdentityTag(claim) + "\n";
    ManifestTags(claim);
    hide Root, IdentityTag, DECLARATION, IsTag;
    NotPrefix("<!--", declaration, 1);
    NotPrefix("<!--", root, 1);
    NotPrefix("<!--", identity, 1);
    NotPrefix("<!--", "</Package>", 1);
    NotPrefix("<" + "Identity", declaration, 1);
    NotPrefix("<" + "Identity", root, 1);
    NotPrefix("<" + "Identity", "</Package>", 1);
  }

  lemma TagFollows(piece: string, rest: string)
    requires IsTag(piece)
    ensures TagsFollow(piece + rest)
  {
  }

  lemma ManifestIsStripped(comment: string, claim: Claim)
    requires CommentOk(comment)
    ensures StripComments(PrintManifest(comment, claim)) == ManifestHead() + ManifestTail(claim)
  {
    var declaration, root, identity := "<" + DECLARATION, Root(), IdentityTag(claim) + "\n";
    ManifestTags(claim);
    ManifestTagsDiffer(claim);
    LeadsAreSpace();
    hide Find, StripComments, IsTag, TagsFollow, Root, IdentityTag, DECLARATION, MARGIN, IsSpace;
    TagFollows(root, "<!--");
    TagFollows("<!--", "");
    TagFollows("</Package>", "");
    NothingFollows();
    FindHits("<!--", "", "<!--");
    assert "<!--" + "" == "<!--" && "</Package>" + "" == "</Package>";
    FindSkips(root, "<!--", "<!--");
    FindSkips(declaration, root + "<!--", "<!--");
    Assoc(declaration, root, "<!--");
    FindSkips("</Package>", "", "<!--");
    FindSkips(identity, "</Package>", "<!--");
    FindBehindSpace(MARGIN, identity + "</Package>", "<!--");
    NothingIsFound();
    NoCommentNoStrip(ManifestTail(claim));
    CommentGoes(ManifestHead(), comment, ManifestTail(claim));
  }

  lemma NothingIsFound()
    ensures Find("", "<!--").None?
  {
  }

  lemma SkipToIdentity(declaration: string, root: string, identity: string)
    requires IsTag(declaration) && IsTag(root) && IsTag(identity)
    requires !("<" + "Identity" <= declaration) && !("<" + "Identity" <= root)
    ensures Elements(declaration + root + (identity + "</Package>"), "Identity") == Elements(identity + "</Package>", "Identity")
  {
    assert Free("Identity", '<');
    hide *;
    TagFollows(root, identity + "</Package>");
    TagFollows(identity, "</Package>");
    Assoc(declaration, root, identity + "</Package>");
    ElementsSkips(declaration, root + (identity + "</Package>"), "Identity");
    ElementsSkips(root, identity + "</Package>", "Identity");
  }

  lemma NothingAfterIdentity()
    ensures Elements("\n" + "</Package>", "Identity") == []
  {
    assert IsTag("</Package>") && Free("Identity", '<');
    NotPrefix("<" + "Identity", "</Package>", 1);
    assert "</Package>" + "" == "</Package>";
    LeadsAreSpace();
    hide Elements, IsTag, Free, IsSpace;
    ElementsBehindSpace("\n", "</Package>", "Identity");
    ElementsSkips("</Package>", "", "Identity");
    NothingInNothing("Identity");
  }

  lemma StrippedText(claim: Claim)
    ensures ManifestHead() + ManifestTail(claim) == "<" + DECLARATION + (Root() + MARGIN) + (IdentityTag(claim) + "\n" + "</Package>")
  {
    hide DECLARATION, MARGIN, Root, IdentityTag;
  }

  lemma RootIsSpaced(claim: Claim)
    ensures IsTag(Root() + MARGIN) && !("<" + "Identity" <= Root() + MARGIN)
  {
    ManifestTags(claim);
    LeadsAreSpace();
    hide Root, MARGIN, IsTag, IsSpace;
    SpacedTag(Root(), MARGIN);
    NotPrefix("<" + "Identity", Root() + MARGIN, 1);
  }

  lemma IdentityTagIs(claim: Claim)
    ensures IdentityTag(claim) == ClosedLayout("Identity", IdentityPairs(claim), IdentityLeads(), " ")
  {
  }

  /** The scan finds the one identity, whatever the comment before it says. */
  lemma ManifestIdentity(comment: string, claim: Claim)
    requires CommentOk(comment)
    ensures Elements(StripComments(PrintManifest(comment, claim)), "Identity") ==
            [Element(Layout(IdentityPairs(claim), IdentityLeads(), " "), "")]
  {
    var declaration, root, tag := "<" + DECLARATION, Root() + MARGIN, IdentityTag(claim);
    hide *;
    ManifestIsStripped(comment, claim);
    ManifestTags(claim);
    ManifestTagsDiffer(claim);
    IdentityPairsOk(claim);
    StrippedText(claim);
    RootIsSpaced(claim);
    SkipToIdentity(declaration, root, tag + "\n");
    ReadsClosedLayout("Identity", IdentityPairs(claim), IdentityLeads(), " ", "\n" + "</Package>");
    NothingAfterIdentity();
    IdentityTagIs(claim);
    Assoc(tag, "\n", "</Package>");
  }

  lemma IdentityAttributes(claim: Claim)
    ensures var text := Layout(IdentityPairs(claim), IdentityLeads(), " ");
            && Attribute(text, "Name") == Ok(Some(claim.name))
            && Attribute(text, "Publisher") == Ok(Some(claim.publisher))
            && Attribute(text, "Version") == Ok(Some(claim.version))
  {
    var pairs, leads := IdentityPairs(claim), IdentityLeads();
    IdentityPairsOk(claim);
    ReadsLayout(pairs, leads, " ", "Name");
    ReadsLayout(pairs, leads, " ", "Publisher");
    ReadsLayout(pairs, leads, " ", "Version");
    hide Layout, LayoutOk, Attribute, Escape, DecodeEntities;
    DecodeInvertsEscape(claim.name);
    DecodeInvertsEscape(claim.publisher);
    DecodeInvertsEscape(claim.version);
    ChooseFirst(pairs, "Name");
    ChooseFirst(pairs[2..], "Publisher");
    ChooseFirst(pairs[3..], "Version");
    assert pairs[1..][1..] == pairs[2..] && pairs[2..][1..] == pairs[3..];
    assert Choose(pairs, "Publisher", None) == Choose(pairs[1..], "Publisher", None) == Choose(pairs[2..], "Publisher", None);
    assert Choose(pairs, "Version", None) == Choose(pairs[1..], "Version", None) == Choose(pairs[2..], "Version", None)
        == Choose(pairs[3..], "Version", None);
  }

  /** A manifest is read as the WinGet source's, with its version and the time that encodes, or refused: by what it claims. */
  lemma IdentityIsRead(comment: string, claim: Claim)
    requires CommentOk(comment)
    ensures Source.ParseIdentity(PrintManifest(comment, claim)) ==
            if claim.name == Source.SOURCE_NAME && claim.publisher == Source.SOURCE_PUBLISHER
            then Ok(Source.Identity(claim.version, Calendar.PublishedAt(claim.version)))
            else Err(CatalogIdentityMismatch)
  {
    hide Elements, StripComments, Attribute, PrintManifest, Layout, IdentityLeads, IdentityPairs, Source.SOURCE_NAME, Source.SOURCE_PUBLISHER, Calendar.PublishedAt;
    ManifestIdentity(comment, claim);
    IdentityAttributes(claim);
  }

  // ---- the package ----

  /** A root that declares SHA-256. */
  lemma MapDeclaresSha256(files: seq<File>, sha: Sha256)
    ensures Source.DeclaresSha256(PrintMap(files, sha))
  {
    var root, body := OpenTag("BlockMap", RootPairs()), PrintFiles(files, sha) + "</BlockMap>";
    var declaration := "<" + XML_DECLARATION;
    assert PrintMap(files, sha) == declaration + (root + body);
    MapDeclaration();
    RootPairsOk();
    RootHash();
    hide Elements, RootPairs, OpenTag, XML_DECLARATION, IsTag, TagsFollow, PrintMap, PairsOk, Attribute;
    TagFollows(root, body);
    ElementsSkips(declaration, root + body, "BlockMap");
    ReadsOpenTag("BlockMap", RootPairs(), body);
  }

  lemma MapDeclaration()
    ensures var declaration := "<" + XML_DECLARATION; IsTag(declaration) && !("<" + "BlockMap" <= declaration)
    ensures IsTag(OpenTag("BlockMap", RootPairs())) && Free("BlockMap", '<')
  {
    Prologue();
    var declaration := "<" + XML_DECLARATION;
    assert declaration[1] == '?';
    hide XML_DECLARATION, IsTag, OpenTag, RootPairs;
    NotPrefix("<" + "BlockMap", declaration, 1);
  }

  lemma RootHash()
    ensures Attribute(Print(RootPairs()), "HashMethod") == Ok(Some(HASH_METHOD))
  {
    RootPairsOk();
    ReadsPrinted(RootPairs(), "HashMethod");
    HashIsUnescaped();
    hide Print, Attribute, HASH_METHOD, NAMESPACE, DecodeEntities;
    ChooseFirst(RootPairs()[1..], "HashMethod");
    assert Choose(RootPairs(), "HashMethod", None) == Choose(RootPairs()[1..], "HashMethod", None);
  }

  lemma HashIsUnescaped()
    ensures DecodeEntities(HASH_METHOD) == HASH_METHOD
  {
    NotInIsFree(HASH_METHOD, '&');
    hide HASH_METHOD, DecodeEntities;
    DecodePlain(HASH_METHOD);
  }

  /** What a publisher packs: the listed files, among them the manifest and the index, and what the manifest claims. */
  datatype Contents = Contents(files: seq<File>, manifest: nat, index: nat, comment: string, claim: Claim)

  ghost predicate ContentsOk(c: Contents, p: Source.Platform) {
    && (forall f <- c.files :: FileOk(f))
    && (forall j, k :: 0 <= j < k < |c.files| ==> Listed(c.files[j].name) != Listed(c.files[k].name))
    && c.manifest < |c.files| && c.index < |c.files|
    && c.files[c.manifest].name == Source.MANIFEST_ENTRY && |c.files[c.manifest].bytes| <= Source.MANIFEST_MAX_LEN
    && c.files[c.index].name == Source.INDEX_ENTRY && |c.files[c.index].bytes| <= Source.INDEX_MAX_LEN
    && CommentOk(c.comment)
    && p.utf8(c.files[c.manifest].bytes) == Some(PrintManifest(c.comment, c.claim))
  }

  /** What a compression method makes of stored bytes; None when they are not of that method. */
  type Unpack = (nat, Bytes) -> Option<Bytes>

  /** What a reader makes of a record: the size it declares and the bytes behind it, decompressed. */
  function EntryAt(zip: Bytes, at: nat, unpack: Unpack): Source.Entry {
    var body := Stored.StoredAt(zip, at);
    if body.None? then Source.Entry(0, None) else Source.Entry(body.value.size, unpack(body.value.compression, body.value.data))
  }

  function Reading(unpack: Unpack): (Bytes, nat) -> Source.Entry {
    (zip: Bytes, at: nat) => EntryAt(zip, at, unpack)
  }

  /** An entry of that name holds those bytes, compressed or not. */
  predicate IsPacked(entries: seq<Zip.Entry>, text: Bytes -> string, unpack: Unpack, name: string, bytes: Bytes) {
    exists k :: 0 <= k < |entries| && text(entries[k].name) == name && entries[k].bytes == bytes
                && unpack(entries[k].compression, entries[k].data) == Some(bytes)
  }

  /** The archive's entries are the files and, under its name, the text of their block map. */
  ghost predicate Packs(entries: seq<Zip.Entry>, unpack: Unpack, blockMap: Bytes, c: Contents, p: Source.Platform) {
    && (forall f <- c.files :: IsPacked(entries, p.text, unpack, f.name, f.bytes))
    && IsPacked(entries, p.text, unpack, Source.BLOCK_MAP_ENTRY, blockMap)
    && |blockMap| <= Source.BLOCK_MAP_MAX_LEN && p.utf8(blockMap) == Some(PrintMap(c.files, p.sha))
  }

  /** The reader of an archive decompresses what the directory's records lead to, and counts as many entries. */
  ghost predicate ReaderOk(p: Source.Platform, unpack: Unpack, msix: Bytes, count: nat) {
    p.reader(msix).Some? && p.reader(msix).value.len == count && Source.ReadsDirectory(p.reader(msix).value, msix, p.text, Reading(unpack))
  }

  /** What such a reader sees of a package: the block map and the files, with their bytes. */
  ghost predicate ReadsBack(archive: Option<Source.Archive>, c: Contents, count: nat, p: Source.Platform) {
    && archive.Some? && archive.value.len == count
    && (forall f <- c.files :: f.name in archive.value.entries && archive.value.entries[f.name] == Source.Entry(|f.bytes|, Some(f.bytes)))
    && Source.BLOCK_MAP_ENTRY in archive.value.entries
    && var map_ := archive.value.entries[Source.BLOCK_MAP_ENTRY];
       && map_.size <= Source.BLOCK_MAP_MAX_LEN && map_.bytes.Some? && |map_.bytes.value| == map_.size
       && p.utf8(map_.bytes.value) == Some(PrintMap(c.files, p.sha))
  }

  lemma PackedIsFound(entries: seq<Zip.Entry>, unpack: Unpack, crc: Bytes -> nat, p: Source.Platform, name: string, bytes: Bytes)
    requires Zip.Fits(entries, crc) && Zip.Distinct(Zip.Texts(entries, p.text)) && IsPacked(entries, p.text, unpack, name, bytes)
    requires ReaderOk(p, unpack, Zip.Archive(entries, crc, []), |entries|)
    ensures var found := p.reader(Zip.Archive(entries, crc, [])).value.entries;
            name in found && found[name] == Source.Entry(|bytes|, Some(bytes))
  {
    hide Zip.Archive, Zip.Names, Zip.Distinct, Zip.Fits, Zip.Texts, Stored.AreRecords, Stored.ReadsRecords, Stored.StoredAt;
    var msix, names := Zip.Archive(entries, crc, []), Zip.Texts(entries, p.text);
    var found := p.reader(msix).value.entries;
    Zip.NoCommentIsPlain(msix);
    Zip.ArchiveIsRead(entries, crc, [], p.text);
    var starts := Stored.ArchiveIsStored(entries, crc, p.text);
    Stored.TextsAreAsMany(entries, p.text);
    var other :| |other| == |names| && Stored.AreRecords(msix, p.text, names, other) && Stored.ReadsRecords(found, msix, names, other, Reading(unpack));
    Stored.RecordsAreFixed(msix, p.text, names, starts, other);
    var k: nat :| k < |entries| && p.text(entries[k].name) == name && entries[k].bytes == bytes
              && unpack(entries[k].compression, entries[k].data) == Some(bytes);
    Stored.DistinctReaderFinds(found, msix, names, starts, Reading(unpack), k);
  }

  lemma PackageIsReadBack(c: Contents, entries: seq<Zip.Entry>, unpack: Unpack, blockMap: Bytes, crc: Bytes -> nat, p: Source.Platform)
    requires Zip.Fits(entries, crc) && Zip.Distinct(Zip.Texts(entries, p.text)) && Packs(entries, unpack, blockMap, c, p)
    requires ReaderOk(p, unpack, Zip.Archive(entries, crc, []), |entries|)
    ensures ReadsBack(p.reader(Zip.Archive(entries, crc, [])), c, |entries|, p)
  {
    hide Zip.Archive, Zip.Distinct, Zip.Fits, Zip.Texts, IsPacked, PrintMap, Source.ReadsDirectory;
    forall f | f in c.files
      ensures var found := p.reader(Zip.Archive(entries, crc, [])).value.entries;
              f.name in found && found[f.name] == Source.Entry(|f.bytes|, Some(f.bytes))
    {
      PackedIsFound(entries, unpack, crc, p, f.name, f.bytes);
    }
    PackedIsFound(entries, unpack, crc, p, Source.BLOCK_MAP_ENTRY, blockMap);
  }

  lemma PackageOpens(c: Contents, entries: seq<Zip.Entry>, crc: Bytes -> nat, p: Source.Platform)
    requires ContentsOk(c, p) && IsSha(p.sha) && Zip.Fits(entries, crc) && Zip.Distinct(Zip.Texts(entries, p.text))
    requires ReadsBack(p.reader(Zip.Archive(entries, crc, [])), c, |Zip.Texts(entries, p.text)|, p)
    ensures var msix := Zip.Archive(entries, crc, []);
            Source.Opened(msix, p) == Ok(Source.Content(p.reader(msix).value, PrintMap(c.files, p.sha)))
  {
    hide Zip.Archive, Zip.Names, Zip.Distinct, Zip.Texts, Zip.Fits, PrintMap, Source.DeclaresSha256, IsSha, ContentsOk;
    var msix := Zip.Archive(entries, crc, []);
    Zip.NoCommentIsPlain(msix);
    Zip.ArchiveIsRead(entries, crc, [], p.text);
    MapDeclaresSha256(c.files, p.sha);
  }

  lemma FileIsRead(c: Contents, i: nat, maxLen: nat, archive: Source.Archive, count: nat, p: Source.Platform)
    requires ReadsBack(Some(archive), c, count, p) && i < |c.files| && |c.files[i].bytes| <= maxLen
    ensures Source.RawEntry(archive, c.files[i].name, maxLen) == Ok(c.files[i].bytes)
  {
    hide PrintMap;
    assert c.files[i] in c.files;
  }

  lemma FileIsBelieved(c: Contents, i: nat, maxLen: nat, archive: Source.Archive, count: nat, p: Source.Platform)
    requires ContentsOk(c, p) && IsSha(p.sha) && ReadsBack(Some(archive), c, count, p) && i < |c.files| && |c.files[i].bytes| <= maxLen
    ensures Source.Believed(Source.Content(archive, PrintMap(c.files, p.sha)), c.files[i].name, maxLen, p.sha) == Ok(c.files[i].bytes)
  {
    FileIsRead(c, i, maxLen, archive, count, p);
    hide PrintMap, Accepts, IsSha, FileOk, Listed, ReadsBack, Source.RawEntry;
    PrintedMapAccepts(c.files, i, p.sha);
  }

  /**
   A package is extracted end to end: through the ZIP directory and the records it leads to, the block map, the manifest's
   identity and the age of its version. What comes out is the version and exactly the index packed, if the manifest claims
   to be the WinGet source's by its publisher, and a refusal for whatever else it claims.
   */
  lemma PackageIsExtracted(c: Contents, entries: seq<Zip.Entry>, unpack: Unpack, blockMap: Bytes, crc: Bytes -> nat, notBefore: int,
                           p: Source.Platform)
    requires ContentsOk(c, p) && IsSha(p.sha) && Packs(entries, unpack, blockMap, c, p)
    requires Zip.Fits(entries, crc) && Zip.Distinct(Zip.Texts(entries, p.text)) && ReaderOk(p, unpack, Zip.Archive(entries, crc, []), |entries|)
    ensures var published := Calendar.PublishedAt(c.claim.version);
            Source.ExtractedFrom(Zip.Archive(entries, crc, []), notBefore, p) ==
            if c.claim.name != Source.SOURCE_NAME || c.claim.publisher != Source.SOURCE_PUBLISHER then Err(CatalogIdentityMismatch)
            else if published.Some? && published.value < notBefore then Err(CatalogIndexStale)
            else Ok(Source.Extracted(Source.Identity(c.claim.version, published), c.files[c.index].bytes))
  {
    hide *;
    PackageIsReadBack(c, entries, unpack, blockMap, crc, p);
    Stored.TextsAreAsMany(entries, p.text);
    ReadPackageIsExtracted(c, entries, crc, notBefore, p);
  }

  lemma ReadsBackSome(c: Contents, archive: Option<Source.Archive>, count: nat, p: Source.Platform)
    requires ReadsBack(archive, c, count, p)
    ensures archive.Some?
  {
  }

  lemma ReadPackageIsExtracted(c: Contents, entries: seq<Zip.Entry>, crc: Bytes -> nat, notBefore: int, p: Source.Platform)
    requires ContentsOk(c, p) && IsSha(p.sha) && Zip.Fits(entries, crc) && Zip.Distinct(Zip.Texts(entries, p.text))
    requires ReadsBack(p.reader(Zip.Archive(entries, crc, [])), c, |Zip.Texts(entries, p.text)|, p)
    ensures var published := Calendar.PublishedAt(c.claim.version);
            Source.ExtractedFrom(Zip.Archive(entries, crc, []), notBefore, p) ==
            if c.claim.name != Source.SOURCE_NAME || c.claim.publisher != Source.SOURCE_PUBLISHER then Err(CatalogIdentityMismatch)
            else if published.Some? && published.value < notBefore then Err(CatalogIndexStale)
            else Ok(Source.Extracted(Source.Identity(c.claim.version, published), c.files[c.index].bytes))
  {
    hide Source.Opened, Source.Believed, Source.ParseIdentity, Calendar.PublishedAt, PrintMap, PrintManifest, Zip.Archive, Zip.Texts,
      Zip.Distinct, Zip.Fits, IsSha, Source.SOURCE_NAME, Source.SOURCE_PUBLISHER, Source.MANIFEST_ENTRY,
      Source.INDEX_ENTRY, FileOk, Listed, CommentOk;
    ReadsBackSome(c, p.reader(Zip.Archive(entries, crc, [])), |Zip.Texts(entries, p.text)|, p);
    var count := |Zip.Texts(entries, p.text)|;
    var archive := p.reader(Zip.Archive(entries, crc, [])).value;
    PackageOpens(c, entries, crc, p);
    FileIsBelieved(c, c.manifest, Source.MANIFEST_MAX_LEN, archive, count, p);
    FileIsBelieved(c, c.index, Source.INDEX_MAX_LEN, archive, count, p);
    IdentityIsRead(c.comment, c.claim);
  }
}
