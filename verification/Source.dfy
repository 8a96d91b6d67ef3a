/** The source package opened: what is believed of it, whichever ZIP reader resolved the archive. */
module Source {
  import opened Wrappers
  import opened Text
  import opened Catalog
  import opened Xml
  import opened LittleEndian
  import BlockMap
  import Calendar
  import Stored
  import Zip

  const SOURCE_NAME := "Microsoft.Winget.Source"
  const SOURCE_PUBLISHER := "CN=Microsoft Corporation, O=Microsoft Corporation, L=Redmond, S=Washington, C=US"
  const MANIFEST_ENTRY := "AppxManifest.xml"
  const BLOCK_MAP_ENTRY := "AppxBlockMap.xml"
  const INDEX_ENTRY := "Public/index.db"
  const MANIFEST_MAX_LEN := 0x10_0000
  const BLOCK_MAP_MAX_LEN := 0x100_0000
  const INDEX_MAX_LEN := 0x1000_0000

  /** One entry as the ZIP reader sees it: the size it declares, and what reading it gives. */
  datatype Entry = Entry(size: nat, bytes: Option<Bytes>)

  datatype Archive = Archive(len: nat, entries: map<string, Entry>)

  /** What the opening leans on: the text of a name, UTF-8, SHA-256 and a ZIP reader, none of them trusted for more. */
  datatype Platform = Platform(text: Bytes -> string, utf8: Bytes -> Option<string>, sha: BlockMap.Sha256, reader: Bytes -> Option<Archive>)

  datatype Content = Content(archive: Archive, blockMap: string)

  datatype Identity = Identity(version: string, publishedAt: Option<int>)

  function RawEntry(archive: Archive, name: string, maxLen: nat): Result<Bytes, Reason> {
    if name !in archive.entries then Err(CatalogIntegrityFailure)
    else
      var entry := archive.entries[name];
      if entry.size > maxLen || entry.bytes.None? then Err(CatalogIntegrityFailure)
      else Ok(if |entry.bytes.value| > maxLen + 1 then entry.bytes.value[..maxLen + 1] else entry.bytes.value)
  }

  /** The first start tag must declare SHA-256 as the map's hash. */
  predicate DeclaresSha256(blockMap: string) {
    var roots := Elements(blockMap, "BlockMap");
    roots != [] && Attribute(roots[0].attributes, "HashMethod") == Ok(Some(BlockMap.HASH_METHOD))
  }

  ghost function Opened(msix: Bytes, p: Platform): Result<Content, Reason> {
    var names, archive := Zip.Names(msix, p.text), p.reader(msix);
    if names.Err? then Err(names.error)
    else if !Zip.Distinct(names.value) then Err(CatalogIntegrityFailure)
    else if archive.None? then Err(CatalogUnavailable)
    else if archive.value.len != |names.value| then Err(CatalogIntegrityFailure)
    else
      var raw := RawEntry(archive.value, BLOCK_MAP_ENTRY, BLOCK_MAP_MAX_LEN);
      if raw.Err? then Err(raw.error)
      else
        var blockMap := p.utf8(raw.value);
        if blockMap.None? || !DeclaresSha256(blockMap.value) then Err(CatalogIntegrityFailure)
        else Ok(Content(archive.value, blockMap.value))
  }

  method Open(msix: Bytes, p: Platform) returns (r: Result<Content, Reason>)
    ensures r == Opened(msix, p)
  {
    hide Elements, Attribute, Zip.Distinct, Zip.Names;
    var names, _ := Zip.CentralDirectoryNames(msix, p.text);
    if names.Err? {
      return Err(names.error);
    }
    var duplicate := Zip.RefuseDuplicates(names.value);
    if duplicate.Some? {
      return Err(duplicate.value);
    }
    var archive := p.reader(msix);
    if archive.None? {
      return Err(CatalogUnavailable);
    }
    if archive.value.len != |names.value| {
      return Err(CatalogIntegrityFailure);
    }
    var raw := RawEntry(archive.value, BLOCK_MAP_ENTRY, BLOCK_MAP_MAX_LEN);
    if raw.Err? {
      return Err(raw.error);
    }
    var blockMap := p.utf8(raw.value);
    if blockMap.None? {
      return Err(CatalogIntegrityFailure);
    }
    var roots := ElementsLoop(blockMap.value, "BlockMap");
    if |roots| == 0 {
      return Err(CatalogIntegrityFailure);
    }
    var hashMethod := AttributeLoop(roots[0].attributes, "HashMethod");
    BlockMap.AttributeFails(TrimStart(roots[0].attributes), "HashMethod", None);
    if hashMethod != Ok(Some(BlockMap.HASH_METHOD)) {
      return Err(CatalogIntegrityFailure);
    }
    return Ok(Content(archive.value, blockMap.value));
  }

  /** One file's bytes: only those the block map describes. */
  function Believed(content: Content, name: string, maxLen: nat, sha: BlockMap.Sha256): Result<Bytes, Reason> {
    var raw := RawEntry(content.archive, name, maxLen);
    if raw.Err? then raw
    else if BlockMap.Accepts(content.blockMap, name, raw.value, sha) then raw
    else Err(CatalogIntegrityFailure)
  }

  method ReadEntry(content: Content, name: string, maxLen: nat, sha: BlockMap.Sha256) returns (r: Result<Bytes, Reason>)
    ensures r == Believed(content, name, maxLen, sha)
  {
    hide BlockMap.Accepts;
    var raw := RawEntry(content.archive, name, maxLen);
    if raw.Err? {
      return raw;
    }
    var refusal := BlockMap.VerifyBlockMap(content.blockMap, name, raw.value, sha);
    if refusal.Some? {
      return Err(refusal.value);
    }
    return raw;
  }

  /** The one `<Identity>` of the manifest, which must be the WinGet source's. */
  function ParseIdentity(manifest: string): Result<Identity, Reason> {
    var tags := Elements(StripComments(manifest), "Identity");
    if |tags| != 1 then Err(CatalogIdentityMismatch)
    else
      var name, publisher, version :=
        Attribute(tags[0].attributes, "Name"), Attribute(tags[0].attributes, "Publisher"), Attribute(tags[0].attributes, "Version");
      if name != Ok(Some(SOURCE_NAME)) || publisher != Ok(Some(SOURCE_PUBLISHER)) then Err(CatalogIdentityMismatch)
      else if version.Err? || version.value.None? then Err(CatalogIdentityMismatch)
      else Ok(Identity(version.value.value, Calendar.PublishedAt(version.value.value)))
  }

  datatype Extracted = Extracted(identity: Identity, index: Bytes)

  function IdentityOf(content: Content, p: Platform): Result<Identity, Reason> {
    var manifest := Believed(content, MANIFEST_ENTRY, MANIFEST_MAX_LEN, p.sha);
    if manifest.Err? then Err(manifest.error)
    else
      var text := p.utf8(manifest.value);
      if text.None? then Err(CatalogIdentityMismatch) else ParseIdentity(text.value)
  }

  /** The index out of the package, once its content, its identity and its age have passed. */
  ghost function ExtractedFrom(msix: Bytes, notBefore: int, p: Platform): Result<Extracted, Reason> {
    var content := Opened(msix, p);
    if content.Err? then Err(content.error)
    else
      var identity := IdentityOf(content.value, p);
      if identity.Err? then Err(identity.error)
      else
        var stale := Calendar.CheckFresh(identity.value.publishedAt, notBefore);
        if stale.Some? then Err(stale.value)
        else
          var index := Believed(content.value, INDEX_ENTRY, INDEX_MAX_LEN, p.sha);
          if index.Err? then Err(index.error) else Ok(Extracted(identity.value, index.value))
  }

  method ExtractIndex(msix: Bytes, notBefore: int, p: Platform) returns (r: Result<Extracted, Reason>)
    ensures r == ExtractedFrom(msix, notBefore, p)
  {
    hide Opened, Believed, ParseIdentity;
    var content := Open(msix, p);
    if content.Err? {
      return Err(content.error);
    }
    var manifest := ReadEntry(content.value, MANIFEST_ENTRY, MANIFEST_MAX_LEN, p.sha);
    if manifest.Err? {
      return Err(manifest.error);
    }
    var text := p.utf8(manifest.value);
    if text.None? {
      return Err(CatalogIdentityMismatch);
    }
    var identity := ParseIdentity(text.value);
    if identity.Err? {
      return Err(identity.error);
    }
    var stale := Calendar.CheckFresh(identity.value.publishedAt, notBefore);
    if stale.Some? {
      return Err(stale.value);
    }
    var index := ReadEntry(content.value, INDEX_ENTRY, INDEX_MAX_LEN, p.sha);
    if index.Err? {
      return Err(index.error);
    }
    return Ok(Extracted(identity.value, index.value));
  }

  // ---- what is believed is what was signed ----

  /** Two blocks of these two byte strings are a collision of the hash. */
  ghost predicate Collision(a: Bytes, b: Bytes, sha: BlockMap.Sha256) {
    exists k :: 0 <= k < |BlockMap.Chunks(a)| && k < |BlockMap.Chunks(b)|
                && BlockMap.Collide(BlockMap.Chunks(a)[k], BlockMap.Chunks(b)[k], sha)
  }

  ghost function BytesOf(msix: Bytes, name: string, maxLen: nat, p: Platform): Bytes
    requires Opened(msix, p).Ok?
  {
    var r := Believed(Opened(msix, p).value, name, maxLen, p.sha);
    if r.Ok? then r.value else []
  }

  /** What is believed is what the map lists, no longer than asked for but by a byte. */
  lemma BelievedIsListed(content: Content, name: string, maxLen: nat, sha: BlockMap.Sha256)
    ensures var r := Believed(content, name, maxLen, sha);
            if r.Ok? then BlockMap.Accepts(content.blockMap, name, r.value, sha) && |r.value| <= maxLen + 1
            else r.error == CatalogIntegrityFailure
  {
    hide BlockMap.Accepts;
  }

  /**
   Two packages opened by any two ZIP readers, as long as both found the one signed block map, give the same index and
   the same identity, or two blocks of their two manifests or of their two indexes collide.
   */
  lemma ReadersAgree(a: Bytes, b: Bytes, notBefore: int, p: Platform, q: Platform)
    requires p.sha == q.sha && p.utf8 == q.utf8
    requires ExtractedFrom(a, notBefore, p).Ok? && ExtractedFrom(b, notBefore, q).Ok?
    requires Opened(a, p).value.blockMap == Opened(b, q).value.blockMap
    ensures || ExtractedFrom(a, notBefore, p) == ExtractedFrom(b, notBefore, q)
            || Collision(BytesOf(a, MANIFEST_ENTRY, MANIFEST_MAX_LEN, p), BytesOf(b, MANIFEST_ENTRY, MANIFEST_MAX_LEN, q), p.sha)
            || Collision(BytesOf(a, INDEX_ENTRY, INDEX_MAX_LEN, p), BytesOf(b, INDEX_ENTRY, INDEX_MAX_LEN, q), p.sha)
  {
    hide Opened, BlockMap.Accepts, ParseIdentity, BlockMap.Chunks, Collision;
    var x, y := Opened(a, p).value, Opened(b, q).value;
    EntriesAgree(x, y, MANIFEST_ENTRY, MANIFEST_MAX_LEN, p.sha);
    EntriesAgree(x, y, INDEX_ENTRY, INDEX_MAX_LEN, p.sha);
    hide Believed;
  }

  /** A reader that takes, for a name, any one of the directory's records of it, and makes of it what `make` says. */
  ghost predicate ReadsDirectory(archive: Archive, msix: Bytes, text: Bytes -> string, make: (Bytes, nat) -> Entry) {
    var names := Zip.Names(msix, text);
    names.Ok? ==> exists starts ::
      && |starts| == |names.value| && Stored.AreRecords(msix, text, names.value, starts)
      && Stored.ReadsRecords(archive.entries, msix, names.value, starts, make)
  }

  /** Of one package, whichever record of a name two readers take, what is believed is the same: no name has two records. */
  lemma OnePackageOneReading(msix: Bytes, notBefore: int, p: Platform, q: Platform, make: (Bytes, nat) -> Entry)
    requires p.sha == q.sha && p.utf8 == q.utf8 && p.text == q.text
    requires Opened(msix, p).Ok? && Opened(msix, q).Ok?
    requires ReadsDirectory(p.reader(msix).value, msix, p.text, make) && ReadsDirectory(q.reader(msix).value, msix, q.text, make)
    ensures Opened(msix, p) == Opened(msix, q) && ExtractedFrom(msix, notBefore, p) == ExtractedFrom(msix, notBefore, q)
  {
    hide Zip.Distinct, Zip.Names, Stored.AreRecords, Stored.ReadsRecords, DeclaresSha256, IdentityOf, Believed;
    var names := Zip.Names(msix, p.text).value;
    var a, b := p.reader(msix).value, q.reader(msix).value;
    var x :| |x| == |names| && Stored.AreRecords(msix, p.text, names, x) && Stored.ReadsRecords(a.entries, msix, names, x, make);
    var y :| |y| == |names| && Stored.AreRecords(msix, q.text, names, y) && Stored.ReadsRecords(b.entries, msix, names, y, make);
    Stored.RecordsAreFixed(msix, p.text, names, x, y);
    Stored.DistinctReadersAgree(a.entries, b.entries, msix, names, x, make);
    assert a == b;
    assert Opened(msix, p) == Opened(msix, q);
    hide Opened;
    SameContentSameIdentity(Opened(msix, p).value, p, q);
  }

  lemma SameContentSameIdentity(content: Content, p: Platform, q: Platform)
    requires p.sha == q.sha && p.utf8 == q.utf8
    ensures IdentityOf(content, p) == IdentityOf(content, q)
  {
    hide Believed, ParseIdentity;
  }

  lemma EntriesAgree(a: Content, b: Content, name: string, maxLen: nat, sha: BlockMap.Sha256)
    requires a.blockMap == b.blockMap && Believed(a, name, maxLen, sha).Ok? && Believed(b, name, maxLen, sha).Ok?
    ensures var x, y := Believed(a, name, maxLen, sha).value, Believed(b, name, maxLen, sha).value;
            x == y || Collision(x, y, sha)
  {
    hide BlockMap.Accepts, BlockMap.Chunks, BlockMap.Collide;
    BlockMap.BlockMapDetermines(a.blockMap, name, Believed(a, name, maxLen, sha).value, Believed(b, name, maxLen, sha).value, sha);
  }

  /** The one identity of a manifest, comments stripped, is the WinGet source's, of that version. */
  ghost predicate IsOfSource(manifest: string, version: string) {
    var tags := Elements(StripComments(manifest), "Identity");
    && |tags| == 1
    && Attribute(tags[0].attributes, "Name") == Ok(Some(SOURCE_NAME))
    && Attribute(tags[0].attributes, "Publisher") == Ok(Some(SOURCE_PUBLISHER))
    && Attribute(tags[0].attributes, "Version") == Ok(Some(version))
  }

  /** A manifest is read exactly if it is the WinGet source's, and as just that; every other is refused as a mismatch. */
  lemma IdentityIsOfSource(manifest: string)
    ensures var r := ParseIdentity(manifest);
            if r.Ok? then IsOfSource(manifest, r.value.version) && r.value.publishedAt == Calendar.PublishedAt(r.value.version)
            else r.error == CatalogIdentityMismatch && forall version :: !IsOfSource(manifest, version)
  {
    hide Elements, StripComments, Attribute, Calendar.PublishedAt, SOURCE_NAME, SOURCE_PUBLISHER;
  }

  /**
   What an accepted index has passed: distinct names in the directory and as many entries as the reader saw, a block map of
   SHA-256, a manifest and an index it lists, and an identity of the WinGet source read out of that manifest.
   */
  lemma AcceptedIndexIsChecked(msix: Bytes, notBefore: int, p: Platform)
    requires ExtractedFrom(msix, notBefore, p).Ok?
    ensures var r := ExtractedFrom(msix, notBefore, p).value;
            && Zip.Names(msix, p.text).Ok? && Zip.Distinct(Zip.Names(msix, p.text).value)
            && p.reader(msix).Some? && p.reader(msix).value.len == |Zip.Names(msix, p.text).value|
            && Opened(msix, p).Ok? && IsOfSha256(Opened(msix, p).value.blockMap)
            && BlockMap.Accepts(Opened(msix, p).value.blockMap, INDEX_ENTRY, r.index, p.sha)
            && var manifest := BytesOf(msix, MANIFEST_ENTRY, MANIFEST_MAX_LEN, p);
               && BlockMap.Accepts(Opened(msix, p).value.blockMap, MANIFEST_ENTRY, manifest, p.sha)
               && p.utf8(manifest).Some? && IsOfSource(p.utf8(manifest).value, r.identity.version)
  {
    hide Zip.Names, Zip.Distinct, BlockMap.Accepts, ParseIdentity, IsOfSource, IsOfSha256, DeclaresSha256, Calendar.CheckFresh;
    AcceptedIsBelieved(msix, notBefore, p);
    OpenedIsOfSha256(msix, p);
    IdentityIsOfSource(p.utf8(BytesOf(msix, MANIFEST_ENTRY, MANIFEST_MAX_LEN, p)).value);
  }

  /** The first start tag of the map is its root, which names SHA-256 as the hash of its blocks. */
  ghost predicate IsOfSha256(blockMap: string) {
    var roots := Elements(blockMap, "BlockMap");
    |roots| > 0 && Attribute(roots[0].attributes, "HashMethod") == Ok(Some("http://www.w3.org/2001/04/xmlenc#sha256"))
  }

  lemma OpenedIsOfSha256(msix: Bytes, p: Platform)
    requires Opened(msix, p).Ok?
    ensures IsOfSha256(Opened(msix, p).value.blockMap)
  {
    hide Zip.Names, Zip.Distinct, RawEntry, Elements, Attribute;
  }

  lemma AcceptedIsBelieved(msix: Bytes, notBefore: int, p: Platform)
    requires ExtractedFrom(msix, notBefore, p).Ok?
    ensures var r := ExtractedFrom(msix, notBefore, p).value;
            && Opened(msix, p).Ok?
            && BlockMap.Accepts(Opened(msix, p).value.blockMap, INDEX_ENTRY, r.index, p.sha)
            && var manifest := BytesOf(msix, MANIFEST_ENTRY, MANIFEST_MAX_LEN, p);
               && BlockMap.Accepts(Opened(msix, p).value.blockMap, MANIFEST_ENTRY, manifest, p.sha)
               && p.utf8(manifest).Some? && ParseIdentity(p.utf8(manifest).value) == Ok(r.identity)
  {
    hide Opened, RawEntry, BlockMap.Accepts, ParseIdentity, Calendar.CheckFresh;
  }

  /** When the version of an accepted index is a time, it is no older than the bound. */
  lemma AcceptedIndexIsFresh(msix: Bytes, notBefore: int, p: Platform)
    requires ExtractedFrom(msix, notBefore, p).Ok?
    ensures var identity := ExtractedFrom(msix, notBefore, p).value.identity;
            && identity.publishedAt == Calendar.PublishedAt(identity.version)
            && (identity.publishedAt.Some? ==> identity.publishedAt.value >= notBefore)
  {
    hide Opened, Believed, Elements, StripComments, Attribute, Calendar.PublishedAt;
  }

  /** The manifest's version is a time before the bound. */
  ghost predicate IsStale(manifest: string, notBefore: int) {
    exists version :: IsOfSource(manifest, version) && Calendar.PublishedAt(version).Some? && Calendar.PublishedAt(version).value < notBefore
  }

  /**
   Why a package gives no index: it cannot be opened as an archive, its manifest is not the WinGet source's, its time is before
   the bound, or anything else about it, which is an integrity failure.
   */
  lemma ExtractionFails(msix: Bytes, notBefore: int, p: Platform)
    requires ExtractedFrom(msix, notBefore, p).Err?
    ensures var reason, names := ExtractedFrom(msix, notBefore, p).error, Zip.Names(msix, p.text);
            if Opened(msix, p).Err? then
              reason == if names.Ok? && Zip.Distinct(names.value) && p.reader(msix).None? then CatalogUnavailable else CatalogIntegrityFailure
            else
              var content := Opened(msix, p).value;
              var manifest := Believed(content, MANIFEST_ENTRY, MANIFEST_MAX_LEN, p.sha);
              if manifest.Err? then reason == CatalogIntegrityFailure
              else if p.utf8(manifest.value).None? || forall version :: !IsOfSource(p.utf8(manifest.value).value, version) then
                reason == CatalogIdentityMismatch
              else
                && (reason == CatalogIndexStale ==> IsStale(p.utf8(manifest.value).value, notBefore))
                && (reason != CatalogIndexStale ==>
                      reason == CatalogIntegrityFailure && Believed(content, INDEX_ENTRY, INDEX_MAX_LEN, p.sha).Err?)
  {
    hide Zip.Names, Zip.Distinct, Believed, IsOfSource, ParseIdentity, DeclaresSha256, Calendar.PublishedAt, RawEntry;
    NamesFail(msix, p);
    if Opened(msix, p).Err? {
      OpeningFails(msix, p);
    } else {
      hide Opened;
      var content := Opened(msix, p).value;
      BelievedIsListed(content, MANIFEST_ENTRY, MANIFEST_MAX_LEN, p.sha);
      BelievedIsListed(content, INDEX_ENTRY, INDEX_MAX_LEN, p.sha);
      var manifest := Believed(content, MANIFEST_ENTRY, MANIFEST_MAX_LEN, p.sha);
      if manifest.Ok? && p.utf8(manifest.value).Some? {
        IdentityIsOfSource(p.utf8(manifest.value).value);
      }
    }
  }

  lemma NamesFail(msix: Bytes, p: Platform)
    ensures Zip.Names(msix, p.text).Err? ==> Zip.Names(msix, p.text).error == CatalogIntegrityFailure
  {
    Zip.NamesMean(msix, p.text, []);
    hide Zip.Names, Zip.LeadsTo, Zip.AreNamed;
  }

  lemma OpeningFails(msix: Bytes, p: Platform)
    requires Opened(msix, p).Err?
    ensures var names := Zip.Names(msix, p.text);
            Opened(msix, p).error ==
            if names.Ok? && Zip.Distinct(names.value) && p.reader(msix).None? then CatalogUnavailable else CatalogIntegrityFailure
  {
    hide Zip.Names, Zip.Distinct, DeclaresSha256;
    NamesFail(msix, p);
  }
}
