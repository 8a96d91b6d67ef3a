/** Packages and a platform that the extraction's promises are about: any version, any two indexes. */
module Sample {
  import opened Wrappers
  import opened Text
  import opened Catalog
  import opened LittleEndian
  import opened BlockMap
  import opened Package
  import Calendar
  import Hostile
  import Resolution
  import Source
  import Stored
  import Withheld
  import Zip

  // ---- a ZIP reader there is ----

  lemma HasRecords(msix: Bytes, text: Bytes -> string)
    requires Zip.Names(msix, text).Ok?
    ensures exists starts :: |starts| == |Zip.Names(msix, text).value| && Stored.AreRecords(msix, text, Zip.Names(msix, text).value, starts)
  {
    hide Zip.Names, Stored.AreRecords;
    var starts := Stored.NamesHaveRecords(msix, text);
  }

  ghost function StartsOf(msix: Bytes, text: Bytes -> string): (starts: seq<nat>)
    requires Zip.Names(msix, text).Ok?
    ensures |starts| == |Zip.Names(msix, text).value| && Stored.AreRecords(msix, text, Zip.Names(msix, text).value, starts)
  {
    HasRecords(msix, text);
    var starts :| |starts| == |Zip.Names(msix, text).value| && Stored.AreRecords(msix, text, Zip.Names(msix, text).value, starts);
    starts
  }

  /** Of each name what the first record of it leads to. */
  function EntriesAt(msix: Bytes, names: seq<string>, starts: seq<nat>, unpack: Unpack): (found: map<string, Source.Entry>)
    requires |names| == |starts|
    ensures forall name <- found :: exists k :: 0 <= k < |names| && names[k] == name && found[name] == EntryAt(msix, starts[k], unpack)
    ensures forall name <- names :: name in found
  {
    if names == [] then map[]
    else
      var rest := EntriesAt(msix, names[1..], starts[1..], unpack);
      assert forall k :: 0 < k < |names| ==> names[k] == names[1..][k - 1] && starts[k] == starts[1..][k - 1];
      rest[names[0] := EntryAt(msix, starts[0], unpack)]
  }

  ghost function ArchiveOf(msix: Bytes, text: Bytes -> string, unpack: Unpack): Option<Source.Archive> {
    var names := Zip.Names(msix, text);
    if names.Err? then None
    else Some(Source.Archive(|names.value|, EntriesAt(msix, names.value, StartsOf(msix, text), unpack)))
  }

  /** Of each name the first record. */
  ghost function FirstRecords(text: Bytes -> string, unpack: Unpack): Bytes -> Option<Source.Archive> {
    (msix: Bytes) => ArchiveOf(msix, text, unpack)
  }

  /** Such a reader meets, for every archive, what is asked of a reader. */
  lemma FirstRecordsIsOk(p: Source.Platform, unpack: Unpack, msix: Bytes)
    requires p.reader == FirstRecords(p.text, unpack) && Zip.Names(msix, p.text).Ok?
    ensures ReaderOk(p, unpack, msix, |Zip.Names(msix, p.text).value|)
  {
    hide Zip.Names, Stored.AreRecords, EntryAt;
    var names, starts, make := Zip.Names(msix, p.text).value, StartsOf(msix, p.text), Reading(unpack);
    var found := ArchiveOf(msix, p.text, unpack).value.entries;
    assert p.reader(msix) == ArchiveOf(msix, p.text, unpack);
    assert Stored.ReadsRecords(found, msix, names, starts, make);
  }

  // ---- the package ----

  /** Two indexes, the moment both packages are of, and the hash. */
  datatype Box = Box(first: Bytes, second: Bytes, moment: Calendar.Moment, sha: Sha256)

  ghost predicate BoxOk(box: Box) {
    && IsSha(box.sha) && |box.first| <= Source.INDEX_MAX_LEN && |box.second| <= Source.INDEX_MAX_LEN
    && Calendar.IsDate(box.moment.date) && 2000 <= box.moment.date.year <= 9999 && box.moment.hour <= 23 && box.moment.minute <= 59
  }

  function VersionOf(box: Box): string
    requires BoxOk(box)
  {
    Calendar.Stamp(box.moment, "0")
  }

  function ClaimOf(box: Box): Claim
    requires BoxOk(box)
  {
    Claim(Source.SOURCE_NAME, Source.SOURCE_PUBLISHER, VersionOf(box))
  }

  function Index(box: Box, first: bool): Bytes {
    if first then box.first else box.second
  }

  function Files(box: Box, first: bool): seq<File> {
    [File(Source.INDEX_ENTRY, Index(box, first)), File(Source.MANIFEST_ENTRY, [1])]
  }

  function NoCrc(bytes: Bytes): nat {
    0
  }

  function StoredOnly(compression: nat, data: Bytes): Option<Bytes> {
    if compression == 0 then Some(data) else None
  }

  function NameOf(name: Bytes): string {
    if name == [0] then Source.INDEX_ENTRY else if name == [1] then Source.MANIFEST_ENTRY else Source.BLOCK_MAP_ENTRY
  }

  /** A decoder that knows the manifest, the two block maps and two documents. */
  function Decode(box: Box, bytes: Bytes): Option<string>
    requires BoxOk(box)
  {
    if bytes == [] then Some("")
    else if bytes == [65] then Some("A")
    else if bytes == [1] then Some(PrintManifest("", ClaimOf(box)))
    else if bytes == [2] then Some(PrintMap(Files(box, true), box.sha))
    else if bytes == [3] then Some(PrintMap(Files(box, false), box.sha))
    else None
  }

  ghost function Machine(box: Box): Source.Platform
    requires BoxOk(box)
  {
    Source.Platform(NameOf, bytes => Decode(box, bytes), box.sha, FirstRecords(NameOf, StoredOnly))
  }

  function EntryOf(name: Byte, bytes: Bytes): Zip.Entry {
    Zip.Entry([name], bytes, 0, bytes, [], [])
  }

  function MapBytes(first: bool): Bytes {
    if first then [2] else [3]
  }

  function Entries(box: Box, first: bool): seq<Zip.Entry> {
    [EntryOf(0, Index(box, first)), EntryOf(1, [1]), EntryOf(2, MapBytes(first))]
  }

  function Msix(box: Box, first: bool): Bytes {
    Zip.Archive(Entries(box, first), NoCrc, [])
  }

  function ContentsOf(box: Box, first: bool): Contents
    requires BoxOk(box)
  {
    Contents(Files(box, first), 1, 0, "", ClaimOf(box))
  }

  // ---- it meets what is asked of a package ----

  lemma VersionIsTimed(box: Box)
    requires BoxOk(box)
    ensures Calendar.PublishedAt(VersionOf(box)) == Some(Calendar.Seconds(box.moment))
  {
    hide Calendar.Padded, Calendar.MomentOf, Calendar.Seconds;
    ZeroIsPart();
    Calendar.StampIsRead(box.moment, "0");
  }

  lemma ZeroIsPart()
    ensures Calendar.IsPart("0")
  {
  }

  /** One character for another keeps the length and brings in no markup. */
  lemma {:induction false} OneForOne(s: string, c: char, d: char)
    requires d != '"' && d != '<' && d != '&'
    ensures |Replace(s, [c], [d])| == |s|
    ensures MarkupFree(s) ==> MarkupFree(Replace(s, [c], [d]))
  {
    if s != "" {
      OneForOne(s[1..], c, d);
      assert ([c] <= s) == (s[0] == c);
      assert Replace(s, [c], [d]) == [if s[0] == c then d else s[0]] + Replace(s[1..], [c], [d]);
    }
  }

  lemma ListedNames()
    ensures MarkupFree(Listed(Source.INDEX_ENTRY)) && MarkupFree(Listed(Source.MANIFEST_ENTRY))
    ensures Listed(Source.INDEX_ENTRY) != Listed(Source.MANIFEST_ENTRY)
  {
    PlainText(Source.INDEX_ENTRY);
    PlainText(Source.MANIFEST_ENTRY);
    assert |Source.INDEX_ENTRY| == 15 && |Source.MANIFEST_ENTRY| == 16;
    assert "/" == ['/'] && "\\" == ['\\'];
    hide Replace, MarkupFree, Source.INDEX_ENTRY, Source.MANIFEST_ENTRY;
    OneForOne(Source.INDEX_ENTRY, '/', '\\');
    OneForOne(Source.MANIFEST_ENTRY, '/', '\\');
  }

  lemma FoldedKeeps(name: string)
    ensures |Zip.Folded(name)| == |name|
    ensures '\\' !in name ==> forall i :: 0 <= i < |name| ==> Zip.Folded(name)[i] == LowerOf(name[i])
  {
    assert "/" == ['/'] && "\\" == ['\\'];
    OneForOne(name, '\\', '/');
    if '\\' !in name {
      NotInIsFree(name, '\\');
      ReplaceNothing(name, "\\", "/");
    }
    hide Replace;
  }

  lemma EntryNames()
    ensures |Source.INDEX_ENTRY| == 15 && |Source.MANIFEST_ENTRY| == 16 && |Source.BLOCK_MAP_ENTRY| == 16
    ensures Source.MANIFEST_ENTRY[4] == 'M' && Source.BLOCK_MAP_ENTRY[4] == 'B'
    ensures '\\' !in Source.MANIFEST_ENTRY && '\\' !in Source.BLOCK_MAP_ENTRY
  {
  }

  lemma FoldedNames()
    ensures var a, b, c := Zip.Folded(Source.INDEX_ENTRY), Zip.Folded(Source.MANIFEST_ENTRY), Zip.Folded(Source.BLOCK_MAP_ENTRY);
            a != b && a != c && b != c
  {
    assert LowerOf('M') != LowerOf('B');
    hide *;
    EntryNames();
    FoldedKeeps(Source.INDEX_ENTRY);
    FoldedKeeps(Source.MANIFEST_ENTRY);
    FoldedKeeps(Source.BLOCK_MAP_ENTRY);
    assert Zip.Folded(Source.MANIFEST_ENTRY)[4] != Zip.Folded(Source.BLOCK_MAP_ENTRY)[4];
  }

  lemma NamesAreDistinct(box: Box, first: bool)
    ensures Zip.Texts(Entries(box, first), NameOf) == [Source.INDEX_ENTRY, Source.MANIFEST_ENTRY, Source.BLOCK_MAP_ENTRY]
    ensures Zip.Distinct(Zip.Texts(Entries(box, first), NameOf))
  {
    FoldedNames();
    var entries, names := Entries(box, first), Zip.Texts(Entries(box, first), NameOf);
    Stored.TextsAreAsMany(entries, NameOf);
    hide Source.INDEX_ENTRY, Source.MANIFEST_ENTRY, Source.BLOCK_MAP_ENTRY, Zip.Folded, Zip.Texts;
    assert names[0] == NameOf([0]) && names[1] == NameOf([1]) && names[2] == NameOf([2]);
  }

  lemma EntriesFit(box: Box, first: bool)
    requires BoxOk(box)
    ensures Zip.Fits(Entries(box, first), NoCrc)
  {
    var entries := Entries(box, first);
    Stored.LocalParts(entries[0], NoCrc);
    Stored.LocalParts(entries[1], NoCrc);
    Stored.LocalParts(entries[2], NoCrc);
    hide Zip.LocalEntry;
    assert entries[1..] == [entries[1], entries[2]] && entries[1..][1..] == [entries[2]] && entries[2..][1..] == [];
    LocalsAre(entries[0], entries[1], entries[2]);
  }

  lemma LocalsAre(a: Zip.Entry, b: Zip.Entry, c: Zip.Entry)
    ensures |Zip.Locals([a, b, c], NoCrc)| == |Zip.LocalEntry(a, NoCrc)| + |Zip.LocalEntry(b, NoCrc)| + |Zip.LocalEntry(c, NoCrc)|
  {
    hide Zip.LocalEntry;
    assert [a, b, c][1..] == [b, c] && [b, c][1..] == [c] && [c][1..] == [];
    assert Zip.Locals([], NoCrc) == [] && Zip.Locals([c], NoCrc) == Zip.LocalEntry(c, NoCrc) + [];
    assert Zip.Locals([b, c], NoCrc) == Zip.LocalEntry(b, NoCrc) + Zip.Locals([c], NoCrc);
  }

  lemma NoCommentIsOk()
    ensures CommentOk("")
  {
    assert "" + "-->" == "-->" + "";
    FindHits("-->", "", "-->");
  }

  lemma ManifestIsDecoded(box: Box)
    requires BoxOk(box)
    ensures Machine(box).utf8([1]) == Some(PrintManifest("", ClaimOf(box)))
  {
    hide PrintManifest, PrintMap, ClaimOf, BoxOk;
  }

  lemma FilesAre(box: Box, first: bool)
    requires BoxOk(box)
    ensures var c := ContentsOf(box, first);
            && c.files == [File(Source.INDEX_ENTRY, Index(box, first)), File(Source.MANIFEST_ENTRY, [1])]
            && c.manifest == 1 && c.index == 0 && c.comment == "" && c.claim == ClaimOf(box)
            && |Index(box, first)| <= Source.INDEX_MAX_LEN
  {
    hide ClaimOf, Source.INDEX_ENTRY, Source.MANIFEST_ENTRY;
  }

  lemma ContentsMeet(box: Box, first: bool)
    requires BoxOk(box)
    ensures ContentsOk(ContentsOf(box, first), Machine(box))
  {
    hide BoxOk, Listed, MarkupFree, CommentOk, PrintManifest, ClaimOf, ContentsOf, Machine, Index, Source.INDEX_ENTRY, Source.MANIFEST_ENTRY;
    ListedNames();
    NoCommentIsOk();
    ManifestIsDecoded(box);
    FilesAre(box, first);
    var c := ContentsOf(box, first);
    assert FileOk(c.files[0]) && FileOk(c.files[1]);
  }

  lemma FilesArePacked(box: Box, first: bool)
    requires BoxOk(box)
    ensures Packs(Entries(box, first), StoredOnly, MapBytes(first), ContentsOf(box, first), Machine(box))
  {
    hide PrintManifest, PrintMap, ClaimOf, BoxOk, Source.INDEX_ENTRY, Source.MANIFEST_ENTRY, Source.BLOCK_MAP_ENTRY;
    var entries, p := Entries(box, first), Machine(box);
    var files := ContentsOf(box, first).files;
    assert entries[0].name == [0] && entries[1].name == [1] && entries[2].name == [2];
    assert IsPacked(entries, p.text, StoredOnly, files[0].name, files[0].bytes);
    assert IsPacked(entries, p.text, StoredOnly, files[1].name, files[1].bytes);
    assert IsPacked(entries, p.text, StoredOnly, Source.BLOCK_MAP_ENTRY, MapBytes(first));
    assert p.utf8(MapBytes(first)) == Some(PrintMap(Files(box, first), box.sha));
  }

  /** All that the extraction of a package asks of it, met at once, by any two indexes and any moment. */
  lemma SampleMeets(box: Box, first: bool)
    requires BoxOk(box)
    ensures var c, entries, p := ContentsOf(box, first), Entries(box, first), Machine(box);
            && ContentsOk(c, p) && IsSha(p.sha) && Packs(entries, StoredOnly, MapBytes(first), c, p)
            && Zip.Fits(entries, NoCrc) && Zip.Distinct(Zip.Texts(entries, p.text))
            && ReaderOk(p, StoredOnly, Msix(box, first), |entries|)
  {
    ContentsMeet(box, first);
    FilesArePacked(box, first);
    NamesAreDistinct(box, first);
    EntriesFit(box, first);
    SampleIsRead(box, first);
    hide ContentsOk, Packs, Zip.Fits, Zip.Distinct, Zip.Texts, ReaderOk, Msix, BoxOk, PrintManifest, PrintMap;
  }

  lemma SampleIsRead(box: Box, first: bool)
    requires BoxOk(box) && Zip.Fits(Entries(box, first), NoCrc)
    ensures ReaderOk(Machine(box), StoredOnly, Msix(box, first), 3)
  {
    var p := Machine(box);
    assert p.reader == FirstRecords(p.text, StoredOnly) && p.text == NameOf;
    NamesAreDistinct(box, first);
    hide *;
    MsixIs(box, first);
    Zip.NoCommentIsPlain(Msix(box, first));
    Zip.ArchiveIsRead(Entries(box, first), NoCrc, [], p.text);
    FirstRecordsIsOk(p, StoredOnly, Msix(box, first));
  }

  lemma MsixIs(box: Box, first: bool)
    ensures Msix(box, first) == Zip.Archive(Entries(box, first), NoCrc, [])
  {
    hide Zip.Archive, Entries;
  }

  /** Either package is extracted unless it is too old, its own index out of it. */
  lemma SampleIsExtracted(box: Box, first: bool, notBefore: int)
    requires BoxOk(box)
    ensures Source.ExtractedFrom(Msix(box, first), notBefore, Machine(box)) ==
            if Calendar.Seconds(box.moment) < notBefore then Err(CatalogIndexStale)
            else Ok(Source.Extracted(Source.Identity(VersionOf(box), Some(Calendar.Seconds(box.moment))), Index(box, first)))
  {
    SampleMeets(box, first);
    VersionIsTimed(box);
    SampleContents(box, first);
    assert ClaimOf(box) == Claim(Source.SOURCE_NAME, Source.SOURCE_PUBLISHER, VersionOf(box));
    hide *;
    MsixIs(box, first);
    PackageIsExtracted(ContentsOf(box, first), Entries(box, first), StoredOnly, MapBytes(first), NoCrc, notBefore, Machine(box));
  }

  lemma SampleContents(box: Box, first: bool)
    requires BoxOk(box)
    ensures var c := ContentsOf(box, first); c.claim == ClaimOf(box) && c.index < |c.files| && c.files[c.index].bytes == Index(box, first)
  {
  }

  lemma MachineReads(box: Box)
    requires BoxOk(box)
    ensures Withheld.Reads(Machine(box))
  {
    hide PrintManifest, PrintMap, ClaimOf, IsSha;
  }

  /**
   The run over two indexes leaves nothing open: on one machine, whatever its hash, with two packages of one moment that
   are both let through, each index leaves one installer and each network delivers its index's documents alone; which
   installer is installed follows from which of the packages a network serves.
   */
  lemma TwoPackagesTwoInstallers(box: Box, notBefore: int)
    returns (q: Hostile.Query, x: Resolution.Network, y: Resolution.Network, a: Resolution.Accepted, b: Resolution.Accepted)
    requires BoxOk(box) && box.first != box.second && notBefore <= Calendar.Seconds(box.moment)
    ensures q.host.platform == Machine(box) && q.notBefore == notBefore
    ensures var newer, older := Withheld.OneVersion(true), Withheld.OneVersion(false);
            && Hostile.IsGenuine(newer, a, q) && Hostile.Alike(newer, a, newer, a, q) && Hostile.DeliversUnder(x, newer, a, q)
            && Hostile.IsGenuine(older, b, q) && Hostile.Alike(older, b, older, b, q) && Hostile.DeliversUnder(y, older, b, q)
    ensures Hostile.Outcome(x, q).Ok? && Hostile.Outcome(y, q).Ok?
    ensures Hostile.Outcome(x, q).value.installer.url != Hostile.Outcome(y, q).value.installer.url
  {
    var p, newer, older := Machine(box), Msix(box, true), Msix(box, false);
    assert Index(box, true) != Index(box, false);
    hide *;
    SampleIsExtracted(box, true, notBefore);
    SampleIsExtracted(box, false, notBefore);
    MachineReads(box);
    var latest := Source.ExtractedFrom(newer, notBefore, p).value.index;
    q := Withheld.QueryOf(p, notBefore, Withheld.RowOf(p, latest), Withheld.ItemsOf(p));
    QueryIs(p, notBefore, latest);
    x, y, a, b := Withheld.IndexPicksTheInstaller(newer, older, p, notBefore);
  }

  lemma QueryIs(p: Source.Platform, notBefore: int, latest: Bytes)
    ensures var q := Withheld.QueryOf(p, notBefore, Withheld.RowOf(p, latest), Withheld.ItemsOf(p));
            q.host.platform == p && q.notBefore == notBefore
  {
  }
}
