/** Over accepted packages, publications that leave the installer to the network: by the manifest, and by the index. */
module Withheld {
  import opened Wrappers
  import opened Text
  import opened Catalog
  import opened LittleEndian
  import opened Resolution
  import opened Hostile
  import BlockMap
  import Hex
  import Manifest
  import Mszip
  import Source
  import Versions

  const NEWER := "2"
  const OLDER := "1"

  /** Two documents, by the text they decode to. */
  function Document(newer: bool): Bytes {
    if newer then [] else [65]
  }

  function TextOf(newer: bool): string {
    if newer then "" else "A"
  }

  /** UTF-8 on those documents, and hashes of 32 bytes. */
  ghost predicate Reads(p: Source.Platform) {
    p.utf8([]) == Some("") && p.utf8([65]) == Some("A") && BlockMap.IsSha(p.sha)
  }

  /** Any text of 64 characters is a hash to the manifest reader. */
  function Digits(n: nat): string {
    if n == 0 then "" else ['0'] + Digits(n - 1)
  }

  /** The manifest each document parses to: one installer, at an address of its own. */
  function Thing(text: string): Manifest.Fields {
    Manifest.Fields(Some("x64"), None, None, None, Some(if text == "" then "new" else "old"), Some(Digits(64)), map[], None, None)
  }

  function MergedOf(text: string): Manifest.Merged {
    Manifest.Merged(Thing(text), [Thing(text)])
  }

  function VersionData(newer: bool): Bytes {
    Mszip.Pack(Document(newer), 1, 1, Mszip.Stored)
  }

  function VersionOf(newer: bool): string {
    if newer then NEWER else OLDER
  }

  function ItemOf(p: Source.Platform, newer: bool): Item {
    Item(Some(VersionOf(newer)), Some(TextOf(newer)), Some(Hex.Encode(p.sha(Document(newer)))))
  }

  function SumOf(p: Source.Platform, newer: bool): Entry {
    Entry(VersionOf(newer), TextOf(newer), Hex.Encode(p.sha(Document(newer))))
  }

  function QueryOf(p: Source.Platform, notBefore: int, row: Bytes -> Row, items: string -> seq<Item>): Query {
    Query("Vendor.Thing", Requirement("", "x64", Manifest.User), notBefore,
          Host(p, package => None, (index, identifier) => Ok(Some(row(index))), Mszip.StoredTokens, text => Some(items(text)),
               text => Some(MergedOf(text))))
  }

  // ---- the documents ----

  lemma {:induction false} DigitsAreBytes(n: nat)
    ensures Utf8Length(Digits(n)) == n
  {
    if n > 0 {
      DigitsAreBytes(n - 1);
      Tail('0', Digits(n - 1));
    }
  }

  lemma ThingIsUsable(text: string)
    ensures var e := Manifest.Effective(Thing(text), Thing(text)); Manifest.Usable(e, "x64") && e.url == Thing(text).url
  {
    DigitsAreBytes(64);
    hide Utf8Length, Digits;
  }

  /** Each document selects its own installer. */
  lemma ThingIsSelected(text: string)
    ensures var installer := Manifest.Selected(MergedOf(text), "x64", Manifest.User);
            installer.Some? && Some(installer.value.url) == Thing(text).url
  {
    ThingIsUsable(text);
    var merged := MergedOf(text);
    assert merged.root == Thing(text) && merged.installers == [Thing(text)];
    hide Manifest.Usable, Manifest.Effective, Manifest.Selected, Thing, MergedOf, Utf8Length, Lower;
    assert Manifest.Usable(Manifest.Effective(merged.root, merged.installers[0]), "x64");
    Manifest.SelectsIfUsable(merged, "x64", Manifest.User);
    Manifest.SelectedIsFit(merged, "x64", Manifest.User);
  }

  lemma VersionDataIsRead(newer: bool)
    ensures Mszip.Unpacked(VersionData(newer), VERSION_DATA_MAX_LEN, Mszip.StoredTokens) == Ok(Document(newer))
  {
    hide Mszip.Unpacked, Mszip.Pack, Mszip.Compresses;
    Mszip.StoredCompresses(Document(newer), [], 1);
    Mszip.UnpackInvertsPack(Document(newer), 1, 1, VERSION_DATA_MAX_LEN, Mszip.Stored, Mszip.StoredTokens);
  }

  lemma ListIsBelieved(p: Source.Platform, q: Query, row: Row, newer: bool)
    requires Reads(p) && q.host.platform == p && q.host.inflater == Mszip.StoredTokens && row.hash == p.sha(VersionData(newer))
    requires q.host.versionData(TextOf(newer)).Some?
    ensures VersionList(row, Ok(VersionData(newer)), q.host) == Ok(ParseItems(q.host.versionData(TextOf(newer)).value))
  {
    VersionDataIsRead(newer);
    hide Hex.Encode, Lower, ParseItems, Mszip.Unpacked, VersionData, Mszip.StoredTokens;
  }

  lemma ManifestIsBelieved(p: Source.Platform, q: Query, newer: bool)
    requires Reads(p) && q.host.platform == p && q.host.manifest(TextOf(newer)) == Some(MergedOf(TextOf(newer)))
    ensures ManifestFor(SumOf(p, newer), Ok(Document(newer)), q.host) == Ok(MergedOf(TextOf(newer)))
  {
    hide Hex.Encode, MergedOf;
  }

  lemma ItemsAreSums(p: Source.Platform, newer: bool)
    ensures ParseItems([ItemOf(p, newer)]) == [SumOf(p, newer)]
    ensures ParseItems([ItemOf(p, true), ItemOf(p, false)]) == [SumOf(p, true), SumOf(p, false)]
  {
    Hex.EncodeIsLower(p.sha(Document(true)));
    Hex.EncodeIsLower(p.sha(Document(false)));
    hide Hex.Encode, Lower, Document;
    var items := [ItemOf(p, true), ItemOf(p, false)];
    assert items[1..] == [ItemOf(p, false)] && [ItemOf(p, newer)][1..] == [] && [ItemOf(p, false)][1..] == [];
    assert ParseItems([]) == [] && ParseItems([ItemOf(p, false)]) == [SumOf(p, false)];
  }

  lemma OlderIsLower()
    ensures !Versions.Lower(NEWER, OLDER)
  {
    VersionIs('1', 1);
    VersionIs('2', 2);
    assert NEWER == ['2'] && OLDER == ['1'];
    hide Versions.Parsed;
  }

  lemma VersionIs(c: char, n: nat)
    requires '1' <= c <= '2' && n == c as int - '0' as int
    ensures Versions.Parsed([c]) == [n]
  {
    var text := [c];
    SplitFree(text, '.');
    hide Split;
    assert Versions.Numbers([text][1..]) == [];
    assert text[..0] == "" && DecimalValue(text) == n;
  }

  lemma SumsAreRanked(p: Source.Platform, newer: bool)
    ensures Candidates([SumOf(p, newer)], "") == [SumOf(p, newer)]
    ensures Candidates([SumOf(p, true), SumOf(p, false)], "") == [SumOf(p, true), SumOf(p, false)]
  {
    OlderIsLower();
    hide Versions.Lower, Hex.Encode, Document;
    var sums := [SumOf(p, true), SumOf(p, false)];
    assert sums[1..] == [sums[1]] && sums[1..][1..] == [] && [SumOf(p, newer)][1..] == [];
    assert Satisfying([], "") == [] && Satisfying([sums[1]], "") == [sums[1]] && Satisfying(sums, "") == sums;
    assert Ranked([]) == [] && Ranked([sums[1]]) == [sums[1]];
  }

  // ---- what a candidate installs ----

  /** The query's host reads the documents as above. */
  ghost predicate Asks(p: Source.Platform, q: Query) {
    && Reads(p) && q.host.platform == p && q.host.inflater == Mszip.StoredTokens && q.requirement == Requirement("", "x64", Manifest.User)
    && forall newer :: q.host.manifest(TextOf(newer)) == Some(MergedOf(TextOf(newer)))
  }

  lemma QueryAsks(p: Source.Platform, notBefore: int, row: Bytes -> Row, items: string -> seq<Item>)
    requires Reads(p)
    ensures Asks(p, QueryOf(p, notBefore, row, items))
  {
    hide MergedOf, Reads;
  }

  /** A published list of versions, each with its document. */
  ghost predicate Publishes(p: Source.Platform, q: Query, published: Publication, accepted: Accepted, which: seq<bool>) {
    && VersionList(accepted.row, Ok(published.versionData), q.host).Ok?
    && |which| == |published.manifests| <= MANIFEST_ATTEMPTS && |Published(published, accepted, q.requirement, q.host)| == |which|
    && forall k :: 0 <= k < |which| ==> published.manifests[k] == Document(which[k])
                                        && Published(published, accepted, q.requirement, q.host)[k] == SumOf(p, which[k])
  }

  lemma PublishesGenuine(p: Source.Platform, q: Query, published: Publication, accepted: Accepted, which: seq<bool>)
    requires Publishes(p, q, published, accepted, which) && q.host.platform == p
    ensures IsGenuine(published, accepted, q)
  {
    hide VersionList, Published, Hex.Encode, Document;
  }

  /** Candidate `k` installs from the address its document names. */
  lemma InstallerIs(p: Source.Platform, q: Query, published: Publication, accepted: Accepted, which: seq<bool>, k: nat)
    requires Asks(p, q) && Publishes(p, q, published, accepted, which) && k < |which|
    ensures var installer := InstallerAt(published, k, accepted, q);
            installer.Some? && Some(installer.value.url) == Thing(TextOf(which[k])).url
  {
    var text := TextOf(which[k]);
    assert q.requirement.architecture == "x64" && q.requirement.scope == Manifest.User;
    assert q.host.platform == p && q.host.manifest(TextOf(which[k])) == Some(MergedOf(TextOf(which[k])));
    hide *;
    ManifestIsBelieved(p, q, which[k]);
    ThingIsSelected(text);
    CandidateIs(p, q, published, accepted, which, k);
    InstallerFrom(published, k, accepted, q, MergedOf(text));
  }

  lemma CandidateIs(p: Source.Platform, q: Query, published: Publication, accepted: Accepted, which: seq<bool>, k: nat)
    requires Publishes(p, q, published, accepted, which) && k < |which|
    ensures |which| == |published.manifests| == |Published(published, accepted, q.requirement, q.host)|
    ensures published.manifests[k] == Document(which[k]) && Published(published, accepted, q.requirement, q.host)[k] == SumOf(p, which[k])
  {
    hide VersionList, Published, Document, SumOf;
  }

  lemma InstallerFrom(published: Publication, k: nat, accepted: Accepted, q: Query, merged: Manifest.Merged)
    requires k < |Published(published, accepted, q.requirement, q.host)| && k < |published.manifests|
    requires ManifestFor(Published(published, accepted, q.requirement, q.host)[k], Ok(published.manifests[k]), q.host) == Ok(merged)
    requires Manifest.Selected(merged, q.requirement.architecture, q.requirement.scope).Some?
    ensures InstallerAt(published, k, accepted, q) == Manifest.Selected(merged, q.requirement.architecture, q.requirement.scope)
  {
    hide Published, ManifestFor, Manifest.Selected;
  }

  lemma ListPublishes(p: Source.Platform, q: Query, published: Publication, accepted: Accepted, which: seq<bool>, newer: bool)
    requires Asks(p, q) && accepted.row.hash == p.sha(VersionData(newer)) && published.versionData == VersionData(newer)
    requires which == [newer] || which == [true, false]
    requires q.host.versionData(TextOf(newer)) == Some(if |which| == 1 then [ItemOf(p, newer)] else [ItemOf(p, true), ItemOf(p, false)])
    requires |published.manifests| == |which| && forall k :: 0 <= k < |which| ==> published.manifests[k] == Document(which[k])
    ensures Publishes(p, q, published, accepted, which)
  {
    ListIsBelieved(p, q, accepted.row, newer);
    ItemsAreSums(p, newer);
    SumsAreRanked(p, newer);
    hide VersionList, VersionData, Document, SumOf, ItemOf, Candidates, ParseItems;
  }

  lemma PackageIsLetThrough(package: Bytes, p: Source.Platform, notBefore: int, row: Bytes -> Row, items: string -> seq<Item>)
    returns (network: Network, accepted: Accepted)
    requires Source.ExtractedFrom(package, notBefore, p).Ok?
    requires |row(Source.ExtractedFrom(package, notBefore, p).value.index).hash| == 32
    ensures IndexOf(network, QueryOf(p, notBefore, row, items)) == Ok(accepted)
    ensures accepted.row == row(Source.ExtractedFrom(package, notBefore, p).value.index)
  {
    hide Source.ExtractedFrom, MergedOf;
    var extracted := Source.ExtractedFrom(package, notBefore, p).value;
    accepted := Accepted(extracted.identity.version, row(extracted.index));
    network := (n: nat, url: string) => Ok(package);
  }

  lemma AddressesDiffer()
    ensures Thing(TextOf(true)).url != Thing(TextOf(false)).url
  {
    assert "new"[0] != "old"[0];
  }

  // ---- one index, two manifests ----

  function OneIndex(p: Source.Platform, notBefore: int): Query {
    QueryOf(p, notBefore, index => Row("thing", p.sha(VersionData(true))), text => [ItemOf(p, true), ItemOf(p, false)])
  }

  const BOTH := Publication(VersionData(true), [Document(true), Document(false)])

  /**
   Over any accepted package there can be an index that leaves the installer to the network: it lists two versions with
   two installers, and which is installed follows from which of the two manifests a network withholds.
   */
  lemma ManifestPicksTheInstaller(package: Bytes, p: Source.Platform, notBefore: int) returns (x: Network, y: Network, accepted: Accepted)
    requires Source.ExtractedFrom(package, notBefore, p).Ok? && Reads(p)
    ensures var q := OneIndex(p, notBefore);
            && IsGenuine(BOTH, accepted, q) && DeliversUnder(x, BOTH, accepted, q) && DeliversUnder(y, BOTH, accepted, q)
            && Outcome(x, q).Ok? && Outcome(y, q).Ok? && Outcome(x, q).value.installer.url != Outcome(y, q).value.installer.url
  {
    var q, which := OneIndex(p, notBefore), [true, false];
    var base: Network;
    hide Source.ExtractedFrom, VersionData, ItemOf, Document;
    base, accepted := PackageIsLetThrough(package, p, notBefore, index => Row("thing", p.sha(VersionData(true))),
                                          text => [ItemOf(p, true), ItemOf(p, false)]);
    QueryAsks(p, notBefore, index => Row("thing", p.sha(VersionData(true))), text => [ItemOf(p, true), ItemOf(p, false)]);
    ListPublishes(p, q, BOTH, accepted, which, true);
    hide *;
    PublishesGenuine(p, q, BOTH, accepted, which);
    InstallerIs(p, q, BOTH, accepted, which, 0);
    InstallerIs(p, q, BOTH, accepted, which, 1);
    AddressesDiffer();
    x := InstallerIsAnswer(base, BOTH, accepted, q, 0);
    y := InstallerIsAnswer(base, BOTH, accepted, q, 1);
  }

  // ---- two indexes, one manifest each ----

  function RowOf(p: Source.Platform, latest: Bytes): Bytes -> Row {
    index => if index == latest then Row("newer", p.sha(VersionData(true))) else Row("older", p.sha(VersionData(false)))
  }

  function ItemsOf(p: Source.Platform): string -> seq<Item> {
    text => [ItemOf(p, text == "")]
  }

  function OneVersion(newer: bool): Publication {
    Publication(VersionData(newer), [Document(newer)])
  }

  lemma OneIsAlike(p: Publication, accepted: Accepted, q: Query)
    requires |p.manifests| == 1
    ensures Alike(p, accepted, p, accepted, q)
  {
    forall i: nat
      ensures InstallerAt(p, i, accepted, q).Some? ==> i == 0
    {
      InstallerIsInside(p, i, accepted, q);
    }
    hide InstallerAt;
  }

  lemma OneVersionPublishes(p: Source.Platform, notBefore: int, latest: Bytes, accepted: Accepted, newer: bool)
    requires Reads(p) && accepted.row.hash == p.sha(VersionData(newer))
    ensures Asks(p, QueryOf(p, notBefore, RowOf(p, latest), ItemsOf(p)))
    ensures Publishes(p, QueryOf(p, notBefore, RowOf(p, latest), ItemsOf(p)), OneVersion(newer), accepted, [newer])
  {
    hide VersionData, ItemOf, Document;
    var q := QueryOf(p, notBefore, RowOf(p, latest), ItemsOf(p));
    QueryAsks(p, notBefore, RowOf(p, latest), ItemsOf(p));
    assert (TextOf(newer) == "") == newer;
    assert q.host.versionData(TextOf(newer)) == Some([ItemOf(p, newer)]);
    ListPublishes(p, q, OneVersion(newer), accepted, [newer], newer);
  }

  /**
   Over any two accepted packages with different indexes, both fresh enough: each index can leave one installer, and yet
   which is installed follows from which of the packages a network serves.
   */
  lemma IndexPicksTheInstaller(newer: Bytes, older: Bytes, p: Source.Platform, notBefore: int)
    returns (x: Network, y: Network, a: Accepted, b: Accepted)
    requires Source.ExtractedFrom(newer, notBefore, p).Ok? && Source.ExtractedFrom(older, notBefore, p).Ok? && Reads(p)
    requires Source.ExtractedFrom(newer, notBefore, p).value.index != Source.ExtractedFrom(older, notBefore, p).value.index
    ensures var q := QueryOf(p, notBefore, RowOf(p, Source.ExtractedFrom(newer, notBefore, p).value.index), ItemsOf(p));
            && IsGenuine(OneVersion(true), a, q) && Alike(OneVersion(true), a, OneVersion(true), a, q) && DeliversUnder(x, OneVersion(true), a, q)
            && IsGenuine(OneVersion(false), b, q) && Alike(OneVersion(false), b, OneVersion(false), b, q) && DeliversUnder(y, OneVersion(false), b, q)
            && Outcome(x, q).Ok? && Outcome(y, q).Ok? && Outcome(x, q).value.installer.url != Outcome(y, q).value.installer.url
  {
    hide Source.ExtractedFrom, VersionData, Document;
    var latest := Source.ExtractedFrom(newer, notBefore, p).value.index;
    var q := QueryOf(p, notBefore, RowOf(p, latest), ItemsOf(p));
    var first: Network;
    var second: Network;
    first, a := PackageIsLetThrough(newer, p, notBefore, RowOf(p, latest), ItemsOf(p));
    second, b := PackageIsLetThrough(older, p, notBefore, RowOf(p, latest), ItemsOf(p));
    assert |OneVersion(true).manifests| == |OneVersion(false).manifests| == 1;
    assert a.row.hash == p.sha(VersionData(true)) && b.row.hash == p.sha(VersionData(false));
    hide *;
    OneVersionPublishes(p, notBefore, latest, a, true);
    OneVersionPublishes(p, notBefore, latest, b, false);
    PublishesGenuine(p, q, OneVersion(true), a, [true]);
    PublishesGenuine(p, q, OneVersion(false), b, [false]);
    InstallerIs(p, q, OneVersion(true), a, [true], 0);
    InstallerIs(p, q, OneVersion(false), b, [false], 0);
    OneIsAlike(OneVersion(true), a, q);
    OneIsAlike(OneVersion(false), b, q);
    AddressesDiffer();
    x := InstallerIsAnswer(first, OneVersion(true), a, q, 0);
    y := InstallerIsAnswer(second, OneVersion(false), b, q, 0);
  }
}
