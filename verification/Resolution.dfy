/** Resolving a requirement against the catalog over a network that answers anything it likes. */
module Resolution {
  import opened Wrappers
  import opened Text
  import opened Catalog
  import opened LittleEndian
  import BlockMap
  import Hex
  import Manifest
  import Mszip
  import Source
  import Versions

  const CATALOG_BASE := "https://cdn.winget.microsoft.com/cache/"
  const VERSION_DATA_MAX_LEN := 0x100_0000
  const MANIFEST_ATTEMPTS := 3

  /** A version with the path of its manifest and the hash, in hex, by which that manifest is believed. */
  datatype Entry = Entry(version: string, path: string, sha256: string)

  /** One item of the document's list before the incomplete ones are dropped. */
  datatype Item = Item(version: Option<string>, path: Option<string>, sha256: Option<string>)

  datatype Row = Row(id: string, hash: Bytes)

  datatype Requirement = Requirement(minimumVersion: string, architecture: string, scope: Manifest.Scope)

  datatype Resolved = Resolved(indexVersion: string, version: string, manifestPath: string, installer: Manifest.Installer)

  /** The `n`-th request of a run, with its URL, and what comes back. */
  type Network = (nat, string) -> Result<Bytes, Reason>

  /** What does not come from the network: the signature check, the index query and the document parsers. */
  datatype Host = Host(
    platform: Source.Platform,
    signature: Bytes -> Option<Reason>,
    query: (Bytes, string) -> Result<Option<Row>, Reason>,
    inflater: Mszip.Inflater,
    versionData: string -> Option<seq<Item>>,
    manifest: string -> Option<Manifest.Merged>)

  // ---- the candidates ----

  function ParseItems(items: seq<Item>): seq<Entry> {
    if items == [] then []
    else
      var head, tail := items[0], ParseItems(items[1..]);
      if head.version.None? || head.path.None? || head.sha256.None? then tail
      else [Entry(head.version.value, head.path.value, Lower(head.sha256.value))] + tail
  }

  function Satisfying(entries: seq<Entry>, minimum: string): seq<Entry> {
    if entries == [] then []
    else (if Versions.Satisfies(entries[0].version, minimum) then [entries[0]] else []) + Satisfying(entries[1..], minimum)
  }

  /** Before every entry that is not higher, so that entries of one version keep their order. */
  function Insert(e: Entry, ranked: seq<Entry>): seq<Entry> {
    if ranked != [] && Versions.Lower(e.version, ranked[0].version) then [ranked[0]] + Insert(e, ranked[1..]) else [e] + ranked
  }

  function Ranked(entries: seq<Entry>): seq<Entry> {
    if entries == [] then [] else Insert(entries[0], Ranked(entries[1..]))
  }

  /** What a requirement leaves of a version list, in descending order. */
  function Candidates(entries: seq<Entry>, minimum: string): seq<Entry> {
    Ranked(Satisfying(entries, minimum))
  }

  ghost predicate Descending(s: seq<Entry>) {
    forall i, j :: 0 <= i < j < |s| ==> !Versions.Lower(s[i].version, s[j].version)
  }

  /** The entries of one version number, in order. */
  function OfVersion(s: seq<Entry>, v: seq<nat>): seq<Entry> {
    if s == [] then [] else (if Versions.Parsed(s[0].version) == v then [s[0]] else []) + OfVersion(s[1..], v)
  }

  lemma NotLowerWhenLower(a: string, b: string)
    requires Versions.Lower(a, b)
    ensures !Versions.Lower(b, a)
  {
    Versions.LessIsTotal(Versions.Parsed(a), Versions.Parsed(b));
  }

  lemma {:induction false} InsertHolds(e: Entry, s: seq<Entry>)
    ensures multiset(Insert(e, s)) == multiset{e} + multiset(s)
  {
    hide Versions.Lower;
    if s != [] && Versions.Lower(e.version, s[0].version) {
      InsertHolds(e, s[1..]);
      assert s == [s[0]] + s[1..];
    }
  }

  lemma {:induction false} InsertKeeps(e: Entry, s: seq<Entry>)
    requires Descending(s)
    ensures Descending(Insert(e, s))
    ensures multiset(Insert(e, s)) == multiset{e} + multiset(s)
  {
    hide Versions.Lower;
    InsertHolds(e, s);
    if s != [] && Versions.Lower(e.version, s[0].version) {
      InsertKeeps(e, s[1..]);
      var tail := Insert(e, s[1..]);
      NotLowerWhenLower(e.version, s[0].version);
      forall k | 0 <= k < |tail|
        ensures !Versions.Lower(s[0].version, tail[k].version)
      {
        assert tail[k] in multiset(tail);
        assert tail[k] == e || tail[k] in s[1..];
      }
    } else {
      forall k | 0 <= k < |s|
        ensures !Versions.Lower(e.version, s[k].version)
      {
        if k > 0 {
          Versions.NotLowerIsTransitive(e.version, s[0].version, s[k].version);
        }
      }
    }
  }

  lemma LowerIsLess(a: string, b: string)
    ensures Versions.Lower(a, b) == Versions.Less(Versions.Parsed(a), Versions.Parsed(b))
  {
  }

  lemma {:induction false} InsertIsStable(e: Entry, s: seq<Entry>, v: seq<nat>)
    ensures OfVersion(Insert(e, s), v) == OfVersion([e] + s, v)
  {
    hide Versions.Parsed;
    assert ([e] + s)[1..] == s;
    if s != [] && Versions.Lower(e.version, s[0].version) {
      InsertIsStable(e, s[1..], v);
      var tail := Insert(e, s[1..]);
      assert ([s[0]] + tail)[1..] == tail && ([e] + s[1..])[1..] == s[1..];
      Versions.LessIsTotal(Versions.Parsed(e.version), Versions.Parsed(e.version));
    }
  }

  /** Ranking orders the entries, keeps each as often as it was, and keeps the order of equal versions. */
  lemma {:induction false} RankedIsStableSort(entries: seq<Entry>, v: seq<nat>)
    ensures Descending(Ranked(entries)) && multiset(Ranked(entries)) == multiset(entries)
    ensures OfVersion(Ranked(entries), v) == OfVersion(entries, v)
  {
    if entries != [] {
      RankedIsStableSort(entries[1..], v);
      hide Insert;
      InsertKeeps(entries[0], Ranked(entries[1..]));
      InsertIsStable(entries[0], Ranked(entries[1..]), v);
      assert entries == [entries[0]] + entries[1..];
      assert ([entries[0]] + Ranked(entries[1..]))[1..] == Ranked(entries[1..]);
    }
  }

  /** A version meets a requirement that names no minimum, or whose first number it has and than which it is not less. */
  ghost predicate Meets(version: string, minimum: string) {
    minimum == "" || (Versions.Parsed(version)[0] == Versions.Parsed(minimum)[0] && !Versions.Less(Versions.Parsed(version), Versions.Parsed(minimum)))
  }

  /** The candidates are the listed versions that meet the requirement. */
  lemma CandidatesMeet(entries: seq<Entry>, minimum: string, e: Entry)
    ensures e in Candidates(entries, minimum) <==> e in entries && Meets(e.version, minimum)
  {
    hide Meets, Satisfying, Ranked;
    SatisfyingMeet(entries, minimum, e);
    RankedIsStableSort(Satisfying(entries, minimum), []);
    assert e in Candidates(entries, minimum) <==> e in multiset(Candidates(entries, minimum));
    assert e in Satisfying(entries, minimum) <==> e in multiset(Satisfying(entries, minimum));
  }

  lemma {:induction false} SatisfyingMeet(entries: seq<Entry>, minimum: string, e: Entry)
    ensures e in Satisfying(entries, minimum) <==> e in entries && Meets(e.version, minimum)
  {
    if entries != [] {
      Versions.SatisfiesMeans(entries[0].version, minimum);
      SatisfyingMeet(entries[1..], minimum, e);
    }
  }

  lemma {:induction false} OfVersionHolds(s: seq<Entry>, i: nat)
    requires i < |s|
    ensures s[i] in OfVersion(s, Versions.Parsed(s[i].version))
  {
    hide Versions.Parsed;
    if i > 0 {
      OfVersionHolds(s[1..], i - 1);
    }
  }

  lemma {:induction false} OfVersionComes(s: seq<Entry>, v: seq<nat>)
    ensures forall e <- OfVersion(s, v) :: e in s && Versions.Parsed(e.version) == v
  {
    hide Versions.Parsed;
    if s != [] {
      OfVersionComes(s[1..], v);
    }
  }

  lemma HeadIsNotLower(a: seq<Entry>, b: seq<Entry>)
    requires a != [] && b != [] && Descending(b) && forall v :: OfVersion(a, v) == OfVersion(b, v)
    ensures !Versions.Lower(b[0].version, a[0].version)
  {
    hide Versions.Lower, Versions.Parsed;
    var v := Versions.Parsed(a[0].version);
    OfVersionHolds(a, 0);
    OfVersionComes(b, v);
    assert a[0] in b;
    var k :| 0 <= k < |b| && b[k] == a[0];
    Versions.LessIsTotal(v, v);
    LowerIsLess(b[0].version, a[0].version);
  }

  /** There is one way to rank: any list in descending order with the same entries of each version is the ranking. */
  lemma {:induction false} RankingIsUnique(a: seq<Entry>, b: seq<Entry>)
    requires Descending(a) && Descending(b) && forall v :: OfVersion(a, v) == OfVersion(b, v)
    ensures a == b
  {
    if a == [] || b == [] {
      if a != [] {
        OfVersionHolds(a, 0);
      }
      if b != [] {
        OfVersionHolds(b, 0);
      }
    } else {
      HeadIsNotLower(a, b);
      HeadIsNotLower(b, a);
      Versions.LessIsTotal(Versions.Parsed(a[0].version), Versions.Parsed(b[0].version));
      hide Versions.Parsed;
      var v := Versions.Parsed(a[0].version);
      assert OfVersion(a, v)[0] == a[0] && OfVersion(b, v)[0] == b[0];
      forall w
        ensures OfVersion(a[1..], w) == OfVersion(b[1..], w)
      {
        var head := if v == w then [a[0]] else [];
        assert OfVersion(a, w) == head + OfVersion(a[1..], w) && OfVersion(b, w) == head + OfVersion(b[1..], w);
        assert OfVersion(a[1..], w) == OfVersion(a, w)[|head|..] && OfVersion(b[1..], w) == OfVersion(b, w)[|head|..];
      }
      RankingIsUnique(a[1..], b[1..]);
      assert a == [a[0]] + a[1..] && b == [b[0]] + b[1..];
    }
  }

  // ---- one resolution ----

  /** The version list a row stands for, out of whatever the network returned for it. */
  function VersionList(row: Row, reply: Result<Bytes, Reason>, host: Host): Result<seq<Entry>, Reason> {
    if reply.Err? then Err(reply.error)
    else if Lower(Hex.Encode(host.platform.sha(reply.value))) != Lower(Hex.Encode(row.hash)) then Err(CatalogIntegrityFailure)
    else
      var inflated := Mszip.Unpacked(reply.value, VERSION_DATA_MAX_LEN, host.inflater);
      if inflated.Err? then Err(CatalogUnavailable)
      else
        var text := host.platform.utf8(inflated.value);
        if text.None? then Err(CatalogUnavailable)
        else
          var items := host.versionData(text.value);
          if items.None? then Err(CatalogUnavailable) else Ok(ParseItems(items.value))
  }

  /** A manifest is believed only if it has the listed hash; anything else about it makes it unavailable. */
  function ManifestFor(e: Entry, reply: Result<Bytes, Reason>, host: Host): Result<Manifest.Merged, Reason> {
    if reply.Err? then Err(reply.error)
    else if Hex.Encode(host.platform.sha(reply.value)) != e.sha256 then Err(CatalogUnavailable)
    else
      var text := host.platform.utf8(reply.value);
      if text.None? then Err(CatalogUnavailable)
      else
        var manifest := host.manifest(text.value);
        if manifest.None? then Err(CatalogUnavailable) else Ok(manifest.value)
  }

  /** What becomes of one candidate: it is the answer, it is passed over, or it ends the resolution. */
  datatype Verdict = Answers(installer: Manifest.Installer) | PassedOver(unavailable: bool) | Ends(reason: Reason)

  function ManifestUrl(e: Entry): string {
    CATALOG_BASE + e.path
  }

  /** The index and the version data are requests 0 and 1. */
  function Judge(candidates: seq<Entry>, i: nat, requirement: Requirement, network: Network, host: Host): Verdict
    requires i < |candidates|
  {
    var manifest := ManifestFor(candidates[i], network(2 + i, ManifestUrl(candidates[i])), host);
    if manifest.Err? then if manifest.error == CatalogUnavailable then PassedOver(true) else Ends(manifest.error)
    else
      var installer := Manifest.Selected(manifest.value, requirement.architecture, requirement.scope);
      if installer.Some? then Answers(installer.value) else PassedOver(false)
  }

  function Answer(candidates: seq<Entry>, i: nat, installer: Manifest.Installer, indexVersion: string): Resolved
    requires i < |candidates|
  {
    Resolved(indexVersion, candidates[i].version, candidates[i].path, installer)
  }

  function Tried(candidates: seq<Entry>): nat {
    if |candidates| < MANIFEST_ATTEMPTS then |candidates| else MANIFEST_ATTEMPTS
  }

  function Attempt(candidates: seq<Entry>, i: nat, failed: bool, requirement: Requirement, indexVersion: string, network: Network,
                   host: Host): Result<Resolved, Reason>
    decreases |candidates| - i
  {
    if i >= Tried(candidates) then Err(if failed then CatalogUnavailable else NoCompatibleVersion)
    else
      match Judge(candidates, i, requirement, network, host)
      case Answers(installer) => Ok(Answer(candidates, i, installer, indexVersion))
      case PassedOver(unavailable) => Attempt(candidates, i + 1, failed || unavailable, requirement, indexVersion, network, host)
      case Ends(reason) => Err(reason)
  }

  function VersionDataUrl(row: Row): string {
    CATALOG_BASE + "packages/" + row.id + "/" + Hex.Encode(row.hash)[..if |row.hash| >= 4 then 8 else 2 * |row.hash|] + "/versionData.mszyml"
  }

  /** An index row whose hash is no SHA-256 could not verify its version data. */
  function Looked(index: Bytes, identifier: string, host: Host): Result<Option<Row>, Reason> {
    var row := host.query(index, identifier);
    if row.Ok? && row.value.Some? && |row.value.value.hash| != 32 then Err(CatalogIntegrityFailure) else row
  }

  datatype Accepted = Accepted(indexVersion: string, row: Row)

  /** The authenticated index row of a package, if the signature check and the bound let it through. */
  ghost function AcceptedPackage(msix: Bytes, identifier: string, notBefore: int, host: Host): Result<Accepted, Reason> {
    var signature := host.signature(msix);
    if signature.Some? then Err(signature.value)
    else
      var extracted := Source.ExtractedFrom(msix, notBefore, host.platform);
      if extracted.Err? then Err(extracted.error)
      else
        var row := Looked(extracted.value.index, identifier, host);
        if row.Err? then Err(row.error)
        else if row.value.None? then Err(NoCompatibleVersion)
        else Ok(Accepted(extracted.value.identity.version, row.value.value))
  }

  /** The part of a resolution that ends with an authenticated index row. */
  ghost function AcceptedIndex(identifier: string, notBefore: int, network: Network, host: Host): Result<Accepted, Reason> {
    var msix := network(0, CATALOG_BASE + "source2.msix");
    if msix.Err? then Err(msix.error) else AcceptedPackage(msix.value, identifier, notBefore, host)
  }

  /** The candidates an accepted row leads to. */
  function Listed(row: Row, requirement: Requirement, network: Network, host: Host): Result<seq<Entry>, Reason> {
    var entries := VersionList(row, network(1, VersionDataUrl(row)), host);
    if entries.Err? then Err(entries.error) else Ok(Candidates(entries.value, requirement.minimumVersion))
  }

  ghost function Resolves(identifier: string, requirement: Requirement, notBefore: int, network: Network, host: Host): Result<Resolved, Reason> {
    var accepted := AcceptedIndex(identifier, notBefore, network, host);
    if accepted.Err? then Err(accepted.error)
    else
      var candidates := Listed(accepted.value.row, requirement, network, host);
      if candidates.Err? then Err(candidates.error)
      else Attempt(candidates.value, 0, false, requirement, accepted.value.indexVersion, network, host)
  }

  method FetchCandidates(row: Row, requirement: Requirement, network: Network, host: Host) returns (r: Result<seq<Entry>, Reason>)
    ensures r == Listed(row, requirement, network, host)
  {
    hide Mszip.Unpacked, ParseItems, Candidates, Hex.Encode, Lower;
    var blob := network(1, VersionDataUrl(row));
    if blob.Err? {
      return Err(blob.error);
    }
    if !Manifest.SameIgnoringCase(Hex.Encode(host.platform.sha(blob.value)), Hex.Encode(row.hash)) {
      return Err(CatalogIntegrityFailure);
    }
    var inflated := Mszip.Decompress(blob.value, VERSION_DATA_MAX_LEN, host.inflater);
    if inflated.Err? {
      return Err(CatalogUnavailable);
    }
    var text := host.platform.utf8(inflated.value);
    if text.None? {
      return Err(CatalogUnavailable);
    }
    var items := host.versionData(text.value);
    if items.None? {
      return Err(CatalogUnavailable);
    }
    return Ok(Candidates(ParseItems(items.value), requirement.minimumVersion));
  }

  /** At most three manifests are tried, highest version first; one that is unavailable is remembered and passed over. */
  method TryCandidates(candidates: seq<Entry>, requirement: Requirement, indexVersion: string, network: Network, host: Host)
    returns (r: Result<Resolved, Reason>)
    ensures r == Attempt(candidates, 0, false, requirement, indexVersion, network, host)
  {
    if |candidates| == 0 {
      return Err(NoCompatibleVersion);
    }
    hide ManifestFor, Manifest.Selected;
    var lastError: Option<Reason> := None;
    for i := 0 to Tried(candidates)
      invariant lastError.Some? ==> lastError.value == CatalogUnavailable
      invariant Attempt(candidates, 0, false, requirement, indexVersion, network, host)
                == Attempt(candidates, i, lastError.Some?, requirement, indexVersion, network, host)
    {
      var e := candidates[i];
      var manifest := ManifestFor(e, network(2 + i, ManifestUrl(e)), host);
      if manifest.Err? {
        if manifest.error != CatalogUnavailable {
          return Err(manifest.error);
        }
        lastError := Some(manifest.error);
        continue;
      }
      var installer := Manifest.Select(manifest.value, requirement.architecture, requirement.scope);
      if installer.Some? {
        return Ok(Resolved(indexVersion, e.version, e.path, installer.value));
      }
    }
    return Err(if lastError.Some? then lastError.value else NoCompatibleVersion);
  }

  method ResolveWith(identifier: string, requirement: Requirement, notBefore: int, network: Network, host: Host)
    returns (r: Result<Resolved, Reason>)
    ensures r == Resolves(identifier, requirement, notBefore, network, host)
  {
    hide Source.ExtractedFrom, Listed, Attempt;
    var msix := network(0, CATALOG_BASE + "source2.msix");
    if msix.Err? {
      return Err(msix.error);
    }
    var signature := host.signature(msix.value);
    if signature.Some? {
      return Err(signature.value);
    }
    var extracted := Source.ExtractIndex(msix.value, notBefore, host.platform);
    if extracted.Err? {
      return Err(extracted.error);
    }
    var row := Looked(extracted.value.index, identifier, host);
    if row.Err? {
      return Err(row.error);
    }
    if row.value.None? {
      return Err(NoCompatibleVersion);
    }
    var candidates := FetchCandidates(row.value.value, requirement, network, host);
    if candidates.Err? {
      return Err(candidates.error);
    }
    r := TryCandidates(candidates.value, requirement, extracted.value.identity.version, network, host);
  }

  // ---- what an answer can depend on ----

  /** Candidate `k` is the answer: every one before it was passed over. */
  ghost predicate AnsweredAt(candidates: seq<Entry>, k: nat, requirement: Requirement, indexVersion: string, network: Network,
                             host: Host, r: Resolved) {
    && k < Tried(candidates)
    && (forall i :: 0 <= i < k ==> Judge(candidates, i, requirement, network, host).PassedOver?)
    && var verdict := Judge(candidates, k, requirement, network, host);
       verdict.Answers? && r == Answer(candidates, k, verdict.installer, indexVersion)
  }

  lemma {:induction false} AttemptAnswersAt(candidates: seq<Entry>, i: nat, failed: bool, requirement: Requirement, indexVersion: string,
                                            network: Network, host: Host) returns (k: nat)
    requires Attempt(candidates, i, failed, requirement, indexVersion, network, host).Ok?
    requires forall j :: 0 <= j < i && j < |candidates| ==> Judge(candidates, j, requirement, network, host).PassedOver?
    ensures AnsweredAt(candidates, k, requirement, indexVersion, network, host,
                       Attempt(candidates, i, failed, requirement, indexVersion, network, host).value)
    decreases |candidates| - i
  {
    hide Judge;
    match Judge(candidates, i, requirement, network, host)
    case Answers(_) => k := i;
    case PassedOver(unavailable) =>
      k := AttemptAnswersAt(candidates, i + 1, failed || unavailable, requirement, indexVersion, network, host);
  }

  lemma {:induction false} AnswersWhere(candidates: seq<Entry>, i: nat, k: nat, failed: bool, requirement: Requirement, indexVersion: string,
                                        network: Network, host: Host, r: Resolved)
    requires i <= k && AnsweredAt(candidates, k, requirement, indexVersion, network, host, r)
    ensures Attempt(candidates, i, failed, requirement, indexVersion, network, host) == Ok(r)
    decreases k - i
  {
    hide Judge;
    if i < k {
      var unavailable := Judge(candidates, i, requirement, network, host).unavailable;
      AnswersWhere(candidates, i + 1, k, failed || unavailable, requirement, indexVersion, network, host, r);
    }
  }

  /** A resolution gives an answer exactly when one of the first three candidates does and every higher one was passed over. */
  lemma AnswerIsTheFirst(candidates: seq<Entry>, requirement: Requirement, indexVersion: string, network: Network, host: Host, r: Resolved)
    ensures Attempt(candidates, 0, false, requirement, indexVersion, network, host) == Ok(r)
            <==> exists k :: AnsweredAt(candidates, k, requirement, indexVersion, network, host, r)
  {
    hide AnsweredAt;
    if Attempt(candidates, 0, false, requirement, indexVersion, network, host) == Ok(r) {
      var k := AttemptAnswersAt(candidates, 0, false, requirement, indexVersion, network, host);
    }
    if k :| AnsweredAt(candidates, k, requirement, indexVersion, network, host, r) {
      AnswersWhere(candidates, 0, k, false, requirement, indexVersion, network, host, r);
    }
  }

  // ---- what an answer is ----

  /** A listed item, complete, for a version of the document. */
  ghost predicate IsItem(items: seq<Item>, e: Entry) {
    exists i :: && 0 <= i < |items| && items[i].version == Some(e.version) && items[i].path == Some(e.path)
                && items[i].sha256.Some? && e.sha256 == Lower(items[i].sha256.value)
  }

  lemma {:induction false} ItemsAreListed(items: seq<Item>, e: Entry)
    ensures e in ParseItems(items) <==> IsItem(items, e)
  {
    hide Lower;
    if items != [] {
      ItemsAreListed(items[1..], e);
      if IsItem(items[1..], e) {
        var i :| 0 <= i < |items[1..]| && items[1..][i].version == Some(e.version) && items[1..][i].path == Some(e.path)
                 && items[1..][i].sha256.Some? && e.sha256 == Lower(items[1..][i].sha256.value);
        assert items[i + 1] == items[1..][i];
      }
      if IsItem(items, e) {
        var i :| 0 <= i < |items| && items[i].version == Some(e.version) && items[i].path == Some(e.path)
                 && items[i].sha256.Some? && e.sha256 == Lower(items[i].sha256.value);
        assert i > 0 ==> items[1..][i - 1] == items[i];
      }
    }
  }

  /** The index an answer came from: the signed package, extracted and fresh enough, and the package's row in it. */
  ghost predicate FromIndex(r: Resolved, row: Row, identifier: string, notBefore: int, network: Network, host: Host) {
    var msix := network(0, "https://cdn.winget.microsoft.com/cache/" + "source2.msix");
    && msix.Ok? && host.signature(msix.value).None?
    && var extracted := Source.ExtractedFrom(msix.value, notBefore, host.platform);
       && extracted.Ok? && r.indexVersion == extracted.value.identity.version
       && host.query(extracted.value.index, identifier) == Ok(Some(row)) && |row.hash| == 32
  }

  /** The list of versions an answer came from: the bytes with the hash of the row, decompressed, decoded and parsed. */
  ghost predicate FromList(row: Row, items: seq<Item>, network: Network, host: Host) {
    && |Hex.Encode(row.hash)| >= 8
    && var data := network(1, "https://cdn.winget.microsoft.com/cache/" + "packages/" + row.id + "/" + Hex.Encode(row.hash)[..8] + "/versionData.mszyml");
    && data.Ok? && host.platform.sha(data.value) == row.hash
    && var text := Mszip.Unpacked(data.value, VERSION_DATA_MAX_LEN, host.inflater);
       && text.Ok? && host.platform.utf8(text.value).Some? && host.versionData(host.platform.utf8(text.value).value) == Some(items)
  }

  /** The manifest an answer came from: the bytes with the listed hash, and the installer selected out of it. */
  ghost predicate FromManifest(r: Resolved, k: nat, sha256: string, requirement: Requirement, network: Network, host: Host) {
    var reply := network(2 + k, "https://cdn.winget.microsoft.com/cache/" + r.manifestPath);
    && reply.Ok? && Hex.Encode(host.platform.sha(reply.value)) == sha256
    && host.platform.utf8(reply.value).Some?
    && var merged := host.manifest(host.platform.utf8(reply.value).value);
       merged.Some? && Manifest.Selected(merged.value, requirement.architecture, requirement.scope) == Some(r.installer)
  }

  /**
   An answer is the installer of a listed version that meets the requirement, out of one of at most three manifests, each
   step of the way to it from the signed index checked by its hash.
   */
  lemma AnswerIsAuthentic(identifier: string, requirement: Requirement, notBefore: int, network: Network, host: Host, r: Resolved)
    returns (k: nat, row: Row, items: seq<Item>, e: Entry)
    requires Resolves(identifier, requirement, notBefore, network, host) == Ok(r)
    ensures FromIndex(r, row, identifier, notBefore, network, host) && FromList(row, items, network, host)
    ensures IsItem(items, e) && e.version == r.version && e.path == r.manifestPath && Meets(r.version, requirement.minimumVersion)
    ensures k < 3 && FromManifest(r, k, e.sha256, requirement, network, host)
  {
    hide ParseItems, Candidates, VersionList, ManifestFor, Manifest.Selected, IsItem, Meets, AcceptedIndex, FromIndex, FromList, FromManifest;
    var accepted := AcceptedIndex(identifier, notBefore, network, host).value;
    row := accepted.row;
    var candidates := Listed(row, requirement, network, host).value;
    k := AttemptAnswersAt(candidates, 0, false, requirement, accepted.indexVersion, network, host);
    e := candidates[k];
    RowIsAuthentic(identifier, notBefore, network, host, r);
    items := ListIsAuthentic(row, network, host);
    CandidatesMeet(ParseItems(items), requirement.minimumVersion, e);
    ItemsAreListed(items, e);
    ManifestIsAuthentic(e, k, r, candidates, requirement, network, host, accepted.indexVersion);
  }

  lemma BaseIs()
    ensures CATALOG_BASE == "https://cdn.winget.microsoft.com/cache/"
  {
  }

  lemma RowIsAuthentic(identifier: string, notBefore: int, network: Network, host: Host, r: Resolved)
    requires var accepted := AcceptedIndex(identifier, notBefore, network, host); accepted.Ok? && r.indexVersion == accepted.value.indexVersion
    ensures var row := AcceptedIndex(identifier, notBefore, network, host).value.row;
            FromIndex(r, row, identifier, notBefore, network, host) && |row.hash| == 32
  {
    BaseIs();
    hide Source.ExtractedFrom, CATALOG_BASE;
  }

  lemma ListIsAuthentic(row: Row, network: Network, host: Host) returns (items: seq<Item>)
    requires |row.hash| == 32 && VersionList(row, network(1, VersionDataUrl(row)), host).Ok?
    ensures FromList(row, items, network, host) && VersionList(row, network(1, VersionDataUrl(row)), host) == Ok(ParseItems(items))
  {
    hide Mszip.Unpacked, ParseItems, CATALOG_BASE, Hex.Encode, Lower;
    BaseIs();
    var data := network(1, VersionDataUrl(row)).value;
    Hex.EncodeIsLower(host.platform.sha(data));
    Hex.EncodeIsLower(row.hash);
    Hex.EncodeIsInjective(host.platform.sha(data), row.hash);
    items := host.versionData(host.platform.utf8(Mszip.Unpacked(data, VERSION_DATA_MAX_LEN, host.inflater).value).value).value;
  }

  lemma ManifestIsAuthentic(e: Entry, k: nat, r: Resolved, candidates: seq<Entry>, requirement: Requirement, network: Network, host: Host,
                            indexVersion: string)
    requires AnsweredAt(candidates, k, requirement, indexVersion, network, host, r) && e == candidates[k]
    ensures e.version == r.version && e.path == r.manifestPath && k < 3 && FromManifest(r, k, e.sha256, requirement, network, host)
  {
    BaseIs();
    hide CATALOG_BASE, Manifest.Selected, Hex.Encode;
  }

  // ---- why there is none ----

  /**
   Why there is no index row: the package did not come, its signature or content was refused, the query failed, the row's hash
   is none of SHA-256, or the package is not in the index.
   */
  lemma NoRowMeans(identifier: string, notBefore: int, network: Network, host: Host)
    requires AcceptedIndex(identifier, notBefore, network, host).Err?
    ensures var msix := network(0, "https://cdn.winget.microsoft.com/cache/" + "source2.msix");
            AcceptedIndex(identifier, notBefore, network, host).error ==
            if msix.Err? then msix.error
            else if host.signature(msix.value).Some? then host.signature(msix.value).value
            else
              var extracted := Source.ExtractedFrom(msix.value, notBefore, host.platform);
              if extracted.Err? then extracted.error
              else
                var row := host.query(extracted.value.index, identifier);
                if row.Err? then row.error else if row.value.Some? then CatalogIntegrityFailure else NoCompatibleVersion
  {
    BaseIs();
    hide Source.ExtractedFrom, CATALOG_BASE;
  }

  /** The version list is read exactly if the bytes have the row's hash and can be read; a wrong hash is an integrity failure. */
  lemma ListIsReadOrRefused(row: Row, network: Network, host: Host)
    requires |row.hash| >= 4
    ensures var reply, r := network(1, VersionDataUrl(row)), VersionList(row, network(1, VersionDataUrl(row)), host);
            && (forall items :: FromList(row, items, network, host) ==> r == Ok(ParseItems(items)))
            && (r.Err? ==> r.error == if reply.Err? then reply.error
                                      else if host.platform.sha(reply.value) != row.hash then CatalogIntegrityFailure else CatalogUnavailable)
  {
    hide Mszip.Unpacked, ParseItems, CATALOG_BASE, Hex.Encode, Lower;
    BaseIs();
    var reply := network(1, VersionDataUrl(row));
    if reply.Ok? {
      var sum := host.platform.sha(reply.value);
      Hex.EncodeIsLower(sum);
      Hex.EncodeIsLower(row.hash);
      if Hex.Encode(sum) == Hex.Encode(row.hash) {
        Hex.EncodeIsInjective(sum, row.hash);
      }
    }
  }

  /** The manifest a reply holds, if it came, has the listed hash and can be read. */
  ghost predicate Holds(reply: Result<Bytes, Reason>, e: Entry, host: Host, merged: Manifest.Merged) {
    && reply.Ok? && Hex.Encode(host.platform.sha(reply.value)) == e.sha256 && host.platform.utf8(reply.value).Some?
    && host.manifest(host.platform.utf8(reply.value).value) == Some(merged)
  }

  /**
   One candidate: any failure of its request but unavailability ends the resolution, a manifest that holds answers if it
   selects an installer, and everything else is passed over, remembered as unavailable unless only an installer was missing.
   */
  lemma JudgeMeans(candidates: seq<Entry>, i: nat, requirement: Requirement, network: Network, host: Host)
    requires i < |candidates|
    ensures var e := candidates[i];
            var reply, verdict := network(2 + i, "https://cdn.winget.microsoft.com/cache/" + e.path), Judge(candidates, i, requirement, network, host);
            && (verdict.Ends? <==> reply.Err? && reply.error != CatalogUnavailable)
            && (verdict.Ends? ==> verdict.reason == reply.error)
            && (verdict == PassedOver(true) <==> reply == Err(CatalogUnavailable) || (reply.Ok? && forall merged :: !Holds(reply, e, host, merged)))
            && forall merged :: Holds(reply, e, host, merged) ==>
                 var installer := Manifest.Selected(merged, requirement.architecture, requirement.scope);
                 verdict == if installer.Some? then Answers(installer.value) else PassedOver(false)
  {
    BaseIs();
    hide CATALOG_BASE, Hex.Encode, Manifest.Selected;
    var e := candidates[i];
    var reply := network(2 + i, "https://cdn.winget.microsoft.com/cache/" + e.path);
    if reply.Ok? && host.platform.utf8(reply.value).Some? && host.manifest(host.platform.utf8(reply.value).value).Some?
       && Hex.Encode(host.platform.sha(reply.value)) == e.sha256 {
      assert Holds(reply, e, host, host.manifest(host.platform.utf8(reply.value).value).value);
    }
  }

  /** The resolution of a list fails at the first candidate that ends it, or once the first three are passed over. */
  ghost predicate FailsWith(candidates: seq<Entry>, requirement: Requirement, network: Network, host: Host, reason: Reason) {
    var tried := if |candidates| > 3 then 3 else |candidates|;
    || (exists k :: 0 <= k < tried && Judge(candidates, k, requirement, network, host) == Ends(reason)
                    && forall i :: 0 <= i < k ==> Judge(candidates, i, requirement, network, host).PassedOver?)
    || ((forall i :: 0 <= i < tried ==> Judge(candidates, i, requirement, network, host).PassedOver?)
        && reason == if exists i :: 0 <= i < tried && Judge(candidates, i, requirement, network, host) == PassedOver(true)
                     then CatalogUnavailable else NoCompatibleVersion)
  }

  lemma {:induction false} AttemptFails(candidates: seq<Entry>, i: nat, failed: bool, requirement: Requirement, indexVersion: string,
                                        network: Network, host: Host)
    requires i <= Tried(candidates)
    requires forall j :: 0 <= j < i ==> Judge(candidates, j, requirement, network, host).PassedOver?
    requires failed <==> exists j :: 0 <= j < i && Judge(candidates, j, requirement, network, host) == PassedOver(true)
    ensures var r := Attempt(candidates, i, failed, requirement, indexVersion, network, host);
            r.Err? ==> FailsWith(candidates, requirement, network, host, r.error)
    decreases |candidates| - i
  {
    hide Judge;
    if i < Tried(candidates) {
      var verdict := Judge(candidates, i, requirement, network, host);
      if verdict.PassedOver? {
        AttemptFails(candidates, i + 1, failed || verdict.unavailable, requirement, indexVersion, network, host);
      }
    }
  }

  /** There is no answer for a reason the candidates give: the first failure that ends it, or unavailability before incompatibility. */
  lemma NoAnswerMeans(candidates: seq<Entry>, requirement: Requirement, indexVersion: string, network: Network, host: Host)
    ensures var r := Attempt(candidates, 0, false, requirement, indexVersion, network, host);
            r.Err? ==> FailsWith(candidates, requirement, network, host, r.error)
  {
    AttemptFails(candidates, 0, false, requirement, indexVersion, network, host);
  }

  // ---- two networks, one accepted index ----

  /** The two networks answer the same request with two different strings of one hash. */
  ghost predicate RepliesCollide(a: Network, b: Network, n: nat, url: string, sha: BlockMap.Sha256) {
    a(n, url).Ok? && b(n, url).Ok? && BlockMap.Collide(a(n, url).value, b(n, url).value, sha)
  }

  lemma ListsAgree(row: Row, a: Network, b: Network, requirement: Requirement, host: Host)
    requires Listed(row, requirement, a, host).Ok? && Listed(row, requirement, b, host).Ok?
    ensures || Listed(row, requirement, a, host) == Listed(row, requirement, b, host)
            || RepliesCollide(a, b, 1, VersionDataUrl(row), host.platform.sha)
  {
    hide Mszip.Unpacked, ParseItems, Candidates, VersionDataUrl;
    HashIsListed(row, a(1, VersionDataUrl(row)), host);
    HashIsListed(row, b(1, VersionDataUrl(row)), host);
    hide Lower, Hex.Encode;
  }

  lemma HashIsListed(row: Row, reply: Result<Bytes, Reason>, host: Host)
    requires VersionList(row, reply, host).Ok?
    ensures reply.Ok? && host.platform.sha(reply.value) == row.hash
  {
    Hex.EncodeIsLower(host.platform.sha(reply.value));
    Hex.EncodeIsLower(row.hash);
    Hex.EncodeIsInjective(host.platform.sha(reply.value), row.hash);
  }

  lemma SameCandidateSameAnswer(candidates: seq<Entry>, k: nat, requirement: Requirement, indexVersion: string, a: Network, b: Network,
                                host: Host, r: Resolved, s: Resolved)
    requires AnsweredAt(candidates, k, requirement, indexVersion, a, host, r)
    requires AnsweredAt(candidates, k, requirement, indexVersion, b, host, s)
    ensures r == s || RepliesCollide(a, b, 2 + k, ManifestUrl(candidates[k]), host.platform.sha)
  {
    hide Manifest.Selected, ManifestUrl;
    var url := ManifestUrl(candidates[k]);
    Hex.EncodeIsInjective(host.platform.sha(a(2 + k, url).value), host.platform.sha(b(2 + k, url).value));
    hide Hex.Encode;
  }

  /** Somewhere a run that ends in two answers was given two strings of one hash: the version data or one manifest. */
  ghost predicate SomeReplyCollides(a: Network, b: Network, row: Row, candidates: seq<Entry>, sha: BlockMap.Sha256) {
    || RepliesCollide(a, b, 1, VersionDataUrl(row), sha)
    || exists k :: 0 <= k < Tried(candidates) && RepliesCollide(a, b, 2 + k, ManifestUrl(candidates[k]), sha)
  }

  lemma AnswerPosition(identifier: string, requirement: Requirement, notBefore: int, network: Network, host: Host, r: Resolved) returns (k: nat)
    requires Resolves(identifier, requirement, notBefore, network, host) == Ok(r)
    ensures var accepted := AcceptedIndex(identifier, notBefore, network, host);
            && accepted.Ok? && Listed(accepted.value.row, requirement, network, host).Ok?
            && k < 3
            && AnsweredAt(Listed(accepted.value.row, requirement, network, host).value, k, requirement, accepted.value.indexVersion, network, host, r)
  {
    hide AcceptedIndex, Listed;
    var accepted := AcceptedIndex(identifier, notBefore, network, host).value;
    k := AttemptAnswersAt(Listed(accepted.row, requirement, network, host).value, 0, false, requirement, accepted.indexVersion, network, host);
    hide Judge;
  }

  /**
   Of any four runs over any four networks that accepted the same index and answered, two gave the same answer, or were
   answered one request with two strings of one hash.
   */
  lemma AtMostThreeAnswers(identifier: string, requirement: Requirement, notBefore: int, networks: seq<Network>, host: Host,
                           answers: seq<Resolved>, accepted: Accepted)
    requires |networks| == 4 && |answers| == 4
    requires forall n :: 0 <= n < 4 ==> AcceptedIndex(identifier, notBefore, networks[n], host) == Ok(accepted)
    requires forall n :: 0 <= n < 4 ==> Resolves(identifier, requirement, notBefore, networks[n], host) == Ok(answers[n])
    ensures exists a, b :: 0 <= a < b < 4 &&
              (answers[a] == answers[b]
               || (Listed(accepted.row, requirement, networks[a], host).Ok?
                   && SomeReplyCollides(networks[a], networks[b], accepted.row,
                                        Listed(accepted.row, requirement, networks[a], host).value, host.platform.sha)))
  {
    hide *;
    var k0 := AnswerPosition(identifier, requirement, notBefore, networks[0], host, answers[0]);
    var k1 := AnswerPosition(identifier, requirement, notBefore, networks[1], host, answers[1]);
    var k2 := AnswerPosition(identifier, requirement, notBefore, networks[2], host, answers[2]);
    var k3 := AnswerPosition(identifier, requirement, notBefore, networks[3], host, answers[3]);
    var at := [k0, k1, k2, k3];
    var a, b := TwoAlike(at);
    SamePositionAgrees(accepted, at[a], requirement, networks[a], networks[b], host, answers[a], answers[b]);
  }

  lemma SamePositionAgrees(accepted: Accepted, k: nat, requirement: Requirement, a: Network, b: Network, host: Host, r: Resolved, s: Resolved)
    requires var x, y := Listed(accepted.row, requirement, a, host), Listed(accepted.row, requirement, b, host);
             && x.Ok? && AnsweredAt(x.value, k, requirement, accepted.indexVersion, a, host, r)
             && y.Ok? && AnsweredAt(y.value, k, requirement, accepted.indexVersion, b, host, s)
    ensures r == s || SomeReplyCollides(a, b, accepted.row, Listed(accepted.row, requirement, a, host).value, host.platform.sha)
  {
    hide Listed, AnsweredAt, RepliesCollide, Tried, ManifestUrl, VersionDataUrl;
    var candidates := Listed(accepted.row, requirement, a, host).value;
    ListsAgree(accepted.row, a, b, requirement, host);
    AnsweredIsTried(candidates, k, requirement, accepted.indexVersion, a, host, r);
    if Listed(accepted.row, requirement, b, host) == Ok(candidates) {
      SameCandidateSameAnswer(candidates, k, requirement, accepted.indexVersion, a, b, host, r, s);
    }
  }

  lemma TwoAlike(at: seq<nat>) returns (a: nat, b: nat)
    requires |at| == 4 && forall n :: 0 <= n < 4 ==> at[n] < 3
    ensures a < b < 4 && at[a] == at[b]
  {
    if at[0] == at[1] {
      a, b := 0, 1;
    } else if at[0] == at[2] {
      a, b := 0, 2;
    } else if at[1] == at[2] {
      a, b := 1, 2;
    } else if at[0] == at[3] {
      a, b := 0, 3;
    } else if at[1] == at[3] {
      a, b := 1, 3;
    } else {
      a, b := 2, 3;
    }
  }

  // ---- what a publication leaves to the network ----

  /** The documents behind an index row: the version data and the manifests of the candidates that are tried. */
  datatype Publication = Publication(versionData: Bytes, manifests: seq<Bytes>)

  function Published(p: Publication, accepted: Accepted, requirement: Requirement, host: Host): seq<Entry> {
    var entries := VersionList(accepted.row, Ok(p.versionData), host);
    if entries.Err? then [] else Candidates(entries.value, requirement.minimumVersion)
  }

  /** Every document has the hash its parent lists for it. */
  ghost predicate Genuine(p: Publication, accepted: Accepted, requirement: Requirement, host: Host) {
    var candidates := Published(p, accepted, requirement, host);
    && VersionList(accepted.row, Ok(p.versionData), host).Ok?
    && |p.manifests| == Tried(candidates)
    && forall k :: 0 <= k < |p.manifests| ==> Hex.Encode(host.platform.sha(p.manifests[k])) == candidates[k].sha256
  }

  /** The answer candidate `k` stands for: what its published manifest selects. */
  function PublishedAnswer(p: Publication, k: nat, accepted: Accepted, requirement: Requirement, host: Host): Option<Resolved> {
    var candidates := Published(p, accepted, requirement, host);
    if k >= |candidates| || k >= |p.manifests| then None
    else
      var manifest := ManifestFor(candidates[k], Ok(p.manifests[k]), host);
      if manifest.Err? then None
      else
        var installer := Manifest.Selected(manifest.value, requirement.architecture, requirement.scope);
        if installer.None? then None else Some(Answer(candidates, k, installer.value, accepted.indexVersion))
  }

  ghost predicate Unlike(reply: Result<Bytes, Reason>, document: Bytes, sha: BlockMap.Sha256) {
    reply.Ok? && BlockMap.Collide(reply.value, document, sha)
  }

  /** A network under which the index is accepted and no reply is a second string of a published document's hash. */
  ghost predicate Delivers(network: Network, p: Publication, identifier: string, notBefore: int, accepted: Accepted, requirement: Requirement,
                           host: Host) {
    && AcceptedIndex(identifier, notBefore, network, host) == Ok(accepted)
    && !Unlike(network(1, VersionDataUrl(accepted.row)), p.versionData, host.platform.sha)
    && forall k :: 0 <= k < |p.manifests| && k < |Published(p, accepted, requirement, host)| ==>
                     !Unlike(network(2 + k, ManifestUrl(Published(p, accepted, requirement, host)[k])), p.manifests[k], host.platform.sha)
  }

  lemma DeliveredList(network: Network, p: Publication, identifier: string, notBefore: int, accepted: Accepted, requirement: Requirement,
                      host: Host)
    requires Genuine(p, accepted, requirement, host) && Delivers(network, p, identifier, notBefore, accepted, requirement, host)
    requires Listed(accepted.row, requirement, network, host).Ok?
    ensures Listed(accepted.row, requirement, network, host) == Ok(Published(p, accepted, requirement, host))
  {
    hide AcceptedIndex, ManifestUrl, VersionDataUrl, Candidates, Mszip.Unpacked, ParseItems;
    HashIsListed(accepted.row, network(1, VersionDataUrl(accepted.row)), host);
    HashIsListed(accepted.row, Ok(p.versionData), host);
    hide Lower, Hex.Encode;
  }

  /** Over every such network an answer is one of the at most three the publication fixes. */
  lemma AnswersArePublished(network: Network, p: Publication, identifier: string, notBefore: int, accepted: Accepted, requirement: Requirement,
                            host: Host, r: Resolved)
    requires Genuine(p, accepted, requirement, host) && Delivers(network, p, identifier, notBefore, accepted, requirement, host)
    requires Resolves(identifier, requirement, notBefore, network, host) == Ok(r)
    ensures exists k :: 0 <= k < 3 && PublishedAnswer(p, k, accepted, requirement, host) == Some(r)
  {
    hide AcceptedIndex, Resolves, Listed, Candidates, Published, AnsweredAt, VersionList, PublishedAnswer, Tried, ManifestUrl, VersionDataUrl,
      Hex.Encode, Unlike;
    var k := AnswerPosition(identifier, requirement, notBefore, network, host, r);
    DeliveredList(network, p, identifier, notBefore, accepted, requirement, host);
    var candidates := Published(p, accepted, requirement, host);
    AnsweredIsTried(candidates, k, requirement, accepted.indexVersion, network, host, r);
    TriedIsInside(candidates);
    ReplyIsDocument(network, p, k, accepted, requirement, host, r);
  }

  lemma TriedIsInside(candidates: seq<Entry>)
    ensures Tried(candidates) <= |candidates| && Tried(candidates) <= 3
  {
  }

  lemma ReplyIsDocument(network: Network, p: Publication, k: nat, accepted: Accepted, requirement: Requirement, host: Host, r: Resolved)
    requires var candidates := Published(p, accepted, requirement, host);
             && k < |candidates| && k < |p.manifests|
             && AnsweredAt(candidates, k, requirement, accepted.indexVersion, network, host, r)
             && Hex.Encode(host.platform.sha(p.manifests[k])) == candidates[k].sha256
             && !Unlike(network(2 + k, ManifestUrl(candidates[k])), p.manifests[k], host.platform.sha)
    ensures PublishedAnswer(p, k, accepted, requirement, host) == Some(r)
  {
    hide Published, Manifest.Selected, ManifestUrl, VersionList, Candidates;
    var reply := network(2 + k, ManifestUrl(Published(p, accepted, requirement, host)[k]));
    Hex.EncodeIsInjective(host.platform.sha(reply.value), host.platform.sha(p.manifests[k]));
    hide Hex.Encode;
    assert reply.value == p.manifests[k];
  }

  /** The network `base` for the index, the published version data, and one manifest alone. */
  function Only(base: Network, p: Publication, k: nat): Network
    requires k < |p.manifests|
  {
    (n: nat, url: string) =>
      if n == 0 then base(n, url)
      else if n == 1 then Ok(p.versionData)
      else if n == 2 + k then Ok(p.manifests[k])
      else Err(CatalogUnavailable)
  }

  lemma OnlyAnswers(base: Network, p: Publication, k: nat, identifier: string, notBefore: int, accepted: Accepted, requirement: Requirement,
                    host: Host)
    requires Genuine(p, accepted, requirement, host) && AcceptedIndex(identifier, notBefore, base, host) == Ok(accepted)
    requires k < |p.manifests| && PublishedAnswer(p, k, accepted, requirement, host).Some?
    ensures var network := Only(base, p, k);
            && Delivers(network, p, identifier, notBefore, accepted, requirement, host)
            && Resolves(identifier, requirement, notBefore, network, host) == Ok(PublishedAnswer(p, k, accepted, requirement, host).value)
  {
    hide *;
    OnlyDelivers(base, p, k, identifier, notBefore, accepted, requirement, host);
    OnlyIsAnswered(base, p, k, accepted, requirement, host);
    var candidates, r := Published(p, accepted, requirement, host), PublishedAnswer(p, k, accepted, requirement, host).value;
    AnswersWhere(candidates, 0, k, false, requirement, accepted.indexVersion, Only(base, p, k), host, r);
    ResolvesBy(identifier, requirement, notBefore, Only(base, p, k), host, accepted, candidates, r);
  }

  lemma ResolvesBy(identifier: string, requirement: Requirement, notBefore: int, network: Network, host: Host, accepted: Accepted,
                   candidates: seq<Entry>, r: Resolved)
    requires AcceptedIndex(identifier, notBefore, network, host) == Ok(accepted)
    requires Listed(accepted.row, requirement, network, host) == Ok(candidates)
    requires Attempt(candidates, 0, false, requirement, accepted.indexVersion, network, host) == Ok(r)
    ensures Resolves(identifier, requirement, notBefore, network, host) == Ok(r)
  {
    hide AcceptedIndex, Listed, Attempt;
  }

  lemma OnlyDelivers(base: Network, p: Publication, k: nat, identifier: string, notBefore: int, accepted: Accepted, requirement: Requirement,
                     host: Host)
    requires Genuine(p, accepted, requirement, host) && AcceptedIndex(identifier, notBefore, base, host) == Ok(accepted)
    requires k < |p.manifests|
    ensures var network := Only(base, p, k);
            && AcceptedIndex(identifier, notBefore, network, host) == Ok(accepted)
            && Delivers(network, p, identifier, notBefore, accepted, requirement, host)
            && Listed(accepted.row, requirement, network, host) == Ok(Published(p, accepted, requirement, host))
  {
    hide *;
    var network := Only(base, p, k);
    OnlyReplies(base, p, k);
    SameIndex(identifier, notBefore, base, network, host);
    OnlyLists(base, p, k, accepted, requirement, host);
    GenuineList(p, accepted, requirement, host);
    OnlyIsLike(network, p, k, identifier, notBefore, accepted, requirement, host);
  }

  /** What the network answers, request by request. */
  lemma OnlyReplies(base: Network, p: Publication, k: nat)
    requires k < |p.manifests|
    ensures forall url :: Only(base, p, k)(0, url) == base(0, url) && Only(base, p, k)(1, url) == Ok(p.versionData)
    ensures forall n: nat, url :: n >= 2 ==> Only(base, p, k)(n, url) == if n == 2 + k then Ok(p.manifests[k]) else Err(CatalogUnavailable)
  {
  }

  lemma SameIndex(identifier: string, notBefore: int, a: Network, b: Network, host: Host)
    requires forall url :: a(0, url) == b(0, url)
    ensures AcceptedIndex(identifier, notBefore, a, host) == AcceptedIndex(identifier, notBefore, b, host)
  {
    hide AcceptedPackage;
  }

  lemma OnlyLists(base: Network, p: Publication, k: nat, accepted: Accepted, requirement: Requirement, host: Host)
    requires Genuine(p, accepted, requirement, host) && k < |p.manifests|
    ensures Listed(accepted.row, requirement, Only(base, p, k), host) == Ok(Published(p, accepted, requirement, host))
  {
    hide VersionList, Candidates, VersionDataUrl, Hex.Encode, Tried;
  }

  lemma GenuineList(p: Publication, accepted: Accepted, requirement: Requirement, host: Host)
    requires Genuine(p, accepted, requirement, host)
    ensures |p.manifests| <= |Published(p, accepted, requirement, host)|
  {
    hide VersionList, Published, Hex.Encode;
  }

  lemma OnlyIsLike(network: Network, p: Publication, k: nat, identifier: string, notBefore: int, accepted: Accepted, requirement: Requirement,
                   host: Host)
    requires k < |p.manifests| && AcceptedIndex(identifier, notBefore, network, host) == Ok(accepted)
    requires forall url :: network(1, url) == Ok(p.versionData)
    requires forall n: nat, url :: n >= 2 ==> network(n, url) == if n == 2 + k then Ok(p.manifests[k]) else Err(CatalogUnavailable)
    ensures Delivers(network, p, identifier, notBefore, accepted, requirement, host)
  {
    hide AcceptedIndex, Published, VersionDataUrl, ManifestUrl;
  }

  lemma OnlyIsAnswered(base: Network, p: Publication, k: nat, accepted: Accepted, requirement: Requirement, host: Host)
    requires Genuine(p, accepted, requirement, host) && k < |p.manifests| && PublishedAnswer(p, k, accepted, requirement, host).Some?
    ensures AnsweredAt(Published(p, accepted, requirement, host), k, requirement, accepted.indexVersion, Only(base, p, k), host,
                       PublishedAnswer(p, k, accepted, requirement, host).value)
  {
    hide Manifest.Selected, VersionList, Candidates, Published, ManifestUrl, Hex.Encode;
    var network, candidates := Only(base, p, k), Published(p, accepted, requirement, host);
    forall i | 0 <= i < k
      ensures Judge(candidates, i, requirement, network, host) == PassedOver(true)
    {
    }
  }

  lemma AnsweredIsTried(candidates: seq<Entry>, k: nat, requirement: Requirement, indexVersion: string, network: Network, host: Host,
                        r: Resolved)
    requires AnsweredAt(candidates, k, requirement, indexVersion, network, host, r)
    ensures k < Tried(candidates)
  {
  }

  /** No manifest tried is unavailable, and none ends the resolution. */
  ghost predicate NothingFails(candidates: seq<Entry>, requirement: Requirement, network: Network, host: Host) {
    forall i :: 0 <= i < Tried(candidates) ==>
                  var verdict := Judge(candidates, i, requirement, network, host); verdict.Answers? || verdict == PassedOver(false)
  }

  /** When nothing fails, the answer is the highest of the versions tried that has an installer; there is none only if none has. */
  lemma HighestAnswers(entries: seq<Entry>, requirement: Requirement, indexVersion: string, network: Network, host: Host)
    requires NothingFails(Candidates(entries, requirement.minimumVersion), requirement, network, host)
    ensures var candidates := Candidates(entries, requirement.minimumVersion);
            var r := Attempt(candidates, 0, false, requirement, indexVersion, network, host);
            && (r.Ok? <==> exists j :: 0 <= j < Tried(candidates) && Judge(candidates, j, requirement, network, host).Answers?)
            && (r.Err? ==> r.error == NoCompatibleVersion)
            && (r.Ok? ==> forall j :: 0 <= j < Tried(candidates) && Judge(candidates, j, requirement, network, host).Answers?
                                      ==> !Versions.Lower(r.value.version, candidates[j].version))
  {
    hide Judge, Versions.Lower;
    var candidates := Candidates(entries, requirement.minimumVersion);
    RankedIsStableSort(Satisfying(entries, requirement.minimumVersion), []);
    AttemptFindsFirst(candidates, 0, requirement, indexVersion, network, host);
    forall e: Entry
      ensures !Versions.Lower(e.version, e.version)
    {
      Versions.LessIsTotal(Versions.Parsed(e.version), Versions.Parsed(e.version));
      LowerIsLess(e.version, e.version);
    }
  }

  lemma {:induction false} AttemptFindsFirst(candidates: seq<Entry>, i: nat, requirement: Requirement, indexVersion: string, network: Network,
                                             host: Host)
    requires NothingFails(candidates, requirement, network, host)
    ensures var r := Attempt(candidates, i, false, requirement, indexVersion, network, host);
            if r.Err? then
              r.error == NoCompatibleVersion && forall j :: i <= j < Tried(candidates) ==> !Judge(candidates, j, requirement, network, host).Answers?
            else
              exists k :: && i <= k < Tried(candidates) && Judge(candidates, k, requirement, network, host).Answers?
                          && r.value.version == candidates[k].version
                          && forall j :: i <= j < k ==> !Judge(candidates, j, requirement, network, host).Answers?
    decreases |candidates| - i
  {
    hide Judge;
    if i < Tried(candidates) && !Judge(candidates, i, requirement, network, host).Answers? {
      AttemptFindsFirst(candidates, i + 1, requirement, indexVersion, network, host);
    }
  }

  /** The network `network`, but that the manifest of candidate `k` cannot be had. */
  function Withholding(network: Network, k: nat): Network {
    (n: nat, url: string) => if n == 2 + k then Err(CatalogUnavailable) else network(n, url)
  }

  /** Withholding one manifest moves the answer to the next candidate that has one: the network chooses among the three. */
  lemma WithholdingLowersTheAnswer(candidates: seq<Entry>, k: nat, requirement: Requirement, indexVersion: string, network: Network, host: Host,
                                   r: Resolved)
    requires AnsweredAt(candidates, k, requirement, indexVersion, network, host, r)
    requires k + 1 < Tried(candidates) && Judge(candidates, k + 1, requirement, network, host).Answers?
    ensures var next := Judge(candidates, k + 1, requirement, network, host).installer;
            Attempt(candidates, 0, false, requirement, indexVersion, Withholding(network, k), host)
            == Ok(Answer(candidates, k + 1, next, indexVersion))
  {
    hide Manifest.Selected;
    var other := Withholding(network, k);
    forall i | 0 <= i < |candidates| && i != k
      ensures Judge(candidates, i, requirement, other, host) == Judge(candidates, i, requirement, network, host)
    {
    }
    assert Judge(candidates, k, requirement, other, host) == PassedOver(true);
    hide Judge, Withholding;
    var next := Judge(candidates, k + 1, requirement, network, host).installer;
    AnswersWhere(candidates, 0, k + 1, false, requirement, indexVersion, other, host, Answer(candidates, k + 1, next, indexVersion));
  }
}
