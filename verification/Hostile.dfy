/** What a network that answers anything it likes can change about the installer that is installed. */
module Hostile {
  import opened Wrappers
  import opened Catalog
  import opened LittleEndian
  import opened Resolution
  import Manifest

  /** What a resolution is asked, and the host it runs on. */
  datatype Query = Query(identifier: string, requirement: Requirement, notBefore: int, host: Host)

  /** The documents published under each index. */
  type Catalogue = Accepted -> Publication

  ghost function Outcome(network: Network, q: Query): Result<Resolved, Reason> {
    Resolves(q.identifier, q.requirement, q.notBefore, network, q.host)
  }

  ghost function IndexOf(network: Network, q: Query): Result<Accepted, Reason> {
    AcceptedIndex(q.identifier, q.notBefore, network, q.host)
  }

  /** The installer candidate `k` of an index leads to, by the documents published under it. */
  function InstallerAt(p: Publication, k: nat, accepted: Accepted, q: Query): Option<Manifest.Installer> {
    var answer := PublishedAnswer(p, k, accepted, q.requirement, q.host);
    if answer.None? then None else Some(answer.value.installer)
  }

  ghost predicate IsGenuine(p: Publication, accepted: Accepted, q: Query) {
    Genuine(p, accepted, q.requirement, q.host)
  }

  /** The network's index is the accepted one, and no reply is a second string of a published document's hash. */
  ghost predicate DeliversUnder(network: Network, p: Publication, accepted: Accepted, q: Query) {
    Delivers(network, p, q.identifier, q.notBefore, accepted, q.requirement, q.host)
  }

  ghost predicate Same(a: Network, b: Network, q: Query) {
    Outcome(a, q).Ok? && Outcome(b, q).Ok? ==> Outcome(a, q).value.installer == Outcome(b, q).value.installer
  }

  /** The documents of the two indexes leave one installer between them. */
  ghost predicate Alike(p: Publication, a: Accepted, r: Publication, b: Accepted, q: Query) {
    forall i: nat, j: nat ::
      InstallerAt(p, i, a, q).Some? && InstallerAt(r, j, b, q).Some? ==> InstallerAt(p, i, a, q) == InstallerAt(r, j, b, q)
  }

  // ---- one network, one index ----

  /** A network's answer installs what some published document of its index selects. */
  lemma AnswerIsInstaller(network: Network, p: Publication, accepted: Accepted, q: Query) returns (k: nat)
    requires IsGenuine(p, accepted, q) && DeliversUnder(network, p, accepted, q) && Outcome(network, q).Ok?
    ensures InstallerAt(p, k, accepted, q) == Some(Outcome(network, q).value.installer)
  {
    hide Genuine, Delivers, Resolves, PublishedAnswer;
    AnswersArePublished(network, p, q.identifier, q.notBefore, accepted, q.requirement, q.host, Outcome(network, q).value);
    k :| 0 <= k < 3 && PublishedAnswer(p, k, accepted, q.requirement, q.host) == Some(Outcome(network, q).value);
  }

  /** The network that withholds every other manifest of an index installs what this one selects. */
  lemma InstallerIsAnswer(base: Network, p: Publication, accepted: Accepted, q: Query, k: nat) returns (network: Network)
    requires IsGenuine(p, accepted, q) && IndexOf(base, q) == Ok(accepted) && InstallerAt(p, k, accepted, q).Some?
    ensures DeliversUnder(network, p, accepted, q)
    ensures Outcome(network, q).Ok? && InstallerAt(p, k, accepted, q) == Some(Outcome(network, q).value.installer)
  {
    hide Genuine, Delivers, Resolves, AcceptedIndex, Only;
    InstallerIsInside(p, k, accepted, q);
    hide PublishedAnswer;
    OnlyAnswers(base, p, k, q.identifier, q.notBefore, accepted, q.requirement, q.host);
    network := Only(base, p, k);
  }

  lemma InstallerIsInside(p: Publication, k: nat, accepted: Accepted, q: Query)
    ensures InstallerAt(p, k, accepted, q).Some? ==> k < |p.manifests|
  {
    hide Published;
  }

  // ---- two networks, two indexes ----

  ghost predicate InstallAlike(p: Publication, a: Accepted, r: Publication, b: Accepted, q: Query) {
    forall x: Network, y: Network :: DeliversUnder(x, p, a, q) && DeliversUnder(y, r, b, q) ==> Same(x, y, q)
  }

  /**
   Two networks, the one with this accepted index and the other with that, cannot be told to install different things
   exactly when the documents of the two indexes leave one installer between them.
   */
  lemma InstallAlikeWhenAlike(x: Network, y: Network, p: Publication, a: Accepted, r: Publication, b: Accepted, q: Query)
    requires IsGenuine(p, a, q) && IsGenuine(r, b, q) && IndexOf(x, q) == Ok(a) && IndexOf(y, q) == Ok(b)
    ensures InstallAlike(p, a, r, b, q) <==> Alike(p, a, r, b, q)
  {
    hide IsGenuine, DeliversUnder, Outcome, IndexOf, InstallerAt;
    if Alike(p, a, r, b, q) {
      forall x: Network, y: Network | DeliversUnder(x, p, a, q) && DeliversUnder(y, r, b, q) && Outcome(x, q).Ok? && Outcome(y, q).Ok?
        ensures Same(x, y, q)
      {
        var i := AnswerIsInstaller(x, p, a, q);
        var j := AnswerIsInstaller(y, r, b, q);
      }
    } else {
      var i: nat, j: nat :| InstallerAt(p, i, a, q).Some? && InstallerAt(r, j, b, q).Some? && InstallerAt(p, i, a, q) != InstallerAt(r, j, b, q);
      var first := InstallerIsAnswer(x, p, a, q, i);
      var second := InstallerIsAnswer(y, r, b, q, j);
      assert !Same(first, second, q);
    }
  }

  /** For one accepted index: what is installed is the network's to choose unless its documents leave one installer. */
  lemma NetworkChoosesUnlessOneInstaller(base: Network, p: Publication, accepted: Accepted, q: Query)
    requires IsGenuine(p, accepted, q) && IndexOf(base, q) == Ok(accepted)
    ensures InstallAlike(p, accepted, p, accepted, q) <==> Alike(p, accepted, p, accepted, q)
  {
    hide *;
    InstallAlikeWhenAlike(base, base, p, accepted, p, accepted, q);
  }

  // ---- every index ----

  /** Some package leads to it that the signature check and the bound let through. */
  ghost predicate LetThrough(accepted: Accepted, q: Query) {
    exists package :: AcceptedPackage(package, q.identifier, q.notBefore, q.host) == Ok(accepted)
  }

  ghost predicate AllGenuine(catalogue: Catalogue, q: Query) {
    forall accepted :: LetThrough(accepted, q) ==> IsGenuine(catalogue(accepted), accepted, q)
  }

  /** Whatever index is let through, its documents leave the one installer. */
  ghost predicate OneInstaller(catalogue: Catalogue, q: Query) {
    forall a, b :: LetThrough(a, q) && LetThrough(b, q) ==> Alike(catalogue(a), a, catalogue(b), b, q)
  }

  /** A network may offer any index, as long as no reply shares its hash with another document published under it. */
  ghost predicate DeliversSome(network: Network, catalogue: Catalogue, q: Query) {
    IndexOf(network, q).Ok? && DeliversUnder(network, catalogue(IndexOf(network, q).value), IndexOf(network, q).value, q)
  }

  ghost predicate NoNetworkMatters(catalogue: Catalogue, q: Query) {
    forall x: Network, y: Network :: DeliversSome(x, catalogue, q) && DeliversSome(y, catalogue, q) ==> Same(x, y, q)
  }

  lemma IndexIsLetThrough(network: Network, q: Query)
    requires IndexOf(network, q).Ok?
    ensures LetThrough(IndexOf(network, q).value, q)
  {
    hide AcceptedPackage;
  }

  lemma LetThroughIsIndex(accepted: Accepted, q: Query) returns (network: Network)
    requires LetThrough(accepted, q)
    ensures IndexOf(network, q) == Ok(accepted)
  {
    hide AcceptedPackage;
    var package :| AcceptedPackage(package, q.identifier, q.notBefore, q.host) == Ok(accepted);
    network := (n: nat, url: string) => Ok(package);
  }

  lemma DeliveredIndex(network: Network, p: Publication, accepted: Accepted, q: Query)
    requires DeliversUnder(network, p, accepted, q)
    ensures IndexOf(network, q) == Ok(accepted)
  {
    hide AcceptedIndex, Published;
  }

  /**
   No network can change what is installed exactly when all the documents published under all the indexes that are let
   through leave one installer. Where two of them differ, one network gets the one and another network the other.
   */
  lemma NoNetworkMattersWhen(catalogue: Catalogue, q: Query)
    requires AllGenuine(catalogue, q)
    ensures NoNetworkMatters(catalogue, q) <==> OneInstaller(catalogue, q)
  {
    hide IsGenuine, DeliversUnder, Outcome, IndexOf, InstallerAt, LetThrough, Same, Alike, InstallAlike;
    if OneInstaller(catalogue, q) {
      forall x: Network, y: Network | DeliversSome(x, catalogue, q) && DeliversSome(y, catalogue, q)
        ensures Same(x, y, q)
      {
        var a, b := IndexOf(x, q).value, IndexOf(y, q).value;
        IndexIsLetThrough(x, q);
        IndexIsLetThrough(y, q);
        InstallAlikeWhenAlike(x, y, catalogue(a), a, catalogue(b), b, q);
        SameWhenAlike(x, y, catalogue(a), a, catalogue(b), b, q);
      }
    } else {
      var a, b :| LetThrough(a, q) && LetThrough(b, q) && !Alike(catalogue(a), a, catalogue(b), b, q);
      var x := LetThroughIsIndex(a, q);
      var y := LetThroughIsIndex(b, q);
      InstallAlikeWhenAlike(x, y, catalogue(a), a, catalogue(b), b, q);
      var first, second := NotInstalledAlike(catalogue(a), a, catalogue(b), b, q);
      DeliveredIndex(first, catalogue(a), a, q);
      DeliveredIndex(second, catalogue(b), b, q);
    }
  }

  lemma SameWhenAlike(x: Network, y: Network, p: Publication, a: Accepted, r: Publication, b: Accepted, q: Query)
    requires InstallAlike(p, a, r, b, q) && DeliversUnder(x, p, a, q) && DeliversUnder(y, r, b, q)
    ensures Same(x, y, q)
  {
    hide DeliversUnder, Same;
  }

  lemma NotInstalledAlike(p: Publication, a: Accepted, r: Publication, b: Accepted, q: Query) returns (x: Network, y: Network)
    requires !InstallAlike(p, a, r, b, q)
    ensures DeliversUnder(x, p, a, q) && DeliversUnder(y, r, b, q) && !Same(x, y, q)
  {
    hide DeliversUnder, Same;
    x, y :| DeliversUnder(x, p, a, q) && DeliversUnder(y, r, b, q) && !Same(x, y, q);
  }
}
