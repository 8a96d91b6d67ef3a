/** The merged manifest: what an installer entry inherits, and the entry chosen for a requirement. */
module Manifest {
  import opened Wrappers
  import opened Text
  import CommandLine

  /** A numeric return code and what the manifest says it means. */
  datatype ReturnCode = ReturnCode(code: int, response: string)

  datatype Fields = Fields(
    architecture: Option<string>,
    installerType: Option<string>,
    scope: Option<string>,
    elevationRequirement: Option<string>,
    url: Option<string>,
    sha256: Option<string>,
    switches: map<string, string>,
    successCodes: Option<seq<int>>,
    expectedReturnCodes: Option<seq<ReturnCode>>)

  datatype Merged = Merged(root: Fields, installers: seq<Fields>)

  datatype Scope = User | Machine

  datatype Installer = Installer(
    url: string,
    sha256: string,
    installerType: string,
    scope: string,
    architecture: string,
    elevationRequired: bool,
    arguments: seq<string>,
    successCodes: seq<int>,
    rebootCodes: seq<int>)

  function ScopeText(scope: Scope): string {
    if scope.User? then "user" else "machine"
  }

  function OrElse<T>(own: Option<T>, inherited: Option<T>): Option<T> {
    if own.Some? then own else inherited
  }

  function Else<T>(own: Option<T>, otherwise: T): T {
    if own.Some? then own.value else otherwise
  }

  predicate SameIgnoringCase(a: string, b: string) {
    Lower(a) == Lower(b)
  }

  /** What an entry stands for with the root behind it: inheritance field by field, for switches key by key. */
  function Effective(root: Fields, entry: Fields): Fields {
    Fields(
      OrElse(entry.architecture, root.architecture),
      OrElse(entry.installerType, root.installerType),
      OrElse(entry.scope, root.scope),
      OrElse(entry.elevationRequirement, root.elevationRequirement),
      OrElse(entry.url, root.url),
      OrElse(entry.sha256, root.sha256),
      root.switches + entry.switches,
      OrElse(entry.successCodes, root.successCodes),
      OrElse(entry.expectedReturnCodes, root.expectedReturnCodes))
  }

  predicate Usable(e: Fields, architecture: string) {
    && e.architecture.Some? && SameIgnoringCase(e.architecture.value, architecture)
    && e.url.Some? && e.url.value != ""
    && e.sha256.Some? && Utf8Length(e.sha256.value) == 64
  }

  function Candidates(root: Fields, entries: seq<Fields>, architecture: string): (r: seq<Fields>)
    ensures forall e :: e in r <==> Usable(e, architecture) && exists i :: 0 <= i < |entries| && e == Effective(root, entries[i])
  {
    if entries == [] then []
    else
      var head, tail := Effective(root, entries[0]), Candidates(root, entries[1..], architecture);
      if Usable(head, architecture) then [head] + tail else tail
  }

  predicate DeclaresScope(e: Fields, scope: Scope) {
    e.scope.Some? && SameIgnoringCase(e.scope.value, ScopeText(scope))
  }

  predicate DeclaresNoScope(e: Fields) {
    Else(e.scope, "") == ""
  }

  function First(candidates: seq<Fields>, chosen: Fields -> bool): (r: Option<Fields>)
    ensures r.Some? ==> r.value in candidates && chosen(r.value)
    ensures r.None? ==> forall e <- candidates :: !chosen(e)
  {
    if candidates == [] then None
    else if chosen(candidates[0]) then Some(candidates[0])
    else First(candidates[1..], chosen)
  }

  /** The preferred scope, else no scope declared, else any entry. */
  function Choice(candidates: seq<Fields>, scope: Scope): Option<Fields> {
    OrElse(First(candidates, e => DeclaresScope(e, scope)),
           OrElse(First(candidates, DeclaresNoScope), First(candidates, e => true)))
  }

  predicate IsMsiType(installerType: string) {
    installerType == "msi" || installerType == "wix"
  }

  function DefaultRebootCodes(installerType: string): (r: seq<int>)
    ensures forall i, j :: 0 <= i < j < |r| ==> r[i] != r[j]
  {
    if IsMsiType(installerType) || installerType == "burn" then [3010, 1641]
    else if installerType == "inno" then [8]
    else []
  }

  predicate IsRebootResponse(response: string) {
    response == "rebootRequiredToFinish" || response == "rebootRequiredForInstall" || response == "rebootInitiated"
  }

  predicate FitsInt32(code: int) {
    -0x8000_0000 <= code <= 0x7fff_ffff
  }

  predicate MeansReboot(expected: ReturnCode) {
    IsRebootResponse(expected.response) && FitsInt32(expected.code)
  }

  function WithReboots(codes: seq<int>, expected: seq<ReturnCode>): seq<int>
    decreases expected
  {
    if expected == [] then codes
    else if MeansReboot(expected[0]) && expected[0].code !in codes then WithReboots(codes + [expected[0].code], expected[1..])
    else WithReboots(codes, expected[1..])
  }

  function InRange(codes: seq<int>): seq<int> {
    if codes == [] then []
    else (if FitsInt32(codes[0]) then [codes[0]] else []) + InRange(codes[1..])
  }

  function Switch(e: Fields, key: string): seq<string> {
    if key in e.switches then CommandLine.Words(e.switches[key]) else []
  }

  function Arguments(e: Fields, installerType: string): seq<string> {
    (if IsMsiType(installerType) then [] else Switch(e, "Silent")) + Switch(e, "Custom")
  }

  function Described(e: Fields): Installer {
    var installerType := Lower(Else(e.installerType, "exe"));
    var scope := Lower(Else(e.scope, ""));
    Installer(
      Else(e.url, ""),
      Lower(Else(e.sha256, "")),
      installerType,
      scope,
      Lower(Else(e.architecture, "")),
      scope == "machine" || (e.elevationRequirement.Some? && SameIgnoringCase(e.elevationRequirement.value, "elevationRequired")),
      Arguments(e, installerType),
      InRange(Else(e.successCodes, [])),
      WithReboots(DefaultRebootCodes(installerType), Else(e.expectedReturnCodes, [])))
  }

  function Selected(m: Merged, architecture: string, scope: Scope): Option<Installer> {
    var chosen := Choice(Candidates(m.root, m.installers, architecture), scope);
    if chosen.None? then None else Some(Described(chosen.value))
  }

  method RebootCodes(installerType: string, expected: seq<ReturnCode>) returns (rebootCodes: seq<int>)
    ensures rebootCodes == WithReboots(DefaultRebootCodes(installerType), expected)
  {
    rebootCodes := DefaultRebootCodes(installerType);
    for i := 0 to |expected|
      invariant WithReboots(DefaultRebootCodes(installerType), expected) == WithReboots(rebootCodes, expected[i..])
    {
      assert expected[i..][1..] == expected[i + 1..];
      if IsRebootResponse(expected[i].response) && FitsInt32(expected[i].code) && expected[i].code !in rebootCodes {
        rebootCodes := rebootCodes + [expected[i].code];
      }
    }
  }

  /** The choice, with the arguments and the reboot codes accumulated as the manifest lists them. */
  method Select(m: Merged, architecture: string, scope: Scope) returns (r: Option<Installer>)
    ensures r == Selected(m, architecture, scope)
  {
    hide Candidates, CommandLine.Words, Lower;
    var chosen := Choice(Candidates(m.root, m.installers, architecture), scope);
    if chosen.None? {
      return None;
    }
    var e := chosen.value;
    var installerType, scopeText := Lower(Else(e.installerType, "exe")), Lower(Else(e.scope, ""));
    var arguments: seq<string> := [];
    if !IsMsiType(installerType) && "Silent" in e.switches {
      var silent := CommandLine.SplitCommandLine(e.switches["Silent"]);
      arguments := arguments + silent;
    }
    if "Custom" in e.switches {
      var custom := CommandLine.SplitCommandLine(e.switches["Custom"]);
      arguments := arguments + custom;
    }
    assert arguments == Arguments(e, installerType);
    var rebootCodes := RebootCodes(installerType, Else(e.expectedReturnCodes, []));
    var elevationRequired :=
      scopeText == "machine" || (e.elevationRequirement.Some? && SameIgnoringCase(e.elevationRequirement.value, "elevationRequired"));
    r := Some(Installer(Else(e.url, ""), Lower(Else(e.sha256, "")), installerType, scopeText, Lower(Else(e.architecture, "")),
                        elevationRequired, arguments, InRange(Else(e.successCodes, [])), rebootCodes));
  }

  // ---- what the choice means ----

  /** An installer is chosen exactly when some entry, with what it inherits, is usable. */
  lemma SelectsIfUsable(m: Merged, architecture: string, scope: Scope)
    ensures Selected(m, architecture, scope).Some? <==>
            exists i :: 0 <= i < |m.installers| && Usable(Effective(m.root, m.installers[i]), architecture)
  {
    hide Usable, Effective, Described;
    var candidates := Candidates(m.root, m.installers, architecture);
    if i :| 0 <= i < |m.installers| && Usable(Effective(m.root, m.installers[i]), architecture) {
      assert Effective(m.root, m.installers[i]) in candidates;
    }
  }

  /** No entry of the preferred scope is passed over, and none without a scope for one of the other scope. */
  lemma PreferredScopeWins(m: Merged, architecture: string, scope: Scope, other: Fields)
    requires other in Candidates(m.root, m.installers, architecture)
    ensures var chosen := Choice(Candidates(m.root, m.installers, architecture), scope);
            && chosen.Some? && chosen.value in Candidates(m.root, m.installers, architecture)
            && (DeclaresScope(other, scope) ==> DeclaresScope(chosen.value, scope))
            && (DeclaresNoScope(other) ==> DeclaresScope(chosen.value, scope) || DeclaresNoScope(chosen.value))
  {
    hide Candidates, DeclaresScope, DeclaresNoScope;
  }

  lemma {:induction false} LowerIsStable(s: string)
    ensures Lower(Lower(s)) == Lower(s) && Utf8Length(Lower(s)) == Utf8Length(s)
  {
    if s != "" {
      LowerIsStable(s[1..]);
      assert Lower(s)[0] == LowerOf(s[0]) && Lower(s)[1..] == Lower(s[1..]);
      assert LowerOf(LowerOf(s[0])) == LowerOf(s[0]);
    }
  }

  /** A chosen installer can be downloaded and checked: an address, a 64-byte hash in lower case, the architecture asked for. */
  lemma SelectedIsFit(m: Merged, architecture: string, scope: Scope)
    requires Selected(m, architecture, scope).Some?
    ensures var r := Selected(m, architecture, scope).value;
            && r.url != "" && Utf8Length(r.sha256) == 64 && Lower(r.sha256) == r.sha256 && r.architecture == Lower(architecture)
            && (r.scope == "machine" ==> r.elevationRequired)
            && exists i :: && 0 <= i < |m.installers|
                           && var e := Effective(m.root, m.installers[i]);
                              e.url == Some(r.url) && e.sha256.Some? && Lower(e.sha256.value) == r.sha256
  {
    var chosen := Choice(Candidates(m.root, m.installers, architecture), scope).value;
    hide Candidates, Lower, Utf8Length, Arguments, InRange, WithReboots;
    assert chosen in Candidates(m.root, m.installers, architecture);
    var i :| 0 <= i < |m.installers| && chosen == Effective(m.root, m.installers[i]);
    LowerIsStable(chosen.sha256.value);
  }

  /** Inheriting twice is inheriting once, and no switch is lost: the entry's own text, else the root's. */
  lemma InheritanceIsIdempotent(root: Fields, entry: Fields, key: string)
    ensures Effective(root, Effective(root, entry)) == Effective(root, entry)
    ensures key in Effective(root, entry).switches <==> key in entry.switches || key in root.switches
    ensures key in entry.switches ==> Effective(root, entry).switches[key] == entry.switches[key]
    ensures key in root.switches && key !in entry.switches ==> Effective(root, entry).switches[key] == root.switches[key]
  {
    assert root.switches + (root.switches + entry.switches) == root.switches + entry.switches;
  }

  /** Switches written as command lines become exactly their arguments: the silent ones, but not for `msiexec`, then the custom ones. */
  lemma SwitchesBecomeArguments(e: Fields, installerType: string, silent: seq<string>, custom: seq<string>)
    requires "Silent" in e.switches && e.switches["Silent"] == CommandLine.Printed(silent)
    requires "Custom" in e.switches && e.switches["Custom"] == CommandLine.Printed(custom)
    ensures Arguments(e, installerType) == (if IsMsiType(installerType) then [] else silent) + custom
  {
    CommandLine.SplitInvertsPrinted(silent);
    CommandLine.SplitInvertsPrinted(custom);
  }

  /** The reboot codes: the type's own first, then every listed one that fits, each once. */
  lemma {:induction false} RebootCodesAreExact(codes: seq<int>, expected: seq<ReturnCode>)
    requires forall i, j :: 0 <= i < j < |codes| ==> codes[i] != codes[j]
    ensures var r := WithReboots(codes, expected);
            && codes <= r
            && (forall i, j :: 0 <= i < j < |r| ==> r[i] != r[j])
            && forall c :: c in r <==> c in codes || exists k :: 0 <= k < |expected| && MeansReboot(expected[k]) && expected[k].code == c
    decreases expected
  {
    hide MeansReboot;
    if expected != [] {
      var next := if MeansReboot(expected[0]) && expected[0].code !in codes then codes + [expected[0].code] else codes;
      RebootCodesAreExact(next, expected[1..]);
      var r := WithReboots(codes, expected);
      forall c
        ensures c in r <==> c in codes || exists k :: 0 <= k < |expected| && MeansReboot(expected[k]) && expected[k].code == c
      {
        if c in r && c !in next {
          var k :| 0 <= k < |expected[1..]| && MeansReboot(expected[1..][k]) && expected[1..][k].code == c;
          assert expected[k + 1] == expected[1..][k];
        }
        if k :| 0 <= k < |expected| && MeansReboot(expected[k]) && expected[k].code == c {
          assert k > 0 ==> expected[1..][k - 1] == expected[k];
          assert k == 0 ==> c in next;
        }
      }
    }
  }

  // ---- the installer, field by field ----

  /** An entry's own field, or else the root's. */
  ghost predicate Has<T(!new)>(own: Option<T>, inherited: Option<T>, value: T) {
    own == Some(value) || (own.None? && inherited == Some(value))
  }

  /** Entry `i` is for the architecture and says where its installer is and by which hash to know it. */
  ghost predicate Fits(m: Merged, i: nat, architecture: string) {
    && i < |m.installers|
    && var e, root := m.installers[i], m.root;
       && (exists a :: Has(e.architecture, root.architecture, a) && Lower(a) == Lower(architecture))
       && (exists url :: Has(e.url, root.url, url) && url != "")
       && (exists hash :: Has(e.sha256, root.sha256, hash) && Utf8Length(hash) == 64)
  }

  /** How far an entry is from the preferred scope: it declares it, it declares none, it declares another. */
  ghost function Distance(m: Merged, i: nat, scope: Scope): nat
    requires i < |m.installers|
  {
    var declared := if m.installers[i].scope.Some? then m.installers[i].scope else m.root.scope;
    if declared.Some? && Lower(declared.value) == (if scope.User? then "user" else "machine") then 0
    else if declared.None? || declared.value == "" then 1
    else 2
  }

  /** Of the entries that fit, the first of those nearest to the preferred scope. */
  ghost predicate IsPreferred(m: Merged, i: nat, architecture: string, scope: Scope) {
    && Fits(m, i, architecture)
    && forall j: nat :: Fits(m, j, architecture) ==>
         Distance(m, i, scope) < Distance(m, j, scope) || (Distance(m, i, scope) == Distance(m, j, scope) && i <= j)
  }

  /** The installer an entry describes. */
  ghost predicate Describes(m: Merged, i: nat, r: Installer)
    requires i < |m.installers|
  {
    var e, root := m.installers[i], m.root;
    var kind := Lower(if e.installerType.Some? then e.installerType.value else if root.installerType.Some? then root.installerType.value else "exe");
    var scope := Lower(if e.scope.Some? then e.scope.value else if root.scope.Some? then root.scope.value else "");
    var elevation := if e.elevationRequirement.Some? then e.elevationRequirement else root.elevationRequirement;
    && Has(e.url, root.url, r.url)
    && (exists hash :: Has(e.sha256, root.sha256, hash) && r.sha256 == Lower(hash))
    && (exists a :: Has(e.architecture, root.architecture, a) && r.architecture == Lower(a))
    && r.installerType == kind && r.scope == scope
    && (r.elevationRequired <==> scope == "machine" || (elevation.Some? && Lower(elevation.value) == Lower("elevationRequired")))
    && r.arguments == (if kind == "msi" || kind == "wix" then [] else WordsOf(e, root, "Silent")) + WordsOf(e, root, "Custom")
    && CodesAre(if e.successCodes.Some? then e.successCodes else root.successCodes, r.successCodes)
    && RebootsAre(kind, if e.expectedReturnCodes.Some? then e.expectedReturnCodes else root.expectedReturnCodes, r.rebootCodes)
  }

  function WordsOf(e: Fields, root: Fields, key: string): seq<string> {
    if key in e.switches then CommandLine.Words(e.switches[key])
    else if key in root.switches then CommandLine.Words(root.switches[key]) else []
  }

  ghost predicate CodesAre(listed: Option<seq<int>>, codes: seq<int>) {
    forall c :: c in codes <==> listed.Some? && c in listed.value && -0x8000_0000 <= c <= 0x7fff_ffff
  }

  ghost predicate RebootsAre(kind: string, listed: Option<seq<ReturnCode>>, codes: seq<int>) {
    && (forall i, j :: 0 <= i < j < |codes| ==> codes[i] != codes[j])
    && forall c :: c in codes <==>
         || (c in {1641, 3010} && kind in {"msi", "wix", "burn"}) || (c == 8 && kind == "inno")
         || (listed.Some? && -0x8000_0000 <= c <= 0x7fff_ffff
             && exists k :: 0 <= k < |listed.value| && listed.value[k].code == c
                            && listed.value[k].response in {"rebootRequiredToFinish", "rebootRequiredForInstall", "rebootInitiated"})
  }

  lemma EffectiveFits(m: Merged, i: nat, architecture: string)
    requires i < |m.installers|
    ensures Usable(Effective(m.root, m.installers[i]), architecture) <==> Fits(m, i, architecture)
  {
    hide Lower, Utf8Length;
    var e, f := Effective(m.root, m.installers[i]), m.installers[i];
    if e.architecture.Some? {
      assert Has(f.architecture, m.root.architecture, e.architecture.value);
    }
    if e.url.Some? {
      assert Has(f.url, m.root.url, e.url.value);
    }
    if e.sha256.Some? {
      assert Has(f.sha256, m.root.sha256, e.sha256.value);
    }
  }

  lemma DistanceIs(m: Merged, i: nat, scope: Scope)
    requires i < |m.installers|
    ensures var e := Effective(m.root, m.installers[i]);
            && (DeclaresScope(e, scope) <==> Distance(m, i, scope) == 0)
            && (!DeclaresScope(e, scope) ==> (DeclaresNoScope(e) <==> Distance(m, i, scope) == 1))
            && Distance(m, i, scope) <= 2
  {
    ScopesAreLower();
    hide Lower;
  }

  lemma ScopesAreLower()
    ensures Lower("user") == "user" && Lower("machine") == "machine"
  {
    assert forall i :: 0 <= i < 4 ==> Lower("user")[i] == "user"[i];
    assert forall i :: 0 <= i < 7 ==> Lower("machine")[i] == "machine"[i];
  }

  /** The first of the candidates of some kind is the first entry that fits and is of it. */
  lemma {:induction false} FirstIsAt(root: Fields, entries: seq<Fields>, architecture: string, chosen: Fields -> bool) returns (i: nat)
    ensures var first := First(Candidates(root, entries, architecture), chosen);
            if first.Some? then i < |entries| && Usable(Effective(root, entries[i]), architecture) && first == Some(Effective(root, entries[i]))
            else i == |entries|
    ensures forall j :: 0 <= j < i ==> !(Usable(Effective(root, entries[j]), architecture) && chosen(Effective(root, entries[j])))
  {
    hide Usable, Effective;
    if entries == [] {
      i := 0;
    } else {
      var head := Effective(root, entries[0]);
      if Usable(head, architecture) && chosen(head) {
        i := 0;
      } else {
        var k := FirstIsAt(root, entries[1..], architecture, chosen);
        i := k + 1;
        forall j | 0 <= j < i
          ensures !(Usable(Effective(root, entries[j]), architecture) && chosen(Effective(root, entries[j])))
        {
          assert j > 0 ==> entries[j] == entries[1..][j - 1];
        }
      }
    }
  }

  lemma ChoiceIsPreferred(m: Merged, architecture: string, scope: Scope) returns (i: nat)
    requires Choice(Candidates(m.root, m.installers, architecture), scope).Some?
    ensures IsPreferred(m, i, architecture, scope)
    ensures Choice(Candidates(m.root, m.installers, architecture), scope) == Some(Effective(m.root, m.installers[i]))
  {
    hide Candidates, Usable, Effective, DeclaresScope, DeclaresNoScope, Fits, Distance;
    var candidates := Candidates(m.root, m.installers, architecture);
    forall j: nat | j < |m.installers|
      ensures Usable(Effective(m.root, m.installers[j]), architecture) <==> Fits(m, j, architecture)
      ensures DeclaresScope(Effective(m.root, m.installers[j]), scope) <==> Distance(m, j, scope) == 0
      ensures !DeclaresScope(Effective(m.root, m.installers[j]), scope) ==>
                (DeclaresNoScope(Effective(m.root, m.installers[j])) <==> Distance(m, j, scope) == 1)
      ensures Distance(m, j, scope) <= 2
    {
      EffectiveFits(m, j, architecture);
      DistanceIs(m, j, scope);
    }
    FitsInside(m, architecture);
    var a := FirstIsAt(m.root, m.installers, architecture, e => DeclaresScope(e, scope));
    var b := FirstIsAt(m.root, m.installers, architecture, DeclaresNoScope);
    var c := FirstIsAt(m.root, m.installers, architecture, e => true);
    i := if First(candidates, e => DeclaresScope(e, scope)).Some? then a else if First(candidates, DeclaresNoScope).Some? then b else c;
  }

  lemma FitsInside(m: Merged, architecture: string)
    ensures forall j: nat :: Fits(m, j, architecture) ==> j < |m.installers|
  {
    hide Has, Lower, Utf8Length;
  }

  lemma {:induction false} InRangeHolds(codes: seq<int>, c: int)
    ensures c in InRange(codes) <==> c in codes && -0x8000_0000 <= c <= 0x7fff_ffff
  {
    if codes != [] {
      InRangeHolds(codes[1..], c);
    }
  }

  lemma RebootsAreListed(kind: string, listed: Option<seq<ReturnCode>>)
    ensures RebootsAre(kind, listed, WithReboots(DefaultRebootCodes(kind), Else(listed, [])))
  {
    RebootCodesAreExact(DefaultRebootCodes(kind), Else(listed, []));
    hide WithReboots;
  }

  lemma EffectiveDescribes(m: Merged, i: nat, architecture: string)
    requires Fits(m, i, architecture)
    ensures Describes(m, i, Described(Effective(m.root, m.installers[i])))
  {
    hide Lower, Utf8Length, CommandLine.Words, InRange, WithReboots, DefaultRebootCodes, RebootsAre;
    var e, f, root := Effective(m.root, m.installers[i]), m.installers[i], m.root;
    RebootsAreListed(Lower(Else(e.installerType, "exe")), e.expectedReturnCodes);
    forall c: int
      ensures c in InRange(Else(e.successCodes, [])) <==> c in Else(e.successCodes, []) && -0x8000_0000 <= c <= 0x7fff_ffff
    {
      InRangeHolds(Else(e.successCodes, []), c);
    }
    assert Has(f.sha256, root.sha256, e.sha256.value) && Has(f.architecture, root.architecture, e.architecture.value);
  }

  /** There is an installer exactly when an entry fits, and it is the one the preferred entry describes. */
  lemma SelectedIs(m: Merged, architecture: string, scope: Scope)
    ensures Selected(m, architecture, scope).Some? <==> exists i :: Fits(m, i, architecture)
    ensures var r := Selected(m, architecture, scope);
            r.Some? ==> exists i :: IsPreferred(m, i, architecture, scope) && Describes(m, i, r.value)
  {
    hide Candidates, Usable, Effective, Described, Describes, Fits, Distance, Choice;
    SelectsIfUsable(m, architecture, scope);
    FitsInside(m, architecture);
    forall i: nat | i < |m.installers|
      ensures Usable(Effective(m.root, m.installers[i]), architecture) <==> Fits(m, i, architecture)
    {
      EffectiveFits(m, i, architecture);
    }
    if Selected(m, architecture, scope).Some? {
      var i := ChoiceIsPreferred(m, architecture, scope);
      EffectiveDescribes(m, i, architecture);
    }
  }
}
