/** What has been committed, commit by commit, and who asked for it. */
module Ledger {
  import opened Wrappers
  import opened Machine
  import opened Journal

  datatype TxnKind = Install | Upgrade | Reinstall | Repair | Uninstall

  /** What recovery compares to decide that it has the same payload at hand. */
  datatype Identity = Identity(id: string, version: string, metadataSha256: string)

  datatype Package = Package(identity: Identity, payload: Payload, license: Option<string>)

  datatype Installation = Installation(version: string, license: Option<string>)

  datatype Options = Options(quiet: bool, licenseAccepted: bool, explicit: bool)

  /** The planner: what it plans follows from the machine, the installation and the kind of run. */
  type Planner = (World, Option<Installation>, TxnKind) -> Plan

  datatype Intent = ToInstall | ToRepair | ToUninstall

  datatype Fate = Pass | Fail | Kill

  datatype Request = Request(intent: Intent, package: Package, options: Options, planner: Planner,
                             boundaries: set<nat>, fates: seq<Fate>)

  ghost predicate PlannerOk(planner: Planner, payload: Payload, sameVolume: bool) {
    forall world, installed, kind :: TreeOk(world) ==>
      PlanOk(world, planner(world, installed, kind), payload) && BacksUp(world, planner(world, installed, kind), payload, sameVolume)
  }

  /** The hash a run may record: the package's own, and only when somebody was there to say yes. */
  function AcceptedLicense(package: Package, options: Options): Option<string> {
    if options.licenseAccepted && !options.quiet then package.license else None
  }

  /** Whether somebody accepted the text with this hash in the run: it asked on the screen, and the answer was yes. */
  predicate Presents(request: Request, hash: string) {
    && !request.intent.ToUninstall? && !request.options.quiet && request.options.licenseAccepted
    && request.package.license == Some(hash)
  }

  // ---- one transaction, whole ----

  /**
   A transaction from where it started to the plan it carried out and the row it wrote. One that was undone after all
   left the world it had started from, under the row it had written.
   */
  datatype Whole = Whole(from: World, plan: Plan, payload: Payload, kind: TxnKind, package: Identity, license: Option<string>, undone: bool)

  /** The world it promised. */
  ghost function Promise(w: Whole): World {
    After(w.from, w.plan, |w.plan|, w.payload)
  }

  ghost function EndOf(w: Whole): World {
    if w.undone then w.from else Promise(w)
  }

  function RowOf(w: Whole): Option<Installation> {
    if w.kind.Uninstall? then None else Some(Installation(w.package.version, w.license))
  }

  function Plain(w: Whole): Whole {
    w.(undone := false)
  }

  /** The transaction of that name did nothing lasting, or it is the one commit more, undone or not. */
  ghost predicate Adds(before: seq<Whole>, w: Whole, commits: seq<Whole>) {
    commits == before || commits == before + [w] || commits == before + [w.(undone := true)]
  }

  function LastUndone(commits: seq<Whole>): seq<Whole>
    requires commits != []
  {
    commits[..|commits| - 1] + [commits[|commits| - 1].(undone := true)]
  }

  lemma LastUndoneIs(before: seq<Whole>, w: Whole)
    ensures LastUndone(before + [w]) == before + [w.(undone := true)]
  {
    assert (before + [w])[..|before|] == before;
  }

  /** Of the commits since, one was undone. */
  ghost predicate AnyUndone(before: seq<Whole>, after: seq<Whole>) {
    exists k :: |before| <= k < |after| && after[k].undone
  }

  lemma UndoneIsNew(before: seq<Whole>, found: Whole, middle: seq<Whole>, own: Whole, after: seq<Whole>)
    requires Adds(before, found, middle) && Adds(middle, own, after) && !found.undone && !own.undone
    ensures AnyUndone(before, after) ==> middle == before + [found.(undone := true)] || after == middle + [own.(undone := true)]
  {
    if k :| |before| <= k < |after| && after[k].undone {
      if k < |middle| {
        assert middle[k] == after[k];
      } else {
        assert after[k] == after[|middle|];
      }
    }
  }

  // ---- a machine's commits ----

  /** The world that stands after them. */
  ghost function Stands(start: World, commits: seq<Whole>): World {
    if commits == [] then start else EndOf(commits[|commits| - 1])
  }

  /** The installation row after them. */
  function Row(commits: seq<Whole>): Option<Installation> {
    if commits == [] then None else RowOf(commits[|commits| - 1])
  }

  /** Each starts from what stood after the one before it. */
  ghost predicate Chain(start: World, commits: seq<Whole>) {
    forall k :: 0 <= k < |commits| ==> commits[k].from == Stands(start, commits[..k])
  }

  lemma ChainGrows(start: World, commits: seq<Whole>, w: Whole)
    requires Chain(start, commits) && w.from == Stands(start, commits)
    ensures Chain(start, commits + [w])
  {
    hide Stands;
    forall k | 0 <= k < |commits| + 1
      ensures (commits + [w])[k].from == Stands(start, (commits + [w])[..k])
    {
      assert (commits + [w])[..k] == if k < |commits| then commits[..k] else commits;
    }
  }

  /** After the first commit the others follow from where it ended. */
  lemma ChainRest(start: World, commits: seq<Whole>)
    requires Chain(start, commits) && commits != []
    ensures commits[0].from == start && Chain(EndOf(commits[0]), commits[1..])
    ensures Stands(EndOf(commits[0]), commits[1..]) == Stands(start, commits)
  {
    hide EndOf;
    assert commits[..0] == [];
    var rest := commits[1..];
    forall k | 0 <= k < |rest|
      ensures rest[k].from == Stands(EndOf(commits[0]), rest[..k])
    {
      assert rest[k].from == Stands(start, commits[..k + 1]);
      assert k > 0 ==> rest[..k][k - 1] == commits[..k + 1][k];
    }
  }

  /** What one commit, undone or not, adds to those before it. */
  lemma CommitIsOneMore(start: World, commits: seq<Whole>, w: Whole)
    requires Chain(start, commits) && w.from == Stands(start, commits) && !w.undone
    ensures var done, undone := commits + [w], commits + [w.(undone := true)];
            && done != commits && undone != commits && done != undone && LastUndone(done) == undone
            && Chain(start, done) && Stands(start, done) == Promise(w) && Row(done) == RowOf(w)
            && Chain(start, undone) && Stands(start, undone) == w.from && Row(undone) == RowOf(w)
  {
    ChainGrows(start, commits, w);
    ChainGrows(start, commits, w.(undone := true));
    LastUndoneIs(commits, w);
    assert (commits + [w])[|commits|] != (commits + [w.(undone := true)])[|commits|];
  }

  // ---- what a request makes of what it finds ----

  function KindFor(intent: Intent, row: Option<Installation>, package: Identity): TxnKind {
    if intent.ToUninstall? then Uninstall
    else if intent.ToInstall? && row.None? then Install
    else if row.Some? && row.value.version == package.version then if intent.ToInstall? then Reinstall else Repair
    else Upgrade
  }

  /** The licence hash that goes into the row: accepted in the run, or else the one recorded already. */
  function LicenseFor(intent: Intent, package: Package, options: Options, row: Option<Installation>): Option<string> {
    if intent.ToUninstall? then None
    else
      var accepted := AcceptedLicense(package, options);
      if accepted.Some? || row.None? then accepted else row.value.license
  }

  /** The whole transaction a request runs on a world with a row. */
  ghost function Made(intent: Intent, package: Package, options: Options, planner: Planner, world: World, row: Option<Installation>): (w: Whole)
    ensures !w.undone
  {
    var kind := KindFor(intent, row, package.identity);
    Whole(world, planner(world, row, kind), package.payload, kind, package.identity, LicenseFor(intent, package, options, row), false)
  }

  /** The whole transaction a request runs after those commits. */
  ghost function MadeBy(r: Request, start: World, commits: seq<Whole>): (w: Whole)
    ensures !w.undone
  {
    Made(r.intent, r.package, r.options, r.planner, Stands(start, commits), Row(commits))
  }

  /**
   What a request runs: its planner's plan for the world and row, as the kind of run that the intent and the row make it,
   recording its package and the licence accepted in it or else the one on the row.
   */
  lemma MadeMeans(r: Request, start: World, commits: seq<Whole>)
    ensures var w, row, version := MadeBy(r, start, commits), Row(commits), r.package.identity.version;
            && w.from == Stands(start, commits) && w.plan == r.planner(w.from, row, w.kind)
            && w.payload == r.package.payload && w.package == r.package.identity
            && (w.kind.Uninstall? <==> r.intent.ToUninstall?)
            && (w.kind.Install? <==> r.intent.ToInstall? && row.None?)
            && (w.kind.Reinstall? <==> r.intent.ToInstall? && row.Some? && row.value.version == version)
            && (w.kind.Repair? <==> r.intent.ToRepair? && row.Some? && row.value.version == version)
            && w.license == (if r.intent.ToUninstall? then None
                             else if !r.options.quiet && r.options.licenseAccepted && r.package.license.Some? then r.package.license
                             else if row.Some? then row.value.license else None)
  {
    hide Stands, Row;
  }

  /** After a commit the row is the package's and licence of that commit, or none after an uninstall. */
  lemma RowMeans(commits: seq<Whole>, w: Whole)
    ensures Row(commits + [w]) ==
            if w.kind.Uninstall? then None else Some(Installation(w.package.version, w.license))
    ensures Row([]) == None
  {
  }

  // ---- where the commits of a sequence of runs come from ----

  /**
   Every commit since the first `n` is one request's, on the world and the row it found, later commits by later requests;
   the first of them may be the transaction found open, marked -1.
   */
  ghost predicate Sourced(start: World, commits: seq<Whole>, n: nat, requests: seq<Request>, open: Option<Whole>, sources: seq<int>) {
    && |commits| == n + |sources|
    && (forall i, j :: 0 <= i < j < |sources| ==> sources[i] < sources[j])
    && forall i :: 0 <= i < |sources| ==>
         if sources[i] == -1 then i == 0 && open == Some(Plain(commits[n]))
         else 0 <= sources[i] < |requests| && Plain(commits[n + i]) == MadeBy(requests[sources[i]], start, commits[..n + i])
  }

  lemma {:induction false} SourcesGrow(start: World, commits: seq<Whole>, n: nat, requests: seq<Request>, open: Option<Whole>, sources: seq<int>, w: Whole,
                                       source: int)
    requires Sourced(start, commits, n, requests, open, sources) && forall i :: 0 <= i < |sources| ==> sources[i] < source
    requires if source == -1 then sources == [] && open == Some(Plain(w))
             else 0 <= source < |requests| && Plain(w) == MadeBy(requests[source], start, commits)
    ensures Sourced(start, commits + [w], n, requests, open, sources + [source])
  {
    hide MadeBy;
    var more := commits + [w];
    forall i | 0 <= i < |sources| + 1
      ensures var b := (sources + [source])[i];
              if b == -1 then i == 0 && open == Some(Plain(more[n]))
              else 0 <= b < |requests| && Plain(more[n + i]) == MadeBy(requests[b], start, more[..n + i])
    {
      assert more[..n + i] == if i < |sources| then commits[..n + i] else commits;
    }
  }

  predicate Below(sources: seq<int>, bound: int) {
    forall i :: 0 <= i < |sources| ==> sources[i] < bound
  }

  /** Which request began the transaction that is open, or -1 if it was found open, nothing having been committed since. */
  ghost predicate OpenedBy(start: World, commits: seq<Whole>, requests: seq<Request>, open: Option<Whole>, sources: seq<int>, opener: int, w: Whole) {
    && Below(sources, opener)
    && if opener == -1 then sources == [] && open == Some(w)
       else 0 <= opener < |requests| && w == MadeBy(requests[opener], start, commits)
  }

  lemma NoSources(start: World, commits: seq<Whole>, requests: seq<Request>, open: Option<Whole>)
    ensures Sourced(start, commits, |commits|, requests, open, [])
  {
  }

  /** One run more: what its recovery committed is its opener's, what it committed itself is its own request's. */
  lemma SourcesOfRun(start: World, before: seq<Whole>, n: nat, requests: seq<Request>, open: Option<Whole>, sources: seq<int>, opener: int, found: Whole,
                     recovered: seq<Whole>, k: nat, after: seq<Whole>) returns (more: seq<int>)
    requires k < |requests| && opener < k && Sourced(start, before, n, requests, open, sources) && Below(sources, k)
    requires recovered != before ==> Adds(before, found, recovered) && OpenedBy(start, before, requests, open, sources, opener, found)
    requires Adds(recovered, MadeBy(requests[k], start, recovered), after) && !found.undone
    ensures Sourced(start, after, n, requests, open, more) && Below(more, k + 1)
    ensures after == recovered ==> Below(more, k)
    ensures after == before ==> more == sources
  {
    hide Sourced, MadeBy;
    more := sources;
    if recovered != before {
      SourcesGrow(start, before, n, requests, open, more, recovered[|before|], opener);
      more := more + [opener];
    }
    if after != recovered {
      SourcesGrow(start, recovered, n, requests, open, more, after[|recovered|], k);
      more := more + [k];
    }
  }

  // ---- where a recorded licence comes from ----

  ghost predicate NoneRemoves(commits: seq<Whole>, from: nat) {
    forall k :: from <= k < |commits| ==> !commits[k].kind.Uninstall?
  }

  /**
   Where a hash comes from: somebody accepted it in the run that made one of the commits, and none after that one removed
   the installation; or it was recorded, or about to be, before the first run, and none at all did.
   */
  ghost predicate AcceptedSince(hash: string, commits: seq<Whole>, n: nat, requests: seq<Request>, before: seq<Option<string>>, sources: seq<int>)
    requires |commits| == n + |sources|
  {
    || (exists i :: && 0 <= i < |sources| && 0 <= sources[i] < |requests| && Presents(requests[sources[i]], hash) && commits[n + i].license == Some(hash)
                    && NoneRemoves(commits, n + i))
    || (Some(hash) in before && NoneRemoves(commits, n))
  }

  function LicenseIn(row: Option<Installation>): Option<string> {
    if row.None? then None else row.value.license
  }

  /** The licences of the row before the first run and of the transaction found open. */
  function Held(commits: seq<Whole>, n: nat, open: Option<Whole>): seq<Option<string>>
    requires n <= |commits|
  {
    [LicenseIn(Row(commits[..n]))] + if open.Some? then [open.value.license] else []
  }

  lemma NotPresentedIsKept(r: Request, start: World, front: seq<Whole>, w: Whole)
    requires w == MadeBy(r, start, front) && !w.kind.Uninstall? && w.license.Some? && !Presents(r, w.license.value)
    ensures LicenseIn(Row(front)) == w.license
  {
    hide Stands, Row;
  }

  /** What the row says was accepted, was accepted, and not before an uninstall. */
  lemma {:induction false} RecordedWasAccepted(start: World, commits: seq<Whole>, n: nat, requests: seq<Request>, open: Option<Whole>, sources: seq<int>)
    requires Sourced(start, commits, n, requests, open, sources) && LicenseIn(Row(commits)).Some?
    ensures |commits| == n + |sources| && AcceptedSince(LicenseIn(Row(commits)).value, commits, n, requests, Held(commits, n, open), sources)
    decreases |sources|
  {
    hide Chain, Stands, MadeBy, Presents;
    var hash := LicenseIn(Row(commits)).value;
    if sources == [] {
      assert commits[..n] == commits;
    } else {
      var m := |sources| - 1;
      var last, front, source := commits[n + m], commits[..n + m], sources[m];
      assert !last.kind.Uninstall? && last.license == Some(hash);
      assert commits[..n] == front[..n];
      if source >= 0 {
        assert Plain(last) == MadeBy(requests[source], start, front);
        if !Presents(requests[source], hash) {
          NotPresentedIsKept(requests[source], start, front, Plain(last));
          SourcesBefore(start, commits, n, requests, open, sources);
          RecordedWasAccepted(start, front, n, requests, open, sources[..m]);
          KeptIsAccepted(hash, commits, n, requests, Held(commits, n, open), sources);
        }
      }
    }
  }

  /** Runs that nobody answers in bring no licence in. */
  lemma QuietBringsNone(hash: string, commits: seq<Whole>, n: nat, requests: seq<Request>, before: seq<Option<string>>, sources: seq<int>)
    requires |commits| == n + |sources| && AcceptedSince(hash, commits, n, requests, before, sources)
    requires forall r <- requests :: r.options.quiet
    ensures Some(hash) in before && NoneRemoves(commits, n)
  {
    hide NoneRemoves;
  }

  lemma SourcesBefore(start: World, commits: seq<Whole>, n: nat, requests: seq<Request>, open: Option<Whole>, sources: seq<int>)
    requires Sourced(start, commits, n, requests, open, sources) && sources != []
    ensures Sourced(start, commits[..|commits| - 1], n, requests, open, sources[..|sources| - 1])
  {
    hide MadeBy;
    var front, fewer := commits[..|commits| - 1], sources[..|sources| - 1];
    forall i | 0 <= i < |fewer|
      ensures var b := fewer[i];
              if b == -1 then i == 0 && open == Some(Plain(front[n]))
              else 0 <= b < |requests| && Plain(front[n + i]) == MadeBy(requests[b], start, front[..n + i])
    {
      assert fewer[i] == sources[i] && front[n + i] == commits[n + i] && front[..n + i] == commits[..n + i];
    }
  }

  lemma KeptIsAccepted(hash: string, commits: seq<Whole>, n: nat, requests: seq<Request>, before: seq<Option<string>>, sources: seq<int>)
    requires sources != [] && |commits| == n + |sources| && !commits[|commits| - 1].kind.Uninstall?
    requires AcceptedSince(hash, commits[..|commits| - 1], n, requests, before, sources[..|sources| - 1])
    ensures AcceptedSince(hash, commits, n, requests, before, sources)
  {
    hide Presents;
    var front, fewer := commits[..|commits| - 1], sources[..|sources| - 1];
    if i :| && 0 <= i < |fewer| && 0 <= fewer[i] < |requests| && Presents(requests[fewer[i]], hash) && front[n + i].license == Some(hash)
            && NoneRemoves(front, n + i) {
      assert sources[i] == fewer[i] && commits[n + i] == front[n + i] && NoneRemoves(commits, n + i);
    } else {
      assert NoneRemoves(commits, n);
    }
  }
}
