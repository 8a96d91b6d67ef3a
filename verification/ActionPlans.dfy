/** Which custom actions a transaction runs, which it stores, and what an uninstall makes of the stored ones. */
module ActionPlans {
  import opened Wrappers
  import opened Text
  import Hex

  datatype Phase = PreInstall | PostInstall | PreUninstall | PostUninstall | Quiesce | Resume | Unspecified

  datatype Operation = Install | Upgrade | Reinstall | Repair | Uninstall

  /** An option that must have a value. */
  datatype Condition = Condition(option: string, equals: string)

  /** `program` stands for every other field of the definition. */
  datatype Action = Action(name: string, phase: Phase, runOn: seq<Operation>, when: Option<Condition>, program: seq<Byte>)

  /** The canonical text of each option's value, by lower-case name. */
  type Options = map<string, string>

  datatype Why = NotThisOperation | OptionNotSet

  datatype Skip = Skip(name: string, why: Why)

  datatype Plan = Plan(before: seq<Action>, after: seq<Action>, store: seq<Action>, skipped: seq<Skip>)

  /** The message encoding of a definition, in which decoding inverts encoding. */
  datatype Codec = Codec(encode: Action -> seq<Byte>, decode: seq<Byte> -> Option<Action>) {
    ghost predicate Valid() {
      forall a :: decode(encode(a)) == Some(a)
    }
  }

  predicate IsInstall(phase: Phase) {
    phase == PreInstall || phase == PostInstall
  }

  predicate IsBefore(phase: Phase) {
    phase == PreInstall || phase == PreUninstall
  }

  predicate Enabled(when: Option<Condition>, options: Options) {
    when.None? || (Lower(when.value.option) in options && options[Lower(when.value.option)] == when.value.equals)
  }

  /** Where one action of a run goes. */
  datatype Place = Before | After | Stored | Skipped(why: Why)

  function RunPlace(a: Action, operation: Operation, options: Options): Place {
    if operation !in a.runOn then Skipped(NotThisOperation)
    else if !Enabled(a.when, options) then Skipped(OptionNotSet)
    else if IsBefore(a.phase) then Before
    else After
  }

  function InstallPlace(a: Action, operation: Operation, options: Options): Place {
    if !IsInstall(a.phase) then Stored else RunPlace(a, operation, options)
  }

  /** The actions whose place is the given one, in declaration order. */
  function At(actions: seq<Action>, place: Place, of: Action -> Place): seq<Action> {
    if actions == [] then []
    else (if of(actions[0]) == place then [actions[0]] else []) + At(actions[1..], place, of)
  }

  function SkipOf(a: Action, of: Action -> Place): seq<Skip> {
    if of(a).Skipped? then [Skip(a.name, of(a).why)] else []
  }

  function Skips(actions: seq<Action>, of: Action -> Place): seq<Skip> {
    if actions == [] then []
    else SkipOf(actions[0], of) + Skips(actions[1..], of)
  }

  function Planned(actions: seq<Action>, of: Action -> Place): Plan {
    Plan(At(actions, Before, of), At(actions, After, of), At(actions, Stored, of), Skips(actions, of))
  }

  lemma {:induction false} AtAppend(done: seq<Action>, a: Action, place: Place, of: Action -> Place)
    ensures At(done + [a], place, of) == At(done, place, of) + if of(a) == place then [a] else []
  {
    if done == [] {
      assert done + [a] == [a] && [a][1..] == [];
    } else {
      assert (done + [a])[1..] == done[1..] + [a] && (done + [a])[0] == done[0];
      AtAppend(done[1..], a, place, of);
    }
  }

  lemma {:induction false} SkipsAppend(done: seq<Action>, a: Action, of: Action -> Place)
    ensures Skips(done + [a], of) == Skips(done, of) + SkipOf(a, of)
  {
    hide SkipOf;
    if done == [] {
      assert done + [a] == [a] && [a][1..] == [];
      assert Skips([], of) == [];
    } else {
      assert (done + [a])[1..] == done[1..] + [a] && (done + [a])[0] == done[0];
      SkipsAppend(done[1..], a, of);
      assert SkipOf(done[0], of) + (Skips(done[1..], of) + SkipOf(a, of)) == Skips(done, of) + SkipOf(a, of);
    }
  }

  lemma PlannedNext(done: seq<Action>, a: Action, of: Action -> Place)
    ensures var p, q := Planned(done, of), Planned(done + [a], of);
            q == match of(a)
                 case Before => p.(before := p.before + [a])
                 case After => p.(after := p.after + [a])
                 case Stored => p.(store := p.store + [a])
                 case Skipped(why) => p.(skipped := p.skipped + [Skip(a.name, why)])
  {
    hide At, Skips;
    AtAppend(done, a, Before, of);
    AtAppend(done, a, After, of);
    AtAppend(done, a, Stored, of);
    SkipsAppend(done, a, of);
  }

  method InstallPlan(actions: seq<Action>, options: Options, operation: Operation) returns (plan: Plan)
    ensures plan == Planned(actions, a => InstallPlace(a, operation, options))
  {
    plan := Plan([], [], [], []);
    ghost var of := a => InstallPlace(a, operation, options);
    hide At, Skips, Planned, Lower;
    assert plan == Planned(actions[..0], of) by {
      PlannedNothing(of);
    }
    for i := 0 to |actions|
      invariant plan == Planned(actions[..i], of)
    {
      var action := actions[i];
      assert actions[..i + 1] == actions[..i] + [action];
      PlannedNext(actions[..i], action, of);
      if !IsInstall(action.phase) {
        plan := plan.(store := plan.store + [action]);
        continue;
      }
      if operation !in action.runOn {
        plan := plan.(skipped := plan.skipped + [Skip(action.name, NotThisOperation)]);
        continue;
      }
      if !Enabled(action.when, options) {
        plan := plan.(skipped := plan.skipped + [Skip(action.name, OptionNotSet)]);
        continue;
      }
      if IsBefore(action.phase) {
        plan := plan.(before := plan.before + [action]);
      } else {
        plan := plan.(after := plan.after + [action]);
      }
    }
    assert actions[..|actions|] == actions;
  }

  lemma PlannedNothing(of: Action -> Place)
    ensures Planned([], of) == Plan([], [], [], [])
  {
  }

  // ---- what an installation records, and its uninstall ----

  /** An ownership row: of an action, or of a quiescence entry under its own phase. */
  datatype Row = Row(name: string, phase: string, definition: string)

  function PhaseText(phase: Phase): string {
    match phase
    case PreInstall => "pre-install"
    case PostInstall => "post-install"
    case PreUninstall => "pre-uninstall"
    case PostUninstall => "post-uninstall"
    case Quiesce => "quiesce"
    case Resume => "resume"
    case Unspecified => "unspecified"
  }

  function Serialize(a: Action, codec: Codec): string {
    Hex.Encode(codec.encode(a))
  }

  function Deserialize(text: string, codec: Codec): Option<Action> {
    var bytes := Hex.Decode(text);
    if bytes.None? then None else codec.decode(bytes.value)
  }

  function Recorded(store: seq<Action>, codec: Codec): seq<Row> {
    if store == [] then [] else [Row(store[0].name, PhaseText(store[0].phase), Serialize(store[0], codec))] + Recorded(store[1..], codec)
  }

  /** The actions of the rows that are not quiescence entries; None when one of them cannot be decoded. */
  function Decoded(rows: seq<Row>, codec: Codec): Option<seq<Action>> {
    if rows == [] then Some([])
    else if rows[0].phase == PhaseText(Quiesce) then Decoded(rows[1..], codec)
    else
      var head, tail := Deserialize(rows[0].definition, codec), Decoded(rows[1..], codec);
      if head.None? || tail.None? then None else Some([head.value] + tail.value)
  }

  /** The uninstall's plan is made of the recorded definitions alone; None is the refusal of an undecodable one. */
  method UninstallPlan(rows: seq<Row>, options: Options, codec: Codec) returns (r: Option<Plan>)
    ensures r.Some? <==> Decoded(rows, codec).Some?
    ensures r.Some? ==> r.value == Planned(Decoded(rows, codec).value, a => RunPlace(a, Uninstall, options))
  {
    var plan := Plan([], [], [], []);
    ghost var of := a => RunPlace(a, Uninstall, options);
    ghost var done: seq<Action> := [];
    hide At, Skips, Planned, Deserialize, PhaseText, Lower;
    PlannedNothing(of);
    assert rows[0..] == rows && forall s: seq<Action> :: [] + s == s;
    for i := 0 to |rows|
      invariant plan == Planned(done, of)
      invariant Decoded(rows, codec) ==
                var rest := Decoded(rows[i..], codec); if rest.None? then None else Some(done + rest.value)
    {
      var row := rows[i];
      assert rows[i..][1..] == rows[i + 1..];
      if row.phase == PhaseText(Quiesce) {
        continue;
      }
      var bytes := Hex.Unhex(row.definition);
      var decoded := if bytes.None? then None else codec.decode(bytes.value);
      assert decoded == Deserialize(row.definition, codec) by {
        DeserializeIs(row.definition, codec);
      }
      if decoded.None? {
        return None;
      }
      var action := decoded.value;
      PlannedNext(done, action, of);
      ghost var rest := Decoded(rows[i + 1..], codec);
      assert rest.Some? ==> done + ([action] + rest.value) == done + [action] + rest.value;
      done := done + [action];
      if Uninstall !in action.runOn {
        plan := plan.(skipped := plan.skipped + [Skip(action.name, NotThisOperation)]);
        continue;
      }
      if !Enabled(action.when, options) {
        plan := plan.(skipped := plan.skipped + [Skip(action.name, OptionNotSet)]);
        continue;
      }
      if IsBefore(action.phase) {
        plan := plan.(before := plan.before + [action]);
      } else {
        plan := plan.(after := plan.after + [action]);
      }
    }
    assert done + [] == done;
    return Some(plan);
  }

  lemma DeserializeIs(text: string, codec: Codec)
    ensures Deserialize(text, codec) == var bytes := Hex.Decode(text); if bytes.None? then None else codec.decode(bytes.value)
  {
  }

  // ---- conservation ----

  lemma {:induction false} AtCounts(actions: seq<Action>, place: Place, of: Action -> Place, x: Action)
    ensures multiset(At(actions, place, of))[x] == if of(x) == place then multiset(actions)[x] else 0
  {
    if actions != [] {
      AtCounts(actions[1..], place, of, x);
      assert actions == [actions[0]] + actions[1..];
    }
  }

  /** Every action is in exactly one place of the plan, as often as it was declared. */
  lemma PlannedConserves(actions: seq<Action>, of: Action -> Place)
    ensures var p := Planned(actions, of);
            multiset(actions) == multiset(p.before) + multiset(p.after) + multiset(p.store)
                                 + multiset(At(actions, Skipped(NotThisOperation), of)) + multiset(At(actions, Skipped(OptionNotSet), of))
  {
    hide At;
    forall x
      ensures multiset(actions)[x] == multiset(At(actions, Before, of))[x] + multiset(At(actions, After, of))[x]
                                      + multiset(At(actions, Stored, of))[x] + multiset(At(actions, Skipped(NotThisOperation), of))[x]
                                      + multiset(At(actions, Skipped(OptionNotSet), of))[x]
    {
      AtCounts(actions, Before, of, x);
      AtCounts(actions, After, of, x);
      AtCounts(actions, Stored, of, x);
      AtCounts(actions, Skipped(NotThisOperation), of, x);
      AtCounts(actions, Skipped(OptionNotSet), of, x);
      FivePlaces(of(x));
    }
  }

  lemma FivePlaces(place: Place)
    ensures place == Before || place == After || place == Stored || place == Skipped(NotThisOperation) || place == Skipped(OptionNotSet)
  {
    if place.Skipped? {
      match place.why
      case NotThisOperation =>
      case OptionNotSet =>
    }
  }

  /** What an installing run runs before and after its operations, stores and skips, said of one declared action. */
  lemma InstallPlanMeans(actions: seq<Action>, options: Options, operation: Operation, x: Action)
    requires x in actions
    ensures var p := Planned(actions, a => InstallPlace(a, operation, options));
            var asked := x.when.None? || (Lower(x.when.value.option) in options && options[Lower(x.when.value.option)] == x.when.value.equals);
            var runs := operation in x.runOn && asked;
            && (x in p.before <==> x.phase == PreInstall && runs)
            && (x in p.after <==> x.phase == PostInstall && runs)
            && (x in p.store <==> x.phase != PreInstall && x.phase != PostInstall)
            && (x !in p.store && operation !in x.runOn ==> Skip(x.name, NotThisOperation) in p.skipped)
            && (x !in p.store && operation in x.runOn && !asked ==> Skip(x.name, OptionNotSet) in p.skipped)
  {
    var of := a => InstallPlace(a, operation, options);
    AtCounts(actions, Before, of, x);
    AtCounts(actions, After, of, x);
    AtCounts(actions, Stored, of, x);
    SkippedIsReported(actions, of, x);
    hide At, Skips;
    assert x in multiset(actions);
    assert forall s: seq<Action> :: x in s <==> multiset(s)[x] > 0;
  }

  /** The same of an uninstall and one stored action, under the options recorded then. */
  lemma UninstallPlanMeans(stored: seq<Action>, options: Options, x: Action)
    requires x in stored
    ensures var p := Planned(stored, a => RunPlace(a, Uninstall, options));
            var asked := x.when.None? || (Lower(x.when.value.option) in options && options[Lower(x.when.value.option)] == x.when.value.equals);
            var runs := Uninstall in x.runOn && asked;
            && (x in p.before <==> (x.phase == PreUninstall || x.phase == PreInstall) && runs)
            && (x in p.after <==> x.phase != PreUninstall && x.phase != PreInstall && runs)
            && (Uninstall !in x.runOn ==> Skip(x.name, NotThisOperation) in p.skipped)
            && (Uninstall in x.runOn && !asked ==> Skip(x.name, OptionNotSet) in p.skipped)
  {
    var of := a => RunPlace(a, Uninstall, options);
    AtCounts(stored, Before, of, x);
    AtCounts(stored, After, of, x);
    SkippedIsReported(stored, of, x);
    hide At, Skips;
    assert x in multiset(stored);
    assert forall s: seq<Action> :: x in s <==> multiset(s)[x] > 0;
  }

  lemma {:induction false} SkippedIsReported(actions: seq<Action>, of: Action -> Place, x: Action)
    requires x in actions
    ensures of(x).Skipped? ==> Skip(x.name, of(x).why) in Skips(actions, of)
  {
    if x != actions[0] {
      SkippedIsReported(actions[1..], of, x);
    }
  }

  /** The skips the plan reports are those of the actions left out, one for each, in declaration order. */
  lemma {:induction false} SkipsAreReported(actions: seq<Action>, of: Action -> Place)
    ensures |Skips(actions, of)| == |At(actions, Skipped(NotThisOperation), of)| + |At(actions, Skipped(OptionNotSet), of)|
    ensures forall s <- Skips(actions, of) :: exists a <- actions :: of(a) == Skipped(s.why) && a.name == s.name
  {
    if actions != [] {
      SkipsAreReported(actions[1..], of);
      var a := actions[0];
      FivePlaces(of(a));
    }
  }

  /** Each list of the plan names positions of the declaration in ascending order. */
  lemma {:induction false} OrderIsKept(actions: seq<Action>, place: Place, of: Action -> Place) returns (at: seq<nat>)
    ensures |at| == |At(actions, place, of)|
    ensures forall k :: 0 <= k < |at| ==> at[k] < |actions| && actions[at[k]] == At(actions, place, of)[k]
    ensures forall j, k :: 0 <= j < k < |at| ==> at[j] < at[k]
  {
    if actions == [] {
      at := [];
    } else {
      var last := |actions| - 1;
      assert actions == actions[..last] + [actions[last]];
      AtAppend(actions[..last], actions[last], place, of);
      hide At;
      at := OrderIsKept(actions[..last], place, of);
      if of(actions[last]) == place {
        at := at + [last];
      }
    }
  }

  lemma DeserializeInvertsSerialize(a: Action, codec: Codec)
    requires codec.Valid()
    ensures Deserialize(Serialize(a, codec), codec) == Some(a)
  {
    Hex.RoundTrip(codec.encode(a));
  }

  function WithoutQuiesce(store: seq<Action>): seq<Action> {
    if store == [] then [] else (if store[0].phase == Quiesce then [] else [store[0]]) + WithoutQuiesce(store[1..])
  }

  /** The rows of a stored list decode to that list, but for actions of the phase whose rows mean something else. */
  lemma {:induction false} RecordedIsDecoded(store: seq<Action>, quiescence: seq<Row>, codec: Codec)
    requires codec.Valid() && forall row <- quiescence :: row.phase == PhaseText(Quiesce)
    ensures Decoded(Recorded(store, codec) + quiescence, codec) == Some(WithoutQuiesce(store))
  {
    hide Deserialize, Serialize;
    var rows := Recorded(store, codec) + quiescence;
    if store != [] {
      assert rows[1..] == Recorded(store[1..], codec) + quiescence;
      RecordedIsDecoded(store[1..], quiescence, codec);
      DeserializeInvertsSerialize(store[0], codec);
      PhasesDiffer(store[0].phase);
      assert rows[0] == Row(store[0].name, PhaseText(store[0].phase), Serialize(store[0], codec));
      hide PhaseText, Codec.Valid;
      assert [] + WithoutQuiesce(store[1..]) == WithoutQuiesce(store[1..]);
    } else if quiescence != [] {
      assert rows == quiescence && rows[1..] == Recorded([], codec) + quiescence[1..];
      RecordedIsDecoded([], quiescence[1..], codec);
    } else {
      assert rows == [];
    }
  }

  lemma PhasesDiffer(phase: Phase)
    ensures PhaseText(phase) == PhaseText(Quiesce) <==> phase == Quiesce
  {
    assert |PhaseText(Quiesce)| == 7 && |PhaseText(PreInstall)| == 11 && |PhaseText(PostInstall)| == 12;
    assert |PhaseText(PreUninstall)| == 13 && |PhaseText(PostUninstall)| == 14 && |PhaseText(Resume)| == 6 && |PhaseText(Unspecified)| == 11;
  }

  /** Nothing is lost between an install and its uninstall exactly when no stored action is of the quiesce phase. */
  lemma {:induction false} NothingIsLost(store: seq<Action>)
    ensures WithoutQuiesce(store) == store <==> forall a <- store :: a.phase != Quiesce
    ensures |WithoutQuiesce(store)| <= |store|
  {
    if store != [] {
      NothingIsLost(store[1..]);
      assert store == [store[0]] + store[1..];
    }
  }

  // ---- what the metadata check lets through ----

  predicate IsQuiescence(phase: Phase) {
    phase == Quiesce || phase == Resume
  }

  /** What an action's own phase allows it to run on; a quiescence phase never gets as far. */
  function Allowed(phase: Phase): set<Operation> {
    if IsInstall(phase) then {Install, Upgrade, Reinstall, Repair} else {Uninstall}
  }

  /** A phase of a transaction, with operations of that phase, each once. */
  predicate Fit(a: Action) {
    && !IsQuiescence(a.phase) && a.phase != Unspecified && a.runOn != []
    && (forall operation <- a.runOn :: operation in Allowed(a.phase))
    && forall j, k :: 0 <= j < k < |a.runOn| ==> a.runOn[j] != a.runOn[k]
  }

  /** Fit actions with different names; `sound` stands for the checks of an action's name, kind, program and condition. */
  predicate Declarable(actions: seq<Action>, sound: Action -> bool) {
    && (forall a <- actions :: Fit(a) && sound(a))
    && forall j, k :: 0 <= j < k < |actions| ==> Lower(actions[j].name) != Lower(actions[k].name)
  }

  /** Before or after an install, on some of its kinds, each once; or before or after an uninstall, on that alone. */
  lemma FitMeans(a: Action)
    ensures Fit(a) <==>
            || ((a.phase == PreInstall || a.phase == PostInstall) && a.runOn != [] && Uninstall !in a.runOn
                && forall i, j :: 0 <= i < |a.runOn| && 0 <= j < |a.runOn| && i != j ==> a.runOn[i] != a.runOn[j])
            || ((a.phase == PreUninstall || a.phase == PostUninstall) && a.runOn == [Uninstall])
  {
    FiveOperations(a.phase);
    SevenPhases(a.phase);
    if Fit(a) && !IsInstall(a.phase) {
      OnlyUninstall(a);
    }
    assert (forall i, j :: 0 <= i < |a.runOn| && 0 <= j < |a.runOn| && i != j ==> a.runOn[i] != a.runOn[j])
      <==> forall j, k :: 0 <= j < k < |a.runOn| ==> a.runOn[j] != a.runOn[k];
  }

  lemma FiveOperations(phase: Phase)
    ensures forall operation: Operation :: operation in Allowed(phase) <==> (operation == Uninstall <==> !IsInstall(phase))
  {
    forall operation: Operation
      ensures operation in Allowed(phase) <==> (operation == Uninstall <==> !IsInstall(phase))
    {
      match operation
      case Install =>
      case Upgrade =>
      case Reinstall =>
      case Repair =>
      case Uninstall =>
    }
  }

  lemma SevenPhases(phase: Phase)
    ensures !IsQuiescence(phase) && phase != Unspecified <==>
            phase == PreInstall || phase == PostInstall || phase == PreUninstall || phase == PostUninstall
  {
    match phase
    case PreInstall =>
    case PostInstall =>
    case PreUninstall =>
    case PostUninstall =>
    case Quiesce =>
    case Resume =>
    case Unspecified =>
  }

  /** A list is accepted exactly if each action is of such a kind and no two names are equal but for case. */
  lemma DeclarableMeans(actions: seq<Action>, sound: Action -> bool)
    ensures Declarable(actions, sound) <==>
            && (forall i :: 0 <= i < |actions| ==> Fit(actions[i]) && sound(actions[i]))
            && forall i, j :: 0 <= i < |actions| && 0 <= j < |actions| && i != j ==> Lower(actions[i].name) != Lower(actions[j].name)
  {
    hide Lower, Fit;
  }

  method CheckAction(action: Action) returns (ok: bool)
    ensures !IsQuiescence(action.phase) ==> (ok <==> Fit(action))
  {
    if action.phase == Unspecified {
      return false;
    }
    if IsQuiescence(action.phase) {
      if action.runOn != [] {
        return false;
      }
    } else if action.runOn == [] {
      return false;
    }
    var seen: set<Operation> := {};
    for i := 0 to |action.runOn|
      invariant forall operation :: operation in seen <==> operation in action.runOn[..i]
      invariant forall j :: 0 <= j < i ==> action.runOn[j] in Allowed(action.phase)
      invariant forall j, k :: 0 <= j < k < i ==> action.runOn[j] != action.runOn[k]
    {
      var operation := action.runOn[i];
      if operation in seen || operation !in Allowed(action.phase) {
        return false;
      }
      seen := seen + {operation};
    }
    return true;
  }

  method CheckActions(actions: seq<Action>, sound: Action -> bool) returns (ok: bool)
    ensures ok <==> Declarable(actions, sound)
  {
    hide Fit, Lower;
    var names: set<string> := {};
    for i := 0 to |actions|
      invariant forall j :: 0 <= j < i ==> Fit(actions[j]) && sound(actions[j]) && Lower(actions[j].name) in names
      invariant forall name <- names :: exists j :: 0 <= j < i && Lower(actions[j].name) == name
      invariant forall j, k :: 0 <= j < k < i ==> Lower(actions[j].name) != Lower(actions[k].name)
    {
      var fit := CheckAction(actions[i]);
      QuiescenceIsUnfit(actions[i]);
      if !fit || IsQuiescence(actions[i].phase) || !sound(actions[i]) || Lower(actions[i].name) in names {
        return false;
      }
      names := names + {Lower(actions[i].name)};
    }
    return true;
  }

  lemma QuiescenceIsUnfit(a: Action)
    ensures Fit(a) ==> !IsQuiescence(a.phase)
  {
  }

  /** What an installing run stores of a declared list is for an uninstall and nothing else. */
  lemma StoredIsForUninstall(actions: seq<Action>, sound: Action -> bool, operation: Operation, options: Options)
    requires Declarable(actions, sound)
    ensures forall a <- Planned(actions, a => InstallPlace(a, operation, options)).store ::
              (a.phase == PreUninstall || a.phase == PostUninstall) && a.runOn == [Uninstall]
  {
    hide Lower, Enabled;
    var of := a => InstallPlace(a, operation, options);
    forall a | a in Planned(actions, of).store
      ensures (a.phase == PreUninstall || a.phase == PostUninstall) && a.runOn == [Uninstall]
    {
      AtCounts(actions, Stored, of, a);
      assert a in multiset(Planned(actions, of).store) && a in actions && Fit(a);
      OnlyUninstall(a);
    }
  }

  lemma OnlyUninstall(a: Action)
    requires Fit(a) && !IsInstall(a.phase)
    ensures (a.phase == PreUninstall || a.phase == PostUninstall) && a.runOn == [Uninstall]
  {
    var first, other := a.runOn[0], a.runOn[|a.runOn| - 1];
    assert first in Allowed(a.phase) && other in Allowed(a.phase);
    assert first == other;
  }

  /**
   What an installing run stores of a declared list, its uninstall reads back whole and partitions again: every stored
   action runs before or after the removal, as its phase says, unless its option is not set; each once.
   */
  lemma StoreIsPartitionedAgain(actions: seq<Action>, sound: Action -> bool, operation: Operation, installOptions: Options,
                                uninstallOptions: Options, quiescence: seq<Row>, codec: Codec)
    requires codec.Valid() && forall row <- quiescence :: row.phase == PhaseText(Quiesce)
    requires Declarable(actions, sound)
    ensures var stored := Planned(actions, a => InstallPlace(a, operation, installOptions)).store;
            var of := a => RunPlace(a, Uninstall, uninstallOptions);
            && Decoded(Recorded(stored, codec) + quiescence, codec) == Some(stored)
            && var p := Planned(stored, of);
               multiset(stored) == multiset(p.before) + multiset(p.after) + multiset(At(stored, Skipped(OptionNotSet), of))
  {
    hide Decoded, Recorded, PhaseText, RunPlace, Declarable;
    var stored := Planned(actions, a => InstallPlace(a, operation, installOptions)).store;
    var of := a => RunPlace(a, Uninstall, uninstallOptions);
    StoredIsForUninstall(actions, sound, operation, installOptions);
    NothingIsLost(stored);
    RecordedIsDecoded(stored, quiescence, codec);
    PlannedConserves(stored, of);
    NoneStored(stored, uninstallOptions);
    NoneForeign(stored, uninstallOptions);
  }

  lemma {:induction false} NoneForeign(actions: seq<Action>, options: Options)
    requires forall a <- actions :: a.runOn == [Uninstall]
    ensures At(actions, Skipped(NotThisOperation), a => RunPlace(a, Uninstall, options)) == []
  {
    if actions != [] {
      NoneForeign(actions[1..], options);
    }
  }

  lemma {:induction false} NoneStored(actions: seq<Action>, options: Options)
    ensures At(actions, Stored, a => RunPlace(a, Uninstall, options)) == []
  {
    if actions != [] {
      NoneStored(actions[1..], options);
    }
  }
}
