/**
 The reconciliation of what a package wants, what an installation owns and what the machine holds into a plan; what such
 a plan leads to; and what is left of any sequence of them once the installation is gone again.
 */
module Planner {
  import opened Wrappers
  import opened Machine
  import opened Journal

  /** A path by its components, folded: the install root is the empty one. */
  type Path = seq<string>

  datatype Name = Name(key: string, name: string)

  /** A value the installation wrote, and what its removal puts back. */
  datatype Record = Record(written: Content, restore: Option<Content>)

  /** What a package wants for the options in force: its files, by the payload's entries, and its values. */
  datatype Wanted = Wanted(files: map<Path, string>, values: map<Name, Content>)

  /** What the ownership tables hold: the bytes each file was left with, and for each directory whether it was created. */
  datatype Owned = Owned(files: map<Path, Content>, directories: map<Path, bool>, values: map<Name, Record>)

  const NOTHING := Owned(map[], map[], map[])

  /** An install looks at no file; a repair overwrites a value somebody changed. Nothing is wanted of an uninstall. */
  datatype Inputs = Inputs(wanted: Option<Wanted>, owned: Owned, inspect: bool, overwrite: bool)

  /** `d` is a directory around `p`. */
  predicate IsAround(d: Path, p: Path) {
    |d| < |p| && p[..|d|] == d
  }

  function SlotOf(n: Name): Slot {
    ValueAt(n.key, n.name)
  }

  /** The directories of a package: the install root and every directory around a wanted file. */
  function Directories(wanted: Wanted): set<Path> {
    {[]} + set p, k | p in wanted.files && 0 <= k < |p| :: p[..k]
  }

  predicate Wants(inputs: Inputs, slot: Slot) {
    inputs.wanted.Some? &&
    match slot
    case DirectoryAt(d) => d in Directories(inputs.wanted.value)
    case FileAt(p) => p in inputs.wanted.value.files
    case ValueAt(key, name) => Name(key, name) in inputs.wanted.value.values
  }

  predicate Owns(owned: Owned, slot: Slot) {
    match slot
    case DirectoryAt(d) => d in owned.directories
    case FileAt(p) => p in owned.files
    case ValueAt(key, name) => Name(key, name) in owned.values
  }

  /** Somebody changed a file that would go; its directories stay with it. */
  predicate Modified(inputs: Inputs, world: World, p: Path) {
    p in inputs.owned.files && !Wants(inputs, FileAt(p)) && FileAt(p) in world && world[FileAt(p)] != inputs.owned.files[p]
  }

  predicate Preserved(inputs: Inputs, world: World, d: Path) {
    exists p | p in inputs.owned.files :: Modified(inputs, world, p) && (d == [] || IsAround(d, p))
  }

  function DirectoryCall(inputs: Inputs, world: World, d: Path): Option<Kind> {
    var slot := DirectoryAt(d);
    if Wants(inputs, slot) then
      Some(if d in inputs.owned.directories && (!inputs.inspect || slot in world) then Keep(slot) else CreateDirectory(d))
    else if d in inputs.owned.directories && inputs.owned.directories[d] && !Preserved(inputs, world, d) then Some(RemoveDirectory(d))
    else None
  }

  function FileCall(inputs: Inputs, world: World, payload: Payload, p: Path): Option<Kind> {
    var slot := FileAt(p);
    if Wants(inputs, slot) then
      var entry := inputs.wanted.value.files[p];
      Some(if inputs.inspect && entry in payload && Look(world, slot) == Some(payload[entry]) then Keep(slot) else InstallFile(p, entry))
    else if p in inputs.owned.files && Look(world, slot) == Some(inputs.owned.files[p]) then Some(RemoveFile(p))
    else None
  }

  function ValueCall(inputs: Inputs, world: World, n: Name): Option<Kind> {
    var slot, owned := SlotOf(n), inputs.owned.values;
    var current := Look(world, slot);
    if Wants(inputs, slot) then
      var data := inputs.wanted.value.values[n];
      Some(if current == Some(data) then Keep(slot)
           else if n !in owned || current.None? || current == Some(owned[n].written) || inputs.overwrite then SetValue(n.key, n.name, data)
           else Keep(slot))
    else if n in owned && current == Some(owned[n].written) then Some(RemoveValue(n.key, n.name, owned[n].written, owned[n].restore))
    else None
  }

  /** What the plan has to do about a slot, if anything. */
  function Call(inputs: Inputs, world: World, payload: Payload, slot: Slot): Option<Kind> {
    match slot
    case DirectoryAt(d) => DirectoryCall(inputs, world, d)
    case FileAt(p) => FileCall(inputs, world, payload, p)
    case ValueAt(key, name) => ValueCall(inputs, world, Name(key, name))
  }

  /** The forward order of the kinds: directories, files and values, then removals the other way round. */
  function Rank(kind: Kind): nat {
    match kind
    case CreateDirectory(_) => 0
    case InstallFile(_, _) => 1
    case SetValue(_, _, _) => 2
    case RemoveValue(_, _, _, _) => 3
    case RemoveFile(_) => 4
    case RemoveDirectory(_) => 5
    case Keep(slot) => if slot.DirectoryAt? then 0 else if slot.FileAt? then 1 else 2
  }

  function Depth(kind: Kind): nat {
    var slot := kind.Target();
    if slot.ValueAt? then 0 else |slot.path|
  }

  /** Shallow directories are made first and removed last. */
  predicate MayPrecede(a: Kind, b: Kind) {
    || Rank(a) < Rank(b)
    || (Rank(a) == Rank(b) && (Rank(a) == 0 ==> Depth(a) <= Depth(b)) && (Rank(a) == 5 ==> Depth(b) <= Depth(a)))
  }

  ghost predicate Ordered(plan: Plan) {
    forall i, j :: 0 <= i < j < |plan| ==> MayPrecede(plan[i].kind, plan[j].kind)
  }

  ghost predicate Addresses(plan: Plan, slot: Slot) {
    exists i :: 0 <= i < |plan| && Target(plan, i) == slot
  }

  /** In order, what is called for of the slots looked at so far, once each. */
  ghost predicate PlansFor(plan: Plan, inputs: Inputs, world: World, payload: Payload, looked: set<Slot>) {
    && Distinct(plan) && Ordered(plan)
    && (forall i :: 0 <= i < |plan| ==>
          Target(plan, i) in looked && Call(inputs, world, payload, Target(plan, i)) == Some(plan[i].kind))
    && (forall slot <- looked :: Call(inputs, world, payload, slot).Some? ==> Addresses(plan, slot))
  }

  /** In order, all that is called for, once each. */
  ghost predicate Plans(plan: Plan, inputs: Inputs, world: World, payload: Payload) {
    && Distinct(plan) && Ordered(plan)
    && (forall i :: 0 <= i < |plan| ==> Call(inputs, world, payload, Target(plan, i)) == Some(plan[i].kind))
    && (forall slot :: Call(inputs, world, payload, slot).Some? ==> Addresses(plan, slot))
  }

  /** A package's own files, in its payload; an install owns nothing yet. */
  predicate InputsOk(inputs: Inputs, payload: Payload) {
    && (inputs.wanted.Some? ==> forall p <- inputs.wanted.value.files :: p != [] && inputs.wanted.value.files[p] in payload)
    && (!inputs.inspect ==> inputs.owned == NOTHING)
  }

  lemma CallTargets(inputs: Inputs, world: World, payload: Payload, slot: Slot)
    ensures var call := Call(inputs, world, payload, slot); call.Some? ==> call.value.Target() == slot
    ensures Call(inputs, world, payload, slot).Some? ==> Wants(inputs, slot) || Owns(inputs.owned, slot)
  {
    hide Preserved, Directories;
  }

  // ---- such a plan can be run ----

  lemma ParentIsWanted(inputs: Inputs, slot: Slot, d: Path)
    requires inputs.wanted.Some? && Wants(inputs, slot) && slot.Inside(d)
    ensures Wants(inputs, DirectoryAt(d))
  {
    var wanted := inputs.wanted.value;
    if slot.FileAt? {
      assert d == slot.path[..|d|] && |d| < |slot.path|;
      assert d in Directories(wanted);
    } else {
      var p, k :| p in wanted.files && 0 <= k < |p| && slot.path == p[..k];
      assert d == p[..k - 1];
      assert d in Directories(wanted);
    }
  }

  lemma RootIsAround(slot: Slot, d: Path)
    requires slot.Inside(d)
    ensures !slot.ValueAt? && |slot.path| == |d| + 1
  {
  }

  lemma InstalledIsWanted(inputs: Inputs, world: World, payload: Payload, slot: Slot)
    requires var call := Call(inputs, world, payload, slot); call.Some? && Rank(call.value) <= 2
    ensures Wants(inputs, slot)
  {
    hide Preserved, Directories;
  }

  lemma OrderedAt(plan: Plan, i: nat, j: nat)
    requires Ordered(plan) && i < |plan| && j < |plan|
    ensures i < j ==> MayPrecede(plan[i].kind, plan[j].kind)
  {
  }

  /** A directory that is wanted is there once its turn in the plan has come. */
  lemma WantedIsThere(plan: Plan, inputs: Inputs, world: World, payload: Payload, i: nat, d: Path)
    requires Plans(plan, inputs, world, payload) && InputsOk(inputs, payload) && Wants(inputs, DirectoryAt(d))
    requires i < |plan| && (Rank(plan[i].kind) == 0 ==> |d| < Depth(plan[i].kind))
    ensures DirectoryAt(d) in After(world, plan, i, payload)
  {
    var slot := DirectoryAt(d);
    WantedIsCalled(inputs, world, payload, d);
    hide Call, Wants, InputsOk, MayPrecede, Rank;
    assert Addresses(plan, slot);
    var j: nat :| j < |plan| && Target(plan, j) == slot;
    OrderedAt(plan, i, j);
    ShallowIsFirst(plan[i].kind, plan[j].kind);
    assert j < i;
    hide Plans, Ordered, Addresses;
    AfterLook(world, plan, i, payload, slot);
  }

  lemma WantedIsCalled(inputs: Inputs, world: World, payload: Payload, d: Path)
    requires InputsOk(inputs, payload) && Wants(inputs, DirectoryAt(d))
    ensures Call(inputs, world, payload, DirectoryAt(d)).Some?
    ensures var kind := Call(inputs, world, payload, DirectoryAt(d)).value;
            && (kind.CreateDirectory? || (kind == Keep(DirectoryAt(d)) && DirectoryAt(d) in world))
            && Rank(kind) == 0 && Depth(kind) == |d|
  {
    hide Preserved, Directories;
  }

  lemma ShallowIsFirst(a: Kind, b: Kind)
    requires Rank(b) == 0 && (Rank(a) == 0 ==> Depth(b) < Depth(a))
    ensures !MayPrecede(a, b)
  {
  }

  lemma DirectoriesNest(plan: Plan, inputs: Inputs, world: World, payload: Payload, i: nat, j: nat)
    requires Plans(plan, inputs, world, payload) && i < |plan| && j < |plan|
    requires Target(plan, i).DirectoryAt? && Target(plan, j).Inside(Target(plan, i).path)
    ensures plan[i].kind.CreateDirectory? ==> i < j
    ensures plan[i].kind.RemoveDirectory? ==> j < i
  {
    RootIsAround(Target(plan, j), Target(plan, i).path);
    assert Depth(plan[j].kind) == Depth(plan[i].kind) + 1;
    assert i < j ==> MayPrecede(plan[i].kind, plan[j].kind);
    assert j < i ==> MayPrecede(plan[j].kind, plan[i].kind);
  }

  lemma PlanIsRooted(plan: Plan, inputs: Inputs, world: World, payload: Payload, i: nat, d: Path)
    requires Plans(plan, inputs, world, payload) && InputsOk(inputs, payload) && i < |plan|
    requires (plan[i].kind.InstallFile? || plan[i].kind.CreateDirectory?) && Target(plan, i).Inside(d)
    ensures DirectoryAt(d) in After(world, plan, i, payload)
  {
    RootIsAround(Target(plan, i), d);
    InstalledIsWanted(inputs, world, payload, Target(plan, i));
    ParentIsWanted(inputs, Target(plan, i), d);
    WantedIsThere(plan, inputs, world, payload, i, d);
  }

  lemma CalledInPayload(inputs: Inputs, world: World, payload: Payload, slot: Slot)
    requires InputsOk(inputs, payload) && Call(inputs, world, payload, slot).Some?
    ensures var kind := Call(inputs, world, payload, slot).value;
            && (kind.InstallFile? ==> kind.entry in payload)
            && (kind.Keep? ==> kind.slot == slot && (slot.DirectoryAt? ==> slot in world))
  {
    hide Preserved, Directories;
  }

  /** Whatever is wanted, owned and found, a reconciliation is a plan the engine can run, crash, resume and undo. */
  lemma ReconciledIsOk(plan: Plan, inputs: Inputs, world: World, payload: Payload)
    requires Plans(plan, inputs, world, payload) && InputsOk(inputs, payload)
    ensures PlanOk(world, plan, payload)
  {
    hide Call, Ordered, Addresses;
    forall i: nat, j: nat | i < |plan| && j < |plan| && Target(plan, i).DirectoryAt? && Target(plan, j).Inside(Target(plan, i).path)
      ensures plan[i].kind.CreateDirectory? ==> i < j
      ensures plan[i].kind.RemoveDirectory? ==> j < i
    {
      DirectoriesNest(plan, inputs, world, payload, i, j);
    }
    forall i: nat, d: Path | i < |plan| && (plan[i].kind.InstallFile? || plan[i].kind.CreateDirectory?) && Target(plan, i).Inside(d)
      ensures DirectoryAt(d) in After(world, plan, i, payload)
    {
      PlanIsRooted(plan, inputs, world, payload, i, d);
    }
    forall i | 0 <= i < |plan|
      ensures plan[i].kind.InstallFile? ==> plan[i].kind.entry in payload
      ensures plan[i].kind.Keep? ==> !plan[i].kind.slot.DirectoryAt? || plan[i].kind.slot in world
    {
      CalledInPayload(inputs, world, payload, Target(plan, i));
    }
  }

  // ---- what such a plan leads to ----

  ghost function Reached(plan: Plan, world: World, payload: Payload): World {
    After(world, plan, |plan|, payload)
  }

  /** A slot holds afterwards what its call leaves there, or what it held. */
  lemma ReachedIs(plan: Plan, inputs: Inputs, world: World, payload: Payload, slot: Slot)
    requires Plans(plan, inputs, world, payload)
    ensures var call, after := Call(inputs, world, payload, slot), Look(Reached(plan, world, payload), slot);
            if call.None? then after == Look(world, slot)
            else if call.value.RemoveDirectory? then after == None || after == Look(world, slot)
            else after == Goal(call.value, Look(world, slot), false, payload)
  {
    hide Call;
    AfterLook(world, plan, |plan|, payload, slot);
    var call := Call(inputs, world, payload, slot);
    if call.Some? {
      var i: nat :| i < |plan| && Target(plan, i) == slot;
      assert plan[i].kind == call.value;
      CallTargets(inputs, world, payload, slot);
    } else {
      assert forall j :: 0 <= j < |plan| ==> Target(plan, j) != slot;
    }
  }

  /** A file somebody changed stays, and so does every directory around it. */
  lemma ModifiedIsPreserved(plan: Plan, inputs: Inputs, world: World, payload: Payload, p: Path)
    requires Plans(plan, inputs, world, payload) && InputsOk(inputs, payload) && Modified(inputs, world, p)
    ensures Look(Reached(plan, world, payload), FileAt(p)) == Look(world, FileAt(p))
    ensures forall d :: IsAround(d, p) && DirectoryAt(d) in world ==> DirectoryAt(d) in Reached(plan, world, payload)
  {
    ReachedIs(plan, inputs, world, payload, FileAt(p));
    assert Call(inputs, world, payload, FileAt(p)) == None;
    forall d | IsAround(d, p) && DirectoryAt(d) in world
      ensures DirectoryAt(d) in Reached(plan, world, payload)
    {
      ReachedIs(plan, inputs, world, payload, DirectoryAt(d));
      assert Preserved(inputs, world, d);
      hide Reached, Preserved, Directories;
    }
  }

  /**
   What is not wanted is left alone, or is the installation's own and goes: a file or value with just what was written
   in it, a directory it created once nothing is in it any more.
   */
  lemma RemovalIsConservative(plan: Plan, inputs: Inputs, world: World, payload: Payload, slot: Slot)
    requires Plans(plan, inputs, world, payload) && InputsOk(inputs, payload) && TreeOk(world) && !Wants(inputs, slot)
    ensures var before, after := Look(world, slot), Look(Reached(plan, world, payload), slot);
            after == before ||
            (Owns(inputs.owned, slot) &&
             match slot
             case FileAt(p) => before == Some(inputs.owned.files[p]) && after == None
             case ValueAt(key, name) =>
               var record := inputs.owned.values[Name(key, name)]; before == Some(record.written) && after == record.restore
             case DirectoryAt(d) => inputs.owned.directories[d] && after == None && Empty(Reached(plan, world, payload), d))
  {
    ReachedIs(plan, inputs, world, payload, slot);
    ReconciledIsOk(plan, inputs, world, payload);
    AfterKeepsTree(world, plan, |plan|, payload);
    CallTargets(inputs, world, payload, slot);
    hide Reached, Plans, PlanOk, Preserved, Directories;
  }

  // ---- what an installation owns, and what is left without it ----

  function RestoredValue(owned: Owned, world: World, n: Name): Option<Content> {
    if n in owned.values then owned.values[n].restore else Look(world, SlotOf(n))
  }

  /** Whether a wanted value stays what somebody made of it. */
  predicate StaysChanged(inputs: Inputs, world: World, n: Name)
    requires inputs.wanted.Some? && n in inputs.wanted.value.values
  {
    var call := ValueCall(inputs, world, n);
    call == Some(Keep(SlotOf(n))) && Look(world, SlotOf(n)) != Some(inputs.wanted.value.values[n])
  }

  /** Whether a wanted directory is the installation's to remove: as it was recorded, or if it was not there. */
  function DirectoryRow(inputs: Inputs, world: World, d: Path): bool {
    if DirectoryCall(inputs, world, d) == Some(Keep(DirectoryAt(d))) && d in inputs.owned.directories then inputs.owned.directories[d]
    else DirectoryAt(d) !in world
  }

  function ValueRow(inputs: Inputs, world: World, n: Name): Record
    requires inputs.wanted.Some? && n in inputs.wanted.value.values
  {
    Record(if StaysChanged(inputs, world, n) && n in inputs.owned.values then inputs.owned.values[n].written
           else inputs.wanted.value.values[n],
           RestoredValue(inputs.owned, world, n))
  }

  /** Rows for just what is wanted, each with what there was to put back once it goes. */
  ghost predicate Records(rows: Owned, inputs: Inputs, world: World, payload: Payload) {
    && (forall slot :: Owns(rows, slot) <==> Wants(inputs, slot))
    && (forall p <- rows.files :: Wants(inputs, FileAt(p)) && inputs.wanted.value.files[p] in payload
                                  && rows.files[p] == payload[inputs.wanted.value.files[p]])
    && (forall d <- rows.directories :: rows.directories[d] == DirectoryRow(inputs, world, d))
    && (forall n <- rows.values :: Wants(inputs, SlotOf(n)) && rows.values[n] == ValueRow(inputs, world, n))
  }

  /**
   An installation over `base`: its files stand where nothing stood, its rows are true, what it does not own is as it was,
   and the directories around what it owns are its own.
   */
  ghost predicate Over(base: World, world: World, owned: Owned) {
    && TreeOk(base)
    && (forall p <- owned.files :: FileAt(p) !in base && Look(world, FileAt(p)) == Some(owned.files[p]))
    && (forall d <- owned.directories :: Look(world, DirectoryAt(d)) == Some(Folder) && (owned.directories[d] <==> DirectoryAt(d) !in base))
    && (forall n <- owned.values ::
          Look(world, SlotOf(n)) == Some(owned.values[n].written) && owned.values[n].restore == Look(base, SlotOf(n)))
    && (forall slot :: !Owns(owned, slot) ==> Look(world, slot) == Look(base, slot))
    && (forall slot: Slot, d: Path :: Owns(owned, slot) && slot.Inside(d) ==> d in owned.directories)
  }

  /** The base without the files a package's own have replaced. */
  function Cleared(base: World, wanted: Option<Wanted>): World {
    if wanted.None? then base else base - set p | p in wanted.value.files :: FileAt(p)
  }

  lemma ClearedLook(base: World, wanted: Option<Wanted>, slot: Slot)
    ensures Look(Cleared(base, wanted), slot) ==
            if wanted.Some? && slot.FileAt? && slot.path in wanted.value.files then None else Look(base, slot)
  {
    if wanted.Some? && slot.FileAt? && slot.path in wanted.value.files {
      assert slot == FileAt(slot.path);
    }
  }

  lemma ClearedIsTree(base: World, wanted: Option<Wanted>)
    requires TreeOk(base)
    ensures TreeOk(Cleared(base, wanted))
  {
    var cleared := Cleared(base, wanted);
    forall slot: Slot, d: Path | slot in cleared && slot.Inside(d)
      ensures DirectoryAt(d) in cleared
    {
      assert slot in base;
      ClearedLook(base, wanted, DirectoryAt(d));
    }
  }

  // ---- one reconciliation ----

  ghost predicate Reconciles(plan: Plan, inputs: Inputs, base: World, world: World, payload: Payload) {
    Plans(plan, inputs, world, payload) && InputsOk(inputs, payload) && Over(base, world, inputs.owned)
  }

  lemma NothingIsModified(inputs: Inputs, base: World, world: World, d: Path)
    requires Over(base, world, inputs.owned)
    ensures !Preserved(inputs, world, d)
  {
  }

  lemma FileAfter(plan: Plan, inputs: Inputs, base: World, world: World, payload: Payload, p: Path)
    requires Reconciles(plan, inputs, base, world, payload)
    ensures Look(Reached(plan, world, payload), FileAt(p)) ==
            if Wants(inputs, FileAt(p)) then Some(payload[inputs.wanted.value.files[p]]) else Look(base, FileAt(p))
  {
    ReachedIs(plan, inputs, world, payload, FileAt(p));
    hide Reached, Plans;
    assert !Owns(inputs.owned, FileAt(p)) ==> Look(world, FileAt(p)) == Look(base, FileAt(p));
  }

  lemma ValueAfter(plan: Plan, inputs: Inputs, base: World, world: World, payload: Payload, n: Name)
    requires Reconciles(plan, inputs, base, world, payload)
    ensures Look(Reached(plan, world, payload), SlotOf(n)) ==
            if Wants(inputs, SlotOf(n)) then Some(inputs.wanted.value.values[n]) else Look(base, SlotOf(n))
    ensures RestoredValue(inputs.owned, world, n) == Look(base, SlotOf(n))
    ensures Wants(inputs, SlotOf(n)) ==> !StaysChanged(inputs, world, n)
  {
    ReachedIs(plan, inputs, world, payload, SlotOf(n));
    hide Reached, Plans;
    assert !Owns(inputs.owned, SlotOf(n)) ==> Look(world, SlotOf(n)) == Look(base, SlotOf(n));
  }

  /** What is inside a directory that goes has no place in the base, and goes before it. */
  lemma InsideGoes(plan: Plan, inputs: Inputs, base: World, world: World, payload: Payload, i: nat, slot: Slot)
    requires Reconciles(plan, inputs, base, world, payload)
    requires i < |plan| && plan[i].kind.RemoveDirectory? && slot.Inside(plan[i].kind.path)
    ensures Look(base, slot) == None && !Wants(inputs, slot)
    ensures Owns(inputs.owned, slot) ==>
              exists j: nat :: j < i && Target(plan, j) == slot && (plan[j].kind.RemoveFile? || plan[j].kind.RemoveDirectory?)
    ensures !Owns(inputs.owned, slot) ==> Look(world, slot) == None && Call(inputs, world, payload, slot) == None
  {
    var d := plan[i].kind.path;
    assert Call(inputs, world, payload, DirectoryAt(d)) == Some(plan[i].kind);
    assert !Wants(inputs, DirectoryAt(d)) && d in inputs.owned.directories && inputs.owned.directories[d];
    if inputs.wanted.Some? && Wants(inputs, slot) {
      ParentIsWanted(inputs, slot, d);
    }
    assert DirectoryAt(d) !in base;
    CallTargets(inputs, world, payload, slot);
    RootIsAround(slot, d);
    if Owns(inputs.owned, slot) {
      NothingIsModified(inputs, base, world, slot.path);
      var call := Call(inputs, world, payload, slot);
      hide Wants, Preserved;
      assert call.Some? && (call.value.RemoveFile? || call.value.RemoveDirectory?);
      var j: nat :| j < |plan| && Target(plan, j) == slot;
      assert plan[j].kind == call.value;
      OrderedAt(plan, i, j);
    }
  }

  /** Last of what is in it, a directory that was created goes too. */
  lemma {:induction false} DirectoryGoes(plan: Plan, inputs: Inputs, base: World, world: World, payload: Payload, i: nat)
    requires Reconciles(plan, inputs, base, world, payload) && i < |plan| && plan[i].kind.RemoveDirectory?
    ensures GoalAt(world, plan, i, payload) == None
  {
    var d, reached := plan[i].kind.path, After(world, plan, i, payload);
    forall slot: Slot | slot.Inside(d)
      ensures Look(reached, slot) == None
    {
      InsideGoes(plan, inputs, base, world, payload, i, slot);
      AfterLook(world, plan, i, payload, slot);
      if Owns(inputs.owned, slot) {
        var j: nat :| j < i && Target(plan, j) == slot && (plan[j].kind.RemoveFile? || plan[j].kind.RemoveDirectory?);
        if plan[j].kind.RemoveDirectory? {
          DirectoryGoes(plan, inputs, base, world, payload, j);
        }
      } else {
        assert forall j: nat :: j < |plan| ==> Target(plan, j) != slot;
      }
    }
    assert Empty(reached, d);
  }

  lemma DirectoryAfter(plan: Plan, inputs: Inputs, base: World, world: World, payload: Payload, d: Path)
    requires Reconciles(plan, inputs, base, world, payload)
    ensures Look(Reached(plan, world, payload), DirectoryAt(d)) ==
            if Wants(inputs, DirectoryAt(d)) then Some(Folder) else Look(base, DirectoryAt(d))
    ensures Wants(inputs, DirectoryAt(d)) ==>
              (d in inputs.owned.directories <==> DirectoryCall(inputs, world, d) == Some(Keep(DirectoryAt(d))))
  {
    var slot := DirectoryAt(d);
    ReachedIs(plan, inputs, world, payload, slot);
    NothingIsModified(inputs, base, world, d);
    assert !Owns(inputs.owned, slot) ==> Look(world, slot) == Look(base, slot);
    if !Wants(inputs, slot) && d in inputs.owned.directories && inputs.owned.directories[d] {
      assert Call(inputs, world, payload, slot) == Some(RemoveDirectory(d));
      var i: nat :| i < |plan| && Target(plan, i) == slot;
      DirectoryGoes(plan, inputs, base, world, payload, i);
      AfterLook(world, plan, |plan|, payload, slot);
    }
  }

  /** Whatever the package does not want is, afterwards, as it was before anything was installed. */
  lemma UnwantedIsBase(plan: Plan, inputs: Inputs, base: World, world: World, payload: Payload, slot: Slot)
    requires Reconciles(plan, inputs, base, world, payload) && !Wants(inputs, slot)
    ensures Look(Reached(plan, world, payload), slot) == Look(base, slot)
  {
    hide Reached, Wants, Reconciles;
    match slot
    case DirectoryAt(d) => DirectoryAfter(plan, inputs, base, world, payload, d);
    case FileAt(p) => FileAfter(plan, inputs, base, world, payload, p);
    case ValueAt(key, name) => ValueAfter(plan, inputs, base, world, payload, Name(key, name));
  }

  /** After a reconciliation the rows describe an installation again, over the base without what the package's files replaced. */
  lemma ReconciledIsOver(plan: Plan, inputs: Inputs, base: World, world: World, payload: Payload, rows: Owned)
    requires Reconciles(plan, inputs, base, world, payload) && Records(rows, inputs, world, payload)
    ensures Over(Cleared(base, inputs.wanted), Reached(plan, world, payload), rows)
  {
    var cleared, reached := Cleared(base, inputs.wanted), Reached(plan, world, payload);
    ClearedIsTree(base, inputs.wanted);
    hide Reconciles, Reached, Cleared, Wants, TreeOk, DirectoryRow, ValueRow;
    forall p | p in rows.files
      ensures FileAt(p) !in cleared && Look(reached, FileAt(p)) == Some(rows.files[p])
    {
      OwnedFile(plan, inputs, base, world, payload, p);
    }
    forall d | d in rows.directories
      ensures Look(reached, DirectoryAt(d)) == Some(Folder) && (rows.directories[d] <==> DirectoryAt(d) !in cleared)
    {
      assert Owns(rows, DirectoryAt(d));
      OwnedDirectory(plan, inputs, base, world, payload, d);
    }
    forall n | n in rows.values
      ensures Look(reached, SlotOf(n)) == Some(rows.values[n].written) && rows.values[n].restore == Look(cleared, SlotOf(n))
    {
      OwnedValue(plan, inputs, base, world, payload, n);
    }
    forall slot | !Owns(rows, slot)
      ensures Look(reached, slot) == Look(cleared, slot)
    {
      UnwantedIsBase(plan, inputs, base, world, payload, slot);
      UnwantedIsKept(base, inputs, slot);
    }
    forall slot: Slot, d: Path | Owns(rows, slot) && slot.Inside(d)
      ensures d in rows.directories
    {
      WantedParent(inputs, slot, d);
      assert Owns(rows, DirectoryAt(d));
    }
  }

  lemma UnwantedIsKept(base: World, inputs: Inputs, slot: Slot)
    requires !Wants(inputs, slot)
    ensures Look(Cleared(base, inputs.wanted), slot) == Look(base, slot)
  {
    ClearedLook(base, inputs.wanted, slot);
    hide Cleared, Directories;
  }

  lemma WantedParent(inputs: Inputs, slot: Slot, d: Path)
    requires Wants(inputs, slot) && slot.Inside(d)
    ensures Wants(inputs, DirectoryAt(d))
  {
    ParentIsWanted(inputs, slot, d);
    hide Directories;
  }

  lemma OwnedFile(plan: Plan, inputs: Inputs, base: World, world: World, payload: Payload, p: Path)
    requires Reconciles(plan, inputs, base, world, payload) && Wants(inputs, FileAt(p))
    ensures FileAt(p) !in Cleared(base, inputs.wanted)
    ensures Look(Reached(plan, world, payload), FileAt(p)) == Some(payload[inputs.wanted.value.files[p]])
  {
    FileAfter(plan, inputs, base, world, payload, p);
    ClearedLook(base, inputs.wanted, FileAt(p));
    hide Reconciles, Reached, Cleared;
  }

  lemma OwnedDirectory(plan: Plan, inputs: Inputs, base: World, world: World, payload: Payload, d: Path)
    requires Reconciles(plan, inputs, base, world, payload) && Wants(inputs, DirectoryAt(d))
    ensures Look(Reached(plan, world, payload), DirectoryAt(d)) == Some(Folder)
    ensures DirectoryRow(inputs, world, d) <==> DirectoryAt(d) !in Cleared(base, inputs.wanted)
  {
    assert d in inputs.owned.directories ==> (inputs.owned.directories[d] <==> DirectoryAt(d) !in base);
    assert d !in inputs.owned.directories ==> Look(world, DirectoryAt(d)) == Look(base, DirectoryAt(d)) by {
      assert d !in inputs.owned.directories ==> !Owns(inputs.owned, DirectoryAt(d));
    }
    DirectoryAfter(plan, inputs, base, world, payload, d);
    ClearedLook(base, inputs.wanted, DirectoryAt(d));
    hide Reconciles, Reached, Cleared, DirectoryCall, Wants;
  }

  lemma OwnedValue(plan: Plan, inputs: Inputs, base: World, world: World, payload: Payload, n: Name)
    requires Reconciles(plan, inputs, base, world, payload) && Wants(inputs, SlotOf(n))
    ensures Look(Reached(plan, world, payload), SlotOf(n)) == Some(ValueRow(inputs, world, n).written)
    ensures ValueRow(inputs, world, n).restore == Look(Cleared(base, inputs.wanted), SlotOf(n))
  {
    ValueAfter(plan, inputs, base, world, payload, n);
    ClearedLook(base, inputs.wanted, SlotOf(n));
    hide Reconciles, Reached, Cleared, RestoredValue, StaysChanged;
  }

  // ---- what is wanted is there, whatever was found ----

  /** A wanted file is there with the package's bytes, however damaged it was found. */
  lemma WantedFileIsThere(plan: Plan, inputs: Inputs, world: World, payload: Payload, p: Path)
    requires Plans(plan, inputs, world, payload) && InputsOk(inputs, payload) && inputs.wanted.Some? && p in inputs.wanted.value.files
    ensures Look(Reached(plan, world, payload), FileAt(p)) == Some(payload[inputs.wanted.value.files[p]])
  {
    ReachedIs(plan, inputs, world, payload, FileAt(p));
    hide Reached, Plans, Directories;
  }

  /** So is the install root, and every directory around a wanted file. */
  lemma WantedDirectoryIsThere(plan: Plan, inputs: Inputs, world: World, payload: Payload, p: Path, d: Path)
    requires Plans(plan, inputs, world, payload) && InputsOk(inputs, payload) && TreeOk(world)
    requires inputs.wanted.Some? && (d == [] || (p in inputs.wanted.value.files && IsAround(d, p)))
    ensures Look(Reached(plan, world, payload), DirectoryAt(d)) == Some(Folder)
  {
    assert d in Directories(inputs.wanted.value) by {
      assert d != [] ==> p in inputs.wanted.value.files && 0 <= |d| < |p| && d == p[..|d|];
    }
    ReachedIs(plan, inputs, world, payload, DirectoryAt(d));
    WantedIsCalled(inputs, world, payload, d);
    hide Reached, Plans, Directories;
  }

  /** A wanted value holds the package's data, unless somebody made something else of it and nothing lets the run write over that. */
  lemma WantedValueIsThere(plan: Plan, inputs: Inputs, world: World, payload: Payload, n: Name)
    requires Plans(plan, inputs, world, payload) && inputs.wanted.Some? && n in inputs.wanted.value.values
    ensures var found := Look(world, SlotOf(n));
            Look(Reached(plan, world, payload), SlotOf(n)) ==
            if inputs.overwrite || n !in inputs.owned.values || found.None? || found == Some(inputs.owned.values[n].written)
            then Some(inputs.wanted.value.values[n]) else found
  {
    ReachedIs(plan, inputs, world, payload, SlotOf(n));
    hide Reached, Plans;
  }

  /**
   The row of a wanted value keeps what was written last where somebody made something else of it, and the package's data
   otherwise; what its removal puts back is what it put back before, or else what was found.
   */
  lemma WantedValueIsRecorded(inputs: Inputs, world: World, payload: Payload, rows: Owned, n: Name)
    requires Records(rows, inputs, world, payload) && inputs.wanted.Some? && n in inputs.wanted.value.values
    ensures var found, owned, data := Look(world, SlotOf(n)), inputs.owned.values, inputs.wanted.value.values[n];
            && n in rows.values
            && rows.values[n].written == (if !inputs.overwrite && n in owned && found.Some? && found != Some(owned[n].written) && found != Some(data)
                                          then owned[n].written else data)
            && rows.values[n].restore == (if n in owned then owned[n].restore else found)
  {
    assert Wants(inputs, SlotOf(n)) && Owns(rows, SlotOf(n));
  }

  // ---- what is left alone, and in which order the rest is done ----

  /** A repair of what is as it should be does nothing: it keeps every file, value and directory that is in its place. */
  lemma InPlaceIsKept(plan: Plan, inputs: Inputs, world: World, payload: Payload, i: nat)
    requires Plans(plan, inputs, world, payload) && InputsOk(inputs, payload) && inputs.wanted.Some? && inputs.inspect && i < |plan|
    ensures var slot, wanted := Target(plan, i), inputs.wanted.value;
            match slot
            case FileAt(p) => p in wanted.files && Look(world, slot) == Some(payload[wanted.files[p]]) ==> plan[i].kind == Keep(slot)
            case ValueAt(key, name) =>
              Name(key, name) in wanted.values && Look(world, slot) == Some(wanted.values[Name(key, name)]) ==> plan[i].kind == Keep(slot)
            case DirectoryAt(d) => d in inputs.owned.directories && slot in world && Wants(inputs, slot) ==> plan[i].kind == Keep(slot)
  {
    hide Directories, Preserved;
  }

  /** No operation is planned for a file or value that is not wanted and that somebody changed, or that is not owned. */
  lemma ChangedIsNotPlanned(plan: Plan, inputs: Inputs, world: World, payload: Payload, slot: Slot)
    requires Plans(plan, inputs, world, payload) && !Wants(inputs, slot)
    requires match slot
             case FileAt(p) => p !in inputs.owned.files || Look(world, slot) != Some(inputs.owned.files[p])
             case ValueAt(key, name) =>
               Name(key, name) !in inputs.owned.values || Look(world, slot) != Some(inputs.owned.values[Name(key, name)].written)
             case DirectoryAt(d) => d !in inputs.owned.directories || !inputs.owned.directories[d]
    ensures forall i :: 0 <= i < |plan| ==> Target(plan, i) != slot
  {
    hide Wants;
    assert Call(inputs, world, payload, slot) == None;
  }

  /**
   The order of a plan: directories, shallow ones first, then files, then values; then what goes, values, files and
   directories, deep ones first.
   */
  lemma OrderMeans(plan: Plan, i: nat, j: nat)
    requires Ordered(plan) && i < j < |plan|
    ensures var a, b := plan[i].kind, plan[j].kind;
            && (a.RemoveDirectory? ==> b.RemoveDirectory? && |b.path| <= |a.path|)
            && (a.RemoveFile? ==> b.RemoveDirectory? || b.RemoveFile?)
            && (a.RemoveValue? ==> b.RemoveDirectory? || b.RemoveFile? || b.RemoveValue?)
            && (a.SetValue? || (a.Keep? && a.slot.ValueAt?) ==>
                  b.RemoveDirectory? || b.RemoveFile? || b.RemoveValue? || b.SetValue? || (b.Keep? && b.slot.ValueAt?))
            && (a.InstallFile? || (a.Keep? && a.slot.FileAt?) ==> !(b.CreateDirectory? || (b.Keep? && b.slot.DirectoryAt?)))
            && ((a.CreateDirectory? || (a.Keep? && a.slot.DirectoryAt?)) && (b.CreateDirectory? || (b.Keep? && b.slot.DirectoryAt?)) ==>
                  |Target(plan, i).path| <= |Target(plan, j).path|)
  {
  }

  // ---- any number of them ----

  /** One committed run: the machine it found, what was planned with what at hand, and the rows it left. */
  datatype Step = Step(found: World, inputs: Inputs, plan: Plan, payload: Payload, rows: Owned)

  ghost function Left(s: Step): World {
    Reached(s.plan, s.found, s.payload)
  }

  /** Runs each from the rows the one before it left, on whatever machine it finds. */
  ghost predicate Follows(owned: Owned, steps: seq<Step>)
    decreases steps
  {
    steps == [] ||
    (var s := steps[0];
     && s.inputs.owned == owned && TreeOk(s.found) && Plans(s.plan, s.inputs, s.found, s.payload) && InputsOk(s.inputs, s.payload)
     && Records(s.rows, s.inputs, s.found, s.payload)
     && Follows(s.rows, steps[1..]))
  }

  /** A slot is the installation's at the start of a run: it has a row, and a directory is still there. */
  predicate IsOwn(s: Step, slot: Slot) {
    Owns(s.inputs.owned, slot) && (slot.DirectoryAt? ==> slot in s.found)
  }

  /** What a slot held the last time a run found it not the installation's. */
  function HeldBefore(v: Option<Content>, steps: seq<Step>, slot: Slot): Option<Content>
    decreases steps
  {
    if steps == [] then v else HeldBefore(if IsOwn(steps[0], slot) then v else Look(steps[0].found, slot), steps[1..], slot)
  }

  /** The row of a slot puts back what it held before it was the installation's. */
  predicate RowRestores(owned: Owned, slot: Slot, v: Option<Content>) {
    match slot
    case DirectoryAt(d) => d in owned.directories ==> (owned.directories[d] <==> v.None?)
    case FileAt(p) => p in owned.files ==> p != []
    case ValueAt(key, name) => Name(key, name) in owned.values ==> owned.values[Name(key, name)].restore == v
  }

  lemma RowRestoresNext(s: Step, slot: Slot, v: Option<Content>)
    requires InputsOk(s.inputs, s.payload) && Records(s.rows, s.inputs, s.found, s.payload) && RowRestores(s.inputs.owned, slot, v)
    ensures RowRestores(s.rows, slot, if IsOwn(s, slot) then v else Look(s.found, slot))
  {
    hide Preserved, Directories;
    assert Owns(s.rows, slot) <==> Wants(s.inputs, slot);
  }

  /** A file among others of a directory, or a directory around it, keeps that one from being empty. */
  lemma {:induction false} AroundIsNotEmpty(world: World, d: Path, p: Path, slot: Slot)
    requires TreeOk(world) && slot in world && !slot.ValueAt? && slot.path == p && IsAround(d, p)
    ensures !Empty(world, d)
    decreases |p|
  {
    var parent := p[..|p| - 1];
    assert slot.Inside(parent);
    if |d| + 1 < |p| {
      assert DirectoryAt(parent) in world;
      AroundIsNotEmpty(world, d, parent, DirectoryAt(parent));
    }
  }

  /** A created directory that is not wanted any more goes exactly when nothing is left in it. */
  lemma CreatedGoesWhenEmpty(s: Step, d: Path)
    requires TreeOk(s.found) && Plans(s.plan, s.inputs, s.found, s.payload) && InputsOk(s.inputs, s.payload)
    requires forall p <- s.inputs.owned.files :: p != []
    requires !Wants(s.inputs, DirectoryAt(d)) && d in s.inputs.owned.directories && s.inputs.owned.directories[d]
    ensures DirectoryAt(d) in s.found ==> (DirectoryAt(d) in Left(s) <==> !Empty(Left(s), d))
  {
    var plan, world, payload := s.plan, s.found, s.payload;
    LeftIsTree(s);
    if Preserved(s.inputs, world, d) {
      var p :| p in s.inputs.owned.files && Modified(s.inputs, world, p) && (d == [] || IsAround(d, p));
      ModifiedIsPreserved(plan, s.inputs, world, payload, p);
      AroundIsNotEmpty(Left(s), d, p, FileAt(p));
    } else {
      assert Call(s.inputs, world, payload, DirectoryAt(d)) == Some(RemoveDirectory(d));
      var i: nat :| i < |plan| && Target(plan, i) == DirectoryAt(d);
      AfterLook(world, plan, |plan|, payload, DirectoryAt(d));
      forall slot: Slot | slot.Inside(d)
        ensures Look(After(world, plan, i, payload), slot) == Look(Left(s), slot)
      {
        InsideIsSettled(s, i, slot);
      }
    }
  }

  lemma LeftIsTree(s: Step)
    requires TreeOk(s.found) && Plans(s.plan, s.inputs, s.found, s.payload) && InputsOk(s.inputs, s.payload)
    ensures TreeOk(Left(s))
  {
    ReconciledIsOk(s.plan, s.inputs, s.found, s.payload);
    AfterKeepsTree(s.found, s.plan, |s.plan|, s.payload);
  }

  /** When a directory's removal has its turn, everything in it has had its own. */
  lemma InsideIsSettled(s: Step, i: nat, slot: Slot)
    requires Plans(s.plan, s.inputs, s.found, s.payload)
    requires i < |s.plan| && s.plan[i].kind.RemoveDirectory? && slot.Inside(s.plan[i].kind.path)
    ensures Look(After(s.found, s.plan, i, s.payload), slot) == Look(Left(s), slot)
  {
    AfterLook(s.found, s.plan, i, s.payload, slot);
    AfterLook(s.found, s.plan, |s.plan|, s.payload, slot);
    if j: nat :| j < |s.plan| && Target(s.plan, j) == slot {
      DirectoriesNest(s.plan, s.inputs, s.found, s.payload, i, j);
    }
  }

  /** What was there before it was the installation's, where it is still as the installation left it; else what was found. */
  ghost predicate IsUndone(s: Step, slot: Slot, before: Option<Content>) {
    var found, after, owned := Look(s.found, slot), Look(Left(s), slot), s.inputs.owned;
    match slot
    case FileAt(p) => after == if p in owned.files && found == Some(owned.files[p]) then None else found
    case ValueAt(key, name) =>
      var n := Name(key, name);
      after == if n in owned.values && found == Some(owned.values[n].written) then before else found
    case DirectoryAt(d) => slot in Left(s) <==> before.Some? || !Empty(Left(s), d)
  }

  lemma LastIsUndone(s: Step, slot: Slot, v: Option<Content>)
    requires TreeOk(s.found) && Plans(s.plan, s.inputs, s.found, s.payload) && InputsOk(s.inputs, s.payload)
    requires RowRestores(s.inputs.owned, slot, v) && (forall p <- s.inputs.owned.files :: p != []) && !Wants(s.inputs, slot)
    ensures IsUndone(s, slot, if IsOwn(s, slot) then v else Look(s.found, slot))
  {
    ReachedIs(s.plan, s.inputs, s.found, s.payload, slot);
    LeftIsTree(s);
    if slot.DirectoryAt? {
      var d := slot.path;
      if d in s.inputs.owned.directories && s.inputs.owned.directories[d] {
        CreatedGoesWhenEmpty(s, d);
      }
      if c :| c in Left(s) && c.Inside(d) {
        assert slot in Left(s);
      }
    }
  }

  /**
   Over every history of runs, whatever anybody did to the machine between them: what the last one does not want, so
   everything if it is an uninstall, is as it was the last time it was not the installation's, unless somebody changed it,
   and then as they left it. A file of the installation goes; a directory stays that was there before or has something in it.
   */
  lemma {:induction false} HistoryIsUndone(owned: Owned, steps: seq<Step>, slot: Slot, v: Option<Content>)
    requires Follows(owned, steps) && steps != [] && !Wants(steps[|steps| - 1].inputs, slot)
    requires RowRestores(owned, slot, v) && forall p <- owned.files :: p != []
    ensures IsUndone(steps[|steps| - 1], slot, HeldBefore(v, steps, slot))
    decreases steps
  {
    hide Plans, InputsOk, Records, Wants, RowRestores, IsUndone, IsOwn, TreeOk;
    var s := steps[0];
    var now := if IsOwn(s, slot) then v else Look(s.found, slot);
    if |steps| == 1 {
      assert steps[1..] == [];
      LastIsUndone(s, slot, v);
    } else {
      RowRestoresNext(s, slot, v);
      RowsHaveNames(s);
      assert steps[1..][|steps| - 2] == steps[|steps| - 1];
      HistoryIsUndone(s.rows, steps[1..], slot, now);
    }
  }

  lemma RowsHaveNames(s: Step)
    requires InputsOk(s.inputs, s.payload) && Records(s.rows, s.inputs, s.found, s.payload)
    ensures forall p <- s.rows.files :: p != []
  {
    hide Directories;
  }

  // ---- and nobody else at the machine ----

  /** Each run finds the machine as the one before left it. */
  ghost predicate Undisturbed(base: World, steps: seq<Step>)
    decreases steps
  {
    steps == [] || (steps[0].found == base && Undisturbed(Left(steps[0]), steps[1..]))
  }

  ghost function WorldAfter(base: World, steps: seq<Step>): World {
    if steps == [] then base else Left(steps[|steps| - 1])
  }

  /** The base without every file that some run's package had a file for. */
  ghost function ClearedBy(base: World, steps: seq<Step>): World
    decreases steps
  {
    if steps == [] then base else ClearedBy(Cleared(base, steps[0].inputs.wanted), steps[1..])
  }

  lemma {:induction false} HistoryOver(base: World, world: World, owned: Owned, steps: seq<Step>)
    requires Over(base, world, owned) && Follows(owned, steps) && Undisturbed(world, steps)
    requires steps != [] && steps[|steps| - 1].inputs.wanted.None?
    ensures WorldAfter(world, steps) == ClearedBy(base, steps)
    decreases steps
  {
    hide Over, Records, Reached, Cleared, Plans, InputsOk, TreeOk;
    var s := steps[0];
    ReconciledIsOver(s.plan, s.inputs, base, world, s.payload, s.rows);
    var cleared, reached := Cleared(base, s.inputs.wanted), Left(s);
    if |steps| == 1 {
      NothingIsOwned(s.rows, s.inputs, world, s.payload);
      NothingOwnedIsBase(cleared, reached, s.rows);
      assert steps[1..] == [];
    } else {
      assert steps[1..][|steps| - 2] == steps[|steps| - 1];
      HistoryOver(cleared, reached, s.rows, steps[1..]);
    }
  }

  lemma NothingIsOwned(rows: Owned, inputs: Inputs, world: World, payload: Payload)
    requires Records(rows, inputs, world, payload) && inputs.wanted.None?
    ensures forall slot :: !Owns(rows, slot)
  {
    hide Owns;
  }

  lemma NothingOwnedIsBase(base: World, world: World, rows: Owned)
    requires Over(base, world, rows) && forall slot :: !Owns(rows, slot)
    ensures world == base
  {
    SameWorld(world, base);
  }

  lemma BaseIsOver(base: World)
    requires TreeOk(base)
    ensures Over(base, base, NOTHING)
  {
  }

  /** A package had a file for it. */
  ghost predicate Claimed(steps: seq<Step>, p: Path) {
    exists k :: 0 <= k < |steps| && Wants(steps[k].inputs, FileAt(p))
  }

  lemma {:induction false} ClearedByLook(base: World, steps: seq<Step>, slot: Slot)
    ensures Look(ClearedBy(base, steps), slot) == if slot.FileAt? && Claimed(steps, slot.path) then None else Look(base, slot)
    decreases steps
  {
    if steps != [] {
      var cleared, rest := Cleared(base, steps[0].inputs.wanted), steps[1..];
      ClearedByLook(cleared, rest, slot);
      ClearedLook(base, steps[0].inputs.wanted, slot);
      if slot.FileAt? {
        ClaimedNext(steps, slot.path);
      }
    }
  }

  lemma ClaimedNext(steps: seq<Step>, p: Path)
    requires steps != []
    ensures Claimed(steps, p) <==> Wants(steps[0].inputs, FileAt(p)) || Claimed(steps[1..], p)
  {
    hide Wants;
    if k :| 0 <= k < |steps| && Wants(steps[k].inputs, FileAt(p)) {
      assert k > 0 ==> steps[1..][k - 1] == steps[k];
    }
    if k :| 0 <= k < |steps[1..]| && Wants(steps[1..][k].inputs, FileAt(p)) {
      assert steps[k + 1] == steps[1..][k];
    }
  }

  /**
   Over every history of installs, upgrades and repairs that ends in an uninstall, nobody else having been at the machine,
   each slot is back as it was before the first of them, except that no file is left where any of the packages had one.
   */
  lemma UndisturbedIsUndone(base: World, steps: seq<Step>, slot: Slot)
    requires TreeOk(base) && Follows(NOTHING, steps) && Undisturbed(base, steps)
    requires steps != [] && steps[|steps| - 1].inputs.wanted.None?
    ensures Look(WorldAfter(base, steps), slot) == if slot.FileAt? && Claimed(steps, slot.path) then None else Look(base, slot)
  {
    hide Follows, Over, Claimed, Undisturbed;
    BaseIsOver(base);
    HistoryOver(base, base, NOTHING, steps);
    ClearedByLook(base, steps, slot);
  }

  /** The machine is as it was exactly when no package had a file where there was one. */
  lemma HistoryRestoresUnlessReplaced(base: World, steps: seq<Step>)
    requires TreeOk(base) && Follows(NOTHING, steps) && Undisturbed(base, steps)
    requires steps != [] && steps[|steps| - 1].inputs.wanted.None?
    ensures WorldAfter(base, steps) == base <==> forall p :: Claimed(steps, p) ==> FileAt(p) !in base
  {
    hide Follows, Claimed, Undisturbed;
    var after := WorldAfter(base, steps);
    if after == base {
      forall p | Claimed(steps, p)
        ensures FileAt(p) !in base
      {
        UndisturbedIsUndone(base, steps, FileAt(p));
      }
    } else if forall p :: Claimed(steps, p) ==> FileAt(p) !in base {
      forall slot
        ensures Look(after, slot) == Look(base, slot)
      {
        UndisturbedIsUndone(base, steps, slot);
      }
      SameWorld(after, base);
    }
  }

  // ---- a file in the way ----

  function Occupied(name: string, mine: string): World {
    map[DirectoryAt([]) := Folder, FileAt([name]) := Bytes(mine)]
  }

  function Installing(name: string, entry: string): Inputs {
    Inputs(Some(Wanted(map[[name] := entry], map[])), NOTHING, false, false)
  }

  function InstallStep(name: string, entry: string, mine: string, theirs: string): Step {
    Step(Occupied(name, mine), Installing(name, entry), [PlannedOperation(CreateDirectory([]), None), PlannedOperation(InstallFile([name], entry), None)],
         map[entry := Bytes(theirs)], Rows(name, theirs))
  }

  function Rows(name: string, theirs: string): Owned {
    Owned(map[[name] := Bytes(theirs)], map[[] := false], map[])
  }

  function Leaving(name: string, theirs: string): Inputs {
    Inputs(None, Rows(name, theirs), true, false)
  }

  function UninstallStep(name: string, theirs: string, found: World): Step {
    Step(found, Leaving(name, theirs), [PlannedOperation(RemoveFile([name]), None)], map[], NOTHING)
  }

  lemma InstallingDirectories(name: string, entry: string)
    ensures Directories(Installing(name, entry).wanted.value) == {[]}
  {
    assert [name][..0] == [];
  }

  lemma InstallPlans(name: string, entry: string, mine: string, theirs: string)
    ensures var s := InstallStep(name, entry, mine, theirs);
            Plans(s.plan, s.inputs, s.found, s.payload) && InputsOk(s.inputs, s.payload)
  {
    var s, world := InstallStep(name, entry, mine, theirs), Occupied(name, mine);
    InstallingDirectories(name, entry);
    assert Target(s.plan, 0) == DirectoryAt([]) && Target(s.plan, 1) == FileAt([name]);
    forall slot | Call(s.inputs, world, s.payload, slot).Some?
      ensures Addresses(s.plan, slot)
    {
      CallTargets(s.inputs, world, s.payload, slot);
      hide Call, Directories;
      if slot.FileAt? {
        assert slot.path == [name];
      }
    }
  }

  lemma UninstallPlans(name: string, theirs: string, world: World)
    requires Look(world, FileAt([name])) == Some(Bytes(theirs))
    ensures var s := UninstallStep(name, theirs, world); Plans(s.plan, s.inputs, world, s.payload) && InputsOk(s.inputs, s.payload)
  {
    var s := UninstallStep(name, theirs, world);
    assert Target(s.plan, 0) == FileAt([name]);
    forall slot | Call(s.inputs, world, s.payload, slot).Some?
      ensures Addresses(s.plan, slot)
    {
      CallTargets(s.inputs, world, s.payload, slot);
    }
  }

  /** A file in the way of an install, whatever it holds, is gone after the uninstall. */
  lemma FileInTheWayIsLost(name: string, entry: string, mine: string, theirs: string)
    ensures var base, first := Occupied(name, mine), InstallStep(name, entry, mine, theirs);
            var steps := [first, UninstallStep(name, theirs, Left(first))];
            && Follows(NOTHING, steps) && Undisturbed(base, steps)
            && FileAt([name]) in base && FileAt([name]) !in WorldAfter(base, steps)
  {
    var base, first := Occupied(name, mine), InstallStep(name, entry, mine, theirs);
    var second := UninstallStep(name, theirs, Left(first));
    var steps := [first, second];
    InstallPlans(name, entry, mine, theirs);
    OccupiedIsTree(name, mine);
    LeftIsTree(first);
    ReachedIs(first.plan, first.inputs, base, first.payload, FileAt([name]));
    UninstallPlans(name, theirs, Left(first));
    UninstallRecords(name, theirs, Left(first));
    InstallRecords(name, entry, mine, theirs);
    assert Wants(steps[0].inputs, FileAt([name])) && Claimed(steps, [name]);
    TwoFollow(first, second);
    hide Follows, Undisturbed, Claimed;
    UndisturbedIsUndone(base, steps, FileAt([name]));
  }

  lemma TwoFollow(first: Step, second: Step)
    requires first.inputs.owned == NOTHING && second.inputs.owned == first.rows && second.found == Left(first)
    requires TreeOk(first.found) && Plans(first.plan, first.inputs, first.found, first.payload) && InputsOk(first.inputs, first.payload)
    requires TreeOk(second.found) && Plans(second.plan, second.inputs, second.found, second.payload) && InputsOk(second.inputs, second.payload)
    requires Records(first.rows, first.inputs, first.found, first.payload) && Records(second.rows, second.inputs, second.found, second.payload)
    ensures Follows(NOTHING, [first, second]) && Undisturbed(first.found, [first, second])
  {
    hide Plans, Left, Records, TreeOk, InputsOk;
    var steps := [first, second];
    assert steps[1..] == [second] && [second][1..] == [];
    assert Follows(first.rows, [second]);
    assert Undisturbed(Left(second), []) && Undisturbed(Left(first), [second]);
  }

  lemma OccupiedIsTree(name: string, mine: string)
    ensures TreeOk(Occupied(name, mine))
  {
  }

  lemma InstallRecords(name: string, entry: string, mine: string, theirs: string)
    ensures var s := InstallStep(name, entry, mine, theirs); Records(s.rows, s.inputs, s.found, s.payload)
  {
    InstallingDirectories(name, entry);
    hide Directories;
  }

  lemma UninstallRecords(name: string, theirs: string, world: World)
    ensures var s := UninstallStep(name, theirs, world); Records(s.rows, s.inputs, world, s.payload)
  {
  }
}
