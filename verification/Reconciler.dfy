/** The loops that make a plan: what is wanted in forward order, then what goes, collected and ordered. */
module Reconciler {
  import opened Wrappers
  import opened Machine
  import opened Journal
  import opened Ordering
  import opened Planner
  import opened Ledger
  import Engine

  /** Every key, once. */
  ghost predicate Lists<T(!new)>(list: seq<T>, keys: set<T>) {
    && (forall x :: x in list <==> x in keys)
    && forall i, j :: 0 <= i < j < |list| ==> list[i] != list[j]
  }

  /** An order of paths that tells any two apart: the order of their names. */
  ghost predicate IsOrder(names: (Path, Path) -> bool) {
    IsStrict(names) && forall a, b :: a == b || names(a, b) || names(b, a)
  }

  /** Component by component: one such order. */
  predicate Earlier(a: Path, b: Path) {
    b != [] && (a == [] || Before(a[0], b[0]) || (a[0] == b[0] && Earlier(a[1..], b[1..])))
  }

  lemma {:induction false} EarlierIsTotal(a: Path, b: Path)
    ensures Earlier(a, b) || Earlier(b, a) || a == b
    ensures !Earlier(a, a)
  {
    hide Before;
    if a != [] {
      BeforeIsTotal(a[0], a[0]);
      EarlierIsTotal(a[1..], a[1..]);
      if b != [] {
        BeforeIsTotal(a[0], b[0]);
        EarlierIsTotal(a[1..], b[1..]);
        assert a == [a[0]] + a[1..] && b == [b[0]] + b[1..];
      }
    }
  }

  lemma {:induction false} EarlierIsTransitive(a: Path, b: Path, c: Path)
    requires Earlier(a, b) && Earlier(b, c)
    ensures Earlier(a, c)
  {
    hide Before;
    if a != [] {
      if Before(a[0], b[0]) && Before(b[0], c[0]) {
        BeforeIsTransitive(a[0], b[0], c[0]);
      }
      if a[0] == b[0] == c[0] && Earlier(a[1..], b[1..]) && Earlier(b[1..], c[1..]) {
        EarlierIsTransitive(a[1..], b[1..], c[1..]);
      }
    }
  }

  lemma EarlierIsOrder()
    ensures IsOrder(Earlier)
  {
    hide Earlier;
    forall a: Path, b: Path
      ensures !Earlier(a, a) && (a == b || Earlier(a, b) || Earlier(b, a))
    {
      EarlierIsTotal(a, b);
    }
    forall a: Path, b: Path, c: Path | Earlier(a, b) && Earlier(b, c)
      ensures Earlier(a, c)
    {
      EarlierIsTransitive(a, b, c);
    }
  }

  function ShallowFirst(names: (Path, Path) -> bool): (Path, Path) -> bool {
    (a: Path, b: Path) => |a| < |b| || (|a| == |b| && names(a, b))
  }

  function DeepFirst(names: (Path, Path) -> bool): (Path, Path) -> bool {
    (a: Path, b: Path) => |b| < |a| || (|a| == |b| && names(b, a))
  }

  lemma OrdersAreStrict(names: (Path, Path) -> bool)
    requires IsOrder(names)
    ensures IsStrict(ShallowFirst(names)) && IsStrict(DeepFirst(names))
    ensures forall paths: set<Path> :: Separates(ShallowFirst(names), paths) && Separates(DeepFirst(names), paths) && Separates(names, paths)
  {
  }

  // ---- one operation more ----

  ghost predicate UpTo(plan: Plan, rank: nat) {
    forall i :: 0 <= i < |plan| ==> Rank(plan[i].kind) <= rank
  }

  lemma Push(plan: Plan, inputs: Inputs, world: World, payload: Payload, looked: set<Slot>, slot: Slot, kind: Kind)
    requires PlansFor(plan, inputs, world, payload, looked) && slot !in looked && Call(inputs, world, payload, slot) == Some(kind)
    requires forall i :: 0 <= i < |plan| ==> MayPrecede(plan[i].kind, kind)
    ensures PlansFor(plan + [PlannedOperation(kind, None)], inputs, world, payload, looked + {slot})
  {
    CallTargets(inputs, world, payload, slot);
    hide Call, MayPrecede;
    var more := plan + [PlannedOperation(kind, None)];
    assert Target(more, |plan|) == slot;
    forall s | s in looked + {slot} && Call(inputs, world, payload, s).Some?
      ensures Addresses(more, s)
    {
      if s in looked {
        var i :| 0 <= i < |plan| && Target(plan, i) == s;
        assert Target(more, i) == s;
      }
    }
  }

  lemma Skip(plan: Plan, inputs: Inputs, world: World, payload: Payload, looked: set<Slot>, more: set<Slot>)
    requires PlansFor(plan, inputs, world, payload, looked)
    requires forall slot <- more :: slot in looked || Call(inputs, world, payload, slot).None?
    ensures PlansFor(plan, inputs, world, payload, looked + more)
  {
    hide Call, Addresses, Ordered;
  }

  // ---- what is wanted ----

  /** The install root, then every directory around a wanted file, shallow ones first. */
  method DirectoriesFor(wanted: Wanted, files: seq<Path>, names: (Path, Path) -> bool) returns (out: seq<Path>)
    requires Lists(files, wanted.files.Keys) && IsOrder(names) && [] !in wanted.files
    ensures Sorted(out, ShallowFirst(names))
    ensures forall d :: d in out <==> d in Directories(wanted)
  {
    var found: set<Path> := {[]};
    for i := 0 to |files|
      invariant forall d :: d in found <==> d == [] || exists j, k :: 0 <= j < i && 0 <= k < |files[j]| && d == files[j][..k]
    {
      assert files[i] in files;
      ghost var before := found;
      for depth := 1 to |files[i]|
        invariant forall d :: d in found <==> d in before || exists k :: 1 <= k < depth && d == files[i][..k]
      {
        found := found + {files[i][..depth]};
      }
      assert files[i] != [] ==> files[i][..0] == [];
    }
    assert found == Directories(wanted);
    OrdersAreStrict(names);
    out := Sort(found, ShallowFirst(names));
  }

  method PlanDirectories(inputs: Inputs, world: World, ghost payload: Payload, directories: seq<Path>, ghost names: (Path, Path) -> bool)
    returns (plan: Plan, ghost looked: set<Slot>)
    requires Sorted(directories, ShallowFirst(names)) && IsOrder(names) && forall d <- directories :: Wants(inputs, DirectoryAt(d))
    ensures PlansFor(plan, inputs, world, payload, looked) && UpTo(plan, 0)
    ensures forall slot :: slot in looked <==> slot.DirectoryAt? && slot.path in directories
  {
    plan, looked := [], {};
    for i := 0 to |directories|
      invariant PlansFor(plan, inputs, world, payload, looked) && UpTo(plan, 0)
      invariant forall slot :: slot in looked <==> slot.DirectoryAt? && slot.path in directories[..i]
    {
      var d := directories[i];
      assert d in directories;
      var kind := if d in inputs.owned.directories && (!inputs.inspect || DirectoryAt(d) in world) then Keep(DirectoryAt(d))
                  else CreateDirectory(d);
      DirectoryIsNext(plan, inputs, world, payload, looked, directories, names, i, kind);
      Push(plan, inputs, world, payload, looked, DirectoryAt(d), kind);
      plan, looked := plan + [PlannedOperation(kind, None)], looked + {DirectoryAt(d)};
      assert directories[..i + 1] == directories[..i] + [d];
    }
    assert directories[..|directories|] == directories;
  }

  lemma DirectoryIsNext(plan: Plan, inputs: Inputs, world: World, payload: Payload, looked: set<Slot>, directories: seq<Path>,
                        names: (Path, Path) -> bool, i: nat, kind: Kind)
    requires Sorted(directories, ShallowFirst(names)) && IsOrder(names) && i < |directories|
    requires PlansFor(plan, inputs, world, payload, looked) && UpTo(plan, 0)
    requires forall slot :: slot in looked <==> slot.DirectoryAt? && slot.path in directories[..i]
    requires Rank(kind) == 0 && Depth(kind) == |directories[i]|
    ensures DirectoryAt(directories[i]) !in looked
    ensures forall k :: 0 <= k < |plan| ==> MayPrecede(plan[k].kind, kind)
  {
    OrdersAreStrict(names);
    hide Call, Addresses;
    forall k | 0 <= k < |plan|
      ensures MayPrecede(plan[k].kind, kind)
    {
      assert Target(plan, k) in looked;
      var j :| 0 <= j < i && directories[..i][j] == Target(plan, k).path;
      assert ShallowFirst(names)(directories[j], directories[i]);
    }
    assert forall j :: 0 <= j < i ==> ShallowFirst(names)(directories[j], directories[i]) && directories[j] != directories[i];
  }

  method PlanFiles(inputs: Inputs, world: World, payload: Payload, files: seq<Path>, so: Plan, ghost seen: set<Slot>)
    returns (plan: Plan, ghost looked: set<Slot>)
    requires inputs.wanted.Some? && Lists(files, inputs.wanted.value.files.Keys) && InputsOk(inputs, payload)
    requires PlansFor(so, inputs, world, payload, seen) && UpTo(so, 0) && forall slot <- seen :: slot.DirectoryAt?
    ensures PlansFor(plan, inputs, world, payload, looked) && UpTo(plan, 1)
    ensures forall slot :: slot in looked <==> slot in seen || (slot.FileAt? && slot.path in files)
  {
    plan, looked := so, seen;
    for i := 0 to |files|
      invariant PlansFor(plan, inputs, world, payload, looked) && UpTo(plan, 1)
      invariant forall slot :: slot in looked <==> slot in seen || (slot.FileAt? && slot.path in files[..i])
    {
      var p := files[i];
      assert p in files && p !in files[..i];
      var entry := inputs.wanted.value.files[p];
      var kind: Kind;
      if !inputs.inspect {
        kind := InstallFile(p, entry);
      } else if FileAt(p) in world && world[FileAt(p)] == payload[entry] {
        kind := Keep(FileAt(p));
      } else {
        kind := InstallFile(p, entry);
      }
      Push(plan, inputs, world, payload, looked, FileAt(p), kind);
      plan, looked := plan + [PlannedOperation(kind, None)], looked + {FileAt(p)};
      assert files[..i + 1] == files[..i] + [p];
    }
    assert files[..|files|] == files;
  }

  /** A wanted value is kept if it is there, set if it is missing, new or still what was written, else left as somebody made it. */
  method DecideValue(inputs: Inputs, world: World, ghost payload: Payload, n: Name) returns (kind: Kind)
    requires inputs.wanted.Some? && n in inputs.wanted.value.values
    ensures Call(inputs, world, payload, SlotOf(n)) == Some(kind) && Rank(kind) == 2
  {
    var slot, data, owned := SlotOf(n), inputs.wanted.value.values[n], inputs.owned.values;
    var current := Look(world, slot);
    if n in owned {
      if current == Some(data) {
        return Keep(slot);
      } else if current.None? || current == Some(owned[n].written) || inputs.overwrite {
        return SetValue(n.key, n.name, data);
      } else {
        return Keep(slot);
      }
    } else if current == Some(data) {
      return Keep(slot);
    } else {
      return SetValue(n.key, n.name, data);
    }
  }

  lemma NotLookedYet(looked: set<Slot>, seen: set<Slot>, values: seq<Name>, i: nat)
    requires i < |values| && values[i] !in values[..i] && forall slot <- seen :: !slot.ValueAt?
    requires forall slot :: slot in looked <==> slot in seen || (slot.ValueAt? && Name(slot.key, slot.name) in values[..i])
    ensures SlotOf(values[i]) !in looked
  {
  }

  method PlanValues(inputs: Inputs, world: World, ghost payload: Payload, values: seq<Name>, so: Plan, ghost seen: set<Slot>)
    returns (plan: Plan, ghost looked: set<Slot>)
    requires inputs.wanted.Some? && Lists(values, inputs.wanted.value.values.Keys)
    requires PlansFor(so, inputs, world, payload, seen) && UpTo(so, 1) && forall slot <- seen :: !slot.ValueAt?
    ensures PlansFor(plan, inputs, world, payload, looked) && UpTo(plan, 2)
    ensures forall slot :: slot in looked <==> slot in seen || (slot.ValueAt? && Name(slot.key, slot.name) in values)
  {
    hide Call, Wants;
    plan, looked := so, seen;
    for i := 0 to |values|
      invariant PlansFor(plan, inputs, world, payload, looked) && UpTo(plan, 2)
      invariant forall slot :: slot in looked <==> slot in seen || (slot.ValueAt? && Name(slot.key, slot.name) in values[..i])
    {
      var n := values[i];
      assert n in values && n !in values[..i];
      var slot := SlotOf(n);
      var kind := DecideValue(inputs, world, payload, n);
      NotLookedYet(looked, seen, values, i);
      Push(plan, inputs, world, payload, looked, slot, kind);
      plan, looked := plan + [PlannedOperation(kind, None)], looked + {slot};
      assert values[..i + 1] == values[..i] + [n];
    }
    assert values[..|values|] == values;
  }

  // ---- what goes ----

  method RemoveValues(inputs: Inputs, world: World, ghost payload: Payload, values: seq<Name>, so: Plan, ghost seen: set<Slot>)
    returns (plan: Plan, ghost looked: set<Slot>)
    requires Lists(values, inputs.owned.values.Keys)
    requires PlansFor(so, inputs, world, payload, seen) && UpTo(so, 2)
    requires forall n <- values :: SlotOf(n) in seen <==> Wants(inputs, SlotOf(n))
    ensures PlansFor(plan, inputs, world, payload, looked) && UpTo(plan, 3)
    ensures forall slot :: slot in looked <==> slot in seen || (slot.ValueAt? && Name(slot.key, slot.name) in values)
  {
    plan, looked := so, seen;
    for i := 0 to |values|
      invariant PlansFor(plan, inputs, world, payload, looked) && UpTo(plan, 3)
      invariant forall slot :: slot in looked <==> slot in seen || (slot.ValueAt? && Name(slot.key, slot.name) in values[..i])
    {
      var n := values[i];
      assert n in values && n !in values[..i];
      var slot, record := SlotOf(n), inputs.owned.values[n];
      if !Wants(inputs, slot) && Look(world, slot) == Some(record.written) {
        var kind := RemoveValue(n.key, n.name, record.written, record.restore);
        Push(plan, inputs, world, payload, looked, slot, kind);
        plan := plan + [PlannedOperation(kind, None)];
      } else {
        Skip(plan, inputs, world, payload, looked, {slot});
      }
      looked := looked + {slot};
      assert values[..i + 1] == values[..i] + [n];
    }
    assert values[..|values|] == values;
  }

  /** What becomes of an owned file: it is wanted, gone already, changed by somebody, or removed. */
  lemma FileGoes(inputs: Inputs, world: World, payload: Payload, p: Path)
    requires p in inputs.owned.files
    ensures var call := Call(inputs, world, payload, FileAt(p));
            if Wants(inputs, FileAt(p)) then call != Some(RemoveFile(p)) && !Modified(inputs, world, p)
            else if FileAt(p) !in world then call == None && !Modified(inputs, world, p)
            else if world[FileAt(p)] != inputs.owned.files[p] then call == None && Modified(inputs, world, p)
            else call == Some(RemoveFile(p)) && !Modified(inputs, world, p)
  {
  }

  /** The owned files that go, and the directories that stay with a file somebody changed. */
  method FilesToRemove(inputs: Inputs, world: World, ghost payload: Payload, files: seq<Path>)
    returns (going: set<Path>, preserved: set<Path>)
    requires Lists(files, inputs.owned.files.Keys)
    ensures forall p :: p in going <==> p in inputs.owned.files && Call(inputs, world, payload, FileAt(p)) == Some(RemoveFile(p))
    ensures forall d :: d in preserved <==> Preserved(inputs, world, d)
    ensures forall p <- inputs.owned.files :: p in going || Wants(inputs, FileAt(p)) || Call(inputs, world, payload, FileAt(p)).None?
  {
    hide Call, Wants, Modified, IsAround;
    going, preserved := {}, {};
    for i := 0 to |files|
      invariant forall p :: p in going <==> p in files[..i] && Call(inputs, world, payload, FileAt(p)) == Some(RemoveFile(p))
      invariant forall d :: d in preserved <==> StaysWith(inputs, world, files[..i], d)
      invariant forall p <- files[..i] :: p in going || Wants(inputs, FileAt(p)) || Call(inputs, world, payload, FileAt(p)).None?
    {
      var p := files[i];
      assert p in files && files[..i + 1] == files[..i] + [p];
      FileGoes(inputs, world, payload, p);
      StaysWithNext(inputs, world, files[..i], p);
      AroundIsPrefix(p);
      if Wants(inputs, FileAt(p)) || FileAt(p) !in world {
        continue;
      }
      if world[FileAt(p)] != inputs.owned.files[p] {
        preserved := preserved + ({[]} + set k | 0 <= k < |p| :: p[..k]);
      } else {
        going := going + {p};
      }
    }
    assert files[..|files|] == files;
    forall d
      ensures d in preserved <==> Preserved(inputs, world, d)
    {
      StaysWithIsPreserved(inputs, world, files, d);
    }
  }

  ghost predicate StaysWith(inputs: Inputs, world: World, files: seq<Path>, d: Path) {
    exists p <- files :: Modified(inputs, world, p) && (d == [] || IsAround(d, p))
  }

  lemma StaysWithNext(inputs: Inputs, world: World, files: seq<Path>, p: Path)
    ensures forall d :: StaysWith(inputs, world, files + [p], d) <==>
                        StaysWith(inputs, world, files, d) || (Modified(inputs, world, p) && (d == [] || IsAround(d, p)))
  {
    hide Modified, IsAround;
    assert p in files + [p];
  }

  lemma StaysWithIsPreserved(inputs: Inputs, world: World, files: seq<Path>, d: Path)
    requires Lists(files, inputs.owned.files.Keys)
    ensures StaysWith(inputs, world, files, d) <==> Preserved(inputs, world, d)
  {
    hide Modified, IsAround;
    assert forall p :: Modified(inputs, world, p) ==> p in inputs.owned.files by {
      OnlyOwnedAreModified(inputs, world);
    }
  }

  lemma OnlyOwnedAreModified(inputs: Inputs, world: World)
    ensures forall p :: Modified(inputs, world, p) ==> p in inputs.owned.files
  {
    hide Wants;
  }

  lemma AroundIsPrefix(p: Path)
    ensures forall d :: d in {[]} + (set k | 0 <= k < |p| :: p[..k]) <==> d == [] || IsAround(d, p)
  {
  }

  method RemoveFiles(inputs: Inputs, world: World, ghost payload: Payload, files: seq<Path>, so: Plan, ghost seen: set<Slot>,
                     ghost names: (Path, Path) -> bool)
    returns (plan: Plan, ghost looked: set<Slot>)
    requires IsOrder(names) && Sorted(files, names)
    requires forall p <- files :: p in inputs.owned.files && Call(inputs, world, payload, FileAt(p)) == Some(RemoveFile(p))
    requires PlansFor(so, inputs, world, payload, seen) && UpTo(so, 3) && forall p <- files :: FileAt(p) !in seen
    ensures PlansFor(plan, inputs, world, payload, looked) && UpTo(plan, 4)
    ensures forall slot :: slot in looked <==> slot in seen || (slot.FileAt? && slot.path in files)
  {
    hide Call;
    plan, looked := so, seen;
    for i := 0 to |files|
      invariant PlansFor(plan, inputs, world, payload, looked) && UpTo(plan, 4)
      invariant forall slot :: slot in looked <==> slot in seen || (slot.FileAt? && slot.path in files[..i])
    {
      var p := files[i];
      assert p in files && forall j :: 0 <= j < i ==> names(files[j], p) && files[j] != p;
      Push(plan, inputs, world, payload, looked, FileAt(p), RemoveFile(p));
      plan, looked := plan + [PlannedOperation(RemoveFile(p), None)], looked + {FileAt(p)};
      assert files[..i + 1] == files[..i] + [p];
    }
    assert files[..|files|] == files;
  }

  method RemoveDirectories(inputs: Inputs, world: World, ghost payload: Payload, directories: seq<Path>, so: Plan, ghost seen: set<Slot>,
                           ghost names: (Path, Path) -> bool)
    returns (plan: Plan, ghost looked: set<Slot>)
    requires IsOrder(names) && Sorted(directories, DeepFirst(names))
    requires forall d <- directories :: Call(inputs, world, payload, DirectoryAt(d)) == Some(RemoveDirectory(d)) && DirectoryAt(d) !in seen
    requires PlansFor(so, inputs, world, payload, seen) && UpTo(so, 4)
    ensures PlansFor(plan, inputs, world, payload, looked) && UpTo(plan, 5)
    ensures forall slot :: slot in looked <==> slot in seen || (slot.DirectoryAt? && slot.path in directories)
  {
    hide Call;
    plan, looked := so, seen;
    for i := 0 to |directories|
      invariant PlansFor(plan, inputs, world, payload, looked) && UpTo(plan, 5)
      invariant forall slot :: slot in looked <==> slot in seen || (slot.DirectoryAt? && slot.path in directories[..i])
      invariant forall k :: 0 <= k < |plan| ==> Rank(plan[k].kind) <= 4 || exists j :: 0 <= j < i && Depth(plan[k].kind) == |directories[j]|
    {
      var d := directories[i];
      assert d in directories;
      OrdersAreStrict(names);
      assert forall j :: 0 <= j < i ==> DeepFirst(names)(directories[j], d) && directories[j] != d;
      Push(plan, inputs, world, payload, looked, DirectoryAt(d), RemoveDirectory(d));
      plan, looked := plan + [PlannedOperation(RemoveDirectory(d), None)], looked + {DirectoryAt(d)};
      assert directories[..i + 1] == directories[..i] + [d];
    }
    assert directories[..|directories|] == directories;
  }

  // ---- journal batches ----

  /** A file goes by the batch it was packed in, or by having none; any other resource by its kind. */
  datatype BatchKey = FileOf(batch: nat) | Residue | OfDirectories | OfValues

  function KeyOf(kind: Kind, batchOf: Path -> Option<nat>): Option<BatchKey> {
    match kind
    case InstallFile(p, _) => Some(if batchOf(p).Some? then FileOf(batchOf(p).value) else Residue)
    case RemoveFile(p) => Some(if batchOf(p).Some? then FileOf(batchOf(p).value) else Residue)
    case CreateDirectory(_) => Some(OfDirectories)
    case RemoveDirectory(_) => Some(OfDirectories)
    case SetValue(_, _, _) => Some(OfValues)
    case RemoveValue(_, _, _, _) => Some(OfValues)
    case Keep(_) => None
  }

  /** Everything between two operations that is not kept has the key of the first. */
  ghost predicate OneRun(plan: Plan, batchOf: Path -> Option<nat>, i: nat, j: nat)
    requires i <= j < |plan|
  {
    forall k :: i <= k <= j ==> plan[k].kind.Keep? || KeyOf(plan[k].kind, batchOf) == KeyOf(plan[i].kind, batchOf)
  }

  /** Two operations share a batch exactly when they are of one run of one key; what is kept is of none and breaks no run. */
  ghost predicate BatchesOk(plan: Plan, batchOf: Path -> Option<nat>) {
    && (forall i :: 0 <= i < |plan| ==> (plan[i].batch.None? <==> plan[i].kind.Keep?))
    && forall i, j :: 0 <= i < j < |plan| && !plan[i].kind.Keep? && !plan[j].kind.Keep? ==>
         (plan[i].batch == plan[j].batch <==> OneRun(plan, batchOf, i, j))
  }

  /** The batch still open behind a plan: the key and number of its last operation that is not kept. */
  ghost predicate IsOpen(plan: Plan, batchOf: Path -> Option<nat>, current: Option<(BatchKey, nat)>) {
    if current.None? then forall i :: 0 <= i < |plan| ==> plan[i].kind.Keep?
    else exists last ::
      && 0 <= last < |plan| && !plan[last].kind.Keep? && (forall i :: last < i < |plan| ==> plan[i].kind.Keep?)
      && KeyOf(plan[last].kind, batchOf) == Some(current.value.0) && plan[last].batch == Some(current.value.1)
  }

  ghost predicate NumberedTo(plan: Plan, next: nat) {
    forall i :: 0 <= i < |plan| && plan[i].batch.Some? ==> plan[i].batch.value <= next
  }

  /** Files go together if they were packed in one batch, or both in none; directories do, and values do. */
  lemma KeysMean(a: Kind, b: Kind, batchOf: Path -> Option<nat>)
    requires !a.Keep? && !b.Keep?
    ensures KeyOf(a, batchOf) == KeyOf(b, batchOf) <==>
            || ((a.InstallFile? || a.RemoveFile?) && (b.InstallFile? || b.RemoveFile?) && batchOf(a.path) == batchOf(b.path))
            || ((a.CreateDirectory? || a.RemoveDirectory?) && (b.CreateDirectory? || b.RemoveDirectory?))
            || ((a.SetValue? || a.RemoveValue?) && (b.SetValue? || b.RemoveValue?))
  {
  }

  lemma KeyedUnlessKept(kind: Kind, batchOf: Path -> Option<nat>)
    ensures KeyOf(kind, batchOf).None? <==> kind.Keep?
  {
  }

  lemma KeptBreaksNoRun(plan: Plan, batchOf: Path -> Option<nat>, current: Option<(BatchKey, nat)>, kind: Kind)
    requires BatchesOk(plan, batchOf) && IsOpen(plan, batchOf, current) && kind.Keep?
    ensures BatchesOk(plan + [PlannedOperation(kind, None)], batchOf) && IsOpen(plan + [PlannedOperation(kind, None)], batchOf, current)
  {
    var more := plan + [PlannedOperation(kind, None)];
    forall i, j | 0 <= i < j < |more| && !more[i].kind.Keep? && !more[j].kind.Keep?
      ensures more[i].batch == more[j].batch <==> OneRun(more, batchOf, i, j)
    {
      assert j < |plan|;
      SameRun(plan, more, batchOf, i, j);
    }
    if current.Some? {
      var last :| && 0 <= last < |plan| && !plan[last].kind.Keep? && (forall i :: last < i < |plan| ==> plan[i].kind.Keep?)
                  && KeyOf(plan[last].kind, batchOf) == Some(current.value.0) && plan[last].batch == Some(current.value.1);
      assert more[last] == plan[last];
    }
  }

  lemma SameRun(plan: Plan, more: Plan, batchOf: Path -> Option<nat>, i: nat, j: nat)
    requires plan <= more && i <= j < |plan|
    ensures OneRun(plan, batchOf, i, j) <==> OneRun(more, batchOf, i, j)
  {
    hide KeyOf;
    assert forall k :: 0 <= k < |plan| ==> plan[k] == more[k];
  }

  /** The next operation goes on with the open batch exactly when it has its key, else it opens the next. */
  lemma NextBatch(plan: Plan, batchOf: Path -> Option<nat>, current: Option<(BatchKey, nat)>, next: nat, kind: Kind, batch: nat)
    requires BatchesOk(plan, batchOf) && IsOpen(plan, batchOf, current) && NumberedTo(plan, next) && !kind.Keep?
    requires batch == if current.Some? && Some(current.value.0) == KeyOf(kind, batchOf) then current.value.1 else next + 1
    ensures BatchesOk(plan + [PlannedOperation(kind, Some(batch))], batchOf)
  {
    var more := plan + [PlannedOperation(kind, Some(batch))];
    KeyedUnlessKept(kind, batchOf);
    forall i, j | 0 <= i < j < |more| && !more[i].kind.Keep? && !more[j].kind.Keep?
      ensures more[i].batch == more[j].batch <==> OneRun(more, batchOf, i, j)
    {
      if j < |plan| {
        SameRun(plan, more, batchOf, i, j);
      } else {
        LastBatch(plan, batchOf, current, next, kind, batch, i);
      }
    }
  }

  lemma LastBatch(plan: Plan, batchOf: Path -> Option<nat>, current: Option<(BatchKey, nat)>, next: nat, kind: Kind, batch: nat, i: nat)
    requires BatchesOk(plan, batchOf) && IsOpen(plan, batchOf, current) && NumberedTo(plan, next) && !kind.Keep?
    requires batch == if current.Some? && Some(current.value.0) == KeyOf(kind, batchOf) then current.value.1 else next + 1
    requires i < |plan| && !plan[i].kind.Keep?
    ensures var more := plan + [PlannedOperation(kind, Some(batch))];
            more[i].batch == Some(batch) <==> OneRun(more, batchOf, i, |plan|)
  {
    hide KeyOf, OneRun;
    assert current.Some?;
    var last :| && 0 <= last < |plan| && !plan[last].kind.Keep? && (forall k :: last < k < |plan| ==> plan[k].kind.Keep?)
                && KeyOf(plan[last].kind, batchOf) == Some(current.value.0) && plan[last].batch == Some(current.value.1);
    assert i <= last && plan[i].batch.Some? && plan[i].batch.value <= next;
    RunExtends(plan, batchOf, PlannedOperation(kind, Some(batch)), i, last);
    assert i < last ==> (plan[i].batch == plan[last].batch <==> OneRun(plan, batchOf, i, last));
  }

  lemma RunExtends(plan: Plan, batchOf: Path -> Option<nat>, op: PlannedOperation, i: nat, last: nat)
    requires i <= last < |plan| && !plan[i].kind.Keep? && !plan[last].kind.Keep? && !op.kind.Keep?
    requires forall k :: last < k < |plan| ==> plan[k].kind.Keep?
    ensures OneRun(plan + [op], batchOf, i, |plan|) <==> OneRun(plan, batchOf, i, last) && KeyOf(op.kind, batchOf) == KeyOf(plan[i].kind, batchOf)
    ensures OneRun(plan, batchOf, i, last) ==> KeyOf(plan[last].kind, batchOf) == KeyOf(plan[i].kind, batchOf)
    ensures i == last ==> OneRun(plan, batchOf, i, last)
  {
    hide KeyOf;
    var more := plan + [op];
    assert more[|plan|] == op && forall k :: 0 <= k < |plan| ==> more[k] == plan[k];
  }

  method AssignBatches(plan: Plan, batchOf: Path -> Option<nat>) returns (out: Plan)
    ensures |out| == |plan| && forall i :: 0 <= i < |plan| ==> out[i].kind == plan[i].kind
    ensures BatchesOk(out, batchOf)
  {
    hide KeyOf;
    out := [];
    var next: nat, current: Option<(BatchKey, nat)> := 0, None;
    for i := 0 to |plan|
      invariant |out| == i && forall j :: 0 <= j < i ==> out[j].kind == plan[j].kind
      invariant BatchesOk(out, batchOf) && IsOpen(out, batchOf, current) && NumberedTo(out, next)
      invariant current.Some? ==> current.value.1 <= next
    {
      var kind := plan[i].kind;
      KeyedUnlessKept(kind, batchOf);
      if kind.Keep? {
        KeptBreaksNoRun(out, batchOf, current, kind);
        out := out + [PlannedOperation(kind, None)];
        continue;
      }
      var key := KeyOf(kind, batchOf).value;
      ghost var open, upTo := current, next;
      var id: nat;
      if current.Some? && current.value.0 == key {
        id := current.value.1;
      } else {
        next := next + 1;
        current := Some((key, next));
        id := next;
      }
      NextBatch(out, batchOf, open, upTo, kind, id);
      out := out + [PlannedOperation(kind, Some(id))];
      assert out[i].kind == kind && out[i].batch == Some(id);
    }
  }

  // ---- the plan ----

  lemma BatchesDoNotMatter(plan: Plan, out: Plan, inputs: Inputs, world: World, payload: Payload)
    requires Plans(plan, inputs, world, payload) && |out| == |plan| && forall i :: 0 <= i < |plan| ==> out[i].kind == plan[i].kind
    ensures Plans(out, inputs, world, payload)
  {
    hide Call, MayPrecede;
    assert forall i :: 0 <= i < |plan| ==> Target(out, i) == Target(plan, i);
    forall slot | Call(inputs, world, payload, slot).Some?
      ensures Addresses(out, slot)
    {
      assert Addresses(plan, slot);
      var i :| 0 <= i < |plan| && Target(plan, i) == slot;
      assert Target(out, i) == slot;
    }
  }

  lemma AllIsLooked(plan: Plan, inputs: Inputs, world: World, payload: Payload, looked: set<Slot>)
    requires PlansFor(plan, inputs, world, payload, looked)
    requires forall slot :: (Wants(inputs, slot) || Owns(inputs.owned, slot)) && slot !in looked ==> Call(inputs, world, payload, slot).None?
    ensures Plans(plan, inputs, world, payload)
  {
    forall slot | Call(inputs, world, payload, slot).Some?
      ensures Addresses(plan, slot)
    {
      CallTargets(inputs, world, payload, slot);
    }
  }

  /** The owned directories that were created, are not wanted any more and do not stay with a changed file. */
  method DirectoriesToRemove(inputs: Inputs, world: World, ghost payload: Payload, directories: seq<Path>, preserved: set<Path>)
    returns (going: set<Path>)
    requires Lists(directories, inputs.owned.directories.Keys) && forall d :: d in preserved <==> Preserved(inputs, world, d)
    ensures forall d :: d in going <==> d in inputs.owned.directories && Call(inputs, world, payload, DirectoryAt(d)) == Some(RemoveDirectory(d))
    ensures forall d <- inputs.owned.directories ::
              d in going || Wants(inputs, DirectoryAt(d)) || Call(inputs, world, payload, DirectoryAt(d)).None?
  {
    hide Preserved, Directories;
    going := {};
    for i := 0 to |directories|
      invariant forall d :: d in going <==> d in directories[..i] && Call(inputs, world, payload, DirectoryAt(d)) == Some(RemoveDirectory(d))
      invariant forall d <- directories[..i] ::
                  d in going || Wants(inputs, DirectoryAt(d)) || Call(inputs, world, payload, DirectoryAt(d)).None?
    {
      var d := directories[i];
      assert d in directories && directories[..i + 1] == directories[..i] + [d];
      if inputs.owned.directories[d] && !Wants(inputs, DirectoryAt(d)) && d !in preserved {
        going := going + {d};
      }
    }
    assert directories[..|directories|] == directories;
  }

  /** Every key of what is wanted and owned, each once, in the order the metadata and the database list them. */
  datatype Listing = Listing(wantedFiles: seq<Path>, wantedValues: seq<Name>, files: seq<Path>, directories: seq<Path>, values: seq<Name>)

  ghost predicate ListingOk(listing: Listing, inputs: Inputs) {
    && (inputs.wanted.Some? ==> Lists(listing.wantedFiles, inputs.wanted.value.files.Keys)
                                && Lists(listing.wantedValues, inputs.wanted.value.values.Keys))
    && Lists(listing.files, inputs.owned.files.Keys)
    && Lists(listing.directories, inputs.owned.directories.Keys)
    && Lists(listing.values, inputs.owned.values.Keys)
  }

  method PlanWanted(inputs: Inputs, world: World, payload: Payload, listing: Listing, names: (Path, Path) -> bool)
    returns (plan: Plan, ghost looked: set<Slot>)
    requires InputsOk(inputs, payload) && ListingOk(listing, inputs) && IsOrder(names)
    ensures PlansFor(plan, inputs, world, payload, looked) && UpTo(plan, 2)
    ensures forall slot :: slot in looked <==> Wants(inputs, slot)
  {
    hide Call, Directories;
    if inputs.wanted.None? {
      return [], {};
    }
    var wanted := inputs.wanted.value;
    var directories := DirectoriesFor(wanted, listing.wantedFiles, names);
    plan, looked := PlanDirectories(inputs, world, payload, directories, names);
    plan, looked := PlanFiles(inputs, world, payload, listing.wantedFiles, plan, looked);
    plan, looked := PlanValues(inputs, world, payload, listing.wantedValues, plan, looked);
  }

  method PlanRemovals(inputs: Inputs, world: World, payload: Payload, listing: Listing, names: (Path, Path) -> bool, so: Plan,
                      ghost seen: set<Slot>)
    returns (plan: Plan)
    requires InputsOk(inputs, payload) && ListingOk(listing, inputs) && IsOrder(names)
    requires PlansFor(so, inputs, world, payload, seen) && UpTo(so, 2) && forall slot :: slot in seen <==> Wants(inputs, slot)
    ensures Plans(plan, inputs, world, payload)
  {
    hide Call, Preserved, Wants;
    ghost var looked: set<Slot>;
    plan, looked := RemoveValues(inputs, world, payload, listing.values, so, seen);
    var goingFiles, preserved := FilesToRemove(inputs, world, payload, listing.files);
    var goingDirectories := DirectoriesToRemove(inputs, world, payload, listing.directories, preserved);
    OrdersAreStrict(names);
    var files := Sort(goingFiles, names);
    var directories := Sort(goingDirectories, DeepFirst(names));
    RemovedIsUnwanted(inputs, world, payload);
    plan, looked := RemoveFiles(inputs, world, payload, files, plan, looked, names);
    plan, looked := RemoveDirectories(inputs, world, payload, directories, plan, looked, names);
    AllIsLooked(plan, inputs, world, payload, looked);
  }

  lemma RemovedIsUnwanted(inputs: Inputs, world: World, payload: Payload)
    ensures forall p :: Call(inputs, world, payload, FileAt(p)) == Some(RemoveFile(p)) ==> !Wants(inputs, FileAt(p))
    ensures forall d :: Call(inputs, world, payload, DirectoryAt(d)) == Some(RemoveDirectory(d)) ==> !Wants(inputs, DirectoryAt(d))
  {
    hide Preserved, Directories;
  }

  /** A plan of just what is called for, in an order the engine can run, in journal batches. */
  method Reconcile(inputs: Inputs, world: World, payload: Payload, listing: Listing, names: (Path, Path) -> bool, batchOf: Path -> Option<nat>)
    returns (plan: Plan)
    requires InputsOk(inputs, payload) && ListingOk(listing, inputs) && IsOrder(names)
    ensures Plans(plan, inputs, world, payload) && PlanOk(world, plan, payload) && BatchesOk(plan, batchOf)
  {
    hide Plans, PlansFor, PlanOk, BatchesOk, InputsOk, ListingOk, IsOrder, Wants;
    var collected: Plan;
    ghost var looked: set<Slot>;
    collected, looked := PlanWanted(inputs, world, payload, listing, names);
    collected := PlanRemovals(inputs, world, payload, listing, names, collected, looked);
    plan := AssignBatches(collected, batchOf);
    BatchesDoNotMatter(collected, plan, inputs, world, payload);
    ReconciledIsOk(plan, inputs, world, payload);
  }

  // ---- the rows a commit writes ----

  lemma WantedIsInstalled(inputs: Inputs, world: World, payload: Payload, slot: Slot)
    ensures var call := Call(inputs, world, payload, slot); Wants(inputs, slot) <==> call.Some? && Rank(call.value) <= 2
  {
    hide Preserved, Directories;
  }

  /** What the rows say of one wanted resource. */
  ghost predicate RowOk(rows: Owned, inputs: Inputs, world: World, payload: Payload, slot: Slot) {
    Owns(rows, slot) && Wants(inputs, slot) &&
    match slot
    case FileAt(p) => inputs.wanted.value.files[p] in payload && rows.files[p] == payload[inputs.wanted.value.files[p]]
    case DirectoryAt(d) => rows.directories[d] == DirectoryRow(inputs, world, d)
    case ValueAt(key, name) => rows.values[Name(key, name)] == ValueRow(inputs, world, Name(key, name))
  }

  lemma RowsAreRecords(rows: Owned, inputs: Inputs, world: World, payload: Payload)
    requires forall slot :: Owns(rows, slot) <==> Wants(inputs, slot)
    requires forall slot :: Owns(rows, slot) ==> RowOk(rows, inputs, world, payload, slot)
    ensures Records(rows, inputs, world, payload)
  {
    hide Wants, DirectoryRow, ValueRow;
    forall p | p in rows.files
      ensures Wants(inputs, FileAt(p)) && RowOk(rows, inputs, world, payload, FileAt(p))
    {
      assert Owns(rows, FileAt(p));
    }
    forall d | d in rows.directories
      ensures RowOk(rows, inputs, world, payload, DirectoryAt(d))
    {
      assert Owns(rows, DirectoryAt(d));
    }
    forall n | n in rows.values
      ensures Wants(inputs, SlotOf(n)) && RowOk(rows, inputs, world, payload, SlotOf(n))
    {
      assert Owns(rows, SlotOf(n));
    }
  }

  /** Only what is said of one resource changed. */
  ghost predicate Extends(more: Owned, rows: Owned, inputs: Inputs, world: World, payload: Payload, slot: Slot) {
    forall other :: other != slot ==>
      && (Owns(more, other) <==> Owns(rows, other))
      && (RowOk(rows, inputs, world, payload, other) ==> RowOk(more, inputs, world, payload, other))
  }

  lemma FileRowExtends(rows: Owned, inputs: Inputs, world: World, payload: Payload, p: Path, row: Content)
    ensures Extends(rows.(files := rows.files[p := row]), rows, inputs, world, payload, FileAt(p))
  {
    hide Wants, DirectoryRow, ValueRow;
  }

  lemma DirectoryRowExtends(rows: Owned, inputs: Inputs, world: World, payload: Payload, d: Path, row: bool)
    ensures Extends(rows.(directories := rows.directories[d := row]), rows, inputs, world, payload, DirectoryAt(d))
  {
    hide Wants, DirectoryRow, ValueRow;
  }

  lemma ValueRowExtends(rows: Owned, inputs: Inputs, world: World, payload: Payload, n: Name, row: Record)
    ensures Extends(rows.(values := rows.values[n := row]), rows, inputs, world, payload, SlotOf(n))
  {
    hide Wants, DirectoryRow, ValueRow;
  }

  /** The rows with one resource more, from the operation's kind and what was found before it. */
  method RecordOne(rows: Owned, kind: Kind, inputs: Inputs, world: World, payload: Payload) returns (more: Owned)
    requires InputsOk(inputs, payload) && Call(inputs, world, payload, kind.Target()) == Some(kind)
    ensures Rank(kind) > 2 ==> more == rows
    ensures Rank(kind) <= 2 ==> Owns(more, kind.Target()) && RowOk(more, inputs, world, payload, kind.Target())
    ensures Rank(kind) <= 2 ==> Extends(more, rows, inputs, world, payload, kind.Target())
  {
    hide Preserved, Directories, Extends;
    match kind
    case InstallFile(p, entry) =>
      more := rows.(files := rows.files[p := payload[entry]]);
      FileRowExtends(rows, inputs, world, payload, p, payload[entry]);
    case CreateDirectory(d) =>
      more := rows.(directories := rows.directories[d := DirectoryAt(d) !in world]);
      DirectoryRowExtends(rows, inputs, world, payload, d, DirectoryAt(d) !in world);
    case SetValue(key, name, data) =>
      var n := Name(key, name);
      var row := Record(data, RestoredValue(inputs.owned, world, n));
      more := rows.(values := rows.values[n := row]);
      ValueRowExtends(rows, inputs, world, payload, n, row);
    case Keep(FileAt(p)) =>
      more := rows.(files := rows.files[p := world[FileAt(p)]]);
      FileRowExtends(rows, inputs, world, payload, p, world[FileAt(p)]);
    case Keep(DirectoryAt(d)) =>
      more := rows.(directories := rows.directories[d := inputs.owned.directories[d]]);
      DirectoryRowExtends(rows, inputs, world, payload, d, inputs.owned.directories[d]);
    case Keep(ValueAt(key, name)) =>
      var n := Name(key, name);
      var written := if StaysChanged(inputs, world, n) then inputs.owned.values[n].written else inputs.wanted.value.values[n];
      var row := Record(written, RestoredValue(inputs.owned, world, n));
      more := rows.(values := rows.values[n := row]);
      ValueRowExtends(rows, inputs, world, payload, n, row);
    case RemoveFile(_) => more := rows;
    case RemoveDirectory(_) => more := rows;
    case RemoveValue(_, _, _, _) => more := rows;
  }

  /** From a plan to rows: what leaves something makes one, what takes something away makes none. */
  method RecordOwnership(plan: Plan, inputs: Inputs, world: World, payload: Payload) returns (rows: Owned)
    requires Plans(plan, inputs, world, payload) && InputsOk(inputs, payload)
    ensures Records(rows, inputs, world, payload)
  {
    hide Call, RowOk, InputsOk, Wants, Rank;
    rows := NOTHING;
    for i := 0 to |plan|
      invariant forall slot :: Owns(rows, slot) <==> exists j :: 0 <= j < i && Target(plan, j) == slot && Rank(plan[j].kind) <= 2
      invariant forall slot :: Owns(rows, slot) ==> RowOk(rows, inputs, world, payload, slot)
    {
      ghost var before := rows;
      rows := RecordOne(rows, plan[i].kind, inputs, world, payload);
      assert forall slot :: Owns(rows, slot) <==> Owns(before, slot) || (Target(plan, i) == slot && Rank(plan[i].kind) <= 2);
    }
    forall slot
      ensures Owns(rows, slot) <==> Wants(inputs, slot)
    {
      WantedIsInstalled(inputs, world, payload, slot);
      if Wants(inputs, slot) {
        assert Addresses(plan, slot);
      }
    }
    RowsAreRecords(rows, inputs, world, payload);
  }

  /** A planner that reconciles is one the engine's runs can rely on, whatever each run finds. */
  lemma ReconcilingPlannerIsOk(planner: Ledger.Planner, inputs: (World, Option<Installation>, TxnKind) -> Inputs, payload: Payload)
    requires forall world, installed, kind :: TreeOk(world) ==>
               && InputsOk(inputs(world, installed, kind), payload)
               && Plans(planner(world, installed, kind), inputs(world, installed, kind), world, payload)
    ensures PlannerOk(planner, payload, true)
  {
    hide InputsOk, Plans, PlanOk, TreeOk;
    forall world, installed, kind | TreeOk(world)
      ensures PlanOk(world, planner(world, installed, kind), payload)
    {
      ReconciledIsOk(planner(world, installed, kind), inputs(world, installed, kind), world, payload);
    }
  }

  // ---- what the engine commits is such a history ----

  /** A commit that stands, and the reconciliation it carried out. */
  ghost predicate StepOf(w: Whole, s: Step) {
    !w.undone && w.from == s.found && w.plan == s.plan && w.payload == s.payload && (w.kind.Uninstall? <==> s.inputs.wanted.None?)
  }

  ghost predicate StepsOf(commits: seq<Whole>, steps: seq<Step>) {
    |steps| == |commits| && forall k :: 0 <= k < |commits| ==> StepOf(commits[k], steps[k])
  }

  lemma {:induction false} CommitsAreUndisturbed(start: World, commits: seq<Whole>, steps: seq<Step>)
    requires Chain(start, commits) && StepsOf(commits, steps)
    ensures Undisturbed(start, steps) && WorldAfter(start, steps) == Stands(start, commits)
    decreases |commits|
  {
    if commits != [] {
      ChainRest(start, commits);
      CommitsAreUndisturbed(EndOf(commits[0]), commits[1..], steps[1..]);
      hide Reached;
      assert Left(steps[0]) == EndOf(commits[0]);
    }
  }

  lemma LastLeaves(commits: seq<Whole>, steps: seq<Step>)
    requires StepsOf(commits, steps) && commits != [] && Row(commits).None?
    ensures steps != [] && steps[|steps| - 1].inputs.wanted.None?
  {
    assert StepOf(commits[|commits| - 1], steps[|steps| - 1]);
  }

  /**
   However the engine's runs crashed and were recovered: once the installation row is gone again the machine is as it was
   exactly when no package had a file where there was one, as long as no commit was undone.
   */
  lemma EngineRestoresUnlessReplaced(engine: Engine.Engine, steps: seq<Step>)
    requires engine.Valid() && !engine.Open() && engine.commits != [] && engine.installed == None
    requires TreeOk(engine.start) && StepsOf(engine.commits, steps) && Follows(NOTHING, steps)
    ensures engine.disk.world == engine.start <==> forall p :: Claimed(steps, p) ==> FileAt(p) !in engine.start
  {
    hide Chain, Stands, Row, StepsOf, Follows, Undisturbed, WorldAfter, Claimed, TreeOk, Journal.Consistent, Journal.BacksUp;
    CommitsAreUndisturbed(engine.start, engine.commits, steps);
    LastLeaves(engine.commits, steps);
    HistoryRestoresUnlessReplaced(engine.start, steps);
  }
}
