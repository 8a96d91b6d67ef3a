/**
 What the durable journal of a transaction means: the world its plan leads to, and the invariant that ties
 every operation's recorded state to what the disk holds.
 */
module Journal {
  import opened Wrappers
  import opened Machine

  datatype PlannedOperation = PlannedOperation(kind: Kind, batch: Option<nat>)

  type Plan = seq<PlannedOperation>

  datatype OpState = Planned | Applying | Applied | RollingBack | RolledBack | RollbackFailed

  datatype Progress = Progress(state: OpState, undo: Undo)

  function Target(plan: Plan, i: nat): Slot
    requires i < |plan|
  {
    plan[i].kind.Target()
  }

  /** The world after the first `n` operations of a plan, had nothing ever interrupted it. */
  function After(origin: World, plan: Plan, n: nat, payload: Payload): World
    requires n <= |plan|
  {
    if n == 0 then origin else Effect(plan[n - 1].kind, After(origin, plan, n - 1, payload), payload)
  }

  ghost function EmptyAt(origin: World, plan: Plan, i: nat, payload: Payload): bool
    requires i < |plan|
  {
    EmptyFor(plan[i].kind, After(origin, plan, i, payload))
  }

  ghost function GoalAt(origin: World, plan: Plan, i: nat, payload: Payload): Option<Content>
    requires i < |plan|
  {
    Goal(plan[i].kind, Look(origin, Target(plan, i)), EmptyAt(origin, plan, i, payload), payload)
  }

  /** Everything lies in a directory that exists. */
  ghost predicate TreeOk(world: World) {
    && (forall slot <- world :: slot.DirectoryAt? ==> world[slot] == Folder)
    && (forall slot: Slot, d: seq<string> :: slot in world && slot.Inside(d) ==> DirectoryAt(d) in world)
  }

  ghost predicate Distinct(plan: Plan) {
    forall i, j :: 0 <= i < j < |plan| ==> Target(plan, i) != Target(plan, j)
  }

  /** A directory is created before what goes into it and removed after what comes out of it. */
  ghost predicate Nested(plan: Plan) {
    forall i: nat, j: nat ::
      (i < |plan| && j < |plan| && Target(plan, i).DirectoryAt? && Target(plan, j).Inside(Target(plan, i).path)) ==>
        && (plan[i].kind.CreateDirectory? ==> i < j)
        && (plan[i].kind.RemoveDirectory? ==> j < i)
  }

  /** What is put somewhere is put into a directory that is there by then. */
  ghost predicate Rooted(origin: World, plan: Plan, payload: Payload) {
    forall i: nat, d: seq<string> ::
      (i < |plan| && (plan[i].kind.InstallFile? || plan[i].kind.CreateDirectory?) && Target(plan, i).Inside(d)) ==>
        DirectoryAt(d) in After(origin, plan, i, payload)
  }

  /** What the planner hands to `begin`: the plan's forward order, one operation for a resource. */
  ghost predicate PlanOk(origin: World, plan: Plan, payload: Payload) {
    && Distinct(plan)
    && Nested(plan)
    && Rooted(origin, plan, payload)
    && (forall i :: 0 <= i < |plan| && plan[i].kind.InstallFile? ==> plan[i].kind.entry in payload)
    && (forall i :: 0 <= i < |plan| && plan[i].kind.Keep? ==> !plan[i].kind.slot.DirectoryAt? || plan[i].kind.slot in origin)
  }

  /** No operation of the plan can put a torn backup back. */
  ghost predicate BacksUp(origin: World, plan: Plan, payload: Payload, sameVolume: bool) {
    forall i: nat :: i < |plan| ==> BacksUpSafely(plan[i].kind, Look(origin, Target(plan, i)), payload, sameVolume)
  }

  ghost predicate AppliedAt(origin: World, plan: Plan, payload: Payload, disk: Disk, i: nat)
    requires i < |plan|
  {
    Look(disk.world, Target(plan, i)) == GoalAt(origin, plan, i, payload)
  }

  ghost predicate RestoredAt(origin: World, plan: Plan, disk: Disk, i: nat)
    requires i < |plan|
  {
    Look(disk.world, Target(plan, i)) == Look(origin, Target(plan, i))
  }

  /** One operation's recorded state against the disk. */
  ghost predicate OperationOk(kind: Kind, i: nat, progress: Progress, disk: Disk, before: Option<Content>,
                              goal: Option<Content>) {
    var found := Look(disk.world, kind.Target());
    && Recoverable(kind, i, disk, before, goal)
    && (progress.state.Planned? ==> found == before && i !in disk.backups)
    && (progress.state.Applied? ==> found == goal)
    && (progress.state.RolledBack? ==> found == before)
    && (kind.Keep? ==> progress.state.Applied?)
    && (!kind.Keep? && !progress.state.Planned? ==> progress.undo == Prepare(kind, before))
  }

  ghost predicate OperationAt(origin: World, plan: Plan, payload: Payload, disk: Disk, progress: seq<Progress>, i: nat)
    requires i < |plan| == |progress|
  {
    OperationOk(plan[i].kind, i, progress[i], disk, Look(origin, Target(plan, i)), GoalAt(origin, plan, i, payload))
  }

  ghost predicate Bystander(plan: Plan, slot: Slot) {
    forall i :: 0 <= i < |plan| ==> Target(plan, i) != slot
  }

  /** The invariant of an open transaction that started from `origin`. */
  ghost predicate Consistent(origin: World, plan: Plan, payload: Payload, disk: Disk, progress: seq<Progress>) {
    && |progress| == |plan|
    && TreeOk(origin)
    && PlanOk(origin, plan, payload)
    && (forall slot :: Bystander(plan, slot) ==> Look(disk.world, slot) == Look(origin, slot))
    && (forall k <- disk.backups :: k < |plan|)
    && (forall i: nat :: i < |plan| ==> OperationAt(origin, plan, payload, disk, progress, i))
  }

  lemma SameWorld(a: World, b: World)
    requires forall slot :: Look(a, slot) == Look(b, slot)
    ensures a == b
  {
    forall slot
      ensures slot in a <==> slot in b
      ensures slot in a ==> a[slot] == b[slot]
    {
      assert Look(a, slot) == Look(b, slot);
    }
  }

  /** After `n` operations a slot holds the goal of the one that addresses it, else what it held. */
  lemma {:induction false} AfterLook(origin: World, plan: Plan, n: nat, payload: Payload, slot: Slot)
    requires n <= |plan| && Distinct(plan)
    ensures (forall j :: 0 <= j < n ==> Target(plan, j) != slot) ==>
              Look(After(origin, plan, n, payload), slot) == Look(origin, slot)
    ensures forall j: nat :: j < n && Target(plan, j) == slot ==>
              Look(After(origin, plan, n, payload), slot) == GoalAt(origin, plan, j, payload)
  {
    if n > 0 {
      AfterLook(origin, plan, n - 1, payload, slot);
      if Target(plan, n - 1) == slot {
        assert forall j :: 0 <= j < n - 1 ==> Target(plan, j) != slot;
      }
    }
  }

  /** A plan keeps every resource inside a directory that exists. */
  lemma {:induction false} AfterKeepsTree(origin: World, plan: Plan, n: nat, payload: Payload)
    requires n <= |plan| && TreeOk(origin) && Distinct(plan) && Nested(plan) && Rooted(origin, plan, payload)
    requires forall i :: 0 <= i < |plan| && plan[i].kind.InstallFile? ==> plan[i].kind.entry in payload
    ensures TreeOk(After(origin, plan, n, payload))
  {
    if n > 0 {
      AfterKeepsTree(origin, plan, n - 1, payload);
      var world := After(origin, plan, n - 1, payload);
      var next := After(origin, plan, n, payload);
      var kind := plan[n - 1].kind;
      forall slot: Slot, d: seq<string> | slot in next && slot.Inside(d)
        ensures DirectoryAt(d) in next
      {
        if slot == kind.Target() && (kind.InstallFile? || kind.CreateDirectory?) {
          assert DirectoryAt(d) in world;
          assert DirectoryAt(d) != slot;
        } else {
          assert slot in world;
          assert DirectoryAt(d) in world;
        }
      }
    }
  }

  /** A removed directory looks as empty on the disk as it would had nothing interrupted the plan. */
  lemma EmptyAgrees(origin: World, plan: Plan, payload: Payload, disk: Disk, progress: seq<Progress>, i: nat)
    requires Consistent(origin, plan, payload, disk, progress) && i < |plan| && plan[i].kind.RemoveDirectory?
    requires forall j: nat :: j < i ==> AppliedAt(origin, plan, payload, disk, j)
    ensures Empty(disk.world, plan[i].kind.path) == EmptyAt(origin, plan, i, payload)
  {
    var world := After(origin, plan, i, payload);
    forall slot: Slot | slot.Inside(plan[i].kind.path)
      ensures Look(disk.world, slot) == Look(world, slot)
    {
      AfterLook(origin, plan, i, payload, slot);
      if Bystander(plan, slot) {
      } else {
        var j: nat :| j < |plan| && Target(plan, j) == slot;
        assert AppliedAt(origin, plan, payload, disk, j);
      }
    }
    if slot: Slot :| slot in world && slot.Inside(plan[i].kind.path) {
      assert Look(disk.world, slot) == Look(world, slot);
    }
    if slot: Slot :| slot in disk.world && slot.Inside(plan[i].kind.path) {
      assert Look(disk.world, slot) == Look(world, slot);
    }
  }

  /** A created directory is empty once everything planned after it is back as it was. */
  lemma CreatedIsEmpty(origin: World, plan: Plan, payload: Payload, disk: Disk, progress: seq<Progress>, i: nat)
    requires Consistent(origin, plan, payload, disk, progress) && i < |plan| && plan[i].kind.CreateDirectory?
    requires Target(plan, i) !in origin
    requires forall j: nat :: i < j < |plan| ==> RestoredAt(origin, plan, disk, j)
    ensures Empty(disk.world, plan[i].kind.path)
  {
    forall slot: Slot | slot.Inside(plan[i].kind.path)
      ensures Look(disk.world, slot) == Look(origin, slot)
    {
      if !Bystander(plan, slot) {
        var j: nat :| j < |plan| && Target(plan, j) == slot;
        assert RestoredAt(origin, plan, disk, j);
      }
    }
    forall slot <- disk.world
      ensures !slot.Inside(plan[i].kind.path)
    {
      assert slot.Inside(plan[i].kind.path) ==> Look(disk.world, slot) == Look(origin, slot);
    }
  }

  /** A disk that changed only where operation `i` may change it keeps every other operation's record. */
  lemma OneOperationMoves(origin: World, plan: Plan, payload: Payload, disk: Disk, progress: seq<Progress>, i: nat,
                          disk': Disk, progress': seq<Progress>)
    requires Consistent(origin, plan, payload, disk, progress) && i < |plan| == |progress'|
    requires OnlyTouches(Target(plan, i), i, disk, disk')
    requires forall j :: 0 <= j < |plan| && j != i ==> progress'[j] == progress[j]
    requires OperationAt(origin, plan, payload, disk', progress', i)
    ensures Consistent(origin, plan, payload, disk', progress')
  {
    forall k <- disk'.backups
      ensures k < |plan|
    {
      assert k == i || k in disk.backups;
    }
    forall j: nat | j < |plan|
      ensures OperationAt(origin, plan, payload, disk', progress', j)
    {
      if j != i {
        assert Target(plan, j) != Target(plan, i);
        assert OperationAt(origin, plan, payload, disk, progress, j);
      }
    }
  }

  /** What a walk over one operation's states promises, whichever way it goes. */
  ghost predicate Walks(origin: World, plan: Plan, payload: Payload, disk: Disk, progress: seq<Progress>, i: nat,
                        states: seq<Disk>)
    requires i < |plan|
  {
    forall k :: 0 <= k < |states| ==>
      OnlyTouches(Target(plan, i), i, disk, states[k]) && Consistent(origin, plan, payload, states[k], progress)
  }

  /** The mutation of an operation whose undo is durable keeps the journal true at every state it passes. */
  lemma MutationWalks(origin: World, plan: Plan, payload: Payload, disk: Disk, progress: seq<Progress>, i: nat,
                      recovering: bool, sameVolume: bool)
    requires BacksUp(origin, plan, payload, sameVolume)
    requires Consistent(origin, plan, payload, disk, progress) && i < |plan| && progress[i].state.Applying?
    requires forall j: nat :: j < i ==> AppliedAt(origin, plan, payload, disk, j)
    ensures var kind, undo := plan[i].kind, progress[i].undo;
            var states := if recovering then Reconcile(kind, undo, i, disk, payload, sameVolume)
                          else Mutation(kind, undo, i, disk, payload, sameVolume);
            && Walks(origin, plan, payload, disk, progress, i, states)
            && AppliedAt(origin, plan, payload, Last(disk, states), i)
  {
    var kind := plan[i].kind;
    var before := Look(origin, Target(plan, i));
    assert OperationAt(origin, plan, payload, disk, progress, i);
    if kind.RemoveDirectory? {
      EmptyAgrees(origin, plan, payload, disk, progress, i);
    }
    MutationIsRecoverable(kind, i, disk, before, EmptyAt(origin, plan, i, payload), payload, recovering, sameVolume);
    var states := if recovering then Reconcile(kind, progress[i].undo, i, disk, payload, sameVolume)
                  else Mutation(kind, progress[i].undo, i, disk, payload, sameVolume);
    forall k | 0 <= k < |states|
      ensures Consistent(origin, plan, payload, states[k], progress)
    {
      OneOperationMoves(origin, plan, payload, disk, progress, i, states[k], progress);
    }
  }

  /** The undo of an operation keeps the journal true at every state it passes and brings the target back. */
  lemma UndoingWalks(origin: World, plan: Plan, payload: Payload, disk: Disk, progress: seq<Progress>, i: nat, sameVolume: bool)
    requires BacksUp(origin, plan, payload, sameVolume)
    requires Consistent(origin, plan, payload, disk, progress) && i < |plan| && !plan[i].kind.Keep?
    requires progress[i].state.RollingBack?
    requires forall j: nat :: i < j < |plan| ==> RestoredAt(origin, plan, disk, j)
    ensures var steps := Undoing(plan[i].kind, progress[i].undo, i, disk, sameVolume);
            && steps.Some?
            && Walks(origin, plan, payload, disk, progress, i, steps.value)
            && RestoredAt(origin, plan, Last(disk, steps.value), i)
  {
    var kind := plan[i].kind;
    var before := Look(origin, Target(plan, i));
    assert OperationAt(origin, plan, payload, disk, progress, i);
    if kind.CreateDirectory? && before.None? {
      CreatedIsEmpty(origin, plan, payload, disk, progress, i);
    }
    UndoingRestores(kind, i, disk, before, EmptyAt(origin, plan, i, payload), payload, sameVolume);
    var states := Undoing(kind, progress[i].undo, i, disk, sameVolume).value;
    forall k | 0 <= k < |states|
      ensures Consistent(origin, plan, payload, states[k], progress)
    {
      OneOperationMoves(origin, plan, payload, disk, progress, i, states[k], progress);
    }
  }

  /** The journal once the group's undo records are in it: one durable commit. */
  function GroupApplying(plan: Plan, progress: seq<Progress>, world: World, group: seq<nat>): seq<Progress>
    requires |plan| == |progress|
  {
    seq(|progress|, j requires 0 <= j < |progress| =>
      if j in group && progress[j].state.Planned? then
        Progress(OpState.Applying, Prepare(plan[j].kind, Look(world, Target(plan, j))))
      else progress[j])
  }

  /** The journal once every operation of the group is in the given state: one durable commit. */
  function GroupState(progress: seq<Progress>, group: seq<nat>, state: OpState): seq<Progress> {
    seq(|progress|, j requires 0 <= j < |progress| => if j in group then progress[j].(state := state) else progress[j])
  }

  lemma GroupApplyingOk(origin: World, plan: Plan, payload: Payload, disk: Disk, progress: seq<Progress>, group: seq<nat>)
    requires Consistent(origin, plan, payload, disk, progress)
    requires forall j :: 0 <= j < |plan| && j in group ==> progress[j].state.Planned? || progress[j].state.Applying?
    ensures Consistent(origin, plan, payload, disk, GroupApplying(plan, progress, disk.world, group))
  {
    var marked := GroupApplying(plan, progress, disk.world, group);
    forall j: nat | j < |plan|
      ensures OperationAt(origin, plan, payload, disk, marked, j)
    {
      assert OperationAt(origin, plan, payload, disk, progress, j);
    }
  }

  lemma GroupAppliedOk(origin: World, plan: Plan, payload: Payload, disk: Disk, progress: seq<Progress>, group: seq<nat>)
    requires Consistent(origin, plan, payload, disk, progress)
    requires forall j: nat :: j < |plan| && j in group ==>
               progress[j].state.Applying? && AppliedAt(origin, plan, payload, disk, j)
    ensures Consistent(origin, plan, payload, disk, GroupState(progress, group, OpState.Applied))
  {
    var marked := GroupState(progress, group, OpState.Applied);
    forall j: nat | j < |plan|
      ensures OperationAt(origin, plan, payload, disk, marked, j)
    {
      assert OperationAt(origin, plan, payload, disk, progress, j);
    }
  }

  lemma GroupRevertingOk(origin: World, plan: Plan, payload: Payload, disk: Disk, progress: seq<Progress>,
                         group: seq<nat>, state: OpState)
    requires Consistent(origin, plan, payload, disk, progress)
    requires state.RollingBack? || state.RollbackFailed? || state.RolledBack?
    requires forall j: nat :: j < |plan| && j in group ==> !plan[j].kind.Keep? && !progress[j].state.Planned?
    requires state.RolledBack? ==> forall j: nat :: j < |plan| && j in group ==> RestoredAt(origin, plan, disk, j)
    ensures Consistent(origin, plan, payload, disk, GroupState(progress, group, state))
  {
    var marked := GroupState(progress, group, state);
    forall j: nat | j < |plan|
      ensures OperationAt(origin, plan, payload, disk, marked, j)
    {
      assert OperationAt(origin, plan, payload, disk, progress, j);
    }
  }

  lemma AppliedInJournal(origin: World, plan: Plan, payload: Payload, disk: Disk, progress: seq<Progress>, j: nat)
    requires Consistent(origin, plan, payload, disk, progress) && j < |plan| && progress[j].state.Applied?
    ensures AppliedAt(origin, plan, payload, disk, j)
  {
    assert OperationAt(origin, plan, payload, disk, progress, j);
  }

  lemma RestoredInJournal(origin: World, plan: Plan, payload: Payload, disk: Disk, progress: seq<Progress>, j: nat)
    requires Consistent(origin, plan, payload, disk, progress) && j < |plan|
    requires plan[j].kind.Keep? || progress[j].state.Planned? || progress[j].state.RolledBack?
    ensures RestoredAt(origin, plan, disk, j)
  {
    assert OperationAt(origin, plan, payload, disk, progress, j);
  }

  lemma TargetsDiffer(origin: World, plan: Plan, payload: Payload, disk: Disk, progress: seq<Progress>, i: nat, j: nat)
    requires Consistent(origin, plan, payload, disk, progress) && i < |plan| && j < |plan| && i != j
    ensures Target(plan, i) != Target(plan, j)
  {
  }

  /** A journal whose operations are all applied describes the world the plan leads to. */
  lemma AppliedIsAfter(origin: World, plan: Plan, payload: Payload, disk: Disk, progress: seq<Progress>)
    requires Consistent(origin, plan, payload, disk, progress)
    requires forall i :: 0 <= i < |plan| ==> progress[i].state.Applied?
    ensures disk.world == After(origin, plan, |plan|, payload)
  {
    forall slot
      ensures Look(disk.world, slot) == Look(After(origin, plan, |plan|, payload), slot)
    {
      AfterLook(origin, plan, |plan|, payload, slot);
      if !Bystander(plan, slot) {
        var j: nat :| j < |plan| && Target(plan, j) == slot;
        assert OperationAt(origin, plan, payload, disk, progress, j);
      }
    }
    SameWorld(disk.world, After(origin, plan, |plan|, payload));
  }

  /** A disk whose every target is back is the world the transaction started from. */
  lemma UndoneIsOrigin(origin: World, plan: Plan, payload: Payload, disk: Disk, progress: seq<Progress>)
    requires Consistent(origin, plan, payload, disk, progress)
    requires forall i: nat :: i < |plan| ==> RestoredAt(origin, plan, disk, i)
    ensures disk.world == origin
  {
    forall slot
      ensures Look(disk.world, slot) == Look(origin, slot)
    {
      if !Bystander(plan, slot) {
        var j: nat :| j < |plan| && Target(plan, j) == slot;
        assert RestoredAt(origin, plan, disk, j);
      }
    }
    SameWorld(disk.world, origin);
  }

  /** Both worlds a transaction may end in hold every resource in a directory that exists. */
  lemma JournalTrees(origin: World, plan: Plan, payload: Payload, disk: Disk, progress: seq<Progress>)
    requires Consistent(origin, plan, payload, disk, progress)
    ensures TreeOk(origin) && TreeOk(After(origin, plan, |plan|, payload))
  {
    AfterKeepsTree(origin, plan, |plan|, payload);
  }
}
