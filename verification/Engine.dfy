/**
 The transaction engine over the machine and the state database: the forward walk in commit groups, the
 commit, the reverse walk in journal batches, recovery on restart, and the runs that drive them.

 Every method takes one of three ways at each journal or mutation boundary — it passes, it fails, or the
 process is killed there — as the run's list of fates says; the contracts hold for every list.
 */
module Engine {
  import opened Wrappers
  import opened Machine
  import opened Journal
  import opened Ledger

  const GROUP_BATCHES := 8

  datatype TxnState = Running | Committed | RollingBack | RolledBack | RollbackFailed

  predicate IsOpen(state: TxnState) {
    state.Running? || state.RollingBack? || state.RollbackFailed?
  }

  datatype Transaction = Transaction(kind: TxnKind, package: Identity, license: Option<string>, state: TxnState)

  datatype Outcome = Done | Failed | Killed

  function OutcomeOf(fate: Fate): Outcome
    requires !fate.Pass?
  {
    if fate.Fail? then Failed else Killed
  }

  /** What is still ahead was ahead before. */
  predicate Later(fates: seq<Fate>, before: seq<Fate>) {
    forall f <- fates :: f in before
  }

  predicate Ascending(s: seq<nat>) {
    forall i, j :: 0 <= i < j < |s| ==> s[i] < s[j]
  }

  predicate Within(s: seq<nat>, n: nat) {
    forall i :: 0 <= i < |s| ==> s[i] < n
  }

  predicate Descending(s: seq<nat>) {
    forall i, j :: 0 <= i < j < |s| ==> s[i] > s[j]
  }

  function Flatten(units: seq<seq<nat>>): seq<nat> {
    if units == [] then [] else units[0] + Flatten(units[1..])
  }

  lemma FlattenNone()
    ensures Flatten([]) == []
  {
  }

  lemma {:induction false} FlattenAppend(units: seq<seq<nat>>, unit: seq<nat>)
    ensures Flatten(units + [unit]) == Flatten(units) + unit
  {
    if units == [] {
      assert units + [unit] == [unit];
    } else {
      assert (units + [unit])[1..] == units[1..] + [unit];
      FlattenAppend(units[1..], unit);
    }
  }

  /** The operations with something to undo: neither a keep, nor untouched, nor already back. */
  predicate Undoable(plan: Plan, progress: seq<Progress>, i: nat)
    requires i < |plan| == |progress|
  {
    !plan[i].kind.Keep? && !progress[i].state.Planned? && !progress[i].state.RolledBack?
  }

  /** A journal batch of the reverse walk: operations that share a batch, or one on its own. */
  predicate UnitOk(plan: Plan, unit: seq<nat>) {
    && |unit| > 0
    && Within(unit, |plan|)
    && (|unit| > 1 ==> forall k :: 0 <= k < |unit| ==> plan[unit[k]].batch.Some? && plan[unit[k]].batch == plan[unit[0]].batch)
  }

  function BatchOf(plan: Plan, unit: seq<nat>): Option<nat>
    requires UnitOk(plan, unit)
  {
    plan[unit[|unit| - 1]].batch
  }

  /** Journal batches, no two neighbours of one batch: each unit is all of the batch that comes together. */
  predicate UnitsOk(plan: Plan, units: seq<seq<nat>>) {
    && (forall u :: 0 <= u < |units| ==> UnitOk(plan, units[u]))
    && (forall u :: 0 < u < |units| ==> BatchOf(plan, units[u]).None? || BatchOf(plan, units[u - 1]) != BatchOf(plan, units[u]))
  }

  /** Where the next operation of the reverse walk goes: into the last unit, if that is of its batch. */
  function Placed(plan: Plan, units: seq<seq<nat>>, i: nat): seq<seq<nat>>
    requires UnitsOk(plan, units) && i < |plan|
  {
    if plan[i].batch.Some? && |units| > 0 && BatchOf(plan, units[|units| - 1]) == plan[i].batch then
      units[..|units| - 1] + [units[|units| - 1] + [i]]
    else units + [[i]]
  }

  lemma UnitGrows(plan: Plan, unit: seq<nat>, i: nat)
    requires UnitOk(plan, unit) && i < |plan| && plan[i].batch.Some? && BatchOf(plan, unit) == plan[i].batch
    ensures UnitOk(plan, unit + [i]) && BatchOf(plan, unit + [i]) == BatchOf(plan, unit)
  {
  }

  lemma UnitStarts(plan: Plan, i: nat)
    requires i < |plan|
    ensures UnitOk(plan, [i]) && BatchOf(plan, [i]) == plan[i].batch
  {
  }

  lemma PlacedIsOk(plan: Plan, units: seq<seq<nat>>, i: nat)
    requires UnitsOk(plan, units) && i < |plan|
    ensures UnitsOk(plan, Placed(plan, units, i))
  {
    UnitStarts(plan, i);
    if plan[i].batch.Some? && |units| > 0 && BatchOf(plan, units[|units| - 1]) == plan[i].batch {
      UnitGrows(plan, units[|units| - 1], i);
      hide UnitOk, BatchOf;
      LastGrows(plan, units, units[|units| - 1] + [i]);
    } else {
      hide UnitOk, BatchOf;
      OneMore(plan, units, [i]);
    }
  }

  lemma LastGrows(plan: Plan, units: seq<seq<nat>>, unit: seq<nat>)
    requires UnitsOk(plan, units) && |units| > 0 && UnitOk(plan, unit) && BatchOf(plan, unit) == BatchOf(plan, units[|units| - 1])
    ensures UnitsOk(plan, units[..|units| - 1] + [unit])
  {
    hide UnitOk, BatchOf;
  }

  lemma OneMore(plan: Plan, units: seq<seq<nat>>, unit: seq<nat>)
    requires UnitsOk(plan, units) && UnitOk(plan, unit)
    requires |units| > 0 ==> BatchOf(plan, unit).None? || BatchOf(plan, units[|units| - 1]) != BatchOf(plan, unit)
    ensures UnitsOk(plan, units + [unit])
  {
    hide UnitOk, BatchOf;
  }

  lemma PlacedFlattens(plan: Plan, units: seq<seq<nat>>, i: nat)
    requires UnitsOk(plan, units) && i < |plan|
    ensures Flatten(Placed(plan, units, i)) == Flatten(units) + [i]
  {
    hide UnitOk, BatchOf, UnitsOk, Flatten;
    FlattenAppend(units, [i]);
    if |units| > 0 {
      var front, last := units[..|units| - 1], units[|units| - 1];
      assert units == front + [last];
      FlattenAppend(front, last);
      FlattenAppend(front, last + [i]);
      assert Flatten(front) + (last + [i]) == Flatten(front) + last + [i];
    }
  }

  /** How many runs of one journal batch a group is made of. */
  function BatchRuns(plan: Plan, group: seq<nat>): nat
    requires Within(group, |plan|)
  {
    if |group| == 0 then 0
    else if |group| == 1 then 1
    else
      BatchRuns(plan, group[..|group| - 1]) +
      (if plan[group[|group| - 2]].batch == plan[group[|group| - 1]].batch then 0 else 1)
  }

  /** Everything found `applying` lies in one group of at most `GROUP_BATCHES` batch runs. */
  ghost predicate InFlight(plan: Plan, progress: seq<Progress>) {
    exists group :: Covers(plan, progress, group)
  }

  ghost predicate Covers(plan: Plan, progress: seq<Progress>, group: seq<nat>) {
    && Ascending(group) && Within(group, |plan|) && BatchRuns(plan, group) <= GROUP_BATCHES
    && forall j: nat :: j < |progress| && progress[j].state.Applying? ==> j in group
  }

  /** What is found `applying` comes before everything still planned. */
  ghost predicate InOrder(progress: seq<Progress>) {
    forall j, k :: 0 <= j < k < |progress| && progress[k].state.Applying? ==> progress[j].state.Applying? || progress[j].state.Applied?
  }

  /** The rows a transaction begins with: what is kept counts as done. */
  function Recorded(plan: Plan): (progress: seq<Progress>)
    ensures |progress| == |plan|
    ensures forall i :: 0 <= i < |plan| ==> progress[i] == Progress(if plan[i].kind.Keep? then OpState.Applied else OpState.Planned, Undo(false, None))
  {
    seq(|plan|, i requires 0 <= i < |plan| => Progress(if plan[i].kind.Keep? then OpState.Applied else OpState.Planned, Undo(false, None)))
  }

  /** A transaction just recorded: the world as it was, nothing saved, what is kept done and the rest to do. */
  lemma StartsConsistent(origin: World, plan: Plan, payload: Payload, disk: Disk, progress: seq<Progress>)
    requires TreeOk(origin) && PlanOk(origin, plan, payload) && disk == Disk(origin, map[]) && progress == Recorded(plan)
    ensures Consistent(origin, plan, payload, disk, progress)
  {
    forall i: nat | i < |plan|
      ensures OperationAt(origin, plan, payload, disk, progress, i)
    {
    }
  }

  lemma NothingInFlight(plan: Plan, progress: seq<Progress>)
    requires forall j :: 0 <= j < |progress| ==> !progress[j].state.Applying?
    ensures InFlight(plan, progress) && InOrder(progress)
  {
    assert Covers(plan, progress, []);
  }

  lemma FewerInFlight(plan: Plan, progress: seq<Progress>, progress': seq<Progress>)
    requires InFlight(plan, progress) && |progress'| == |progress|
    requires forall j :: 0 <= j < |progress| && progress'[j].state.Applying? ==> progress[j].state.Applying?
    ensures InFlight(plan, progress')
  {
    hide BatchRuns;
    var group :| Covers(plan, progress, group);
    assert Covers(plan, progress', group);
  }

  /** A group that is all there is to apply up to its end joins what is in flight, or is part of it. */
  lemma GroupInFlight(plan: Plan, progress: seq<Progress>, world: World, group: seq<nat>)
    requires |plan| == |progress| && InFlight(plan, progress) && InOrder(progress)
    requires Ascending(group) && Within(group, |plan|) && BatchRuns(plan, group) <= GROUP_BATCHES
    requires forall j :: 0 <= j < |plan| && j in group ==> progress[j].state.Planned? || progress[j].state.Applying?
    requires forall j: nat, g: nat :: g in group && j < g && j !in group ==> progress[j].state.Applied?
    ensures InFlight(plan, GroupApplying(plan, progress, world, group)) && InOrder(GroupApplying(plan, progress, world, group))
  {
    hide BatchRuns;
    var marked := GroupApplying(plan, progress, world, group);
    if a: nat :| a < |plan| && progress[a].state.Applying? && a !in group {
      forall j: nat | j < |plan| && j in group
        ensures progress[j].state.Applying?
      {
      }
      assert marked == progress;
    } else {
      assert Covers(plan, marked, group);
      forall j, k | 0 <= j < k < |marked| && marked[k].state.Applying?
        ensures marked[j].state.Applying? || marked[j].state.Applied?
      {
        assert k in group;
      }
    }
  }

  lemma GroupLands(plan: Plan, progress: seq<Progress>, group: seq<nat>)
    requires |plan| == |progress| && InFlight(plan, progress) && InOrder(progress)
    ensures InFlight(plan, GroupState(progress, group, OpState.Applied)) && InOrder(GroupState(progress, group, OpState.Applied))
  {
    hide BatchRuns;
    FewerInFlight(plan, progress, GroupState(progress, group, OpState.Applied));
  }

  /** The operations below `n` with something to undo, last first. */
  function Order(plan: Plan, progress: seq<Progress>, n: nat): seq<nat>
    requires n <= |plan| == |progress|
  {
    if n == 0 then []
    else (if Undoable(plan, progress, n - 1) then [n - 1] else []) + Order(plan, progress, n - 1)
  }

  lemma {:induction false} OrderOk(plan: Plan, progress: seq<Progress>, n: nat)
    requires n <= |plan| == |progress|
    ensures Descending(Order(plan, progress, n)) && Within(Order(plan, progress, n), n)
    ensures forall j: nat :: j < n ==> (j in Order(plan, progress, n) <==> Undoable(plan, progress, j))
  {
    if n > 0 {
      OrderOk(plan, progress, n - 1);
      var rest := Order(plan, progress, n - 1);
      assert Undoable(plan, progress, n - 1) ==> Order(plan, progress, n)[0] == n - 1;
    }
  }

  /** The reverse walk goes through what is neither kept, nor still planned, nor already back, last first. */
  lemma OrderMeans(plan: Plan, progress: seq<Progress>)
    requires |plan| == |progress|
    ensures Descending(Order(plan, progress, |plan|))
    ensures forall j: nat :: j in Order(plan, progress, |plan|) <==>
              j < |plan| && !plan[j].kind.Keep? && progress[j].state != OpState.Planned && progress[j].state != OpState.RolledBack
  {
    OrderOk(plan, progress, |plan|);
    hide Order;
  }

  /** Everything but what is still ahead in the reverse walk is as it was before the transaction. */
  ghost predicate RestoredBut(origin: World, plan: Plan, disk: Disk, ahead: seq<nat>) {
    forall j: nat :: j < |plan| && j !in ahead ==> RestoredAt(origin, plan, disk, j)
  }

  /** At the start of a reverse walk only the operations it will visit may differ from the origin. */
  lemma OrderCovers(origin: World, plan: Plan, payload: Payload, disk: Disk, progress: seq<Progress>)
    requires Consistent(origin, plan, payload, disk, progress)
    ensures var order := Order(plan, progress, |plan|);
            && Descending(order) && Within(order, |plan|)
            && (forall k :: 0 <= k < |order| ==> Undoable(plan, progress, order[k]))
            && RestoredBut(origin, plan, disk, order)
  {
    var order := Order(plan, progress, |plan|);
    OrderOk(plan, progress, |plan|);
    forall j: nat | j < |plan| && j !in order
      ensures RestoredAt(origin, plan, disk, j)
    {
      RestoredInJournal(origin, plan, payload, disk, progress, j);
    }
  }

  lemma NothingAhead(origin: World, plan: Plan, payload: Payload, disk: Disk, progress: seq<Progress>)
    requires Consistent(origin, plan, payload, disk, progress) && RestoredBut(origin, plan, disk, [])
    ensures disk.world == origin
  {
    UndoneIsOrigin(origin, plan, payload, disk, progress);
  }

  /** Of the first `i` operations only the group is still to be applied; the rest are as they were read. */
  predicate Gathered(plan: Plan, progress: seq<Progress>, operations: seq<Progress>, i: nat, group: seq<nat>) {
    && |operations| == |progress| == |plan| && i <= |plan|
    && Ascending(group) && Within(group, i) && Within(group, |plan|)
    && (forall j :: i <= j < |plan| ==> progress[j] == operations[j])
    && (forall j :: 0 <= j < i ==> if j in group then progress[j] == operations[j] && !progress[j].state.Applied?
                                   else progress[j].state.Applied?)
    && BatchRuns(plan, group) <= GROUP_BATCHES
  }

  lemma GatherNone(plan: Plan, progress: seq<Progress>, operations: seq<Progress>, i: nat)
    requires |operations| == |progress| == |plan| && i <= |plan|
    requires forall j :: i <= j < |plan| ==> progress[j] == operations[j]
    requires forall j :: 0 <= j < i ==> progress[j].state.Applied?
    ensures Gathered(plan, progress, operations, i, [])
    ensures BatchRuns(plan, []) == 0
  {
  }

  lemma GatheredMeans(plan: Plan, progress: seq<Progress>, operations: seq<Progress>, i: nat, group: seq<nat>)
    requires Gathered(plan, progress, operations, i, group)
    ensures |operations| == |progress| == |plan| && i <= |plan| && Within(group, |plan|)
    ensures BatchRuns(plan, group) <= GROUP_BATCHES
    ensures group == [] ==> BatchRuns(plan, group) == 0 && forall j :: 0 <= j < i ==> progress[j].state.Applied?
  {
  }

  lemma GatherApplied(plan: Plan, progress: seq<Progress>, operations: seq<Progress>, i: nat, group: seq<nat>)
    requires Gathered(plan, progress, operations, i, group) && i < |plan| && operations[i].state.Applied?
    ensures Gathered(plan, progress, operations, i + 1, group)
  {
  }

  /** How many batch runs a group has once operation `i` joins it. */
  function Joined(plan: Plan, group: seq<nat>, i: nat): nat
    requires Within(group, |plan|) && i < |plan|
  {
    BatchRuns(plan, group) + (if |group| == 0 || plan[group[|group| - 1]].batch != plan[i].batch then 1 else 0)
  }

  lemma GatherNext(plan: Plan, progress: seq<Progress>, operations: seq<Progress>, i: nat, group: seq<nat>)
    requires Gathered(plan, progress, operations, i, group) && i < |plan| && !operations[i].state.Applied?
    requires Joined(plan, group, i) <= GROUP_BATCHES
    ensures Gathered(plan, progress, operations, i + 1, group + [i])
    ensures BatchRuns(plan, group + [i]) == Joined(plan, group, i)
  {
    var joined := group + [i];
    assert BatchRuns(plan, joined) == Joined(plan, group, i) by {
      assert joined[..|joined| - 1] == group;
    }
    hide BatchRuns;
    assert Within(joined, i + 1);
    assert Ascending(joined);
    forall j | 0 <= j < i + 1
      ensures if j in joined then progress[j] == operations[j] && !progress[j].state.Applied? else progress[j].state.Applied?
    {
      if j < i {
        assert j in joined <==> j in group;
      } else {
        assert joined[|group|] == i;
      }
    }
  }

  lemma NextUnit(units: seq<seq<nat>>, u: nat, order: seq<nat>, at: nat)
    requires u < |units| && at <= |order| && Flatten(units[u..]) == order[at..]
    ensures at + |units[u]| <= |order| && order[at..at + |units[u]|] == units[u]
    ensures Flatten(units[u + 1..]) == order[at + |units[u]|..]
  {
    assert units[u..][0] == units[u] && units[u..][1..] == units[u + 1..];
    var rest := order[at..];
    assert rest == units[u] + Flatten(units[u + 1..]);
    assert order[at..at + |units[u]|] == rest[..|units[u]|];
    assert order[at + |units[u]|..] == rest[|units[u]|..];
  }

  class Engine {
    /** The machine and the staging area. */
    var disk: Disk
    /** The journal of the last transaction begun. */
    var txn: Transaction
    var plan: Plan
    var progress: seq<Progress>
    /** The installation row. */
    var installed: Option<Installation>
    /** The operations an armed fault names, and what happens at the boundaries still ahead. */
    var boundaries: set<nat>
    var fates: seq<Fate>
    /** Whether the staging area lies on the volume of the files it backs up. */
    const sameVolume: bool

    /** The world the transaction started from, and what its package carries. */
    ghost var origin: World
    ghost var payload: Payload
    /** The world before the first commit, and every commit since. */
    ghost const start: World
    ghost var commits: seq<Whole>

    predicate Open()
      reads this`txn
    {
      IsOpen(txn.state)
    }

    ghost predicate Journaled()
      reads this`disk, this`txn, this`plan, this`progress, this`origin, this`payload
    {
      && BacksUp(origin, plan, payload, sameVolume)
      && |progress| == |plan|
      && Consistent(origin, plan, payload, disk, progress)
      && InFlight(plan, progress)
      && (txn.state.Running? ==> InOrder(progress))
      && (txn.state.Running? ==>
            forall i :: 0 <= i < |progress| ==>
              progress[i].state.Planned? || progress[i].state.Applying? || progress[i].state.Applied?)
    }

    /** The transaction at hand, as it is once committed. */
    ghost function AtHand(): Whole
      reads this`txn, this`plan, this`origin, this`payload
    {
      Whole(origin, plan, payload, txn.kind, txn.package, txn.license, false)
    }

    /** The transaction at hand, if it is open and may still be committed. */
    ghost function Pending(): Option<Whole>
      reads this`txn, this`plan, this`origin, this`payload
    {
      if txn.state.Running? then Some(AtHand()) else None
    }

    /** What stands when no transaction is open: what the commits lead to. */
    ghost function Standing(): World
      reads this`commits
    {
      Stands(start, commits)
    }

    /**
     The commits follow one another and the row is the last one's. With no transaction open the machine is what they lead
     to; with one open it started from there, and the journal is true.
     */
    ghost predicate Valid()
      reads this
    {
      && Chain(start, commits) && installed == Row(commits)
      && (Open() ==> Journaled() && origin == Standing())
      && (!Open() ==> TreeOk(disk.world) && disk.world == Standing())
    }

    /** A machine TigerSetup has not installed anything on. */
    constructor (world: World, oneVolume: bool)
      requires TreeOk(world)
      ensures Valid() && !Open() && disk == Disk(world, map[]) && start == world && commits == [] && installed == None
      ensures sameVolume == oneVolume && fates == []
    {
      disk := Disk(world, map[]);
      txn := Transaction(TxnKind.Install, Identity("", "", ""), None, TxnState.RolledBack);
      plan, progress, installed, boundaries, fates := [], [], None, {}, [];
      sameVolume := oneVolume;
      origin, payload, start, commits := world, map[], world, [];
    }

    method At() returns (fate: Fate)
      modifies this`fates
      ensures fate == (if old(fates) == [] then Pass else old(fates)[0])
      ensures fates == (if old(fates) == [] then [] else old(fates)[1..])
      ensures Later(fates, old(fates))
    {
      if fates == [] {
        return Pass;
      }
      fate := fates[0];
      fates := fates[1..];
    }

    /** One operation's mutation, its undo record being durable; `recovering` inspects the target first. */
    method Mutate(i: nat, recovering: bool, bytes: Payload) returns (o: Outcome)
      requires Journaled() && bytes == payload && i < |plan| && progress[i].state.Applying?
      requires forall j: nat :: j < i ==> AppliedAt(origin, plan, payload, disk, j)
      modifies this`disk, this`fates
      ensures Journaled()
      ensures OnlyTouches(Target(plan, i), i, old(disk), disk)
      ensures o.Done? ==> AppliedAt(origin, plan, payload, disk, i)
      ensures Later(fates, old(fates))
      ensures old(fates) == [] ==> o.Done? && fates == []
    {
      hide Consistent, BacksUp, InFlight, InOrder, Mutation, Reconcile, Goal, GoalAt;
      ghost var start := disk;
      MutationWalks(origin, plan, payload, disk, progress, i, recovering, sameVolume);
      var states := if recovering then Reconcile(plan[i].kind, progress[i].undo, i, disk, bytes, sameVolume)
                    else Mutation(plan[i].kind, progress[i].undo, i, disk, bytes, sameVolume);
      for k := 0 to |states|
        invariant Journaled() && disk == Last(start, states[..k])
        invariant OnlyTouches(Target(plan, i), i, start, disk)
        invariant Later(fates, old(fates))
        invariant old(fates) == [] ==> fates == []
      {
        var fate := At();
        if !fate.Pass? {
          return OutcomeOf(fate);
        }
        disk := states[k];
      }
      assert states[..|states|] == states;
      return Done;
    }

    /** The mutations of one group in order, its undo records being durable and the ones before it applied. */
    method MutateGroup(group: seq<nat>, was: seq<Progress>, bytes: Payload) returns (o: Outcome)
      requires Journaled() && bytes == payload && Ascending(group) && Within(group, |plan|) && |was| == |plan|
      requires forall j :: 0 <= j < |plan| && j in group ==> progress[j].state.Applying?
      requires forall j: nat, g: nat :: g in group && j < g && j !in group ==> progress[j].state.Applied?
      modifies this`disk, this`fates
      ensures Journaled()
      ensures o.Done? ==> forall j: nat :: j < |plan| && j in group ==> AppliedAt(origin, plan, payload, disk, j)
      ensures Later(fates, old(fates))
      ensures old(fates) == [] ==> o.Done? && fates == []
    {
      for k := 0 to |group|
        invariant Journaled()
        invariant forall j: nat :: j < |plan| && j in group[..k] ==> AppliedAt(origin, plan, payload, disk, j)
        invariant Later(fates, old(fates))
        invariant old(fates) == [] ==> fates == []
      {
        var i := group[k];
        assert i in group;
        forall j: nat | j < i
          ensures AppliedAt(origin, plan, payload, disk, j)
        {
          if j in group {
            var m :| 0 <= m < |group| && group[m] == j;
            assert j == group[..k][m];
          } else {
            AppliedInJournal(origin, plan, payload, disk, progress, j);
          }
        }
        ghost var reached := disk;
        var step := Mutate(i, !was[i].state.Planned?, bytes);
        if !step.Done? {
          return step;
        }
        forall j: nat | j < |plan| && j in group[..k + 1]
          ensures AppliedAt(origin, plan, payload, disk, j)
        {
          if j != i {
            assert j in group[..k];
            assert Target(plan, j) != Target(plan, i);
          }
        }
      }
      assert group[..|group|] == group;
      return Done;
    }

    /**
     One commit group: undo records, mutations in order, `applied` records. At most `GROUP_BATCHES` journal
     batches are ever found `applying` together.
     */
    method WalkGroup(group: seq<nat>, recovering: bool, bytes: Payload) returns (o: Outcome)
      requires Journaled() && txn.state.Running? && bytes == payload
      requires Ascending(group) && Within(group, |plan|)
      requires BatchRuns(plan, group) <= GROUP_BATCHES
      requires forall j :: 0 <= j < |plan| && j in group ==> !progress[j].state.Applied?
      requires forall j: nat, g: nat :: g in group && j < g && j !in group ==> progress[j].state.Applied?
      modifies this`disk, this`progress, this`fates
      ensures Journaled()
      ensures forall j :: 0 <= j < |progress| && j !in group ==> progress[j] == old(progress)[j]
      ensures o.Done? ==> forall j :: 0 <= j < |plan| && j in group ==> progress[j].state.Applied?
      ensures Later(fates, old(fates))
      ensures old(fates) == [] && (recovering || forall i :: 0 <= i < |plan| ==> i in group ==> old(progress)[i].state.Planned?) ==>
                o.Done? && fates == []
    {
      hide Consistent, BacksUp, InFlight, InOrder, BatchRuns, Ascending;
      if |group| == 0 {
        return Done;
      }
      if !recovering && exists k :: 0 <= k < |group| && progress[group[k]].state.Applying? {
        return Failed;
      }
      var fate := At();
      if !fate.Pass? {
        return OutcomeOf(fate);
      }
      var was := progress;
      GroupApplyingOk(origin, plan, payload, disk, progress, group);
      GroupInFlight(plan, progress, disk.world, group);
      progress := GroupApplying(plan, progress, disk.world, group);
      o := MutateGroup(group, was, bytes);
      if !o.Done? {
        return;
      }
      fate := At();
      if !fate.Pass? {
        return OutcomeOf(fate);
      }
      GroupAppliedOk(origin, plan, payload, disk, progress, group);
      GroupLands(plan, progress, group);
      progress := GroupState(progress, group, OpState.Applied);
    }

    /** Whether a walk that meets no fault can go on to its end. */
    ghost predicate Clear(operations: seq<Progress>, recovering: bool) {
      recovering || forall j :: 0 <= j < |operations| ==> !operations[j].state.Applying?
    }

    method FlushGroup(group: seq<nat>, recovering: bool, bytes: Payload, ghost operations: seq<Progress>, ghost i: nat)
      returns (o: Outcome)
      requires Journaled() && txn.state.Running? && bytes == payload && Gathered(plan, progress, operations, i, group)
      modifies this`disk, this`progress, this`fates
      ensures Journaled()
      ensures o.Done? ==> Gathered(plan, progress, operations, i, [])
      ensures Later(fates, old(fates))
      ensures old(fates) == [] && Clear(operations, recovering) ==> o.Done? && fates == []
    {
      hide Consistent, BacksUp, InFlight, InOrder;
      forall j: nat, g: nat | g in group && j < g && j !in group
        ensures progress[j].state.Applied?
      {
        var k :| 0 <= k < |group| && group[k] == g;
        assert j < i;
      }
      assert forall j :: 0 <= j < |plan| && j in group ==> !progress[j].state.Applied? by {
        forall j | 0 <= j < |plan| && j in group
          ensures !progress[j].state.Applied?
        {
          var k :| 0 <= k < |group| && group[k] == j;
        }
      }
      o := WalkGroup(group, recovering, bytes);
    }

    /** Walks every operation not yet applied, in groups. */
    method RunForward(recovering: bool, bytes: Payload) returns (o: Outcome)
      requires Journaled() && txn.state.Running? && bytes == payload
      modifies this`disk, this`progress, this`fates
      ensures Journaled()
      ensures o.Done? ==> forall i :: 0 <= i < |plan| ==> progress[i].state.Applied?
      ensures Later(fates, old(fates))
      ensures old(fates) == [] && Clear(old(progress), recovering) ==> o.Done? && fates == []
    {
      hide Consistent, BacksUp, InFlight, InOrder, BatchRuns, Ascending, Gathered;
      var operations := progress;
      var group: seq<nat> := [];
      var batches := 0;
      GatherNone(plan, progress, operations, 0);
      for i := 0 to |operations|
        invariant Journaled() && Gathered(plan, progress, operations, i, group)
        invariant Within(group, |plan|) && BatchRuns(plan, group) == batches
        invariant Later(fates, old(fates))
        invariant old(fates) == [] && Clear(operations, recovering) ==> fates == []
      {
        GatheredMeans(plan, progress, operations, i, group);
        if operations[i].state.Applied? {
          GatherApplied(plan, progress, operations, i, group);
          continue;
        }
        var alone := plan[i].batch.None? || i in boundaries;
        var newBatch := |group| == 0 || plan[group[|group| - 1]].batch != plan[i].batch;
        if alone || (newBatch && batches == GROUP_BATCHES) {
          o := FlushGroup(group, recovering, bytes, operations, i);
          if !o.Done? {
            return;
          }
          GatheredMeans(plan, progress, operations, i, []);
          group, batches, newBatch := [], 0, true;
        }
        GatherNext(plan, progress, operations, i, group);
        GatheredMeans(plan, progress, operations, i + 1, group + [i]);
        group, batches := group + [i], if newBatch then batches + 1 else batches;
        if alone {
          o := FlushGroup(group, recovering, bytes, operations, i + 1);
          if !o.Done? {
            return;
          }
          GatheredMeans(plan, progress, operations, i + 1, []);
          group, batches := [], 0;
        }
      }
      GatheredMeans(plan, progress, operations, |operations|, group);
      o := FlushGroup(group, recovering, bytes, operations, |operations|);
      if o.Done? {
        GatheredMeans(plan, progress, operations, |operations|, []);
      }
    }

    /** The units of the reverse walk, last first: the operations of one journal batch, or one on its own. */
    method BuildUnits() returns (units: seq<seq<nat>>)
      requires |progress| == |plan|
      ensures Flatten(units) == Order(plan, progress, |plan|)
      ensures UnitsOk(plan, units)
    {
      hide UnitOk, BatchOf, Flatten, Undoable;
      units := [];
      FlattenNone();
      for i := |plan| downto 0
        invariant Flatten(units) + Order(plan, progress, i) == Order(plan, progress, |plan|)
        invariant UnitsOk(plan, units)
      {
        if !Undoable(plan, progress, i) {
          continue;
        }
        PlacedIsOk(plan, units, i);
        PlacedFlattens(plan, units, i);
        assert Flatten(units) + ([i] + Order(plan, progress, i)) == Flatten(units) + [i] + Order(plan, progress, i);
        if plan[i].batch.Some? && |units| > 0 && BatchOf(plan, units[|units| - 1]) == plan[i].batch {
          units := units[..|units| - 1] + [units[|units| - 1] + [i]];
        } else {
          units := units + [[i]];
        }
      }
    }

    /** One target put back, from any state its mutation or an earlier undo stopped in; no other target moves. */
    method UndoOne(i: nat) returns (o: Outcome)
      requires Journaled() && i < |plan| && !plan[i].kind.Keep? && progress[i].state.RollingBack?
      requires forall j: nat :: i < j < |plan| ==> RestoredAt(origin, plan, disk, j)
      modifies this`disk, this`fates
      ensures Journaled()
      ensures OnlyTouches(Target(plan, i), i, old(disk), disk)
      ensures o.Done? ==> RestoredAt(origin, plan, disk, i)
      ensures Later(fates, old(fates))
      ensures old(fates) == [] ==> o.Done? && fates == []
    {
      hide Consistent, BacksUp, InFlight, InOrder, Undoing;
      ghost var start := disk;
      UndoingWalks(origin, plan, payload, disk, progress, i, sameVolume);
      var steps := Undoing(plan[i].kind, progress[i].undo, i, disk, sameVolume);
      var states := steps.value;
      for k := 0 to |states|
        invariant Journaled() && disk == Last(start, states[..k])
        invariant OnlyTouches(Target(plan, i), i, start, disk)
        invariant Later(fates, old(fates))
        invariant old(fates) == [] ==> fates == []
      {
        var fate := At();
        if !fate.Pass? {
          return OutcomeOf(fate);
        }
        disk := states[k];
      }
      assert states[..|states|] == states;
      var fate := At();
      return if fate.Pass? then Done else OutcomeOf(fate);
    }

    /** Records that an undo failed, of the operation first and then of its transaction. */
    method FailUndo(i: nat) returns (o: Outcome)
      requires Journaled() && txn.state.RollingBack? && i < |plan| && !plan[i].kind.Keep? && !progress[i].state.Planned?
      modifies this`progress, this`txn, this`fates
      ensures Journaled() && txn == old(txn).(state := txn.state) && !o.Done?
      ensures txn.state.RollingBack? || (txn.state.RollbackFailed? && o.Failed?)
      ensures Later(fates, old(fates))
    {
      hide Consistent, BacksUp, InFlight, InOrder;
      var fate := At();
      if !fate.Pass? {
        return OutcomeOf(fate);
      }
      GroupRevertingOk(origin, plan, payload, disk, progress, [i], OpState.RollbackFailed);
      FewerInFlight(plan, progress, GroupState(progress, [i], OpState.RollbackFailed));
      progress := GroupState(progress, [i], OpState.RollbackFailed);
      fate := At();
      if !fate.Pass? {
        return OutcomeOf(fate);
      }
      txn := txn.(state := TxnState.RollbackFailed);
      return Failed;
    }

    /** Undoes the operations of one unit, last first. */
    method UndoEach(unit: seq<nat>, ghost order: seq<nat>, ghost at: nat) returns (o: Outcome)
      requires Journaled() && txn.state.RollingBack?
      requires Descending(order) && Within(order, |plan|)
      requires at + |unit| <= |order| && order[at..at + |unit|] == unit
      requires forall j: nat :: j < |plan| && j in unit ==> !plan[j].kind.Keep? && progress[j].state.RollingBack?
      requires RestoredBut(origin, plan, disk, order[at..])
      modifies this`disk, this`progress, this`txn, this`fates
      ensures Journaled() && txn == old(txn).(state := txn.state)
      ensures txn.state.RollingBack? || (txn.state.RollbackFailed? && o.Failed?)
      ensures o.Done? ==> progress == old(progress) && RestoredBut(origin, plan, disk, order[at + |unit|..])
      ensures Later(fates, old(fates))
      ensures old(fates) == [] ==> o.Done? && fates == []
    {
      hide Consistent, BacksUp, InFlight, InOrder;
      for k := 0 to |unit|
        invariant Journaled() && progress == old(progress) && txn == old(txn)
        invariant RestoredBut(origin, plan, disk, order[at + k..])
        invariant Later(fates, old(fates))
        invariant old(fates) == [] ==> fates == []
      {
        var i := unit[k];
        assert i == order[at..at + |unit|][k] == order[at + k];
        assert i in unit;
        forall j: nat | i < j < |plan|
          ensures RestoredAt(origin, plan, disk, j)
        {
          assert j !in order[at + k..];
        }
        ghost var reached := disk;
        o := UndoOne(i);
        if o.Failed? {
          o := FailUndo(i);
          return;
        }
        if o.Killed? {
          return;
        }
        forall j: nat | j < |plan| && j !in order[at + k + 1..]
          ensures RestoredAt(origin, plan, disk, j)
        {
          if j != i {
            assert order[at + k..] == [i] + order[at + k + 1..];
            assert RestoredAt(origin, plan, reached, j);
            TargetsDiffer(origin, plan, payload, disk, progress, i, j);
          }
        }
      }
      return Done;
    }

    /**
     One unit of the reverse walk: rolling back in one commit, undone in reverse, rolled back in one more. A failed undo
     is recorded of the operation, then of the transaction; any of these commits may fail or be the last thing done.
     */
    method UndoUnit(unit: seq<nat>, ghost order: seq<nat>, ghost at: nat) returns (o: Outcome)
      requires Journaled() && txn.state.RollingBack? && UnitOk(plan, unit)
      requires Descending(order) && Within(order, |plan|)
      requires at + |unit| <= |order| && order[at..at + |unit|] == unit
      requires forall k :: at <= k < |order| ==> Undoable(plan, progress, order[k])
      requires RestoredBut(origin, plan, disk, order[at..])
      modifies this`disk, this`progress, this`txn, this`fates
      ensures Journaled() && txn == old(txn).(state := txn.state)
      ensures txn.state.RollingBack? || (txn.state.RollbackFailed? && o.Failed?)
      ensures o.Done? ==> forall k :: at + |unit| <= k < |order| ==> Undoable(plan, progress, order[k])
      ensures o.Done? ==> RestoredBut(origin, plan, disk, order[at + |unit|..])
      ensures Later(fates, old(fates))
      ensures old(fates) == [] ==> o.Done? && fates == []
    {
      hide Consistent, BacksUp, InFlight, InOrder;
      forall j: nat | j < |plan| && j in unit
        ensures !plan[j].kind.Keep? && !progress[j].state.Planned?
      {
        var k :| 0 <= k < |unit| && unit[k] == j;
        assert order[at..at + |unit|][k] == order[at + k];
      }
      var fate := At();
      if !fate.Pass? {
        return OutcomeOf(fate);
      }
      GroupRevertingOk(origin, plan, payload, disk, progress, unit, OpState.RollingBack);
      FewerInFlight(plan, progress, GroupState(progress, unit, OpState.RollingBack));
      progress := GroupState(progress, unit, OpState.RollingBack);
      o := UndoEach(unit, order, at);
      if !o.Done? {
        return;
      }
      forall j: nat | j < |plan| && j in unit
        ensures RestoredAt(origin, plan, disk, j)
      {
        var k :| 0 <= k < |unit| && unit[k] == j;
        assert order[at..at + |unit|][k] == order[at + k];
      }
      fate := At();
      if !fate.Pass? {
        return OutcomeOf(fate);
      }
      GroupRevertingOk(origin, plan, payload, disk, progress, unit, OpState.RolledBack);
      FewerInFlight(plan, progress, GroupState(progress, unit, OpState.RolledBack));
      progress := GroupState(progress, unit, OpState.RolledBack);
      forall k | at + |unit| <= k < |order|
        ensures Undoable(plan, progress, order[k])
      {
        assert order[k] !in unit;
      }
      return Done;
    }

    /**
     Ends in the origin from every journal it can find, its own earlier attempts included; a stop can be followed by
     another. Its first mark undoes the commit of a committed transaction.
     */
    method Rollback() returns (o: Outcome)
      requires Journaled() && (txn.state.Committed? ==> commits != [] && commits[|commits| - 1] == AtHand())
      modifies this`disk, this`progress, this`txn, this`commits, this`fates
      ensures AtHand() == old(AtHand())
      ensures txn == old(txn).(state := txn.state)
      ensures o.Done? ==> txn.state.RolledBack? && disk.world == origin
      ensures !o.Done? ==> Journaled()
      ensures !o.Done? ==> txn.state.RollingBack? || txn.state.RollbackFailed?
                           || (txn == old(txn) && disk == old(disk) && progress == old(progress))
      ensures if old(txn).state.Committed? && !txn.state.Committed?
              then commits == LastUndone(old(commits))
              else commits == old(commits)
      ensures Later(fates, old(fates))
      ensures old(fates) == [] ==> o.Done? && fates == []
    {
      hide Consistent, BacksUp, InFlight, InOrder, Order, Descending, RestoredBut, UnitOk, Undoable;
      if !txn.state.RollingBack? {
        var fate := At();
        if !fate.Pass? {
          return OutcomeOf(fate);
        }
        if txn.state.Committed? {
          commits := LastUndone(commits);
        }
        txn := txn.(state := TxnState.RollingBack);
      }
      o := ReverseWalk();
    }

    /** The reverse walk of a transaction that is marked as rolling back, unit by unit to its last record. */
    method ReverseWalk() returns (o: Outcome)
      requires Journaled() && txn.state.RollingBack?
      modifies this`disk, this`progress, this`txn, this`fates
      ensures txn == old(txn).(state := txn.state)
      ensures o.Done? ==> txn.state.RolledBack? && disk.world == origin
      ensures !o.Done? ==> Journaled() && (txn.state.RollingBack? || txn.state.RollbackFailed?)
      ensures Later(fates, old(fates))
      ensures old(fates) == [] ==> o.Done? && fates == []
    {
      hide Consistent, BacksUp, InFlight, InOrder, Order, Descending, RestoredBut, UnitOk, Undoable;
      OrderCovers(origin, plan, payload, disk, progress);
      var units := BuildUnits();
      ghost var order := Order(plan, progress, |plan|);
      ghost var at: nat := 0;
      assert order[0..] == order;
      for u := 0 to |units|
        invariant Journaled() && txn == old(txn)
        invariant at <= |order| && Flatten(units[u..]) == order[at..] && Within(order, |plan|)
        invariant forall k :: at <= k < |order| ==> Undoable(plan, progress, order[k])
        invariant RestoredBut(origin, plan, disk, order[at..])
        invariant Later(fates, old(fates))
        invariant old(fates) == [] ==> fates == []
      {
        var unit := units[u];
        NextUnit(units, u, order, at);
        o := UndoUnit(unit, order, at);
        if !o.Done? {
          return;
        }
        at := at + |unit|;
      }
      assert order[at..] == [];
      NothingAhead(origin, plan, payload, disk, progress);
      var fate := At();
      if !fate.Pass? {
        return OutcomeOf(fate);
      }
      txn := txn.(state := TxnState.RolledBack);
      return Done;
    }

    /** World, row and transaction change hands in one step; the step behind it can still fail, and then both are true. */
    method Commit() returns (o: Outcome)
      requires Journaled() && txn.state.Running? && forall i :: 0 <= i < |plan| ==> progress[i].state.Applied?
      modifies this`txn, this`installed, this`commits, this`fates
      ensures AtHand() == old(AtHand())
      ensures o.Done? ==> txn.state.Committed?
      ensures o.Failed? && txn.state.Committed? ==> Fail in old(fates)
      ensures (o.Failed? && txn.state.Committed?) <==> |old(fates)| > 1 && old(fates)[0].Pass? && old(fates)[1].Fail?
      ensures |old(fates)| > 1 ==> fates == old(fates)[if old(fates)[0].Pass? then 2 else 1..]
      ensures !txn.state.Committed? ==> txn == old(txn) && installed == old(installed) && commits == old(commits)
      ensures txn.state.Committed? ==>
                && txn == old(txn).(state := TxnState.Committed)
                && commits == old(commits) + [old(AtHand())] && installed == RowOf(old(AtHand()))
                && disk.world == After(origin, plan, |plan|, payload)
      ensures Later(fates, old(fates))
      ensures old(fates) == [] ==> o.Done? && fates == []
    {
      hide Consistent, BacksUp, InFlight, InOrder;
      var fate := At();
      if !fate.Pass? {
        return OutcomeOf(fate);
      }
      AppliedIsAfter(origin, plan, payload, disk, progress);
      txn := txn.(state := TxnState.Committed);
      installed := if txn.kind.Uninstall? then None else Some(Installation(txn.package.version, txn.license));
      commits := commits + [AtHand()];
      fate := At();
      return if fate.Pass? then Done else OutcomeOf(fate);
    }

    method Cleanup()
      modifies this`disk
      ensures disk == old(disk).(backups := map[])
    {
      disk := disk.(backups := map[]);
    }

    /** The forward walk, then the commit. */
    method Advance(recovering: bool, bytes: Payload) returns (o: Outcome)
      requires Journaled() && txn.state.Running? && bytes == payload
      modifies this`disk, this`progress, this`txn, this`installed, this`commits, this`fates
      ensures AtHand() == old(AtHand())
      ensures Journaled() && (o.Done? ==> txn.state.Committed?)
      ensures !txn.state.Committed? ==> txn == old(txn) && installed == old(installed) && commits == old(commits)
      ensures txn.state.Committed? ==>
                && txn == old(txn).(state := TxnState.Committed)
                && commits == old(commits) + [old(AtHand())] && installed == RowOf(old(AtHand()))
                && disk.world == After(origin, plan, |plan|, payload)
      ensures o.Failed? && txn.state.Committed? ==> Fail in old(fates)
      ensures Later(fates, old(fates))
      ensures old(fates) == [] && Clear(old(progress), recovering) ==> o.Done? && fates == []
    {
      hide Consistent, BacksUp, InFlight, InOrder, After;
      o := RunForward(recovering, bytes);
      if o.Done? {
        o := Commit();
      }
    }

    /** What committing the open transaction, or undoing that commit, makes of machine, row and commits. */
    lemma MayCommit()
      requires Valid() && Open()
      ensures Journaled() && origin == Standing() && TreeOk(origin)
      ensures Promise(AtHand()) == After(origin, plan, |plan|, payload) && TreeOk(Promise(AtHand()))
      ensures var done, undone := commits + [AtHand()], commits + [AtHand().(undone := true)];
              && done != commits && undone != commits && done != undone && LastUndone(done) == undone
              && Chain(start, done) && Stands(start, done) == Promise(AtHand()) && Row(done) == RowOf(AtHand())
              && Chain(start, undone) && Stands(start, undone) == origin && Row(undone) == RowOf(AtHand())
    {
      hide Consistent, BacksUp, InFlight, InOrder, TreeOk, After, Chain;
      JournalTrees(origin, plan, payload, disk, progress);
      CommitIsOneMore(start, commits, AtHand());
    }

    /**
     Forward to the commit; on an error back, whatever the error followed. Finished, the world is the one the plan leads
     to or the one before. The installation row is apart from it exactly when a commit was undone that had changed it.
     */
    method Transact(recovering: bool, bytes: Payload) returns (o: Outcome)
      requires Valid() && Open() && txn.state.Running? && bytes == payload
      modifies this`disk, this`progress, this`txn, this`installed, this`commits, this`fates
      ensures AtHand() == old(AtHand())
      ensures Valid() && txn == old(txn).(state := txn.state)
      ensures o.Done? ==> !Open()
      ensures Adds(old(commits), old(AtHand()), commits)
      ensures txn.state.Committed? <==> commits == old(commits) + [old(AtHand())]
      ensures txn.state.Running? ==> commits == old(commits)
      ensures o.Done? ==> disk.world == if txn.state.Committed? then After(origin, plan, |plan|, payload) else old(Standing())
      ensures !Open() && commits != old(commits) ==>
                (disk.world != Promise(old(AtHand())) <==> !txn.state.Committed? && Promise(old(AtHand())) != origin)
      ensures commits != old(commits) && !txn.state.Committed? ==> Fail in old(fates)
      ensures Later(fates, old(fates))
      ensures old(fates) == [] && Clear(old(progress), recovering) ==> o.Done? && fates == [] && txn.state.Committed?
    {
      hide Journaled, TreeOk, After, Chain, LastUndone, Stands, Row, RowOf, AtHand, Clear;
      MayCommit();
      o := Advance(recovering, bytes);
      if o.Failed? {
        o := Rollback();
      }
      if o.Done? {
        var fate := At();
        if fate.Kill? {
          return Killed;
        }
        Cleanup();
      }
    }

    /** Inserts the transaction and its operations in one commit: keeps `applied`, the rest `planned`. */
    method Begin(package: Package, kind: TxnKind, operations: Plan, license: Option<string>)
      requires Valid() && !Open() && PlanOk(disk.world, operations, package.payload) && BacksUp(disk.world, operations, package.payload, sameVolume)
      modifies this`txn, this`plan, this`progress, this`disk, this`origin, this`payload
      ensures Valid() && txn == Transaction(kind, package.identity, license, TxnState.Running) && plan == operations
      ensures origin == disk.world == old(disk).world && payload == package.payload
      ensures Clear(progress, false)
    {
      txn := Transaction(kind, package.identity, license, TxnState.Running);
      plan, disk := operations, disk.(backups := map[]);
      progress := Recorded(operations);
      origin, payload := disk.world, package.payload;
      NothingInFlight(plan, progress);
      hide BacksUp, InFlight, InOrder, PlanOk, TreeOk;
      StartsConsistent(origin, plan, payload, disk, progress);
    }

    /** Removes the backups no journal row references; under the invariant there are none. */
    method Sweep()
      requires Journaled()
      modifies this`disk
      ensures disk == old(disk)
    {
      var orphans := set k | k in disk.backups && (k >= |progress| || progress[k].state.Planned? || !progress[k].undo.existed);
      forall k | k in disk.backups
        ensures k < |progress| && !progress[k].state.Planned? && progress[k].undo.existed
      {
        assert OperationAt(origin, plan, payload, disk, progress, k);
      }
      assert orphans == {};
      disk := disk.(backups := disk.backups - orphans);
    }

    /**
     Reconciles an open transaction: forward when the running package is the one it was planned from and it is
     still running, back otherwise.
     */
    method Recover(package: Package) returns (o: Outcome)
      requires Valid() && (Open() && package.identity == txn.package ==> package.payload == payload)
      modifies this`disk, this`progress, this`txn, this`installed, this`commits, this`fates
      ensures AtHand() == old(AtHand())
      ensures Valid() && txn == old(txn).(state := txn.state)
      ensures o.Done? ==> !Open()
      ensures if old(txn).state.Running? && old(txn).package == package.identity then Adds(old(commits), old(AtHand()), commits)
              else commits == old(commits)
      ensures txn.state.Running? ==> old(txn).state.Running? && commits == old(commits)
      ensures !old(Open()) ==> o.Done? && txn == old(txn) && disk.world == old(disk).world && fates == old(fates)
      ensures o.Done? && old(Open()) ==>
                disk.world == if txn.state.Committed? then After(origin, plan, |plan|, payload) else old(Standing())
      ensures commits == old(commits) + [old(AtHand()).(undone := true)] ==> Fail in old(fates)
      ensures Later(fates, old(fates))
      ensures old(fates) == [] ==> o.Done? && fates == []
    {
      hide Consistent, BacksUp, InFlight, InOrder, TreeOk, After, Chain;
      if !Open() {
        Cleanup();
        return Done;
      }
      var fate := At();
      if !fate.Pass? {
        return OutcomeOf(fate);
      }
      Sweep();
      if txn.state.Running? && txn.package == package.identity {
        o := Transact(true, package.payload);
      } else {
        JournalTrees(origin, plan, payload, disk, progress);
        o := Rollback();
        if o.Done? {
          Cleanup();
        }
      }
    }

    /** One transaction from its plan to its outcome; anything before `begin` may stop it with nothing changed. */
    method RunTransaction(package: Package, kind: TxnKind, license: Option<string>, planner: Planner) returns (o: Outcome)
      requires Valid() && !Open() && PlannerOk(planner, package.payload, sameVolume)
      modifies this
      ensures Valid() && (o.Done? ==> !Open())
      ensures var from := old(disk).world;
              var w := Whole(from, planner(from, old(installed), kind), package.payload, kind, package.identity, license, false);
              && Adds(old(commits), w, commits)
              && (Open() ==> AtHand() == w)
              && (o.Done? ==> disk.world == if commits == old(commits) + [w] then Promise(w) else from)
              && (commits == old(commits) + [w.(undone := true)] ==> Fail in old(fates))
              && (old(fates) == [] ==> o.Done? && fates == [] && commits == old(commits) + [w])
      ensures txn.state.Running? ==> commits == old(commits)
      ensures |old(fates)| > 0 && !old(fates)[0].Pass? ==>
                o == OutcomeOf(old(fates)[0]) && disk == old(disk) && txn == old(txn) && plan == old(plan) && progress == old(progress)
                && installed == old(installed) && commits == old(commits)
      ensures Later(fates, old(fates))
    {
      hide Consistent, BacksUp, InFlight, InOrder, PlanOk, TreeOk, After, Chain;
      var fate := At();
      if !fate.Pass? {
        return OutcomeOf(fate);
      }
      Begin(package, kind, planner(disk.world, installed, kind), license);
      o := Transact(false, package.payload);
    }

    /** Installs, upgrades or reconciles the package on a machine with no transaction open. */
    method InstallNow(package: Package, options: Options, planner: Planner) returns (o: Outcome)
      requires Valid() && !Open() && PlannerOk(planner, package.payload, sameVolume)
      modifies this
      ensures Valid() && (o.Done? ==> !Open())
      ensures var w := Made(ToInstall, package, options, planner, old(disk).world, old(installed));
              && Adds(old(commits), w, commits)
              && (Open() ==> AtHand() == w)
              && (commits == old(commits) + [w.(undone := true)] ==> Fail in old(fates))
              && (old(fates) == [] ==>
                    o.Done? && commits == old(commits) +
                      if old(installed).Some? && old(installed).value.version == package.identity.version && !options.explicit
                         && (options.quiet || !options.licenseAccepted || package.license.None?
                             || package.license == old(installed).value.license)
                      then [] else [w])
      ensures txn.state.Running? ==> commits == old(commits)
      ensures Later(fates, old(fates))
    {
      hide Journaled, PlannerOk, TreeOk, After, Chain, Stands;
      var fate := At();
      if !fate.Pass? {
        return OutcomeOf(fate);
      }
      var accepted := AcceptedLicense(package, options);
      if installed.Some? && installed.value.version == package.identity.version && !options.explicit
         && (accepted.None? || accepted == installed.value.license) {
        return Done;
      }
      var kind := if installed.None? then TxnKind.Install else
                  if installed.value.version == package.identity.version then Reinstall else Upgrade;
      var license := if accepted.Some? || installed.None? then accepted else installed.value.license;
      o := RunTransaction(package, kind, license, planner);
    }

    /** Reconciles the installation of a machine with no transaction open. */
    method RepairNow(package: Package, options: Options, planner: Planner) returns (o: Outcome)
      requires Valid() && !Open() && PlannerOk(planner, package.payload, sameVolume)
      modifies this
      ensures Valid() && (o.Done? ==> !Open() && installed.Some?)
      ensures old(installed).None? ==> o.Failed? && disk == old(disk) && txn == old(txn) && commits == old(commits) && fates == old(fates)
      ensures var w := Made(ToRepair, package, options, planner, old(disk).world, old(installed));
              && Adds(old(commits), w, commits)
              && (Open() ==> AtHand() == w)
              && (commits == old(commits) + [w.(undone := true)] ==> Fail in old(fates))
              && (old(fates) == [] && old(installed).Some? ==> o.Done? && commits == old(commits) + [w])
      ensures txn.state.Running? ==> commits == old(commits)
      ensures Later(fates, old(fates))
    {
      hide Journaled, PlannerOk, TreeOk, After, Chain, Stands;
      if installed.None? {
        return Failed;
      }
      var accepted := AcceptedLicense(package, options);
      var kind := if installed.value.version == package.identity.version then TxnKind.Repair else Upgrade;
      o := RunTransaction(package, kind, if accepted.Some? then accepted else installed.value.license, planner);
    }

    /** Installs, upgrades or reconciles the package, after recovering what an earlier run left open. */
    method Install(package: Package, options: Options, planner: Planner) returns (o: Outcome, ghost recovered: seq<Whole>)
      requires Valid() && (Open() && package.identity == txn.package ==> package.payload == payload)
      requires PlannerOk(planner, package.payload, sameVolume)
      modifies this
      ensures Valid() && (o.Done? ==> !Open() && disk.world == Stands(start, commits))
      ensures if old(txn).state.Running? && old(txn).package == package.identity then Adds(old(commits), old(AtHand()), recovered)
              else recovered == old(commits)
      ensures Ran(recovered, Made(ToInstall, package, options, planner, Stands(start, recovered), Row(recovered)), old(commits), old(AtHand()), old(txn).state)
      ensures AnyUndone(old(commits), commits) ==> Fail in old(fates)
      ensures Later(fates, old(fates))
      ensures old(fates) == [] ==>
                commits == recovered +
                  if Row(recovered).Some? && Row(recovered).value.version == package.identity.version && !options.explicit
                     && (options.quiet || !options.licenseAccepted || package.license.None?
                         || package.license == Row(recovered).value.license)
                  then [] else [Made(ToInstall, package, options, planner, Stands(start, recovered), Row(recovered))]
      ensures old(fates) == [] ==>
                && o.Done? && installed.Some? && installed.value.version == package.identity.version
                && (!options.quiet && options.licenseAccepted && package.license.Some? ==> installed.value.license == package.license)
                && (options.quiet || !options.licenseAccepted ==> installed.value.license == LicenseIn(Row(recovered)))
    {
      hide Journaled, PlannerOk, TreeOk, After, Chain, Promise;
      ghost var found := AtHand();
      o := Recover(package);
      recovered := commits;
      ghost var own := Made(ToInstall, package, options, planner, Stands(start, recovered), Row(recovered));
      if o.Done? {
        o := InstallNow(package, options, planner);
      }
      UndoneIsNew(old(commits), found, recovered, own, commits);
    }

    /** Recovery, then a repair; without an installation it fails and changes no more than recovery did. */
    method Repair(package: Package, options: Options, planner: Planner) returns (o: Outcome, ghost recovered: seq<Whole>)
      requires Valid() && (Open() && package.identity == txn.package ==> package.payload == payload)
      requires PlannerOk(planner, package.payload, sameVolume)
      modifies this
      ensures Valid() && (o.Done? ==> !Open() && installed.Some? && disk.world == Stands(start, commits))
      ensures if old(txn).state.Running? && old(txn).package == package.identity then Adds(old(commits), old(AtHand()), recovered)
              else recovered == old(commits)
      ensures Ran(recovered, Made(ToRepair, package, options, planner, Stands(start, recovered), Row(recovered)), old(commits), old(AtHand()), old(txn).state)
      ensures Row(recovered).None? ==> commits == recovered
      ensures AnyUndone(old(commits), commits) ==> Fail in old(fates)
      ensures Later(fates, old(fates))
      ensures old(fates) == [] && Row(recovered).Some? ==>
                o.Done? && commits == recovered + [Made(ToRepair, package, options, planner, Stands(start, recovered), Row(recovered))]
      ensures old(fates) == [] && !old(Open()) && old(installed).Some? ==>
                && o.Done? && installed.Some? && installed.value.version == package.identity.version
                && installed.value.license == if !options.quiet && options.licenseAccepted && package.license.Some? then package.license
                                              else old(installed).value.license
    {
      hide Journaled, PlannerOk, TreeOk, After, Chain, Promise;
      ghost var found := AtHand();
      o := Recover(package);
      recovered := commits;
      ghost var own := Made(ToRepair, package, options, planner, Stands(start, recovered), Row(recovered));
      if o.Done? {
        o := RepairNow(package, options, planner);
      }
      UndoneIsNew(old(commits), found, recovered, own, commits);
    }

    /** Leaves no installation row and no accepted licence, unless stopped; with no row there is nothing to do. */
    method Uninstall(package: Package, options: Options, planner: Planner) returns (o: Outcome, ghost recovered: seq<Whole>)
      requires Valid() && (Open() && package.identity == txn.package ==> package.payload == payload)
      requires PlannerOk(planner, package.payload, sameVolume)
      modifies this
      ensures Valid() && (o.Done? ==> !Open() && disk.world == Stands(start, commits))
      ensures if old(txn).state.Running? && old(txn).package == package.identity then Adds(old(commits), old(AtHand()), recovered)
              else recovered == old(commits)
      ensures Ran(recovered, Made(ToUninstall, package, options, planner, Stands(start, recovered), Row(recovered)), old(commits), old(AtHand()), old(txn).state)
      ensures Row(recovered).None? ==> commits == recovered
      ensures AnyUndone(old(commits), commits) ==> Fail in old(fates)
      ensures Later(fates, old(fates))
      ensures old(fates) == [] && Row(recovered).Some? ==> commits == recovered + [Made(ToUninstall, package, options, planner, Stands(start, recovered), Row(recovered))]
      ensures old(fates) == [] ==> o.Done? && installed == None
    {
      hide Journaled, PlannerOk, TreeOk, After, Chain, Promise;
      ghost var found := AtHand();
      o := Recover(package);
      recovered := commits;
      ghost var own := Made(ToUninstall, package, options, planner, Stands(start, recovered), Row(recovered));
      if o.Done? && installed.Some? {
        o := RunTransaction(package, TxnKind.Uninstall, None, planner);
      }
      UndoneIsNew(old(commits), found, recovered, own, commits);
    }

    /**
     A run after its recovery: it committed its own transaction, undone or not, or nothing; and a transaction still open is
     its own, or the one it found open, with nothing committed and no rollback turned round.
     */
    ghost predicate Ran(recovered: seq<Whole>, own: Whole, before: seq<Whole>, found: Whole, state: TxnState)
      reads this
    {
      && Adds(recovered, own, commits)
      && (txn.state.Running? ==> commits == recovered)
      && (Open() && AtHand() != own ==>
            && AtHand() == found && IsOpen(state) && commits == recovered
            && (txn.state.Running? ==> state.Running? && recovered == before))
    }

    /** One run as it is asked for, with its armed fault. */
    method Run(r: Request) returns (o: Outcome, ghost recovered: seq<Whole>)
      requires Valid() && (Open() && r.package.identity == txn.package ==> r.package.payload == payload)
      requires PlannerOk(r.planner, r.package.payload, sameVolume)
      modifies this
      ensures Valid() && (o.Done? ==> !Open() && disk.world == Stands(start, commits))
      ensures if old(txn).state.Running? && old(txn).package == r.package.identity then Adds(old(commits), old(AtHand()), recovered)
              else recovered == old(commits)
      ensures Ran(recovered, MadeBy(r, start, recovered), old(commits), old(AtHand()), old(txn).state)
      ensures AnyUndone(old(commits), commits) ==> Fail in r.fates
    {
      hide Consistent, BacksUp, InFlight, InOrder, PlannerOk, TreeOk, Chain, Stands, Row, Made, Adds, AnyUndone, Ran, Later;
      fates, boundaries := r.fates, r.boundaries;
      match r.intent {
        case ToInstall => o, recovered := Install(r.package, r.options, r.planner);
        case ToRepair => o, recovered := Repair(r.package, r.options, r.planner);
        case ToUninstall => o, recovered := Uninstall(r.package, r.options, r.planner);
      }
    }

    /**
     Any sequence of runs with any package, intent, answer and planner, each stopped wherever its fates say. Every commit is
     that of one of the requests, what its planner makes of the world and the row that the commits before it left, or of the
     transaction found open; the machine is where they lead unless one is open, and so is the row always. Only a run that
     met a failure undoes a commit, and the hash on record was accepted in a run after which nothing uninstalled.
     */
    method Drive(requests: seq<Request>, ghost carried: Identity -> Payload) returns (ghost sources: seq<int>)
      requires Valid() && (Open() ==> payload == carried(txn.package))
      requires forall r <- requests :: r.package.payload == carried(r.package.identity)
                                       && PlannerOk(r.planner, r.package.payload, sameVolume)
      modifies this
      ensures Valid() && old(commits) <= commits
      ensures Sourced(start, commits, |old(commits)|, requests, old(Pending()), sources)
      ensures !Open() ==> disk.world == Stands(start, commits)
      ensures installed == Row(commits)
      ensures AnyUndone(old(commits), commits) ==> exists r <- requests :: Fail in r.fates
      ensures LicenseIn(installed).Some? ==>
                AcceptedSince(LicenseIn(installed).value, commits, |old(commits)|, requests, Held(commits, |old(commits)|, old(Pending())), sources)
      ensures LicenseIn(installed).Some? && (forall r <- requests :: r.options.quiet) ==>
                LicenseIn(installed) in Held(commits, |old(commits)|, old(Pending())) && NoneRemoves(commits, |old(commits)|)
    {
      hide Journaled, PlannerOk, TreeOk, After, Chain, Stands, Row, KindFor, LicenseFor, AcceptedSince, NoneRemoves, Sourced;
      sources := [];
      NoSources(start, commits, requests, Pending());
      ghost var n, open, opener: int := |commits|, Pending(), -1;
      for k := 0 to |requests|
        invariant Valid() && (Open() ==> payload == carried(txn.package)) && old(commits) <= commits
        invariant Sourced(start, commits, n, requests, open, sources) && Below(sources, k)
        invariant opener < k && (txn.state.Running? ==> OpenedBy(start, commits, requests, open, sources, opener, AtHand()))
        invariant AnyUndone(old(commits), commits) ==> exists r <- requests :: Fail in r.fates
      {
        var r := requests[k];
        ghost var before, found := commits, AtHand();
        ghost var recovered;
        var o: Outcome;
        o, recovered := Run(r);
        sources := SourcesOfRun(start, before, n, requests, open, sources, opener, found, recovered, k, commits);
        if AtHand() == MadeBy(r, start, recovered) {
          opener := k;
        }
      }
      if LicenseIn(installed).Some? {
        RecordedWasAccepted(start, commits, n, requests, open, sources);
        if forall r <- requests :: r.options.quiet {
          QuietBringsNone(LicenseIn(installed).value, commits, n, requests, Held(commits, n, open), sources);
        }
      }
    }
  }

  /**
   The one way a finished run leaves the machine and the installation row apart: an error raised after the commit
   is durable is answered by a rollback of the committed transaction.
   */
  method CommittedThenRolledBack(package: Package, name: string, entry: string) returns (engine: Engine)
    requires entry in package.payload
    ensures !engine.Open() && engine.txn.state.RolledBack? && FileAt([name]) !in engine.disk.world
    ensures engine.installed == Some(Installation(package.identity.version, None))
    ensures |engine.commits| == 1 && engine.commits[0].undone && FileAt([name]) in Promise(engine.commits[0])
  {
    hide Consistent, PlanOk, BacksUp, InFlight, InOrder, TreeOk;
    RootIsTree();
    engine := new Engine(map[DirectoryAt([]) := Folder], true);
    OneFilePlan(name, entry, package.payload);
    engine.Begin(package, TxnKind.Install, [PlannedOperation(InstallFile([name], entry), Some(1))], None);
    var o := engine.RunForward(false, package.payload);
    engine.fates := [Pass, Fail];
    o := engine.Commit();
    o := engine.Rollback();
  }

  lemma RootIsTree()
    ensures TreeOk(map[DirectoryAt([]) := Folder])
  {
  }

  lemma OneFilePlan(name: string, entry: string, payload: Payload)
    requires entry in payload
    ensures var origin: World := map[DirectoryAt([]) := Folder];
            var plan := [PlannedOperation(InstallFile([name], entry), Some(1))];
            && PlanOk(origin, plan, payload) && BacksUp(origin, plan, payload, true)
            && FileAt([name]) !in origin && FileAt([name]) in After(origin, plan, 1, payload)
  {
    var origin: World := map[DirectoryAt([]) := Folder];
    var plan := [PlannedOperation(InstallFile([name], entry), Some(1))];
    assert After(origin, plan, 0, payload) == origin;
    assert After(origin, plan, 1, payload) == Effect(plan[0].kind, origin, payload);
  }
}
