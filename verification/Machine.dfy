/**
 What one journaled operation does to the machine: the mutation, its undo record and its undo, each as
 the list of states the disk passes through, because a crash may leave any one of them behind.
 */
module Machine {
  import opened Wrappers

  /** A place an operation addresses. A registry value and an environment variable are both `ValueAt`. */
  datatype Slot = FileAt(path: seq<string>) | DirectoryAt(path: seq<string>) | ValueAt(key: string, name: string) {
    /** Whether the slot lies directly inside the directory. */
    predicate Inside(directory: seq<string>) {
      !ValueAt? && |path| > 0 && path[..|path| - 1] == directory
    }
  }

  /** A file is known by its SHA-256, as the journal knows it; `Torn` is a copy that was cut short. */
  datatype Content = Bytes(sha256: string) | Torn | Data(kind: string, text: string) | Folder

  type World = map<Slot, Content>

  type Payload = map<string, Content>

  datatype Kind =
    | InstallFile(path: seq<string>, entry: string)
    | RemoveFile(path: seq<string>)
    | CreateDirectory(path: seq<string>)
    | RemoveDirectory(path: seq<string>)
    | SetValue(key: string, name: string, data: Content)
    | RemoveValue(key: string, name: string, written: Content, restore: Option<Content>)
    | Keep(slot: Slot)
  {
    function Target(): Slot {
      match this
      case InstallFile(path, _) => FileAt(path)
      case RemoveFile(path) => FileAt(path)
      case CreateDirectory(path) => DirectoryAt(path)
      case RemoveDirectory(path) => DirectoryAt(path)
      case SetValue(key, name, _) => ValueAt(key, name)
      case RemoveValue(key, name, _, _) => ValueAt(key, name)
      case Keep(slot) => slot
    }

    predicate OnFile() {
      InstallFile? || RemoveFile?
    }
  }

  datatype Undo = Undo(existed: bool, previous: Option<Content>)

  /** The machine's resources and the transaction's staging area: backup `i` belongs to operation `i`. */
  datatype Disk = Disk(world: World, backups: map<nat, Content>)

  function Look(world: World, slot: Slot): Option<Content> {
    if slot in world then Some(world[slot]) else None
  }

  function Put(world: World, slot: Slot, content: Option<Content>): World {
    match content
    case Some(c) => world[slot := c]
    case None => world - {slot}
  }

  predicate Empty(world: World, directory: seq<string>) {
    forall slot <- world :: !slot.Inside(directory)
  }

  /**
   What an operation leaves at its target, from what it finds there and whether its directory is empty:
   the meaning of a plan, said without any journal.
   */
  function Goal(kind: Kind, found: Option<Content>, empty: bool, payload: Payload): Option<Content> {
    match kind
    case InstallFile(_, entry) => if entry in payload then Some(payload[entry]) else found
    case RemoveFile(_) => None
    case CreateDirectory(_) => Some(Folder)
    case RemoveDirectory(_) => if empty then None else found
    case SetValue(_, _, data) => Some(data)
    case RemoveValue(_, _, written, restore) => if found == Some(written) then restore else found
    case Keep(_) => found
  }

  predicate EmptyFor(kind: Kind, world: World) {
    kind.RemoveDirectory? && Empty(world, kind.path)
  }

  function Effect(kind: Kind, world: World, payload: Payload): World {
    Put(world, kind.Target(), Goal(kind, Look(world, kind.Target()), EmptyFor(kind, world), payload))
  }

  /** The undo record `prepare` takes by inspecting the target. */
  function Prepare(kind: Kind, found: Option<Content>): Undo {
    Undo(found.Some?, if kind.CreateDirectory? || kind.RemoveDirectory? then None else found)
  }

  /** `move_to_backup`: a rename on one volume, else a copy and a delete. */
  function MoveToBackup(disk: Disk, i: nat, slot: Slot, sameVolume: bool): seq<Disk>
    requires slot in disk.world
  {
    var moved := disk.world[slot];
    if sameVolume then
      [Disk(disk.world - {slot}, disk.backups[i := moved])]
    else
      [disk.(backups := disk.backups[i := Torn]),
       disk.(backups := disk.backups[i := moved]),
       Disk(disk.world - {slot}, disk.backups[i := moved])]
  }

  /** `commit_with_backup`: one `ReplaceFileW`, else a copy and a rename; a backup already there is kept. */
  function CommitWithBackup(disk: Disk, i: nat, slot: Slot, incoming: Content, sameVolume: bool): seq<Disk> {
    var placed := disk.world[slot := incoming];
    if slot !in disk.world || i in disk.backups then
      [disk.(world := placed)]
    else if sameVolume then
      [Disk(placed, disk.backups[i := disk.world[slot]])]
    else
      [disk.(backups := disk.backups[i := Torn]),
       disk.(backups := disk.backups[i := disk.world[slot]]),
       Disk(placed, disk.backups[i := disk.world[slot]])]
  }

  /** The states the mutation of operation `i` passes through, in order; none when it has nothing to do. */
  function Mutation(kind: Kind, undo: Undo, i: nat, disk: Disk, payload: Payload, sameVolume: bool): seq<Disk> {
    var slot := kind.Target();
    var found := Look(disk.world, slot);
    match kind
    case InstallFile(_, entry) =>
      if entry !in payload then []
      else if undo.existed then CommitWithBackup(disk, i, slot, payload[entry], sameVolume)
      else [disk.(world := disk.world[slot := payload[entry]])]
    case RemoveFile(_) =>
      if found.None? then []
      else if undo.existed && i !in disk.backups then MoveToBackup(disk, i, slot, sameVolume)
      else [disk.(world := disk.world - {slot})]
    case CreateDirectory(_) => if found.Some? then [] else [disk.(world := disk.world[slot := Folder])]
    case RemoveDirectory(path) =>
      if found.Some? && Empty(disk.world, path) then [disk.(world := disk.world - {slot})] else []
    case SetValue(_, _, data) => [disk.(world := disk.world[slot := data])]
    case RemoveValue(_, _, written, restore) =>
      if found.None? || found == restore || found != Some(written) then []
      else [disk.(world := Put(disk.world, slot, restore))]
    case Keep(_) => []
  }

  /** A restart's mutation of an operation found `applying`: inspect the target first. */
  function Reconcile(kind: Kind, undo: Undo, i: nat, disk: Disk, payload: Payload, sameVolume: bool): seq<Disk> {
    var found := Look(disk.world, kind.Target());
    if kind.InstallFile? && kind.entry in payload && found == Some(payload[kind.entry]) then []
    else if kind.RemoveFile? && found != undo.previous then []
    else Mutation(kind, undo, i, disk, payload, sameVolume)
  }

  /** `restore_from_backup`: the rename consumes the backup, the copy keeps it. */
  function RestoreFromBackup(disk: Disk, i: nat, slot: Slot, sameVolume: bool): seq<Disk>
    requires i in disk.backups
  {
    var restored := disk.world[slot := disk.backups[i]];
    if slot !in disk.world && sameVolume then
      [Disk(restored, disk.backups - {i})]
    else
      [disk.(world := restored)]
  }

  /** What a value operation wrote, as its undo reads it back from the journal row. */
  function Written(kind: Kind): Option<Content>
    requires kind.SetValue? || kind.RemoveValue?
  {
    if kind.SetValue? then Some(kind.data) else kind.restore
  }

  /** The states the undo of operation `i` passes through; `None` when the backup it needs is missing. */
  function Undoing(kind: Kind, undo: Undo, i: nat, disk: Disk, sameVolume: bool): Option<seq<Disk>> {
    var slot := kind.Target();
    var found := Look(disk.world, slot);
    match kind
    case InstallFile(_, _) => UndoingFile(undo, i, slot, disk, sameVolume)
    case RemoveFile(_) => UndoingFile(undo, i, slot, disk, sameVolume)
    case CreateDirectory(path) =>
      Some(if !undo.existed && found.Some? && Empty(disk.world, path) then
             [disk.(world := disk.world - {slot})]
           else [])
    case RemoveDirectory(_) =>
      Some(if undo.existed && found.None? then [disk.(world := disk.world[slot := Folder])] else [])
    case SetValue(_, _, _) => Some(UndoingValue(kind, undo, disk))
    case RemoveValue(_, _, _, _) => Some(UndoingValue(kind, undo, disk))
    case Keep(_) => Some([])
  }

  function UndoingFile(undo: Undo, i: nat, slot: Slot, disk: Disk, sameVolume: bool): Option<seq<Disk>> {
    if undo.existed then
      if Look(disk.world, slot) == undo.previous then Some([])
      else if i in disk.backups then Some(RestoreFromBackup(disk, i, slot, sameVolume))
      else None
    else Some(if slot in disk.world then [disk.(world := disk.world - {slot})] else [])
  }

  function UndoingValue(kind: Kind, undo: Undo, disk: Disk): seq<Disk>
    requires kind.SetValue? || kind.RemoveValue?
  {
    var found := Look(disk.world, kind.Target());
    if found == undo.previous then []
    else if found.None? || found == Written(kind) then [disk.(world := Put(disk.world, kind.Target(), undo.previous))]
    else []
  }

  /** The state a walk through `states` ends in. */
  function Last(disk: Disk, states: seq<Disk>): Disk {
    if states == [] then disk else states[|states| - 1]
  }

  /**
   Recoverable at operation `i`: the target holds what was there before, what the operation leaves, or —
   for a file — nothing yet; and whatever is no longer at the target is whole in the staging area. A copy there may
   be torn only while the target holds the old bytes and the operation leaves just those.
   */
  predicate Recoverable(kind: Kind, i: nat, disk: Disk, before: Option<Content>, goal: Option<Content>) {
    var found := Look(disk.world, kind.Target());
    && (found == before || found == goal || (kind.OnFile() && found.None?))
    && (i in disk.backups ==> kind.OnFile() && before.Some? && (before == Some(disk.backups[i]) || found == before == goal))
    && (kind.OnFile() && before.Some? && found != before ==> i in disk.backups)
  }

  /** Nothing but the target of operation `i` and its own backup differs. */
  ghost predicate OnlyTouches(slot: Slot, i: nat, disk: Disk, disk': Disk) {
    && (forall s: Slot :: s != slot ==> Look(disk'.world, s) == Look(disk.world, s))
    && (forall k: nat :: k != i ==> (k in disk'.backups <==> k in disk.backups))
    && (forall k: nat :: k != i && k in disk.backups ==> disk'.backups[k] == disk.backups[k])
  }

  /** No torn backup can be put back: the staging area is on the file's volume, or no file or the very same bytes were there. */
  predicate BacksUpSafely(kind: Kind, before: Option<Content>, payload: Payload, sameVolume: bool) {
    sameVolume || (kind.OnFile() ==> before.None? || PutsTheSame(kind, before, payload))
  }

  predicate PutsTheSame(kind: Kind, before: Option<Content>, payload: Payload) {
    kind.InstallFile? && kind.entry in payload && Some(payload[kind.entry]) == before
  }

  /**
   On one volume, or where no file or the same bytes were before, every state a mutation passes through is recoverable, and the last one
   holds the goal — from any recoverable state, so a second attempt after a crash ends where the first would have.
   */
  lemma MutationIsRecoverable(kind: Kind, i: nat, disk: Disk, before: Option<Content>, empty: bool, payload: Payload,
                              recovering: bool, sameVolume: bool)
    requires BacksUpSafely(kind, before, payload, sameVolume)
    requires kind.InstallFile? ==> kind.entry in payload
    requires kind.RemoveDirectory? ==> empty == Empty(disk.world, kind.path)
    requires !kind.Keep?
    requires kind.CreateDirectory? || kind.RemoveDirectory? ==> before.None? || before == Some(Folder)
    requires Recoverable(kind, i, disk, before, Goal(kind, before, empty, payload))
    ensures var goal := Goal(kind, before, empty, payload);
            var undo := Prepare(kind, before);
            var states := if recovering then Reconcile(kind, undo, i, disk, payload, sameVolume)
                          else Mutation(kind, undo, i, disk, payload, sameVolume);
            && (forall k :: 0 <= k < |states| ==>
                  OnlyTouches(kind.Target(), i, disk, states[k]) && Recoverable(kind, i, states[k], before, goal))
            && Look(Last(disk, states).world, kind.Target()) == goal
  {
  }

  /** Under the same condition, undoing from any recoverable state is possible and ends in what was there before. */
  lemma UndoingRestores(kind: Kind, i: nat, disk: Disk, before: Option<Content>, empty: bool, payload: Payload, sameVolume: bool)
    requires BacksUpSafely(kind, before, payload, sameVolume)
    requires kind.CreateDirectory? || kind.RemoveDirectory? ==> before.None? || before == Some(Folder)
    requires kind.CreateDirectory? && before.None? ==> Empty(disk.world, kind.path)
    requires Recoverable(kind, i, disk, before, Goal(kind, before, empty, payload))
    ensures var steps := Undoing(kind, Prepare(kind, before), i, disk, sameVolume);
            && steps.Some?
            && (forall k :: 0 <= k < |steps.value| ==>
                  && OnlyTouches(kind.Target(), i, disk, steps.value[k])
                  && Recoverable(kind, i, steps.value[k], before, Goal(kind, before, empty, payload)))
            && Look(Last(disk, steps.value).world, kind.Target()) == before
  {
  }

  // ---- on any disk, whatever anybody did to it ----

  /**
   What somebody made of a target since is left to them: a value that is neither what was written nor what is to be put back,
   a file that is not the one to be removed when a restart gets to it, a directory with something in it.
   */
  lemma OthersChangesStay(kind: Kind, undo: Undo, i: nat, disk: Disk, payload: Payload, sameVolume: bool)
    ensures var found := Look(disk.world, kind.Target());
            && (kind.RemoveValue? && found.Some? && found != Some(kind.written) ==>
                  Mutation(kind, undo, i, disk, payload, sameVolume) == [] == Reconcile(kind, undo, i, disk, payload, sameVolume))
            && (kind.SetValue? && found.Some? && found != Some(kind.data) && found != undo.previous ==>
                  Undoing(kind, undo, i, disk, sameVolume) == Some([]))
            && (kind.RemoveValue? && found.Some? && found != kind.restore && found != undo.previous ==>
                  Undoing(kind, undo, i, disk, sameVolume) == Some([]))
            && (kind.RemoveFile? && found != undo.previous ==> Reconcile(kind, undo, i, disk, payload, sameVolume) == [])
            && (kind.RemoveDirectory? && !Empty(disk.world, kind.path) ==>
                  Mutation(kind, undo, i, disk, payload, sameVolume) == [] == Reconcile(kind, undo, i, disk, payload, sameVolume))
            && (kind.CreateDirectory? && (undo.existed || !Empty(disk.world, kind.path)) ==> Undoing(kind, undo, i, disk, sameVolume) == Some([]))
  {
  }

  /** What is done is not done again: a file already there with its bytes, a target already gone or there, one already back. */
  lemma DoneIsNotRepeated(kind: Kind, undo: Undo, i: nat, disk: Disk, payload: Payload, sameVolume: bool)
    ensures var found := Look(disk.world, kind.Target());
            && (kind.InstallFile? && kind.entry in payload && found == Some(payload[kind.entry]) ==>
                  Reconcile(kind, undo, i, disk, payload, sameVolume) == [])
            && (kind.RemoveFile? && found.None? ==> Mutation(kind, undo, i, disk, payload, sameVolume) == [])
            && ((kind.CreateDirectory? && found.Some?) || (kind.RemoveDirectory? && found.None?) ==>
                  Mutation(kind, undo, i, disk, payload, sameVolume) == [])
            && (kind.RemoveValue? && (found.None? || found == kind.restore) ==> Mutation(kind, undo, i, disk, payload, sameVolume) == [])
            && (kind.OnFile() && undo.existed == found.Some? && found == undo.previous ==> Undoing(kind, undo, i, disk, sameVolume) == Some([]))
            && (kind.SetValue? || kind.RemoveValue? ==> (found == undo.previous ==> Undoing(kind, undo, i, disk, sameVolume) == Some([])))
            && (kind.RemoveDirectory? && (found.Some? || !undo.existed) ==> Undoing(kind, undo, i, disk, sameVolume) == Some([]))
  {
  }

  /** A file that is replaced is there at every instant, as the old one or the new one; on one volume in a single step. */
  lemma ReplacedAtOnce(kind: Kind, undo: Undo, i: nat, disk: Disk, payload: Payload, sameVolume: bool)
    requires kind.InstallFile? && kind.entry in payload && kind.Target() in disk.world
    ensures var states := Mutation(kind, undo, i, disk, payload, sameVolume);
            && (forall k :: 0 <= k < |states| ==>
                  Look(states[k].world, kind.Target()) == Look(disk.world, kind.Target())
                  || Look(states[k].world, kind.Target()) == Some(payload[kind.entry]))
            && (sameVolume ==> |states| == 1)
            && (undo.existed && i !in disk.backups ==>
                  i in Last(disk, states).backups && Last(disk, states).backups[i] == disk.world[kind.Target()])
  {
  }

  /** A backup that is put back stays where it was, but for one that can be moved to a target that is gone. */
  lemma BackupIsMovedOrKept(kind: Kind, undo: Undo, i: nat, disk: Disk, sameVolume: bool)
    requires kind.OnFile() && i in disk.backups && Undoing(kind, undo, i, disk, sameVolume).Some?
    ensures var last := Last(disk, Undoing(kind, undo, i, disk, sameVolume).value);
            var missing := kind.Target() !in disk.world;
            && (undo.existed && Look(disk.world, kind.Target()) != undo.previous ==>
                  Look(last.world, kind.Target()) == Some(disk.backups[i])
                  && (if sameVolume && missing then i !in last.backups else last.backups == disk.backups))
            && (!undo.existed ==> kind.Target() !in last.world && last.backups == disk.backups)
  {
  }

  /** Whether the mutation keeps the old bytes by copying them to another volume. */
  predicate CopiesBackup(kind: Kind, undo: Undo, i: nat, disk: Disk, payload: Payload, sameVolume: bool) {
    && !sameVolume && undo.existed && kind.Target() in disk.world && i !in disk.backups
    && (kind.RemoveFile? || (kind.InstallFile? && kind.entry in payload))
  }

  /** Every state a mutation passes through is recoverable exactly when no backup of other bytes is made by a copy. */
  lemma RecoverableUnlessCopied(kind: Kind, i: nat, disk: Disk, before: Option<Content>, empty: bool, payload: Payload, sameVolume: bool)
    requires kind.InstallFile? ==> kind.entry in payload
    requires kind.RemoveDirectory? ==> empty == Empty(disk.world, kind.path)
    requires !kind.Keep? && before != Some(Torn)
    requires kind.CreateDirectory? || kind.RemoveDirectory? ==> before.None? || before == Some(Folder)
    requires Recoverable(kind, i, disk, before, Goal(kind, before, empty, payload))
    ensures var states := Mutation(kind, Prepare(kind, before), i, disk, payload, sameVolume);
            (forall k :: 0 <= k < |states| ==> Recoverable(kind, i, states[k], before, Goal(kind, before, empty, payload)))
            <==> !CopiesBackup(kind, Prepare(kind, before), i, disk, payload, sameVolume) || PutsTheSame(kind, before, payload)
  {
    var undo := Prepare(kind, before);
    var states := Mutation(kind, undo, i, disk, payload, sameVolume);
    if PutsTheSame(kind, before, payload) {
      MutationIsRecoverable(kind, i, disk, before, empty, payload, false, sameVolume);
    } else if CopiesBackup(kind, undo, i, disk, payload, sameVolume) {
      assert i in states[0].backups && states[0].backups[i] == Torn;
    } else {
      assert states == Mutation(kind, undo, i, disk, payload, true);
      MutationIsRecoverable(kind, i, disk, before, empty, payload, false, true);
    }
  }

  /**
   Across volumes the same promise fails. A file is being replaced, the copy of the old bytes is cut short,
   a restart goes forward — the torn backup is taken for the whole one — and a later failure rolls back:
   the file then holds the torn bytes.
   */
  lemma TornBackupIsRestored(path: seq<string>, entry: string, stale: string, incoming: string)
    requires stale != incoming
    ensures var kind := InstallFile(path, entry);
            var payload := map[entry := Bytes(incoming)];
            var start := Disk(map[FileAt(path) := Bytes(stale)], map[]);
            var undo := Prepare(kind, Some(Bytes(stale)));
            var states := Mutation(kind, undo, 0, start, payload, false);
            && |states| == 3
            && var forward := Reconcile(kind, undo, 0, states[0], payload, false);
            && var steps := Undoing(kind, undo, 0, Last(states[0], forward), false);
            && steps.Some?
            && Look(Last(Last(states[0], forward), steps.value).world, FileAt(path)) == Some(Torn)
  {
    var kind := InstallFile(path, entry);
    var payload := map[entry := Bytes(incoming)];
    var start := Disk(map[FileAt(path) := Bytes(stale)], map[]);
    var undo := Prepare(kind, Some(Bytes(stale)));
    var states := Mutation(kind, undo, 0, start, payload, false);
    var forward := Reconcile(kind, undo, 0, states[0], payload, false);
    assert forward == [states[0].(world := states[0].world[FileAt(path) := Bytes(incoming)])];
  }

  // ---- when a rollback restores a file ----

  /** A process at work on one operation, killed after that many of the states it goes through, or not killed at all. */
  datatype Attempt = Forward(states: nat) | Back(states: nat)

  function Until(disk: Disk, states: seq<Disk>, n: nat): Disk {
    Last(disk, if n < |states| then states[..n] else states)
  }

  /** The disk after one attempt; only the first goes forward without inspecting the target. None without a backup. */
  function Attempted(kind: Kind, undo: Undo, i: nat, payload: Payload, sameVolume: bool, disk: Disk, first: bool, a: Attempt): Option<Disk> {
    match a
    case Forward(n) =>
      Some(Until(disk, if first then Mutation(kind, undo, i, disk, payload, sameVolume)
                       else Reconcile(kind, undo, i, disk, payload, sameVolume), n))
    case Back(n) =>
      var steps := Undoing(kind, undo, i, disk, sameVolume);
      if steps.None? then None else Some(Until(disk, steps.value, n))
  }

  function AfterAttempts(kind: Kind, undo: Undo, i: nat, payload: Payload, sameVolume: bool, disk: Disk, attempts: seq<Attempt>): Option<Disk> {
    if attempts == [] then Some(disk)
    else
      var front := attempts[..|attempts| - 1];
      var reached := AfterAttempts(kind, undo, i, payload, sameVolume, disk, front);
      if reached.None? then None else Attempted(kind, undo, i, payload, sameVolume, reached.value, front == [], attempts[|attempts| - 1])
  }

  /** After any attempts, an undo that is left to finish puts back what was there. */
  predicate Restores(kind: Kind, i: nat, payload: Payload, sameVolume: bool, disk: Disk, before: Option<Content>, attempts: seq<Attempt>) {
    var undo := Prepare(kind, before);
    var reached := AfterAttempts(kind, undo, i, payload, sameVolume, disk, attempts);
    && reached.Some?
    && var steps := Undoing(kind, undo, i, reached.value, sameVolume);
       steps.Some? && Look(Last(reached.value, steps.value).world, kind.Target()) == before
  }

  lemma UntilIsOne(disk: Disk, states: seq<Disk>, n: nat)
    ensures Until(disk, states, n) == disk || exists k :: 0 <= k < |states| && Until(disk, states, n) == states[k]
  {
    if 0 < n < |states| {
      assert states[..n][n - 1] == states[n - 1];
    }
  }

  /** Where no torn backup can be put back every attempt leaves the operation recoverable. */
  lemma {:induction false} AttemptsStayRecoverable(kind: Kind, i: nat, payload: Payload, sameVolume: bool, disk: Disk, before: Option<Content>,
                                                   attempts: seq<Attempt>)
    requires kind.OnFile() && (kind.InstallFile? ==> kind.entry in payload) && BacksUpSafely(kind, before, payload, sameVolume)
    requires Recoverable(kind, i, disk, before, Goal(kind, before, false, payload))
    ensures var reached := AfterAttempts(kind, Prepare(kind, before), i, payload, sameVolume, disk, attempts);
            reached.Some? && Recoverable(kind, i, reached.value, before, Goal(kind, before, false, payload))
  {
    if attempts != [] {
      var front, a := attempts[..|attempts| - 1], attempts[|attempts| - 1];
      AttemptsStayRecoverable(kind, i, payload, sameVolume, disk, before, front);
      var undo, reached := Prepare(kind, before), AfterAttempts(kind, Prepare(kind, before), i, payload, sameVolume, disk, front).value;
      AttemptStays(kind, i, reached, before, payload, front != [], sameVolume);
      hide Mutation, Reconcile, Undoing, Recoverable, Goal, Until;
      if a.Forward? {
        UntilIsOne(reached, if front == [] then Mutation(kind, undo, i, reached, payload, sameVolume)
                            else Reconcile(kind, undo, i, reached, payload, sameVolume), a.states);
      } else {
        UntilIsOne(reached, Undoing(kind, undo, i, reached, sameVolume).value, a.states);
      }
    }
  }

  lemma AttemptStays(kind: Kind, i: nat, disk: Disk, before: Option<Content>, payload: Payload, recovering: bool, sameVolume: bool)
    requires kind.OnFile() && (kind.InstallFile? ==> kind.entry in payload) && BacksUpSafely(kind, before, payload, sameVolume)
    requires Recoverable(kind, i, disk, before, Goal(kind, before, false, payload))
    ensures var undo, goal := Prepare(kind, before), Goal(kind, before, false, payload);
            var states := if recovering then Reconcile(kind, undo, i, disk, payload, sameVolume)
                          else Mutation(kind, undo, i, disk, payload, sameVolume);
            var steps := Undoing(kind, undo, i, disk, sameVolume);
            && (forall k :: 0 <= k < |states| ==> Recoverable(kind, i, states[k], before, goal))
            && steps.Some? && (forall k :: 0 <= k < |steps.value| ==> Recoverable(kind, i, steps.value[k], before, goal))
            && Look(Last(disk, steps.value).world, kind.Target()) == before
  {
    MutationIsRecoverable(kind, i, disk, before, false, payload, recovering, sameVolume);
    UndoingRestores(kind, i, disk, before, false, payload, sameVolume);
    hide Mutation, Reconcile, Undoing, Recoverable, Goal;
  }

  /** A backup made by a copy can be cut short, taken for whole by a restart and put back by a later rollback. */
  lemma CutShortCopyIsPutBack(kind: Kind, i: nat, payload: Payload, disk: Disk, before: Option<Content>)
    requires kind.OnFile() && (kind.InstallFile? ==> kind.entry in payload && Some(payload[kind.entry]) != before)
    requires Look(disk.world, kind.Target()) == before && before.Some? && before != Some(Torn) && i !in disk.backups
    ensures !Restores(kind, i, payload, false, disk, before, [Forward(1), Forward(3)])
  {
    var undo, slot := Prepare(kind, before), kind.Target();
    var one, two := [Forward(1)], [Forward(1), Forward(3)];
    assert one[..0] == [] && two[..1] == one;
    var torn := disk.(backups := disk.backups[i := Torn]);
    assert AfterAttempts(kind, undo, i, payload, false, disk, []) == Some(disk);
    assert Mutation(kind, undo, i, disk, payload, false)[..1] == [torn];
    assert AfterAttempts(kind, undo, i, payload, false, disk, one) == Some(torn);
    var forward := Reconcile(kind, undo, i, torn, payload, false);
    assert |forward| == 1;
    assert AfterAttempts(kind, undo, i, payload, false, disk, two) == Some(forward[0]);
    assert forward[0].backups[i] == Torn && Look(forward[0].world, slot) != before;
  }

  /**
   When a rollback restores a file, over every sequence of kills, restarts and undos: on one volume always; across
   volumes exactly when there was no file, or the package carries the very bytes that are there.
   */
  lemma RestoresExactlyWhen(kind: Kind, i: nat, payload: Payload, sameVolume: bool, disk: Disk, before: Option<Content>)
    requires kind.OnFile() && (kind.InstallFile? ==> kind.entry in payload)
    requires Look(disk.world, kind.Target()) == before && before != Some(Torn) && i !in disk.backups
    ensures (forall attempts :: Restores(kind, i, payload, sameVolume, disk, before, attempts)) <==>
            sameVolume || before.None? || (kind.InstallFile? && Some(payload[kind.entry]) == before)
  {
    if BacksUpSafely(kind, before, payload, sameVolume) {
      forall attempts
        ensures Restores(kind, i, payload, sameVolume, disk, before, attempts)
      {
        AttemptsStayRecoverable(kind, i, payload, sameVolume, disk, before, attempts);
        var reached := AfterAttempts(kind, Prepare(kind, before), i, payload, sameVolume, disk, attempts).value;
        AttemptStays(kind, i, reached, before, payload, true, sameVolume);
      }
    } else {
      CutShortCopyIsPutBack(kind, i, payload, disk, before);
    }
  }
}
